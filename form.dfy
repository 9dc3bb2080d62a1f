/** PokemonForm, the model form declared in pokedata/tests.py: its
    clean_total_stats hook, and the order in which the form cleans its fields,
    which decides what that hook can see. */
module Form {
  import opened Wrappers
  import opened Text
  import opened Serializers

  /** Whether all six stats whose sum the total must be are present. */
  predicate HasStats(cleaned: map<Field, int>) {
    HP in cleaned && Attack in cleaned && Defense in cleaned
    && SpecialAttack in cleaned && SpecialDefense in cleaned && Speed in cleaned
  }

  /** The integer values cleaned so far (form.cleaned_data restricted to the
      integer fields); a field that is not a key has not been cleaned, or its
      cleaning failed. */
  type Cleaned = map<Field, int>

  function StatsTotal(cleaned: Cleaned): int
    requires HasStats(cleaned)
  {
    cleaned[HP] + cleaned[Attack] + cleaned[Defense]
    + cleaned[SpecialAttack] + cleaned[SpecialDefense] + cleaned[Speed]
  }

  /** clean_total_stats(): Ok with the cleaned total (None when it is absent)
      or the ValidationError, which carries the expected sum. */
  function CleanTotalStats(cleaned: Cleaned): (r: Result<Option<int>, int>)
    ensures !HasStats(cleaned) ==>
              r == Ok(if TotalStats in cleaned then Some(cleaned[TotalStats]) else None)
    ensures HasStats(cleaned) && TotalStats in cleaned ==>
              (r.Ok? <==> cleaned[TotalStats] == StatsTotal(cleaned))
    ensures HasStats(cleaned) && TotalStats !in cleaned ==> r == Err(StatsTotal(cleaned))
    ensures r.Ok? ==> r.value == (if TotalStats in cleaned then Some(cleaned[TotalStats]) else None)
    ensures r.Err? ==> HasStats(cleaned) && r.error == StatsTotal(cleaned)
  {
    var total := if TotalStats in cleaned then Some(cleaned[TotalStats]) else None;
    if !HasStats(cleaned) then
      Ok(total)
    else
      var expected := StatsTotal(cleaned);
      if total != Some(expected) then Err(expected) else Ok(total)
  }

  /** The message of the ValidationError: the expected sum in decimal, in
      parentheses after a fixed sentence, which it can be read back from. */
  function MismatchMessage(expected: int): (m: string)
    ensures |m| == 46 + |IntToString(expected)| + 2
    ensures m[46..|m| - 2] == IntToString(expected) && m[|m| - 2..] == ")."
    ensures ParseInt(m[46..|m| - 2]) == Some(expected)
  {
    ParseIntRoundTrip(expected);
    "Total stats must be the sum of the six stats (" + IntToString(expected) + ")."
  }

  /** What the form holds while and after it cleans its fields: the cleaned
      values, and the error clean_total_stats raised (its expected sum), if
      any. */
  datatype FormState = FormState(cleaned: Cleaned, totalError: Option<int>)

  const Unbound: FormState := FormState(map[], None)

  /** The hook's message within form.errors["total_stats"]: present exactly
      when clean_total_stats raised, and the expected sum can be read back
      from it. The field's own validation errors are not part of it. */
  function TotalStatsErrors(st: FormState): (errors: seq<string>)
    ensures |errors| <= 1
    ensures errors != [] <==> st.totalError.Some?
    ensures errors != [] ==> 48 <= |errors[0]| && ParseInt(errors[0][46..|errors[0]| - 2]) == st.totalError
  {
    if st.totalError.Some? then [MismatchMessage(st.totalError.value)] else []
  }

  /** Django cleans the fields one by one in the order of Meta.fields. A field
      that cleans (it is a key of values) enters cleaned_data; if it has a
      clean_<field> hook, the hook runs at once, and an error it raises removes
      the field from cleaned_data again. */
  function CleanFields(order: seq<Field>, values: Cleaned, st: FormState): (r: FormState)
    ensures TotalStats !in order ==> r.totalError == st.totalError
    ensures TotalStats in order && TotalStats !in values ==> r.totalError == st.totalError
    decreases |order|
  {
    if order == [] then st else CleanFields(order[1..], values, Step(order[0], values, st))
  }

  /** Cleaning one field. */
  function Step(f: Field, values: Cleaned, st: FormState): (r: FormState)
    ensures f !in values ==> r == st
    ensures f in values && f != TotalStats ==> r == st.(cleaned := st.cleaned[f := values[f]])
  {
    if f !in values then st
    else if f != TotalStats then st.(cleaned := st.cleaned[f := values[f]])
    else
      var hook := CleanTotalStats(st.cleaned[f := values[f]]);
      if hook.Ok? then st.(cleaned := st.cleaned[f := values[f]])
      else FormState(st.cleaned - {f}, Some(hook.error))
  }

  /** The values of the fields in fields that cleaned. */
  function Restrict(values: Cleaned, fields: seq<Field>): (r: Cleaned)
    ensures forall f :: f in r <==> f in values && f in fields
    ensures forall f | f in r :: r[f] == values[f]
  {
    map f | f in values && f in fields :: values[f]
  }

  /** Cleaning a sequence of fields is cleaning its first part, then the rest. */
  lemma {:induction false} CleanFieldsSplit(a: seq<Field>, b: seq<Field>, values: Cleaned, st: FormState)
    ensures CleanFields(a + b, values, st) == CleanFields(b, values, CleanFields(a, values, st))
    decreases |a|
  {
    if a != [] {
      assert (a + b)[0] == a[0] && (a + b)[1..] == a[1..] + b;
      CleanFieldsSplit(a[1..], b, values, Step(a[0], values, st));
      assert CleanFields(a + b, values, st) == CleanFields(a[1..] + b, values, Step(a[0], values, st));
    } else {
      assert a + b == b;
    }
  }

  /** Fields without a hook only add their values to cleaned_data. */
  lemma {:induction false} CleanWithoutHook(order: seq<Field>, values: Cleaned, st: FormState)
    requires TotalStats !in order
    ensures CleanFields(order, values, st) == FormState(st.cleaned + Restrict(values, order), st.totalError)
    decreases |order|
  {
    if order != [] {
      var next := Step(order[0], values, st);
      CleanWithoutHook(order[1..], values, next);
      RestrictFirst(st.cleaned, values, order);
    }
  }

  /** Adding the first field's value, then the rest, adds them all. */
  lemma RestrictFirst(cleaned: Cleaned, values: Cleaned, order: seq<Field>)
    requires order != []
    ensures (if order[0] in values then cleaned[order[0] := values[order[0]]] else cleaned) + Restrict(values, order[1..])
         == cleaned + Restrict(values, order)
  {
    var f := order[0];
    var left := (if f in values then cleaned[f := values[f]] else cleaned) + Restrict(values, order[1..]);
    var right := cleaned + Restrict(values, order);
    assert forall g :: g in order <==> g == f || g in order[1..];
    assert forall g :: g in left <==> g in right;
  }

  /** clean_total_stats sees exactly the fields cleaned before total_stats:
      whatever comes after it cannot influence the check. */
  lemma HookSeesPrefix(pre: seq<Field>, post: seq<Field>, values: Cleaned)
    requires TotalStats !in pre && TotalStats !in post
    ensures CleanFields(pre + [TotalStats] + post, values, Unbound).totalError
         == (if TotalStats in values && CleanTotalStats(Restrict(values, pre)[TotalStats := values[TotalStats]]).Err?
             then Some(CleanTotalStats(Restrict(values, pre)[TotalStats := values[TotalStats]]).error)
             else None)
  {
    CleanFieldsSplit(pre + [TotalStats], post, values, Unbound);
    CleanFieldsSplit(pre, [TotalStats], values, Unbound);
    CleanWithoutHook(pre, values, Unbound);
    assert map[] + Restrict(values, pre) == Restrict(values, pre);
    var mid := CleanFields(pre + [TotalStats], values, Unbound);
    CleanWithoutHook(post, values, mid);
  }

  /** When total_stats is cleaned before HP, the hook never raises. */
  lemma QuietBeforeStats(pre: seq<Field>, post: seq<Field>, values: Cleaned)
    requires TotalStats !in pre && TotalStats !in post && HP !in pre
    ensures CleanFields(pre + [TotalStats] + post, values, Unbound).totalError == None
  {
    HookSeesPrefix(pre, post, values);
    if TotalStats in values {
      assert HP !in Restrict(values, pre)[TotalStats := values[TotalStats]];
    }
  }

  /** When total_stats is cleaned after the six stats, the hook raises exactly
      when all seven cleaned and the total is not the sum, and names the sum. */
  lemma ChecksAfterStats(pre: seq<Field>, post: seq<Field>, values: Cleaned)
    requires TotalStats !in pre && TotalStats !in post
    requires HP in pre && Attack in pre && Defense in pre
    requires SpecialAttack in pre && SpecialDefense in pre && Speed in pre
    ensures CleanFields(pre + [TotalStats] + post, values, Unbound).totalError.Some?
        <==> HasStats(values) && TotalStats in values && values[TotalStats] != StatsTotal(values)
    ensures CleanFields(pre + [TotalStats] + post, values, Unbound).totalError.Some? ==>
              CleanFields(pre + [TotalStats] + post, values, Unbound).totalError.value == StatsTotal(values)
  {
    HookSeesPrefix(pre, post, values);
    if TotalStats in values {
      var seen := Restrict(values, pre)[TotalStats := values[TotalStats]];
      assert HasStats(seen) <==> HasStats(values);
      if HasStats(values) {
        assert StatsTotal(seen) == StatsTotal(values);
      }
    }
  }

  /** Meta.fields of PokemonForm as written: total_stats comes before the six
      stats. */
  const FormFieldOrder: seq<Field> :=
    [Name, Type1, Type2, TotalStats, HP, Attack, Defense, SpecialAttack, SpecialDefense, Speed, Generation, Legendary]

  /** As written, the hook runs while none of the six stats is in
      cleaned_data yet, so it never raises, whatever the form holds. */
  lemma AsWrittenNeverChecks(values: Cleaned)
    ensures CleanFields(FormFieldOrder, values, Unbound).totalError == None
  {
    var post := [HP, Attack, Defense, SpecialAttack, SpecialDefense, Speed, Generation, Legendary];
    assert FormFieldOrder == [Name, Type1, Type2] + [TotalStats] + post;
    QuietBeforeStats([Name, Type1, Type2], post, values);
  }

  /** All six stats 1 and a total of 10. */
  function MismatchedForm(): (values: Cleaned)
    ensures HasStats(values) && TotalStats in values
    ensures values[TotalStats] == 10 && StatsTotal(values) == 6
  {
    map[TotalStats := 10, HP := 1, Attack := 1, Defense := 1, SpecialAttack := 1, SpecialDefense := 1, Speed := 1]
  }

  /** The hook on its own rejects that form and names 6 as the expected sum,
      yet the form as declared accepts it. */
  lemma MismatchSlipsThrough()
    ensures CleanTotalStats(MismatchedForm()) == Err(6)
    ensures CleanFields(FormFieldOrder, MismatchedForm(), Unbound).totalError == None
    ensures TotalStatsErrors(CleanFields(FormFieldOrder, MismatchedForm(), Unbound)) == []
  {
    AsWrittenNeverChecks(MismatchedForm());
  }

  /** Meta.fields with total_stats after the six stats, so that the hook sees
      them. */
  const CheckedFieldOrder: seq<Field> :=
    [Name, Type1, Type2, HP, Attack, Defense, SpecialAttack, SpecialDefense, Speed, TotalStats, Generation, Legendary]

  /** With that order the form rejects a total exactly when all six stats and
      the total cleaned and the total differs from their sum, and the error
      names the sum. */
  lemma CheckedOrderChecks(values: Cleaned)
    ensures CleanFields(CheckedFieldOrder, values, Unbound).totalError.Some?
        <==> HasStats(values) && TotalStats in values && values[TotalStats] != StatsTotal(values)
    ensures CleanFields(CheckedFieldOrder, values, Unbound).totalError.Some? ==>
              CleanFields(CheckedFieldOrder, values, Unbound).totalError.value == StatsTotal(values)
  {
    var pre := [Name, Type1, Type2, HP, Attack, Defense, SpecialAttack, SpecialDefense, Speed];
    assert pre[3] == HP && pre[4] == Attack && pre[5] == Defense;
    assert pre[6] == SpecialAttack && pre[7] == SpecialDefense && pre[8] == Speed;
    assert CheckedFieldOrder == pre + [TotalStats] + [Generation, Legendary];
    ChecksAfterStats(pre, [Generation, Legendary], values);
  }

  /** The same form is rejected once the fields are in that order. */
  lemma MismatchCaught()
    ensures CleanFields(CheckedFieldOrder, MismatchedForm(), Unbound).totalError == Some(6)
    ensures TotalStatsErrors(CleanFields(CheckedFieldOrder, MismatchedForm(), Unbound)) == [MismatchMessage(6)]
  {
    CheckedOrderChecks(MismatchedForm());
  }
}
