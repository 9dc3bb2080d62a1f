/** PokemonSerializer: the request body a client sends to create or replace a
    record, how each of its twelve writable fields is cleaned, and the
    thirteen-key representation the API sends back. */
module Serializers {
  import opened Wrappers
  import opened Text
  import opened Models

  /** A JSON scalar of a request or response body (floats, lists and nested
      objects are not modelled). */
  datatype Value = VInt(i: int) | VStr(s: string) | VBool(b: bool) | VNull

  /** A parsed JSON request body. */
  type Body = map<string, Value>

  /** The writable fields, in the order of the serializer's field list. */
  datatype Field =
    | Name | Type1 | Type2 | TotalStats | HP | Attack | Defense
    | SpecialAttack | SpecialDefense | Speed | Generation | Legendary

  /** The key of each field in a request body, a response body and an error
      report. */
  function Key(f: Field): string {
    match f
    case Name => "pokemon_name"
    case Type1 => "pokemon_type1"
    case Type2 => "pokemon_type2"
    case TotalStats => "total_stats"
    case HP => "pokemon_HP"
    case Attack => "attack"
    case Defense => "defense"
    case SpecialAttack => "special_attack"
    case SpecialDefense => "special_defense"
    case Speed => "speed"
    case Generation => "generation"
    case Legendary => "legendary"
  }

  /** The field a body key names, if any. */
  function FieldOfKey(k: string): (r: Option<Field>)
    ensures r.Some? ==> Key(r.value) == k
  {
    if k == "pokemon_name" then Some(Name)
    else if k == "pokemon_type1" then Some(Type1)
    else if k == "pokemon_type2" then Some(Type2)
    else if k == "total_stats" then Some(TotalStats)
    else if k == "pokemon_HP" then Some(HP)
    else if k == "attack" then Some(Attack)
    else if k == "defense" then Some(Defense)
    else if k == "special_attack" then Some(SpecialAttack)
    else if k == "special_defense" then Some(SpecialDefense)
    else if k == "speed" then Some(Speed)
    else if k == "generation" then Some(Generation)
    else if k == "legendary" then Some(Legendary)
    else None
  }

  /** Every field has its own key, and none of them is "id". */
  lemma KeyNamesField(f: Field)
    ensures FieldOfKey(Key(f)) == Some(f)
    ensures Key(f) != "id"
  {
  }

  lemma KeyInjective(f: Field, g: Field)
    requires Key(f) == Key(g)
    ensures f == g
  {
    KeyNamesField(f);
    KeyNamesField(g);
  }

  const Writable: set<Field> :=
    {Name, Type1, Type2, TotalStats, HP, Attack, Defense,
     SpecialAttack, SpecialDefense, Speed, Generation, Legendary}

  lemma WritableIsEveryField(f: Field)
    ensures f in Writable
  {
  }

  /** What a body says about the writable fields, keyed by field. Keys that
      name no writable field, "id" among them, are ignored. */
  type Payload = map<Field, Value>

  function Writables(body: Body): (r: Payload)
    ensures forall f :: f in r <==> Key(f) in body
    ensures forall f | f in r :: r[f] == body[Key(f)]
  {
    forall f ensures f in Writable { WritableIsEveryField(f); }
    map f | f in Writable && Key(f) in body :: body[Key(f)]
  }

  /** The entry of one field: None when the body leaves the field out. */
  function Entry(payload: Payload, f: Field): (e: Option<Value>)
    ensures e.Some? <==> f in payload
    ensures e.Some? ==> e.value == payload[f]
  {
    if f in payload then Some(payload[f]) else None
  }

  /** The seven integer fields that carry min_value=1. */
  predicate IsCounted(f: Field) {
    f in {TotalStats, HP, Attack, Defense, SpecialAttack, SpecialDefense, Speed}
  }

  const MaxNameLength: int := 256
  const MinStat: int := 1

  /** The outcome of cleaning one field. Omitted is only possible for the
      optional fields (type2, generation, legendary), which are left out of
      the validated data when the body does not mention them. */
  datatype Check<+T> = Accepted(value: T) | Omitted | Rejected

  /** Python's str() of a body value, which is what a choice field looks up;
      null has none. */
  function ChoiceText(v: Value): (r: Option<string>)
    ensures r.None? <==> v.VNull?
  {
    match v
    case VStr(s) => Some(s)
    case VInt(i) => Some(IntToString(i))
    case VBool(b) => Some(if b then "True" else "False")
    case VNull => None
  }

  predicate NameOk(s: string) {
    s != [] && |s| <= MaxNameLength && '\0' !in s && Strip(s) == s
  }

  /** The trimmed text of a name, if it is non-blank, short enough and free
      of NUL characters. */
  function NameText(s: string): (r: Check<string>)
    ensures !r.Omitted?
    ensures r.Accepted? <==> NameOk(Strip(s))
    ensures r.Accepted? ==> r.value == Strip(s)
    ensures NameOk(s) ==> r == Accepted(s)
  {
    var t := Strip(s);
    StripIdempotent(s);
    if t != [] && |t| <= MaxNameLength && '\0' !in t then Accepted(t) else Rejected
  }

  /** pokemon_name: a required character field. A string or an integer is
      accepted, surrounding whitespace is trimmed, and the trimmed text must be
      non-blank, at most 256 characters and free of NUL characters. */
  function CleanName(e: Option<Value>): (r: Check<string>)
    ensures !r.Omitted?
    ensures r.Accepted? ==> NameOk(r.value)
    ensures e.None? || e == Some(VNull) || (e.Some? && e.value.VBool?) ==> r == Rejected
    ensures e.Some? && e.value.VStr? ==>
              (r.Accepted? <==> NameOk(Strip(e.value.s))) && (r.Accepted? ==> r.value == Strip(e.value.s))
    ensures e.Some? && e.value.VStr? && NameOk(e.value.s) ==> r == Accepted(e.value.s)
    ensures e.Some? && e.value.VInt? ==>
              (r.Accepted? <==> NameOk(Strip(IntToString(e.value.i))))
              && (r.Accepted? ==> r.value == Strip(IntToString(e.value.i)))
  {
    match e
    case None => Rejected
    case Some(VStr(s)) => NameText(s)
    case Some(VInt(i)) => NameText(IntToString(i))
    case Some(_) => Rejected
  }

  /** pokemon_type1: a required choice among the 18 stored type values,
      compared exactly. */
  function CleanType1(e: Option<Value>): (r: Check<string>)
    ensures !r.Omitted?
    ensures r.Accepted? ==> IsTypeChoice(r.value) && e.Some? && ChoiceText(e.value) == Some(r.value)
    ensures e.Some? && e.value.VStr? && IsTypeChoice(e.value.s) ==> r == Accepted(e.value.s)
  {
    if e.None? then Rejected
    else
      var text := ChoiceText(e.value);
      if text.Some? && IsTypeChoice(text.value) then Accepted(text.value) else Rejected
  }

  /** A second type that the API can hold: absent, blank, or one of the 18. */
  predicate SecondTypeOk(t: Option<string>) {
    t.None? || t.value == "" || IsTypeChoice(t.value)
  }

  /** pokemon_type2: an optional choice that also admits null and the empty
      string; the empty string is kept as it is, not turned into null. */
  function CleanType2(e: Option<Value>): (r: Check<Option<string>>)
    ensures r.Omitted? <==> e.None?
    ensures r.Accepted? ==> SecondTypeOk(r.value)
    ensures e == Some(VNull) ==> r == Accepted(None)
    ensures e.Some? && e.value.VStr? && SecondTypeOk(Some(e.value.s)) ==> r == Accepted(Some(e.value.s))
    ensures e.Some? && e.value != VNull ==>
              (r.Accepted? <==> e.value == VStr("") || (ChoiceText(e.value).Some? && IsTypeChoice(ChoiceText(e.value).value)))
    ensures e.Some? && e.value != VNull && r.Accepted? ==> r.value == ChoiceText(e.value)
  {
    if e.None? then Omitted
    else if e.value == VNull then Accepted(None)
    else if e.value == VStr("") then Accepted(Some(""))
    else
      var text := ChoiceText(e.value);
      if text.Some? && IsTypeChoice(text.value) then Accepted(Some(text.value)) else Rejected
  }

  /** The integer an integer field reads from a body value: a JSON integer,
      or a string int() accepts. */
  function IntegerValue(v: Value): Option<int> {
    match v
    case VInt(i) => Some(i)
    case VStr(s) => ParseInt(s)
    case _ => None
  }

  /** total_stats and the six stats: required integers, each at least 1. */
  function CleanCount(e: Option<Value>): (r: Check<int>)
    ensures !r.Omitted?
    ensures r.Accepted? <==> e.Some? && IntegerValue(e.value).Some? && IntegerValue(e.value).value >= MinStat
    ensures r.Accepted? ==> r.value == IntegerValue(e.value).value
  {
    if e.None? then Rejected
    else
      var n := IntegerValue(e.value);
      if n.Some? && n.value >= MinStat then Accepted(n.value) else Rejected
  }

  /** The generation a choice string denotes: "1" to "6". */
  function GenerationChoice(s: string): (r: Option<int>)
    ensures r.Some? ==> IsGeneration(r.value) && IntToString(r.value) == s
  {
    if |s| == 1 && '1' <= s[0] <= '6' then Some(s[0] as int - '0' as int) else None
  }

  /** generation: an optional choice among 1..6, looked up by its text. */
  function CleanGeneration(e: Option<Value>): (r: Check<int>)
    ensures r.Omitted? <==> e.None?
    ensures r.Accepted? ==> IsGeneration(r.value)
    ensures e.Some? && e.value.VInt? && IsGeneration(e.value.i) ==> r == Accepted(e.value.i)
    ensures e.Some? ==> (r.Accepted? <==> ChoiceText(e.value).Some? && GenerationChoice(ChoiceText(e.value).value).Some?)
    ensures r.Accepted? ==> Some(IntToString(r.value)) == ChoiceText(e.value)
    ensures e.Some? && e.value.VInt? ==> (r.Accepted? <==> IsGeneration(e.value.i)) && (r.Accepted? ==> r.value == e.value.i)
  {
    if e.None? then Omitted
    else
      var text := ChoiceText(e.value);
      assert e.value.VInt? && text.Some? && GenerationChoice(text.value).Some? ==>
               GenerationChoice(text.value).value == e.value.i by {
        if e.value.VInt? && text.Some? && GenerationChoice(text.value).Some? {
          ParseIntRoundTrip(e.value.i);
          ParseIntRoundTrip(GenerationChoice(text.value).value);
        }
      }
      if text.Some? && GenerationChoice(text.value).Some? then Accepted(GenerationChoice(text.value).value)
      else Rejected
  }

  const TrueTexts: seq<string> := ["t", "T", "y", "Y", "yes", "Yes", "YES", "true", "True", "TRUE", "on", "On", "ON", "1"]
  const FalseTexts: seq<string> := ["f", "F", "n", "N", "no", "No", "NO", "false", "False", "FALSE", "off", "Off", "OFF", "0"]

  /** Whether s is one of the spellings, looked up one by one. */
  predicate Spelled(s: string, spellings: seq<string>)
    decreases |spellings|
  {
    spellings != [] && (spellings[0] == s || Spelled(s, spellings[1..]))
  }

  /** legendary: an optional boolean, given as a JSON boolean, 1 or 0, or one
      of the spellings of true and false. */
  function CleanLegendary(e: Option<Value>): (r: Check<bool>)
    ensures r.Omitted? <==> e.None?
    ensures e.Some? && e.value.VBool? ==> r == Accepted(e.value.b)
    ensures e == Some(VNull) ==> r == Rejected
    ensures e.Some? && e.value.VInt? ==>
              r == (if e.value.i == 1 then Accepted(true) else if e.value.i == 0 then Accepted(false) else Rejected)
    ensures e.Some? && e.value.VStr? ==>
              (r == Accepted(true) <==> Spelled(e.value.s, TrueTexts))
              && (r == Accepted(false) <==> !Spelled(e.value.s, TrueTexts) && Spelled(e.value.s, FalseTexts))
              && (r.Rejected? <==> !Spelled(e.value.s, TrueTexts) && !Spelled(e.value.s, FalseTexts))
  {
    match e
    case None => Omitted
    case Some(VBool(b)) => Accepted(b)
    case Some(VInt(i)) => if i == 1 then Accepted(true) else if i == 0 then Accepted(false) else Rejected
    case Some(VStr(s)) => if Spelled(s, TrueTexts) then Accepted(true) else if Spelled(s, FalseTexts) then Accepted(false) else Rejected
    case Some(VNull) => Rejected
  }

  /** Whether cleaning the entry e of the field f fails. */
  predicate RejectsEntry(f: Field, e: Option<Value>) {
    match f
    case Name => CleanName(e).Rejected?
    case Type1 => CleanType1(e).Rejected?
    case Type2 => CleanType2(e).Rejected?
    case Generation => CleanGeneration(e).Rejected?
    case Legendary => CleanLegendary(e).Rejected?
    case _ => CleanCount(e).Rejected?
  }

  predicate Rejects(f: Field, payload: Payload) {
    RejectsEntry(f, Entry(payload, f))
  }

  /** serializer.validated_data: an optional field the body left out is None. */
  datatype Validated = Validated(
    name: string,
    type1: string,
    type2: Option<Option<string>>,
    totalStats: int,
    hp: int,
    attack: int,
    defense: int,
    specialAttack: int,
    specialDefense: int,
    speed: int,
    generation: Option<int>,
    legendary: Option<bool>)

  /** What validation guarantees of the data it lets through. */
  predicate WellFormed(v: Validated) {
    && NameOk(v.name)
    && IsTypeChoice(v.type1)
    && (v.type2.Some? ==> SecondTypeOk(v.type2.value))
    && v.totalStats >= MinStat
    && v.hp >= MinStat && v.attack >= MinStat && v.defense >= MinStat
    && v.specialAttack >= MinStat && v.specialDefense >= MinStat && v.speed >= MinStat
    && (v.generation.Some? ==> IsGeneration(v.generation.value))
  }

  /** The fields whose cleaning fails: the keys of serializer.errors. */
  function Errors(payload: Payload): (e: set<Field>)
    ensures forall f :: f in e <==> Rejects(f, payload)
  {
    forall f ensures f in Writable { WritableIsEveryField(f); }
    set f | f in Writable && Rejects(f, payload)
  }

  /** The optional part of validated data: None when the field was left out. */
  function Given<T>(c: Check<T>): (r: Option<T>)
    requires !c.Rejected?
    ensures r.Some? <==> c.Accepted?
    ensures r.Some? ==> r.value == c.value
  {
    if c.Accepted? then Some(c.value) else None
  }

  function NameOf(e: Option<Value>): (s: string)
    requires CleanName(e).Accepted?
    ensures NameOk(s)
    ensures e.Some? && e.value.VStr? && NameOk(e.value.s) ==> s == e.value.s
  {
    CleanName(e).value
  }

  function Type1Of(e: Option<Value>): (s: string)
    requires CleanType1(e).Accepted?
    ensures IsTypeChoice(s)
    ensures e.Some? && e.value.VStr? && IsTypeChoice(e.value.s) ==> s == e.value.s
  {
    CleanType1(e).value
  }

  function Type2Of(e: Option<Value>): (t: Option<Option<string>>)
    requires !CleanType2(e).Rejected?
    ensures t.Some? <==> e.Some?
    ensures t.Some? ==> SecondTypeOk(t.value)
    ensures e == Some(VNull) ==> t == Some(None)
    ensures e.Some? && e.value.VStr? && SecondTypeOk(Some(e.value.s)) ==> t == Some(Some(e.value.s))
  {
    Given(CleanType2(e))
  }

  function CountOf(e: Option<Value>): (n: int)
    requires CleanCount(e).Accepted?
    ensures n >= MinStat
    ensures e.Some? && e.value.VInt? ==> n == e.value.i
  {
    CleanCount(e).value
  }

  function GenerationOf(e: Option<Value>): (g: Option<int>)
    requires !CleanGeneration(e).Rejected?
    ensures g.Some? <==> e.Some?
    ensures g.Some? ==> IsGeneration(g.value)
    ensures e.Some? && e.value.VInt? && IsGeneration(e.value.i) ==> g == Some(e.value.i)
  {
    Given(CleanGeneration(e))
  }

  function LegendaryOf(e: Option<Value>): (b: Option<bool>)
    requires !CleanLegendary(e).Rejected?
    ensures b.Some? <==> e.Some?
    ensures e.Some? && e.value.VBool? ==> b == Some(e.value.b)
  {
    Given(CleanLegendary(e))
  }

  /** Whether the body is free of errors. */
  lemma NoErrors(payload: Payload)
    ensures Errors(payload) == {} <==> forall f :: !Rejects(f, payload)
  {
    if Errors(payload) != {} {
      var f :| f in Errors(payload);
    }
  }

  /** A body without errors has every field's cleaning succeed. */
  lemma TextsAccepted(payload: Payload)
    requires !Rejects(Name, payload) && !Rejects(Type1, payload) && !Rejects(Type2, payload)
    ensures CleanName(Entry(payload, Name)).Accepted?
    ensures CleanType1(Entry(payload, Type1)).Accepted?
    ensures !CleanType2(Entry(payload, Type2)).Rejected?
  {
  }

  lemma CountAccepted(payload: Payload, f: Field)
    requires IsCounted(f) && !Rejects(f, payload)
    ensures CleanCount(Entry(payload, f)).Accepted?
  {
  }

  lemma ChoicesAccepted(payload: Payload)
    requires !Rejects(Generation, payload) && !Rejects(Legendary, payload)
    ensures !CleanGeneration(Entry(payload, Generation)).Rejected?
    ensures !CleanLegendary(Entry(payload, Legendary)).Rejected?
  {
  }

  lemma AllAccepted(payload: Payload)
    requires forall f :: !Rejects(f, payload)
    ensures CleanName(Entry(payload, Name)).Accepted?
    ensures CleanType1(Entry(payload, Type1)).Accepted?
    ensures !CleanType2(Entry(payload, Type2)).Rejected?
    ensures CleanCount(Entry(payload, TotalStats)).Accepted?
    ensures CleanCount(Entry(payload, HP)).Accepted?
    ensures CleanCount(Entry(payload, Attack)).Accepted?
    ensures CleanCount(Entry(payload, Defense)).Accepted?
    ensures CleanCount(Entry(payload, SpecialAttack)).Accepted?
    ensures CleanCount(Entry(payload, SpecialDefense)).Accepted?
    ensures CleanCount(Entry(payload, Speed)).Accepted?
    ensures !CleanGeneration(Entry(payload, Generation)).Rejected?
    ensures !CleanLegendary(Entry(payload, Legendary)).Rejected?
  {
    TextsAccepted(payload);
    CountAccepted(payload, TotalStats);
    CountAccepted(payload, HP);
    CountAccepted(payload, Attack);
    CountAccepted(payload, Defense);
    CountAccepted(payload, SpecialAttack);
    CountAccepted(payload, SpecialDefense);
    CountAccepted(payload, Speed);
    ChoicesAccepted(payload);
  }

  /** serializer.validated_data of a body without errors. */
  function Cleaned(payload: Payload): (v: Validated)
    requires forall f :: !Rejects(f, payload)
    ensures WellFormed(v)
  {
    AllAccepted(payload);
    Validated(
      NameOf(Entry(payload, Name)),
      Type1Of(Entry(payload, Type1)),
      Type2Of(Entry(payload, Type2)),
      CountOf(Entry(payload, TotalStats)),
      CountOf(Entry(payload, HP)),
      CountOf(Entry(payload, Attack)),
      CountOf(Entry(payload, Defense)),
      CountOf(Entry(payload, SpecialAttack)),
      CountOf(Entry(payload, SpecialDefense)),
      CountOf(Entry(payload, Speed)),
      GenerationOf(Entry(payload, Generation)),
      LegendaryOf(Entry(payload, Legendary)))
  }

  /** serializer.is_valid(): every field is cleaned, the errors are reported
      per field, and the body is valid exactly when no field failed. There is
      no check across fields: total_stats is not compared with the stats. */
  function Validate(payload: Payload): (r: Result<Validated, set<Field>>)
    ensures r.Ok? <==> forall f :: !Rejects(f, payload)
    ensures r.Err? ==> r.error == Errors(payload) && r.error != {}
    ensures r.Ok? ==> WellFormed(r.value)
  {
    NoErrors(payload);
    if Errors(payload) != {} then Err(Errors(payload)) else Ok(Cleaned(payload))
  }

  /** serializer.save() with an instance: every validated field is assigned;
      an optional field the body left out keeps the instance's value. */
  function Update(current: Pokemon, v: Validated): (p: Pokemon)
    ensures p.name == v.name && p.type1 == v.type1 && p.totalStats == v.totalStats
    ensures p.hp == v.hp && p.attack == v.attack && p.defense == v.defense
    ensures p.specialAttack == v.specialAttack && p.specialDefense == v.specialDefense && p.speed == v.speed
    ensures p.type2 == (if v.type2.Some? then v.type2.value else current.type2)
    ensures p.generation == (if v.generation.Some? then v.generation.value else current.generation)
    ensures p.legendary == (if v.legendary.Some? then v.legendary.value else current.legendary)
  {
    Pokemon(
      v.name, v.type1,
      if v.type2.Some? then v.type2.value else current.type2,
      v.totalStats, v.hp, v.attack, v.defense, v.specialAttack, v.specialDefense, v.speed,
      if v.generation.Some? then v.generation.value else current.generation,
      if v.legendary.Some? then v.legendary.value else current.legendary)
  }

  /** serializer.save() without an instance: a new record from the validated
      data, the model defaults standing in for what the body left out. The
      total is the supplied one; the model's save() replaces it. */
  function Create(v: Validated): (p: Pokemon)
    ensures p.name == v.name && p.type1 == v.type1
    ensures p.type2 == (if v.type2.Some? then v.type2.value else None)
    ensures p.generation == (if v.generation.Some? then v.generation.value else DefaultGeneration)
    ensures p.legendary == (v.legendary == Some(true))
  {
    Update(Blank, v)
  }

  /** A record the API can both accept and send back unchanged. */
  predicate Representable(p: Pokemon) {
    && NameOk(p.name)
    && IsTypeChoice(p.type1)
    && SecondTypeOk(p.type2)
    && p.totalStats >= MinStat
    && p.hp >= MinStat && p.attack >= MinStat && p.defense >= MinStat
    && p.specialAttack >= MinStat && p.specialDefense >= MinStat && p.speed >= MinStat
    && IsGeneration(p.generation)
  }

  /** A validated body satisfies the database's column constraints, whether
      it creates a record or updates one that satisfies them. */
  lemma ValidatedPersistable(v: Validated, q: Pokemon)
    requires WellFormed(v)
    ensures Persistable(Create(v))
    ensures Persistable(q) ==> Persistable(Update(q, v))
  {
  }

  /** Whatever the API creates is, once saved, representable again. */
  lemma CreatedRepresentable(v: Validated)
    requires WellFormed(v)
    ensures Representable(Recomputed(Create(v)))
  {
  }

  /** The keys of a response body: "id" and one per writable field. */
  datatype Column = Id | Data(field: Field)

  function ColumnKey(c: Column): string {
    match c
    case Id => "id"
    case Data(f) => Key(f)
  }

  const Columns: set<Column> :=
    {Id, Data(Name), Data(Type1), Data(Type2), Data(TotalStats), Data(HP), Data(Attack), Data(Defense),
     Data(SpecialAttack), Data(SpecialDefense), Data(Speed), Data(Generation), Data(Legendary)}

  /** The thirteen columns have thirteen distinct keys. */
  lemma ColumnsDistinct(c: Column, d: Column)
    requires ColumnKey(c) == ColumnKey(d)
    ensures c == d
  {
    if c.Data? && d.Data? {
      KeyInjective(c.field, d.field);
    } else if c.Data? {
      KeyNamesField(c.field);
    } else if d.Data? {
      KeyNamesField(d.field);
    }
  }

  lemma ColumnCount()
    ensures |Columns| == 13
    ensures forall c :: c in Columns
  {
    forall c ensures c in Columns {
      if c.Data? {
        WritableIsEveryField(c.field);
      }
    }
  }

  /** The value the representation gives each field of a stored record. */
  function FieldValue(p: Pokemon, f: Field): Value {
    match f
    case Name => VStr(p.name)
    case Type1 => VStr(p.type1)
    case Type2 => if p.type2.Some? then VStr(p.type2.value) else VNull
    case TotalStats => VInt(p.totalStats)
    case HP => VInt(p.hp)
    case Attack => VInt(p.attack)
    case Defense => VInt(p.defense)
    case SpecialAttack => VInt(p.specialAttack)
    case SpecialDefense => VInt(p.specialDefense)
    case Speed => VInt(p.speed)
    case Generation => VInt(p.generation)
    case Legendary => VBool(p.legendary)
  }

  /** serializer.data for one record: all thirteen columns, the id the table
      assigned and each field's stored value. */
  function Serialize(id: nat, p: Pokemon): (r: map<Column, Value>)
    ensures forall c :: c in r
    ensures r[Id] == VInt(id)
    ensures forall f :: r[Data(f)] == FieldValue(p, f)
  {
    ColumnCount();
    map c | c in Columns :: if c.Id? then VInt(id) else FieldValue(p, c.field)
  }

  /** The body a client sends back after reading a record: its fields, the
      read-only id dropped. */
  function Resubmit(r: map<Column, Value>): (payload: Payload)
    requires forall f :: Data(f) in r
    ensures forall f :: f in payload && payload[f] == r[Data(f)]
  {
    ColumnCount();
    forall f ensures f in Writable { WritableIsEveryField(f); }
    map f | f in Writable :: r[Data(f)]
  }

  /** Whether a body holds, for every field, the value the representation of
      p gives it. */
  predicate Carries(payload: Payload, p: Pokemon) {
    && Entry(payload, Name) == Some(VStr(p.name))
    && Entry(payload, Type1) == Some(VStr(p.type1))
    && Entry(payload, Type2) == Some(FieldValue(p, Type2))
    && Entry(payload, TotalStats) == Some(VInt(p.totalStats))
    && Entry(payload, HP) == Some(VInt(p.hp))
    && Entry(payload, Attack) == Some(VInt(p.attack))
    && Entry(payload, Defense) == Some(VInt(p.defense))
    && Entry(payload, SpecialAttack) == Some(VInt(p.specialAttack))
    && Entry(payload, SpecialDefense) == Some(VInt(p.specialDefense))
    && Entry(payload, Speed) == Some(VInt(p.speed))
    && Entry(payload, Generation) == Some(VInt(p.generation))
    && Entry(payload, Legendary) == Some(VBool(p.legendary))
  }

  /** Each field of a representable record, as the representation gives it,
      is accepted by that field's cleaning. */
  lemma RepresentationAccepted(payload: Payload, p: Pokemon, f: Field)
    requires Representable(p) && Carries(payload, p)
    ensures !Rejects(f, payload)
  {
    match f
    case Name =>
    case Type1 =>
    case Type2 =>
    case Generation => GenerationText(p.generation);
    case Legendary =>
    case _ =>
  }

  /** The validated data a body holding exactly a record's representation
      yields: every field of the record, each one given. */
  function AsValidated(p: Pokemon): Validated {
    Validated(p.name, p.type1, Some(p.type2), p.totalStats, p.hp, p.attack, p.defense,
              p.specialAttack, p.specialDefense, p.speed, Some(p.generation), Some(p.legendary))
  }

  /** The validated data of a body holding a representable record's fields. */
  lemma CleanedRepresentation(payload: Payload, p: Pokemon)
    requires Representable(p) && Carries(payload, p)
    requires forall f :: !Rejects(f, payload)
    ensures Cleaned(payload) == AsValidated(p)
  {
  }

  /** A body holding a representable record's fields is valid and yields
      exactly that record's fields. */
  lemma ValidateRepresentation(payload: Payload, p: Pokemon)
    requires Representable(p) && Carries(payload, p)
    ensures Validate(payload) == Ok(AsValidated(p))
  {
    forall f ensures !Rejects(f, payload) {
      RepresentationAccepted(payload, p, f);
    }
    CleanedRepresentation(payload, p);
  }

  /** Sending a representable record back re-creates it exactly, and as a
      PUT body replaces any record by it. */
  lemma SerializeRoundTrip(id: nat, p: Pokemon, q: Pokemon)
    requires Representable(p)
    ensures Validate(Resubmit(Serialize(id, p))).Ok?
    ensures Create(Validate(Resubmit(Serialize(id, p))).value) == p
    ensures Update(q, Validate(Resubmit(Serialize(id, p))).value) == p
  {
    ResubmitCarries(id, p);
    ValidateRepresentation(Resubmit(Serialize(id, p)), p);
  }

  /** The fields a client sends back carry the record they came from. */
  lemma ResubmitCarries(id: nat, p: Pokemon)
    ensures Carries(Resubmit(Serialize(id, p)), p)
  {
    var body := Resubmit(Serialize(id, p));
    assert forall f :: Entry(body, f) == Some(FieldValue(p, f));
    CarriesEveryField(body, p);
  }

  lemma CarriesEveryField(payload: Payload, p: Pokemon)
    requires forall f :: Entry(payload, f) == Some(FieldValue(p, f))
    ensures Carries(payload, p)
  {
  }

  lemma GenerationText(g: int)
    requires IsGeneration(g)
    ensures ChoiceText(VInt(g)) == Some(IntToString(g))
    ensures GenerationChoice(IntToString(g)) == Some(g)
  {
  }

  /** A stat or total below 1 is rejected, and the error report names that
      field. */
  lemma CountBelowOneRejected(payload: Payload, f: Field, n: int)
    requires IsCounted(f)
    requires f in payload && IntegerValue(payload[f]) == Some(n) && n < MinStat
    ensures Validate(payload).Err?
    ensures f in Validate(payload).error
  {
    assert Rejects(f, payload);
  }

  /** A missing stat or total is rejected too: all seven are required. */
  lemma CountRequired(payload: Payload, f: Field)
    requires IsCounted(f) && f !in payload
    ensures Validate(payload).Err? && f in Validate(payload).error
  {
    assert Rejects(f, payload);
  }

  /** Cleaning looks at each field's own entry: replacing the total by
      another positive integer leaves every other field's cleaning as it was. */
  lemma TotalReplaced(payload: Payload, n: int, changed: Payload)
    requires forall f :: !Rejects(f, payload)
    requires n >= MinStat && changed == payload[TotalStats := VInt(n)]
    ensures forall f :: !Rejects(f, changed)
    ensures Cleaned(changed) == Cleaned(payload).(totalStats := n)
  {
    forall f ensures !Rejects(f, changed) {
      TotalReplacedAccepted(payload, n, changed, f);
    }
    assert forall f | f != TotalStats :: Entry(changed, f) == Entry(payload, f);
  }

  lemma TotalReplacedAccepted(payload: Payload, n: int, changed: Payload, f: Field)
    requires !Rejects(f, payload)
    requires n >= MinStat && changed == payload[TotalStats := VInt(n)]
    ensures !Rejects(f, changed)
  {
    if f != TotalStats {
      assert Entry(changed, f) == Entry(payload, f);
    } else {
      assert Entry(changed, f) == Some(VInt(n));
    }
  }

  /** save() recomputes the total, so the supplied one does not matter. */
  lemma SavedIgnoresTotal(v: Validated, n: int)
    ensures Recomputed(Create(v.(totalStats := n))) == Recomputed(Create(v))
  {
  }

  /** The serializer has no cross-field check: a body valid with one total is
      valid with any other positive total, and after save() both bodies store
      the same record, whose total is the sum of its stats. */
  lemma TotalNotCrossChecked(payload: Payload, n: int)
    requires Validate(payload).Ok?
    requires n >= MinStat
    ensures Validate(payload[TotalStats := VInt(n)]).Ok?
    ensures Recomputed(Create(Validate(payload[TotalStats := VInt(n)]).value))
         == Recomputed(Create(Validate(payload).value))
    ensures TotalIsSum(Recomputed(Create(Validate(payload).value)))
  {
    TotalReplaced(payload, n, payload[TotalStats := VInt(n)]);
    SavedIgnoresTotal(Validate(payload).value, n);
  }
}
