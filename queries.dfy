/** The read-only listings: by generation, legendary only, by one type in
    either slot, and by an unordered pair of types. Each is a filter of the
    table in its default ordering; type matching is case-insensitive and a
    missing second type never matches. */
module Queries {
  import opened Wrappers
  import opened Text
  import opened Models

  /** `pokemon_type2__iexact=t`: a NULL column matches nothing. */
  predicate SlotIs(slot: Option<string>, t: string) {
    slot.Some? && SameIgnoringCase(slot.value, t)
  }

  /** One `filter(...)` condition of the listings. */
  datatype Criterion =
    | GenerationIs(gen: int)
    | IsLegendary
    | HasType(t: string)
    | HasTypePair(first: string, second: string)

  predicate Matches(c: Criterion, p: Pokemon) {
    match c
    case GenerationIs(g) => p.generation == g
    case IsLegendary => p.legendary
    case HasType(t) => SameIgnoringCase(p.type1, t) || SlotIs(p.type2, t)
    case HasTypePair(a, b) =>
      || (SameIgnoringCase(p.type1, a) && SlotIs(p.type2, b))
      || (SameIgnoringCase(p.type1, b) && SlotIs(p.type2, a))
  }

  /** Successive filter() calls combine by conjunction. */
  predicate MatchesAll(cs: seq<Criterion>, p: Pokemon) {
    forall c | c in cs :: Matches(c, p)
  }

  lemma EmptyWhenNoMember(ids: seq<nat>)
    ensures (forall id :: id !in ids) ==> ids == []
  {
    if ids != [] {
      assert ids[0] in ids;
    }
  }

  predicate AllIn(rows: map<nat, Pokemon>, ids: seq<nat>) {
    forall i :: 0 <= i < |ids| ==> ids[i] in rows
  }

  lemma SingleCriterion(c: Criterion)
    ensures forall p :: MatchesAll([c], p) == Matches(c, p)
  {
  }

  /** The ids of ids whose rows satisfy every criterion, in their order. */
  function Keep(rows: map<nat, Pokemon>, ids: seq<nat>, cs: seq<Criterion>): (r: seq<nat>)
    requires AllIn(rows, ids)
    ensures AllIn(rows, r)
    ensures forall id :: id in r <==> id in ids && MatchesAll(cs, rows[id])
    ensures Distinct(ids) ==> Distinct(r)
    ensures InListingOrder(rows, ids) ==> InListingOrder(rows, r)
  {
    if ids == [] then []
    else
      var rest := Keep(rows, ids[1..], cs);
      if MatchesAll(cs, rows[ids[0]]) then
        assert forall k :: 0 <= k < |rest| ==> rest[k] in ids[1..];
        [ids[0]] + rest
      else
        rest
  }

  /** The table in its default ordering, restricted to the rows that satisfy
      every criterion: each matching row exactly once, nothing else. */
  function Select(rows: map<nat, Pokemon>, cs: seq<Criterion>): (ids: seq<nat>)
    ensures AllIn(rows, ids)
    ensures forall id :: id in ids <==> id in rows && MatchesAll(cs, rows[id])
    ensures Distinct(ids)
    ensures InListingOrder(rows, ids)
  {
    Keep(rows, Listing(rows), cs)
  }

  /** Two lists of criteria that agree on every row select the same ids. */
  lemma {:induction false} KeepAgrees(rows: map<nat, Pokemon>, ids: seq<nat>, cs: seq<Criterion>, ds: seq<Criterion>)
    requires AllIn(rows, ids)
    requires forall id | id in rows :: MatchesAll(cs, rows[id]) == MatchesAll(ds, rows[id])
    ensures Keep(rows, ids, cs) == Keep(rows, ids, ds)
  {
    if ids != [] {
      KeepAgrees(rows, ids[1..], cs, ds);
    }
  }

  /** filter(generation=gen): exactly the rows of that generation. */
  function ByGeneration(rows: map<nat, Pokemon>, gen: int): (ids: seq<nat>)
    ensures AllIn(rows, ids) && Distinct(ids) && InListingOrder(rows, ids)
    ensures forall id :: id in ids <==> id in rows && rows[id].generation == gen
  {
    SingleCriterion(GenerationIs(gen));
    Select(rows, [GenerationIs(gen)])
  }

  /** filter(legendary=True): exactly the legendary rows. */
  function LegendaryOnly(rows: map<nat, Pokemon>): (ids: seq<nat>)
    ensures AllIn(rows, ids) && Distinct(ids) && InListingOrder(rows, ids)
    ensures forall id :: id in ids <==> id in rows && rows[id].legendary
  {
    SingleCriterion(IsLegendary);
    Select(rows, [IsLegendary])
  }

  /** One type, in either slot, ignoring case; distinct. */
  function BySingleType(rows: map<nat, Pokemon>, t: string): (ids: seq<nat>)
    ensures AllIn(rows, ids) && Distinct(ids) && InListingOrder(rows, ids)
    ensures forall id :: id in ids <==>
      id in rows && (SameIgnoringCase(rows[id].type1, t) || SlotIs(rows[id].type2, t))
  {
    SingleCriterion(HasType(t));
    Select(rows, [HasType(t)])
  }

  /** An unordered pair of types, ignoring case; distinct. */
  function ByTypePair(rows: map<nat, Pokemon>, t1: string, t2: string): (ids: seq<nat>)
    ensures AllIn(rows, ids) && Distinct(ids) && InListingOrder(rows, ids)
    ensures forall id :: id in ids <==> (id in rows &&
      (|| (SameIgnoringCase(rows[id].type1, t1) && SlotIs(rows[id].type2, t2))
       || (SameIgnoringCase(rows[id].type1, t2) && SlotIs(rows[id].type2, t1))))
  {
    SingleCriterion(HasTypePair(t1, t2));
    Select(rows, [HasTypePair(t1, t2)])
  }

  /** pokemon_by_type: a pair query when a non-empty second type is given,
      otherwise a single-type query on the first. */
  function ByType(rows: map<nat, Pokemon>, type1: string, type2: Option<string>): (ids: seq<nat>)
    ensures AllIn(rows, ids) && Distinct(ids) && InListingOrder(rows, ids)
    ensures type2.Some? && type2.value != "" ==> ids == ByTypePair(rows, type1, type2.value)
    ensures type2 == None || type2 == Some("") ==> ids == BySingleType(rows, type1)
  {
    if type2.Some? && type2.value != "" then ByTypePair(rows, type1, type2.value)
    else BySingleType(rows, type1)
  }

  /** The pair query does not depend on the order of its two types. */
  lemma TypePairSymmetric(rows: map<nat, Pokemon>, t1: string, t2: string)
    ensures ByTypePair(rows, t1, t2) == ByTypePair(rows, t2, t1)
  {
    SingleCriterion(HasTypePair(t1, t2));
    SingleCriterion(HasTypePair(t2, t1));
    KeepAgrees(rows, Listing(rows), [HasTypePair(t1, t2)], [HasTypePair(t2, t1)]);
  }

  /** The single-type query depends on the spelling of the type only up to
      case. */
  lemma SingleTypeIgnoresCase(rows: map<nat, Pokemon>, a: string, a': string)
    requires SameIgnoringCase(a, a')
    ensures BySingleType(rows, a) == BySingleType(rows, a')
  {
    SingleCriterion(HasType(a));
    SingleCriterion(HasType(a'));
    KeepAgrees(rows, Listing(rows), [HasType(a)], [HasType(a')]);
  }

  /** So does the pair query, for both of its types. */
  lemma TypePairIgnoresCase(rows: map<nat, Pokemon>, a: string, b: string, a': string, b': string)
    requires SameIgnoringCase(a, a') && SameIgnoringCase(b, b')
    ensures ByTypePair(rows, a, b) == ByTypePair(rows, a', b')
  {
    SingleCriterion(HasTypePair(a, b));
    SingleCriterion(HasTypePair(a', b'));
    KeepAgrees(rows, Listing(rows), [HasTypePair(a, b)], [HasTypePair(a', b')]);
  }

  /** A row without a second type never answers a pair query, and every row
      that does answer it also answers both single-type queries. */
  lemma TypePairWithinSingles(rows: map<nat, Pokemon>, t1: string, t2: string, id: nat)
    ensures id in rows && rows[id].type2 == None ==> id !in ByTypePair(rows, t1, t2)
    ensures id in ByTypePair(rows, t1, t2) ==> id in BySingleType(rows, t1) && id in BySingleType(rows, t2)
  {
  }

  /** With every stored generation one of I..VI, a query for any other
      generation is empty (an empty list, not an error). */
  lemma UnknownGenerationEmpty(rows: map<nat, Pokemon>, gen: int)
    requires forall id | id in rows :: IsGeneration(rows[id].generation)
    requires !IsGeneration(gen)
    ensures ByGeneration(rows, gen) == []
  {
    EmptyWhenNoMember(ByGeneration(rows, gen));
  }

  /** A blank second type (what the serializer stores for "") answers the
      type queries exactly as a missing one does, for any non-empty type. */
  lemma BlankSecondTypeActsAbsent(p: Pokemon, t: string, u: string)
    requires t != "" && u != ""
    ensures Matches(HasType(t), p.(type2 := Some(""))) == Matches(HasType(t), p.(type2 := None))
    ensures Matches(HasTypePair(t, u), p.(type2 := Some(""))) == Matches(HasTypePair(t, u), p.(type2 := None))
  {
    assert |Lower(t)| > 0 && |Lower(u)| > 0;
  }

  // ---------------------------------------------------------------------------
  // The fixture of the single- and two-type API tests

  function Mon(name: string, type1: string, type2: Option<string>): Pokemon {
    Pokemon(name, type1, type2, 6, 1, 1, 1, 1, 1, 1, 1, false)
  }

  /** OnlyFire (Fire/-), FireWater, WaterFire and GrassPoison under ids 1..4. */
  predicate IsTypeFixture(rows: map<nat, Pokemon>) {
    && rows.Keys == {1, 2, 3, 4}
    && rows[1] == Mon("OnlyFire", "Fire", None)
    && rows[2] == Mon("FireWater", "Fire", Some("Water"))
    && rows[3] == Mon("WaterFire", "Water", Some("Fire"))
    && rows[4] == Mon("GrassPoison", "Grass", Some("Poison"))
  }

  /** The case-insensitive comparisons the fixture needs. */
  lemma FixtureSpellings()
    ensures SameIgnoringCase("Fire", "Fire") && SameIgnoringCase("Water", "Water")
    ensures !SameIgnoringCase("Water", "Fire") && !SameIgnoringCase("Fire", "Water")
    ensures !SameIgnoringCase("Grass", "Fire") && !SameIgnoringCase("Poison", "Fire")
    ensures !SameIgnoringCase("Grass", "Water") && !SameIgnoringCase("Poison", "Water")
    ensures forall s :: s in {"Fire", "Water", "Grass", "Poison"} ==>
      !SameIgnoringCase(s, "Dragon") && !SameIgnoringCase(s, "Ice")
  {
    assert Lower("Grass")[0] == 'g' && Lower("Water")[0] == 'w';
    assert Lower("Poison")[0] == 'p' && Lower("Dragon")[0] == 'd';
    assert Lower("Fire")[0] == 'f' && Lower("Ice")[0] == 'i';
  }

  /** OnlyFire answers Fire and no pair. */
  lemma OnlyFireAnswers()
    ensures var p := Mon("OnlyFire", "Fire", None);
            && Matches(HasType("Fire"), p) && !Matches(HasType("Dragon"), p)
            && !Matches(HasTypePair("Fire", "Water"), p) && !Matches(HasTypePair("Ice", "Dragon"), p)
  {
    FixtureSpellings();
  }

  /** FireWater answers Fire and the Fire/Water pair. */
  lemma FireWaterAnswers()
    ensures var p := Mon("FireWater", "Fire", Some("Water"));
            && Matches(HasType("Fire"), p) && !Matches(HasType("Dragon"), p)
            && Matches(HasTypePair("Fire", "Water"), p) && !Matches(HasTypePair("Ice", "Dragon"), p)
  {
    FixtureSpellings();
  }

  /** WaterFire answers Fire (in its second slot) and the Fire/Water pair. */
  lemma WaterFireAnswers()
    ensures var p := Mon("WaterFire", "Water", Some("Fire"));
            && Matches(HasType("Fire"), p) && !Matches(HasType("Dragon"), p)
            && Matches(HasTypePair("Fire", "Water"), p) && !Matches(HasTypePair("Ice", "Dragon"), p)
  {
    FixtureSpellings();
  }

  /** GrassPoison answers none of the queries. */
  lemma GrassPoisonAnswers()
    ensures var p := Mon("GrassPoison", "Grass", Some("Poison"));
            && !Matches(HasType("Fire"), p) && !Matches(HasType("Dragon"), p)
            && !Matches(HasTypePair("Fire", "Water"), p) && !Matches(HasTypePair("Ice", "Dragon"), p)
  {
    FixtureSpellings();
  }

  /** Row by row: which fixture rows answer the queries of the tests. */
  lemma FixtureAnswers(rows: map<nat, Pokemon>, id: nat)
    requires IsTypeFixture(rows)
    ensures id in rows && Matches(HasType("Fire"), rows[id]) <==> id in {1, 2, 3}
    ensures !(id in rows && Matches(HasType("Dragon"), rows[id]))
    ensures id in rows && Matches(HasTypePair("Fire", "Water"), rows[id]) <==> id in {2, 3}
    ensures !(id in rows && Matches(HasTypePair("Ice", "Dragon"), rows[id]))
  {
    if id == 1 {
      OnlyFireAnswers();
    } else if id == 2 {
      FireWaterAnswers();
    } else if id == 3 {
      WaterFireAnswers();
    } else if id == 4 {
      GrassPoisonAnswers();
    } else {
      assert id !in rows;
    }
  }

  /** Fire in either slot: OnlyFire, FireWater and WaterFire; no Dragon at all. */
  lemma SingleTypeFixture(rows: map<nat, Pokemon>)
    requires IsTypeFixture(rows)
    ensures forall id :: id in BySingleType(rows, "Fire") <==> id in {1, 2, 3}
    ensures BySingleType(rows, "Dragon") == []
  {
    var fire := BySingleType(rows, "Fire");
    var dragon := BySingleType(rows, "Dragon");
    forall id
      ensures id in fire <==> id in {1, 2, 3}
      ensures id !in dragon
    {
      FixtureAnswers(rows, id);
    }
    EmptyWhenNoMember(dragon);
  }

  /** Fire/Water in either order: FireWater and WaterFire, the same for
      Water/Fire; nothing for Ice/Dragon. */
  lemma TypePairFixture(rows: map<nat, Pokemon>)
    requires IsTypeFixture(rows)
    ensures forall id :: id in ByTypePair(rows, "Fire", "Water") <==> id in {2, 3}
    ensures ByTypePair(rows, "Water", "Fire") == ByTypePair(rows, "Fire", "Water")
    ensures ByTypePair(rows, "Ice", "Dragon") == []
  {
    var pair := ByTypePair(rows, "Fire", "Water");
    var none := ByTypePair(rows, "Ice", "Dragon");
    forall id
      ensures id in pair <==> id in {2, 3}
      ensures id !in none
    {
      FixtureAnswers(rows, id);
    }
    TypePairSymmetric(rows, "Water", "Fire");
    EmptyWhenNoMember(none);
  }
}
