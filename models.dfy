/** The Pokemon table: the 18 elemental types, the six generations, the record
    with its derived total, the default ordering, and the table itself as a
    class whose writes all go through save(). */
module Models {
  import opened Wrappers
  import opened Text

  // ---------------------------------------------------------------------------
  // Choices

  datatype PokemonType =
    | Normal | Fire | Water | Electric | Grass | Ice | Fighting | Poison | Ground
    | Flying | Psychic | Bug | Rock | Ghost | Dragon | Dark | Steel | Fairy

  /** The stored value of each type choice (its label is the same text). */
  function TypeName(t: PokemonType): string {
    match t
    case Normal => "Normal"
    case Fire => "Fire"
    case Water => "Water"
    case Electric => "Electric"
    case Grass => "Grass"
    case Ice => "Ice"
    case Fighting => "Fighting"
    case Poison => "Poison"
    case Ground => "Ground"
    case Flying => "Flying"
    case Psychic => "Psychic"
    case Bug => "Bug"
    case Rock => "Rock"
    case Ghost => "Ghost"
    case Dragon => "Dragon"
    case Dark => "Dark"
    case Steel => "Steel"
    case Fairy => "Fairy"
  }

  /** The 18 choices, in the order of their declaration. */
  const AllTypes: seq<PokemonType> :=
    [Normal, Fire, Water, Electric, Grass, Ice, Fighting, Poison, Ground,
     Flying, Psychic, Bug, Rock, Ghost, Dragon, Dark, Steel, Fairy]

  /** The first choice among types whose stored value is exactly s. */
  function ChoiceAmong(s: string, types: seq<PokemonType>): (r: Option<PokemonType>)
    ensures r.Some? ==> TypeName(r.value) == s
    decreases |types|
  {
    if types == [] then None
    else if TypeName(types[0]) == s then Some(types[0])
    else ChoiceAmong(s, types[1..])
  }

  /** A choice among types is found whenever one of them has that stored
      value. */
  lemma {:induction false} ChoiceAmongFinds(t: PokemonType, types: seq<PokemonType>)
    requires t in types
    ensures ChoiceAmong(TypeName(t), types).Some?
    decreases |types|
  {
    if types[0] != t {
      assert t in types[1..];
      ChoiceAmongFinds(t, types[1..]);
    }
  }

  /** The choice whose stored value is exactly s (choices are case-sensitive). */
  function TypeChoice(s: string): (r: Option<PokemonType>)
    ensures r.Some? ==> TypeName(r.value) == s
  {
    ChoiceAmong(s, AllTypes)
  }

  /** Every type's stored value is recognised as that type, so the 18 stored
      values are pairwise distinct. */
  lemma TypeChoiceOfName(t: PokemonType)
    ensures TypeChoice(TypeName(t)) == Some(t)
  {
    assert t in AllTypes;
    ChoiceAmongFinds(t, AllTypes);
    var r := TypeChoice(TypeName(t));
    TypeNameInjective(r.value, t);
  }

  lemma TypeNameInjective(a: PokemonType, b: PokemonType)
    requires TypeName(a) == TypeName(b)
    ensures a == b
  {
  }

  predicate IsTypeChoice(s: string) {
    TypeChoice(s).Some?
  }

  const MinGeneration: int := 1
  const MaxGeneration: int := 6
  const DefaultGeneration: int := 1

  /** One of the Generation choices I..VI. */
  predicate IsGeneration(g: int) {
    MinGeneration <= g <= MaxGeneration
  }

  // ---------------------------------------------------------------------------
  // The record

  /** One row of the table. The two type columns hold text: the importer writes
      whatever its source says, so a stored type is not necessarily a choice. */
  datatype Pokemon = Pokemon(
    name: string,
    type1: string,
    type2: Option<string>,
    totalStats: int,
    hp: int,
    attack: int,
    defense: int,
    specialAttack: int,
    specialDefense: int,
    speed: int,
    generation: int,
    legendary: bool)

  function StatSum(p: Pokemon): int {
    p.hp + p.attack + p.defense + p.specialAttack + p.specialDefense + p.speed
  }

  /** The derived-total invariant. */
  predicate TotalIsSum(p: Pokemon) {
    p.totalStats == StatSum(p)
  }

  /** What save() does to the instance before writing it: total_stats becomes
      the sum of the six stats. */
  function Recomputed(p: Pokemon): (r: Pokemon)
    ensures TotalIsSum(r)
    ensures r.(totalStats := p.totalStats) == p
  {
    p.(totalStats := StatSum(p))
  }

  /** After save(), total_stats is the sum of the six stats, whatever it held. */
  lemma SavedTotalIsSum(p: Pokemon)
    ensures TotalIsSum(Recomputed(p))
  {
  }

  /** save() touches total_stats and nothing else. */
  lemma SaveChangesOnlyTotal(p: Pokemon)
    ensures Recomputed(p).(totalStats := p.totalStats) == p
    ensures StatSum(Recomputed(p)) == StatSum(p)
  {
  }

  /** Saving twice gives what saving once gives, and a supplied total has no
      influence on what is saved. */
  lemma SaveIdempotent(p: Pokemon, supplied: int)
    ensures Recomputed(Recomputed(p)) == Recomputed(p)
    ensures Recomputed(p.(totalStats := supplied)) == Recomputed(p)
  {
  }

  /** A new instance before any field is assigned: no second type, generation
      1, not legendary. total_stats has no default; 0 stands for the unset
      value, which save() always overwrites. */
  const Blank: Pokemon := Pokemon("", "", None, 0, 0, 0, 0, 0, 0, 0, DefaultGeneration, false)

  /** The database's CHECK constraints on the positive integer columns: none
      may hold a negative value (the total then cannot be negative either). */
  predicate Persistable(p: Pokemon) {
    && p.hp >= 0 && p.attack >= 0 && p.defense >= 0
    && p.specialAttack >= 0 && p.specialDefense >= 0 && p.speed >= 0
    && p.generation >= 0
  }

  datatype DbError = IntegrityError

  // ---------------------------------------------------------------------------
  // Default ordering: generation, then pokemon_name

  /** SQLite's default text order: code point by code point, a proper prefix
      first. */
  predicate NameBefore(a: string, b: string) {
    if a == [] then b != []
    else if b == [] then false
    else if a[0] != b[0] then a[0] < b[0]
    else NameBefore(a[1..], b[1..])
  }

  lemma {:induction false} NameBeforeIrreflexive(a: string)
    ensures !NameBefore(a, a)
  {
    if a != [] {
      NameBeforeIrreflexive(a[1..]);
    }
  }

  lemma {:induction false} NameBeforeAsymmetric(a: string, b: string)
    requires NameBefore(a, b)
    ensures !NameBefore(b, a)
  {
    if a != [] && b != [] && a[0] == b[0] {
      NameBeforeAsymmetric(a[1..], b[1..]);
    }
  }

  lemma {:induction false} NameBeforeTransitive(a: string, b: string, c: string)
    requires NameBefore(a, b) && NameBefore(b, c)
    ensures NameBefore(a, c)
  {
    if a != [] && b != [] && c != [] && a[0] == b[0] && b[0] == c[0] {
      NameBeforeTransitive(a[1..], b[1..], c[1..]);
    }
  }

  lemma {:induction false} NameBeforeTotal(a: string, b: string)
    requires a != b
    ensures NameBefore(a, b) || NameBefore(b, a)
  {
    if a != [] && b != [] && a[0] == b[0] {
      assert a == [a[0]] + a[1..] && b == [b[0]] + b[1..];
      NameBeforeTotal(a[1..], b[1..]);
    }
  }

  /** Meta.ordering = ['generation', 'pokemon_name']. The database leaves the
      order of rows that agree on both open; the model breaks such ties by id. */
  predicate ListedBefore(i: nat, p: Pokemon, j: nat, q: Pokemon) {
    || p.generation < q.generation
    || (p.generation == q.generation && NameBefore(p.name, q.name))
    || (p.generation == q.generation && p.name == q.name && i < j)
  }

  /** ListedBefore is a strict total order on (id, record) pairs with distinct ids. */
  lemma ListedBeforeAsymmetric(i: nat, p: Pokemon, j: nat, q: Pokemon)
    requires ListedBefore(i, p, j, q)
    ensures !ListedBefore(j, q, i, p)
  {
    if p.generation == q.generation && NameBefore(p.name, q.name) {
      NameBeforeAsymmetric(p.name, q.name);
    }
    if p.generation == q.generation && p.name == q.name {
      NameBeforeIrreflexive(p.name);
    }
  }

  lemma ListedBeforeTransitive(i: nat, p: Pokemon, j: nat, q: Pokemon, k: nat, r: Pokemon)
    requires ListedBefore(i, p, j, q) && ListedBefore(j, q, k, r)
    ensures ListedBefore(i, p, k, r)
  {
    if p.generation == q.generation == r.generation {
      if NameBefore(p.name, q.name) && NameBefore(q.name, r.name) {
        NameBeforeTransitive(p.name, q.name, r.name);
      }
    }
  }

  lemma ListedBeforeTotal(i: nat, p: Pokemon, j: nat, q: Pokemon)
    requires i != j
    ensures ListedBefore(i, p, j, q) || ListedBefore(j, q, i, p)
  {
    if p.name != q.name {
      NameBeforeTotal(p.name, q.name);
    }
  }

  /** m is the row that comes first in the default ordering. */
  predicate IsFirst(rows: map<nat, Pokemon>, m: nat)
    requires m in rows
  {
    forall j | j in rows && j != m :: ListedBefore(m, rows[m], j, rows[j])
  }

  lemma {:induction false} FirstExists(rows: map<nat, Pokemon>)
    requires |rows| > 0
    ensures exists m :: m in rows && IsFirst(rows, m)
    decreases |rows|
  {
    var x :| x in rows;
    var rest := rows - {x};
    if |rest| == 0 {
      assert rows.Keys == {x} by {
        assert forall j | j in rows :: j in rest || j == x;
      }
      assert IsFirst(rows, x);
    } else {
      FirstExists(rest);
      var m :| m in rest && IsFirst(rest, m);
      if ListedBefore(x, rows[x], m, rows[m]) {
        forall j | j in rows && j != x
          ensures ListedBefore(x, rows[x], j, rows[j])
        {
          if j != m {
            assert j in rest && ListedBefore(m, rest[m], j, rest[j]);
            ListedBeforeTransitive(x, rows[x], m, rows[m], j, rows[j]);
          }
        }
        assert IsFirst(rows, x);
      } else {
        ListedBeforeTotal(x, rows[x], m, rows[m]);
        forall j | j in rows && j != m
          ensures ListedBefore(m, rows[m], j, rows[j])
        {
          if j != x {
            assert j in rest && ListedBefore(m, rest[m], j, rest[j]);
          }
        }
        assert IsFirst(rows, m);
      }
    }
  }

  lemma FirstUnique(rows: map<nat, Pokemon>, a: nat, b: nat)
    requires a in rows && b in rows && IsFirst(rows, a) && IsFirst(rows, b)
    ensures a == b
  {
    if a != b {
      ListedBeforeAsymmetric(a, rows[a], b, rows[b]);
    }
  }

  predicate Distinct(ids: seq<nat>) {
    forall i, j :: 0 <= i < j < |ids| ==> ids[i] != ids[j]
  }

  /** The row that comes first in the default ordering (there is exactly one). */
  function First(rows: map<nat, Pokemon>): (m: nat)
    requires |rows| > 0
    ensures m in rows && IsFirst(rows, m)
  {
    FirstExists(rows);
    forall a, b | a in rows && b in rows && IsFirst(rows, a) && IsFirst(rows, b)
      ensures a == b
    {
      FirstUnique(rows, a, b);
    }
    var m :| m in rows && IsFirst(rows, m);
    m
  }

  /** The ids in ids are ordered by ListedBefore with respect to rows. */
  predicate InListingOrder(rows: map<nat, Pokemon>, ids: seq<nat>)
    requires forall i :: 0 <= i < |ids| ==> ids[i] in rows
  {
    forall i, j :: 0 <= i < j < |ids| ==> ListedBefore(ids[i], rows[ids[i]], ids[j], rows[ids[j]])
  }

  /** Putting the first row in front of the ordered remainder keeps the order. */
  lemma PrependFirst(rows: map<nat, Pokemon>, m: nat, rest: seq<nat>)
    requires m in rows && IsFirst(rows, m)
    requires forall id :: id in rest <==> id in rows && id != m
    requires Distinct(rest)
    requires InListingOrder(rows - {m}, rest)
    ensures forall id :: id in [m] + rest <==> id in rows
    ensures Distinct([m] + rest)
    ensures InListingOrder(rows, [m] + rest)
  {
    var ids := [m] + rest;
    forall i, j | 0 <= i < j < |ids|
      ensures ListedBefore(ids[i], rows[ids[i]], ids[j], rows[ids[j]])
    {
      assert ids[j] == rest[j - 1] && ids[j] in rest;
      if i > 0 {
        assert ids[i] == rest[i - 1] && ids[i] in rest;
        var sub := rows - {m};
        assert ListedBefore(rest[i - 1], sub[rest[i - 1]], rest[j - 1], sub[rest[j - 1]]);
      }
    }
  }

  /** The ids of all rows, in the default ordering: Pokemon.objects.all(). */
  function Listing(rows: map<nat, Pokemon>): (ids: seq<nat>)
    ensures |ids| == |rows|
    ensures forall id :: id in ids <==> id in rows
    ensures Distinct(ids)
    ensures InListingOrder(rows, ids)
    decreases |rows|
  {
    if |rows| == 0 then []
    else
      var m := First(rows);
      var rest := Listing(rows - {m});
      PrependFirst(rows, m, rest);
      [m] + rest
  }

  // ---------------------------------------------------------------------------
  // The table

  /** Ids are allocated above every id in use. */
  predicate FreshAbove(rows: map<nat, Pokemon>, nextId: nat) {
    forall id | id in rows :: id < nextId
  }

  /** Inserting under an id allocated above every id in use adds one row and
      keeps the others. */
  lemma InsertFresh(rows: map<nat, Pokemon>, nextId: nat, p: Pokemon)
    requires FreshAbove(rows, nextId)
    ensures nextId !in rows && rows[nextId := p].Keys == rows.Keys + {nextId}
    ensures forall id | id in rows :: rows[nextId := p][id] == rows[id]
    ensures FreshAbove(rows[nextId := p], nextId + 1)
  {
  }

  /** The Pokemon table. Ids come from an AUTOINCREMENT counter and are never
      reused. Every row was written by save(), so every row's total is the sum
      of its stats, and every row satisfies the column constraints. */
  class Catalog {
    var rows: map<nat, Pokemon>
    var nextId: nat

    ghost predicate Valid()
      reads this
    {
      && 1 <= nextId
      && (forall id | id in rows :: 1 <= id < nextId)
      && (forall id | id in rows :: TotalIsSum(rows[id]) && Persistable(rows[id]))
    }

    constructor ()
      ensures Valid()
      ensures rows == map[] && nextId == 1
    {
      rows := map[];
      nextId := 1;
    }

    /** save() of an instance without a primary key: recompute the total, then
        INSERT under a fresh id, unless a column constraint rejects the row. */
    method Insert(p: Pokemon) returns (r: Result<nat, DbError>)
      requires Valid()
      modifies this
      ensures Valid()
      ensures r.Ok? <==> Persistable(p)
      ensures r.Ok? ==> r.value == old(nextId) && r.value !in old(rows)
      ensures r.Ok? ==> rows == old(rows)[r.value := Recomputed(p)] && nextId == old(nextId) + 1
      ensures r.Err? ==> rows == old(rows) && nextId == old(nextId)
    {
      if !Persistable(p) {
        return Err(IntegrityError);
      }
      var saved := p.(totalStats := StatSum(p));
      r := Ok(nextId);
      rows := rows[nextId := saved];
      nextId := nextId + 1;
    }

    /** save() of an instance loaded from row id: recompute the total, then
        UPDATE that row, unless a column constraint rejects the new values. */
    method Save(id: nat, p: Pokemon) returns (r: Result<Pokemon, DbError>)
      requires Valid() && id in rows
      modifies this
      ensures Valid()
      ensures r.Ok? <==> Persistable(p)
      ensures r.Ok? ==> r.value == Recomputed(p) && rows == old(rows)[id := Recomputed(p)]
      ensures r.Err? ==> rows == old(rows)
      ensures nextId == old(nextId)
    {
      if !Persistable(p) {
        return Err(IntegrityError);
      }
      var saved := p.(totalStats := StatSum(p));
      rows := rows[id := saved];
      r := Ok(saved);
    }

    /** delete(): the row goes, nothing else changes. */
    method Delete(id: nat)
      requires Valid() && id in rows
      modifies this
      ensures Valid()
      ensures rows == old(rows) - {id} && nextId == old(nextId)
    {
      rows := rows - {id};
    }

    /** Pokemon.objects.get(pk=id); None stands for DoesNotExist. */
    method Get(id: nat) returns (r: Option<Pokemon>)
      ensures r.Some? <==> id in rows
      ensures r.Some? ==> r.value == rows[id]
    {
      if id in rows {
        r := Some(rows[id]);
      } else {
        r := None;
      }
    }

    /** Pokemon.objects.filter(pokemon_name=name).exists(): an exact,
        case-sensitive comparison. */
    method NameExists(name: string) returns (b: bool)
      ensures b <==> exists id :: id in rows && rows[id].name == name
    {
      b := exists id | id in rows :: rows[id].name == name;
    }
  }
}
