/** The REST endpoints of pokeweb/pokedata/api.py. Each endpoint is specified
    by a function from the table (its rows and the next id) and the request to
    the response and the new table; the endpoints that write are methods on
    the Catalog that are proved to follow that function. */
module Api {
  import opened Wrappers
  import opened Models
  import opened Queries
  import opened Serializers

  datatype Method = GET | POST | PUT | DELETE

  const OK: int := 200
  const Created: int := 201
  const NoContent: int := 204
  const BadRequest: int := 400
  const NotFound: int := 404
  const MethodNotAllowed: int := 405

  /** What a response carries: nothing, one serialized record, a list of
      them, or serializer.errors (the fields that failed). */
  datatype Content =
    | Empty
    | Record(data: map<Column, Value>)
    | Records(items: seq<map<Column, Value>>)
    | FieldErrors(fields: set<Field>)

  datatype Reply = Reply(status: int, content: Content)

  /** PokemonSerializer(qs, many=True).data: one representation per id, in
      the order of the query. */
  function Serialized(rows: map<nat, Pokemon>, ids: seq<nat>): (items: seq<map<Column, Value>>)
    requires AllIn(rows, ids)
    ensures |items| == |ids|
    ensures forall i :: 0 <= i < |ids| ==> items[i] == Serialize(ids[i], rows[ids[i]])
  {
    seq(|ids|, i requires 0 <= i < |ids| => Serialize(ids[i], rows[ids[i]]))
  }

  /** The table an endpoint sees and leaves behind, and its response. */
  datatype Effect = Effect(reply: Reply, rows: map<nat, Pokemon>, nextId: nat)

  /** Whether every row's total is the sum of its stats. */
  predicate AllTotalsSum(rows: map<nat, Pokemon>) {
    forall id | id in rows :: TotalIsSum(rows[id])
  }

  // ---------------------------------------------------------------------------
  // Writing endpoints, as functions

  /** create_pokemon, and POST on pokemon_list: a valid body becomes one new
      row under the next id, saved (so with its total recomputed) and
      answered with 201 and its representation; an invalid body is answered
      with 400 and the failing fields, and nothing is written. */
  function CreateEffect(rows: map<nat, Pokemon>, nextId: nat, body: Body): (e: Effect)
    requires FreshAbove(rows, nextId)
    ensures e.reply.status == Created <==> Validate(Writables(body)).Ok?
    ensures e.reply.status == Created ==>
              && e.rows == rows[nextId := Recomputed(Create(Validate(Writables(body)).value))]
              && e.reply.content == Record(Serialize(nextId, e.rows[nextId]))
              && e.nextId == nextId + 1
    ensures e.reply.status != Created ==>
              && e.reply == Reply(BadRequest, FieldErrors(Errors(Writables(body))))
              && e.rows == rows && e.nextId == nextId
  {
    var v := Validate(Writables(body));
    if v.Err? then
      Effect(Reply(BadRequest, FieldErrors(v.error)), rows, nextId)
    else
      var p := Recomputed(Create(v.value));
      Effect(Reply(Created, Record(Serialize(nextId, p))), rows[nextId := p], nextId + 1)
  }

  /** A creation adds exactly one row, under an id not in use, leaves every
      other row alone, stores a total that is the sum of the stats, and keeps
      the ids below the next one. */
  lemma CreateAddsOneRow(rows: map<nat, Pokemon>, nextId: nat, body: Body)
    requires FreshAbove(rows, nextId)
    requires CreateEffect(rows, nextId, body).reply.status == Created
    ensures var e := CreateEffect(rows, nextId, body);
            && nextId !in rows && e.rows.Keys == rows.Keys + {nextId}
            && (forall id | id in rows :: e.rows[id] == rows[id])
            && TotalIsSum(e.rows[nextId])
            && FreshAbove(e.rows, e.nextId)
  {
    var p := Create(Validate(Writables(body)).value);
    SavedTotalIsSum(p);
    InsertFresh(rows, nextId, Recomputed(p));
  }

  /** pokemon_list: GET lists every row in the default ordering, POST
      creates; any other method is refused with 405. */
  function ListEffect(rows: map<nat, Pokemon>, nextId: nat, m: Method, body: Body): (e: Effect)
    requires FreshAbove(rows, nextId)
    ensures m == POST ==> e == CreateEffect(rows, nextId, body)
    ensures m != POST ==> e.rows == rows && e.nextId == nextId
    ensures m == GET ==> e.reply.status == OK && e.reply.content.Records?
    ensures m == GET ==> |e.reply.content.items| == |rows|
    ensures m == GET ==> forall i :: 0 <= i < |Listing(rows)| ==>
              e.reply.content.items[i] == Serialize(Listing(rows)[i], rows[Listing(rows)[i]])
    ensures m == PUT || m == DELETE ==> e.reply == Reply(MethodNotAllowed, Empty)
  {
    match m
    case POST => CreateEffect(rows, nextId, body)
    case GET =>
      var ids := Listing(rows);
      Effect(Reply(OK, Records(Serialized(rows, ids))), rows, nextId)
    case _ => Effect(Reply(MethodNotAllowed, Empty), rows, nextId)
  }

  /** pokemon_detail: a missing pk is answered with 404 and nothing changes;
      GET answers the representation; PUT validates the body and saves the
      row with its fields replaced (400 and no change when the body is
      invalid); DELETE removes that row and answers 204. POST is refused with
      405 before the pk is looked up. */
  function DetailEffect(rows: map<nat, Pokemon>, nextId: nat, m: Method, pk: nat, body: Body): (e: Effect)
    ensures e.nextId == nextId
    ensures m == POST ==> e == Effect(Reply(MethodNotAllowed, Empty), rows, nextId)
    ensures m != POST && pk !in rows ==> e == Effect(Reply(NotFound, Empty), rows, nextId)
    ensures m == GET && pk in rows ==> e == Effect(Reply(OK, Record(Serialize(pk, rows[pk]))), rows, nextId)
    ensures m == PUT && pk in rows && Validate(Writables(body)).Err? ==>
              e == Effect(Reply(BadRequest, FieldErrors(Errors(Writables(body)))), rows, nextId)
    ensures m == PUT && pk in rows && Validate(Writables(body)).Ok? ==>
              && e.rows == rows[pk := Recomputed(Update(rows[pk], Validate(Writables(body)).value))]
              && e.reply == Reply(OK, Record(Serialize(pk, e.rows[pk])))
    ensures m == DELETE && pk in rows ==> e == Effect(Reply(NoContent, Empty), rows - {pk}, nextId)
  {
    if m == POST then Effect(Reply(MethodNotAllowed, Empty), rows, nextId)
    else if pk !in rows then Effect(Reply(NotFound, Empty), rows, nextId)
    else if m == GET then Effect(Reply(OK, Record(Serialize(pk, rows[pk]))), rows, nextId)
    else if m == PUT then
      var v := Validate(Writables(body));
      if v.Err? then Effect(Reply(BadRequest, FieldErrors(v.error)), rows, nextId)
      else
        var p := Recomputed(Update(rows[pk], v.value));
        Effect(Reply(OK, Record(Serialize(pk, p))), rows[pk := p], nextId)
    else
      Effect(Reply(NoContent, Empty), rows - {pk}, nextId)
  }

  /** A successful PUT keeps the set of ids, touches no other row and stores
      a total that is the sum of the stats; a DELETE removes that one id and
      touches no other row. */
  lemma DetailTouchesOneRow(rows: map<nat, Pokemon>, nextId: nat, m: Method, pk: nat, body: Body)
    requires pk in rows && (m == PUT || m == DELETE)
    ensures var e := DetailEffect(rows, nextId, m, pk, body);
            && (forall id | id in e.rows && id != pk :: id in rows && e.rows[id] == rows[id])
            && (m == PUT && e.reply.status == OK ==> e.rows.Keys == rows.Keys && TotalIsSum(e.rows[pk]))
            && (m == DELETE ==> e.rows.Keys == rows.Keys - {pk})
  {
    if m == PUT && Validate(Writables(body)).Ok? {
      var p := Update(rows[pk], Validate(Writables(body)).value);
      SavedTotalIsSum(p);
      ReplaceKeepsOthers(rows, pk, Recomputed(p));
    } else if m == DELETE {
      RemoveKeepsOthers(rows, pk);
    }
  }

  lemma ReplaceKeepsOthers(rows: map<nat, Pokemon>, pk: nat, p: Pokemon)
    requires pk in rows
    ensures rows[pk := p].Keys == rows.Keys
    ensures forall id | id in rows && id != pk :: rows[pk := p][id] == rows[id]
  {
  }

  lemma RemoveKeepsOthers(rows: map<nat, Pokemon>, pk: nat)
    ensures (rows - {pk}).Keys == rows.Keys - {pk}
    ensures forall id | id in rows - {pk} :: (rows - {pk})[id] == rows[id]
  {
  }

  // ---------------------------------------------------------------------------
  // Writing endpoints, on the table

  method CreatePokemon(c: Catalog, body: Body) returns (reply: Reply)
    requires c.Valid()
    modifies c
    ensures c.Valid()
    ensures Effect(reply, c.rows, c.nextId) == CreateEffect(old(c.rows), old(c.nextId), body)
  {
    var v := Validate(Writables(body));
    if v.Err? {
      return Reply(BadRequest, FieldErrors(v.error));
    }
    ValidatedPersistable(v.value, Blank);
    var r := c.Insert(Create(v.value));
    reply := Reply(Created, Record(Serialize(r.value, Recomputed(Create(v.value)))));
  }

  method PokemonList(c: Catalog, m: Method, body: Body) returns (reply: Reply)
    requires c.Valid()
    modifies c
    ensures c.Valid()
    ensures Effect(reply, c.rows, c.nextId) == ListEffect(old(c.rows), old(c.nextId), m, body)
  {
    if m == POST {
      reply := CreatePokemon(c, body);
    } else if m == GET {
      var ids := Listing(c.rows);
      reply := Reply(OK, Records(Serialized(c.rows, ids)));
    } else {
      reply := Reply(MethodNotAllowed, Empty);
    }
  }

  method PokemonDetail(c: Catalog, m: Method, pk: nat, body: Body) returns (reply: Reply)
    requires c.Valid()
    modifies c
    ensures c.Valid()
    ensures Effect(reply, c.rows, c.nextId) == DetailEffect(old(c.rows), old(c.nextId), m, pk, body)
  {
    if m == POST {
      return Reply(MethodNotAllowed, Empty);
    }
    var found := c.Get(pk);
    if found.None? {
      return Reply(NotFound, Empty);
    }
    var current := found.value;
    if m == GET {
      reply := Reply(OK, Record(Serialize(pk, current)));
    } else if m == PUT {
      var v := Validate(Writables(body));
      if v.Err? {
        return Reply(BadRequest, FieldErrors(v.error));
      }
      ValidatedPersistable(v.value, current);
      var r := c.Save(pk, Update(current, v.value));
      reply := Reply(OK, Record(Serialize(pk, r.value)));
    } else {
      c.Delete(pk);
      reply := Reply(NoContent, Empty);
    }
  }

  // ---------------------------------------------------------------------------
  // Reading endpoints

  /** pokemon_by_generation: the rows of generation gen (the URL admits only
      digits), possibly none. */
  function GenerationReply(rows: map<nat, Pokemon>, gen: nat): (r: Reply)
    ensures r.status == OK && r.content.Records?
    ensures r.content.items == Serialized(rows, ByGeneration(rows, gen))
  {
    Reply(OK, Records(Serialized(rows, ByGeneration(rows, gen))))
  }

  /** pokemon_legendary: the legendary rows. */
  function LegendaryReply(rows: map<nat, Pokemon>): (r: Reply)
    ensures r.status == OK && r.content.Records?
    ensures r.content.items == Serialized(rows, LegendaryOnly(rows))
  {
    Reply(OK, Records(Serialized(rows, LegendaryOnly(rows))))
  }

  /** pokemon_by_type: one type in either slot, or an unordered pair when a
      non-empty second type is given; case-insensitive, each row once. */
  function TypeReply(rows: map<nat, Pokemon>, type1: string, type2: Option<string>): (r: Reply)
    ensures r.status == OK && r.content.Records?
    ensures r.content.items == Serialized(rows, ByType(rows, type1, type2))
  {
    Reply(OK, Records(Serialized(rows, ByType(rows, type1, type2))))
  }

  /** A list of serialized records holds exactly the representations of the
      listed rows. */
  lemma SerializedMembers(rows: map<nat, Pokemon>, ids: seq<nat>, x: map<Column, Value>)
    requires AllIn(rows, ids)
    ensures x in Serialized(rows, ids) <==> exists id :: id in ids && x == Serialize(id, rows[id])
  {
    var items := Serialized(rows, ids);
    if x in items {
      var i :| 0 <= i < |items| && items[i] == x;
      assert ids[i] in ids;
    }
    if exists id :: id in ids && x == Serialize(id, rows[id]) {
      var id :| id in ids && x == Serialize(id, rows[id]);
      var i :| 0 <= i < |ids| && ids[i] == id;
      assert items[i] == x;
    }
  }

  /** Every record the generation endpoint answers is of that generation, and
      every row of that generation is answered. */
  lemma GenerationReplyExact(rows: map<nat, Pokemon>, gen: nat, x: map<Column, Value>)
    ensures x in GenerationReply(rows, gen).content.items <==>
              exists id :: id in rows && rows[id].generation == gen && x == Serialize(id, rows[id])
  {
    SerializedMembers(rows, ByGeneration(rows, gen), x);
  }

  /** Every record the legendary endpoint answers says it is legendary. */
  lemma LegendaryReplyOnlyLegendary(rows: map<nat, Pokemon>, x: map<Column, Value>)
    requires x in LegendaryReply(rows).content.items
    ensures x[Data(Legendary)] == VBool(true)
  {
    var ids := LegendaryOnly(rows);
    SerializedMembers(rows, ids, x);
    var id :| id in ids && x == Serialize(id, rows[id]);
    LegendaryRecord(id, rows[id], x);
  }

  lemma LegendaryRecord(id: nat, p: Pokemon, x: map<Column, Value>)
    requires p.legendary && x == Serialize(id, p)
    ensures x[Data(Legendary)] == VBool(true)
  {
  }

  /** The pair endpoint answers the same records whichever order the two
      types come in. */
  lemma TypeReplySymmetric(rows: map<nat, Pokemon>, t1: string, t2: string)
    requires t1 != "" && t2 != ""
    ensures TypeReply(rows, t1, Some(t2)) == TypeReply(rows, t2, Some(t1))
  {
    TypePairSymmetric(rows, t1, t2);
  }

  // ---------------------------------------------------------------------------
  // The API test cases

  /** A GET after a DELETE of the same pk is answered with 404, and the
      DELETE touched no other row. */
  lemma DeleteThenGet(rows: map<nat, Pokemon>, nextId: nat, pk: nat, b1: Body, b2: Body)
    requires pk in rows
    ensures DetailEffect(rows, nextId, DELETE, pk, b1).reply.status == NoContent
    ensures var after := DetailEffect(rows, nextId, DELETE, pk, b1);
            DetailEffect(after.rows, after.nextId, GET, pk, b2).reply.status == NotFound
  {
  }

  /** A missing pk is answered with 404 and changes nothing, whatever the
      allowed method and body. */
  lemma MissingPkUntouched(rows: map<nat, Pokemon>, nextId: nat, m: Method, pk: nat, body: Body)
    requires m != POST && pk !in rows
    ensures DetailEffect(rows, nextId, m, pk, body).reply.status == NotFound
    ensures DetailEffect(rows, nextId, m, pk, body).rows == rows
  {
  }

  /** A body whose pokemon_HP is below 1 is refused with 400, the error names
      pokemon_HP, and no row is created, whatever the other fields hold. */
  lemma CreateRejectsLowHP(rows: map<nat, Pokemon>, nextId: nat, body: Body, hp: int)
    requires FreshAbove(rows, nextId)
    requires Key(HP) in body && body[Key(HP)] == VInt(hp) && hp < MinStat
    ensures CreateEffect(rows, nextId, body).reply.status == BadRequest
    ensures HP in CreateEffect(rows, nextId, body).reply.content.fields
    ensures CreateEffect(rows, nextId, body).rows == rows
  {
    CountBelowOneRejected(Writables(body), HP, hp);
  }

  /** The body of the creation test case, with pokemon_HP set to -5 and the
      total to the sum of the stats. */
  function InvalidHPBody(): (body: Body)
    ensures Key(HP) in body && body[Key(HP)] == VInt(-5)
  {
    var valid := map[
      "pokemon_name" := VStr("CreateMon"), "pokemon_HP" := VInt(15), "attack" := VInt(10),
      "defense" := VInt(8), "special_attack" := VInt(12), "special_defense" := VInt(9),
      "speed" := VInt(7), "generation" := VInt(3), "pokemon_type1" := VStr("Electric"),
      "pokemon_type2" := VStr(""), "legendary" := VBool(false), "total_stats" := VInt(61)];
    valid["pokemon_HP" := VInt(-5)]["total_stats" := VInt(-5 + 10 + 8 + 12 + 9 + 7)]
  }

  lemma InvalidHPRejected(rows: map<nat, Pokemon>, nextId: nat)
    requires FreshAbove(rows, nextId)
    ensures CreateEffect(rows, nextId, InvalidHPBody()).reply.status == BadRequest
    ensures HP in CreateEffect(rows, nextId, InvalidHPBody()).reply.content.fields
    ensures CreateEffect(rows, nextId, InvalidHPBody()).rows == rows
  {
    CreateRejectsLowHP(rows, nextId, InvalidHPBody(), -5);
  }

  /** serializer.data with its string keys, as a client receives it. */
  function Json(r: map<Column, Value>): (body: Body)
    ensures forall c | c in r :: ColumnKey(c) in body && body[ColumnKey(c)] == r[c]
    ensures forall k | k in body :: exists c | c in r :: ColumnKey(c) == k
  {
    forall c, d | c in r && d in r && ColumnKey(c) == ColumnKey(d) ensures c == d {
      ColumnsDistinct(c, d);
    }
    map c | c in r :: ColumnKey(c) := r[c]
  }

  /** The fields a client sends back are those it received. */
  lemma WritablesOfJson(r: map<Column, Value>)
    requires forall f :: Data(f) in r
    ensures Writables(Json(r)) == Resubmit(r)
  {
    forall f ensures f in Writables(Json(r)) && Writables(Json(r))[f] == r[Data(f)] {
      assert ColumnKey(Data(f)) == Key(f);
    }
  }

  /** PUT of a record's own representation onto any row stores that record,
      when it is representable and already saved. */
  lemma PutRepresentation(rows: map<nat, Pokemon>, nextId: nat, pk: nat, id: nat, p: Pokemon)
    requires pk in rows && Representable(p) && TotalIsSum(p)
    ensures DetailEffect(rows, nextId, PUT, pk, Json(Serialize(id, p))).reply.status == OK
    ensures DetailEffect(rows, nextId, PUT, pk, Json(Serialize(id, p))).rows == rows[pk := p]
  {
    var body := Json(Serialize(id, p));
    WritablesOfJson(Serialize(id, p));
    SerializeRoundTrip(id, p, rows[pk]);
    PutValid(rows, nextId, pk, body, p);
  }

  /** A valid PUT body whose update yields a saved record stores that record. */
  lemma PutValid(rows: map<nat, Pokemon>, nextId: nat, pk: nat, body: Body, p: Pokemon)
    requires pk in rows && Validate(Writables(body)).Ok?
    requires Update(rows[pk], Validate(Writables(body)).value) == p && TotalIsSum(p)
    ensures DetailEffect(rows, nextId, PUT, pk, body).reply.status == OK
    ensures DetailEffect(rows, nextId, PUT, pk, body).rows == rows[pk := p]
  {
    assert Recomputed(p) == p;
  }
}
