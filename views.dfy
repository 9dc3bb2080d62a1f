/** The HTML views of pokeweb/pokedata/views.py: the sidebar pagination of
    paginate_master, the generation, legendary and type listings, and the
    filters and template choice of the PokemonList view. Rendering is not
    modelled; a view is the template it names and the context it fills. */
module Views {
  import opened Wrappers
  import opened Text
  import opened Models
  import opened Queries
  import opened Serializers
  import opened Api

  // ---------------------------------------------------------------------------
  // Arithmetic the pagination needs

  lemma MulMonotone(a: int, b: int, c: nat)
    requires a <= b
    ensures a * c <= b * c
  {
  }

  /** Rounding a / b up, for positive a and b: the fewest blocks of b that
      cover a. */
  lemma CeilBounds(a: nat, b: nat)
    requires a >= 1 && b >= 1
    ensures (a + b - 1) / b >= 1
    ensures a <= (a + b - 1) / b * b
    ensures ((a + b - 1) / b - 1) * b < a
  {
    var q := (a + b - 1) / b;
    var r := (a + b - 1) % b;
    assert a + b - 1 == q * b + r && 0 <= r < b;
    assert (q - 1) * b == q * b - b;
    if q < 1 {
      MulMonotone(q, 0, b);
      assert false;
    }
  }

  /** How many records n full pages of perPage hold, counted page by page,
      so that page arithmetic stays linear. */
  function Capacity(n: nat, perPage: nat): nat {
    if n == 0 then 0 else Capacity(n - 1, perPage) + perPage
  }

  lemma {:induction false} CapacityIsProduct(n: nat, perPage: nat)
    ensures Capacity(n, perPage) == n * perPage
  {
    if n > 0 {
      CapacityIsProduct(n - 1, perPage);
      assert n * perPage == (n - 1) * perPage + perPage;
    }
  }

  lemma {:induction false} CapacityMonotone(m: nat, n: nat, perPage: nat)
    requires m <= n
    ensures Capacity(m, perPage) <= Capacity(n, perPage)
    decreases n
  {
    if m < n {
      CapacityMonotone(m, n - 1, perPage);
    }
  }

  /** The page a 0-based position falls on: the pages before it hold at most
      that many records, and one more page holds it. */
  lemma PositionOnPage(i: nat, perPage: nat)
    requires perPage >= 1
    ensures Capacity(i / perPage, perPage) <= i < Capacity(i / perPage, perPage) + perPage
  {
    CapacityIsProduct(i / perPage, perPage);
    assert i == (i / perPage) * perPage + i % perPage;
  }

  // ---------------------------------------------------------------------------
  // paginate_master

  /** The sidebar shows 15 records per page, chosen by the sidebar_page
      parameter. */
  const SidebarPerPage: nat := 15
  const SidebarPageParameter: string := "sidebar_page"

  /** Paginator.num_pages without orphans and with an empty first page
      allowed: enough pages of perPage for the records, and at least one. */
  function NumPages(count: nat, perPage: nat): (n: nat)
    requires perPage >= 1
    ensures n >= 1
    ensures count <= Capacity(n, perPage)
    ensures count > 0 ==> Capacity(n - 1, perPage) < count
    ensures count == 0 ==> n == 1
  {
    var hits := if count > 1 then count else 1;
    var n := (hits + perPage - 1) / perPage;
    CeilBounds(hits, perPage);
    CapacityIsProduct(n, perPage);
    CapacityIsProduct(n - 1, perPage);
    n
  }

  /** The page number paginate_master settles on: Paginator.page() of the
      parameter, page 1 when the parameter is missing or int() rejects it
      (PageNotAnInteger), the last page when it is below 1 or beyond the
      last page (EmptyPage). */
  function PageNumber(numPages: nat, parameter: Option<string>): (n: nat)
    requires numPages >= 1
    ensures 1 <= n <= numPages
    ensures parameter.None? || ParseInt(parameter.value).None? ==> n == 1
    ensures parameter.Some? && ParseInt(parameter.value).Some? ==>
              var k := ParseInt(parameter.value).value;
              n == if 1 <= k <= numPages then k else numPages
  {
    if parameter.None? then 1
    else
      var k := ParseInt(parameter.value);
      if k.None? then 1
      else if k.value < 1 || k.value > numPages then numPages
      else k.value
  }

  /** A page of the table: its number, the number of pages, and the ids on
      it. */
  datatype Page = Page(number: nat, numPages: nat, items: seq<nat>)

  /** The ids from position bottom on, at most size of them. */
  function Window(all: seq<nat>, bottom: nat, size: nat): (items: seq<nat>)
    requires bottom <= |all|
    ensures |items| <= size
    ensures bottom < |all| && size > 0 ==> |items| > 0
    ensures forall k :: 0 <= k < |items| ==> bottom + k < |all| && items[k] == all[bottom + k]
  {
    all[bottom..if bottom + size >= |all| then |all| else bottom + size]
  }

  /** Every id from bottom up to bottom + size is in the window. */
  lemma WindowHolds(all: seq<nat>, bottom: nat, size: nat, i: nat)
    requires bottom <= i < |all| && i < bottom + size
    ensures all[i] in Window(all, bottom, size)
  {
    assert Window(all, bottom, size)[i - bottom] == all[i];
  }

  /** The first position of an existing page is within the table, and before
      its end when the table has records. */
  lemma PageStart(count: nat, perPage: nat, n: nat)
    requires perPage >= 1 && 1 <= n <= NumPages(count, perPage)
    ensures Capacity(n - 1, perPage) <= count
    ensures count > 0 ==> Capacity(n - 1, perPage) < count
  {
    CapacityMonotone(n - 1, NumPages(count, perPage) - 1, perPage);
  }

  /** Paginator(objects, perPage).page(number) as paginate_master calls it:
      the page the parameter selects, with the fallbacks of PageNumber. */
  function Paginate(objects: seq<nat>, perPage: nat, parameter: Option<string>): (page: Page)
    requires perPage >= 1
    ensures page.numPages == NumPages(|objects|, perPage)
    ensures page.number == PageNumber(page.numPages, parameter)
    ensures |page.items| <= perPage
    ensures |objects| > 0 ==> |page.items| > 0
    ensures Capacity(page.number - 1, perPage) <= |objects|
    ensures page.items == Window(objects, Capacity(page.number - 1, perPage), perPage)
  {
    var numPages := NumPages(|objects|, perPage);
    var n := PageNumber(numPages, parameter);
    PageStart(|objects|, perPage, n);
    Page(n, numPages, Window(objects, Capacity(n - 1, perPage), perPage))
  }

  /** Asking for a page that exists, by its number, serves that page. */
  lemma RequestedPageServed(objects: seq<nat>, perPage: nat, k: nat)
    requires perPage >= 1 && 1 <= k <= NumPages(|objects|, perPage)
    ensures Paginate(objects, perPage, Some(IntToString(k))).number == k
  {
    ParseIntRoundTrip(k);
  }

  /** A missing or non-numeric parameter serves page 1; a number below 1 or
      past the last page serves the last page. */
  lemma FallbackPages(objects: seq<nat>, perPage: nat, text: string)
    requires perPage >= 1
    ensures Paginate(objects, perPage, None).number == 1
    ensures ParseInt(text).None? ==> Paginate(objects, perPage, Some(text)).number == 1
    ensures ParseInt(text).Some? && (ParseInt(text).value < 1 || ParseInt(text).value > NumPages(|objects|, perPage)) ==>
              Paginate(objects, perPage, Some(text)).number == NumPages(|objects|, perPage)
  {
  }

  /** The page a position falls on exists. */
  lemma PositionPageExists(count: nat, perPage: nat, i: nat)
    requires perPage >= 1 && i < count
    ensures 1 <= i / perPage + 1 <= NumPages(count, perPage)
  {
    var n := NumPages(count, perPage);
    var q := i / perPage;
    PositionOnPage(i, perPage);
    if q >= n {
      CapacityMonotone(n, q, perPage);
      assert false;
    }
  }

  /** Every object is on the page its position selects, so each one can be
      reached. */
  lemma EveryObjectOnItsPage(objects: seq<nat>, perPage: nat, i: nat)
    requires perPage >= 1 && i < |objects|
    ensures var page := Paginate(objects, perPage, Some(IntToString(i / perPage + 1)));
            page.number == i / perPage + 1 && objects[i] in page.items
  {
    var q := i / perPage;
    PositionPageExists(|objects|, perPage, i);
    RequestedPageServed(objects, perPage, q + 1);
    var page := Paginate(objects, perPage, Some(IntToString(q + 1)));
    assert page.items == Window(objects, Capacity(q, perPage), perPage);
    PositionOnPage(i, perPage);
    WindowHolds(objects, Capacity(q, perPage), perPage, i);
  }

  /** paginate_master(request): the sidebar page of all records in the
      default ordering, 15 to a page. */
  function PaginateMaster(rows: map<nat, Pokemon>, parameter: Option<string>): (page: Page)
    ensures page == Paginate(Listing(rows), SidebarPerPage, parameter)
    ensures page.numPages == NumPages(|rows|, SidebarPerPage)
    ensures page.number == PageNumber(page.numPages, parameter)
    ensures 1 <= |page.items| <= SidebarPerPage || (rows == map[] && page.items == [])
    ensures forall k :: 0 <= k < |page.items| ==> page.items[k] in rows
  {
    var all := Listing(rows);
    var page := Paginate(all, SidebarPerPage, parameter);
    assert forall k :: 0 <= k < |page.items| ==> page.items[k] in all;
    page
  }

  /** Each record is on the sidebar page its position in the default
      ordering selects. */
  lemma MasterReachesEveryRecord(rows: map<nat, Pokemon>, i: nat)
    requires i < |rows|
    ensures Listing(rows)[i] in PaginateMaster(rows, Some(IntToString(i / SidebarPerPage + 1))).items
  {
    EveryObjectOnItsPage(Listing(rows), SidebarPerPage, i);
  }

  // ---------------------------------------------------------------------------
  // The listing views

  const ListTemplate: string := "pokedata/list.html"
  const IndexTemplate: string := "pokedata/index.html"

  /** A rendered listing: the template, the sidebar page and the records
      listed, and the generation or type heading when the view sets one. */
  datatype Listed = Listed(
    template: string,
    master: Page,
    pokemons: seq<nat>,
    currentGeneration: Option<nat>,
    typeTitle: Option<string>)

  /** pokemon_by_generation: the records of one generation. */
  function GenerationView(rows: map<nat, Pokemon>, gen: nat, sidebar: Option<string>): (v: Listed)
    ensures v.template == ListTemplate && v.currentGeneration == Some(gen) && v.typeTitle == None
    ensures v.master == PaginateMaster(rows, sidebar)
    ensures forall id :: id in v.pokemons <==> id in rows && rows[id].generation == gen
  {
    Listed(ListTemplate, PaginateMaster(rows, sidebar), ByGeneration(rows, gen), Some(gen), None)
  }

  /** pokemon_legendary: the legendary records. */
  function LegendaryView(rows: map<nat, Pokemon>, sidebar: Option<string>): (v: Listed)
    ensures v.template == ListTemplate && v.currentGeneration == None && v.typeTitle == None
    ensures v.master == PaginateMaster(rows, sidebar)
    ensures forall id :: id in v.pokemons <==> id in rows && rows[id].legendary
  {
    Listed(ListTemplate, PaginateMaster(rows, sidebar), LegendaryOnly(rows), None, None)
  }

  /** Whether a URL's second type is given: Python's truth value of a str
      that may be missing. */
  predicate SecondTypeGiven(type2: Option<string>) {
    type2.Some? && type2.value != ""
  }

  /** The heading of pokemon_by_type: the type in title case, or both types
      in title case separated by " / ". */
  function TypeTitle(type1: string, type2: Option<string>): (title: string)
    ensures !SecondTypeGiven(type2) ==> title == Title(type1)
    ensures SecondTypeGiven(type2) ==> title == Title(type1) + " / " + Title(type2.value)
    ensures |type1| <= |title| && SameIgnoringCase(title[..|type1|], type1)
    ensures SecondTypeGiven(type2) ==>
              title[|type1|..|type1| + 3] == " / " && SameIgnoringCase(title[|type1| + 3..], type2.value)
  {
    TitleAfterSameIgnoringCase(type1, false);
    if SecondTypeGiven(type2) then
      TitleAfterSameIgnoringCase(type2.value, false);
      var title := Title(type1) + " / " + Title(type2.value);
      assert title[..|type1|] == Title(type1) && title[|type1| + 3..] == Title(type2.value);
      title
    else
      Title(type1)
  }

  /** pokemon_by_type: one type in either slot, or the unordered pair, each
      record once, with the heading. */
  function TypeView(rows: map<nat, Pokemon>, type1: string, type2: Option<string>, sidebar: Option<string>): (v: Listed)
    ensures v.template == ListTemplate && v.currentGeneration == None
    ensures v.typeTitle == Some(TypeTitle(type1, type2))
    ensures v.master == PaginateMaster(rows, sidebar)
    ensures AllIn(rows, v.pokemons) && Distinct(v.pokemons) && InListingOrder(rows, v.pokemons)
    ensures !SecondTypeGiven(type2) ==> v.pokemons == BySingleType(rows, type1)
    ensures SecondTypeGiven(type2) ==> v.pokemons == ByTypePair(rows, type1, type2.value)
  {
    Listed(ListTemplate, PaginateMaster(rows, sidebar), ByType(rows, type1, type2), None,
           Some(TypeTitle(type1, type2)))
  }

  /** The HTML views list exactly the records their API counterparts answer,
      in the same order. */
  lemma ViewsMatchApi(rows: map<nat, Pokemon>, gen: nat, type1: string, type2: Option<string>, sidebar: Option<string>)
    ensures Serialized(rows, GenerationView(rows, gen, sidebar).pokemons) == GenerationReply(rows, gen).content.items
    ensures Serialized(rows, LegendaryView(rows, sidebar).pokemons) == LegendaryReply(rows).content.items
    ensures Serialized(rows, TypeView(rows, type1, type2, sidebar).pokemons) == TypeReply(rows, type1, type2).content.items
  {
  }

  /** Spelling the types in another case changes neither the heading nor the
      records listed. */
  lemma TypeViewIgnoresCase(rows: map<nat, Pokemon>, a: string, b: string, a': string, b': string, sidebar: Option<string>)
    requires SameIgnoringCase(a, a') && SameIgnoringCase(b, b')
    ensures TypeView(rows, a, Some(b), sidebar) == TypeView(rows, a', Some(b'), sidebar)
    ensures TypeView(rows, a, None, sidebar) == TypeView(rows, a', None, sidebar)
  {
    TitleIgnoresCase(a, a');
    TitleIgnoresCase(b, b');
    assert |b| == |Lower(b)| == |Lower(b')| == |b'|;
    SingleTypeIgnoresCase(rows, a, a');
    TypePairIgnoresCase(rows, a, b, a', b');
  }

  // ---------------------------------------------------------------------------
  // PokemonList

  /** Whether a query parameter is present and non-empty (`if value:`). */
  predicate Supplied(params: map<string, string>, key: string) {
    key in params && params[key] != ""
  }

  /** get_template_names: the list template when a type is asked for,
      otherwise the index. */
  function TemplateNames(params: map<string, string>): (names: seq<string>)
    ensures |names| == 1
    ensures names[0] == ListTemplate <==> Supplied(params, "type")
    ensures names[0] == IndexTemplate <==> !Supplied(params, "type")
  {
    if Supplied(params, "type") then [ListTemplate] else [IndexTemplate]
  }

  /** What get_queryset raises: int() of a non-numeric generation
      (ValueError), or filter() on is_legendary, a field the model does not
      have (FieldError). */
  datatype QueryError = NotANumber(field: string) | UnknownField(field: string)

  /** Whether the generation parameter is given but int() rejects it. */
  predicate GenerationUnparsable(params: map<string, string>) {
    Supplied(params, "generation") && ParseInt(params["generation"]).None?
  }

  /** Whether ?legendary=true was asked for. */
  predicate LegendaryRequested(params: map<string, string>) {
    "legendary" in params && params["legendary"] == "true"
  }

  /** The generation filter: the given generation, or every row when none is
      given. */
  predicate GenerationAdmits(params: map<string, string>, p: Pokemon)
    requires !GenerationUnparsable(params)
  {
    Supplied(params, "generation") ==> p.generation == ParseInt(params["generation"]).value
  }

  /** The type filter: the given type in either slot, case-insensitively, or
      every row when none is given. */
  predicate TypeAdmits(params: map<string, string>, p: Pokemon) {
    Supplied(params, "type") ==> SameIgnoringCase(p.type1, params["type"]) || SlotIs(p.type2, params["type"])
  }

  /** The rows the parameters select: both filters at once. */
  predicate Admits(params: map<string, string>, p: Pokemon)
    requires !GenerationUnparsable(params)
  {
    GenerationAdmits(params, p) && TypeAdmits(params, p)
  }

  /** qs.filter(c) on a queryset of rows: the ids of qs whose rows meet c,
      in their order. */
  function Narrow(rows: map<nat, Pokemon>, qs: seq<nat>, c: Criterion): (r: seq<nat>)
    requires AllIn(rows, qs) && Distinct(qs) && InListingOrder(rows, qs)
    ensures AllIn(rows, r) && Distinct(r) && InListingOrder(rows, r)
    ensures forall id :: id in r <==> id in qs && Matches(c, rows[id])
  {
    SingleCriterion(c);
    Keep(rows, qs, [c])
  }

  /** The generation step of get_queryset: qs.filter(generation=...) when a
      generation is given; the lookup converts the text with int() and
      raises when int() rejects it. */
  method FilterGeneration(rows: map<nat, Pokemon>, params: map<string, string>, qs: seq<nat>)
    returns (r: Result<seq<nat>, QueryError>)
    requires AllIn(rows, qs) && Distinct(qs) && InListingOrder(rows, qs)
    ensures r.Err? <==> GenerationUnparsable(params)
    ensures r.Err? ==> r == Err(NotANumber("generation"))
    ensures r.Ok? ==> AllIn(rows, r.value) && Distinct(r.value) && InListingOrder(rows, r.value)
    ensures r.Ok? ==> forall id :: id in r.value <==> id in qs && GenerationAdmits(params, rows[id])
  {
    if !Supplied(params, "generation") {
      return Ok(qs);
    }
    var gen := ParseInt(params["generation"]);
    if gen.None? {
      return Err(NotANumber("generation"));
    }
    return Ok(Narrow(rows, qs, GenerationIs(gen.value)));
  }

  /** The type step of get_queryset: qs.filter(Q(type1__iexact=...) |
      Q(type2__iexact=...)) when a type is given. */
  method FilterType(rows: map<nat, Pokemon>, params: map<string, string>, qs: seq<nat>) returns (r: seq<nat>)
    requires AllIn(rows, qs) && Distinct(qs) && InListingOrder(rows, qs)
    ensures AllIn(rows, r) && Distinct(r) && InListingOrder(rows, r)
    ensures forall id :: id in r <==> id in qs && TypeAdmits(params, rows[id])
  {
    r := qs;
    if Supplied(params, "type") {
      r := Narrow(rows, qs, HasType(params["type"]));
    }
  }

  /** get_queryset: start from every row in the default ordering and narrow
      the queryset by each filter that is asked for, in turn. */
  method GetQueryset(rows: map<nat, Pokemon>, params: map<string, string>) returns (r: Result<seq<nat>, QueryError>)
    ensures r.Err? <==> GenerationUnparsable(params) || LegendaryRequested(params)
    ensures GenerationUnparsable(params) ==> r == Err(NotANumber("generation"))
    ensures !GenerationUnparsable(params) && LegendaryRequested(params) ==> r == Err(UnknownField("is_legendary"))
    ensures r.Ok? ==> AllIn(rows, r.value) && Distinct(r.value) && InListingOrder(rows, r.value)
    ensures r.Ok? ==> forall id :: id in r.value <==> id in rows && Admits(params, rows[id])
  {
    var all := Listing(rows);
    var byGeneration := FilterGeneration(rows, params, all);
    if byGeneration.Err? {
      return byGeneration;
    }
    var qs := FilterType(rows, params, byGeneration.value);
    if LegendaryRequested(params) {
      return Err(UnknownField("is_legendary"));
    }
    return Ok(qs);
  }

  /** When the index template is chosen, no type filter narrows the
      queryset. */
  lemma TemplateFollowsTypeFilter(params: map<string, string>, p: Pokemon)
    ensures TemplateNames(params) == [IndexTemplate] ==> TypeAdmits(params, p)
    ensures !TypeAdmits(params, p) ==> TemplateNames(params) == [ListTemplate]
  {
  }
}
