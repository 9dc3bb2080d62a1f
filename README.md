# Pokémon catalog — a Dafny model

This project models the core of a Django Pokémon catalog:

- **The record** (`models.dfy`): the 18 type choices, the six generations and the `Pokemon` row.
  - `save()` recomputes `total_stats` as the sum of the six stats.
  - The default ordering is generation, then name.
  - The table is the class `Catalog`. It holds the rows and the next AUTOINCREMENT id, and its methods insert, update, delete and look up rows.
- **`PokemonSerializer`** (`serializers.dfy`): how the API reads a JSON body and what it sends back.
  - Each of the twelve writable fields is cleaned on its own. The errors are reported per field.
  - Create and update assign the validated data.
  - A record is represented by thirteen keys.
- **`PokemonForm`** (`form.dfy`): the form declared in `pokedata/tests.py`.
  - Its `clean_total_stats` hook.
  - The order in which Django cleans its fields, which decides what the hook can see.
- **The queries** (`queries.dfy`):
  - by generation;
  - legendary only;
  - one type in either slot;
  - an unordered pair of types.
  
  Type matching ignores case. Each record is listed once, in the default ordering.
- **The REST endpoints** (`api.dfy`). Each endpoint is a function from the table and the request to the response and the new table. The endpoints that write are also `Catalog` methods, proved to follow that function.
- **The HTML views** (`views.dfy`):
  - `paginate_master`, including its fallbacks for bad page numbers;
  - the generation, legendary and type listings, with the type heading;
  - `PokemonList.get_queryset` and `get_template_names`.
- **The bulk import** (`importer.dfy`): `populate_pokemonDB.run()`.
  - A pure function states what a run does to the table.
  - The imperative loop `RunImport` is proved to follow it.
  - Lemmas prove that the import only adds rows, never creates two rows with one name, ignores the CSV's Total column, and creates nothing when run a second time.

The form's `clean_total_stats` hook (pokedata/tests.py:386-390) exists to reject a `total_stats` that is not the sum of the six stats. Neither input path actually does so. The serializer has no check across fields (`Serializers.TotalNotCrossChecked`). The form's check never runs (see Findings). The model follows the code. What the code does guarantee is that a stored total is always the recomputed sum.

## Model

| member | source | states |
|---|---|---|
| Text.Strip | pokeweb/scripts/populate_pokemonDB.py:35 | `str.strip()`: the result is the slice of s after its leading whitespace, everything after the slice is whitespace, and neither end of the result is whitespace |
| Text.StripIdempotent | pokeweb/scripts/populate_pokemonDB.py:35 | stripping twice gives what stripping once gives |
| Text.Lower | pokeweb/scripts/populate_pokemonDB.py:50 | `str.lower()` keeps the length and lower-cases each character on its own |
| Text.TitleIgnoresCase | pokeweb/pokedata/views.py:82 | two spellings that differ only in case get the same `title()` |
| Text.TitleAfterSameIgnoringCase | pokeweb/pokedata/views.py:88 | `title()` still spells the same word, up to case |
| Text.Title | pokeweb/pokedata/views.py:82-88 | `str.title()` keeps the length. `Text.TitleIgnoresCase` and `Text.TitleAfterSameIgnoringCase` carry its other properties |
| Text.IntToString | pokedata/tests.py:388-390 | `str()` of an integer is a non-empty text. `Text.ParseIntRoundTrip` proves that `int()` reads the integer back |
| Text.ParseInt | pokeweb/scripts/populate_pokemonDB.py:43-49 | `int()` of a str succeeds only on a text that is not blank once stripped. `Text.ParseDigits` and `Text.ParseIntRoundTrip` carry its value |
| Text.ParseDigits | pokeweb/scripts/populate_pokemonDB.py:43-49 | `int()` of a string of decimal digits is the number they denote |
| Text.ParseIntRoundTrip | pokeweb/scripts/populate_pokemonDB.py:43-49 | `int(str(i)) == i` for every integer, negative ones included |
| Models.TypeChoiceOfName | pokedata/models.py:4-22 | each of the 18 type choices is recognised by its stored value, so the stored values are pairwise distinct |
| Models.Recomputed | pokedata/models.py:67-78 | what `save()` writes: total_stats is the sum of the six stats, and every other field is the instance's own |
| Models.SavedTotalIsSum | pokedata/models.py:67-78 | after `save()`, `total_stats` is the sum of the six stats, whatever it held before |
| Models.SaveChangesOnlyTotal | pokedata/models.py:67-78 | `save()` changes `total_stats` and no other field |
| Models.SaveIdempotent | pokedata/models.py:67-78 | saving twice gives what saving once gives, and a supplied total has no influence on the saved record |
| Models.ListedBeforeAsymmetric | pokedata/models.py:80-82 | the default ordering (generation, then name, ties by id) is asymmetric |
| Models.ListedBeforeTransitive | pokedata/models.py:80-82 | the default ordering is transitive |
| Models.ListedBeforeTotal | pokedata/models.py:80-82 | any two distinct rows are ordered one way or the other |
| Models.First | pokedata/models.py:80-82 | the first row in the default ordering exists for a non-empty table and comes before every other row |
| Models.Listing | pokedata/models.py:80-82 | `Pokemon.objects.all()`: every row exactly once, nothing else, in the default ordering |
| Models.InsertFresh | pokedata/models.py:78 | an insert under an id above every id in use adds one id, keeps every other row and keeps ids fresh |
| Models.Catalog.Insert | pokedata/models.py:67-78 | `save()` of a new instance succeeds exactly when the column constraints hold. On success the row goes under the old next id with its total recomputed and the counter advances. On failure nothing changes |
| Models.Catalog.Save | pokedata/models.py:67-78 | `save()` of an existing instance replaces that row by the recomputed record exactly when the constraints hold. The id counter never moves |
| Models.Catalog.Delete | pokedata/models.py:86-89 | `delete()` removes that one row and nothing else |
| Models.Catalog.Get | pokeweb/pokedata/api.py:36-39 | `objects.get(pk=...)` finds the row exactly when the id is in use, and returns that row |
| Models.Catalog.NameExists | pokeweb/scripts/populate_pokemonDB.py:36 | `filter(pokemon_name=name).exists()` holds exactly when some row has that exact name |
| Serializers.KeyNamesField | pokeweb/pokedata/serializers.py:7-21 | every writable field has its own body key, and none of them is `id` |
| Serializers.Writables | pokeweb/pokedata/serializers.py:7-21 | a body contributes exactly the entries whose keys name writable fields, with their values |
| Serializers.ChoiceText | pokedata/models.py:36-57 | the text a choice field looks up is `str()` of the value sent, and exists for every value except null |
| Serializers.CleanName | pokedata/models.py:35 | a missing, null or boolean name is rejected. A string is accepted exactly when its stripped text is non-blank, at most 256 characters and free of NUL, and is then stored as that stripped text. An integer is handled the same way as its `str()`. An accepted name always has that form |
| Serializers.CleanType1 | pokedata/models.py:36-39 | an accepted first type is one of the 18 choices and is the text of the value sent. A choice sent as a string is accepted as it is |
| Serializers.CleanType2 | pokedata/models.py:40-45 | omission is reported exactly when the body leaves the field out, and null is kept as no type. Any other value is accepted exactly when it is "" or its `str()` is one of the 18 choices, and is then kept as that text. Everything else is rejected |
| Serializers.CleanCount | pokeweb/pokedata/serializers.py:22-30 | a stat or total is accepted exactly when it is an integer of at least 1, and is that integer |
| Serializers.CleanGeneration | pokedata/models.py:53-57 | omission is reported exactly when the field is left out. A value is accepted exactly when its `str()` is one of "1" to "6", and the accepted generation is the number that text denotes. An integer is accepted exactly when it is in 1..6, as itself |
| Serializers.CleanLegendary | pokedata/models.py:58-61 | omission is reported exactly when the field is left out. A JSON boolean is taken as it is and null is rejected. The integer 1 gives true, 0 gives false and any other integer is rejected. A string gives true when it is one of DRF's true spellings, false when it is one of its false spellings, and is rejected otherwise |
| Serializers.Errors | pokeweb/pokedata/serializers.py:4-30 | `serializer.errors` holds exactly the fields whose cleaning fails |
| Serializers.Validate | pokeweb/pokedata/serializers.py:4-30 | `is_valid()` holds exactly when no field fails. Otherwise the error report is exactly the failing fields and is not empty. Validated data satisfies every field rule |
| Serializers.Update | pokeweb/pokedata/serializers.py:4-6 | an update assigns every validated field. An optional field the body left out keeps the instance's value |
| Serializers.Create | pokedata/models.py:53-61 | a creation takes the validated fields. A left-out second type is none, a left-out generation is 1, and a left-out legendary flag is false |
| Serializers.ValidatedPersistable | pokedata/models.py:46-53 | validated data satisfies the database's non-negative column constraints, on creation and on update |
| Serializers.CreatedRepresentable | pokeweb/pokedata/serializers.py:22-30 | whatever the API creates is, once saved, a record the API can accept again |
| Serializers.Serialize | pokeweb/pokedata/serializers.py:7-21 | `serializer.data` has all thirteen keys: the id and each field's stored value |
| Serializers.ColumnsDistinct | pokeweb/pokedata/serializers.py:7-21 | the thirteen keys are pairwise distinct |
| Serializers.ColumnCount | pokeweb/pokedata/serializers.py:7-21 | there are exactly thirteen columns |
| Serializers.ValidateRepresentation | pokeweb/pokedata/serializers.py:4-30 | a body that holds a representable record's fields is valid and yields exactly those fields |
| Serializers.SerializeRoundTrip | pokeweb/pokedata/serializers.py:4-30 | sending back the representation of a representable record re-creates that record exactly. As a PUT body it replaces any record by it |
| Serializers.CountBelowOneRejected | pokeweb/pokedata/serializers.py:22-30 | a stat or total below 1 makes the body invalid, and the report names that field |
| Serializers.CountRequired | pokedata/models.py:46-52 | a missing stat or total makes the body invalid, and the report names that field |
| Serializers.TotalReplaced | pokeweb/pokedata/serializers.py:22-30 | replacing the total by another positive integer keeps the body valid and changes only the validated total |
| Serializers.SavedIgnoresTotal | pokedata/models.py:67-78 | the record stored by a creation does not depend on the supplied total |
| Serializers.TotalNotCrossChecked | pokeweb/pokedata/serializers.py:4-30 | a body valid with one total is valid with any positive total. Both store the same record, whose total is the sum of its stats |
| Form.CleanTotalStats | pokedata/tests.py:371-391 | the check is skipped (the cleaned total is returned) unless all six stats are present. With all six it fails exactly when the total is missing or differs from their sum, and the error carries that sum |
| Form.MismatchMessage | pokedata/tests.py:388-390 | the error message ends with the expected sum in parentheses, and that sum can be read back from it |
| Form.TotalStatsErrors | pokedata/tests.py:386-390 | the hook's message within `form.errors["total_stats"]` is present exactly when the hook raised, and the expected sum reads back from that message |
| Form.CleanFields | pokedata/tests.py:362-371 | Django cleans the fields in the order of `Meta.fields`. The hook's error can only change when total_stats is in that order and cleans. `Form.CleanFieldsSplit`, `Form.CleanWithoutHook` and `Form.HookSeesPrefix` carry the rest |
| Form.Step | pokedata/tests.py:371 | cleaning one field adds its value to cleaned_data. For total_stats the hook runs at once, and its error removes the total again |
| Form.CleanFieldsSplit | pokedata/tests.py:362-369 | cleaning the fields in order is cleaning a first part of them, then the rest |
| Form.CleanWithoutHook | pokedata/tests.py:362-369 | fields without a hook only add their cleaned values |
| Form.HookSeesPrefix | pokedata/tests.py:362-372 | `clean_total_stats` sees exactly the fields cleaned before total_stats |
| Form.QuietBeforeStats | pokedata/tests.py:383-384 | when total_stats is cleaned before HP, the hook never raises |
| Form.ChecksAfterStats | pokedata/tests.py:383-391 | when total_stats comes after the six stats, the form raises exactly when all seven cleaned and the total is not the sum, and names the sum |
| Form.AsWrittenNeverChecks | pokedata/tests.py:362-369 | with the field order as declared, the hook never raises, whatever the form holds |
| Form.MismatchSlipsThrough | pokedata/tests.py:362-391 | stats (1,1,1,1,1,1) with total 10: the hook alone rejects them with 6, yet the form as declared accepts them |
| Form.CheckedOrderChecks | pokedata/tests.py:362-391 | with total_stats after the six stats, the form rejects a total exactly when it differs from their sum, and names the sum |
| Form.MismatchCaught | pokedata/tests.py:371-391 | in that order, stats (1,1,1,1,1,1) with total 10 are rejected, and 6 is reported |
| Queries.Keep | pokeweb/pokedata/views.py:129-136 | a chained `filter()` keeps exactly the ids that satisfy every criterion, without duplicates and in the original order |
| Queries.Select | pokeweb/pokedata/api.py:62 | a filtered queryset holds each matching row exactly once and nothing else, in the default ordering |
| Queries.KeepAgrees | pokeweb/pokedata/api.py:106 | two criteria lists that agree on every row select the same ids |
| Queries.ByGeneration | pokeweb/pokedata/api.py:62 | `filter(generation=gen)` lists exactly the rows of that generation |
| Queries.LegendaryOnly | pokeweb/pokedata/api.py:72 | `filter(legendary=True)` lists exactly the legendary rows |
| Queries.BySingleType | pokeweb/pokedata/api.py:108-113 | the single-type query lists exactly the rows whose first type is t, or whose present second type is t, ignoring case |
| Queries.ByTypePair | pokeweb/pokedata/api.py:92-106 | the pair query lists exactly the rows with one type in each slot, in either order, ignoring case |
| Queries.ByType | pokeweb/pokedata/api.py:92-115 | a non-empty second type selects the pair query; a missing or empty one selects the single-type query |
| Queries.TypePairSymmetric | pokeweb/pokedata/api.py:83-87 | the pair query does not depend on the order of the two types |
| Queries.SingleTypeIgnoresCase | pokeweb/pokedata/api.py:110-113 | the single-type query depends on the spelling only up to case |
| Queries.TypePairIgnoresCase | pokeweb/pokedata/api.py:94-103 | the pair query depends on both spellings only up to case |
| Queries.TypePairWithinSingles | pokeweb/pokedata/api.py:84-87 | a row without a second type never answers a pair query. A row that does answer it answers both single-type queries |
| Queries.UnknownGenerationEmpty | pokedata/tests.py:156-162 | with every stored generation in 1..6, a query for any other generation is empty, not an error |
| Queries.BlankSecondTypeActsAbsent | pokedata/tests.py:101 | a stored blank second type answers every type query with a non-empty type as a missing one does |
| Queries.FixtureAnswers | pokedata/tests.py:198-277 | in the fixture of the type tests, exactly OnlyFire, FireWater and WaterFire are Fire, exactly FireWater and WaterFire are Fire/Water, and none is Dragon or Ice/Dragon |
| Queries.SingleTypeFixture | pokedata/tests.py:221-235 | on that fixture, Fire lists exactly the three Fire rows and Dragon lists nothing |
| Queries.TypePairFixture | pokedata/tests.py:260-277 | on that fixture, Fire/Water and Water/Fire list exactly FireWater and WaterFire, and Ice/Dragon lists nothing |
| Api.Serialized | pokeweb/pokedata/api.py:25 | `many=True` gives one representation per id, in query order |
| Api.SerializedMembers | pokeweb/pokedata/api.py:25 | a serialized list holds exactly the representations of the listed rows |
| Api.CreateEffect | pokeweb/pokedata/api.py:118-127 | a valid body adds one saved row under the next id and is answered with 201 and that row's representation. An invalid one is answered with 400 and exactly the failing fields, and nothing changes |
| Api.CreateAddsOneRow | pokeweb/pokedata/api.py:123-126 | a creation adds exactly one row under an unused id, keeps every other row, stores a summed total and keeps ids fresh |
| Api.ListEffect | pokeweb/pokedata/api.py:10-26 | GET answers 200 with every row's representation, in the default ordering, and changes nothing. POST creates. PUT and DELETE get 405 |
| Api.DetailEffect | pokeweb/pokedata/api.py:29-54 | POST gets 405. A missing pk gets 404 and no change. GET answers the row. PUT validates and saves the updated row, or answers 400 with no change. DELETE removes the row and answers 204 |
| Api.DetailTouchesOneRow | pokeweb/pokedata/api.py:45-54 | a successful PUT keeps the ids and every other row and stores a summed total. A DELETE removes only that id |
| Api.CreatePokemon | pokeweb/pokedata/api.py:118-127 | the endpoint's response and the table it leaves are those of `CreateEffect` |
| Api.PokemonList | pokeweb/pokedata/api.py:10-26 | the endpoint's response and the table it leaves are those of `ListEffect` |
| Api.PokemonDetail | pokeweb/pokedata/api.py:29-54 | the endpoint's response and the table it leaves are those of `DetailEffect` |
| Api.GenerationReply | pokeweb/pokedata/api.py:57-64 | 200 with the generation query's rows, serialized |
| Api.LegendaryReply | pokeweb/pokedata/api.py:67-74 | 200 with the legendary rows, serialized |
| Api.TypeReply | pokeweb/pokedata/api.py:77-116 | 200 with the type query's rows, serialized |
| Api.GenerationReplyExact | pokedata/tests.py:147-154 | a record is in the generation reply exactly when it represents a row of that generation |
| Api.LegendaryReplyOnlyLegendary | pokedata/tests.py:177-185 | every record of the legendary reply says legendary is true |
| Api.TypeReplySymmetric | pokedata/tests.py:260-266 | the pair endpoint answers the same whichever order the two types come in |
| Api.DeleteThenGet | pokedata/tests.py:54-59 | DELETE of a pk answers 204, and a GET of that pk afterwards answers 404 |
| Api.MissingPkUntouched | pokedata/tests.py:50-52 | a missing pk is answered with 404 and changes nothing |
| Api.CreateRejectsLowHP | pokedata/tests.py:119-129 | a body with pokemon_HP below 1 is answered with 400, the report names pokemon_HP, and no row is created |
| Api.InvalidHPRejected | pokedata/tests.py:119-129 | the creation test's body with pokemon_HP -5 is answered with 400 naming pokemon_HP, and nothing is created |
| Api.Json | pokeweb/pokedata/serializers.py:7-21 | the JSON representation has one string key per column with its value, and no other key |
| Api.PutRepresentation | pokeweb/pokedata/api.py:45-49 | a PUT of a saved, representable record's own representation answers 200 and stores exactly that record |
| Api.PutValid | pokeweb/pokedata/api.py:45-49 | a valid PUT whose update is already saved stores exactly that record |
| Views.NumPages | pokeweb/pokedata/views.py:21 | `num_pages` is the fewest pages of that size that hold every record, and at least 1 |
| Views.PageNumber | pokeweb/pokedata/views.py:15-21 | the page served is always between 1 and num_pages. A missing or non-numeric parameter gives page 1. A number out of range gives the last page. Any other number is served as it is |
| Views.Paginate | pokeweb/pokedata/views.py:12-22 | the page holds at most per_page ids, is never empty when there are records, and is the window of the listing that starts at that page's first position |
| Views.RequestedPageServed | pokeweb/pokedata/views.py:17 | asking for an existing page by its number serves that page |
| Views.FallbackPages | pokeweb/pokedata/views.py:18-21 | a missing or non-numeric parameter serves page 1. One below 1 or past the end serves the last page |
| Views.EveryObjectOnItsPage | pokeweb/pokedata/views.py:12-22 | every record is on the page that its position selects |
| Views.PaginateMaster | pokeweb/pokedata/views.py:12-22 | the sidebar page is the default-ordered listing of all rows paginated 15 to a page. Its number is `PageNumber` of the parameter: page 1 when it is missing or not an integer, the last page when it is out of range. It holds 1 to 15 ids of the table, or none when the table is empty |
| Views.MasterReachesEveryRecord | pokeweb/pokedata/views.py:12-22 | every record can be reached on some sidebar page |
| Views.GenerationView | pokeweb/pokedata/views.py:44-57 | the list template with exactly the rows of that generation, the sidebar page and the current generation |
| Views.LegendaryView | pokeweb/pokedata/views.py:59-71 | the list template with exactly the legendary rows and the sidebar page |
| Views.TypeTitle | pokeweb/pokedata/views.py:74-88 | the heading is `title()` of the first type, followed by " / " and `title()` of the second type when a second type is given. Each part spells its type, up to case |
| Views.TypeView | pokeweb/pokedata/views.py:73-101 | the list template, the heading and the sidebar page. The listing is the pair query for a given second type and the single-type query otherwise. Each row appears once, in the default ordering |
| Views.ViewsMatchApi | pokeweb/pokedata/views.py:44-101 | the three HTML views list exactly what their API counterparts answer, in the same order |
| Views.TypeViewIgnoresCase | pokeweb/pokedata/views.py:75-88 | spelling the types in another case changes neither the heading nor the listing |
| Views.TemplateNames | pokeweb/pokedata/views.py:152-155 | the list template exactly when a non-empty type parameter is given, the index otherwise |
| Views.FilterGeneration | pokeweb/pokedata/views.py:129-130 | fails exactly when a generation is given that int() rejects. Otherwise it keeps exactly the rows of qs in that generation, or all of them when none is given, each once and in order |
| Views.FilterType | pokeweb/pokedata/views.py:131-135 | keeps exactly the rows of qs whose first or present second type is the given type, ignoring case, or all of them when no type is given, each once and in order |
| Views.GetQueryset | pokeweb/pokedata/views.py:123-138 | fails exactly when the generation is not a number or legendary=true is asked for. Otherwise it lists exactly the rows that both given filters admit, each once, in the default ordering |
| Views.TemplateFollowsTypeFilter | pokeweb/pokedata/views.py:152-155 | when the index template is chosen, no type filter narrowed the queryset |
| Importer.IntColumnsOk | pokeweb/scripts/populate_pokemonDB.py:43-49 | the integer columns convert exactly when each of them parses |
| Importer.IntColumnsValues | pokeweb/scripts/populate_pokemonDB.py:43-49 | each converted value is `int()` of its own column |
| Importer.FirstFailingColumn | pokeweb/scripts/populate_pokemonDB.py:43-49 | the exception raised is that of the first column that does not parse. A missing column gives a KeyError, a bad text gives a ValueError |
| Importer.SecondType | pokeweb/scripts/populate_pokemonDB.py:42 | a missing or empty Type 2 gives no second type; otherwise its text |
| Importer.TrueIsLegendary | pokeweb/scripts/populate_pokemonDB.py:50 | the export's spelling "True" makes a record legendary |
| Importer.FalseIsNotLegendary | pokeweb/scripts/populate_pokemonDB.py:50 | the export's spelling "False" does not |
| Importer.RowRecord | pokeweb/scripts/populate_pokemonDB.py:39-51 | the arguments are evaluated exactly when Type 1, Legendary and every integer column can be evaluated. A missing Type 1 raises first. The instance carries Type 1, the second type and the legendary flag from their columns |
| Importer.RecordFromColumns | pokeweb/scripts/populate_pokemonDB.py:43-49 | each stat and the generation of the instance is `int()` of its column |
| Importer.TotalColumnIgnored | pokeweb/scripts/populate_pokemonDB.py:39-51 | whatever the Total column holds, a line yields the same name and instance |
| Importer.LineAt | pokeweb/scripts/populate_pokemonDB.py:33-34 | line k of the reader comes from row k of the file |
| Importer.LineOf | pokeweb/scripts/populate_pokemonDB.py:35-51 | a row yields its name exactly when it has a Name column, and that name is the column stripped, so stripping it again changes nothing. The instance is `RowRecord` of the row |
| Importer.ImportFrom | pokeweb/scripts/populate_pokemonDB.py:34-52 | what the loop does from a given line on. It never reports a missing file and never lowers the count. `Importer.ImportKeeps`, `Importer.ImportGrows`, `Importer.ImportKeepsNamesDistinct`, `Importer.ImportSplit` and `Importer.AbortKeepsEarlier` state its effect |
| Importer.LineStep | pokeweb/scripts/populate_pokemonDB.py:35-52 | a line is skipped exactly when its stripped name is taken. A missing Name raises. A created record bears that name, has its total recomputed, satisfies the constraints and has a name not yet taken |
| Importer.Import | pokeweb/scripts/populate_pokemonDB.py:26-29 | a missing CSV ends the run at once and changes nothing |
| Importer.StepSkipped | pokeweb/scripts/populate_pokemonDB.py:36-37 | a skipped line leaves the table and the count as they were |
| Importer.StepInserted | pokeweb/scripts/populate_pokemonDB.py:39-52 | a created line adds the row under the next id and counts one more |
| Importer.StepRaised | pokeweb/scripts/populate_pokemonDB.py:34-52 | a line that raises ends the run with the count so far |
| Importer.ReadLine | pokeweb/scripts/populate_pokemonDB.py:34-35 | reading line i gives the line the file's i-th row yields |
| Importer.ImportLine | pokeweb/scripts/populate_pokemonDB.py:35-52 | one iteration on the table either ends the run with the error the line raises, or continues from the table and count the line leaves behind |
| Importer.RunImport | pokeweb/scripts/populate_pokemonDB.py:25-54 | the loop on the table ends with the table, next id and outcome that `Import` specifies, and keeps the table valid |
| Importer.ImportKeeps | pokeweb/scripts/populate_pokemonDB.py:34-52 | an import keeps every existing row as it was, takes one new id per counted record and keeps ids fresh |
| Importer.ImportGrows | pokeweb/scripts/populate_pokemonDB.py:39-52 | the table grows by exactly the number of records the import counts |
| Importer.ImportNewRows | pokeweb/scripts/populate_pokemonDB.py:39-52 | every added row sits under an id the run gave out, and its total is the sum of its stats |
| Importer.InsertKeepsNamesDistinct | pokeweb/scripts/populate_pokemonDB.py:36-39 | creating a record whose name is not taken keeps names distinct |
| Importer.ImportKeepsNamesDistinct | pokeweb/scripts/populate_pokemonDB.py:35-52 | an import never creates two records with the same name |
| Importer.TakenStaysTaken | pokeweb/scripts/populate_pokemonDB.py:36-37 | a name that is taken stays taken while rows are only added |
| Importer.CompletedImportCovers | pokeweb/scripts/populate_pokemonDB.py:34-52 | after a run that processed every line, every line's name is in the table |
| Importer.CoveredSkipsAll | pokeweb/scripts/populate_pokemonDB.py:36-37 | a table that already holds every line's name skips every line and changes nothing |
| Importer.SecondRunImportsNothing | pokedata/tests.py:350-354 | running the import again over an unchanged CSV counts 0 and leaves the table as the first run left it |
| Importer.ImportSplit | pokeweb/scripts/populate_pokemonDB.py:34-52 | processing lines a then b is processing a, then b from where a left off, unless a line of a raised |
| Importer.AbortKeepsEarlier | pokeweb/scripts/populate_pokemonDB.py:34-52 | a line that raises ends the run. The records created before it stay, with their count, and later lines are not read |
| Importer.TwoNewLinesCreated | pokedata/tests.py:345-348 | two lines with new, different names and acceptable instances are both created |
| Importer.TwoNewLines | pokedata/tests.py:315-354 | loading such a two-line export adds exactly two rows, and loading it again adds none |

## Left out

- File I/O and `print`: opening the CSV and printing the count are not modelled. The CSV is given as its parsed rows, or as None when the file does not exist.
- The Django bootstrap of the import script and the request/response machinery (URL routing, content negotiation, JSON parsing) are not modelled. A request is its method, its pk or URL arguments, its query parameters and its parsed body.
- Rendering, templates, `get_elided_page_range`, `SidebarMixin`, `PokemonDetail`, `PokemonCreate`, `PokemonUpdate`, `PokemonDelete`, `api_home` and `get_context_data` are not modelled. A view is the template it names and the data it passes.
- `ListView`'s own `paginate_by = 15` pagination of `PokemonList` is not modelled: `Views.GetQueryset` returns the whole queryset.
- urls.py, admin.py, forms.py, model_factories.py and sqliteDump.py are not part of this model.
- Paginator internals beyond `num_pages` and `page()` (orphans and `allow_empty_first_page` fixed at their defaults) are not modelled.
- Models.ListedBefore: the database orders only by generation, then name. It leaves the order of rows that are equal in both unspecified. The model breaks such ties by id. The exact sequences stated by `Models.Listing`, `Api.ListEffect` and `Views.ViewsMatchApi` depend on that choice.
- Concurrency and transactions: every write is one atomic step. The import is not transactional, which `Importer.AbortKeepsEarlier` states.
- Text.Lower: case mapping covers ASCII letters only. SQLite's `LIKE`-based `iexact` does the same. Python's `lower()` agrees on the tokens `1`, `true` and `yes`.
- Text.Title: cased characters are the ASCII letters only.
- Text.ParseInt: Python's `int()` also accepts underscores between digits and non-ASCII digits; these are not modelled.
- Serializers.CleanCount: DRF's IntegerField also accepts floats with a zero fraction and strings such as "5.0"; these are not modelled. The database's upper bound on integer columns is not modelled. DRF also rejects any string longer than 1000 characters before it calls `int()` ("String value too large"); the model accepts such a string when it parses.
- Form.TotalStatsErrors: only the hook's message is modelled. Django's `_clean_fields` also files a field's own validation error under total_stats, for example "This field is required." when the total is missing; those errors are not modelled.
- Serializers.Validate: the error messages are not modelled, only which fields fail.
- Serializers.Value: floats, lists and nested objects in a JSON body are not modelled.
- Views.GetQueryset: the `legendary=true` branch filters on `is_legendary`, a field the model does not have. The `filter()` call inside `get_queryset` raises a FieldError, and the model returns that error.
- Views.TypeView: which rows the view lists is stated through the queries it uses. The contracts of `Queries.BySingleType` and `Queries.ByTypePair` state that membership.
- Importer.ReadLine: the model converts a whole line before the `exists()` query, while the script evaluates the create() arguments after it. Conversion has no effect on the table, so the outcome is the same.
- Importer.Column: csv.DictReader's handling of short lines (missing values become None) is modelled as a missing column. CSV columns that `run()` does not read are not modelled.
- Importer.TwoNewLines: the bulk-load tests are modelled on two lines that satisfy the test fixture's relevant properties: new, distinct names and acceptable instances. The fixture's concrete CSV text is not evaluated, apart from its legendary spellings (`Importer.TrueIsLegendary`, `Importer.FalseIsNotLegendary`).
- Models.Persistable: the database's check constraints are modelled as "not negative" on the six stats and the generation. Text lengths and type choices are not checked on insert.

## Findings

| source | as written | input that shows it | evidently intended | confidence | as-written member | corrected member |
|---|---|---|---|---|---|---|
| pokedata/tests.py:362-369 | `Meta.fields` lists `total_stats` before the six stats. Django runs `clean_total_stats` right after cleaning `total_stats`, when none of the six stats is in `cleaned_data` yet, so the check always takes its skip branch | stats (1,1,1,1,1,1) with total_stats 10: the form accepts it | the hook rejects a total that is not the sum of the six stats and reports the expected sum (6) | high (not executed) | Form.MismatchSlipsThrough | Form.MismatchCaught |
