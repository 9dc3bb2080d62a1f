/** The bulk import of pokeweb/scripts/populate_pokemonDB.py: run() reads the
    CSV export line by line and creates one record per line whose stripped
    name is not in the table yet, counting what it creates. Opening the file
    and printing are not modelled: the source is the parsed lines, or None
    when the file does not exist. */
module Importer {
  import opened Wrappers
  import opened Text
  import opened Models

  /** The columns of the export that run() reads, by their header. */
  datatype Column = Name | Type1 | Type2 | Total | HP | Attack | Defense | SpAtk | SpDef | Speed | Generation | Legendary

  /** The header text of each column in the export. */
  function Header(c: Column): (h: string)
    ensures h != ""
  {
    match c
    case Name => "Name"
    case Type1 => "Type 1"
    case Type2 => "Type 2"
    case Total => "Total"
    case HP => "HP"
    case Attack => "Attack"
    case Defense => "Defense"
    case SpAtk => "Sp. Atk"
    case SpDef => "Sp. Def"
    case Speed => "Speed"
    case Generation => "Generation"
    case Legendary => "Legendary"
  }

  /** One CSV line as csv.DictReader gives it, keyed by the column whose
      header it sits under. A column the line lacks is a missing key. */
  type Row = map<Column, string>

  /** The columns read through int(), in the order of the create() keyword
      arguments. */
  const IntegerColumns: seq<Column> := [HP, Attack, Defense, SpAtk, SpDef, Speed, Generation]

  /** What stops run(): a KeyError on a missing column, a ValueError from
      int(), or the IntegrityError of a value the table refuses. */
  datatype ImportError = MissingColumn(column: Column) | NotAnInteger(column: Column) | Refused

  /** How run() ends: the CSV is missing, every line was processed, or an
      exception escaped the loop after count records were created. */
  datatype Outcome = SourceNotFound | Imported(count: nat) | Aborted(count: nat, error: ImportError)

  // ---------------------------------------------------------------------------
  // One line

  /** int() of the text of column c, if the line has that column and int()
      accepts it. */
  function ColumnInt(row: Row, c: Column): Option<int> {
    if c in row then ParseInt(row[c]) else None
  }

  /** Whether int() accepts the text of column c. */
  predicate Parses(row: Row, c: Column) {
    ColumnInt(row, c).Some?
  }

  /** The exception row[c] or int(row[c]) raises when column c does not
      parse. */
  function ColumnError(row: Row, c: Column): ImportError {
    if c in row then NotAnInteger(c) else MissingColumn(c)
  }

  /** int() of each column in turn; the first column that fails raises. */
  function IntColumns(row: Row, cols: seq<Column>): (r: Result<seq<int>, ImportError>)
    ensures r.Ok? ==> |r.value| == |cols|
    decreases |cols|
  {
    if cols == [] then Ok([])
    else if !Parses(row, cols[0]) then Err(ColumnError(row, cols[0]))
    else
      var rest := IntColumns(row, cols[1..]);
      if rest.Err? then Err(rest.error) else Ok([ColumnInt(row, cols[0]).value] + rest.value)
  }

  /** The columns convert exactly when every one of them parses. */
  lemma {:induction false} IntColumnsOk(row: Row, cols: seq<Column>)
    ensures IntColumns(row, cols).Ok? <==> forall k :: 0 <= k < |cols| ==> Parses(row, cols[k])
    decreases |cols|
  {
    if cols != [] {
      IntColumnsOk(row, cols[1..]);
      assert forall k :: 1 <= k < |cols| ==> cols[k] == cols[1..][k - 1];
    }
  }

  /** Each converted column is int() of its own text. */
  lemma {:induction false} IntColumnsValues(row: Row, cols: seq<Column>)
    requires IntColumns(row, cols).Ok?
    ensures forall k :: 0 <= k < |cols| ==> Some(IntColumns(row, cols).value[k]) == ColumnInt(row, cols[k])
    decreases |cols|
  {
    if cols != [] {
      var v, rest := IntColumns(row, cols).value, IntColumns(row, cols[1..]).value;
      assert v == [ColumnInt(row, cols[0]).value] + rest;
      IntColumnsValues(row, cols[1..]);
      forall k | 0 <= k < |cols|
        ensures Some(v[k]) == ColumnInt(row, cols[k])
      {
        if k > 0 {
          assert v[k] == rest[k - 1] && cols[k] == cols[1..][k - 1];
        }
      }
    }
  }

  /** The exception is the one of the first column that does not parse. */
  lemma {:induction false} FirstFailingColumn(row: Row, cols: seq<Column>)
    requires IntColumns(row, cols).Err?
    ensures exists k :: && 0 <= k < |cols| && !Parses(row, cols[k])
                        && IntColumns(row, cols).error == ColumnError(row, cols[k])
                        && forall j :: 0 <= j < k ==> Parses(row, cols[j])
    decreases |cols|
  {
    if Parses(row, cols[0]) {
      FirstFailingColumn(row, cols[1..]);
      var k :| && 0 <= k < |cols| - 1 && !Parses(row, cols[1..][k])
               && IntColumns(row, cols[1..]).error == ColumnError(row, cols[1..][k])
               && forall j :: 0 <= j < k ==> Parses(row, cols[1..][j]);
      assert cols[1..][k] == cols[k + 1];
      assert forall j :: 0 <= j < k + 1 ==> Parses(row, cols[j]) by {
        forall j | 0 <= j < k + 1
          ensures Parses(row, cols[j])
        {
          if j > 0 {
            assert cols[j] == cols[1..][j - 1];
          }
        }
      }
    } else {
      assert !Parses(row, cols[0]);
    }
  }

  /** `row.get('Type 2') or None`: a missing or empty column is no second
      type. */
  function SecondType(row: Row): (t: Option<string>)
    ensures t.None? <==> Type2 !in row || row[Type2] == ""
    ensures t.Some? ==> t.value == row[Type2]
  {
    if Type2 in row && row[Type2] != "" then Some(row[Type2]) else None
  }

  /** `text.strip().lower() in ('1', 'true', 'yes')`. */
  predicate LegendaryText(text: string) {
    var t := Lower(Strip(text));
    t == "1" || t == "true" || t == "yes"
  }

  /** The export's spelling of a legendary line. */
  lemma TrueIsLegendary()
    ensures LegendaryText("True")
  {
    StripKeeps("True");
    assert Lower("True") == "true";
  }

  /** The export's spelling of an ordinary line. */
  lemma FalseIsNotLegendary()
    ensures !LegendaryText("False")
  {
    StripKeeps("False");
    assert |Lower("False")| == 5;
  }

  /** The instance Pokemon.objects.create() is given, apart from its name:
      the other keyword arguments evaluated in order, the first failing one
      raising. Total is not among them. */
  function RowRecord(row: Row): (r: Result<Pokemon, ImportError>)
    ensures r.Ok? <==> Type1 in row && Legendary in row && IntColumns(row, IntegerColumns).Ok?
    ensures Type1 !in row ==> r == Err(MissingColumn(Type1))
    ensures r.Ok? ==> && r.value.type1 == row[Type1] && r.value.type2 == SecondType(row)
                      && r.value.legendary == LegendaryText(row[Legendary])
  {
    if Type1 !in row then Err(MissingColumn(Type1))
    else
      var ints := IntColumns(row, IntegerColumns);
      if ints.Err? then Err(ints.error)
      else if Legendary !in row then Err(MissingColumn(Legendary))
      else
        var v := ints.value;
        Ok(Blank.(type1 := row[Type1], type2 := SecondType(row),
                  hp := v[0], attack := v[1], defense := v[2], specialAttack := v[3],
                  specialDefense := v[4], speed := v[5], generation := v[6],
                  legendary := LegendaryText(row[Legendary])))
  }

  /** Each stat of the instance is int() of its column. */
  lemma RecordFromColumns(row: Row)
    requires RowRecord(row).Ok?
    ensures var p := RowRecord(row).value;
            && Some(p.hp) == ColumnInt(row, HP) && Some(p.attack) == ColumnInt(row, Attack)
            && Some(p.defense) == ColumnInt(row, Defense)
            && Some(p.specialAttack) == ColumnInt(row, SpAtk) && Some(p.specialDefense) == ColumnInt(row, SpDef)
            && Some(p.speed) == ColumnInt(row, Speed) && Some(p.generation) == ColumnInt(row, Generation)
  {
    IntColumnsValues(row, IntegerColumns);
  }

  /** A column outside cols does not change how cols convert. */
  lemma {:induction false} IntColumnsIgnoreOthers(row: Row, c: Column, text: string, cols: seq<Column>)
    requires c !in cols
    ensures IntColumns(row[c := text], cols) == IntColumns(row, cols)
    decreases |cols|
  {
    if cols != [] {
      assert cols[0] != c;
      IntColumnsIgnoreOthers(row, c, text, cols[1..]);
    }
  }

  /** What a CSV line contributes: its stripped name, or the KeyError on
      Name, and the rest of the instance, or the exception its arguments
      raise. */
  datatype Line = Line(name: Result<string, ImportError>, record: Result<Pokemon, ImportError>)

  function LineOf(row: Row): (l: Line)
    ensures l.name.Ok? <==> Name in row
    ensures l.name.Ok? ==> l.name.value == Strip(row[Name]) && Strip(l.name.value) == l.name.value
    ensures l.record == RowRecord(row)
  {
    var name := if Name in row then Ok(Strip(row[Name])) else Err(MissingColumn(Name));
    assert name.Ok? ==> Strip(name.value) == name.value by {
      if Name in row { StripIdempotent(row[Name]); }
    }
    Line(name, RowRecord(row))
  }

  /** The Total column is never read. */
  lemma TotalColumnIgnored(row: Row, text: string)
    ensures LineOf(row[Total := text]) == LineOf(row)
  {
    IntColumnsIgnoreOthers(row, Total, text, IntegerColumns);
    assert SecondType(row[Total := text]) == SecondType(row);
    assert RowRecord(row[Total := text]) == RowRecord(row);
  }

  /** The lines of a CSV file, in order. */
  function Lines(rows: seq<Row>): (ls: seq<Line>)
    ensures |ls| == |rows|
    decreases |rows|
  {
    if rows == [] then [] else [LineOf(rows[0])] + Lines(rows[1..])
  }

  /** Line k comes from row k. */
  lemma {:induction false} LineAt(rows: seq<Row>, k: nat)
    requires k < |rows|
    ensures Lines(rows)[k] == LineOf(rows[k])
    decreases k
  {
    if k > 0 {
      LineAt(rows[1..], k - 1);
    }
  }

  /** Whether a record with exactly this name exists (`filter(...).exists()`). */
  predicate NameTaken(rows: map<nat, Pokemon>, name: string) {
    exists id :: id in rows && rows[id].name == name
  }

  /** What one line does to the table. */
  datatype Step = Skipped | Inserted(record: Pokemon) | Raised(error: ImportError)

  /** One iteration of the loop: skip a line whose name is taken, otherwise
      create the record under that name (its total recomputed by save()),
      unless an exception is raised on the way. */
  function LineStep(rows: map<nat, Pokemon>, line: Line): (s: Step)
    ensures s.Skipped? <==> line.name.Ok? && NameTaken(rows, line.name.value)
    ensures line.name.Err? ==> s == Raised(line.name.error)
    ensures s.Inserted? ==> && line.name.Ok? && line.record.Ok?
                            && s.record == Recomputed(line.record.value.(name := line.name.value))
                            && !NameTaken(rows, s.record.name)
                            && TotalIsSum(s.record) && Persistable(s.record)
  {
    if line.name.Err? then Raised(line.name.error)
    else if NameTaken(rows, line.name.value) then Skipped
    else if line.record.Err? then Raised(line.record.error)
    else
      var p := line.record.value.(name := line.name.value);
      if !Persistable(p) then Raised(Refused) else Inserted(Recomputed(p))
  }

  // ---------------------------------------------------------------------------
  // The loop

  /** The table, the next id, and how run() ended. */
  datatype Run = Run(rows: map<nat, Pokemon>, nextId: nat, outcome: Outcome)

  /** The remaining lines processed against the table, with count records
      created so far. */
  function ImportFrom(lines: seq<Line>, rows: map<nat, Pokemon>, nextId: nat, count: nat): (r: Run)
    ensures !r.outcome.SourceNotFound? && r.outcome.count >= count
    decreases |lines|
  {
    if lines == [] then Run(rows, nextId, Imported(count))
    else
      match LineStep(rows, lines[0])
      case Skipped => ImportFrom(lines[1..], rows, nextId, count)
      case Inserted(p) => ImportFrom(lines[1..], rows[nextId := p], nextId + 1, count + 1)
      case Raised(e) => Run(rows, nextId, Aborted(count, e))
  }

  /** run(): nothing happens when the CSV is missing; otherwise every line
      is processed from a count of 0. */
  function Import(source: Option<seq<Row>>, rows: map<nat, Pokemon>, nextId: nat): (r: Run)
    ensures source.None? <==> r.outcome.SourceNotFound?
    ensures source.None? ==> r.rows == rows && r.nextId == nextId
  {
    if source.None? then Run(rows, nextId, SourceNotFound) else ImportFrom(Lines(source.value), rows, nextId, 0)
  }

  /** The loop after i lines, when the next line is skipped. */
  lemma StepSkipped(lines: seq<Line>, i: nat, rows: map<nat, Pokemon>, nextId: nat, count: nat)
    requires i < |lines| && LineStep(rows, lines[i]).Skipped?
    ensures ImportFrom(lines[i..], rows, nextId, count) == ImportFrom(lines[i + 1..], rows, nextId, count)
  {
    assert lines[i..][0] == lines[i] && lines[i..][1..] == lines[i + 1..];
  }

  /** The loop after i lines, when the next line creates p. */
  lemma StepInserted(lines: seq<Line>, i: nat, rows: map<nat, Pokemon>, nextId: nat, count: nat, p: Pokemon)
    requires i < |lines| && LineStep(rows, lines[i]) == Inserted(p)
    ensures ImportFrom(lines[i..], rows, nextId, count) == ImportFrom(lines[i + 1..], rows[nextId := p], nextId + 1, count + 1)
  {
    assert lines[i..][0] == lines[i] && lines[i..][1..] == lines[i + 1..];
  }

  /** The loop after i lines, when the next line raises e. */
  lemma StepRaised(lines: seq<Line>, i: nat, rows: map<nat, Pokemon>, nextId: nat, count: nat, e: ImportError)
    requires i < |lines| && LineStep(rows, lines[i]) == Raised(e)
    ensures ImportFrom(lines[i..], rows, nextId, count) == Run(rows, nextId, Aborted(count, e))
  {
    assert lines[i..][0] == lines[i];
  }

  /** Reads line i of the export: its stripped name and the other keyword
      arguments of create(). Both are pure, so reading them before the
      exists() query changes no effect. */
  method ReadLine(csv: seq<Row>, i: nat) returns (line: Line)
    requires i < |csv|
    ensures line == Lines(csv)[i]
  {
    LineAt(csv, i);
    var row := csv[i];
    var name := if Name in row then Ok(Strip(row[Name])) else Err(MissingColumn(Name));
    line := Line(name, RowRecord(row));
  }

  /** One pass of run()'s loop body: the line at index i of the export is
      skipped, saved, or ends the run with the error it raises. */
  method ImportLine(c: Catalog, ghost lines: seq<Line>, i: nat, line: Line, count: nat) returns (stop: Option<ImportError>, saved: bool)
    requires c.Valid() && i < |lines| && line == lines[i]
    modifies c
    ensures c.Valid()
    ensures stop.Some? ==> ImportFrom(lines[i..], old(c.rows), old(c.nextId), count) == Run(c.rows, c.nextId, Aborted(count, stop.value))
    ensures stop.None? ==> ImportFrom(lines[i..], old(c.rows), old(c.nextId), count)
                           == ImportFrom(lines[i + 1..], c.rows, c.nextId, if saved then count + 1 else count)
  {
    if line.name.Err? {
      StepRaised(lines, i, c.rows, c.nextId, count, line.name.error);
      return Some(line.name.error), false;
    }
    var name := line.name.value;
    var taken := c.NameExists(name);
    if taken {
      StepSkipped(lines, i, c.rows, c.nextId, count);
      return None, false;
    }
    if line.record.Err? {
      StepRaised(lines, i, c.rows, c.nextId, count, line.record.error);
      return Some(line.record.error), false;
    }
    ghost var rows0, next0 := c.rows, c.nextId;
    var p := line.record.value.(name := name);
    var id := c.Insert(p);
    if id.Err? {
      StepRaised(lines, i, rows0, next0, count, Refused);
      return Some(Refused), false;
    }
    StepInserted(lines, i, rows0, next0, count, Recomputed(p));
    return None, true;
  }

  /** The loop of run() against the table, one line at a time. */
  method RunImport(c: Catalog, source: Option<seq<Row>>) returns (outcome: Outcome)
    requires c.Valid()
    modifies c
    ensures c.Valid()
    ensures Run(c.rows, c.nextId, outcome) == Import(source, old(c.rows), old(c.nextId))
  {
    if source.None? {
      return SourceNotFound;
    }
    var csv := source.value;
    ghost var lines := Lines(csv);
    var count := 0;
    var i := 0;
    while i < |csv|
      invariant 0 <= i <= |csv|
      invariant c.Valid()
      invariant ImportFrom(lines[i..], c.rows, c.nextId, count) == ImportFrom(lines, old(c.rows), old(c.nextId), 0)
    {
      var line := ReadLine(csv, i);
      var stop, saved := ImportLine(c, lines, i, line, count);
      if stop.Some? {
        return Aborted(count, stop.value);
      }
      if saved {
        count := count + 1;
      }
      i := i + 1;
    }
    return Imported(count);
  }

  // ---------------------------------------------------------------------------
  // What the loop guarantees

  /** The import keeps the rows already there as they were, takes the ids
      it gives out in order from nextId, one per record it counts, and leaves
      the ids fresh above the new nextId. */
  lemma {:induction false} ImportKeeps(lines: seq<Line>, rows: map<nat, Pokemon>, nextId: nat, count: nat)
    requires FreshAbove(rows, nextId)
    ensures var r := ImportFrom(lines, rows, nextId, count);
            && FreshAbove(r.rows, r.nextId)
            && r.nextId == nextId + (r.outcome.count - count)
            && (forall id | id in rows :: id in r.rows && r.rows[id] == rows[id])
    decreases |lines|
  {
    if lines != [] {
      var s := LineStep(rows, lines[0]);
      if s.Skipped? {
        ImportKeeps(lines[1..], rows, nextId, count);
      } else if s.Inserted? {
        InsertFresh(rows, nextId, s.record);
        ImportKeeps(lines[1..], rows[nextId := s.record], nextId + 1, count + 1);
      }
    }
  }

  /** The table grows by exactly the number of records the import counts. */
  lemma {:induction false} ImportGrows(lines: seq<Line>, rows: map<nat, Pokemon>, nextId: nat, count: nat)
    requires FreshAbove(rows, nextId)
    ensures var r := ImportFrom(lines, rows, nextId, count);
            |r.rows| == |rows| + (r.outcome.count - count)
    decreases |lines|
  {
    if lines != [] {
      var s := LineStep(rows, lines[0]);
      if s.Skipped? {
        ImportGrows(lines[1..], rows, nextId, count);
      } else if s.Inserted? {
        InsertFresh(rows, nextId, s.record);
        assert |rows[nextId := s.record]| == |rows| + 1;
        ImportGrows(lines[1..], rows[nextId := s.record], nextId + 1, count + 1);
      }
    }
  }

  /** Every row the import adds sits under an id it gave out, and its total
      is the sum of its stats. */
  lemma {:induction false} ImportNewRows(lines: seq<Line>, rows: map<nat, Pokemon>, nextId: nat, count: nat)
    requires FreshAbove(rows, nextId)
    ensures var r := ImportFrom(lines, rows, nextId, count);
            forall id | id in r.rows && id !in rows :: nextId <= id < r.nextId && TotalIsSum(r.rows[id])
    decreases |lines|
  {
    if lines != [] {
      var s := LineStep(rows, lines[0]);
      if s.Skipped? {
        ImportNewRows(lines[1..], rows, nextId, count);
      } else if s.Inserted? {
        InsertFresh(rows, nextId, s.record);
        ImportNewRows(lines[1..], rows[nextId := s.record], nextId + 1, count + 1);
        ImportKeeps(lines[1..], rows[nextId := s.record], nextId + 1, count + 1);
      }
    }
  }

  /** No two records share a name. */
  predicate NamesDistinct(rows: map<nat, Pokemon>) {
    forall i, j | i in rows && j in rows && i != j :: rows[i].name != rows[j].name
  }

  /** Adding a record whose name is not taken keeps the names distinct. */
  lemma InsertKeepsNamesDistinct(rows: map<nat, Pokemon>, nextId: nat, p: Pokemon)
    requires FreshAbove(rows, nextId) && NamesDistinct(rows) && !NameTaken(rows, p.name)
    ensures NamesDistinct(rows[nextId := p])
  {
    var rows' := rows[nextId := p];
    forall i, j | i in rows' && j in rows' && i != j
      ensures rows'[i].name != rows'[j].name
    {
      if i == nextId {
        assert j in rows && rows[j] == rows'[j];
      } else if j == nextId {
        assert i in rows && rows[i] == rows'[i];
      }
    }
  }

  /** A line is skipped when its name is taken, including by a record created
      earlier in the same run, so the import never creates a second record
      with a name already present. */
  lemma {:induction false} ImportKeepsNamesDistinct(lines: seq<Line>, rows: map<nat, Pokemon>, nextId: nat, count: nat)
    requires FreshAbove(rows, nextId) && NamesDistinct(rows)
    ensures NamesDistinct(ImportFrom(lines, rows, nextId, count).rows)
    decreases |lines|
  {
    if lines != [] {
      var s := LineStep(rows, lines[0]);
      if s.Skipped? {
        ImportKeepsNamesDistinct(lines[1..], rows, nextId, count);
      } else if s.Inserted? {
        InsertFresh(rows, nextId, s.record);
        InsertKeepsNamesDistinct(rows, nextId, s.record);
        ImportKeepsNamesDistinct(lines[1..], rows[nextId := s.record], nextId + 1, count + 1);
      }
    }
  }

  /** Every line has a name, and a record of the table bears it. */
  predicate Covered(lines: seq<Line>, rows: map<nat, Pokemon>) {
    forall k :: 0 <= k < |lines| ==> lines[k].name.Ok? && NameTaken(rows, lines[k].name.value)
  }

  /** A name taken before a step is still taken after it. */
  lemma TakenStaysTaken(rows: map<nat, Pokemon>, rows': map<nat, Pokemon>, name: string)
    requires NameTaken(rows, name)
    requires forall id | id in rows :: id in rows' && rows'[id] == rows[id]
    ensures NameTaken(rows', name)
  {
    var id :| id in rows && rows[id].name == name;
    assert id in rows' && rows'[id].name == name;
  }

  /** Once a run has processed every line, each line's name is in the
      table. */
  lemma {:induction false} CompletedImportCovers(lines: seq<Line>, rows: map<nat, Pokemon>, nextId: nat, count: nat)
    requires FreshAbove(rows, nextId)
    requires ImportFrom(lines, rows, nextId, count).outcome.Imported?
    ensures Covered(lines, ImportFrom(lines, rows, nextId, count).rows)
    decreases |lines|
  {
    if lines != [] {
      var r := ImportFrom(lines, rows, nextId, count);
      var s := LineStep(rows, lines[0]);
      var name := lines[0].name.value;
      var rows', nextId', count' :=
        if s.Inserted? then rows[nextId := s.record] else rows,
        if s.Inserted? then nextId + 1 else nextId,
        if s.Inserted? then count + 1 else count;
      if s.Inserted? {
        InsertFresh(rows, nextId, s.record);
        assert rows'[nextId].name == name;
      }
      assert NameTaken(rows', name);
      CompletedImportCovers(lines[1..], rows', nextId', count');
      ImportKeeps(lines[1..], rows', nextId', count');
      TakenStaysTaken(rows', r.rows, name);
      forall k | 0 <= k < |lines|
        ensures lines[k].name.Ok? && NameTaken(r.rows, lines[k].name.value)
      {
        if k > 0 {
          assert lines[k] == lines[1..][k - 1];
        }
      }
    }
  }

  /** A table that already names every line is left alone: every line is
      skipped. */
  lemma {:induction false} CoveredSkipsAll(lines: seq<Line>, rows: map<nat, Pokemon>, nextId: nat, count: nat)
    requires Covered(lines, rows)
    ensures ImportFrom(lines, rows, nextId, count) == Run(rows, nextId, Imported(count))
    decreases |lines|
  {
    if lines != [] {
      assert LineStep(rows, lines[0]).Skipped?;
      assert Covered(lines[1..], rows) by {
        forall k | 0 <= k < |lines| - 1
          ensures lines[1..][k].name.Ok? && NameTaken(rows, lines[1..][k].name.value)
        {
          assert lines[1..][k] == lines[k + 1];
        }
      }
      CoveredSkipsAll(lines[1..], rows, nextId, count);
    }
  }

  /** Running the import again over an unchanged CSV creates nothing, counts
      0 and leaves the table as the first run left it. */
  lemma SecondRunImportsNothing(csv: seq<Row>, rows: map<nat, Pokemon>, nextId: nat)
    requires FreshAbove(rows, nextId)
    requires Import(Some(csv), rows, nextId).outcome.Imported?
    ensures var first := Import(Some(csv), rows, nextId);
            Import(Some(csv), first.rows, first.nextId) == Run(first.rows, first.nextId, Imported(0))
  {
    CompletedImportCovers(Lines(csv), rows, nextId, 0);
    var first := Import(Some(csv), rows, nextId);
    CoveredSkipsAll(Lines(csv), first.rows, first.nextId, 0);
  }

  /** Processing lines a then b is processing a, then b from where a left
      the table, unless a line of a raised. */
  lemma {:induction false} ImportSplit(a: seq<Line>, b: seq<Line>, rows: map<nat, Pokemon>, nextId: nat, count: nat)
    ensures var first := ImportFrom(a, rows, nextId, count);
            ImportFrom(a + b, rows, nextId, count)
            == if first.outcome.Imported? then ImportFrom(b, first.rows, first.nextId, first.outcome.count) else first
    decreases |a|
  {
    if a == [] {
      assert a + b == b;
    } else {
      assert (a + b)[0] == a[0] && (a + b)[1..] == a[1..] + b;
      var s := LineStep(rows, a[0]);
      if s.Skipped? {
        ImportSplit(a[1..], b, rows, nextId, count);
      } else if s.Inserted? {
        ImportSplit(a[1..], b, rows[nextId := s.record], nextId + 1, count + 1);
      }
    }
  }

  /** A line that raises ends the run: the records created before it stay,
      with their count, and no later line is read (there is no transaction). */
  lemma AbortKeepsEarlier(a: seq<Line>, line: Line, b: seq<Line>, rows: map<nat, Pokemon>, nextId: nat)
    requires ImportFrom(a, rows, nextId, 0).outcome.Imported?
    requires LineStep(ImportFrom(a, rows, nextId, 0).rows, line).Raised?
    ensures var first := ImportFrom(a, rows, nextId, 0);
            ImportFrom(a + [line] + b, rows, nextId, 0)
            == Run(first.rows, first.nextId, Aborted(first.outcome.count, LineStep(first.rows, line).error))
  {
    assert a + [line] + b == a + ([line] + b);
    ImportSplit(a, [line] + b, rows, nextId, 0);
    assert ([line] + b)[0] == line;
  }

  // ---------------------------------------------------------------------------
  // The bulk-load tests

  /** Two lines with different names, neither of them in the table, each with
      an instance the table accepts: the first run creates both. */
  lemma TwoNewLinesCreated(x: Line, y: Line, rows: map<nat, Pokemon>, nextId: nat)
    requires FreshAbove(rows, nextId)
    requires x.name.Ok? && x.record.Ok? && Persistable(x.record.value) && !NameTaken(rows, x.name.value)
    requires y.name.Ok? && y.record.Ok? && Persistable(y.record.value) && !NameTaken(rows, y.name.value)
    requires x.name.value != y.name.value
    ensures ImportFrom([x, y], rows, nextId, 0).outcome == Imported(2)
  {
    var lines := [x, y];
    var p := Recomputed(x.record.value.(name := x.name.value));
    var q := Recomputed(y.record.value.(name := y.name.value));
    assert LineStep(rows, x) == Inserted(p);
    var rows1 := rows[nextId := p];
    assert !NameTaken(rows1, y.name.value) by {
      forall id | id in rows1
        ensures rows1[id].name != y.name.value
      {
        if id != nextId {
          assert id in rows;
        }
      }
    }
    assert LineStep(rows1, y) == Inserted(q);
    assert lines[0..] == lines && lines[2..] == [];
    StepInserted(lines, 0, rows, nextId, 0, p);
    StepInserted(lines, 1, rows1, nextId + 1, 1, q);
  }

  /** The bulk-load tests: loading a two-line export whose names the table
      does not hold adds two Pokémon, and loading it a second time adds none. */
  lemma TwoNewLines(x: Line, y: Line, rows: map<nat, Pokemon>, nextId: nat)
    requires FreshAbove(rows, nextId)
    requires x.name.Ok? && x.record.Ok? && Persistable(x.record.value) && !NameTaken(rows, x.name.value)
    requires y.name.Ok? && y.record.Ok? && Persistable(y.record.value) && !NameTaken(rows, y.name.value)
    requires x.name.value != y.name.value
    ensures var first := ImportFrom([x, y], rows, nextId, 0);
            && first.outcome == Imported(2) && |first.rows| == |rows| + 2
            && ImportFrom([x, y], first.rows, first.nextId, 0) == Run(first.rows, first.nextId, Imported(0))
  {
    TwoNewLinesCreated(x, y, rows, nextId);
    ImportGrows([x, y], rows, nextId, 0);
    var first := ImportFrom([x, y], rows, nextId, 0);
    CompletedImportCovers([x, y], rows, nextId, 0);
    CoveredSkipsAll([x, y], first.rows, first.nextId, 0);
  }
}
