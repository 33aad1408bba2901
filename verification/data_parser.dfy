/** The CMS row normaliser `processCMSData`: turns the rows of the CMS
    Medicare cost table, already split into column-name -> cell maps by the
    CSV library, into a procedure catalogue keyed by DRG code and the list of
    locations a user may pick.

    A cell is "present" when its column exists and is not the empty string,
    which is JavaScript's truthiness for a string cell. */
module DataParser {
  import opened Wrappers
  import Seqs
  import Payment

  /** One CSV row: column name -> cell text; a missing column is an absent key. */
  type Row = map<string, string>

  const CodeColumn := "DRG_Code"
  const DescriptionColumn := "DRG_Description"
  const PaymentColumn := "Average_Total_Payments"
  const GeographyColumn := "Geography"

  /** The location that stands for the national average. */
  const National := "National"

  datatype Procedure = Procedure(
    id: string,
    code: string,
    name: string,
    nationalAvgCost: real,
    locations: map<string, real>)

  datatype CMSData = CMSData(procedures: seq<Procedure>, availableLocations: seq<string>)

  predicate Present(row: Row, column: string) {
    column in row && row[column] != ""
  }

  // ---------------------------------------------------------------------
  // First pass: the location list
  // ---------------------------------------------------------------------

  /** `row` carries the non-empty geography `g`. */
  predicate ListsGeography(row: Row, g: string) {
    Present(row, GeographyColumn) && row[GeographyColumn] == g
  }

  /** The non-empty `Geography` cells of all rows, in row order, repeats kept. */
  function Geographies(rows: seq<Row>): (gs: seq<string>)
    ensures forall g :: g in gs <==> exists i | 0 <= i < |rows| :: ListsGeography(rows[i], g)
    ensures "" !in gs
  {
    if |rows| == 0 then []
    else
      var p, row := rows[..|rows| - 1], rows[|rows| - 1];
      assert forall i | 0 <= i < |p| :: p[i] == rows[i];
      Geographies(p) + (if Present(row, GeographyColumn) then [row[GeographyColumn]] else [])
  }

  /** `"National"` followed by every distinct geography, whichever row (valid
      or not) it came from. */
  function AvailableLocations(rows: seq<Row>): (locs: seq<string>)
    ensures |locs| >= 1 && locs[0] == National
    ensures Seqs.Distinct(locs[1..])
    ensures forall g :: g in locs[1..] <==> exists i | 0 <= i < |rows| :: ListsGeography(rows[i], g)
    ensures "" !in locs
  {
    var locs := [National] + Seqs.Dedup(Geographies(rows));
    assert locs[1..] == Seqs.Dedup(Geographies(rows));
    locs
  }

  /** Some row lists `g` before any row lists `h`. */
  predicate GeographyFirstBefore(rows: seq<Row>, g: string, h: string) {
    exists a | 0 <= a < |rows| ::
      ListsGeography(rows[a], g) && forall b | 0 <= b <= a :: !ListsGeography(rows[b], h)
  }

  /** Of two geographies, the one collected first has a row before every row
      of the other. */
  lemma {:induction false} GeographyOrderFromRows(rows: seq<Row>, g: string, h: string)
    requires g in Geographies(rows) && h in Geographies(rows)
    requires Seqs.FirstIndex(Geographies(rows), g) < Seqs.FirstIndex(Geographies(rows), h)
    ensures GeographyFirstBefore(rows, g, h)
  {
    var p, row := rows[..|rows| - 1], rows[|rows| - 1];
    assert forall i | 0 <= i < |p| :: p[i] == rows[i];
    var gp := Geographies(p);
    if g in gp {
      if Present(row, GeographyColumn) {
        Seqs.FirstIndexSnoc(gp, row[GeographyColumn], g);
        if h in gp {
          Seqs.FirstIndexSnoc(gp, row[GeographyColumn], h);
        }
      } else {
        assert Geographies(rows) == gp;
      }
      if h in gp {
        GeographyOrderFromRows(p, g, h);
      }
    }
  }

  /** The geographies after the leading `"National"` appear in the order of
      their first row: an earlier one is listed by some row before any row
      lists a later one. */
  lemma LocationsInFirstSeenOrder(rows: seq<Row>)
    ensures var locs := AvailableLocations(rows);
      forall i, j | 1 <= i < j < |locs| ::
        && Seqs.FirstIndex(Geographies(rows), locs[i]) < Seqs.FirstIndex(Geographies(rows), locs[j])
        && GeographyFirstBefore(rows, locs[i], locs[j])
  {
    var locs := AvailableLocations(rows);
    var d := Seqs.Dedup(Geographies(rows));
    assert locs == [National] + d;
    Seqs.DedupFirstSeenOrder(Geographies(rows));
    forall i, j | 1 <= i < j < |locs|
      ensures Seqs.FirstIndex(Geographies(rows), locs[i]) < Seqs.FirstIndex(Geographies(rows), locs[j])
      ensures GeographyFirstBefore(rows, locs[i], locs[j])
    {
      assert locs[i] == d[i - 1] && locs[j] == d[j - 1];
      GeographyOrderFromRows(rows, locs[i], locs[j]);
    }
  }

  /** A row whose geography is literally `"National"` puts a second
      `"National"` into the list. */
  lemma NationalRowListedTwice(rows: seq<Row>, i: nat)
    requires i < |rows| && ListsGeography(rows[i], National)
    ensures var locs := AvailableLocations(rows);
      exists k | 1 <= k < |locs| :: locs[k] == National
  {
    var locs := AvailableLocations(rows);
    assert National in locs[1..];
    var k :| 0 <= k < |locs[1..]| && locs[1..][k] == National;
    assert locs[k + 1] == National;
  }

  // ---------------------------------------------------------------------
  // Second pass: row validation and grouping by code
  // ---------------------------------------------------------------------

  /** What a valid row contributes: the cost of `code` at `location`. */
  datatype Entry = Entry(code: string, name: string, location: string, cost: real)

  /** Validates one row: code, description and payment must be present and
      the payment must read as a number; a missing geography means national. */
  function ParseRow(row: Row): (e: Option<Entry>)
    ensures e.Some? <==>
      Present(row, CodeColumn) && Present(row, DescriptionColumn) && Present(row, PaymentColumn)
      && Payment.ParseAmount(row[PaymentColumn]).Some?
    ensures e.Some? ==> e.value.code == row[CodeColumn] && e.value.name == row[DescriptionColumn]
    ensures e.Some? ==> e.value.cost == Payment.ParseAmount(row[PaymentColumn]).value
    ensures e.Some? ==> e.value.code != "" && e.value.cost >= 0.0
    ensures e.Some? ==>
      (e.value.location == National <==> !Present(row, GeographyColumn) || row[GeographyColumn] == National)
    ensures e.Some? && e.value.location != National ==> ListsGeography(row, e.value.location)
  {
    if !Present(row, CodeColumn) || !Present(row, DescriptionColumn) || !Present(row, PaymentColumn) then
      None
    else
      var location := if Present(row, GeographyColumn) then row[GeographyColumn] else National;
      match Payment.ParseAmount(row[PaymentColumn])
      case None => None
      case Some(cost) => Some(Entry(row[CodeColumn], row[DescriptionColumn], location, cost))
  }

  /** The procedure created on the first valid row of a code. */
  function NewProcedure(e: Entry): Procedure {
    Procedure(e.code, e.code, e.name, 0.0, map[])
  }

  /** The one field a valid row writes. */
  function Record(p: Procedure, e: Entry): Procedure {
    if e.location == National then p.(nationalAvgCost := e.cost)
    else p.(locations := p.locations[e.location := e.cost])
  }

  /** Position of the procedure with this code, or `|procs|` when there is none
      (the `has`/`get` of the code-keyed `Map`). */
  function FindCode(procs: seq<Procedure>, code: string): (k: nat)
    ensures k <= |procs|
    ensures k < |procs| ==> procs[k].code == code
    ensures forall i | 0 <= i < k :: procs[i].code != code
  {
    if |procs| == 0 then 0
    else if procs[0].code == code then 0
    else 1 + FindCode(procs[1..], code)
  }

  /** The codes of a procedure list, in order. */
  function Codes(procs: seq<Procedure>): (cs: seq<string>)
    ensures |cs| == |procs|
    ensures forall i | 0 <= i < |procs| :: cs[i] == procs[i].code
  {
    seq(|procs|, i requires 0 <= i < |procs| => procs[i].code)
  }

  /** One iteration of the grouping loop.  An invalid row changes nothing; a
      valid row touches only the procedure of its code (appending a fresh one
      when the code is new), keeps its id, code and name, and changes exactly
      one of its two cost fields. */
  function Step(procs: seq<Procedure>, row: Row): (r: seq<Procedure>)
    ensures ParseRow(row).None? ==> r == procs
    ensures ParseRow(row).Some? ==>
      var e := ParseRow(row).value;
      var k := FindCode(procs, e.code);
      var before := if k < |procs| then procs[k] else NewProcedure(e);
      && |r| == (if k < |procs| then |procs| else |procs| + 1)
      && (forall i | 0 <= i < |procs| && i != k :: r[i] == procs[i])
      && r[k].id == before.id && r[k].code == e.code && r[k].name == before.name
      && (e.location == National ==>
            r[k].nationalAvgCost == e.cost && r[k].locations == before.locations)
      && (e.location != National ==>
            r[k].nationalAvgCost == before.nationalAvgCost
            && r[k].locations.Keys == before.locations.Keys + {e.location}
            && r[k].locations[e.location] == e.cost
            && forall l | l in before.locations && l != e.location :: r[k].locations[l] == before.locations[l])
  {
    match ParseRow(row)
    case None => procs
    case Some(e) =>
      var k := FindCode(procs, e.code);
      if k < |procs| then procs[k := Record(procs[k], e)]
      else procs + [Record(NewProcedure(e), e)]
  }

  /** The grouping loop over a prefix of the rows. */
  function ProcessRows(rows: seq<Row>): (procs: seq<Procedure>)
    ensures |procs| <= |rows|
    ensures forall i | 0 <= i < |procs| :: procs[i].id == procs[i].code
  {
    if |rows| == 0 then [] else Step(ProcessRows(rows[..|rows| - 1]), rows[|rows| - 1])
  }

  /** `processCMSData`: the procedure catalogue in first-seen order of code and
      the location list. */
  function ProcessCMSData(rows: seq<Row>): (r: CMSData)
    ensures r.availableLocations == AvailableLocations(rows)
    ensures r.availableLocations[0] == National
    ensures Seqs.Distinct(Codes(r.procedures))
    ensures forall i | 0 <= i < |r.procedures| :: r.procedures[i].id == r.procedures[i].code
    ensures forall c :: c in Codes(r.procedures) <==> exists i | 0 <= i < |rows| :: Mentions(rows[i], c)
  {
    ProcessRowsSummarises(rows);
    ValidCodesMembers(rows);
    CMSData(ProcessRows(rows), AvailableLocations(rows))
  }

  // ---------------------------------------------------------------------
  // Reference definitions, stated per row rather than per loop iteration
  // ---------------------------------------------------------------------

  /** `row` is valid and has code `code`. */
  predicate Mentions(row: Row, code: string) {
    ParseRow(row).Some? && ParseRow(row).value.code == code
  }

  /** `row` is valid and writes the cost of `code` at `location`. */
  predicate Writes(row: Row, code: string, location: string) {
    Mentions(row, code) && ParseRow(row).value.location == location
  }

  /** The codes of the valid rows, in row order, repeats kept. */
  function ValidCodes(rows: seq<Row>): seq<string> {
    if |rows| == 0 then []
    else
      var row := rows[|rows| - 1];
      ValidCodes(rows[..|rows| - 1]) + (if ParseRow(row).Some? then [ParseRow(row).value.code] else [])
  }

  /** The description on the first valid row of `code`. */
  function FirstName(rows: seq<Row>, code: string): Option<string> {
    if |rows| == 0 then None
    else if Mentions(rows[0], code) then Some(ParseRow(rows[0]).value.name)
    else FirstName(rows[1..], code)
  }

  /** The cost on the last valid row that writes `code` at `location`. */
  function LastCost(rows: seq<Row>, code: string, location: string): Option<real> {
    if |rows| == 0 then None
    else if Writes(rows[|rows| - 1], code, location) then Some(ParseRow(rows[|rows| - 1]).value.cost)
    else LastCost(rows[..|rows| - 1], code, location)
  }

  /** What the catalogue entry of a code must hold after reading `rows`. */
  ghost predicate Summarises(p: Procedure, rows: seq<Row>) {
    && p.id == p.code
    && FirstName(rows, p.code) == Some(p.name)
    && p.nationalAvgCost == LastCost(rows, p.code, National).GetOr(0.0)
    && (forall l :: l in p.locations <==> l != National && LastCost(rows, p.code, l).Some?)
    && (forall l | l in p.locations :: p.locations[l] == LastCost(rows, p.code, l).value)
  }

  ghost predicate Describes(procs: seq<Procedure>, rows: seq<Row>) {
    && Codes(procs) == Seqs.Dedup(ValidCodes(rows))
    && forall i | 0 <= i < |procs| :: Summarises(procs[i], rows)
  }

  // ---------------------------------------------------------------------
  // Facts about the reference definitions
  // ---------------------------------------------------------------------

  lemma ValidCodesSnoc(rows: seq<Row>, row: Row)
    ensures ValidCodes(rows + [row]) ==
      ValidCodes(rows) + (if ParseRow(row).Some? then [ParseRow(row).value.code] else [])
  {
    assert (rows + [row])[..|rows|] == rows;
  }

  lemma LastCostSnoc(rows: seq<Row>, row: Row, code: string, location: string)
    ensures LastCost(rows + [row], code, location) ==
      if Writes(row, code, location) then Some(ParseRow(row).value.cost) else LastCost(rows, code, location)
  {
    assert (rows + [row])[..|rows|] == rows;
  }

  lemma {:induction false} FirstNameSnoc(rows: seq<Row>, row: Row, code: string)
    ensures FirstName(rows + [row], code) ==
      if FirstName(rows, code).Some? then FirstName(rows, code)
      else if Mentions(row, code) then Some(ParseRow(row).value.name)
      else None
  {
    if |rows| == 0 {
      assert [row][1..] == [];
    } else {
      assert (rows + [row])[1..] == rows[1..] + [row];
      FirstNameSnoc(rows[1..], row, code);
    }
  }

  /** A code has a valid row exactly when it is among the valid codes. */
  lemma {:induction false} ValidCodesMembers(rows: seq<Row>)
    ensures forall c :: c in ValidCodes(rows) <==> exists i | 0 <= i < |rows| :: Mentions(rows[i], c)
  {
    if |rows| > 0 {
      var p, row := rows[..|rows| - 1], rows[|rows| - 1];
      assert rows == p + [row];
      ValidCodesMembers(p);
      ValidCodesSnoc(p, row);
      forall c | exists i | 0 <= i < |rows| :: Mentions(rows[i], c)
        ensures c in ValidCodes(rows)
      {
        var i :| 0 <= i < |rows| && Mentions(rows[i], c);
        if i < |p| {
          assert p[i] == rows[i];
        }
      }
      forall c | c in ValidCodes(rows)
        ensures exists i | 0 <= i < |rows| :: Mentions(rows[i], c)
      {
        if c in ValidCodes(p) {
          var i :| 0 <= i < |p| && Mentions(p[i], c);
          assert rows[i] == p[i];
        } else {
          assert Mentions(rows[|rows| - 1], c);
        }
      }
    }
  }

  /** A code has a name exactly when some valid row carries it. */
  lemma {:induction false} FirstNameDefined(rows: seq<Row>, code: string)
    ensures FirstName(rows, code).Some? <==> code in ValidCodes(rows)
  {
    if |rows| > 0 {
      var p, row := rows[..|rows| - 1], rows[|rows| - 1];
      assert rows == p + [row];
      FirstNameDefined(p, code);
      FirstNameSnoc(p, row, code);
      ValidCodesSnoc(p, row);
    }
  }

  /** Only a code with a valid row has any cost written. */
  lemma {:induction false} LastCostNeedsValidRow(rows: seq<Row>, code: string, location: string)
    ensures LastCost(rows, code, location).Some? ==> code in ValidCodes(rows)
  {
    if |rows| > 0 {
      var p, row := rows[..|rows| - 1], rows[|rows| - 1];
      assert rows == p + [row];
      LastCostNeedsValidRow(p, code, location);
      LastCostSnoc(p, row, code, location);
      ValidCodesSnoc(p, row);
    }
  }

  // ---------------------------------------------------------------------
  // The grouping loop computes the reference definitions
  // ---------------------------------------------------------------------

  /** A procedure whose code the new row does not mention still summarises
      the longer row list. */
  lemma SummarisesUntouched(p: Procedure, rows: seq<Row>, row: Row)
    requires Summarises(p, rows)
    requires !Mentions(row, p.code)
    ensures Summarises(p, rows + [row])
  {
    FirstNameSnoc(rows, row, p.code);
    forall l
      ensures LastCost(rows + [row], p.code, l) == LastCost(rows, p.code, l)
    {
      LastCostSnoc(rows, row, p.code, l);
    }
  }

  /** The procedure a valid row writes summarises the longer row list. */
  lemma SummarisesRecorded(p: Procedure, rows: seq<Row>, row: Row)
    requires Summarises(p, rows)
    requires ParseRow(row).Some? && ParseRow(row).value.code == p.code
    ensures Summarises(Record(p, ParseRow(row).value), rows + [row])
  {
    var e := ParseRow(row).value;
    FirstNameSnoc(rows, row, p.code);
    forall l
      ensures LastCost(rows + [row], p.code, l) ==
        if l == e.location then Some(e.cost) else LastCost(rows, p.code, l)
    {
      LastCostSnoc(rows, row, p.code, l);
    }
  }

  /** The procedure created for a new code summarises the longer row list. */
  lemma SummarisesCreated(rows: seq<Row>, row: Row)
    requires ParseRow(row).Some?
    requires ParseRow(row).value.code !in ValidCodes(rows)
    ensures Summarises(Record(NewProcedure(ParseRow(row).value), ParseRow(row).value), rows + [row])
  {
    var e := ParseRow(row).value;
    FirstNameDefined(rows, e.code);
    FirstNameSnoc(rows, row, e.code);
    forall l
      ensures LastCost(rows + [row], e.code, l) == if l == e.location then Some(e.cost) else None
    {
      LastCostNeedsValidRow(rows, e.code, l);
      LastCostSnoc(rows, row, e.code, l);
    }
  }

  lemma StepDescribes(procs: seq<Procedure>, rows: seq<Row>, row: Row)
    requires Describes(procs, rows)
    ensures Describes(Step(procs, row), rows + [row])
  {
    ValidCodesSnoc(rows, row);
    match ParseRow(row)
    case None =>
      assert ValidCodes(rows + [row]) == ValidCodes(rows) + [] == ValidCodes(rows);
      forall i | 0 <= i < |procs|
        ensures Summarises(procs[i], rows + [row])
      {
        SummarisesUntouched(procs[i], rows, row);
      }
    case Some(e) =>
      var k := FindCode(procs, e.code);
      Seqs.DedupSnoc(ValidCodes(rows), e.code);
      assert e.code in Codes(procs) <==> k < |procs| by {
        if e.code in Codes(procs) {
          var j :| 0 <= j < |procs| && Codes(procs)[j] == e.code;
          assert procs[j].code == e.code;
        }
      }
      if k < |procs| {
        StepDescribesKnown(procs, rows, row, k);
      } else {
        StepDescribesNew(procs, rows, row);
      }
  }

  /** A valid row of a code already catalogued at position `k`. */
  lemma StepDescribesKnown(procs: seq<Procedure>, rows: seq<Row>, row: Row, k: nat)
    requires Describes(procs, rows) && ParseRow(row).Some?
    requires k == FindCode(procs, ParseRow(row).value.code) < |procs|
    requires ValidCodes(rows + [row]) == ValidCodes(rows) + [ParseRow(row).value.code]
    requires Seqs.Dedup(ValidCodes(rows + [row])) == Seqs.Dedup(ValidCodes(rows))
    ensures Describes(Step(procs, row), rows + [row])
  {
    var r := Step(procs, row);
    assert Codes(r) == Codes(procs);
    forall i | 0 <= i < |procs|
      ensures Summarises(r[i], rows + [row])
    {
      if i == k {
        SummarisesRecorded(procs[k], rows, row);
      } else {
        assert Codes(procs)[i] != Codes(procs)[k];
        SummarisesUntouched(procs[i], rows, row);
      }
    }
  }

  /** A valid row of a code not yet catalogued. */
  lemma StepDescribesNew(procs: seq<Procedure>, rows: seq<Row>, row: Row)
    requires Describes(procs, rows) && ParseRow(row).Some?
    requires FindCode(procs, ParseRow(row).value.code) == |procs|
    requires ValidCodes(rows + [row]) == ValidCodes(rows) + [ParseRow(row).value.code]
    requires Seqs.Dedup(ValidCodes(rows + [row])) == Seqs.Dedup(ValidCodes(rows)) + [ParseRow(row).value.code]
    ensures Describes(Step(procs, row), rows + [row])
  {
    var e := ParseRow(row).value;
    var r := Step(procs, row);
    var k := |procs|;
    assert Codes(r) == Codes(procs) + [e.code];
    assert e.code !in ValidCodes(rows);
    forall i | 0 <= i < |r|
      ensures Summarises(r[i], rows + [row])
    {
      if i == k {
        SummarisesCreated(rows, row);
      } else {
        assert Codes(procs)[i] != e.code;
        SummarisesUntouched(procs[i], rows, row);
      }
    }
  }

  /** After any prefix of the rows, the catalogue lists each validly coded
      procedure once, in order of its first valid row, with the name of that
      row, the cost of the last national row (0 if none) and, per other
      location, the cost of the last row for that location. */
  lemma {:induction false} ProcessRowsSummarises(rows: seq<Row>)
    ensures Describes(ProcessRows(rows), rows)
  {
    if |rows| > 0 {
      var p, row := rows[..|rows| - 1], rows[|rows| - 1];
      assert rows == p + [row];
      ProcessRowsSummarises(p);
      StepDescribes(ProcessRows(p), p, row);
    }
  }

  // ---------------------------------------------------------------------
  // The reference definitions in terms of row positions
  // ---------------------------------------------------------------------

  /** `LastCost` is absent exactly when no row writes the field. */
  lemma {:induction false} LastCostAbsent(rows: seq<Row>, code: string, location: string)
    ensures LastCost(rows, code, location).None? <==>
      forall i | 0 <= i < |rows| :: !Writes(rows[i], code, location)
  {
    if |rows| > 0 {
      var p := rows[..|rows| - 1];
      LastCostAbsent(p, code, location);
      assert forall i | 0 <= i < |p| :: p[i] == rows[i];
    }
  }

  /** Row `i` writes the field and no later row does. */
  predicate IsLastWriter(rows: seq<Row>, i: int, code: string, location: string) {
    && 0 <= i < |rows|
    && Writes(rows[i], code, location)
    && forall j | i < j < |rows| :: !Writes(rows[j], code, location)
  }

  lemma LastWriterSnoc(rows: seq<Row>, row: Row, i: int, code: string, location: string)
    requires IsLastWriter(rows, i, code, location) && !Writes(row, code, location)
    ensures IsLastWriter(rows + [row], i, code, location)
  {
    var r := rows + [row];
    forall j | i < j < |r|
      ensures !Writes(r[j], code, location)
    {
      if j < |rows| {
        assert r[j] == rows[j];
      }
    }
  }

  /** `LastCost` is the cost of the last row that writes the field. */
  lemma {:induction false} LastCostIsLastWriter(rows: seq<Row>, code: string, location: string)
    requires LastCost(rows, code, location).Some?
    ensures exists i ::
      IsLastWriter(rows, i, code, location) && ParseRow(rows[i]).value.cost == LastCost(rows, code, location).value
  {
    var n := |rows| - 1;
    if Writes(rows[n], code, location) {
      assert IsLastWriter(rows, n, code, location);
    } else {
      var p := rows[..n];
      assert rows == p + [rows[n]];
      LastCostIsLastWriter(p, code, location);
      var i :| IsLastWriter(p, i, code, location)
        && ParseRow(p[i]).value.cost == LastCost(p, code, location).value;
      LastWriterSnoc(p, rows[n], i, code, location);
      assert rows[i] == p[i];
    }
  }

  /** Row `i` is valid for `code` and no earlier row is. */
  predicate IsFirstMention(rows: seq<Row>, i: int, code: string) {
    && 0 <= i < |rows|
    && Mentions(rows[i], code)
    && forall j | 0 <= j < i :: !Mentions(rows[j], code)
  }

  lemma FirstMentionCons(row: Row, rows: seq<Row>, i: int, code: string)
    requires IsFirstMention(rows, i, code) && !Mentions(row, code)
    ensures IsFirstMention([row] + rows, i + 1, code)
  {
    var r := [row] + rows;
    forall j | 0 <= j < i + 1
      ensures !Mentions(r[j], code)
    {
      if j > 0 {
        assert r[j] == rows[j - 1];
      }
    }
  }

  /** `FirstName` is the description of the first valid row of the code. */
  lemma {:induction false} FirstNameIsFirstRow(rows: seq<Row>, code: string)
    ensures FirstName(rows, code).Some? ==>
      exists i :: IsFirstMention(rows, i, code) && ParseRow(rows[i]).value.name == FirstName(rows, code).value
  {
    if |rows| > 0 {
      if Mentions(rows[0], code) {
        assert IsFirstMention(rows, 0, code);
      } else {
        var q := rows[1..];
        assert rows == [rows[0]] + q;
        assert FirstName(rows, code) == FirstName(q, code);
        FirstNameIsFirstRow(q, code);
        if FirstName(q, code).Some? {
          var i :| IsFirstMention(q, i, code) && ParseRow(q[i]).value.name == FirstName(q, code).value;
          FirstMentionCons(rows[0], q, i, code);
          assert rows[i + 1] == q[i];
        }
      }
    }
  }

  // ---------------------------------------------------------------------
  // Properties of the catalogue
  // ---------------------------------------------------------------------

  /** An invalid row, wherever it stands, neither creates nor modifies any
      procedure. */
  lemma {:induction false} InvalidRowIgnored(before: seq<Row>, row: Row, after: seq<Row>)
    requires ParseRow(row).None?
    ensures ProcessCMSData(before + [row] + after).procedures == ProcessCMSData(before + after).procedures
    decreases |after|
  {
    if |after| == 0 {
      assert before + [row] + after == before + [row];
      assert before + after == before;
      assert (before + [row])[..|before|] == before;
    } else {
      var a', x := after[..|after| - 1], after[|after| - 1];
      InvalidRowIgnored(before, row, a');
      assert before + [row] + after == (before + [row] + a') + [x];
      assert before + after == (before + a') + [x];
      assert ((before + [row] + a') + [x])[..|before + [row] + a'|] == before + [row] + a';
      assert ((before + a') + [x])[..|before + a'|] == before + a';
    }
  }

  /** Some valid row of `c` comes before every valid row of `d`. */
  predicate CodeFirstBefore(rows: seq<Row>, c: string, d: string) {
    exists a | 0 <= a < |rows| :: Mentions(rows[a], c) && forall b | 0 <= b <= a :: !Mentions(rows[b], d)
  }

  /** Of two valid codes, the one seen first has a valid row before every
      valid row of the other. */
  lemma {:induction false} CodeOrderFromRows(rows: seq<Row>, c: string, d: string)
    requires c in ValidCodes(rows) && d in ValidCodes(rows)
    requires Seqs.FirstIndex(ValidCodes(rows), c) < Seqs.FirstIndex(ValidCodes(rows), d)
    ensures CodeFirstBefore(rows, c, d)
  {
    var p, row := rows[..|rows| - 1], rows[|rows| - 1];
    assert rows == p + [row];
    ValidCodesSnoc(p, row);
    var vp := ValidCodes(p);
    if c in vp {
      if ParseRow(row).Some? {
        Seqs.FirstIndexSnoc(vp, ParseRow(row).value.code, c);
        if d in vp {
          Seqs.FirstIndexSnoc(vp, ParseRow(row).value.code, d);
        }
      } else {
        assert ValidCodes(rows) == vp;
      }
      if d in vp {
        CodeOrderFromRows(p, c, d);
      } else {
        ValidCodesMembers(p);
      }
    }
  }

  /** The procedures come in the order in which their codes first appear
      among the valid codes. */
  lemma ProceduresInFirstSeenOrder(rows: seq<Row>)
    ensures var procs := ProcessCMSData(rows).procedures;
      forall i, j | 0 <= i < j < |procs| ::
        && procs[i].code in ValidCodes(rows) && procs[j].code in ValidCodes(rows)
        && Seqs.FirstIndex(ValidCodes(rows), procs[i].code) < Seqs.FirstIndex(ValidCodes(rows), procs[j].code)
  {
    var procs := ProcessCMSData(rows).procedures;
    ProcessRowsSummarises(rows);
    Seqs.DedupFirstSeenOrder(ValidCodes(rows));
    forall i, j | 0 <= i < j < |procs|
      ensures procs[i].code in ValidCodes(rows) && procs[j].code in ValidCodes(rows)
      ensures Seqs.FirstIndex(ValidCodes(rows), procs[i].code) < Seqs.FirstIndex(ValidCodes(rows), procs[j].code)
    {
      assert procs[i].code == Codes(procs)[i] && procs[j].code == Codes(procs)[j];
    }
  }

  /** The procedures come in the order of each code's first valid row: an
      earlier procedure's code has a valid row before any valid row of a later
      one's. */
  lemma ProceduresInFirstRowOrder(rows: seq<Row>)
    ensures var procs := ProcessCMSData(rows).procedures;
      forall i, j | 0 <= i < j < |procs| :: CodeFirstBefore(rows, procs[i].code, procs[j].code)
  {
    var procs := ProcessCMSData(rows).procedures;
    ProceduresInFirstSeenOrder(rows);
    forall i, j | 0 <= i < j < |procs|
      ensures CodeFirstBefore(rows, procs[i].code, procs[j].code)
    {
      CodeOrderFromRows(rows, procs[i].code, procs[j].code);
    }
  }

  /** A procedure's name is the description on the first valid row of its code;
      later rows never change it. */
  lemma NameFromFirstValidRow(rows: seq<Row>, k: nat)
    requires k < |ProcessCMSData(rows).procedures|
    ensures var p := ProcessCMSData(rows).procedures[k];
      exists i | 0 <= i < |rows| ::
        && Mentions(rows[i], p.code)
        && ParseRow(rows[i]).value.name == p.name
        && forall j | 0 <= j < i :: !Mentions(rows[j], p.code)
  {
    var p := ProcessCMSData(rows).procedures[k];
    ProcessRowsSummarises(rows);
    assert Summarises(p, rows);
    FirstNameIsFirstRow(rows, p.code);
    var i :| IsFirstMention(rows, i, p.code) && ParseRow(rows[i]).value.name == p.name;
  }

  /** Last write wins for the national cost: it is the cost on the last valid
      national row of the code, and stays 0 when there is none. */
  lemma NationalCostFromLastRow(rows: seq<Row>, k: nat)
    requires k < |ProcessCMSData(rows).procedures|
    ensures var p := ProcessCMSData(rows).procedures[k];
      && ((forall i | 0 <= i < |rows| :: !Writes(rows[i], p.code, National)) ==> p.nationalAvgCost == 0.0)
      && ((exists i | 0 <= i < |rows| :: Writes(rows[i], p.code, National)) ==>
            exists i ::
              IsLastWriter(rows, i, p.code, National) && ParseRow(rows[i]).value.cost == p.nationalAvgCost)
  {
    var p := ProcessCMSData(rows).procedures[k];
    ProcessRowsSummarises(rows);
    assert Summarises(p, rows);
    LastCostAbsent(rows, p.code, National);
    if LastCost(rows, p.code, National).Some? {
      LastCostIsLastWriter(rows, p.code, National);
    }
  }

  /** A location other than `"National"` has an override exactly when some
      valid row of the code names it; `"National"` never has one. */
  lemma LocationHasOverride(rows: seq<Row>, k: nat, location: string)
    requires k < |ProcessCMSData(rows).procedures|
    ensures var p := ProcessCMSData(rows).procedures[k];
      location in p.locations <==>
        location != National && exists i | 0 <= i < |rows| :: Writes(rows[i], p.code, location)
  {
    var p := ProcessCMSData(rows).procedures[k];
    ProcessRowsSummarises(rows);
    assert Summarises(p, rows);
    LastCostAbsent(rows, p.code, location);
  }

  /** Last write wins per location: an override is the cost on the last valid
      row of the code that names the location. */
  lemma LocationCostFromLastRow(rows: seq<Row>, k: nat, location: string)
    requires k < |ProcessCMSData(rows).procedures|
    requires location in ProcessCMSData(rows).procedures[k].locations
    ensures var p := ProcessCMSData(rows).procedures[k];
      exists i ::
        IsLastWriter(rows, i, p.code, location) && ParseRow(rows[i]).value.cost == p.locations[location]
  {
    var p := ProcessCMSData(rows).procedures[k];
    ProcessRowsSummarises(rows);
    assert Summarises(p, rows);
    LastCostIsLastWriter(rows, p.code, location);
  }

  /** A code without any regional row has no overrides at all. */
  lemma NoRegionalRowsNoOverrides(rows: seq<Row>, k: nat)
    requires k < |ProcessCMSData(rows).procedures|
    requires var p := ProcessCMSData(rows).procedures[k];
      forall i | 0 <= i < |rows| :: Mentions(rows[i], p.code) ==> ParseRow(rows[i]).value.location == National
    ensures ProcessCMSData(rows).procedures[k].locations == map[]
  {
    var p := ProcessCMSData(rows).procedures[k];
    forall l | l in p.locations
      ensures false
    {
      LocationHasOverride(rows, k, l);
    }
  }

  /** Every cost in the catalogue is a parsed payment, hence never negative. */
  lemma CostsNonNegative(rows: seq<Row>, k: nat)
    requires k < |ProcessCMSData(rows).procedures|
    ensures var p := ProcessCMSData(rows).procedures[k];
      p.nationalAvgCost >= 0.0 && forall l | l in p.locations :: p.locations[l] >= 0.0
  {
    var p := ProcessCMSData(rows).procedures[k];
    NationalCostFromLastRow(rows, k);
    forall l | l in p.locations
      ensures p.locations[l] >= 0.0
    {
      LocationCostFromLastRow(rows, k, l);
    }
  }
}
