/** The estimate logic of the cost-lookup page, with the page's state
    (`selectedProcedures`, `isUsingLocation`, `location`, `searchTerm`) passed
    in explicitly: the search filter, set-like add and remove on the ordered
    selection, per-procedure cost resolution with fallback to the national
    cost, and the running total. */
module Estimate {
  import Seqs
  import Text
  import opened DataParser

  // ---------------------------------------------------------------------
  // Search
  // ---------------------------------------------------------------------

  /** A procedure matches an already lower-cased term when its lower-cased name
      contains the term or its code, as written, contains the term. */
  predicate Matches(p: Procedure, term: string) {
    Text.Includes(Text.Lower(p.name), term) || Text.Includes(p.code, term)
  }

  /** The filter that keeps the procedures matching a lower-cased term. */
  function Matching(term: string): Procedure -> bool {
    (p: Procedure) => Matches(p, term)
  }

  /** The search results for `searchTerm`: none for the empty term, otherwise
      the matching procedures in catalogue order. */
  function Search(procedures: seq<Procedure>, searchTerm: string): (results: seq<Procedure>)
    ensures searchTerm == "" ==> results == []
    ensures Seqs.IsSubsequence(results, procedures)
    ensures forall p :: p in results <==>
      searchTerm != "" && p in procedures && Matches(p, Text.Lower(searchTerm))
  {
    if searchTerm == "" then []
    else
      Seqs.Filter(procedures, Matching(Text.Lower(searchTerm)))
  }

  /** Search keeps every matching procedure as often as the catalogue lists it. */
  lemma SearchKeepsEveryMatch(procedures: seq<Procedure>, searchTerm: string)
    requires searchTerm != ""
    ensures forall p ::
      multiset(Search(procedures, searchTerm))[p] ==
        if Matches(p, Text.Lower(searchTerm)) then multiset(procedures)[p] else 0
  {
    Seqs.FilterCounts(procedures, Matching(Text.Lower(searchTerm)));
  }

  /** Terms differing only in the case of ASCII letters give the same results. */
  lemma SearchIgnoresTermCase(procedures: seq<Procedure>, t1: string, t2: string)
    requires Text.Lower(t1) == Text.Lower(t2)
    ensures Search(procedures, t1) == Search(procedures, t2)
  {
    assert |t1| == |Text.Lower(t1)| == |Text.Lower(t2)| == |t2|;
  }

  /** Typing the term already lower-cased gives the same results. */
  lemma SearchLoweredTerm(procedures: seq<Procedure>, searchTerm: string)
    ensures Search(procedures, Text.Lower(searchTerm)) == Search(procedures, searchTerm)
  {
    Text.LowerIdempotent(searchTerm);
    SearchIgnoresTermCase(procedures, Text.Lower(searchTerm), searchTerm);
  }

  // ---------------------------------------------------------------------
  // The selection
  // ---------------------------------------------------------------------

  /** `selectedProcedures.some(p => p.id === id)` */
  predicate HasId(selection: seq<Procedure>, id: string) {
    exists i | 0 <= i < |selection| :: selection[i].id == id
  }

  predicate UniqueIds(selection: seq<Procedure>) {
    forall i, j | 0 <= i < j < |selection| :: selection[i].id != selection[j].id
  }

  /** Adds a procedure unless one with the same id is already selected. */
  function AddProcedure(selection: seq<Procedure>, procedure: Procedure): (r: seq<Procedure>)
    ensures |r| == |selection| || |r| == |selection| + 1
    ensures |r| == |selection| + 1 <==> !HasId(selection, procedure.id)
    ensures r[..|selection|] == selection
    ensures |r| > |selection| ==> r[|selection|] == procedure
    ensures HasId(r, procedure.id)
    ensures UniqueIds(selection) ==> UniqueIds(r)
  {
    if HasId(selection, procedure.id) then selection
    else
      var r := selection + [procedure];
      assert r[|selection|].id == procedure.id;
      assert r[..|selection|] == selection;
      r
  }

  /** The filter that keeps the entries whose id is not `id`. */
  function OtherThan(id: string): Procedure -> bool {
    (p: Procedure) => p.id != id
  }

  /** Drops every selected entry with this id and keeps the rest in order. */
  function RemoveProcedure(selection: seq<Procedure>, id: string): (r: seq<Procedure>)
    ensures !HasId(r, id)
    ensures Seqs.IsSubsequence(r, selection)
    ensures forall p :: p in r <==> p in selection && p.id != id
    ensures UniqueIds(selection) ==> UniqueIds(r)
  {
    var r := Seqs.Filter(selection, OtherThan(id));
    assert forall i | 0 <= i < |r| :: r[i] in r;
    if UniqueIds(selection) then
      Seqs.SubsequenceKeepsKeysDistinct(r, selection, (p: Procedure) => p.id);
      r
    else r
  }

  /** Removal keeps each other entry exactly as often as it was selected. */
  lemma RemoveKeepsOthers(selection: seq<Procedure>, id: string)
    ensures forall p: Procedure | p.id != id ::
      multiset(RemoveProcedure(selection, id))[p] == multiset(selection)[p]
  {
    Seqs.FilterCounts(selection, OtherThan(id));
  }

  /** Adding a procedure whose id is already selected changes nothing, so
      adding twice is adding once. */
  lemma AddIdempotent(selection: seq<Procedure>, procedure: Procedure, again: Procedure)
    requires again.id == procedure.id
    ensures AddProcedure(AddProcedure(selection, procedure), again) == AddProcedure(selection, procedure)
  {
  }

  /** Removing a procedure just added to a selection without its id restores
      the selection. */
  lemma RemoveUndoesAdd(selection: seq<Procedure>, procedure: Procedure)
    requires !HasId(selection, procedure.id)
    ensures RemoveProcedure(AddProcedure(selection, procedure), procedure.id) == selection
  {
    Seqs.FilterSnoc(selection, procedure, OtherThan(procedure.id));
    Seqs.FilterKeepsAll(selection, OtherThan(procedure.id));
  }

  // ---------------------------------------------------------------------
  // Costs
  // ---------------------------------------------------------------------

  /** The cost shown for one procedure: the override for the chosen location
      when location mode is on, the location is not `"National"` and the
      override is truthy (present and non-zero); the national cost otherwise. */
  function GetProcedureCost(procedure: Procedure, isUsingLocation: bool, location: string): (cost: real)
    ensures cost == procedure.nationalAvgCost
      || (location in procedure.locations && cost == procedure.locations[location] != 0.0)
    ensures !isUsingLocation || location == National || location !in procedure.locations
      ==> cost == procedure.nationalAvgCost
    ensures location in procedure.locations && procedure.locations[location] == 0.0
      ==> cost == procedure.nationalAvgCost
    ensures (isUsingLocation && location != National && location in procedure.locations
             && procedure.locations[location] != 0.0)
      ==> cost == procedure.locations[location]
  {
    if isUsingLocation && location != National && location in procedure.locations
       && procedure.locations[location] != 0.0
    then procedure.locations[location]
    else procedure.nationalAvgCost
  }

  /** The sum of the displayed costs over the selection, in selection order. */
  function SumCosts(selection: seq<Procedure>, isUsingLocation: bool, location: string): real {
    if |selection| == 0 then 0.0
    else
      SumCosts(selection[..|selection| - 1], isUsingLocation, location)
      + GetProcedureCost(selection[|selection| - 1], isUsingLocation, location)
  }

  /** The sum of the national costs over the selection. */
  function NationalTotal(selection: seq<Procedure>): real {
    if |selection| == 0 then 0.0
    else NationalTotal(selection[..|selection| - 1]) + selection[|selection| - 1].nationalAvgCost
  }

  /** `calculateTotalCost`: the `reduce` over the selection, with the cost
      condition written out again as the page does.  It always agrees with the
      per-procedure costs the page displays. */
  method CalculateTotalCost(selection: seq<Procedure>, isUsingLocation: bool, location: string)
    returns (total: real)
    ensures total == SumCosts(selection, isUsingLocation, location)
    ensures |selection| == 0 ==> total == 0.0
  {
    total := 0.0;
    var i := 0;
    while i < |selection|
      invariant 0 <= i <= |selection|
      invariant total == SumCosts(selection[..i], isUsingLocation, location)
    {
      var procedure := selection[i];
      if isUsingLocation && location != National && location in procedure.locations
         && procedure.locations[location] != 0.0 {
        total := total + procedure.locations[location];
      } else {
        total := total + procedure.nationalAvgCost;
      }
      assert selection[..i + 1][..i] == selection[..i];
      i := i + 1;
    }
    assert selection[..|selection|] == selection;
  }

  /** With location mode off, or with `"National"` chosen, the total is the sum
      of the national costs whatever the location. */
  lemma {:induction false} TotalWithoutLocationIsNational(selection: seq<Procedure>, location: string)
    ensures SumCosts(selection, false, location) == NationalTotal(selection)
    ensures SumCosts(selection, true, National) == NationalTotal(selection)
  {
    if |selection| > 0 {
      TotalWithoutLocationIsNational(selection[..|selection| - 1], location);
    }
  }

  lemma {:induction false} SumCostsAppend(a: seq<Procedure>, b: seq<Procedure>, isUsingLocation: bool, location: string)
    ensures SumCosts(a + b, isUsingLocation, location) ==
      SumCosts(a, isUsingLocation, location) + SumCosts(b, isUsingLocation, location)
    decreases |b|
  {
    if |b| == 0 {
      assert a + b == a;
    } else {
      var b' := b[..|b| - 1];
      assert (a + b)[..|a + b| - 1] == a + b';
      SumCostsAppend(a, b', isUsingLocation, location);
    }
  }

  /** Adding a procedure raises the total by its displayed cost, or not at all
      when its id is already selected. */
  lemma TotalAfterAdd(selection: seq<Procedure>, procedure: Procedure, isUsingLocation: bool, location: string)
    ensures SumCosts(AddProcedure(selection, procedure), isUsingLocation, location) ==
      SumCosts(selection, isUsingLocation, location)
      + (if HasId(selection, procedure.id) then 0.0 else GetProcedureCost(procedure, isUsingLocation, location))
  {
    if !HasId(selection, procedure.id) {
      assert (selection + [procedure])[..|selection|] == selection;
    }
  }

  /** The filter that keeps the entries whose id is `id`. */
  function WithId(id: string): Procedure -> bool {
    (p: Procedure) => p.id == id
  }

  /** Removing an id lowers the total by the displayed costs of the entries
      carrying it. */
  lemma {:induction false} TotalAfterRemove(selection: seq<Procedure>, id: string, isUsingLocation: bool, location: string)
    ensures SumCosts(RemoveProcedure(selection, id), isUsingLocation, location) ==
      SumCosts(selection, isUsingLocation, location)
      - SumCosts(Seqs.Filter(selection, WithId(id)), isUsingLocation, location)
  {
    if |selection| > 0 {
      var p, x := selection[..|selection| - 1], selection[|selection| - 1];
      assert selection == p + [x];
      TotalAfterRemove(p, id, isUsingLocation, location);
      Seqs.FilterSnoc(p, x, OtherThan(id));
      Seqs.FilterSnoc(p, x, WithId(id));
      SumCostsAppend(RemoveProcedure(p, id), [x], isUsingLocation, location);
      SumCostsAppend(Seqs.Filter(p, WithId(id)), [x], isUsingLocation, location);
      assert [x][..0] == [];
    }
  }

  /** A selection whose costs are never negative, as every catalogue built from
      the CMS rows is, has a total that is never negative. */
  lemma {:induction false} TotalNonNegative(selection: seq<Procedure>, isUsingLocation: bool, location: string)
    requires forall i | 0 <= i < |selection| :: selection[i].nationalAvgCost >= 0.0
    requires forall i, l | 0 <= i < |selection| && l in selection[i].locations :: selection[i].locations[l] >= 0.0
    ensures SumCosts(selection, isUsingLocation, location) >= 0.0
  {
    if |selection| > 0 {
      TotalNonNegative(selection[..|selection| - 1], isUsingLocation, location);
    }
  }

  // ---------------------------------------------------------------------
  // Worked examples
  // ---------------------------------------------------------------------

  /** Procedures with national costs 100 and 250 total 350 in national mode,
      320 with their Texas overrides 90 and 230, and a third procedure without
      a Texas override adds its national cost. */
  lemma TotalExample()
    ensures var a := Procedure("1", "1", "A", 100.0, map["Texas" := 90.0]);
      var b := Procedure("2", "2", "B", 250.0, map["Texas" := 230.0]);
      var c := Procedure("3", "3", "C", 40.0, map["Ohio" := 35.0]);
      && SumCosts([a, b], false, "Texas") == 350.0
      && SumCosts([a, b], true, "Texas") == 320.0
      && SumCosts([a, b, c], true, "Texas") == 360.0
  {
    var a := Procedure("1", "1", "A", 100.0, map["Texas" := 90.0]);
    var b := Procedure("2", "2", "B", 250.0, map["Texas" := 230.0]);
    var c := Procedure("3", "3", "C", 40.0, map["Ohio" := 35.0]);
    assert [a, b][..1] == [a] && [a][..0] == [];
    assert [a, b, c][..2] == [a, b];
    assert GetProcedureCost(a, true, "Texas") == 90.0;
    assert GetProcedureCost(b, true, "Texas") == 230.0;
    assert GetProcedureCost(c, true, "Texas") == 40.0;
    assert SumCosts([a], true, "Texas") == 90.0;
    assert SumCosts([a], false, "Texas") == 100.0;
  }

  /** A zero override counts as missing: the national cost is used. */
  lemma ZeroOverrideExample()
    ensures GetProcedureCost(Procedure("1", "1", "A", 100.0, map["Texas" := 0.0]), true, "Texas") == 100.0
  {
  }

  lemma KneeMatches()
    ensures Matching("knee")(Procedure("302", "302", "Knee Replacement", 19876.0, map[]))
  {
    var name := Text.Lower("Knee Replacement");
    assert name[0..4] == "knee";
    assert Text.OccursAt(name, "knee", 0);
    Text.IncludesIff(name, "knee");
  }

  lemma HipDoesNotMatch()
    ensures !Matching("knee")(Procedure("301", "301", "Hip Replacement", 23456.0, map[]))
  {
    NotIncludedWithoutFirstChar(Text.Lower("Hip Replacement"), "knee");
    NotIncludedWithoutFirstChar("301", "knee");
  }

  /** Searching a two-entry catalogue whose second entry alone matches. */
  lemma SearchSecondOfTwo(first: Procedure, second: Procedure, searchTerm: string)
    requires searchTerm != ""
    requires !Matching(Text.Lower(searchTerm))(first) && Matching(Text.Lower(searchTerm))(second)
    ensures Search([first, second], searchTerm) == [second]
  {
    var keep := Matching(Text.Lower(searchTerm));
    Seqs.FilterSnoc([], first, keep);
    assert [] + [first] == [first];
    Seqs.FilterSnoc([first], second, keep);
    assert [first] + [second] == [first, second];
  }

  lemma LowerKneeTerm()
    ensures Text.Lower("kNeE") == "knee"
  {
  }

  /** A mixed-case term finds the knee replacement and nothing else. */
  lemma SearchKneeExample()
    ensures var hip := Procedure("301", "301", "Hip Replacement", 23456.0, map[]);
      var knee := Procedure("302", "302", "Knee Replacement", 19876.0, map[]);
      Search([hip, knee], "kNeE") == [knee]
  {
    LowerKneeTerm();
    KneeMatches();
    HipDoesNotMatch();
    SearchSecondOfTwo(
      Procedure("301", "301", "Hip Replacement", 23456.0, map[]),
      Procedure("302", "302", "Knee Replacement", 19876.0, map[]),
      "kNeE");
  }

  /** The code is compared as written: an upper-case code is not found by
      typing it, because the term is lower-cased and the code is not. */
  /** Typing a code finds nothing when the code starts with a capital whose
      lower-case form occurs neither in the lower-cased name nor in the code:
      only the term is lower-cased, never the code it is compared with. */
  lemma CodeNotFoundByUpperCase(procedures: seq<Procedure>, p: Procedure)
    requires |p.code| > 0 && Text.IsUpper(p.code[0])
    requires Text.LowerChar(p.code[0]) !in Text.Lower(p.name)
    requires Text.LowerChar(p.code[0]) !in p.code
    ensures p !in Search(procedures, p.code)
  {
    var term := Text.Lower(p.code);
    assert term[0] == Text.LowerChar(p.code[0]);
    NotIncludedWithoutFirstChar(Text.Lower(p.name), term);
    NotIncludedWithoutFirstChar(p.code, term);
  }

  lemma UpperCaseCodeNotFound()
    ensures Search([Procedure("K1", "K1", "x", 0.0, map[])], "K1") == []
  {
    var p := Procedure("K1", "K1", "x", 0.0, map[]);
    assert Text.Lower("K1") == "k1";
    NotIncludedWithoutFirstChar(Text.Lower(p.name), "k1");
    NotIncludedWithoutFirstChar(p.code, "k1");
    Seqs.FilterSnoc([], p, Matching("k1"));
    assert [] + [p] == [p];
  }

  lemma NotIncludedWithoutFirstChar(s: string, t: string)
    requires |t| > 0 && t[0] !in s
    ensures !Text.Includes(s, t)
  {
    Text.IncludesIff(s, t);
  }
}
