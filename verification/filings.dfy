/** The list logic of `get_10k_metadata` (identical in both calculators):
    join the submissions arrays by index, keep 10-K rows with a report date,
    then pick by exact year, else nearest earlier year, else latest overall,
    always the latest report date within the chosen group. */
module Filings {
  import opened Values
  import opened Strings
  import opened Seqs

  /** One index of the parallel "recent" arrays. */
  datatype Row = Row(form: string, accession: string, document: string, reportDate: string)

  /** A candidate dictionary: accession_number, primary_document,
      report_date and the parsed year. */
  datatype Candidate = Candidate(accession: string, document: string, reportDate: string, year: int)

  function Min(a: nat, b: nat): nat {
    if a <= b then a else b
  }

  /** `zip(forms, accession_numbers, primary_docs, report_dates)`: stops at the
      shortest array. */
  function Zip(forms: seq<string>, accessions: seq<string>, documents: seq<string>, reportDates: seq<string>)
    : (rows: seq<Row>)
    ensures |rows| <= |forms| && |rows| <= |accessions| && |rows| <= |documents| && |rows| <= |reportDates|
    ensures |rows| == |forms| || |rows| == |accessions| || |rows| == |documents| || |rows| == |reportDates|
    ensures forall i :: 0 <= i < |rows| ==>
              rows[i] == Row(forms[i], accessions[i], documents[i], reportDates[i])
  {
    var n := Min(Min(|forms|, |accessions|), Min(|documents|, |reportDates|));
    seq(n, i requires 0 <= i < n => Row(forms[i], accessions[i], documents[i], reportDates[i]))
  }

  /** `form == "10-K"` exactly (a 10-K/A is skipped) and a non-empty report date. */
  predicate IsAnnualRow(row: Row) {
    row.form == "10-K" && row.reportDate != ""
  }

  /** `int(rdate[:4])`. */
  function ReportYear(date: string): Option<int> {
    PyInt(Head(date, 4))
  }

  /** `row` turned into the candidate `c`, with `parse` reading the year
      off the report date. */
  predicate Converts(row: Row, c: Candidate, parse: string -> Option<int>) {
    && c.accession == row.accession
    && c.document == row.document
    && c.reportDate == row.reportDate
    && parse(row.reportDate) == Some(c.year)
  }

  /** The candidate-building loop: one candidate per annual row, in order;
      raises when an annual row's year does not parse. The year parse is a
      parameter; `get_10k_metadata` uses `ReportYear`. */
  function CollectCandidates(rows: seq<Row>, parse: string -> Option<int>): (r: Result<seq<Candidate>>)
    ensures r.Failure? <==> exists i :: 0 <= i < |rows| && IsAnnualRow(rows[i]) && parse(rows[i].reportDate).None?
    ensures r.Failure? ==> r.error == InvalidYear
    decreases |rows|
  {
    if |rows| == 0 then Success([])
    else
      var row := rows[0];
      var rest := CollectCandidates(rows[1..], parse);
      assert forall i :: 1 <= i < |rows| ==> rows[i] == rows[1..][i - 1];
      if !IsAnnualRow(row) then rest
      else
        match parse(row.reportDate)
        case None => Failure(InvalidYear)
        case Some(y) =>
          match rest
          case Failure(e) => Failure(e)
          case Success(cs) => Success([Candidate(row.accession, row.document, row.reportDate, y)] + cs)
  }

  /** The candidates are the annual rows, one for one and in order. */
  lemma {:induction false} CandidatesMatchAnnualRows(rows: seq<Row>, parse: string -> Option<int>)
    requires CollectCandidates(rows, parse).Success?
    ensures var cands := CollectCandidates(rows, parse).value;
            var annual := Filter(rows, IsAnnualRow);
            && |cands| == |annual|
            && forall i :: 0 <= i < |annual| ==> Converts(annual[i], cands[i], parse)
    decreases |rows|
  {
    if |rows| > 0 {
      var row := rows[0];
      CandidatesMatchAnnualRows(rows[1..], parse);
      var cs := CollectCandidates(rows[1..], parse).value;
      var annualRest := Filter(rows[1..], IsAnnualRow);
      if IsAnnualRow(row) {
        var y := parse(row.reportDate).value;
        var c := Candidate(row.accession, row.document, row.reportDate, y);
        assert CollectCandidates(rows, parse).value == [c] + cs;
        assert Filter(rows, IsAnnualRow) == [row] + annualRest;
        ConvertsCons(row, annualRest, c, cs, parse);
      } else {
        assert CollectCandidates(rows, parse).value == cs;
        assert Filter(rows, IsAnnualRow) == annualRest;
      }
    }
  }

  lemma ConvertsCons(row: Row, rows: seq<Row>, c: Candidate, cs: seq<Candidate>, parse: string -> Option<int>)
    requires Converts(row, c, parse)
    requires |rows| == |cs| && forall i :: 0 <= i < |rows| ==> Converts(rows[i], cs[i], parse)
    ensures forall i :: 0 <= i < |rows| + 1 ==> Converts(([row] + rows)[i], ([c] + cs)[i], parse)
  {
    forall i | 1 <= i < |rows| + 1
      ensures Converts(([row] + rows)[i], ([c] + cs)[i], parse)
    {
      assert ([row] + rows)[i] == rows[i - 1];
      assert ([c] + cs)[i] == cs[i - 1];
    }
  }

  function ReportDates(cs: seq<Candidate>): seq<string> {
    seq(|cs|, j requires 0 <= j < |cs| => cs[j].reportDate)
  }

  /** The index `sort(key=report_date, reverse=True)[0]` selects. */
  function LatestIndex(cs: seq<Candidate>): (i: nat)
    requires |cs| > 0
    ensures i < |cs|
    ensures forall j :: 0 <= j < |cs| ==> LexLe(cs[j].reportDate, cs[i].reportDate)
    ensures forall j :: 0 <= j < i ==> cs[j].reportDate != cs[i].reportDate
  {
    var dates := ReportDates(cs);
    assert |dates| == |cs| && forall j :: 0 <= j < |cs| ==> dates[j] == cs[j].reportDate;
    FirstMaxIndex(dates)
  }

  /** `cs.sort(key=report_date, reverse=True)[0]`: a latest report date,
      the first such in list order. */
  function Latest(cs: seq<Candidate>): (c: Candidate)
    requires |cs| > 0
    ensures c in cs
    ensures forall d :: d in cs ==> LexLe(d.reportDate, c.reportDate)
    ensures exists i :: 0 <= i < |cs| && cs[i] == c && forall j :: 0 <= j < i ==> cs[j].reportDate != c.reportDate
  {
    var i := LatestIndex(cs);
    assert cs[i] == cs[LatestIndex(cs)];
    cs[i]
  }

  /** `c` is what `sort(key=report_date, reverse=True)[0]` returns from the
      group `[d for d in cands if inGroup(d)]`: a member of the group with the
      latest report date, and no earlier member has that date. At most one
      candidate meets this (see `FirstLatestIsUnique`). */
  ghost predicate FirstLatestOf(cands: seq<Candidate>, inGroup: Candidate -> bool, c: Candidate) {
    exists i :: 0 <= i < |cands| && cands[i] == c && inGroup(c)
      && (forall j :: 0 <= j < |cands| && inGroup(cands[j]) ==> LexLe(cands[j].reportDate, c.reportDate))
      && (forall j :: 0 <= j < i && inGroup(cands[j]) ==> cands[j].reportDate != c.reportDate)
  }

  /** The groups `get_10k_metadata` sorts. */
  function AnyYear(): Candidate -> bool {
    (c: Candidate) => true
  }

  function InYear(y: int): Candidate -> bool {
    (c: Candidate) => c.year == y
  }

  function UpToYear(y: int): Candidate -> bool {
    (c: Candidate) => c.year <= y
  }

  /** The latest of a whole list is its first latest candidate. */
  lemma LatestIsFirstLatest(cs: seq<Candidate>)
    requires |cs| > 0
    ensures FirstLatestOf(cs, AnyYear(), Latest(cs))
  {
    var i := LatestIndex(cs);
    assert cs[i] == Latest(cs);
    assert forall j :: 0 <= j < |cs| ==> AnyYear()(cs[j]);
  }

  /** The latest of a filtered group is the group's first latest candidate. */
  lemma LatestOfGroup(cands: seq<Candidate>, inGroup: Candidate -> bool)
    requires |Filter(cands, inGroup)| > 0
    ensures FirstLatestOf(cands, inGroup, Latest(Filter(cands, inGroup)))
  {
    var f := Filter(cands, inGroup);
    var k := LatestIndex(f);
    var i := FilterOrigin(cands, inGroup, k);
    var c := cands[i];
    assert c == Latest(f);
    assert inGroup(c);
    assert forall j :: 0 <= j < |cands| && inGroup(cands[j]) ==> LexLe(cands[j].reportDate, c.reportDate) by {
      FilterMembers(cands, inGroup);
    }
    assert forall j :: 0 <= j < i && inGroup(cands[j]) ==> cands[j].reportDate != c.reportDate by {
      EarlierInGroupIsEarlierKept(f, k, cands, inGroup, i);
    }
  }

  lemma EarlierInGroupIsEarlierKept(f: seq<Candidate>, k: nat, cands: seq<Candidate>, inGroup: Candidate -> bool, i: nat)
    requires k < |f| && i < |cands| && f[k] == cands[i]
    requires forall j :: 0 <= j < k ==> f[j].reportDate != f[k].reportDate
    requires forall j :: 0 <= j < i && inGroup(cands[j]) ==> cands[j] in f[..k]
    ensures forall j :: 0 <= j < i && inGroup(cands[j]) ==> cands[j].reportDate != cands[i].reportDate
  {
    forall j | 0 <= j < i && inGroup(cands[j])
      ensures cands[j].reportDate != cands[i].reportDate
    {
      var m :| 0 <= m < k && f[..k][m] == cands[j];
      assert f[m] == cands[j];
    }
  }

  /** At most one candidate is the first latest of a group. */
  lemma FirstLatestIsUnique(cands: seq<Candidate>, inGroup: Candidate -> bool, c: Candidate, c': Candidate)
    requires FirstLatestOf(cands, inGroup, c) && FirstLatestOf(cands, inGroup, c')
    ensures c == c'
  {
    var i :| 0 <= i < |cands| && cands[i] == c && inGroup(c)
      && (forall j :: 0 <= j < |cands| && inGroup(cands[j]) ==> LexLe(cands[j].reportDate, c.reportDate))
      && (forall j :: 0 <= j < i && inGroup(cands[j]) ==> cands[j].reportDate != c.reportDate);
    var i' :| 0 <= i' < |cands| && cands[i'] == c' && inGroup(c')
      && (forall j :: 0 <= j < |cands| && inGroup(cands[j]) ==> LexLe(cands[j].reportDate, c'.reportDate))
      && (forall j :: 0 <= j < i' && inGroup(cands[j]) ==> cands[j].reportDate != c'.reportDate);
    LexLeAntisymmetric(c.reportDate, c'.reportDate);
    assert c.reportDate == c'.reportDate;
    assert !(i < i') && !(i' < i);
  }

  /** The selection policy once the candidates are built. */
  function SelectFiling(cands: seq<Candidate>, year: Option<int>): (r: Result<Candidate>)
    ensures r.Failure? <==> |cands| == 0
    ensures r.Failure? ==> r.error == NoFilingsFound
    ensures r.Success? ==> r.value in cands
    // no year: the latest report date, the first such in input order
    ensures r.Success? && year.None? ==> FirstLatestOf(cands, AnyYear(), r.value)
    // a candidate of exactly that year exists: the latest of those
    ensures year.Some? && (exists c :: c in cands && c.year == year.value) ==>
              r.Success? && FirstLatestOf(cands, InYear(year.value), r.value)
    // otherwise the latest of the earlier years
    ensures year.Some? && (forall c :: c in cands ==> c.year != year.value)
              && (exists c :: c in cands && c.year <= year.value) ==>
              && r.Success? && r.value.year < year.value
              && FirstLatestOf(cands, UpToYear(year.value), r.value)
    // otherwise the latest overall
    ensures year.Some? && |cands| > 0 && (forall c :: c in cands ==> c.year > year.value) ==>
              r.Success? && FirstLatestOf(cands, AnyYear(), r.value)
    // a later year only when there is nothing else
    ensures year.Some? && r.Success? && r.value.year > year.value ==>
              forall d :: d in cands ==> d.year > year.value
  {
    if |cands| == 0 then Failure(NoFilingsFound)
    else if year.None? then
      LatestIsFirstLatest(cands);
      Success(Latest(cands))
    else
      var y := year.value;
      var exact := Filter(cands, InYear(y));
      var before := Filter(cands, UpToYear(y));
      FilterMembers(cands, InYear(y));
      FilterMembers(cands, UpToYear(y));
      if |exact| > 0 then
        LatestOfGroup(cands, InYear(y));
        Success(Latest(exact))
      else if |before| > 0 then
        LatestOfGroup(cands, UpToYear(y));
        Success(Latest(before))
      else
        LatestIsFirstLatest(cands);
        Success(Latest(cands))
  }

  /** From the joined rows to the chosen candidate, for any year parse. */
  function FilingFromRows(rows: seq<Row>, parse: string -> Option<int>, year: Option<int>): (r: Result<Candidate>)
    ensures r == Failure(NoFilingsFound) <==> forall i :: 0 <= i < |rows| ==> !IsAnnualRow(rows[i])
    ensures r == Failure(InvalidYear) <==>
              exists i :: 0 <= i < |rows| && IsAnnualRow(rows[i]) && parse(rows[i].reportDate).None?
    ensures r.Success? ==> exists i :: 0 <= i < |rows| && IsAnnualRow(rows[i]) && Converts(rows[i], r.value, parse)
    ensures r.Success? ==> r == SelectFiling(CollectCandidates(rows, parse).value, year)
    ensures r.Failure? ==> r.error in {NoFilingsFound, InvalidYear}
    ensures r.Success? <==> (exists i :: 0 <= i < |rows| && IsAnnualRow(rows[i]))
                            && forall i :: 0 <= i < |rows| && IsAnnualRow(rows[i]) ==> parse(rows[i].reportDate).Some?
  {
    var cands :- CollectCandidates(rows, parse);
    CandidatesMatchAnnualRows(rows, parse);
    CandidatesComeFromAnnualRows(rows, parse, cands);
    FilterMembers(rows, IsAnnualRow);
    SelectFiling(cands, year)
  }

  /** `get_10k_metadata` after the fetch: the submissions arrays in, the
      chosen candidate (or the error raised) out. */
  function GetTenKMetadata(forms: seq<string>, accessions: seq<string>, documents: seq<string>,
                           reportDates: seq<string>, year: Option<int>): (r: Result<Candidate>)
    ensures var rows := Zip(forms, accessions, documents, reportDates);
      && (r == Failure(NoFilingsFound) <==> forall i :: 0 <= i < |rows| ==> !IsAnnualRow(rows[i]))
      && (r == Failure(InvalidYear) <==>
            exists i :: 0 <= i < |rows| && IsAnnualRow(rows[i]) && ReportYear(rows[i].reportDate).None?)
      && (r.Success? ==> exists i :: 0 <= i < |rows| && IsAnnualRow(rows[i]) && Converts(rows[i], r.value, ReportYear))
      && (r.Success? ==> r == SelectFiling(CollectCandidates(rows, ReportYear).value, year))
      && (r.Failure? ==> r.error in {NoFilingsFound, InvalidYear})
      && (r.Success? <==> (exists i :: 0 <= i < |rows| && IsAnnualRow(rows[i]))
                          && forall i :: 0 <= i < |rows| && IsAnnualRow(rows[i]) ==> ReportYear(rows[i].reportDate).Some?)
  {
    FilingFromRows(Zip(forms, accessions, documents, reportDates), ReportYear, year)
  }

  /** The annual row a candidate was built from. */
  lemma CandidateOrigin(rows: seq<Row>, parse: string -> Option<int>, cands: seq<Candidate>, c: Candidate)
    returns (i: nat)
    requires CollectCandidates(rows, parse) == Success(cands)
    requires c in cands
    ensures i < |rows| && IsAnnualRow(rows[i]) && Converts(rows[i], c, parse)
  {
    var k :| 0 <= k < |cands| && cands[k] == c;
    var annual := Filter(rows, IsAnnualRow);
    CandidatesMatchAnnualRows(rows, parse);
    var row := annual[k];
    assert Converts(row, c, parse);
    assert row in rows && IsAnnualRow(row) by {
      assert row in annual;
      FilterMembers(rows, IsAnnualRow);
    }
    i :| 0 <= i < |rows| && rows[i] == row;
  }

  lemma CandidatesComeFromAnnualRows(rows: seq<Row>, parse: string -> Option<int>, cands: seq<Candidate>)
    requires CollectCandidates(rows, parse) == Success(cands)
    ensures forall c :: c in cands ==> exists i :: 0 <= i < |rows| && IsAnnualRow(rows[i]) && Converts(rows[i], c, parse)
  {
    forall c | c in cands
      ensures exists i :: 0 <= i < |rows| && IsAnnualRow(rows[i]) && Converts(rows[i], c, parse)
    {
      var i := CandidateOrigin(rows, parse, cands, c);
    }
  }

  /** A target year matched by exactly one candidate selects that candidate,
      wherever it sits in the input. */
  lemma UniqueYearMatchIsSelected(cands: seq<Candidate>, c: Candidate)
    requires c in cands
    requires forall d :: d in cands && d.year == c.year ==> d == c
    ensures SelectFiling(cands, Some(c.year)) == Success(c)
  {
  }

  /** With no candidate of the target year, the first latest of the earlier
      years is the one selected. */
  lemma EarlierYearSelected(cands: seq<Candidate>, y: int, c: Candidate)
    requires forall d :: d in cands ==> d.year != y
    requires FirstLatestOf(cands, UpToYear(y), c)
    ensures SelectFiling(cands, Some(y)) == Success(c)
  {
    var r := SelectFiling(cands, Some(y));
    assert c in cands && c.year <= y;
    FirstLatestIsUnique(cands, UpToYear(y), r.value, c);
  }

  /** Candidates for 2020, 2021 and 2023 with target year 2022: the 2021
      filing is chosen, not the 2023 one. */
  lemma NearestEarlierYearExample(a: Candidate, b: Candidate, d: Candidate)
    requires a.year == 2020 && b.year == 2021 && d.year == 2023
    requires !LexLe(b.reportDate, a.reportDate)
    ensures SelectFiling([a, b, d], Some(2022)) == Success(b)
  {
    var cands := [a, b, d];
    assert forall c :: c in cands ==> c.year != 2022;
    assert FirstLatestOf(cands, UpToYear(2022), b) by {
      LexLeTotal(a.reportDate, b.reportDate);
      LexLeReflexive(b.reportDate);
      assert forall j :: 0 <= j < |cands| && UpToYear(2022)(cands[j]) ==> LexLe(cands[j].reportDate, b.reportDate);
      assert a.reportDate != b.reportDate;
      assert cands[1] == b;
    }
    EarlierYearSelected(cands, 2022, b);
  }

  /** The same with the December report dates of those years. */
  lemma NearestEarlierYearWithDates()
    ensures var a := Candidate("a", "a.htm", "2020-12-31", 2020);
            var b := Candidate("b", "b.htm", "2021-12-31", 2021);
            var d := Candidate("d", "d.htm", "2023-12-31", 2023);
            SelectFiling([a, b, d], Some(2022)) == Success(b)
  {
    var later, earlier := "2021-12-31", "2020-12-31";
    assert !LexLe(later, earlier) by {
      assert later[3] == '1' && earlier[3] == '0';
      assert LexLe(later, earlier) == LexLe(later[1..], earlier[1..]);
      assert LexLe(later[1..], earlier[1..]) == LexLe(later[2..], earlier[2..]) by {
        assert later[1..][1..] == later[2..] && earlier[1..][1..] == earlier[2..];
      }
      assert LexLe(later[2..], earlier[2..]) == LexLe(later[3..], earlier[3..]) by {
        assert later[2..][1..] == later[3..] && earlier[2..][1..] == earlier[3..];
      }
    }
    NearestEarlierYearExample(Candidate("a", "a.htm", earlier, 2020), Candidate("b", "b.htm", later, 2021),
                              Candidate("d", "d.htm", "2023-12-31", 2023));
  }
}