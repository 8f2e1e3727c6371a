/** The ticker directory: `company_tickers.json` turned into an upper-case
    ticker -> CIK map (`get_ticker_cik_map`), and the lookup of one ticker
    (`get_cik_for_ticker`). */
module Tickers {
  import opened Values
  import opened Strings

  /** The "cik_str" field: the SEC publishes a JSON number, but `int(...)`
      also accepts text. */
  datatype CikField = CikNumber(n: int) | CikText(text: string)

  /** One value of the directory object: {"cik_str": ..., "ticker": ...}. */
  datatype TickerEntry = TickerEntry(ticker: string, cik: CikField)

  /** `int(entry["cik_str"])`. */
  function CikOf(e: TickerEntry): (r: Result<int>)
    ensures r.Failure? ==> r.error == InvalidCik && e.cik.CikText?
    ensures e.cik.CikNumber? ==> r == Success(e.cik.n)
    ensures e.cik.CikText? ==>
              && (r.Failure? <==> PyInt(e.cik.text).None?)
              && (r.Success? ==> PyInt(e.cik.text) == Some(r.value))
  {
    match e.cik
    case CikNumber(n) => Success(n)
    case CikText(t) =>
      match PyInt(t)
      case Some(n) => Success(n)
      case None => Failure(InvalidCik)
  }

  /** A CIK published as text in decimal is read back as that number. */
  lemma CikOfDecimalText(ticker: string, n: nat)
    ensures CikOf(TickerEntry(ticker, CikText(DecimalString(n)))) == Success(n)
  {
    PyIntOfDecimalString(n);
  }

  function Key(e: TickerEntry): string {
    Upper(e.ticker)
  }

  /** The loop over the directory's entries, in order: each entry stores its
      CIK under its upper-cased ticker, so a later entry with the same key
      overwrites an earlier one; the first CIK `int` rejects aborts. */
  function BuildTickerMap(entries: seq<TickerEntry>): (r: Result<map<string, int>>)
    ensures r.Failure? <==> exists i :: 0 <= i < |entries| && CikOf(entries[i]).Failure?
    ensures r.Failure? ==> r.error == InvalidCik
    decreases |entries|
  {
    if |entries| == 0 then Success(map[])
    else
      var init := entries[..|entries| - 1];
      var last := entries[|entries| - 1];
      assert forall i :: 0 <= i < |init| ==> init[i] == entries[i];
      var m :- BuildTickerMap(init);
      var cik :- CikOf(last);
      Success(m[Key(last) := cik])
  }

  /** The map's keys are exactly the upper-cased tickers of the entries. */
  lemma {:induction false} MapKeysAreTickers(entries: seq<TickerEntry>, k: string)
    requires BuildTickerMap(entries).Success?
    ensures k in BuildTickerMap(entries).value <==> exists i :: 0 <= i < |entries| && Key(entries[i]) == k
    decreases |entries|
  {
    if |entries| > 0 {
      var init := entries[..|entries| - 1];
      var last := entries[|entries| - 1];
      assert forall i :: 0 <= i < |init| ==> init[i] == entries[i];
      MapKeysAreTickers(init, k);
      var m := BuildTickerMap(init).value;
      assert BuildTickerMap(entries).value == m[Key(last) := CikOf(last).value];
      if exists i :: 0 <= i < |entries| && Key(entries[i]) == k {
        var i :| 0 <= i < |entries| && Key(entries[i]) == k;
        if i < |init| {
          assert Key(init[i]) == k;
        }
      }
    }
  }

  /** The value stored under a key is the CIK of the last entry with that key. */
  lemma {:induction false} LastEntryWins(entries: seq<TickerEntry>, i: nat)
    requires BuildTickerMap(entries).Success?
    requires i < |entries|
    requires forall j :: i < j < |entries| ==> Key(entries[j]) != Key(entries[i])
    ensures Key(entries[i]) in BuildTickerMap(entries).value
    ensures BuildTickerMap(entries).value[Key(entries[i])] == CikOf(entries[i]).value
    decreases |entries|
  {
    var init := entries[..|entries| - 1];
    assert forall j :: 0 <= j < |init| ==> init[j] == entries[j];
    if i < |entries| - 1 {
      LastEntryWins(init, i);
    }
  }

  /** `get_cik_for_ticker`: the ticker is upper-cased before the lookup. */
  function CikForTicker(entries: seq<TickerEntry>, ticker: string): (r: Result<int>)
    ensures r.Success? ==>
              exists i :: 0 <= i < |entries| && Key(entries[i]) == Upper(ticker) && CikOf(entries[i]) == r
                && forall j :: i < j < |entries| ==> Key(entries[j]) != Upper(ticker)
    ensures r == Failure(UnknownTicker) <==>
              BuildTickerMap(entries).Success? && forall i :: 0 <= i < |entries| ==> Key(entries[i]) != Upper(ticker)
    ensures r == Failure(InvalidCik) <==> exists i :: 0 <= i < |entries| && CikOf(entries[i]).Failure?
    ensures r.Failure? ==> r.error in {UnknownTicker, InvalidCik}
    ensures r.Success? <==> (forall i :: 0 <= i < |entries| ==> CikOf(entries[i]).Success?)
                            && exists i :: 0 <= i < |entries| && Key(entries[i]) == Upper(ticker)
  {
    var m :- BuildTickerMap(entries);
    var t := Upper(ticker);
    MapKeysAreTickers(entries, t);
    if t !in m then Failure(UnknownTicker)
    else
      var i := LastIndexOfKey(entries, t);
      LastEntryWins(entries, i);
      Success(m[t])
  }

  /** The last position whose entry has key `k`. */
  function LastIndexOfKey(entries: seq<TickerEntry>, k: string): (i: nat)
    requires exists j :: 0 <= j < |entries| && Key(entries[j]) == k
    ensures i < |entries| && Key(entries[i]) == k
    ensures forall j :: i < j < |entries| ==> Key(entries[j]) != k
    decreases |entries|
  {
    var n := |entries| - 1;
    if Key(entries[n]) == k then n
    else
      assert forall j :: 0 <= j < n ==> entries[..n][j] == entries[j];
      LastIndexOfKey(entries[..n], k)
  }

  /** The lookup ignores case: "aapl", "Aapl" and "AAPL" find the same CIK. */
  lemma LookupIgnoresCase(entries: seq<TickerEntry>, ticker: string)
    ensures CikForTicker(entries, ticker) == CikForTicker(entries, Upper(ticker))
  {
    UpperIdempotent(ticker);
  }

  /** Two entries for one ticker: the later CIK is the one looked up. */
  lemma DuplicateTickerExample()
    ensures CikForTicker([TickerEntry("abc", CikNumber(1)), TickerEntry("ABC", CikNumber(2))], "Abc")
         == Success(2)
  {
    var entries := [TickerEntry("abc", CikNumber(1)), TickerEntry("ABC", CikNumber(2))];
    assert Key(entries[0]) == "ABC";
    assert Key(entries[1]) == "ABC";
    assert Upper("Abc") == "ABC";
    LastEntryWins(entries, 1);
  }
}
