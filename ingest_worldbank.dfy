/**
 * The stand-alone ingest script (src/ingest_worldbank.py): `fetch_indicator` fetches every
 * indicator for one ISO3 code, builds a table per indicator and outer-merges them in
 * order; the run concatenates the countries' tables and sorts by year.
 *
 * Unlike the container scraper, every failure here propagates: a failed request, a
 * row list that is not a list of rows, and a merge with an empty table all abort.
 */
module IngestWorldBank {
  import opened Wrappers
  import opened Numerals
  import opened WbTables

  const Countries: seq<string> := ["USA", "MEX", "GBR"]
  const Start: int := 2012
  const End: int := 2023

  /** The decoded JSON body: a list of items, or any other JSON value. */
  datatype Payload = List(items: seq<Item>) | NotList

  /** `requests.get`, `raise_for_status` and `r.json()` for (country, indicator code, start, end); `None` when one of them raised. */
  type Get = (string, string, int, int) -> Option<Payload>

  /**
   * The rows at index 1 of a list with more than one element, otherwise none. Iterating a
   * metadata object or `null` there raises.
   */
  function RowsOf(payload: Payload): (r: Result<seq<WbRow>, WbError>)
    ensures payload.NotList? || |payload.items| <= 1 ==> r == Success([])
    ensures payload.List? && |payload.items| > 1 ==>
      (r.Success? <==> payload.items[1].Rows?) && (r.Success? ==> r.value == payload.items[1].rows)
    ensures r.Failure? ==> r.error == BadRows
  {
    if payload.List? && |payload.items| > 1 then
      match payload.items[1]
      case Rows(rows) => Success(rows)
      case _ => Failure(BadRows)
    else Success([])
  }

  /** The table of one indicator, lines 20-35; `IndicatorTableRows` states its contents. */
  function IndicatorTable(country: string, ind: (string, string), start: int, end: int, get: Get): (r: Result<Table, WbError>)
    ensures get(country, ind.0, start, end).None? ==> r == Failure(RequestFailed)
  {
    var payload := get(country, ind.0, start, end);
    if payload.None? then Failure(RequestFailed)
    else
      var rows :- RowsOf(payload.value);
      var kept :- KeepRows(rows, ind.1);
      Success(TableOf(kept, ind.1))
  }

  /**
   * An indicator's table is the rows with a value, each with `int(date)` as its year and
   * the value under the indicator's column; a row entry that is not a list, or an
   * unreadable date, aborts.
   */
  lemma IndicatorTableRows(country: string, ind: (string, string), start: int, end: int, get: Get)
    requires get(country, ind.0, start, end).Some?
    ensures var r := IndicatorTable(country, ind, start, end, get);
      var rows := RowsOf(get(country, ind.0, start, end).value);
      && (rows.Failure? ==> r == Failure(BadRows))
      && (rows.Success? ==>
            var kept := KeepRows(rows.value, ind.1);
            && (r.Success? <==> kept.Success?)
            && (r.Failure? ==> r.error == kept.error)
            && (r.Success? ==> r.value == TableOf(kept.value, ind.1)))
  {
  }

  /** A fetched table is well formed, and has the indicator's column exactly when it has rows. */
  lemma IndicatorTableShape(country: string, ind: (string, string), start: int, end: int, get: Get)
    requires IndicatorTable(country, ind, start, end, get).Success?
    ensures var t := IndicatorTable(country, ind, start, end, get).value;
      WellFormed(t) && (IsEmpty(t) ==> t.columns == []) && (!IsEmpty(t) ==> t.columns == [ind.1])
  {
    var rows := RowsOf(get(country, ind.0, start, end).value).value;
    KeepRowsWellFormed(rows, ind.1);
  }

  /** The loop of `fetch_indicator` from indicator `i` on, with `merged` so far. */
  function MergeFrom(country: string, inds: seq<(string, string)>, i: nat, merged: Option<Table>,
                     start: int, end: int, get: Get): (r: Result<Option<Table>, WbError>)
    requires i <= |inds|
    ensures r.Success? && (merged.Some? || i < |inds|) ==> r.value.Some?
    decreases |inds| - i
  {
    if i == |inds| then Success(merged)
    else
      var df :- IndicatorTable(country, inds[i], start, end, get);
      if merged.None? then MergeFrom(country, inds, i + 1, Some(df), start, end, get)
      else if IsEmpty(merged.value) || IsEmpty(df) then Failure(MissingKeyColumns)
      else MergeFrom(country, inds, i + 1, Some(OuterJoin(merged.value, df)), start, end, get)
  }

  /** `fetch_indicator`, without the formatted string columns. */
  function IndicatorData(country: string, start: int, end: int, get: Get): Result<Table, WbError> {
    var merged :- MergeFrom(country, Indicators, 0, None, start, end, get);
    var m := merged.value;
    if "gdp_usd" !in m.columns then Failure(MissingColumn("gdp_usd"))
    else if "population" !in m.columns then Failure(MissingColumn("population"))
    else Success(SortTable(m))
  }

  method FetchIndicator(country: string, start: int, end: int, get: Get) returns (r: Result<Table, WbError>)
    ensures r == IndicatorData(country, start, end, get)
  {
    var merged: Option<Table> := None;
    for i := 0 to |Indicators|
      invariant MergeFrom(country, Indicators, 0, None, start, end, get)
             == MergeFrom(country, Indicators, i, merged, start, end, get)
      invariant i > 0 ==> merged.Some?
    {
      var df :- IndicatorTable(country, Indicators[i], start, end, get);
      if merged.None? {
        merged := Some(df);
      } else if IsEmpty(merged.value) || IsEmpty(df) {
        return Failure(MissingKeyColumns);
      } else {
        merged := Some(OuterJoin(merged.value, df));
      }
    }
    var m := merged.value;
    if "gdp_usd" !in m.columns {
      return Failure(MissingColumn("gdp_usd"));
    }
    if "population" !in m.columns {
      return Failure(MissingColumn("population"));
    }
    return Success(SortTable(m));
  }

  /** The tables of `inds`, fetched in order; the first failure stops it. */
  function FetchAll(country: string, inds: seq<(string, string)>, start: int, end: int, get: Get): (r: Result<seq<Table>, WbError>)
    ensures r.Success? ==> |r.value| == |inds|
  {
    if inds == [] then Success([])
    else
      var tables :- FetchAll(country, inds[..|inds| - 1], start, end, get);
      var t :- IndicatorTable(country, inds[|inds| - 1], start, end, get);
      Success(tables + [t])
  }

  lemma {:induction false} FetchAllTables(country: string, inds: seq<(string, string)>, start: int, end: int, get: Get)
    requires FetchAll(country, inds, start, end, get).Success?
    ensures forall k :: 0 <= k < |inds| ==>
      IndicatorTable(country, inds[k], start, end, get) == Success(FetchAll(country, inds, start, end, get).value[k])
  {
    if inds != [] {
      var p := inds[..|inds| - 1];
      FetchAllTables(country, p, start, end, get);
      assert forall k :: 0 <= k < |p| ==> p[k] == inds[k];
    }
  }

  lemma FetchAllExtend(country: string, inds: seq<(string, string)>, i: nat, start: int, end: int, get: Get,
                       tables: seq<Table>, df: Table)
    requires i < |inds| && FetchAll(country, inds[..i], start, end, get) == Success(tables)
    requires IndicatorTable(country, inds[i], start, end, get) == Success(df)
    ensures FetchAll(country, inds[..i + 1], start, end, get) == Success(tables + [df])
  {
    assert inds[..i + 1][..i] == inds[..i];
    assert inds[..i + 1][i] == inds[i];
  }

  predicate NoneEmpty(tables: seq<Table>) {
    forall t :: t in tables ==> !IsEmpty(t)
  }

  /**
   * A successful run of the loop from the second indicator on fetched every remaining
   * indicator, found each table non-empty, and merged them all, left to right.
   */
  lemma {:induction false} MergeFromIsFold(country: string, inds: seq<(string, string)>, i: nat,
                                         start: int, end: int, get: Get, tables: seq<Table>)
    requires 1 <= i <= |inds|
    requires FetchAll(country, inds[..i], start, end, get) == Success(tables) && NoneEmpty(tables)
    requires MergeFrom(country, inds, i, Some(FoldJoin(tables)), start, end, get).Success?
    ensures FetchAll(country, inds, start, end, get).Success?
    ensures NoneEmpty(FetchAll(country, inds, start, end, get).value)
    ensures MergeFrom(country, inds, i, Some(FoldJoin(tables)), start, end, get).value
         == Some(FoldJoin(FetchAll(country, inds, start, end, get).value))
    decreases |inds| - i
  {
    if i == |inds| {
      assert inds[..i] == inds;
      assert MergeFrom(country, inds, i, Some(FoldJoin(tables)), start, end, get) == Success(Some(FoldJoin(tables)));
    } else {
      var m := FoldJoin(tables);
      MergeStep(country, inds, i, m, start, end, get);
      var df := IndicatorTable(country, inds[i], start, end, get).value;
      FoldJoinSnoc(tables, df);
      FetchAllExtend(country, inds, i, start, end, get, tables, df);
      assert NoneEmpty(tables + [df]);
      MergeFromIsFold(country, inds, i + 1, start, end, get, tables + [df]);
      assert MergeFrom(country, inds, i, Some(m), start, end, get)
          == MergeFrom(country, inds, i + 1, Some(FoldJoin(tables + [df])), start, end, get);
    }
  }

  /** The whole loop over two or more indicators: it merges all their tables, and each had rows. */
  lemma MergeFromStart(country: string, inds: seq<(string, string)>, start: int, end: int, get: Get)
    requires |inds| >= 2 && MergeFrom(country, inds, 0, None, start, end, get).Success?
    ensures FetchAll(country, inds, start, end, get).Success?
    ensures NoneEmpty(FetchAll(country, inds, start, end, get).value)
    ensures MergeFrom(country, inds, 0, None, start, end, get).value == Some(FoldJoin(FetchAll(country, inds, start, end, get).value))
  {
    var df := IndicatorTable(country, inds[0], start, end, get).value;
    assert MergeFrom(country, inds, 0, None, start, end, get) == MergeFrom(country, inds, 1, Some(df), start, end, get);
    MergeStep(country, inds, 1, df, start, end, get);
    assert FoldJoin([df]) == df;
    assert inds[..0] == [];
    FetchAllExtend(country, inds, 0, start, end, get, [], df);
    assert [] + [df] == [df];
    MergeFromIsFold(country, inds, 1, start, end, get, [df]);
  }

  /** One merging step of the loop: both tables must have rows, and the loop goes on with their merge. */
  lemma MergeStep(country: string, inds: seq<(string, string)>, i: nat, merged: Table,
                  start: int, end: int, get: Get)
    requires i < |inds| && MergeFrom(country, inds, i, Some(merged), start, end, get).Success?
    ensures IndicatorTable(country, inds[i], start, end, get).Success?
    ensures var df := IndicatorTable(country, inds[i], start, end, get).value;
      !IsEmpty(df) && !IsEmpty(merged) &&
      MergeFrom(country, inds, i, Some(merged), start, end, get) ==
      MergeFrom(country, inds, i + 1, Some(OuterJoin(merged, df)), start, end, get)
  {
  }

  lemma FoldJoinSnoc(tables: seq<Table>, df: Table)
    requires tables != []
    ensures FoldJoin(tables + [df]) == OuterJoin(FoldJoin(tables), df)
  {
    assert (tables + [df])[..|tables|] == tables;
  }

  /** The tables of the indicators, when every one of them was fetched and parsed. */
  lemma IndicatorTablesMerge(tables: seq<Table>)
    requires |tables| == |Indicators|
    requires forall k :: 0 <= k < |tables| ==> WellFormed(tables[k]) && !IsEmpty(tables[k]) && tables[k].columns == [Indicators[k].1]
    ensures Mergeable(tables)
  {
    forall i, j, c | 0 <= i < j < |tables| && c in tables[i].columns ensures c !in tables[j].columns {
      assert c == Indicators[i].1;
    }
  }

  /** The tables a successful loop over two or more indicators merged, one per indicator, each with rows. */
  lemma MergeFromTables(country: string, inds: seq<(string, string)>, start: int, end: int, get: Get)
    returns (all: seq<Table>)
    requires |inds| >= 2 && MergeFrom(country, inds, 0, None, start, end, get).Success?
    ensures |all| == |inds|
    ensures forall k :: 0 <= k < |inds| ==>
      IndicatorTable(country, inds[k], start, end, get) == Success(all[k]) && !IsEmpty(all[k])
    ensures MergeFrom(country, inds, 0, None, start, end, get).value == Some(FoldJoin(all))
  {
    MergeFromStart(country, inds, start, end, get);
    all := FetchAll(country, inds, start, end, get).value;
    FetchAllTables(country, inds, start, end, get);
    forall k | 0 <= k < |inds| ensures !IsEmpty(all[k]) {
      assert all[k] in all;
    }
  }

  /**
   * `fetch_indicator` succeeds only when every indicator was fetched and gave a table
   * with rows; its result is then the outer merge of those tables sorted by year.
   */
  lemma IndicatorDataIsMerge(country: string, start: int, end: int, get: Get) returns (all: seq<Table>)
    requires IndicatorData(country, start, end, get).Success?
    ensures |all| == |Indicators|
    ensures forall k :: 0 <= k < |Indicators| ==>
      IndicatorTable(country, Indicators[k], start, end, get) == Success(all[k]) && !IsEmpty(all[k])
    ensures IndicatorData(country, start, end, get).value == Merged(all)
  {
    var m := MergeFrom(country, Indicators, 0, None, start, end, get);
    assert m.Success?;
    all := MergeFromTables(country, Indicators, start, end, get);
    assert IndicatorData(country, start, end, get).value == SortTable(m.value.value);
  }

  /**
   * Every indicator request succeeded, and the table holds a row for exactly the keys
   * some indicator has and, in each indicator's column, exactly that indicator's values.
   */
  lemma IndicatorDataContents(country: string, start: int, end: int, get: Get) returns (all: seq<Table>)
    requires IndicatorData(country, start, end, get).Success?
    ensures |all| == |Indicators|
    ensures forall k :: 0 <= k < |Indicators| ==>
      get(country, Indicators[k].0, start, end).Some? &&
      IndicatorTable(country, Indicators[k], start, end, get) == Success(all[k]) && !IsEmpty(all[k])
    ensures var t := IndicatorData(country, start, end, get).value;
      SortedByYear(t.rows) && KeysOf(t.rows) == UnionKeys(all) &&
      forall k :: 0 <= k < |all| ==> ValuesFrom(t, all[k]) && ValuesKept(t, all[k])
  {
    all := IndicatorDataIsMerge(country, start, end, get);
    forall k | 0 <= k < |Indicators|
      ensures WellFormed(all[k]) && all[k].columns == [Indicators[k].1]
    {
      IndicatorTableShape(country, Indicators[k], start, end, get);
    }
    IndicatorTablesMerge(all);
    MergedContents(all);
  }

  // ---------------------------------------------------------------------------
  // The run (lines 49-50)

  /** `[fetch_indicator(c, START, END) for c in COUNTRIES]`: the first exception aborts it. */
  function CountryFrames(countries: seq<string>, start: int, end: int, get: Get): (r: Result<seq<Table>, WbError>)
    ensures r.Success? ==> (|r.value| == |countries| &&
      forall i :: 0 <= i < |countries| ==> IndicatorData(countries[i], start, end, get) == Success(r.value[i]))
    ensures r.Failure? ==> exists i :: 0 <= i < |countries| && IndicatorData(countries[i], start, end, get).Failure?
  {
    if countries == [] then Success([])
    else
      var first :- IndicatorData(countries[0], start, end, get);
      var rest :- CountryFrames(countries[1..], start, end, get);
      assert forall i :: 1 <= i < |countries| ==> countries[1..][i - 1] == countries[i];
      Success([first] + rest)
  }

  /** `pd.concat(frames).sort_values(["year"])`; concatenating no tables raises. */
  function IngestRun(countries: seq<string>, start: int, end: int, get: Get): Result<Table, WbError> {
    var frames :- CountryFrames(countries, start, end, get);
    if frames == [] then Failure(NoFrames) else Success(SortTable(Concat(frames)))
  }

  /**
   * The script's own run over `COUNTRIES` from `START` to `END` fails exactly when some
   * country's `fetch_indicator` fails: with three countries there is always a frame to concatenate.
   */
  lemma ScriptRunFails(get: Get)
    ensures IngestRun(Countries, Start, End, get).Failure? <==>
      exists i :: 0 <= i < |Countries| && IndicatorData(Countries[i], Start, End, get).Failure?
  {
    var frames := CountryFrames(Countries, Start, End, get);
    if frames.Success? {
      assert |frames.value| == 3;
    }
  }

  /** The run's table holds every row of every country's table, as often as they do, and nothing else, sorted by year. */
  lemma IngestRunContents(countries: seq<string>, start: int, end: int, get: Get)
    requires IngestRun(countries, start, end, get).Success?
    ensures countries != [] && CountryFrames(countries, start, end, get).Success?
    ensures var frames := CountryFrames(countries, start, end, get).value;
      var t := IngestRun(countries, start, end, get).value;
      SortedByYear(t.rows) && multiset(t.rows) == AllRows(frames) && |t.rows| == TotalRows(frames) &&
      forall x :: x in t.rows <==> exists i :: 0 <= i < |frames| && x in frames[i].rows
  {
    var frames := CountryFrames(countries, start, end, get).value;
    var c := Concat(frames);
    var t := SortTable(c);
    assert IngestRun(countries, start, end, get) == Success(t);
    ConcatContents(frames);
    assert |t.rows| == |multiset(t.rows)| == |multiset(c.rows)| == |c.rows|;
  }
}
