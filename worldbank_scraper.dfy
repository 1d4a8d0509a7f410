/**
 * The World Bank container scraper (src/containers/worldbank-container/worldbank_scraper.py):
 * the payload parser, the per-country indicator loop, `merge_indicators`, the run over
 * the configured countries and the blob file name.
 *
 * The HTTP call `worldbank_api_request` and the name converter `get_wb_code` are
 * parameters: `Request` answers the decoded JSON array or `None` when the request
 * failed, `convert` answers the ISO3 code or `None` when the converter raised.
 */
module WorldBankScraper {
  import opened Wrappers
  import opened Numerals
  import opened WbTables

  const Countries: seq<string> := ["United States", "Israel", "Italy"]

  /** The defaults of `START_YEAR` and `END_YEAR` when the environment does not set them. */
  const DefaultStartYear: int := 1989
  const DefaultEndYear: int := 1991

  /** `worldbank_api_request(wb_code, indicator_code, start_year, end_year)`. */
  type Request = (string, string, int, int) -> Option<seq<Item>>

  /**
   * `parse_wb_response`: no table for a missing, short or rowless payload; otherwise one
   * row per non-null value. A metadata object where the row list belongs raises.
   */
  function ParseWbResponse(payload: Option<seq<Item>>, name: string): (r: Result<Table, WbError>)
    ensures payload.None? || |payload.value| < 2 ==> r == Success(EmptyTable)
    ensures payload.Some? && |payload.value| >= 2 && payload.value[1] in {NullItem, Rows([])} ==> r == Success(EmptyTable)
    ensures payload.Some? && |payload.value| >= 2 && payload.value[1] == Meta ==> r == Failure(BadRows)
    ensures payload.Some? && |payload.value| >= 2 && payload.value[1].Rows? ==>
      var rows := payload.value[1].rows;
      (r.Success? <==> KeepRows(rows, name).Success?) &&
      (r.Success? ==> r.value.rows == KeepRows(rows, name).value && (r.value.rows != [] ==> r.value.columns == [name]))
    ensures r.Success? ==> WellFormed(r.value) && (r.value.columns == [] || r.value.columns == [name])
    ensures r.Success? ==> (IsEmpty(r.value) <==> r.value.columns == [])
  {
    if payload.None? || |payload.value| < 2 then Success(EmptyTable)
    else match payload.value[1]
      case NullItem => Success(EmptyTable)
      case Meta => Failure(BadRows)
      case Rows(rows) =>
        var kept :- KeepRows(rows, name);
        KeepRowsWellFormed(rows, name);
        Success(TableOf(kept, name))
  }

  /** The table one indicator contributes for `code`. */
  function Parsed(code: string, ind: (string, string), start: int, end: int, request: Request): Result<Table, WbError> {
    ParseWbResponse(request(code, ind.0, start, end), ind.1)
  }

  /** The loop at lines 109-117 from indicator `i` on, with the non-empty tables `acc` kept so far. */
  function FramesFrom(code: string, inds: seq<(string, string)>, i: nat, acc: seq<Table>,
                      start: int, end: int, request: Request): Result<seq<Table>, WbError>
    requires i <= |inds|
    decreases |inds| - i
  {
    if i == |inds| then Success(acc)
    else
      var df :- Parsed(code, inds[i], start, end, request);
      FramesFrom(code, inds, i + 1, if IsEmpty(df) then acc else acc + [df], start, end, request)
  }

  /**
   * What the loop collects: every indicator parses, the collected tables are exactly the
   * non-empty parses, and they merge cleanly (one distinct column each).
   */
  lemma {:induction false} FramesFromCollects(code: string, inds: seq<(string, string)>, i: nat, acc: seq<Table>,
                                            start: int, end: int, request: Request)
    requires i <= |inds| && NamesDistinct(inds)
    requires FramesFrom(code, inds, i, acc, start, end, request).Success?
    requires Mergeable(acc) && forall t :: t in acc ==> !IsEmpty(t)
    requires forall t, c, k :: t in acc && c in t.columns && i <= k < |inds| ==> inds[k].1 != c
    ensures var frames := FramesFrom(code, inds, i, acc, start, end, request).value;
      Mergeable(frames) && (forall t :: t in frames ==> !IsEmpty(t)) &&
      (forall t :: t in acc ==> t in frames) &&
      (forall k :: i <= k < |inds| ==> Parsed(code, inds[k], start, end, request).Success?) &&
      (forall k :: i <= k < |inds| && !IsEmpty(Parsed(code, inds[k], start, end, request).value) ==>
         Parsed(code, inds[k], start, end, request).value in frames) &&
      (forall t :: t in frames ==> t in acc || exists k :: i <= k < |inds| && Parsed(code, inds[k], start, end, request) == Success(t))
    decreases |inds| - i
  {
    if i < |inds| {
      var df := Parsed(code, inds[i], start, end, request).value;
      var acc' := if IsEmpty(df) then acc else acc + [df];
      if !IsEmpty(df) {
        assert df.columns == [inds[i].1];
        forall a, b, c | 0 <= a < b < |acc'| && c in acc'[a].columns ensures c !in acc'[b].columns {
          if b == |acc| {
            assert acc'[a] in acc;
          }
        }
      }
      FramesFromCollects(code, inds, i + 1, acc', start, end, request);
    }
  }

  /** Indicators whose request failed or whose parse is empty are skipped; the rest are kept. */
  lemma FramesAreNonEmptyParses(code: string, start: int, end: int, request: Request)
    requires FramesFrom(code, Indicators, 0, [], start, end, request).Success?
    ensures var frames := FramesFrom(code, Indicators, 0, [], start, end, request).value;
      Mergeable(frames) &&
      (forall k :: 0 <= k < |Indicators| ==> Parsed(code, Indicators[k], start, end, request).Success?) &&
      (forall k :: 0 <= k < |Indicators| ==>
         (!IsEmpty(Parsed(code, Indicators[k], start, end, request).value) <==>
          Parsed(code, Indicators[k], start, end, request).value in frames)) &&
      (forall t :: t in frames ==> exists k :: 0 <= k < |Indicators| && Parsed(code, Indicators[k], start, end, request) == Success(t))
  {
    FramesFromCollects(code, Indicators, 0, [], start, end, request);
  }

  /** `merge_indicators`: the tables merged outer on (country, iso3, year), then sorted by year. */
  method MergeIndicators(dfs: seq<Table>) returns (merged: Table)
    ensures merged == Merged(dfs)
  {
    if |dfs| == 0 {
      return EmptyTable;
    }
    merged := dfs[0];
    for i := 1 to |dfs|
      invariant merged == FoldJoin(dfs[..i])
    {
      assert dfs[..i + 1][..i] == dfs[..i];
      merged := OuterJoin(merged, dfs[i]);
    }
    assert dfs[..|dfs|] == dfs;
    merged := SortTable(merged);
  }

  /** `fetch_country_data`, without the formatted string columns. */
  function CountryData(country: string, start: int, end: int, convert: string -> Option<string>,
                       request: Request): (r: Result<Table, WbError>)
    ensures convert(country).None? || convert(country) == Some("") ==> r == Success(EmptyTable)
  {
    match convert(country)
    case None => Success(EmptyTable)
    case Some(code) =>
      if code == "" then Success(EmptyTable)
      else
        var frames :- FramesFrom(code, Indicators, 0, [], start, end, request);
        Success(if frames == [] then EmptyTable else Merged(frames))
  }

  method FetchCountryData(country: string, start: int, end: int, convert: string -> Option<string>,
                          request: Request) returns (r: Result<Table, WbError>)
    ensures r == CountryData(country, start, end, convert, request)
  {
    var code := convert(country);
    if code.None? || code.value == "" {
      return Success(EmptyTable);
    }
    var dfs: seq<Table> := [];
    for i := 0 to |Indicators|
      invariant FramesFrom(code.value, Indicators, 0, [], start, end, request)
             == FramesFrom(code.value, Indicators, i, dfs, start, end, request)
    {
      var payload := request(code.value, Indicators[i].0, start, end);
      var df := ParseWbResponse(payload, Indicators[i].1);
      if df.Failure? {
        return Failure(df.error);
      }
      if !IsEmpty(df.value) {
        dfs := dfs + [df.value];
      }
    }
    if dfs == [] {
      return Success(EmptyTable);
    }
    var merged := MergeIndicators(dfs);
    return Success(merged);
  }

  /** A table with no rows and no columns constrains no other table. */
  lemma EmptyParseCovered(t: Table, p: Table)
    requires p.rows == [] && p.columns == []
    ensures ValuesFrom(t, p) && ValuesKept(t, p)
  {
  }

  /**
   * A country's table is sorted by year and, in each indicator's column, holds exactly
   * the values that indicator returned, each on a row with the same key.
   */
  lemma CountryDataValues(country: string, start: int, end: int, convert: string -> Option<string>,
                          request: Request)
    requires CountryData(country, start, end, convert, request).Success?
    requires convert(country).Some? && convert(country).value != ""
    ensures var t := CountryData(country, start, end, convert, request).value;
      SortedByYear(t.rows) && WellFormed(t) &&
      forall k :: 0 <= k < |Indicators| ==>
        Parsed(convert(country).value, Indicators[k], start, end, request).Success? &&
        var p := Parsed(convert(country).value, Indicators[k], start, end, request).value;
        ValuesFrom(t, p) && ValuesKept(t, p)
  {
    var code := convert(country).value;
    var frames := FramesFrom(code, Indicators, 0, [], start, end, request).value;
    FramesAreNonEmptyParses(code, start, end, request);
    var t := CountryData(country, start, end, convert, request).value;
    if frames != [] {
      MergedContents(frames);
    }
    forall k | 0 <= k < |Indicators|
      ensures Parsed(code, Indicators[k], start, end, request).Success? &&
        var p := Parsed(code, Indicators[k], start, end, request).value; ValuesFrom(t, p) && ValuesKept(t, p)
    {
      var p := Parsed(code, Indicators[k], start, end, request).value;
      if IsEmpty(p) {
        EmptyParseCovered(t, p);
      } else {
        var j :| 0 <= j < |frames| && frames[j] == p;
      }
    }
  }

  /** A country's table has a row for exactly the keys some indicator returned. */
  lemma CountryDataKeys(country: string, start: int, end: int, convert: string -> Option<string>,
                        request: Request)
    requires CountryData(country, start, end, convert, request).Success?
    requires convert(country).Some? && convert(country).value != ""
    ensures forall k :: 0 <= k < |Indicators| ==> Parsed(convert(country).value, Indicators[k], start, end, request).Success?
    ensures forall key :: key in KeysOf(CountryData(country, start, end, convert, request).value.rows) <==>
      exists k :: 0 <= k < |Indicators| && Parsed(convert(country).value, Indicators[k], start, end, request).Success? &&
        key in KeysOf(Parsed(convert(country).value, Indicators[k], start, end, request).value.rows)
  {
    var code := convert(country).value;
    var frames := FramesFrom(code, Indicators, 0, [], start, end, request).value;
    FramesAreNonEmptyParses(code, start, end, request);
    var t := CountryData(country, start, end, convert, request).value;
    if frames != [] {
      MergedContents(frames);
      UnionKeysMembers(frames);
    }
    forall key | key in KeysOf(t.rows)
      ensures exists k :: (0 <= k < |Indicators| && Parsed(code, Indicators[k], start, end, request).Success? &&
                           key in KeysOf(Parsed(code, Indicators[k], start, end, request).value.rows))
    {
      var j :| 0 <= j < |frames| && key in KeysOf(frames[j].rows);
      assert frames[j] in frames;
      var k :| 0 <= k < |Indicators| && Parsed(code, Indicators[k], start, end, request) == Success(frames[j]);
    }
    forall key, k | 0 <= k < |Indicators| && Parsed(code, Indicators[k], start, end, request).Success? &&
      key in KeysOf(Parsed(code, Indicators[k], start, end, request).value.rows)
      ensures key in KeysOf(t.rows)
    {
      var p := Parsed(code, Indicators[k], start, end, request).value;
      var j :| 0 <= j < |frames| && frames[j] == p;
    }
  }

  // ---------------------------------------------------------------------------
  // The run (lines 167-173)

  /** `[fetch_country_data(c, START_YEAR, END_YEAR) for c in COUNTRIES]`: the first exception aborts it. */
  function CountryTables(countries: seq<string>, start: int, end: int, convert: string -> Option<string>,
                         request: Request): (r: Result<seq<Table>, WbError>)
    ensures r.Success? ==> (|r.value| == |countries| &&
      forall i :: 0 <= i < |countries| ==> CountryData(countries[i], start, end, convert, request) == Success(r.value[i]))
    ensures r.Failure? ==> exists i :: 0 <= i < |countries| && CountryData(countries[i], start, end, convert, request).Failure?
  {
    if countries == [] then Success([])
    else
      var first :- CountryData(countries[0], start, end, convert, request);
      var rest :- CountryTables(countries[1..], start, end, convert, request);
      assert forall i :: 1 <= i < |countries| ==> countries[1..][i - 1] == countries[i];
      Success([first] + rest)
  }

  /** `[f for f in frames if not f.empty]`. */
  function NonEmptyFrames(frames: seq<Table>): (kept: seq<Table>)
    ensures forall t :: t in kept <==> t in frames && !IsEmpty(t)
  {
    if frames == [] then []
    else (if IsEmpty(frames[0]) then [] else [frames[0]]) + NonEmptyFrames(frames[1..])
  }

  /** The combined table sorted by year, or `None` when no country yielded data. */
  function RunTables(countries: seq<string>, start: int, end: int, convert: string -> Option<string>,
                     request: Request): Result<Option<Table>, WbError>
  {
    var frames :- CountryTables(countries, start, end, convert, request);
    var kept := NonEmptyFrames(frames);
    Success(if kept == [] then None else Some(SortTable(Concat(kept))))
  }

  /** The non-empty frames hold the same rows as all the frames. */
  lemma NonEmptyFramesRows(frames: seq<Table>)
    ensures var kept := NonEmptyFrames(frames);
      (forall x, j :: 0 <= j < |kept| && x in kept[j].rows ==> exists i :: 0 <= i < |frames| && x in frames[i].rows) &&
      (forall x, i :: 0 <= i < |frames| && x in frames[i].rows ==> exists j :: 0 <= j < |kept| && x in kept[j].rows)
  {
    var kept := NonEmptyFrames(frames);
    forall x, j | 0 <= j < |kept| && x in kept[j].rows ensures exists i :: 0 <= i < |frames| && x in frames[i].rows {
      assert kept[j] in frames;
    }
    forall x, i | 0 <= i < |frames| && x in frames[i].rows ensures exists j :: 0 <= j < |kept| && x in kept[j].rows {
      assert frames[i] in kept;
    }
  }

  /** Dropping the empty frames drops no row. */
  lemma {:induction false} NonEmptyFramesAllRows(frames: seq<Table>)
    ensures AllRows(NonEmptyFrames(frames)) == AllRows(frames)
  {
    if frames != [] {
      var first, rest := frames[0], NonEmptyFrames(frames[1..]);
      NonEmptyFramesAllRows(frames[1..]);
      assert frames == [first] + frames[1..];
      AllRowsCons(first, frames[1..]);
      if IsEmpty(first) {
        assert NonEmptyFrames(frames) == [] + rest == rest;
        assert multiset(first.rows) == multiset{};
      } else {
        assert NonEmptyFrames(frames) == [first] + rest;
        AllRowsCons(first, rest);
      }
    }
  }

  lemma NoNonEmptyFrames(frames: seq<Table>)
    ensures NonEmptyFrames(frames) == [] <==> forall i :: 0 <= i < |frames| ==> IsEmpty(frames[i])
  {
    var kept := NonEmptyFrames(frames);
    if kept != [] {
      assert kept[0] in frames;
    } else {
      forall i | 0 <= i < |frames| ensures IsEmpty(frames[i]) {
        assert frames[i] !in kept;
      }
    }
  }

  /** The run yields no table exactly when every country's table is empty. */
  lemma RunEmptyIffNoData(countries: seq<string>, start: int, end: int, convert: string -> Option<string>,
                          request: Request)
    requires RunTables(countries, start, end, convert, request).Success?
    ensures CountryTables(countries, start, end, convert, request).Success?
    ensures var frames := CountryTables(countries, start, end, convert, request).value;
      RunTables(countries, start, end, convert, request).value.None? <==> forall i :: 0 <= i < |frames| ==> IsEmpty(frames[i])
  {
    NoNonEmptyFrames(CountryTables(countries, start, end, convert, request).value);
  }

  /**
   * Sorting the concatenation of the non-empty frames keeps exactly the rows of all
   * the frames, each as often as the frames hold it.
   */
  lemma SortedConcatRows(frames: seq<Table>)
    ensures var t := SortTable(Concat(NonEmptyFrames(frames)));
      SortedByYear(t.rows) && multiset(t.rows) == AllRows(frames) &&
      forall x :: x in t.rows <==> exists i :: 0 <= i < |frames| && x in frames[i].rows
  {
    var kept := NonEmptyFrames(frames);
    var c := Concat(kept);
    var t := SortTable(c);
    ConcatRows(kept);
    NonEmptyFramesRows(frames);
    NonEmptyFramesAllRows(frames);
    forall x ensures x in t.rows <==> x in c.rows {
      assert x in t.rows <==> x in multiset(t.rows);
    }
  }

  /** Otherwise it holds every row of every country's table, as often as they do, and nothing else, sorted by year. */
  lemma RunCombinesCountries(countries: seq<string>, start: int, end: int, convert: string -> Option<string>,
                             request: Request)
    requires RunTables(countries, start, end, convert, request).Success?
    requires RunTables(countries, start, end, convert, request).value.Some?
    ensures CountryTables(countries, start, end, convert, request).Success?
    ensures var frames := CountryTables(countries, start, end, convert, request).value;
      var t := RunTables(countries, start, end, convert, request).value.value;
      SortedByYear(t.rows) && multiset(t.rows) == AllRows(frames) &&
      forall x :: x in t.rows <==> exists i :: 0 <= i < |frames| && x in frames[i].rows
  {
    var frames := CountryTables(countries, start, end, convert, request).value;
    assert RunTables(countries, start, end, convert, request).value.value == SortTable(Concat(NonEmptyFrames(frames)));
    SortedConcatRows(frames);
  }

  /**
   * The run at lines 167-173 over `COUNTRIES` fails exactly when some country's table
   * fails; it never stops at an empty country.
   */
  lemma DefaultRunFails(convert: string -> Option<string>, request: Request)
    ensures RunTables(Countries, DefaultStartYear, DefaultEndYear, convert, request).Failure? <==>
      exists i :: 0 <= i < |Countries| && CountryData(Countries[i], DefaultStartYear, DefaultEndYear, convert, request).Failure?
  {
  }

  const BlobPrefix: string := "worldbank/worldbank_data_"
  const BlobSuffix: string := ".parquet"

  /** `generate_blob_filename`. */
  function BlobFilename(startYear: int, endYear: int): (name: string)
    ensures |name| > |BlobPrefix| + |BlobSuffix|
  {
    BlobPrefix + IntToString(startYear) + "_" + IntToString(endYear) + BlobSuffix
  }

  lemma BlobFilenameParts(startYear: int, endYear: int)
    ensures BlobFilename(startYear, endYear) == BlobPrefix + (IntToString(startYear) + "_" + IntToString(endYear)) + BlobSuffix
  {
    var a, b := IntToString(startYear), IntToString(endYear);
    assert BlobPrefix + a + "_" + b == BlobPrefix + (a + "_" + b);
  }

  lemma {:induction false} SplitAtFirstUnderscore(a1: string, r1: string, a2: string, r2: string)
    requires '_' !in a1 && '_' !in a2 && a1 + "_" + r1 == a2 + "_" + r2
    ensures a1 == a2 && r1 == r2
  {
    var s := a1 + "_" + r1;
    assert s[|a1|] == '_' && s[|a2|] == '_';
    assert |a1| == |a2|;
    assert a1 == s[..|a1|] == a2;
    assert r1 == s[|a1| + 1..] == r2;
  }

  lemma SharedAffixes(p: string, m1: string, m2: string, q: string)
    requires p + m1 + q == p + m2 + q
    ensures m1 == m2
  {
    var s := p + m1 + q;
    assert m1 == s[|p|..|s| - |q|] == m2;
  }

  /** Distinct year ranges never share a blob. */
  lemma BlobFilenameInjective(s1: int, e1: int, s2: int, e2: int)
    requires BlobFilename(s1, e1) == BlobFilename(s2, e2)
    ensures s1 == s2 && e1 == e2
  {
    var a1, b1 := IntToString(s1), IntToString(e1);
    var a2, b2 := IntToString(s2), IntToString(e2);
    BlobFilenameParts(s1, e1);
    BlobFilenameParts(s2, e2);
    SharedAffixes(BlobPrefix, a1 + "_" + b1, a2 + "_" + b2, BlobSuffix);
    ParseIntToString(s1);
    ParseIntToString(s2);
    SplitAtFirstUnderscore(a1, b1, a2, b2);
    ParseIntToString(e1);
    ParseIntToString(e2);
  }

  /** With the default years, the run writes `worldbank/worldbank_data_1989_1991.parquet`. */
  lemma DefaultBlobFilename()
    ensures BlobFilename(DefaultStartYear, DefaultEndYear) == "worldbank/worldbank_data_1989_1991.parquet"
  {
    Numeral1989();
    Numeral1991();
  }

  lemma Numeral19()
    ensures NatToString(19) == "19"
  {
    assert NatToString(19) == NatToString(1) + [DigitChar(9)];
  }

  lemma Numeral1989()
    ensures NatToString(1989) == "1989"
  {
    Numeral19();
    assert NatToString(198) == NatToString(19) + [DigitChar(8)];
    assert NatToString(1989) == NatToString(198) + [DigitChar(9)];
  }

  lemma Numeral1991()
    ensures NatToString(1991) == "1991"
  {
    Numeral19();
    assert NatToString(199) == NatToString(19) + [DigitChar(9)];
    assert NatToString(1991) == NatToString(199) + [DigitChar(1)];
  }
}
