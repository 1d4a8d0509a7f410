/**
 * The country-year aggregation of `cast_and_aggregate`
 * (src/containers/ucdp-container/ucdp_scraper.py): a group-by on
 * (country_id, country, year) that keeps missing key parts as groups of their own,
 * ten statistics per group, and the final sort on (country_id, year).
 */
module UcdpAggregate {
  import opened Wrappers
  import opened UcdpEvents

  /** The group-by key; a `None` part is a missing value, grouped like any other (`dropna=False`). */
  datatype GroupKey = GroupKey(countryId: Option<int>, country: Option<string>, year: Option<int>)

  /** One output row: the key columns and the ten `ged_*` columns. */
  datatype CountryYear = CountryYear(
    key: GroupKey,
    gedEvents: int,
    gedEventsFatal: int,
    gedDeathsBest: int,
    gedDeathsLow: int,
    gedDeathsHigh: int,
    gedDeathsCivilians: int,
    gedDyads: int,
    gedStateEvents: int,
    gedNonstateEvents: int,
    gedOnesidedEvents: int)

  function KeyOf(r: Row): GroupKey {
    GroupKey(r.countryId, r.country, r.year)
  }

  function KeySet(rows: seq<Row>): set<GroupKey> {
    set r | r in rows :: KeyOf(r)
  }

  // ---------------------------------------------------------------------------
  // Sums and counts over rows

  function SumOf<T>(s: seq<T>, f: T -> int): int {
    if s == [] then 0 else SumOf(s[..|s| - 1], f) + f(s[|s| - 1])
  }

  function CountWhere(s: seq<Row>, p: Row -> bool): (n: int)
    ensures 0 <= n <= |s|
  {
    if s == [] then 0 else CountWhere(s[..|s| - 1], p) + (if p(s[|s| - 1]) then 1 else 0)
  }

  function Indicator(p: Row -> bool): Row -> int {
    r => if p(r) then 1 else 0
  }

  lemma {:induction false} CountIsSum(s: seq<Row>, p: Row -> bool)
    ensures CountWhere(s, p) == SumOf(s, Indicator(p))
  {
    if s != [] {
      CountIsSum(s[..|s| - 1], p);
    }
  }

  lemma {:induction false} CountSplit(s: seq<Row>, p: Row -> bool, q: Row -> bool, either: Row -> bool)
    requires forall r :: r in s ==> !(p(r) && q(r)) && (either(r) <==> p(r) || q(r))
    ensures CountWhere(s, p) + CountWhere(s, q) == CountWhere(s, either)
  {
    if s != [] {
      CountSplit(s[..|s| - 1], p, q, either);
    }
  }

  // The per-row quantities behind the statistics (lines 74-83).
  predicate HasId(r: Row) { r.id.Some? }
  predicate HasDyad(r: Row) { r.dyadNewId.Some? }
  predicate Fatal(r: Row) { r.best > 0 }
  predicate StateBased(r: Row) { r.typeOfViolence == Some(1) }
  predicate NonState(r: Row) { r.typeOfViolence == Some(2) }
  predicate OneSided(r: Row) { r.typeOfViolence == Some(3) }
  predicate StateOrNonState(r: Row) { StateBased(r) || NonState(r) }
  predicate KnownViolenceType(r: Row) { StateOrNonState(r) || OneSided(r) }
  function Best(r: Row): int { r.best }
  function Low(r: Row): int { r.low }
  function High(r: Row): int { r.high }
  function Civilians(r: Row): int { r.deathsCivilians }

  function DyadSet(g: seq<Row>): set<int> {
    set r | r in g && r.dyadNewId.Some? :: r.dyadNewId.value
  }

  /**
   * The rows of `rows` whose key is `k`, in input order; every such row is kept
   * as often as it occurs (see `GroupIsOrderedFilter` for the order).
   */
  function Group(rows: seq<Row>, k: GroupKey): (g: seq<Row>)
    ensures forall r :: r in g <==> r in rows && KeyOf(r) == k
    ensures forall r :: multiset(g)[r] == if KeyOf(r) == k then multiset(rows)[r] else 0
    ensures |g| <= |rows|
  {
    if rows == [] then []
    else
      var g := Group(rows[..|rows| - 1], k);
      var last := rows[|rows| - 1];
      assert rows == rows[..|rows| - 1] + [last];
      if KeyOf(last) == k then g + [last] else g
  }

  /**
   * `Group` is the order-preserving filter on the key: it keeps a single row
   * exactly when its key is `k`, and distributes over concatenation, so the
   * rows of a group appear in the order, and as often, as they do in the input.
   */
  lemma {:induction false} GroupIsOrderedFilter(a: seq<Row>, b: seq<Row>, r: Row, k: GroupKey)
    ensures Group([], k) == []
    ensures Group([r], k) == if KeyOf(r) == k then [r] else []
    ensures Group(a + b, k) == Group(a, k) + Group(b, k)
  {
    assert [r][..0] == [];
    if b == [] {
      assert a + b == a;
    } else {
      var init, last := b[..|b| - 1], b[|b| - 1];
      assert (a + b)[..|a + b| - 1] == a + init;
      assert (a + b)[|a + b| - 1] == last;
      GroupIsOrderedFilter(a, init, r, k);
    }
  }

  /** `p`, restricted to the rows whose key is `k`. */
  function WithKey(k: GroupKey, p: Row -> bool): Row -> bool {
    r => KeyOf(r) == k && p(r)
  }

  /** `f` on the rows whose key is `k`, zero on the others. */
  function OnKey(k: GroupKey, f: Row -> int): Row -> int {
    r => if KeyOf(r) == k then f(r) else 0
  }

  /** A count over one group is the same count over the whole input, restricted to the key. */
  lemma {:induction false} GroupCount(rows: seq<Row>, k: GroupKey, p: Row -> bool)
    ensures CountWhere(Group(rows, k), p) == CountWhere(rows, WithKey(k, p))
  {
    if rows != [] {
      var init, last := rows[..|rows| - 1], rows[|rows| - 1];
      GroupCount(init, k, p);
      assert CountWhere(rows, WithKey(k, p)) == CountWhere(init, WithKey(k, p)) + (if WithKey(k, p)(last) then 1 else 0);
      var g := Group(init, k);
      if KeyOf(last) == k {
        assert (g + [last])[..|g|] == g;
        assert CountWhere(g + [last], p) == CountWhere(g, p) + (if p(last) then 1 else 0);
      }
    }
  }

  /** A sum over one group is the same sum over the whole input, counting other keys as zero. */
  lemma {:induction false} GroupSum(rows: seq<Row>, k: GroupKey, f: Row -> int)
    ensures SumOf(Group(rows, k), f) == SumOf(rows, OnKey(k, f))
  {
    if rows != [] {
      var init, last := rows[..|rows| - 1], rows[|rows| - 1];
      GroupSum(init, k, f);
      assert SumOf(rows, OnKey(k, f)) == SumOf(init, OnKey(k, f)) + OnKey(k, f)(last);
      var g := Group(init, k);
      if KeyOf(last) == k {
        assert (g + [last])[..|g|] == g;
        assert SumOf(g + [last], f) == SumOf(g, f) + f(last);
      }
    }
  }

  /** The ten aggregations of lines 74-83 over one group. */
  function Summarize(k: GroupKey, g: seq<Row>): CountryYear {
    CountryYear(k,
      CountWhere(g, HasId),
      CountWhere(g, Fatal),
      SumOf(g, Best), SumOf(g, Low), SumOf(g, High), SumOf(g, Civilians),
      |DyadSet(g)|,
      CountWhere(g, StateBased), CountWhere(g, NonState), CountWhere(g, OneSided))
  }

  // ---------------------------------------------------------------------------
  // Ordering of keys: by country_id, then year, then country; missing values last

  predicate IntBefore(a: Option<int>, b: Option<int>) {
    a.Some? && (b.None? || a.value < b.value)
  }

  /** Python's `<` on strings: lexicographic by code point, a proper prefix first. */
  predicate TextBefore(a: string, b: string) {
    b != [] && (a == [] || a[0] < b[0] || (a[0] == b[0] && TextBefore(a[1..], b[1..])))
  }

  predicate OptTextBefore(a: Option<string>, b: Option<string>) {
    a.Some? && (b.None? || TextBefore(a.value, b.value))
  }

  /**
   * The order of the output. `sort_values(["country_id", "year"])` orders by
   * country_id then year, missing values last; rows that tie there keep the
   * group-by's own key order, which next compares `country`.
   */
  predicate KeyBefore(a: GroupKey, b: GroupKey) {
    || IntBefore(a.countryId, b.countryId)
    || (a.countryId == b.countryId && IntBefore(a.year, b.year))
    || (a.countryId == b.countryId && a.year == b.year && OptTextBefore(a.country, b.country))
  }

  /** The order the source promises: nondecreasing (country_id, year), missing values last. */
  predicate CountryIdYearAtMost(a: GroupKey, b: GroupKey) {
    IntBefore(a.countryId, b.countryId) || (a.countryId == b.countryId && (a.year == b.year || IntBefore(a.year, b.year)))
  }

  lemma {:induction false} TextBeforeIrreflexive(a: string)
    ensures !TextBefore(a, a)
  {
    if a != [] {
      TextBeforeIrreflexive(a[1..]);
    }
  }

  lemma {:induction false} TextBeforeTransitive(a: string, b: string, c: string)
    requires TextBefore(a, b) && TextBefore(b, c)
    ensures TextBefore(a, c)
  {
    if a != [] && a[0] == b[0] && b[0] == c[0] {
      TextBeforeTransitive(a[1..], b[1..], c[1..]);
    }
  }

  lemma {:induction false} TextBeforeTotal(a: string, b: string)
    requires a != b
    ensures TextBefore(a, b) || TextBefore(b, a)
  {
    if a != [] && b != [] && a[0] == b[0] {
      assert a == [a[0]] + a[1..] && b == [b[0]] + b[1..];
      TextBeforeTotal(a[1..], b[1..]);
    }
  }

  lemma KeyBeforeIrreflexive(a: GroupKey)
    ensures !KeyBefore(a, a)
  {
    if a.country.Some? {
      TextBeforeIrreflexive(a.country.value);
    }
  }

  lemma KeyBeforeTransitive(a: GroupKey, b: GroupKey, c: GroupKey)
    requires KeyBefore(a, b) && KeyBefore(b, c)
    ensures KeyBefore(a, c)
  {
    if a.countryId == b.countryId == c.countryId && a.year == b.year == c.year && c.country.Some? {
      TextBeforeTransitive(a.country.value, b.country.value, c.country.value);
    }
  }

  lemma KeyBeforeTotal(a: GroupKey, b: GroupKey)
    requires a != b
    ensures KeyBefore(a, b) || KeyBefore(b, a)
  {
    if a.countryId == b.countryId && a.year == b.year && a.country.Some? && b.country.Some? {
      TextBeforeTotal(a.country.value, b.country.value);
    }
  }

  predicate StrictlySorted(ks: seq<GroupKey>) {
    forall i, j :: 0 <= i < j < |ks| ==> KeyBefore(ks[i], ks[j])
  }

  /** Inserts a new key into a strictly sorted sequence of keys. */
  function Insert(k: GroupKey, ks: seq<GroupKey>): (r: seq<GroupKey>)
    requires StrictlySorted(ks) && k !in ks
    ensures StrictlySorted(r)
    ensures forall x :: x in r <==> x == k || x in ks
    ensures |r| == |ks| + 1
  {
    if ks == [] then [k]
    else if KeyBefore(k, ks[0]) then
      assert forall j :: 0 <= j < |ks| ==> KeyBefore(k, ks[j]) by {
        forall j | 0 <= j < |ks| ensures KeyBefore(k, ks[j]) {
          if j > 0 { KeyBeforeTransitive(k, ks[0], ks[j]); }
        }
      }
      [k] + ks
    else
      KeyBeforeTotal(k, ks[0]);
      var tail := Insert(k, ks[1..]);
      assert forall x :: x in tail ==> KeyBefore(ks[0], x);
      [ks[0]] + tail
  }

  /**
   * The distinct keys of `rows` in output order: the group-by's key set, sorted.
   */
  function SortedKeys(rows: seq<Row>): (ks: seq<GroupKey>)
    ensures StrictlySorted(ks)
    ensures forall k :: k in ks <==> k in KeySet(rows)
  {
    if rows == [] then []
    else
      var init := rows[..|rows| - 1];
      var ks := SortedKeys(init);
      var k := KeyOf(rows[|rows| - 1]);
      assert rows == init + [rows[|rows| - 1]];
      assert KeySet(rows) == KeySet(init) + {k};
      if k in ks then ks else Insert(k, ks)
  }

  /**
   * `cast_and_aggregate`'s group-by, aggregation and sort (lines 71-87) over cast rows.
   */
  function Aggregate(rows: seq<Row>): (out: seq<CountryYear>)
    ensures forall i :: 0 <= i < |out| ==> out[i].key in KeySet(rows)
    ensures forall k :: k in KeySet(rows) ==> exists i :: 0 <= i < |out| && out[i].key == k
    ensures forall i, j :: 0 <= i < j < |out| ==> KeyBefore(out[i].key, out[j].key)
    ensures forall i :: 0 <= i < |out| ==> out[i] == Summarize(out[i].key, Group(rows, out[i].key))
  {
    var ks := SortedKeys(rows);
    var out := Summaries(rows, ks);
    forall k | k in KeySet(rows) ensures exists i :: 0 <= i < |out| && out[i].key == k {
      var i :| 0 <= i < |ks| && ks[i] == k;
      assert out[i].key == k;
    }
    out
  }

  /** One summary per key, in the order of the keys. */
  function Summaries(rows: seq<Row>, ks: seq<GroupKey>): (out: seq<CountryYear>)
    ensures |out| == |ks|
    ensures forall i :: 0 <= i < |ks| ==> out[i].key == ks[i] && out[i] == Summarize(ks[i], Group(rows, ks[i]))
  {
    if ks == [] then []
    else Summaries(rows, ks[..|ks| - 1]) + [Summarize(ks[|ks| - 1], Group(rows, ks[|ks| - 1]))]
  }

  /** `cast_and_aggregate` as a whole: casting followed by aggregation. */
  function CastAndAggregate(events: seq<RawEvent>, toDate: string -> Option<Date>): seq<CountryYear> {
    Aggregate(Cast(events, toDate))
  }

  // ---------------------------------------------------------------------------
  // Properties of the aggregation

  /**
   * The output is ordered by (country_id, year), missing values last, and no key
   * appears twice: exactly one row per group.
   */
  lemma AggregateSortedByCountryIdYear(rows: seq<Row>)
    ensures var out := Aggregate(rows);
      forall i, j :: 0 <= i < j < |out| ==>
        CountryIdYearAtMost(out[i].key, out[j].key) && out[i].key != out[j].key
  {
    var out := Aggregate(rows);
    forall i, j | 0 <= i < j < |out|
      ensures CountryIdYearAtMost(out[i].key, out[j].key) && out[i].key != out[j].key
    {
      assert KeyBefore(out[i].key, out[j].key);
      KeyBeforeIrreflexive(out[i].key);
    }
  }

  lemma {:induction false} DyadsAtMostRows(g: seq<Row>)
    ensures |DyadSet(g)| <= CountWhere(g, HasDyad) <= |g|
  {
    if g != [] {
      var init, last := g[..|g| - 1], g[|g| - 1];
      assert g == init + [last];
      DyadsAtMostRows(init);
      if last.dyadNewId.Some? {
        assert DyadSet(g) == DyadSet(init) + {last.dyadNewId.value};
      } else {
        assert DyadSet(g) == DyadSet(init);
      }
    }
  }

  /**
   * Every output row summarises a non-empty group, and its counts are bounded by
   * the group's size; in particular the three violence-type counts together do
   * not exceed the rows of the group (codes other than 1, 2, 3 count for none).
   */
  lemma GroupStatisticsBounded(rows: seq<Row>, i: int)
    requires 0 <= i < |Aggregate(rows)|
    ensures var c := Aggregate(rows)[i];
      var n := |Group(rows, c.key)|;
      && n >= 1
      && 0 <= c.gedEvents <= n
      && 0 <= c.gedEventsFatal <= n
      && 0 <= c.gedDyads <= n
      && 0 <= c.gedStateEvents && 0 <= c.gedNonstateEvents && 0 <= c.gedOnesidedEvents
      && c.gedStateEvents + c.gedNonstateEvents + c.gedOnesidedEvents <= n
  {
    var c := Aggregate(rows)[i];
    var g := Group(rows, c.key);
    var r :| r in rows && KeyOf(r) == c.key;
    assert r in g;
    SummaryBounded(c.key, g);
  }

  /**
   * Each output row, stated over the whole input: its ten columns are the counts,
   * sums and distinct dyads of exactly the input rows carrying its key.
   */
  lemma AggregateRowFromInput(rows: seq<Row>, i: int)
    requires 0 <= i < |Aggregate(rows)|
    ensures var c := Aggregate(rows)[i];
      var k := c.key;
      && c.gedEvents == CountWhere(rows, WithKey(k, HasId))
      && c.gedEventsFatal == CountWhere(rows, WithKey(k, Fatal))
      && c.gedDeathsBest == SumOf(rows, OnKey(k, Best))
      && c.gedDeathsLow == SumOf(rows, OnKey(k, Low))
      && c.gedDeathsHigh == SumOf(rows, OnKey(k, High))
      && c.gedDeathsCivilians == SumOf(rows, OnKey(k, Civilians))
      && c.gedDyads == |set r | r in rows && KeyOf(r) == k && r.dyadNewId.Some? :: r.dyadNewId.value|
      && c.gedStateEvents == CountWhere(rows, WithKey(k, StateBased))
      && c.gedNonstateEvents == CountWhere(rows, WithKey(k, NonState))
      && c.gedOnesidedEvents == CountWhere(rows, WithKey(k, OneSided))
  {
    var c := Aggregate(rows)[i];
    var k := c.key;
    var g := Group(rows, k);
    GroupCount(rows, k, HasId);
    GroupCount(rows, k, Fatal);
    GroupCount(rows, k, StateBased);
    GroupCount(rows, k, NonState);
    GroupCount(rows, k, OneSided);
    GroupSum(rows, k, Best);
    GroupSum(rows, k, Low);
    GroupSum(rows, k, High);
    GroupSum(rows, k, Civilians);
    assert DyadSet(g) == set r | r in rows && KeyOf(r) == k && r.dyadNewId.Some? :: r.dyadNewId.value;
  }

  lemma SummaryBounded(k: GroupKey, g: seq<Row>)
    ensures var c := Summarize(k, g);
      && 0 <= c.gedEvents <= |g|
      && 0 <= c.gedEventsFatal <= |g|
      && 0 <= c.gedDyads <= |g|
      && 0 <= c.gedStateEvents && 0 <= c.gedNonstateEvents && 0 <= c.gedOnesidedEvents
      && c.gedStateEvents + c.gedNonstateEvents + c.gedOnesidedEvents <= |g|
  {
    DyadsAtMostRows(g);
    CountSplit(g, StateBased, NonState, StateOrNonState);
    CountSplit(g, StateOrNonState, OneSided, KnownViolenceType);
  }

  /**
   * `ged_events` counts non-null `id`s, so it is the group's size, and at least
   * `ged_events_fatal`, when every event of the group carries an id.
   */
  lemma {:induction false} EventsCoverFatalWhenIdsPresent(rows: seq<Row>, i: int)
    requires 0 <= i < |Aggregate(rows)|
    requires forall r :: r in rows ==> r.id.Some?
    ensures var c := Aggregate(rows)[i];
      c.gedEvents == |Group(rows, c.key)| && c.gedEvents >= c.gedEventsFatal
  {
    var c := Aggregate(rows)[i];
    AllCounted(Group(rows, c.key), HasId);
  }

  lemma {:induction false} AllCounted(s: seq<Row>, p: Row -> bool)
    requires forall r :: r in s ==> p(r)
    ensures CountWhere(s, p) == |s|
  {
    if s != [] {
      AllCounted(s[..|s| - 1], p);
    }
  }

  /**
   * Without ids the bound fails: one fatal event with a null `id` gives
   * `ged_events == 0` beside `ged_events_fatal == 1`.
   */
  lemma FatalCanExceedEventsWithoutIds()
    ensures var row := Row(None, Some(1), Some("A"), Some(1990), None, None, Some(1), 5, 5, 5, 0);
      var out := Aggregate([row]);
      |out| == 1 && out[0].gedEvents == 0 && out[0].gedEventsFatal == 1
  {
    var row := Row(None, Some(1), Some("A"), Some(1990), None, None, Some(1), 5, 5, 5, 0);
    var rows := [row];
    var k := KeyOf(row);
    assert rows[..0] == [];
    assert KeySet(rows) == {k};
    assert SortedKeys(rows) == [k];
    var out := Aggregate(rows);
    assert |out| == 1 && out[0].key == k;
    assert Group(rows, k) == rows;
    assert CountWhere(rows, HasId) == 0;
    assert CountWhere(rows, Fatal) == 1;
  }

  /**
   * Two events of one country-year, one fatal state-based and one non-fatal
   * non-state: one output row counting two events, one fatal, five deaths.
   */
  lemma TwoEventsOneCountryYear()
    ensures var a := Row(Some(1), Some(1), Some("A"), Some(1990), None, None, Some(1), 5, 0, 0, 0);
      var b := Row(Some(2), Some(1), Some("A"), Some(1990), None, None, Some(2), 0, 0, 0, 0);
      Aggregate([a, b]) == [CountryYear(KeyOf(a), 2, 1, 5, 0, 0, 0, 0, 1, 1, 0)]
  {
    var a := Row(Some(1), Some(1), Some("A"), Some(1990), None, None, Some(1), 5, 0, 0, 0);
    var b := Row(Some(2), Some(1), Some("A"), Some(1990), None, None, Some(2), 0, 0, 0, 0);
    var k := KeyOf(a);
    assert KeyOf(b) == k;
    assert [a, b][..1] == [a];
    assert [a][..0] == [];
    assert SortedKeys([a]) == [k];
    assert SortedKeys([a, b]) == [k];
    assert Group([a], k) == [a];
    var g := Group([a, b], k);
    assert g == [a, b];
    assert g[..1] == [a];
    assert CountWhere(g, HasId) == 2;
    assert CountWhere(g, Fatal) == 1;
    assert [a][..0] == [];
    assert SumOf([a], Best) == 5;
    assert SumOf([a], Low) == 0;
    assert SumOf([a], High) == 0;
    assert SumOf([a], Civilians) == 0;
    assert SumOf(g, Best) == 5;
    assert SumOf(g, Low) == 0 && SumOf(g, High) == 0 && SumOf(g, Civilians) == 0;
    assert DyadSet(g) == {};
    assert CountWhere(g, StateBased) == 1 && CountWhere(g, NonState) == 1 && CountWhere(g, OneSided) == 0;
    assert Summaries([a, b], [k]) == [Summarize(k, g)];
  }

  // Totals are conserved: every row belongs to exactly one group.

  predicate NoDuplicates(ks: seq<GroupKey>) {
    forall i, j :: 0 <= i < j < |ks| ==> ks[i] != ks[j]
  }

  function SumOverKeys(rows: seq<Row>, ks: seq<GroupKey>, f: Row -> int): int {
    if ks == [] then 0 else SumOverKeys(rows, ks[..|ks| - 1], f) + SumOf(Group(rows, ks[|ks| - 1]), f)
  }

  lemma {:induction false} SumOverKeysAddRow(rows: seq<Row>, r: Row, ks: seq<GroupKey>, f: Row -> int)
    requires NoDuplicates(ks)
    ensures SumOverKeys(rows + [r], ks, f) == SumOverKeys(rows, ks, f) + (if KeyOf(r) in ks then f(r) else 0)
  {
    if ks != [] {
      var init, k := ks[..|ks| - 1], ks[|ks| - 1];
      assert ks == init + [k];
      SumOverKeysAddRow(rows, r, init, f);
      assert (rows + [r])[..|rows|] == rows;
      assert KeyOf(r) == k ==> KeyOf(r) !in init;
    }
  }

  lemma {:induction false} GroupsPartitionRows(rows: seq<Row>, ks: seq<GroupKey>, f: Row -> int)
    requires NoDuplicates(ks)
    requires forall r :: r in rows ==> KeyOf(r) in ks
    ensures SumOverKeys(rows, ks, f) == SumOf(rows, f)
  {
    if rows != [] {
      var init, last := rows[..|rows| - 1], rows[|rows| - 1];
      assert rows == init + [last];
      assert last in rows;
      assert forall r :: r in init ==> r in rows;
      GroupsPartitionRows(init, ks, f);
      SumOverKeysAddRow(init, last, ks, f);
      assert SumOf(rows, f) == SumOf(init, f) + f(last);
    } else {
      SumOverNoRows(ks, f);
    }
  }

  lemma {:induction false} SumOverNoRows(ks: seq<GroupKey>, f: Row -> int)
    ensures SumOverKeys([], ks, f) == 0
  {
    if ks != [] {
      SumOverNoRows(ks[..|ks| - 1], f);
    }
  }

  lemma {:induction false} SumOfSummaries(rows: seq<Row>, ks: seq<GroupKey>, out: seq<CountryYear>,
                                           f: Row -> int, g: CountryYear -> int)
    requires |out| == |ks|
    requires forall i :: 0 <= i < |ks| ==> g(out[i]) == SumOf(Group(rows, ks[i]), f)
    ensures SumOf(out, g) == SumOverKeys(rows, ks, f)
  {
    if ks != [] {
      SumOfSummaries(rows, ks[..|ks| - 1], out[..|out| - 1], f, g);
    }
  }

  function EventsOf(c: CountryYear): int { c.gedEvents }
  function FatalOf(c: CountryYear): int { c.gedEventsFatal }
  function DeathsBestOf(c: CountryYear): int { c.gedDeathsBest }
  function DeathsLowOf(c: CountryYear): int { c.gedDeathsLow }
  function DeathsHighOf(c: CountryYear): int { c.gedDeathsHigh }
  function DeathsCiviliansOf(c: CountryYear): int { c.gedDeathsCivilians }

  /**
   * Summed over all output rows, each column equals the same quantity over the
   * whole input: no event is dropped by the group-by and none is counted twice.
   */
  lemma AggregateConservesTotals(rows: seq<Row>)
    ensures var out := Aggregate(rows);
      && SumOf(out, EventsOf) == CountWhere(rows, HasId)
      && SumOf(out, FatalOf) == CountWhere(rows, Fatal)
      && SumOf(out, DeathsBestOf) == SumOf(rows, Best)
      && SumOf(out, DeathsLowOf) == SumOf(rows, Low)
      && SumOf(out, DeathsHighOf) == SumOf(rows, High)
      && SumOf(out, DeathsCiviliansOf) == SumOf(rows, Civilians)
  {
    SortedKeysCoverRows(rows);
    CountTotal(rows, HasId, EventsOf);
    CountTotal(rows, Fatal, FatalOf);
    ColumnTotal(rows, SortedKeys(rows), Best, DeathsBestOf);
    ColumnTotal(rows, SortedKeys(rows), Low, DeathsLowOf);
    ColumnTotal(rows, SortedKeys(rows), High, DeathsHighOf);
    ColumnTotal(rows, SortedKeys(rows), Civilians, DeathsCiviliansOf);
  }

  lemma CountTotal(rows: seq<Row>, p: Row -> bool, g: CountryYear -> int)
    requires forall k, n :: g(Summarize(k, n)) == CountWhere(n, p)
    ensures SumOf(Aggregate(rows), g) == CountWhere(rows, p)
  {
    var ks := SortedKeys(rows);
    SortedKeysCoverRows(rows);
    var out := Summaries(rows, ks);
    forall i | 0 <= i < |ks| ensures g(out[i]) == SumOf(Group(rows, ks[i]), Indicator(p)) {
      CountIsSum(Group(rows, ks[i]), p);
    }
    ColumnTotal(rows, ks, Indicator(p), g);
    CountIsSum(rows, p);
  }

  lemma SortedKeysCoverRows(rows: seq<Row>)
    ensures NoDuplicates(SortedKeys(rows))
    ensures forall r :: r in rows ==> KeyOf(r) in SortedKeys(rows)
  {
    var ks := SortedKeys(rows);
    forall i, j | 0 <= i < j < |ks| ensures ks[i] != ks[j] {
      KeyBeforeIrreflexive(ks[i]);
    }
  }

  lemma ColumnTotal(rows: seq<Row>, ks: seq<GroupKey>, f: Row -> int, g: CountryYear -> int)
    requires ks == SortedKeys(rows) && NoDuplicates(ks)
    requires forall r :: r in rows ==> KeyOf(r) in ks
    requires forall i :: 0 <= i < |ks| ==> g(Summaries(rows, ks)[i]) == SumOf(Group(rows, ks[i]), f)
    ensures SumOf(Aggregate(rows), g) == SumOf(rows, f)
  {
    SumOfSummaries(rows, ks, Summaries(rows, ks), f, g);
    GroupsPartitionRows(rows, ks, f);
  }
}
