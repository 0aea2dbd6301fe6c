/**
  The summaries the report draws from the collected records
  (analyse_fichier_HAR.py lines 41-80; version_sujet/analyse_fichier_HAR.py
  lines 40-79 are the same): the records are grouped by country or by
  second-level domain, each group gets the sum of a byte size or its number
  of rows, the groups are sorted by that value in ascending order, and the
  domain rankings keep only the last 15. The number of distinct domains is
  also reported.

  The dataframe is the sequence of records; a group-by result is a sequence
  of (key, value) groups. Sizes stay whole bytes.
*/
module Report {
  import opened Har

  /** The column a report groups by. */
  datatype Column = Country | Domain

  /** What a group's value adds up: the request bytes, the response bytes, or one per exchange. */
  datatype Measure = RequestSize | ResponseSize | ExchangeCount

  /** One bar of a chart: a key of the grouping column and its value. */
  datatype Group = Group(key: string, value: int)

  function KeyOf(column: Column, r: Record): string {
    match column
    case Country => r.country
    case Domain => r.domain
  }

  function AmountOf(measure: Measure, r: Record): int {
    match measure
    case RequestSize => r.requestSize
    case ResponseSize => r.responseSize
    case ExchangeCount => 1
  }

  /** The measure summed over all records. */
  function Total(records: seq<Record>, measure: Measure): int
    decreases |records|
  {
    if records == [] then 0 else AmountOf(measure, records[0]) + Total(records[1..], measure)
  }

  /** Counting rows adds one per record. */
  lemma {:induction false} TotalCount(records: seq<Record>)
    ensures Total(records, ExchangeCount) == |records|
    decreases |records|
  {
    if records != [] {
      TotalCount(records[1..]);
    }
  }

  /** The records whose column holds `key`, in order. */
  function Where(records: seq<Record>, column: Column, key: string): (rows: seq<Record>)
    ensures |rows| <= |records|
    ensures forall r :: r in rows <==> r in records && KeyOf(column, r) == key
    ensures forall r :: multiset(rows)[r] == if KeyOf(column, r) == key then multiset(records)[r] else 0
    decreases |records|
  {
    if records == [] then []
    else
      var head := records[0];
      var rest := Where(records[1..], column, key);
      assert records == [head] + records[1..];
      assert multiset(records) == multiset{head} + multiset(records[1..]);
      if KeyOf(column, head) == key then
        assert multiset([head] + rest) == multiset{head} + multiset(rest);
        [head] + rest
      else
        rest
  }

  /** The value of the group of `key`: the measure over exactly the records with that key. */
  function GroupValue(records: seq<Record>, column: Column, measure: Measure, key: string): int {
    Total(Where(records, column, key), measure)
  }

  /** A count group's value is its number of rows. */
  lemma {:induction false} CountIsRows(records: seq<Record>, column: Column, key: string)
    ensures GroupValue(records, column, ExchangeCount, key) == |Where(records, column, key)|
  {
    TotalCount(Where(records, column, key));
  }

  /** The keys that occur in the column. */
  function KeySet(records: seq<Record>, column: Column): set<string> {
    set r | r in records :: KeyOf(column, r)
  }

  predicate NoDup(keys: seq<string>) {
    forall i, j :: 0 <= i < j < |keys| ==> keys[i] != keys[j]
  }

  /** The distinct keys in order of first appearance, as `pd.unique` gives them. */
  function UniqueKeys(records: seq<Record>, column: Column): (keys: seq<string>)
    ensures NoDup(keys)
    ensures forall k :: k in keys <==> k in KeySet(records, column)
    decreases |records|
  {
    if records == [] then []
    else
      var n := |records|;
      var seen := UniqueKeys(records[..n - 1], column);
      var k := KeyOf(column, records[n - 1]);
      assert forall r :: r in records <==> r in records[..n - 1] || r == records[n - 1] by {
        assert records == records[..n - 1] + [records[n - 1]];
      }
      if k in seen then seen else seen + [k]
  }

  /** A sequence without repeats has as many elements as its set. */
  lemma {:induction false} NoDupCard(keys: seq<string>)
    requires NoDup(keys)
    ensures |set k | k in keys| == |keys|
    decreases |keys|
  {
    if keys != [] {
      var rest := keys[1..];
      NoDupCard(rest);
      assert (set k | k in keys) == {keys[0]} + (set k | k in rest);
      assert keys[0] !in rest;
    }
  }

  /**
    The number of second-level domains contacted (analyse_fichier_HAR.py line
    42): the number of distinct domain values among the records.
  */
  function DistinctDomainCount(records: seq<Record>): (n: nat)
    ensures n == |KeySet(records, Domain)|
    ensures n <= |records|
  {
    var keys := UniqueKeys(records, Domain);
    NoDupCard(keys);
    assert (set k | k in keys) == KeySet(records, Domain);
    KeySetSize(records, Domain);
    |keys|
  }

  /** There are no more distinct keys than records. */
  lemma {:induction false} KeySetSize(records: seq<Record>, column: Column)
    ensures |KeySet(records, column)| <= |records|
    decreases |records|
  {
    if records != [] {
      var rest := records[1..];
      KeySetSize(rest, column);
      assert KeySet(records, column) == {KeyOf(column, records[0])} + KeySet(rest, column) by {
        assert forall r :: r in records <==> r == records[0] || r in rest by {
          assert records == [records[0]] + rest;
        }
      }
    }
  }

  /** No two groups share a key. */
  predicate DistinctKeys(groups: seq<Group>) {
    forall i, j :: 0 <= i < j < |groups| ==> groups[i].key != groups[j].key
  }

  function SumValues(groups: seq<Group>): int
    decreases |groups|
  {
    if groups == [] then 0 else groups[0].value + SumValues(groups[1..])
  }

  /** One group per key of `keys`, in that order, each with its value. */
  function GroupsOf(records: seq<Record>, column: Column, measure: Measure, keys: seq<string>): (groups: seq<Group>)
    ensures |groups| == |keys|
    ensures forall i :: 0 <= i < |groups| ==> groups[i] == Group(keys[i], GroupValue(records, column, measure, keys[i]))
    decreases |keys|
  {
    if keys == [] then []
    else [Group(keys[0], GroupValue(records, column, measure, keys[0]))] + GroupsOf(records, column, measure, keys[1..])
  }

  /** A group is listed exactly when its key is one of `keys` and its value is that key's value; keys without repeats give distinct groups. */
  lemma GroupsOfMembers(records: seq<Record>, column: Column, measure: Measure, keys: seq<string>)
    ensures forall g :: g in GroupsOf(records, column, measure, keys) <==>
      g.key in keys && g.value == GroupValue(records, column, measure, g.key)
    ensures NoDup(keys) ==> DistinctKeys(GroupsOf(records, column, measure, keys))
  {
    var groups := GroupsOf(records, column, measure, keys);
    forall g ensures g in groups <==> g.key in keys && g.value == GroupValue(records, column, measure, g.key) {
      if g.key in keys && g.value == GroupValue(records, column, measure, g.key) {
        var i :| 0 <= i < |keys| && keys[i] == g.key;
        assert groups[i] == g;
      }
    }
  }

  /**
    `df.groupby(column)[...].sum()` or `.count()`: one group per distinct key
    of the column, valued by the measure over the records with that key.
  */
  function GroupBy(records: seq<Record>, column: Column, measure: Measure): (groups: seq<Group>)
    ensures DistinctKeys(groups)
    ensures forall g :: g in groups <==> g.key in KeySet(records, column) && g.value == GroupValue(records, column, measure, g.key)
    ensures |groups| == |KeySet(records, column)|
  {
    var keys := UniqueKeys(records, column);
    NoDupCard(keys);
    assert (set k | k in keys) == KeySet(records, column);
    GroupsOfMembers(records, column, measure, keys);
    GroupsOf(records, column, measure, keys)
  }

  /** Adding a record in front adds its amount to the group of its key, if that key is listed, and nothing elsewhere. */
  lemma {:induction false} GroupsOfCons(r: Record, rest: seq<Record>, column: Column, measure: Measure, keys: seq<string>)
    requires NoDup(keys)
    ensures SumValues(GroupsOf([r] + rest, column, measure, keys)) ==
      SumValues(GroupsOf(rest, column, measure, keys)) + (if KeyOf(column, r) in keys then AmountOf(measure, r) else 0)
    decreases |keys|
  {
    if keys != [] {
      var records := [r] + rest;
      GroupsOfCons(r, rest, column, measure, keys[1..]);
      GroupValueCons(r, rest, column, measure, keys[0]);
      assert GroupsOf(records, column, measure, keys)[1..] == GroupsOf(records, column, measure, keys[1..]);
      assert GroupsOf(rest, column, measure, keys)[1..] == GroupsOf(rest, column, measure, keys[1..]);
      assert keys == [keys[0]] + keys[1..];
      assert KeyOf(column, r) == keys[0] ==> KeyOf(column, r) !in keys[1..];
    }
  }

  /** Adding a record in front adds its amount to the value of its own key only. */
  lemma GroupValueCons(r: Record, rest: seq<Record>, column: Column, measure: Measure, key: string)
    ensures GroupValue([r] + rest, column, measure, key) ==
      GroupValue(rest, column, measure, key) + (if KeyOf(column, r) == key then AmountOf(measure, r) else 0)
  {
    var records := [r] + rest;
    assert records[0] == r && records[1..] == rest;
    var rows := Where(rest, column, key);
    if KeyOf(column, r) == key {
      assert ([r] + rows)[1..] == rows;
    }
  }

  /**
    The groups partition the records: over keys that cover every record and
    do not repeat, the group values add up to the total.
  */
  lemma {:induction false} GroupsOfPartition(records: seq<Record>, column: Column, measure: Measure, keys: seq<string>)
    requires NoDup(keys)
    requires forall r :: r in records ==> KeyOf(column, r) in keys
    ensures SumValues(GroupsOf(records, column, measure, keys)) == Total(records, measure)
    decreases |records|
  {
    if records == [] {
      GroupsOfEmpty(column, measure, keys);
    } else {
      var rest := records[1..];
      assert records == [records[0]] + rest;
      GroupsOfCons(records[0], rest, column, measure, keys);
      GroupsOfPartition(rest, column, measure, keys);
    }
  }

  lemma {:induction false} GroupsOfEmpty(column: Column, measure: Measure, keys: seq<string>)
    ensures SumValues(GroupsOf([], column, measure, keys)) == 0
    decreases |keys|
  {
    if keys != [] {
      GroupsOfEmpty(column, measure, keys[1..]);
    }
  }

  /**
    The group values of a group-by add up to the measure over all records
    (analyse_fichier_HAR.py lines 49, 54, 74): byte sums add up to the total
    size, and row counts to the number of records.
  */
  lemma {:induction false} GroupByPartition(records: seq<Record>, column: Column, measure: Measure)
    ensures SumValues(GroupBy(records, column, measure)) == Total(records, measure)
    ensures SumValues(GroupBy(records, column, ExchangeCount)) == |records|
  {
    var keys := UniqueKeys(records, column);
    GroupsOfPartition(records, column, measure, keys);
    GroupsOfPartition(records, column, ExchangeCount, keys);
    TotalCount(records);
  }

  predicate SortedByValue(groups: seq<Group>) {
    forall i, j :: 0 <= i < j < |groups| ==> groups[i].value <= groups[j].value
  }

  /** Every value in `groups` is at least `v`. */
  predicate AtLeast(groups: seq<Group>, v: int) {
    forall i :: 0 <= i < |groups| ==> v <= groups[i].value
  }

  /** A lower bound of the values survives adding a group that respects it. */
  lemma AtLeastPermutation(result: seq<Group>, groups: seq<Group>, g: Group, v: int)
    requires multiset(result) == multiset(groups) + multiset{g}
    requires AtLeast(groups, v) && v <= g.value
    ensures AtLeast(result, v)
  {
    forall i | 0 <= i < |result| ensures v <= result[i].value {
      assert result[i] in multiset(result);
      if result[i] != g {
        assert result[i] in multiset(groups);
      }
    }
  }

  /** Insert a group into a sorted sequence of groups. */
  function Insert(g: Group, sorted: seq<Group>): (result: seq<Group>)
    requires SortedByValue(sorted)
    ensures SortedByValue(result)
    ensures multiset(result) == multiset(sorted) + multiset{g}
    decreases |sorted|
  {
    if sorted == [] || g.value <= sorted[0].value then
      SortedCons(g, sorted);
      [g] + sorted
    else
      var first := sorted[0];
      var rest := Insert(g, sorted[1..]);
      assert sorted == [first] + sorted[1..];
      AtLeastPermutation(rest, sorted[1..], g, first.value);
      SortedCons(first, rest);
      assert multiset([first] + rest) == multiset{first} + multiset(rest);
      [first] + rest
  }

  /** A group no larger than the first of a sorted sequence can go in front of it. */
  lemma SortedCons(g: Group, sorted: seq<Group>)
    requires SortedByValue(sorted)
    requires AtLeast(sorted, g.value)
    ensures SortedByValue([g] + sorted)
  {
  }

  /** Inserting adds the group's value to the sum. */
  lemma {:induction false} InsertSum(g: Group, sorted: seq<Group>)
    requires SortedByValue(sorted)
    ensures SumValues(Insert(g, sorted)) == g.value + SumValues(sorted)
    decreases |sorted|
  {
    if sorted != [] && g.value > sorted[0].value {
      InsertSum(g, sorted[1..]);
      assert ([sorted[0]] + Insert(g, sorted[1..]))[1..] == Insert(g, sorted[1..]);
    }
  }

  /** Inserting a group whose key is new keeps the keys distinct. */
  lemma {:induction false} InsertDistinct(g: Group, sorted: seq<Group>)
    requires SortedByValue(sorted) && DistinctKeys(sorted)
    requires forall i :: 0 <= i < |sorted| ==> sorted[i].key != g.key
    ensures DistinctKeys(Insert(g, sorted))
    decreases |sorted|
  {
    if sorted != [] && g.value > sorted[0].value {
      var rest := Insert(g, sorted[1..]);
      InsertDistinct(g, sorted[1..]);
      forall i | 0 <= i < |rest| ensures rest[i].key != sorted[0].key {
        assert rest[i] in multiset(rest);
        if rest[i] != g {
          assert rest[i] in multiset(sorted[1..]);
          var j :| 0 <= j < |sorted[1..]| && sorted[1..][j] == rest[i];
          assert sorted[j + 1] == rest[i];
        }
      }
    }
  }

  /**
    `sort_values(ascending=True)`: the groups reordered so that the values
    never decrease. Ties may come out in any order, so only that the result
    is sorted and a permutation is promised.
  */
  function SortAscending(groups: seq<Group>): (sorted: seq<Group>)
    ensures SortedByValue(sorted)
    ensures multiset(sorted) == multiset(groups)
    decreases |groups|
  {
    if groups == [] then []
    else
      assert groups == [groups[0]] + groups[1..];
      Insert(groups[0], SortAscending(groups[1..]))
  }

  /** Sorting keeps the sum of the values. */
  lemma {:induction false} SortSum(groups: seq<Group>)
    ensures SumValues(SortAscending(groups)) == SumValues(groups)
    decreases |groups|
  {
    if groups != [] {
      SortSum(groups[1..]);
      InsertSum(groups[0], SortAscending(groups[1..]));
    }
  }

  /** Sorting keeps the groups and their number. */
  lemma SortMembers(groups: seq<Group>)
    ensures |SortAscending(groups)| == |groups|
    ensures forall g :: g in SortAscending(groups) <==> g in groups
  {
    var sorted := SortAscending(groups);
    assert |multiset(sorted)| == |multiset(groups)|;
    assert forall g :: g in sorted <==> g in multiset(sorted);
  }

  /** Sorting keeps distinct keys distinct. */
  lemma {:induction false} SortDistinct(groups: seq<Group>)
    requires DistinctKeys(groups)
    ensures DistinctKeys(SortAscending(groups))
    decreases |groups|
  {
    if groups != [] {
      var rest := SortAscending(groups[1..]);
      SortDistinct(groups[1..]);
      forall i | 0 <= i < |rest| ensures rest[i].key != groups[0].key {
        assert rest[i] in multiset(groups[1..]);
        var j :| 0 <= j < |groups[1..]| && groups[1..][j] == rest[i];
        assert groups[j + 1] == rest[i];
      }
      InsertDistinct(groups[0], rest);
    }
  }

  /** `tail(n)`: the last `n` elements, or all of them when there are fewer. */
  function Tail(groups: seq<Group>, n: nat): (last: seq<Group>)
    ensures |last| == if |groups| <= n then |groups| else n
    ensures last == groups[|groups| - |last|..]
  {
    if |groups| <= n then groups else groups[|groups| - n..]
  }

  /** The last groups of a sorted sequence with distinct keys are sorted, have distinct keys, and come from it. */
  lemma TailOfSorted(groups: seq<Group>, n: nat)
    requires SortedByValue(groups) && DistinctKeys(groups)
    ensures SortedByValue(Tail(groups, n)) && DistinctKeys(Tail(groups, n))
    ensures forall g :: g in Tail(groups, n) ==> g in groups
  {
  }

  /** The number of bars a domain chart keeps. */
  const TopDomains: nat := 15

  /**
    A country chart (analyse_fichier_HAR.py lines 49, 54, 69 and 74): one
    group per distinct country, valued by the measure over that country's
    records, in ascending order of value; its values add up to the total
    that the percentage labels divide by.
  */
  function CountryReport(records: seq<Record>, measure: Measure): (report: seq<Group>)
    ensures SortedByValue(report)
    ensures DistinctKeys(report)
    ensures forall g :: g in report <==> g.key in KeySet(records, Country) && g.value == GroupValue(records, Country, measure, g.key)
    ensures |report| == |KeySet(records, Country)|
    ensures SumValues(report) == Total(records, measure)
  {
    var groups := GroupBy(records, Country, measure);
    GroupByPartition(records, Country, measure);
    SortSum(groups);
    SortDistinct(groups);
    SortMembers(groups);
    SortAscending(groups)
  }

  /**
    A domain chart (analyse_fichier_HAR.py lines 59, 64 and 79): the domain
    groups sorted ascending, of which only the last 15 are kept. Every kept
    group is a genuine domain group, and every group left out has a value
    no larger than any kept one.
  */
  function DomainReport(records: seq<Record>, measure: Measure): (report: seq<Group>)
    ensures |report| == if |KeySet(records, Domain)| <= TopDomains then |KeySet(records, Domain)| else TopDomains
    ensures SortedByValue(report)
    ensures DistinctKeys(report)
    ensures forall g :: g in report ==> g.key in KeySet(records, Domain) && g.value == GroupValue(records, Domain, measure, g.key)
  {
    var groups := GroupBy(records, Domain, measure);
    var ranked := SortAscending(groups);
    var report := Tail(ranked, TopDomains);
    SortDistinct(groups);
    SortMembers(groups);
    TailOfSorted(ranked, TopDomains);
    report
  }

  /**
    The domain chart keeps the largest groups: every domain group left out
    has a value no larger than any group kept.
  */
  lemma {:induction false} DomainReportKeepsLargest(records: seq<Record>, measure: Measure)
    ensures forall g, h ::
      g in GroupBy(records, Domain, measure) && g !in DomainReport(records, measure) && h in DomainReport(records, measure)
      ==> g.value <= h.value
  {
    var groups := GroupBy(records, Domain, measure);
    var ranked := SortAscending(groups);
    assert DomainReport(records, measure) == Tail(ranked, TopDomains);
    TailKeepsLargest(groups, ranked, TopDomains);
  }

  /** Of a sorted permutation of `groups`, a group left out of the tail is no larger than a group in it. */
  lemma TailKeepsLargest(groups: seq<Group>, ranked: seq<Group>, n: nat)
    requires SortedByValue(ranked) && multiset(ranked) == multiset(groups)
    ensures forall g, h :: g in groups && g !in Tail(ranked, n) && h in Tail(ranked, n) ==> g.value <= h.value
  {
    forall g, h | g in groups && g !in Tail(ranked, n) && h in Tail(ranked, n) ensures g.value <= h.value {
      assert g in multiset(groups);
      TailPairOrdered(ranked, n, g, h);
    }
  }

  /** In a sorted sequence, a group outside the tail sits before every group of the tail, so it is no larger. */
  lemma TailPairOrdered(ranked: seq<Group>, n: nat, g: Group, h: Group)
    requires SortedByValue(ranked)
    requires g in ranked && g !in Tail(ranked, n) && h in Tail(ranked, n)
    ensures g.value <= h.value
  {
    var last := Tail(ranked, n);
    var cut := |ranked| - |last|;
    var i :| 0 <= i < |ranked| && ranked[i] == g;
    var k :| 0 <= k < |last| && last[k] == h;
    assert ranked[cut + k] == h;
    if cut <= i {
      assert false;
    }
  }

  /**
    The exchange counts of a country chart add up to the number of records,
    the total its percentage labels divide by (version_sujet/analyse_fichier_HAR.py
    lines 73 and 94).
  */
  lemma CountryCountsAddUp(records: seq<Record>)
    ensures SumValues(CountryReport(records, ExchangeCount)) == |records|
  {
    TotalCount(records);
  }

  /** With a single country, its chart is one bar holding the whole measure. */
  lemma SingleCountryReport(records: seq<Record>, measure: Measure, country: string)
    requires records != []
    requires forall r :: r in records ==> r.country == country
    ensures CountryReport(records, measure) == [Group(country, Total(records, measure))]
  {
    SingleKeySet(records, country);
    WhereAll(records, Country, country);
    var report := CountryReport(records, measure);
    var g := report[0];
    assert g in report;
    assert g == Group(country, Total(records, measure));
    assert report == [g];
  }

  /** Records that all share one country have that country as their only key. */
  lemma SingleKeySet(records: seq<Record>, country: string)
    requires records != []
    requires forall r :: r in records ==> r.country == country
    ensures KeySet(records, Country) == {country}
  {
    assert records[0] in records;
    assert KeyOf(Country, records[0]) == country;
  }

  /** When every record has the key, selecting by that key keeps them all. */
  lemma {:induction false} WhereAll(records: seq<Record>, column: Column, key: string)
    requires forall i :: 0 <= i < |records| ==> KeyOf(column, records[i]) == key
    ensures Where(records, column, key) == records
    decreases |records|
  {
    if records != [] {
      var rest := records[1..];
      assert KeyOf(column, records[0]) == key;
      WhereAll(rest, column, key);
      assert [records[0]] + rest == records;
    }
  }
}
