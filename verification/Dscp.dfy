/**
 Histograms of the received TOS byte: per run, and merged over the runs of a condition.
 A Python dictionary of counts is modelled by its keys in insertion order and the multiset of what it counted.
 */
module Dscp {
  import opened Wrappers
  import opened Sizes

  datatype Dict = Dict(keys: seq<int>, count: multiset<int>)

  const EMPTY := Dict([], multiset{})

  predicate Distinct(keys: seq<int>) { forall i, j | 0 <= i < j < |keys| :: keys[i] != keys[j] }

  /** The keys are the counted values, each once. */
  ghost predicate Valid(d: Dict) {
    && (forall i | 0 <= i < |d.keys| :: d.count[d.keys[i]] > 0)
    && Distinct(d.keys)
    && (forall k | d.count[k] > 0 :: k in d.keys)
  }

  /** Equality of Python dictionaries: the same items, in whatever order. */
  ghost predicate SameItems(a: Dict, b: Dict) {
    Valid(a) && Valid(b) && a.count == b.count && forall k :: k in a.keys <==> k in b.keys
  }

  // ----- One run -----

  predicate StrictlyAscending(s: seq<int>) { forall i, j | 0 <= i < j < |s| :: s[i] < s[j] }

  function InsertKey(keys: seq<int>, k: int): seq<int> {
    if keys == [] || k < keys[0] then [k] + keys
    else if k == keys[0] then keys
    else [keys[0]] + InsertKey(keys[1..], k)
  }

  function SortedDistinct(s: seq<int>): seq<int> {
    if s == [] then [] else InsertKey(SortedDistinct(s[1..]), s[0])
  }

  /** `np.unique` with counts. */
  function Histogram(s: seq<int>): Dict { Dict(SortedDistinct(s), multiset(s)) }

  lemma {:induction false} InsertKeyMembers(keys: seq<int>, k: int)
    ensures k in InsertKey(keys, k)
    ensures forall i | 0 <= i < |keys| :: keys[i] in InsertKey(keys, k)
    ensures forall i | 0 <= i < |InsertKey(keys, k)| :: InsertKey(keys, k)[i] == k || InsertKey(keys, k)[i] in keys
  {
    if keys != [] && k > keys[0] {
      InsertKeyMembers(keys[1..], k);
      var rest := InsertKey(keys[1..], k);
      forall i | 0 < i < |keys| ensures keys[i] in rest {
        assert keys[i] == keys[1..][i - 1];
      }
      forall i | 0 <= i < |rest| ensures rest[i] == k || rest[i] in keys {
        assert rest[i] == k || rest[i] in keys[1..];
      }
    }
  }

  lemma {:induction false} InsertKeyAscends(keys: seq<int>, k: int)
    requires StrictlyAscending(keys)
    ensures StrictlyAscending(InsertKey(keys, k))
  {
    if keys != [] && k > keys[0] {
      InsertKeyAscends(keys[1..], k);
      InsertKeyMembers(keys[1..], k);
      var rest := InsertKey(keys[1..], k);
      forall i | 0 <= i < |rest| ensures keys[0] < rest[i] {
        assert rest[i] == k || rest[i] in keys[1..];
      }
    }
  }

  /** Distinct values in ascending order. */
  lemma {:induction false} SortedDistinctAscends(s: seq<int>)
    ensures StrictlyAscending(SortedDistinct(s))
    ensures forall i | 0 <= i < |s| :: s[i] in SortedDistinct(s)
    ensures forall i | 0 <= i < |SortedDistinct(s)| :: SortedDistinct(s)[i] in s
  {
    if s != [] {
      var rest := SortedDistinct(s[1..]);
      SortedDistinctAscends(s[1..]);
      InsertKeyAscends(rest, s[0]);
      InsertKeyMembers(rest, s[0]);
      forall i | 0 < i < |s| ensures s[i] in SortedDistinct(s) {
        assert s[i] == s[1..][i - 1];
        var j :| 0 <= j < |rest| && rest[j] == s[i];
      }
      forall i | 0 <= i < |SortedDistinct(s)| ensures SortedDistinct(s)[i] in s {
        if SortedDistinct(s)[i] != s[0] {
          var j :| 0 <= j < |rest| && rest[j] == SortedDistinct(s)[i];
          assert rest[j] in s[1..];
        }
      }
    }
  }

  lemma HistogramValid(s: seq<int>)
    ensures Valid(Histogram(s)) && StrictlyAscending(Histogram(s).keys)
  {
    SortedDistinctAscends(s);
    var d := Histogram(s);
    forall i | 0 <= i < |d.keys| ensures d.count[d.keys[i]] > 0 {
      assert d.keys[i] in s;
    }
    forall k | d.count[k] > 0 ensures k in d.keys {
      assert k in multiset(s);
      var i :| 0 <= i < |s| && s[i] == k;
    }
  }

  /** The first key, in the dictionary's order, with the largest count: `max(d, key=d.get)`, and `argmax` on sorted
      keys. */
  function Dominant(d: Dict): Option<int> {
    if d.keys == [] then None else Some(FirstMax(d.keys, d.count))
  }

  function FirstMax(keys: seq<int>, count: multiset<int>): int
    requires keys != []
  {
    var n := |keys| - 1;
    if n == 0 then keys[0]
    else
      var m := FirstMax(keys[..n], count);
      if count[keys[n]] > count[m] then keys[n] else m
  }

  datatype Field = DscpField | EcnField | TosField

  /** `tos >> 2`, `tos & 3`, or the byte itself. */
  function Bits(field: Field, t: int): int {
    match field
    case DscpField => t / 4
    case EcnField => t % 4
    case TosField => t
  }

  function Map(field: Field, s: seq<int>): (r: seq<int>)
    ensures |r| == |s|
  {
    seq(|s|, i requires 0 <= i < |s| => Bits(field, s[i]))
  }

  /** The rows that have a TOS value. */
  function ValidRows(tos: seq<int>): (rows: seq<int>)
    ensures |rows| <= |tos|
  {
    if tos == [] then []
    else
      var n := |tos| - 1;
      ValidRows(tos[..n]) + if tos[n] >= 0 then [tos[n]] else []
  }

  function FieldHistogram(field: Field, tos: seq<int>): Dict { Histogram(Map(field, ValidRows(tos))) }

  datatype Distribution = Distribution(dscp: Dict, ecn: Dict, tos: Dict, missing: nat, dominant: Option<int>) {
    function Get(field: Field): Dict {
      match field
      case DscpField => dscp
      case EcnField => ecn
      case TosField => tos
    }
  }

  /** `dscp_distribution`; None for a run without a tos column. */
  function Distribute(tos: Option<seq<int>>): Option<Distribution> {
    if tos.None? then None
    else
      var t := tos.value;
      Some(Distribution(FieldHistogram(DscpField, t), FieldHistogram(EcnField, t), FieldHistogram(TosField, t),
                        |t| - |ValidRows(t)|, Dominant(FieldHistogram(DscpField, t))))
  }

  // ----- DSCP and ECN as images of the TOS histogram -----

  /** The counts of the TOS values whose field is `y`, added up. */
  function ImageCount(keys: seq<int>, count: multiset<int>, field: Field, y: int): nat {
    if keys == [] then 0
    else ImageCount(keys[1..], count, field, y) + if Bits(field, keys[0]) == y then count[keys[0]] else 0
  }

  lemma {:induction false} ImageCountBump(keys: seq<int>, count: multiset<int>, field: Field, y: int, x: int)
    requires StrictlyAscending(keys)
    ensures ImageCount(keys, count + multiset{x}, field, y) ==
            ImageCount(keys, count, field, y) + if x in keys && Bits(field, x) == y then 1 else 0
  {
    if keys != [] {
      ImageCountBump(keys[1..], count, field, y, x);
      assert forall i | 0 <= i < |keys[1..]| :: keys[1..][i] == keys[i + 1];
      assert x in keys <==> x == keys[0] || x in keys[1..];
    }
  }

  lemma {:induction false} ImageCountNone(keys: seq<int>, field: Field, y: int)
    ensures ImageCount(keys, multiset{}, field, y) == 0
  {
    if keys != [] {
      ImageCountNone(keys[1..], field, y);
    }
  }

  lemma {:induction false} ImageOf(keys: seq<int>, s: seq<int>, field: Field, y: int)
    requires StrictlyAscending(keys) && forall i | 0 <= i < |s| :: s[i] in keys
    ensures multiset(Map(field, s))[y] == ImageCount(keys, multiset(s), field, y)
  {
    if s == [] {
      ImageCountNone(keys, field, y);
    } else {
      var n := |s| - 1;
      ImageOf(keys, s[..n], field, y);
      ImageCountBump(keys, multiset(s[..n]), field, y, s[n]);
      assert s == s[..n] + [s[n]];
      assert Map(field, s) == Map(field, s[..n]) + [Bits(field, s[n])];
    }
  }

  /** The DSCP and ECN histograms are the TOS histogram seen through >> 2 and & 3. */
  lemma FieldsAreImages(tos: seq<int>, field: Field, y: int)
    ensures var d := Distribute(Some(tos)).value;
            d.Get(field).count[y] == ImageCount(d.tos.keys, d.tos.count, field, y)
  {
    var rows := ValidRows(tos);
    SortedDistinctAscends(rows);
    assert Map(TosField, rows) == rows;
    ImageOf(SortedDistinct(rows), rows, field, y);
  }

  // ----- Merging runs -----

  /** The keys of `ks` not seen before. */
  function Fresh(ks: seq<int>, seen: seq<int>): seq<int> {
    if ks == [] then []
    else
      var n := |ks| - 1;
      Fresh(ks[..n], seen) + if ks[n] in seen then [] else [ks[n]]
  }

  /** Counts add up; new keys go behind the old ones. */
  function Merge(a: Dict, b: Dict): Dict {
    Dict(a.keys + Fresh(b.keys, a.keys), a.count + b.count)
  }

  /** `v` times the value `k`. */
  function Item(k: int, v: nat): multiset<int> { multiset{}[k := v] }

  /** The counts of the first `i` items. */
  function Items(d: Dict, i: nat): multiset<int>
    requires i <= |d.keys|
  {
    if i == 0 then multiset{} else Items(d, i - 1) + Item(d.keys[i - 1], d.count[d.keys[i - 1]])
  }

  lemma {:induction false} ItemsCount(d: Dict, i: nat, k: int)
    requires Valid(d) && i <= |d.keys|
    ensures Items(d, i)[k] == if k in d.keys[..i] then d.count[k] else 0
  {
    if i > 0 {
      ItemsCount(d, i - 1, k);
      assert d.keys[..i] == d.keys[..i - 1] + [d.keys[i - 1]];
    }
  }

  /** A dictionary is the sum of its items. */
  lemma ItemsAreCounts(d: Dict)
    requires Valid(d)
    ensures Items(d, |d.keys|) == d.count
  {
    forall k: int ensures Items(d, |d.keys|)[k] == d.count[k] {
      ItemsCount(d, |d.keys|, k);
      assert d.keys[..|d.keys|] == d.keys;
    }
  }

  /** `sum(d.values())` over the first `i` items. */
  function SumValues(d: Dict, i: nat): nat
    requires i <= |d.keys|
  {
    if i == 0 then 0 else SumValues(d, i - 1) + d.count[d.keys[i - 1]]
  }

  function Total(d: Dict): nat { SumValues(d, |d.keys|) }

  lemma {:induction false} ItemsSize(d: Dict, i: nat)
    requires i <= |d.keys|
    ensures |Items(d, i)| == SumValues(d, i)
  {
    if i > 0 {
      ItemsSize(d, i - 1);
    }
  }

  /** The values of a dictionary add up to the number of things counted. */
  lemma TotalIsSize(d: Dict)
    requires Valid(d)
    ensures Total(d) == |d.count|
  {
    ItemsSize(d, |d.keys|);
    ItemsAreCounts(d);
  }

  /** The values of each histogram add up to the rows that are not missing. */
  lemma TotalsMatch(tos: seq<int>, field: Field)
    ensures var d := Distribute(Some(tos)).value;
            Total(d.Get(field)) + d.missing == |tos|
  {
    HistogramValid(Map(field, ValidRows(tos)));
    TotalIsSize(FieldHistogram(field, tos));
  }

  /** `d[k] = d.get(k, 0) + v` */
  function AddItem(d: Dict, k: int, v: nat): Dict {
    Dict(if k in d.keys then d.keys else d.keys + [k], d.count[k := d.count[k] + v])
  }

  function MergedSoFar(a: Dict, b: Dict, i: nat): Dict
    requires i <= |b.keys|
  {
    Dict(a.keys + Fresh(b.keys[..i], a.keys), a.count + Items(b, i))
  }

  lemma MergeStep(a: Dict, b: Dict, i: nat)
    requires Valid(b) && i < |b.keys|
    ensures AddItem(MergedSoFar(a, b, i), b.keys[i], b.count[b.keys[i]]) == MergedSoFar(a, b, i + 1)
  {
    var k, v := b.keys[i], b.count[b.keys[i]];
    assert b.keys[..i + 1][..i] == b.keys[..i];
    FreshMember(b.keys[..i], a.keys, k);
    AddToCount(a.count, Items(b, i), k, v);
  }

  lemma AddToCount(a: multiset<int>, b: multiset<int>, k: int, v: nat)
    ensures (a + b)[k := (a + b)[k] + v] == a + (b + Item(k, v))
  {
  }

  /** The inner loop of `_aggregate_dscp` over the items of one run's histogram. */
  method MergeInto(a: Dict, b: Dict) returns (merged: Dict)
    requires Valid(b)
    ensures merged == Merge(a, b)
  {
    merged := a;
    var i := 0;
    while i < |b.keys|
      invariant 0 <= i <= |b.keys|
      invariant merged == MergedSoFar(a, b, i)
    {
      MergeStep(a, b, i);
      merged := AddItem(merged, b.keys[i], b.count[b.keys[i]]);
      i := i + 1;
    }
    assert b.keys[..i] == b.keys;
    ItemsAreCounts(b);
  }

  lemma {:induction false} FreshMember(ks: seq<int>, seen: seq<int>, k: int)
    ensures k in Fresh(ks, seen) <==> k in ks && k !in seen
  {
    if ks != [] {
      var n := |ks| - 1;
      FreshMember(ks[..n], seen, k);
      assert k in ks <==> k in ks[..n] || k == ks[n];
    }
  }

  // ----- All runs of a condition -----

  /** The runs that have a tos column. */
  function Present(runs: seq<Option<seq<int>>>): seq<seq<int>> {
    if runs == [] then []
    else
      var n := |runs| - 1;
      Present(runs[..n]) + if runs[n].Some? then [runs[n].value] else []
  }

  function MergedField(ts: seq<seq<int>>, field: Field): Dict {
    if ts == [] then EMPTY
    else var n := |ts| - 1; Merge(MergedField(ts[..n], field), FieldHistogram(field, ts[n]))
  }

  function MissingRows(ts: seq<seq<int>>): nat {
    if ts == [] then 0 else var n := |ts| - 1; MissingRows(ts[..n]) + (|ts[n]| - |ValidRows(ts[n])|)
  }

  function Aggregated(runs: seq<Option<seq<int>>>): Option<Distribution> {
    var ts := Present(runs);
    if ts == [] then None
    else
      Some(Distribution(MergedField(ts, DscpField), MergedField(ts, EcnField), MergedField(ts, TosField),
                        MissingRows(ts), Dominant(MergedField(ts, DscpField))))
  }

  /** `_aggregate_dscp`: merge the runs one by one, field by field. */
  method AggregateDscp(runs: seq<Option<seq<int>>>) returns (r: Option<Distribution>)
    ensures r == Aggregated(runs)
  {
    var ts := Present(runs);
    if ts == [] {
      return None;
    }
    var dscp, ecn, tos, missing := EMPTY, EMPTY, EMPTY, 0;
    var i := 0;
    while i < |ts|
      invariant 0 <= i <= |ts|
      invariant dscp == MergedField(ts[..i], DscpField) && ecn == MergedField(ts[..i], EcnField)
      invariant tos == MergedField(ts[..i], TosField) && missing == MissingRows(ts[..i])
    {
      NextRun(ts, i);
      FieldHistogramsValid(ts[i]);
      var d := Distribute(Some(ts[i])).value;
      dscp := MergeInto(dscp, d.dscp);
      ecn := MergeInto(ecn, d.ecn);
      tos := MergeInto(tos, d.tos);
      missing := missing + d.missing;
      i := i + 1;
    }
    assert ts[..i] == ts;
    return Some(Distribution(dscp, ecn, tos, missing, Dominant(dscp)));
  }

  lemma NextRun(ts: seq<seq<int>>, i: nat)
    requires i < |ts|
    ensures forall field ::
              MergedField(ts[..i + 1], field) == Merge(MergedField(ts[..i], field), FieldHistogram(field, ts[i]))
    ensures MissingRows(ts[..i + 1]) == MissingRows(ts[..i]) + (|ts[i]| - |ValidRows(ts[i])|)
  {
    assert ts[..i + 1][..i] == ts[..i];
  }

  lemma FieldHistogramsValid(tos: seq<int>)
    ensures forall field :: Valid(FieldHistogram(field, tos)) && StrictlyAscending(FieldHistogram(field, tos).keys)
  {
    forall field ensures Valid(FieldHistogram(field, tos)) && StrictlyAscending(FieldHistogram(field, tos).keys) {
      HistogramValid(Map(field, ValidRows(tos)));
    }
  }

  /** All runs as one. */
  function Pool(ts: seq<seq<int>>): seq<int> {
    if ts == [] then [] else Pool(ts[..|ts| - 1]) + ts[|ts| - 1]
  }

  lemma {:induction false} ValidRowsConcat(a: seq<int>, b: seq<int>)
    ensures ValidRows(a + b) == ValidRows(a) + ValidRows(b)
  {
    if b == [] {
      assert a + b == a;
    } else {
      var n := |b| - 1;
      ValidRowsConcat(a, b[..n]);
      var c, last := a + b, if b[n] >= 0 then [b[n]] else [];
      assert c[..|c| - 1] == a + b[..n] && c[|c| - 1] == b[n];
      assert ValidRows(c) == ValidRows(a) + ValidRows(b[..n]) + last;
    }
  }

  lemma FieldCountsConcat(field: Field, a: seq<int>, b: seq<int>)
    ensures FieldHistogram(field, a + b).count == FieldHistogram(field, a).count + FieldHistogram(field, b).count
  {
    ValidRowsConcat(a, b);
    assert Map(field, ValidRows(a) + ValidRows(b)) == Map(field, ValidRows(a)) + Map(field, ValidRows(b));
  }

  lemma {:induction false} MergedCounts(ts: seq<seq<int>>, field: Field)
    ensures MergedField(ts, field).count == FieldHistogram(field, Pool(ts)).count
  {
    if ts != [] {
      var n := |ts| - 1;
      MergedCounts(ts[..n], field);
      FieldCountsConcat(field, Pool(ts[..n]), ts[n]);
    }
  }

  lemma {:induction false} FreshDistinct(ks: seq<int>, seen: seq<int>)
    requires Distinct(ks)
    ensures Distinct(Fresh(ks, seen))
  {
    if ks != [] {
      var n := |ks| - 1;
      FreshDistinct(ks[..n], seen);
      var rest := Fresh(ks[..n], seen);
      forall i | 0 <= i < |rest| ensures rest[i] != ks[n] {
        FreshMember(ks[..n], seen, rest[i]);
      }
    }
  }

  lemma MergedKeysDistinct(a: seq<int>, b: seq<int>)
    requires Distinct(a) && Distinct(b)
    ensures Distinct(a + Fresh(b, a))
  {
    FreshDistinct(b, a);
    var fresh' := Fresh(b, a);
    forall j | 0 <= j < |fresh'| ensures fresh'[j] !in a {
      FreshMember(b, a, fresh'[j]);
    }
  }

  /** Merging keeps the keys to the counted values, each once. */
  lemma MergeValid(a: Dict, b: Dict)
    requires Valid(a) && Valid(b)
    ensures Valid(Merge(a, b))
  {
    var m, fresh' := Merge(a, b), Fresh(b.keys, a.keys);
    MergedKeysDistinct(a.keys, b.keys);
    forall i | 0 <= i < |m.keys| ensures m.count[m.keys[i]] > 0 {
      if i < |a.keys| {
        assert m.keys[i] == a.keys[i];
      } else {
        FreshMember(b.keys, a.keys, m.keys[i]);
        var j :| 0 <= j < |b.keys| && b.keys[j] == m.keys[i];
      }
    }
    forall k | m.count[k] > 0 ensures k in m.keys {
      FreshMember(b.keys, a.keys, k);
      assert a.count[k] > 0 || b.count[k] > 0;
    }
  }

  lemma {:induction false} MergedValid(ts: seq<seq<int>>, field: Field)
    ensures Valid(MergedField(ts, field))
  {
    if ts != [] {
      var n := |ts| - 1;
      MergedValid(ts[..n], field);
      FieldHistogramsValid(ts[n]);
      MergeValid(MergedField(ts[..n], field), FieldHistogram(field, ts[n]));
    }
  }

  /** Merging the runs' histograms gives the dictionary of all rows pooled, for every field: same keys, same counts. */
  lemma MergedIsPooled(ts: seq<seq<int>>, field: Field)
    ensures SameItems(MergedField(ts, field), FieldHistogram(field, Pool(ts)))
  {
    MergedCounts(ts, field);
    MergedValid(ts, field);
    FieldHistogramsValid(Pool(ts));
    forall k ensures k in MergedField(ts, field).keys <==> k in FieldHistogram(field, Pool(ts)).keys {
      KeyIsCounted(MergedField(ts, field), k);
      KeyIsCounted(FieldHistogram(field, Pool(ts)), k);
    }
  }

  lemma KeyIsCounted(d: Dict, k: int)
    requires Valid(d)
    ensures k in d.keys <==> d.count[k] > 0
  {
    if k in d.keys {
      var i :| 0 <= i < |d.keys| && d.keys[i] == k;
    }
  }

  /** Over all runs, too, each merged histogram totals the rows that are not missing. */
  lemma MergedTotals(ts: seq<seq<int>>, field: Field)
    ensures Total(MergedField(ts, field)) + MissingRows(ts) == |Pool(ts)|
  {
    MergedValid(ts, field);
    TotalIsSize(MergedField(ts, field));
    MergedCounts(ts, field);
    MissingIsPooled(ts);
  }

  /** The merged total of missing rows is that of all rows pooled. */
  lemma {:induction false} MissingIsPooled(ts: seq<seq<int>>)
    ensures MissingRows(ts) == |Pool(ts)| - |ValidRows(Pool(ts))|
  {
    if ts != [] {
      var n := |ts| - 1;
      MissingIsPooled(ts[..n]);
      ValidRowsConcat(Pool(ts[..n]), ts[n]);
    }
  }

  // ----- The dominant DSCP -----

  lemma {:induction false} FirstMaxIsMax(keys: seq<int>, count: multiset<int>)
    requires keys != []
    ensures FirstMax(keys, count) in keys
    ensures forall i | 0 <= i < |keys| :: count[keys[i]] <= count[FirstMax(keys, count)]
  {
    var n := |keys| - 1;
    if n > 0 {
      FirstMaxIsMax(keys[..n], count);
      assert forall i | 0 <= i < n :: keys[i] == keys[..n][i];
    }
  }

  /** The first key counted exactly `m` times. */
  function FirstWith(keys: seq<int>, count: multiset<int>, m: nat): Option<int> {
    if keys == [] then None
    else
      var n := |keys| - 1;
      var f := FirstWith(keys[..n], count, m);
      if f.Some? then f else if count[keys[n]] == m then Some(keys[n]) else None
  }

  lemma {:induction false} FirstWithFinds(keys: seq<int>, count: multiset<int>, m: nat)
    ensures FirstWith(keys, count, m).None? <==> forall i | 0 <= i < |keys| :: count[keys[i]] != m
    ensures FirstWith(keys, count, m).Some? ==>
              FirstWith(keys, count, m).value in keys && count[FirstWith(keys, count, m).value] == m
  {
    if keys != [] {
      var n := |keys| - 1;
      FirstWithFinds(keys[..n], count, m);
      assert forall i | 0 <= i < n :: keys[i] == keys[..n][i];
    }
  }

  lemma {:induction false} FirstMaxIsFirst(keys: seq<int>, count: multiset<int>)
    requires keys != []
    ensures FirstWith(keys, count, count[FirstMax(keys, count)]) == Some(FirstMax(keys, count))
  {
    var n := |keys| - 1;
    if n > 0 {
      FirstMaxIsFirst(keys[..n], count);
      FirstMaxIsMax(keys[..n], count);
      FirstWithFinds(keys[..n], count, count[keys[n]]);
    }
  }

  lemma {:induction false} FirstWithConcat(a: seq<int>, b: seq<int>, count: multiset<int>, m: nat)
    ensures FirstWith(a + b, count, m) ==
            if FirstWith(a, count, m).Some? then FirstWith(a, count, m) else FirstWith(b, count, m)
  {
    if b == [] {
      assert a + b == a;
    } else {
      var n := |b| - 1;
      FirstWithConcat(a, b[..n], count, m);
      assert (a + b)[..|a| + n] == a + b[..n];
    }
  }

  lemma {:induction false} FirstWithFresh(ks: seq<int>, seen: seq<int>, count: multiset<int>, m: nat)
    requires FirstWith(seen, count, m).None?
    ensures FirstWith(Fresh(ks, seen), count, m) == FirstWith(ks, count, m)
  {
    FirstWithFinds(seen, count, m);
    if ks != [] {
      var n := |ks| - 1;
      FirstWithFresh(ks[..n], seen, count, m);
      FirstWithConcat(Fresh(ks[..n], seen), [ks[n]], count, m);
      assert Fresh(ks[..n], seen) + [] == Fresh(ks[..n], seen);
      assert FirstWith([ks[n]], count, m) == if count[ks[n]] == m then Some(ks[n]) else None;
    }
  }

  /** On ascending keys the first match is the smallest. */
  lemma {:induction false} FirstWithSmallest(keys: seq<int>, count: multiset<int>, m: nat)
    requires StrictlyAscending(keys) && FirstWith(keys, count, m).Some?
    ensures forall i | 0 <= i < |keys| && count[keys[i]] == m :: FirstWith(keys, count, m).value <= keys[i]
  {
    var n := |keys| - 1;
    FirstWithFinds(keys[..n], count, m);
    assert forall i | 0 <= i < n :: keys[i] == keys[..n][i];
    if FirstWith(keys[..n], count, m).Some? {
      FirstWithSmallest(keys[..n], count, m);
      var j :| 0 <= j < n && keys[..n][j] == FirstWith(keys[..n], count, m).value;
      assert keys[j] < keys[n];
    }
  }

  function DscpKeys(tos: seq<int>): seq<int> { FieldHistogram(DscpField, tos).keys }

  /** The first match in the first run that has one. */
  function FirstRunWith(ts: seq<seq<int>>, count: multiset<int>, m: nat): Option<int> {
    if ts == [] then None
    else
      var n := |ts| - 1;
      var f := FirstRunWith(ts[..n], count, m);
      if f.Some? then f else FirstWith(DscpKeys(ts[n]), count, m)
  }

  lemma {:induction false} MergedOrder(ts: seq<seq<int>>, count: multiset<int>, m: nat)
    ensures FirstWith(MergedField(ts, DscpField).keys, count, m) == FirstRunWith(ts, count, m)
  {
    if ts != [] {
      var n := |ts| - 1;
      var before := MergedField(ts[..n], DscpField).keys;
      MergedOrder(ts[..n], count, m);
      FirstWithConcat(before, Fresh(DscpKeys(ts[n]), before), count, m);
      if FirstWith(before, count, m).None? {
        FirstWithFresh(DscpKeys(ts[n]), before, count, m);
      }
    }
  }

  lemma {:induction false} FirstRunIs(ts: seq<seq<int>>, count: multiset<int>, m: nat, r: nat)
    requires r < |ts| && FirstWith(DscpKeys(ts[r]), count, m).Some?
    requires forall i | 0 <= i < r :: FirstWith(DscpKeys(ts[i]), count, m).None?
    ensures FirstRunWith(ts, count, m) == FirstWith(DscpKeys(ts[r]), count, m)
  {
    var n := |ts| - 1;
    if n > r {
      FirstRunIs(ts[..n], count, m, r);
    } else {
      NoRunBefore(ts[..n], count, m);
    }
  }

  lemma {:induction false} NoRunBefore(ts: seq<seq<int>>, count: multiset<int>, m: nat)
    requires forall i | 0 <= i < |ts| :: FirstWith(DscpKeys(ts[i]), count, m).None?
    ensures FirstRunWith(ts, count, m).None?
  {
    if ts != [] {
      NoRunBefore(ts[..|ts| - 1], count, m);
      assert FirstWith(DscpKeys(ts[|ts| - 1]), count, m).None?;
    }
  }

  /** For every field the merged dictionary has the keys it counts. */
  lemma MergedKeys(ts: seq<seq<int>>, field: Field, k: int)
    ensures k in MergedField(ts, field).keys <==> MergedField(ts, field).count[k] > 0
  {
    MergedValid(ts, field);
    KeyIsCounted(MergedField(ts, field), k);
  }

  lemma HistogramMember(s: seq<int>, k: int)
    ensures k in SortedDistinct(s) <==> multiset(s)[k] > 0
  {
    HistogramValid(s);
    if k in SortedDistinct(s) {
      var i :| 0 <= i < |SortedDistinct(s)| && SortedDistinct(s)[i] == k;
      assert Histogram(s).count[Histogram(s).keys[i]] > 0;
    }
  }

  /** The largest count of a DSCP value over all runs. */
  function TopCount(ts: seq<seq<int>>): nat
    requires DscpKeys(Pool(ts)) != []
  {
    var d := FieldHistogram(DscpField, Pool(ts));
    d.count[FirstMax(d.keys, d.count)]
  }

  /** Some DSCP value of this run has the top count. */
  predicate HasTop(ts: seq<seq<int>>, run: seq<int>)
    requires DscpKeys(Pool(ts)) != []
  {
    FirstWith(DscpKeys(run), FieldHistogram(DscpField, Pool(ts)).count, TopCount(ts)).Some?
  }

  /** No DSCP value is counted more often than the merged dominant one. */
  lemma DominantIsMaximal(ts: seq<seq<int>>, k: int)
    requires DscpKeys(Pool(ts)) != []
    ensures var m := MergedField(ts, DscpField);
      && Dominant(m).Some?
      && m.count[k] <= m.count[Dominant(m).value] == TopCount(ts)
  {
    var m, pooled := MergedField(ts, DscpField), FieldHistogram(DscpField, Pool(ts));
    var top := FirstMax(pooled.keys, pooled.count);
    MergedCounts(ts, DscpField);
    FirstMaxIsMax(pooled.keys, pooled.count);
    HistogramMember(Map(DscpField, ValidRows(Pool(ts))), top);
    MergedKeys(ts, DscpField, top);
    FirstMaxIsMax(m.keys, m.count);
    MergedKeys(ts, DscpField, k);
    var best := FirstMax(m.keys, m.count);
    MergedKeys(ts, DscpField, best);
    HistogramMember(Map(DscpField, ValidRows(Pool(ts))), best);
  }

  /** Run `r` is the first that has a value with the top count. */
  predicate FirstTopRun(ts: seq<seq<int>>, r: nat)
    requires DscpKeys(Pool(ts)) != []
  {
    r < |ts| && HasTop(ts, ts[r]) && forall i | 0 <= i < r :: !HasTop(ts, ts[i])
  }

  lemma {:induction false} FirstRunFound(ts: seq<seq<int>>, count: multiset<int>, m: nat) returns (r: nat)
    requires FirstRunWith(ts, count, m).Some?
    ensures r < |ts| && FirstWith(DscpKeys(ts[r]), count, m).Some?
    ensures forall i | 0 <= i < r :: FirstWith(DscpKeys(ts[i]), count, m).None?
  {
    var n := |ts| - 1;
    if FirstRunWith(ts[..n], count, m).Some? {
      r := FirstRunFound(ts[..n], count, m);
    } else {
      r := n;
      NoRunMatches(ts[..n], count, m);
      assert forall i | 0 <= i < n :: ts[i] == ts[..n][i];
    }
  }

  lemma {:induction false} NoRunMatches(ts: seq<seq<int>>, count: multiset<int>, m: nat)
    requires FirstRunWith(ts, count, m).None?
    ensures forall i | 0 <= i < |ts| :: FirstWith(DscpKeys(ts[i]), count, m).None?
  {
    if ts != [] {
      var n := |ts| - 1;
      NoRunMatches(ts[..n], count, m);
      assert forall i | 0 <= i < n :: ts[i] == ts[..n][i];
    }
  }

  /** As soon as one row is valid, some run has a top value, and so there is a first such run. */
  lemma TopRunExists(ts: seq<seq<int>>) returns (r: nat)
    requires DscpKeys(Pool(ts)) != []
    ensures FirstTopRun(ts, r)
  {
    var m := MergedField(ts, DscpField);
    DominantIsMaximal(ts, 0);
    MergedCounts(ts, DscpField);
    FirstMaxIsFirst(m.keys, m.count);
    MergedOrder(ts, m.count, TopCount(ts));
    r := FirstRunFound(ts, m.count, TopCount(ts));
  }

  /**
   On ties the dominant DSCP of the merged runs is not always that of the rows pooled: merging keeps the order in which
   values first appeared. For every list of runs, the two agree iff no row is valid, when both are None, or the first
   run with a top value, which then exists, has the smallest one.
   */
  lemma DominantAgreesIff(ts: seq<seq<int>>)
    ensures var merged, pooled := Dominant(MergedField(ts, DscpField)), Dominant(FieldHistogram(DscpField, Pool(ts)));
      if DscpKeys(Pool(ts)) == [] then merged == pooled == None
      else
        && merged.Some? && pooled.Some?
        && exists r: nat :: FirstTopRun(ts, r) && (merged == pooled <==> pooled.value in DscpKeys(ts[r]))
  {
    if DscpKeys(Pool(ts)) == [] {
      NothingMerged(ts);
    } else {
      var r := TopRunExists(ts);
      DominantIsMaximal(ts, 0);
      AgreesIffInFirstTopRun(ts, r);
    }
  }

  lemma NothingMerged(ts: seq<seq<int>>)
    requires DscpKeys(Pool(ts)) == []
    ensures MergedField(ts, DscpField).keys == []
  {
    var m := MergedField(ts, DscpField);
    if m.keys != [] {
      assert m.keys[0] in m.keys;
      MergedIsPooled(ts, DscpField);
    }
  }

  lemma AgreesIffInFirstTopRun(ts: seq<seq<int>>, r: nat)
    requires DscpKeys(Pool(ts)) != [] && FirstTopRun(ts, r)
    ensures var pooled := Dominant(FieldHistogram(DscpField, Pool(ts)));
      && pooled.Some?
      && (Dominant(MergedField(ts, DscpField)) == pooled <==> pooled.value in DscpKeys(ts[r]))
  {
    var pooled := FieldHistogram(DscpField, Pool(ts));
    MergedDominantIs(ts, r);
    var first := FirstWith(DscpKeys(ts[r]), pooled.count, TopCount(ts));
    FirstMaxIsFirst(pooled.keys, pooled.count);
    FieldHistogramsValid(ts[r]);
    FieldHistogramsValid(Pool(ts));
    FirstWithFinds(DscpKeys(ts[r]), pooled.count, TopCount(ts));
    DominantIsMaximal(ts, first.value);
    TopIsPositive(ts);
    HistogramMember(Map(DscpField, ValidRows(Pool(ts))), first.value);
    FirstsAgree(pooled.keys, DscpKeys(ts[r]), pooled.count, TopCount(ts));
  }

  lemma TopIsPositive(ts: seq<seq<int>>)
    requires DscpKeys(Pool(ts)) != []
    ensures TopCount(ts) > 0
  {
    var d := FieldHistogram(DscpField, Pool(ts));
    FirstMaxIsMax(d.keys, d.count);
    HistogramMember(Map(DscpField, ValidRows(Pool(ts))), FirstMax(d.keys, d.count));
  }

  /** The merged dominant DSCP is the smallest top value of the first run that has one. */
  lemma MergedDominantIs(ts: seq<seq<int>>, r: nat)
    requires DscpKeys(Pool(ts)) != [] && FirstTopRun(ts, r)
    ensures Dominant(MergedField(ts, DscpField)) ==
            FirstWith(DscpKeys(ts[r]), FieldHistogram(DscpField, Pool(ts)).count, TopCount(ts))
  {
    var m := MergedField(ts, DscpField);
    DominantIsMaximal(ts, 0);
    MergedCounts(ts, DscpField);
    FirstMaxIsFirst(m.keys, m.count);
    MergedOrder(ts, m.count, TopCount(ts));
    forall i | 0 <= i < r ensures FirstWith(DscpKeys(ts[i]), m.count, TopCount(ts)).None? {
      assert !HasTop(ts, ts[i]);
    }
    FirstRunIs(ts, m.count, TopCount(ts), r);
  }

  /** Of two ascending key lists, the first matches agree iff the second list has the first one's. */
  lemma FirstsAgree(pk: seq<int>, rk: seq<int>, count: multiset<int>, m: nat)
    requires StrictlyAscending(pk) && StrictlyAscending(rk)
    requires FirstWith(pk, count, m).Some? && FirstWith(rk, count, m).Some? && FirstWith(rk, count, m).value in pk
    ensures FirstWith(pk, count, m) == FirstWith(rk, count, m) <==> FirstWith(pk, count, m).value in rk
  {
    var p, x := FirstWith(pk, count, m).value, FirstWith(rk, count, m).value;
    FirstWithFinds(pk, count, m);
    FirstWithFinds(rk, count, m);
    FirstWithSmallest(pk, count, m);
    FirstWithSmallest(rk, count, m);
    var i :| 0 <= i < |pk| && pk[i] == x;
    if p in rk {
      var j :| 0 <= j < |rk| && rk[j] == p;
    }
  }

  /**
   A tie that shows the difference: one packet in each of two runs, the first with the larger DSCP, say EF and then
   best effort. Merged, the first run's value dominates; pooled, the smaller one does.
   */
  lemma DominantCanDiffer(a: nat, b: nat)
    requires a / 4 > b / 4
    ensures Dominant(MergedField([[a], [b]], DscpField)) == Some(a / 4)
    ensures Dominant(FieldHistogram(DscpField, Pool([[a], [b]]))) == Some(b / 4)
  {
    var x, y := a / 4, b / 4;
    SingleRow(a);
    SingleRow(b);
    TwoRuns([a], [b]);
    FieldCountsConcat(DscpField, [a], [b]);
    assert [a] + [b] == [a, b];
    TwoRows(a, b);
    FreshAll([y], [x]);
    assert MergedField([[a], [b]], DscpField).keys == [x, y];
    TieOfTwo(x, y, MergedField([[a], [b]], DscpField).count);
    TieOfTwo(y, x, FieldHistogram(DscpField, [a, b]).count);
  }

  lemma SingleRow(a: nat)
    ensures FieldHistogram(DscpField, [a]) == Dict([a / 4], multiset{a / 4})
  {
    assert [a][..0] == [] && ValidRows([a]) == [a];
    assert Map(DscpField, [a]) == [a / 4];
    assert [a / 4][1..] == [] && SortedDistinct([a / 4]) == [a / 4];
  }

  lemma TwoRows(a: nat, b: nat)
    requires a / 4 > b / 4
    ensures FieldHistogram(DscpField, [a, b]).keys == [b / 4, a / 4]
  {
    var x, y := a / 4, b / 4;
    assert [a, b][..1] == [a] && [a][..0] == [] && ValidRows([a]) == [a] && ValidRows([a, b]) == [a, b];
    assert Map(DscpField, [a, b]) == [x, y];
    assert [x, y][1..] == [y] && [y][1..] == [] && SortedDistinct([y]) == [y];
    assert InsertKey([y], x) == [y] + InsertKey([y][1..], x);
  }

  lemma {:induction false} FreshAll(ks: seq<int>, seen: seq<int>)
    requires forall i | 0 <= i < |ks| :: ks[i] !in seen
    ensures Fresh(ks, seen) == ks
  {
    if ks != [] {
      FreshAll(ks[..|ks| - 1], seen);
    }
  }

  lemma TwoRuns(s: seq<int>, t: seq<int>)
    ensures MergedField([s, t], DscpField) == Merge(FieldHistogram(DscpField, s), FieldHistogram(DscpField, t))
    ensures Pool([s, t]) == s + t
  {
    var ts := [s, t];
    OneRun(s);
    assert ts[..1] == [s] && ts[1] == t;
    assert MergedField(ts, DscpField) == Merge(MergedField(ts[..1], DscpField), FieldHistogram(DscpField, ts[1]));
  }

  lemma OneRun(s: seq<int>)
    ensures MergedField([s], DscpField) == FieldHistogram(DscpField, s)
    ensures Pool([s]) == s
  {
    var ts, d := [s], FieldHistogram(DscpField, s);
    assert ts[..0] == [];
    FreshAll(d.keys, []);
    assert [] + d.keys == d.keys && multiset{} + d.count == d.count;
    assert MergedField(ts, DscpField) == Merge(EMPTY, d);
    assert [] + s == s;
  }

  lemma TieOfTwo(x: int, y: int, count: multiset<int>)
    requires count[x] == count[y]
    ensures FirstMax([x, y], count) == x
  {
    assert [x, y][..1] == [x];
  }

  // ----- What the reported distributions count -----

  /** Which rows have a value whose field is `y`. */
  function FieldMarks(field: Field, tos: seq<int>, y: int): seq<bool> {
    seq(|tos|, i requires 0 <= i < |tos| => tos[i] >= 0 && Bits(field, tos[i]) == y)
  }

  /** Which rows have none. */
  function MissingMarks(tos: seq<int>): seq<bool> {
    seq(|tos|, i requires 0 <= i < |tos| => tos[i] < 0)
  }

  lemma OneRow(field: Field, t: int)
    ensures FieldHistogram(field, [t]).count == if t >= 0 then multiset{Bits(field, t)} else multiset{}
  {
    assert [t][..0] == [] && ValidRows([t]) == if t >= 0 then [t] else [];
    if t >= 0 {
      assert Map(field, [t]) == [Bits(field, t)];
    }
  }

  lemma {:induction false} FieldCount(field: Field, tos: seq<int>, y: int)
    ensures FieldHistogram(field, tos).count[y] == CountTrue(FieldMarks(field, tos, y))
  {
    if tos != [] {
      var n := |tos| - 1;
      FieldCount(field, tos[..n], y);
      var m := FieldMarks(field, tos, y);
      assert m[..n] == FieldMarks(field, tos[..n], y);
      assert CountTrue(m) == CountTrue(m[..n]) + if m[n] then 1 else 0;
      assert tos == tos[..n] + [tos[n]];
      FieldCountsConcat(field, tos[..n], [tos[n]]);
      OneRow(field, tos[n]);
    }
  }

  lemma {:induction false} MissingCount(tos: seq<int>)
    ensures |tos| - |ValidRows(tos)| == CountTrue(MissingMarks(tos))
  {
    if tos != [] {
      var n := |tos| - 1;
      MissingCount(tos[..n]);
      assert MissingMarks(tos)[..n] == MissingMarks(tos[..n]);
    }
  }

  /** The reported counts of a run, row by row: the DSCP is the byte without its low two bits, the ECN those two bits,
      and a negative row is missing. */
  lemma DistributionMeans(tos: seq<int>, y: int)
    ensures var d := Distribute(Some(tos)).value;
      && d.dscp.count[y] == |set i | 0 <= i < |tos| && tos[i] >= 0 && tos[i] / 4 == y|
      && d.ecn.count[y] == |set i | 0 <= i < |tos| && tos[i] >= 0 && tos[i] % 4 == y|
      && d.tos.count[y] == |set i | 0 <= i < |tos| && tos[i] >= 0 && tos[i] == y|
      && d.missing == |set i | 0 <= i < |tos| && tos[i] < 0|
  {
    FieldMeans(DscpField, tos, y);
    FieldMeans(EcnField, tos, y);
    FieldMeans(TosField, tos, y);
    MissingCount(tos);
    var m := MissingMarks(tos);
    CountIsSize(m);
    assert (set i | 0 <= i < |m| && m[i]) == (set i | 0 <= i < |tos| && tos[i] < 0);
    assert (set i | 0 <= i < |tos| && tos[i] >= 0 && Bits(DscpField, tos[i]) == y) ==
           (set i | 0 <= i < |tos| && tos[i] >= 0 && tos[i] / 4 == y);
    assert (set i | 0 <= i < |tos| && tos[i] >= 0 && Bits(EcnField, tos[i]) == y) ==
           (set i | 0 <= i < |tos| && tos[i] >= 0 && tos[i] % 4 == y);
    assert (set i | 0 <= i < |tos| && tos[i] >= 0 && Bits(TosField, tos[i]) == y) ==
           (set i | 0 <= i < |tos| && tos[i] >= 0 && tos[i] == y);
  }

  lemma FieldMeans(field: Field, tos: seq<int>, y: int)
    ensures FieldHistogram(field, tos).count[y] == |set i | 0 <= i < |tos| && tos[i] >= 0 && Bits(field, tos[i]) == y|
  {
    FieldCount(field, tos, y);
    var m := FieldMarks(field, tos, y);
    CountIsSize(m);
    assert (set i | 0 <= i < |m| && m[i]) == (set i | 0 <= i < |tos| && tos[i] >= 0 && Bits(field, tos[i]) == y);
  }

  /** The dominant DSCP of a run: None without a valid row, else the smallest of the values with the largest count. */
  lemma DominantMeans(tos: seq<int>, y: int)
    ensures var d := Distribute(Some(tos)).value;
      && (d.dominant.None? <==> d.dscp.count == multiset{})
      && (d.dominant.Some? ==>
            && d.dscp.count[y] <= d.dscp.count[d.dominant.value]
            && (d.dscp.count[y] == d.dscp.count[d.dominant.value] ==> d.dominant.value <= y))
  {
    var h := FieldHistogram(DscpField, tos);
    FieldHistogramsValid(tos);
    if h.keys == [] {
      assert forall k :: h.count[k] == 0;
    } else {
      var top := FirstMax(h.keys, h.count);
      FirstMaxIsMax(h.keys, h.count);
      FirstMaxIsFirst(h.keys, h.count);
      FirstWithSmallest(h.keys, h.count, h.count[top]);
      KeyIsCounted(h, top);
      KeyIsCounted(h, y);
    }
  }

  /** A row of marks for each run; a run without a tos column has none. */
  function FieldRows(field: Field, runs: seq<Option<seq<int>>>, y: int): seq<seq<bool>> {
    seq(|runs|, i requires 0 <= i < |runs| => if runs[i].Some? then FieldMarks(field, runs[i].value, y) else [])
  }

  function MissingRowsOf(runs: seq<Option<seq<int>>>): seq<seq<bool>> {
    seq(|runs|, i requires 0 <= i < |runs| => if runs[i].Some? then MissingMarks(runs[i].value) else [])
  }

  lemma PresentSnoc(runs: seq<Option<seq<int>>>, field: Field)
    requires runs != []
    ensures var n := |runs| - 1;
      if runs[n].None? then Present(runs) == Present(runs[..n])
      else
        && Present(runs) == Present(runs[..n]) + [runs[n].value]
        && MergedField(Present(runs), field).count ==
             MergedField(Present(runs[..n]), field).count + FieldHistogram(field, runs[n].value).count
        && MissingRows(Present(runs)) ==
             MissingRows(Present(runs[..n])) + (|runs[n].value| - |ValidRows(runs[n].value)|)
  {
    var n, ts := |runs| - 1, Present(runs);
    if runs[n].Some? {
      assert ts[..|ts| - 1] == Present(runs[..n]);
    }
  }

  lemma FieldRowsSnoc(field: Field, runs: seq<Option<seq<int>>>, y: int)
    requires runs != []
    ensures var n := |runs| - 1;
      TotalTrue(FieldRows(field, runs, y)) == TotalTrue(FieldRows(field, runs[..n], y)) +
      if runs[n].Some? then CountTrue(FieldMarks(field, runs[n].value, y)) else 0
  {
    var rows := FieldRows(field, runs, y);
    assert rows[..|runs| - 1] == FieldRows(field, runs[..|runs| - 1], y);
  }

  lemma {:induction false} AggregatedCounts(field: Field, runs: seq<Option<seq<int>>>, y: int)
    ensures MergedField(Present(runs), field).count[y] == TotalTrue(FieldRows(field, runs, y))
  {
    if runs != [] {
      var n := |runs| - 1;
      AggregatedCounts(field, runs[..n], y);
      PresentSnoc(runs, field);
      FieldRowsSnoc(field, runs, y);
      if runs[n].Some? {
        FieldCount(field, runs[n].value, y);
      }
    }
  }

  lemma {:induction false} AggregatedMissing(runs: seq<Option<seq<int>>>)
    ensures MissingRows(Present(runs)) == TotalTrue(MissingRowsOf(runs))
  {
    if runs != [] {
      var n, rows := |runs| - 1, MissingRowsOf(runs);
      AggregatedMissing(runs[..n]);
      PresentSnoc(runs, DscpField);
      assert rows[..n] == MissingRowsOf(runs[..n]);
      assert TotalTrue(rows) == TotalTrue(rows[..n]) + CountTrue(rows[n]);
      if runs[n].Some? {
        MissingCount(runs[n].value);
      }
    }
  }

  /** The reported counts of a condition, over the rows of all its runs that have a tos column. */
  lemma AggregatedMeans(runs: seq<Option<seq<int>>>, field: Field, y: int)
    requires Aggregated(runs).Some?
    ensures Aggregated(runs).value.Get(field).count[y] ==
            |set i, j | 0 <= i < |runs| && runs[i].Some? && 0 <= j < |runs[i].value| && runs[i].value[j] >= 0
                        && y == (match field
                                 case DscpField => runs[i].value[j] / 4
                                 case EcnField => runs[i].value[j] % 4
                                 case TosField => runs[i].value[j]) :: (i, j)|
  {
    AggregatedCounts(field, runs, y);
    PairCount(FieldRows(field, runs, y));
    MarkedRows(runs, field, y);
  }

  lemma MarkedRows(runs: seq<Option<seq<int>>>, field: Field, y: int)
    ensures Marked(FieldRows(field, runs, y)) ==
            set i, j | 0 <= i < |runs| && runs[i].Some? && 0 <= j < |runs[i].value| && runs[i].value[j] >= 0
                       && y == (match field
                                case DscpField => runs[i].value[j] / 4
                                case EcnField => runs[i].value[j] % 4
                                case TosField => runs[i].value[j]) :: (i, j)
  {
    var rows := FieldRows(field, runs, y);
    forall i | 0 <= i < |runs| ensures rows[i] == if runs[i].Some? then FieldMarks(field, runs[i].value, y) else [] {
    }
  }

  lemma AggregatedMissingMeans(runs: seq<Option<seq<int>>>)
    requires Aggregated(runs).Some?
    ensures Aggregated(runs).value.missing ==
            |set i, j | 0 <= i < |runs| && runs[i].Some? && 0 <= j < |runs[i].value| && runs[i].value[j] < 0 :: (i, j)|
  {
    AggregatedMissing(runs);
    PairCount(MissingRowsOf(runs));
    assert Marked(MissingRowsOf(runs)) ==
           set i, j | 0 <= i < |runs| && runs[i].Some? && 0 <= j < |runs[i].value| && runs[i].value[j] < 0 :: (i, j);
  }

  /** There is an aggregate iff a run has a tos column, and for every field it has the items of the pooled rows. */
  lemma AggregatedIsPooled(runs: seq<Option<seq<int>>>, field: Field)
    ensures Aggregated(runs).None? <==> forall i | 0 <= i < |runs| :: runs[i].None?
    ensures Aggregated(runs).Some? ==>
              SameItems(Aggregated(runs).value.Get(field), FieldHistogram(field, Pool(Present(runs))))
  {
    NonePresent(runs);
    MergedIsPooled(Present(runs), field);
  }

  /** Its dominant DSCP is None without a valid row, else one with the largest count. */
  lemma AggregatedDominant(runs: seq<Option<seq<int>>>, k: int)
    requires Aggregated(runs).Some?
    ensures var d := Aggregated(runs).value;
      && (d.dominant.None? <==> d.dscp.count == multiset{})
      && (d.dominant.Some? ==> d.dscp.count[k] <= d.dscp.count[d.dominant.value])
  {
    var m := MergedField(Present(runs), DscpField);
    MergedValid(Present(runs), DscpField);
    if m.keys == [] {
      assert forall x :: m.count[x] == 0;
    } else {
      FirstMaxIsMax(m.keys, m.count);
      KeyIsCounted(m, k);
      KeyIsCounted(m, m.keys[0]);
    }
  }

  lemma {:induction false} NonePresent(runs: seq<Option<seq<int>>>)
    ensures Present(runs) == [] <==> forall i | 0 <= i < |runs| :: runs[i].None?
  {
    if runs != [] {
      var n := |runs| - 1;
      NonePresent(runs[..n]);
      PresentSnoc(runs, DscpField);
      assert (forall i | 0 <= i < |runs| :: runs[i].None?) <==>
             runs[n].None? && forall i | 0 <= i < n :: runs[..n][i].None? by {
        assert forall i | 0 <= i < n :: runs[..n][i] == runs[i];
      }
    }
  }
}
