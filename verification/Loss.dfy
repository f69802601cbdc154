/**
 Loss, duplicates and reorders from the sequence numbers that arrived: what the reported numbers mean, and that the
 listener's one-pass scan and the vectorised form of the analysis agree.
 */
module Loss {
  import opened Bytes
  import opened Wrappers
  import opened Traffic
  import opened Sizes

  /** The running maximum: the largest of the first `n` rows. */
  function MaxOf(s: seq<int>, n: nat): int
    requires 0 < n <= |s|
  {
    if n == 1 then s[0]
    else
      var m := MaxOf(s, n - 1);
      if m < s[n - 1] then s[n - 1] else m
  }

  lemma {:induction false} MaxBounds(s: seq<int>, n: nat) returns (at: nat)
    requires 0 < n <= |s|
    ensures at < n && s[at] == MaxOf(s, n)
    ensures forall i | 0 <= i < n :: s[i] <= MaxOf(s, n)
  {
    at := 0;
    if n > 1 {
      at := MaxBounds(s, n - 1);
      if MaxOf(s, n - 1) < s[n - 1] {
        at := n - 1;
      }
    }
  }

  function Max(s: seq<int>): int
    requires s != []
  {
    MaxOf(s, |s|)
  }

  function Distinct(s: seq<int>): set<int> { set x | x in s }

  /** Of the first `n` rows, those smaller than the running maximum of the rows before them. */
  function LateRows(s: seq<int>, n: nat): nat
    requires n <= |s|
  {
    if n <= 1 then 0 else LateRows(s, n - 1) + if s[n - 1] < MaxOf(s, n - 1) then 1 else 0
  }

  function Reorders(s: seq<int>): nat { LateRows(s, |s|) }

  datatype Summary = Summary(expected: int, received: nat, unique: nat, lost: int, duplicates: int, reorders: nat) {
    /** None stands for NaN. */
    function LossPct(): Option<real> {
      if expected == 0 then None else Some(100.0 * lost as real / expected as real)
    }
  }

  /** `loss_summary`. */
  function Summarise(s: seq<int>): Summary {
    if s == [] then Summary(0, 0, 0, 0, 0, 0)
    else
      var expected, unique := Max(s) + 1, |Distinct(s)|;
      Summary(expected, |s|, unique, expected - unique, |s| - unique, Reorders(s))
  }

  // ----- The listener's scan -----

  /** The listener's reorder scan starts from a maximum of -1, as if a row -1 had come first. */
  method ScanReorders(s: seq<int>) returns (reorders: nat)
    ensures reorders == Reorders([-1] + s)
  {
    reorders := 0;
    var maxSeen := -1;
    ghost var t := [-1] + s;
    var i := 0;
    while i < |s|
      invariant 0 <= i <= |s|
      invariant maxSeen == MaxOf(t, i + 1) && reorders == LateRows(t, i + 1)
    {
      assert t[i + 1] == s[i];
      if s[i] < maxSeen {
        reorders := reorders + 1;
      } else {
        maxSeen := s[i];
      }
      i := i + 1;
    }
  }

  /** The listener's own summary; without rows it reports nothing. */
  method ListenerSummary(s: seq<int>) returns (r: Summary)
    requires s != []
    ensures r == Summarise(s).(reorders := Reorders([-1] + s))
  {
    var unique := |Distinct(s)|;
    var expected := Max(s) + 1;
    var reorders := ScanReorders(s);
    r := Summary(expected, |s|, unique, expected - unique, |s| - unique, reorders);
  }

  lemma {:induction false} MaxSentinel(s: seq<int>, t: seq<int>, n: nat)
    requires t == [-1] + s && 0 < n <= |s|
    ensures MaxOf(t, n + 1) == if MaxOf(s, n) < -1 then -1 else MaxOf(s, n)
  {
    assert t[n] == s[n - 1] && t[0] == -1;
    if n == 1 {
      assert MaxOf(t, 1) == -1;
    } else {
      MaxSentinel(s, t, n - 1);
    }
  }

  /** What the sentinel adds: a first row below -1 counts as late, and no late row is missed. */
  lemma {:induction false} SentinelAdds(s: seq<int>, t: seq<int>, n: nat)
    requires t == [-1] + s && n <= |s|
    ensures var extra := LateRows(t, n + 1) - LateRows(s, n);
            extra >= 0 && (extra == 0 <==> n == 0 || s[0] >= -1)
  {
    if n > 0 {
      SentinelAdds(s, t, n - 1);
      assert t[n] == s[n - 1] && t[0] == -1;
      if n == 1 {
        assert MaxOf(t, 1) == -1;
      } else {
        MaxSentinel(s, t, n - 1);
        var at := MaxBounds(s, n - 1);
      }
    }
  }

  /** Scan and vectorised count agree on exactly the sequences that do not start below -1; sequence numbers never
      do. */
  lemma ScanAgreesIff(s: seq<int>)
    ensures Reorders([-1] + s) == Reorders(s) <==> s == [] || s[0] >= -1
  {
    SentinelAdds(s, [-1] + s, |s|);
  }

  predicate Nondecreasing(s: seq<int>, n: nat)
    requires n <= |s|
  {
    forall i, j | 0 <= i < j < n :: s[i] <= s[j]
  }

  lemma {:induction false} LateRowsZeroIff(s: seq<int>, n: nat)
    requires n <= |s|
    ensures LateRows(s, n) == 0 <==> Nondecreasing(s, n)
  {
    if n > 1 {
      LateRowsZeroIff(s, n - 1);
      var at := MaxBounds(s, n - 1);
    }
  }

  /** No reorders iff the arrivals are nondecreasing. */
  lemma NoReordersIffAscending(s: seq<int>)
    ensures Reorders(s) == 0 <==> forall i, j | 0 <= i < j < |s| :: s[i] <= s[j]
  {
    LateRowsZeroIff(s, |s|);
  }

  /** Which rows come after a row with a larger number. */
  ghost function LateMarks(s: seq<int>): seq<bool> {
    seq(|s|, i requires 0 <= i < |s| => exists j :: 0 <= j < i && s[j] > s[i])
  }

  lemma {:induction false} LateRowsCount(s: seq<int>, n: nat)
    requires n <= |s|
    ensures LateRows(s, n) == CountTrue(LateMarks(s)[..n])
  {
    if n > 0 {
      LateRowsCount(s, n - 1);
      assert LateMarks(s)[..n][..n - 1] == LateMarks(s)[..n - 1];
      if n > 1 {
        var at := MaxBounds(s, n - 1);
        assert s[n - 1] < MaxOf(s, n - 1) <==> exists j :: 0 <= j < n - 1 && s[j] > s[n - 1];
      } else {
        assert LateMarks(s)[0] == false;
        assert CountTrue(LateMarks(s)[..1]) == 0;
      }
    }
  }

  /** A reorder is a row that comes after a row with a larger number, and every such row counts once. */
  lemma ReordersAreLateRows(s: seq<int>)
    ensures Reorders(s) == |set i | 0 <= i < |s| && (exists j :: 0 <= j < i && s[j] > s[i])|
  {
    LateRowsCount(s, |s|);
    var m := LateMarks(s);
    assert m[..|s|] == m;
    CountIsSize(m);
    assert (set i | 0 <= i < |m| && m[i]) == (set i | 0 <= i < |s| && (exists j :: 0 <= j < i && s[j] > s[i]));
  }

  // ----- What the numbers mean -----

  /** All numbers lie in 0 .. n-1. */
  predicate Numbered(s: seq<int>, n: int) { forall i | 0 <= i < |s| :: 0 <= s[i] < n }

  /** The sequence numbers below `n` that never arrived. */
  function Missing(n: int, s: seq<int>): set<int> { set k | 0 <= k < n && k !in s }

  lemma {:induction false} AllMissing(n: nat)
    ensures |Missing(n, [])| == n
  {
    if n > 0 {
      AllMissing(n - 1);
      assert Missing(n, []) == Missing(n - 1, []) + {n - 1};
    } else {
      assert Missing(0, []) == {};
    }
  }

  /** Below any bound past the maximum, missing and distinct numbers make up the rest, if none is negative. */
  lemma MissingSize(n: nat, s: seq<int>)
    requires Numbered(s, n)
    ensures |Missing(n, s)| == n - |Distinct(s)|
  {
    AllMissing(n);
    assert Missing(n, []) == Missing(n, s) + Distinct(s);
    assert Missing(n, s) !! Distinct(s);
  }

  /** The reported loss is the number of sequence numbers below the maximum that never arrived iff none of them is
      negative. */
  lemma LostIsMissingIff(s: seq<int>)
    requires s != []
    ensures Summarise(s).lost == |Missing(Summarise(s).expected, s)| <==> forall i | 0 <= i < |s| :: s[i] >= 0
  {
    var n := Max(s) + 1;
    var at := MaxBounds(s, |s|);
    if forall i | 0 <= i < |s| :: s[i] >= 0 {
      MissingSize(n, s);
    } else {
      var i :| 0 <= i < |s| && s[i] < 0;
      NegativesSkew(n, s, i);
    }
  }

  lemma NegativesSkew(n: int, s: seq<int>, i: nat)
    requires forall j | 0 <= j < |s| :: s[j] < n
    requires i < |s| && s[i] < 0
    ensures |Missing(n, s)| > n - |Distinct(s)|
  {
    var neg := set j | 0 <= j < |s| && s[j] < 0 :: s[j];
    var pos := set j | 0 <= j < |s| && s[j] >= 0 :: s[j];
    assert s[i] in neg;
    assert Distinct(s) == neg + pos && neg !! pos;
    if n >= 0 {
      AllMissing(n);
      assert Missing(n, []) == Missing(n, s) + pos && Missing(n, s) !! pos;
    }
  }

  /** Which rows repeat a number that came before. */
  ghost function RepeatMarks(s: seq<int>): seq<bool> {
    seq(|s|, i requires 0 <= i < |s| => exists j :: 0 <= j < i && s[j] == s[i])
  }

  lemma {:induction false} RepeatsCount(s: seq<int>, n: nat)
    requires n <= |s|
    ensures n == |Distinct(s[..n])| + CountTrue(RepeatMarks(s)[..n])
  {
    if n == 0 {
      assert Distinct(s[..0]) == {};
    } else {
      RepeatsCount(s, n - 1);
      assert RepeatMarks(s)[..n][..n - 1] == RepeatMarks(s)[..n - 1];
      assert s[..n] == s[..n - 1] + [s[n - 1]];
      assert Distinct(s[..n]) == Distinct(s[..n - 1]) + {s[n - 1]};
      assert s[n - 1] in Distinct(s[..n - 1]) <==> RepeatMarks(s)[n - 1];
    }
  }

  /** Which numbers below `bound` are missing although a larger one arrived. */
  ghost function GapMarks(s: seq<int>, bound: nat): seq<bool> {
    seq(bound, k requires 0 <= k < bound => k !in s && exists j :: 0 <= j < |s| && s[j] > k)
  }

  lemma GapsCount(s: seq<int>, bound: nat)
    requires Numbered(s, bound)
    ensures Summarise(s).lost == CountTrue(GapMarks(s, bound))
  {
    var m := GapMarks(s, bound);
    CountIsSize(m);
    var gaps := set k | 0 <= k < |m| && m[k];
    if s == [] {
      assert gaps == {};
    } else {
      LostIsMissingIff(s);
      var at := MaxBounds(s, |s|);
      assert gaps == Missing(Summarise(s).expected, s);
    }
  }

  /** What each reported number of a run means: without rows all are 0 and the percentage is NaN. */
  lemma SummaryMeans(s: seq<int>)
    ensures var r := Summarise(s);
      && r.received == |s|
      && (if s == [] then r.expected == 0 else r.expected - 1 in s && forall i | 0 <= i < |s| :: s[i] < r.expected)
      && r.lost == r.expected - |set x | x in s|
      && r.unique == |set x | x in s|
      && r.duplicates == |set i | 0 <= i < |s| && (exists j :: 0 <= j < i && s[j] == s[i])|
      && r.reorders == |set i | 0 <= i < |s| && (exists j :: 0 <= j < i && s[j] > s[i])|
  {
    ReordersAreLateRows(s);
    var m := RepeatMarks(s);
    RepeatsCount(s, |s|);
    assert m[..|s|] == m && s[..|s|] == s;
    CountIsSize(m);
    assert (set i | 0 <= i < |m| && m[i]) == (set i | 0 <= i < |s| && (exists j :: 0 <= j < i && s[j] == s[i]));
    if s == [] {
      assert Distinct(s) == {};
    } else {
      var at := MaxBounds(s, |s|);
    }
  }

  /** The percentage is the hundredfold quotient of lost and expected. */
  lemma LossPctMeans(r: Summary)
    ensures r.LossPct().None? <==> r.expected == 0
    ensures r.LossPct().Some? ==> r.LossPct().value * r.expected as real == 100.0 * r.lost as real
  {
  }

  lemma SameDistinct(s: seq<int>, t: seq<int>)
    requires multiset(s) == multiset(t)
    ensures Distinct(s) == Distinct(t) && |s| == |t|
  {
    forall i | 0 <= i < |s| ensures s[i] in t {
      assert s[i] in multiset(s) && s[i] in multiset(t);
    }
    forall i | 0 <= i < |t| ensures t[i] in s {
      assert t[i] in multiset(t) && t[i] in multiset(s);
    }
    assert |s| == |multiset(s)| == |multiset(t)| == |t|;
  }

  lemma MaxIsLargest(s: seq<int>, t: seq<int>)
    requires s != [] && t != [] && Distinct(s) == Distinct(t)
    ensures Max(s) <= Max(t)
  {
    var i := MaxBounds(s, |s|);
    var k := MaxBounds(t, |t|);
    assert s[i] in Distinct(t);
    var j :| 0 <= j < |t| && t[j] == s[i];
  }

  /** Everything but the reorders depends on the arrivals only as a multiset. */
  lemma SummaryPermutes(s: seq<int>, t: seq<int>)
    requires multiset(s) == multiset(t)
    ensures Summarise(s).(reorders := 0) == Summarise(t).(reorders := 0)
  {
    SameDistinct(s, t);
    if s != [] {
      MaxIsLargest(s, t);
      MaxIsLargest(t, s);
    }
  }

  // ----- Talker to listener -----

  /** The numbers that arrive when the channel delivers the wire positions `via`. */
  function Arrivals(n: nat, ok: nat -> bool, via: seq<nat>): (s: seq<int>)
    requires forall i | 0 <= i < |via| :: via[i] < |SentSeqs(n, ok)|
    ensures |s| == |via|
  {
    seq(|via|, i requires 0 <= i < |via| => SentSeqs(n, ok)[via[i]])
  }

  /**
   For every run of `n` attempts and every channel that delivers something: the reported loss counts exactly the numbers
   below the last one seen that never arrived; adding the invisible tail gives all that never arrived, which are the
   failed sends and the packets the channel dropped for good. The report is complete iff the last number arrived.
   */
  lemma LossAccounting(n: nat, ok: nat -> bool, via: seq<nat>)
    requires via != [] && forall i | 0 <= i < |via| :: via[i] < |SentSeqs(n, ok)|
    ensures var s := Arrivals(n, ok, via);
      var r := Summarise(s);
      && 0 < r.expected <= n
      && r.lost == |Missing(r.expected, s)|
      && |Missing(n, s)| == r.lost + (n - r.expected)
      && |Missing(n, s)| == (n - |SentSeqs(n, ok)|) + (|SentSeqs(n, ok)| - r.unique)
      && r.unique <= |SentSeqs(n, ok)|
      && (r.lost == |Missing(n, s)| <==> n - 1 in s)
  {
    SentSeqsAscend(n, ok);
    var s := Arrivals(n, ok, via);
    var r := Summarise(s);
    assert Numbered(s, n);
    LostIsMissingIff(s);
    MissingSize(n, s);
    LastArrived(n, s);
    var all := set i | 0 <= i < |SentSeqs(n, ok)| :: SentSeqs(n, ok)[i] as int;
    SentSetSize(n, ok);
    assert Distinct(s) <= all;
    SubsetSize(Distinct(s), all);
  }

  function SeqNos(ps: seq<Received>): (s: seq<int>)
    ensures |s| == |ps|
  {
    seq(|ps|, i requires 0 <= i < |ps| => ps[i].seqNo)
  }

  /**
   From the talker's bytes to the two reports: what the listener unpacks from the datagrams of any talker run, through
   any channel, accounts for every number, and listener and analysis report the same.
   */
  lemma EndToEnd(n: nat, ok: nat -> bool, wall: nat -> u64, size: int,
                 wire: seq<seq<byte>>, via: seq<nat>, arrivals: seq<Arrival>)
    requires n <= 0x1_0000_0000 && via != [] && |wire| == |SentSeqs(n, ok)|
    requires forall i | 0 <= i < |wire| :: var k := SentSeqs(n, ok)[i]; wire[i] == Datagram(k, wall(k), size)
    requires Delivers(wire, via, arrivals)
    ensures var s := SeqNos(Kept(Inbox(arrivals)));
      var r := Summarise(s);
      && r.received == |via| && 0 < r.expected <= n
      && r.lost == |Missing(r.expected, s)|
      && |Missing(n, s)| == r.lost + (n - r.expected) == (n - |wire|) + (|wire| - r.unique)
      && Summarise(s).(reorders := Reorders([-1] + s)) == r
  {
    RowsCarryNumbers(n, ok, wall, size, wire, via, arrivals);
    assert SeqNos(Kept(Inbox(arrivals))) == Arrivals(n, ok, via);
    LossAccounting(n, ok, via);
    ScanAgreesIff(Arrivals(n, ok, via));
  }

  lemma LastArrived(n: nat, s: seq<int>)
    requires s != [] && Numbered(s, n)
    ensures Max(s) == n - 1 <==> n - 1 in s
    ensures 0 <= Max(s) < n
  {
    var at := MaxBounds(s, |s|);
  }

  lemma {:induction false} SentSetSize(n: nat, ok: nat -> bool)
    ensures |set i | 0 <= i < |SentSeqs(n, ok)| :: SentSeqs(n, ok)[i] as int| == |SentSeqs(n, ok)|
  {
    SentSeqsAscend(n, ok);
    AscendingSetSize(SentSeqs(n, ok));
  }

  lemma {:induction false} AscendingSetSize(s: seq<nat>)
    requires forall i, j | 0 <= i < j < |s| :: s[i] < s[j]
    ensures |set i | 0 <= i < |s| :: s[i] as int| == |s|
  {
    var all := set i | 0 <= i < |s| :: s[i] as int;
    if s == [] {
      assert all == {};
    } else {
      var k := |s| - 1;
      AscendingSetSize(s[..k]);
      var rest := set i | 0 <= i < k :: s[..k][i] as int;
      assert all == rest + {s[k]};
    }
  }

  lemma SubsetSize(a: set<int>, b: set<int>)
    requires a <= b
    ensures |a| <= |b|
  {
    assert b == a + (b - a);
  }

  // ----- Several runs -----

  /** `_aggregate_loss`: the counts summed over the runs of a condition. */
  function Aggregate(runs: seq<seq<int>>): Summary {
    if runs == [] then Summary(0, 0, 0, 0, 0, 0)
    else
      var a, b := Aggregate(runs[..|runs| - 1]), Summarise(runs[|runs| - 1]);
      Summary(a.expected + b.expected, a.received + b.received, a.unique + b.unique, a.lost + b.lost,
              a.duplicates + b.duplicates, a.reorders + b.reorders)
  }

  function SumMissing(counts: seq<nat>, runs: seq<seq<int>>): nat
    requires |counts| == |runs|
  {
    if runs == [] then 0
    else var k := |runs| - 1; SumMissing(counts[..k], runs[..k]) + |Missing(counts[k], runs[k])|
  }

  function Sum(counts: seq<nat>): nat {
    if counts == [] then 0 else Sum(counts[..|counts| - 1]) + counts[|counts| - 1]
  }

  /** The accounts still balance after summing over runs, each of which sent `counts[i]` numbers and received some
      of them, or none; there is a loss percentage iff something arrived. */
  lemma {:induction false} AggregateBalances(counts: seq<nat>, runs: seq<seq<int>>)
    requires |counts| == |runs|
    requires forall i | 0 <= i < |runs| :: Numbered(runs[i], counts[i])
    ensures var t := Aggregate(runs);
      && t.received == t.unique + t.duplicates
      && t.expected == t.unique + t.lost
      && SumMissing(counts, runs) == t.lost + (Sum(counts) - t.expected)
      && 0 <= t.lost && 0 <= t.duplicates
      && if (exists i | 0 <= i < |runs| :: runs[i] != [])
         then t.lost < t.expected && t.LossPct().Some? && 0.0 <= t.LossPct().value < 100.0
         else t.expected == 0 && t.LossPct().None?
  {
    if runs != [] {
      var k := |runs| - 1;
      AggregateBalances(counts[..k], runs[..k]);
      RunBalances(counts[k], runs[k]);
      SomeArrived(runs);
      if Aggregate(runs).lost < Aggregate(runs).expected {
        Percentage(Aggregate(runs).lost, Aggregate(runs).expected);
      }
    }
  }

  /** One row of marks for each run. */
  ghost function LateRowsOf(runs: seq<seq<int>>): seq<seq<bool>> {
    seq(|runs|, i requires 0 <= i < |runs| => LateMarks(runs[i]))
  }

  ghost function RepeatsOf(runs: seq<seq<int>>): seq<seq<bool>> {
    seq(|runs|, i requires 0 <= i < |runs| => RepeatMarks(runs[i]))
  }

  ghost function GapsOf(counts: seq<nat>, runs: seq<seq<int>>): seq<seq<bool>>
    requires |counts| == |runs|
  {
    seq(|runs|, i requires 0 <= i < |runs| => GapMarks(runs[i], counts[i]))
  }

  lemma {:induction false} AggregateCounts(counts: seq<nat>, runs: seq<seq<int>>)
    requires |counts| == |runs| && forall i | 0 <= i < |runs| :: Numbered(runs[i], counts[i])
    ensures var t := Aggregate(runs);
      && t.reorders == TotalTrue(LateRowsOf(runs))
      && t.duplicates == TotalTrue(RepeatsOf(runs))
      && t.lost == TotalTrue(GapsOf(counts, runs))
  {
    if runs != [] {
      var k := |runs| - 1;
      AggregateCounts(counts[..k], runs[..k]);
      assert LateRowsOf(runs)[..k] == LateRowsOf(runs[..k]);
      assert RepeatsOf(runs)[..k] == RepeatsOf(runs[..k]);
      assert GapsOf(counts, runs)[..k] == GapsOf(counts[..k], runs[..k]);
      RunCounts(counts[k], runs[k]);
    }
  }

  lemma RunCounts(count: nat, s: seq<int>)
    requires Numbered(s, count)
    ensures var r := Summarise(s);
      && r.reorders == CountTrue(LateMarks(s)) && r.duplicates == CountTrue(RepeatMarks(s))
      && r.lost == CountTrue(GapMarks(s, count))
  {
    LateRowsCount(s, |s|);
    RepeatsCount(s, |s|);
    assert LateMarks(s)[..|s|] == LateMarks(s) && RepeatMarks(s)[..|s|] == RepeatMarks(s) && s[..|s|] == s;
    GapsCount(s, count);
    if s == [] {
      assert Distinct(s) == {};
    }
  }

  /**
   What the summed numbers mean: over all runs, the rows behind a larger number, the rows that repeat a number, and the
   numbers that are missing although a larger one arrived.
   */
  lemma AggregateMeans(counts: seq<nat>, runs: seq<seq<int>>)
    requires |counts| == |runs| && forall i | 0 <= i < |runs| :: Numbered(runs[i], counts[i])
    ensures var t := Aggregate(runs);
      && t.reorders == |set i, j | 0 <= i < |runs| && 0 <= j < |runs[i]|
                                   && (exists k :: 0 <= k < j && runs[i][k] > runs[i][j]) :: (i, j)|
      && t.duplicates == |set i, j | 0 <= i < |runs| && 0 <= j < |runs[i]|
                                     && (exists k :: 0 <= k < j && runs[i][k] == runs[i][j]) :: (i, j)|
      && t.lost == |set i, n | 0 <= i < |runs| && 0 <= n < counts[i] && n !in runs[i]
                               && (exists k :: 0 <= k < |runs[i]| && runs[i][k] > n) :: (i, n)|
  {
    AggregateCounts(counts, runs);
    PairCount(LateRowsOf(runs));
    PairCount(RepeatsOf(runs));
    PairCount(GapsOf(counts, runs));
    LateMarked(runs);
    RepeatsMarked(runs);
    GapsMarked(counts, runs);
  }

  lemma LateMarked(runs: seq<seq<int>>)
    ensures Marked(LateRowsOf(runs)) == set i, j | 0 <= i < |runs| && 0 <= j < |runs[i]|
                                          && (exists k :: 0 <= k < j && runs[i][k] > runs[i][j]) :: (i, j)
  {
  }

  lemma RepeatsMarked(runs: seq<seq<int>>)
    ensures Marked(RepeatsOf(runs)) == set i, j | 0 <= i < |runs| && 0 <= j < |runs[i]|
                                         && (exists k :: 0 <= k < j && runs[i][k] == runs[i][j]) :: (i, j)
  {
  }

  lemma GapsMarked(counts: seq<nat>, runs: seq<seq<int>>)
    requires |counts| == |runs|
    ensures Marked(GapsOf(counts, runs)) == set i, n | 0 <= i < |runs| && 0 <= n < counts[i] && n !in runs[i]
                                              && (exists k :: 0 <= k < |runs[i]| && runs[i][k] > n) :: (i, n)
  {
  }

  ghost function RowsOfRuns(runs: seq<seq<int>>): seq<seq<bool>> {
    seq(|runs|, i requires 0 <= i < |runs| => seq(|runs[i]|, j => true))
  }

  lemma {:induction false} ReceivedCount(runs: seq<seq<int>>)
    ensures Aggregate(runs).received == TotalTrue(RowsOfRuns(runs))
  {
    if runs != [] {
      var k := |runs| - 1;
      ReceivedCount(runs[..k]);
      assert RowsOfRuns(runs)[..k] == RowsOfRuns(runs[..k]);
      AllTrue(RowsOfRuns(runs)[k]);
    }
  }

  /** All rows of all runs are received ones. */
  lemma AggregateReceived(runs: seq<seq<int>>)
    ensures Aggregate(runs).received == |set i, j | 0 <= i < |runs| && 0 <= j < |runs[i]| :: (i, j)|
  {
    ReceivedCount(runs);
    PairCount(RowsOfRuns(runs));
    assert Marked(RowsOfRuns(runs)) == set i, j | 0 <= i < |runs| && 0 <= j < |runs[i]| :: (i, j);
  }

  lemma SomeArrived(runs: seq<seq<int>>)
    requires runs != []
    ensures var k := |runs| - 1;
      (exists i | 0 <= i < |runs| :: runs[i] != []) <==>
      runs[k] != [] || exists i | 0 <= i < k :: runs[..k][i] != []
  {
    var k := |runs| - 1;
    if i :| 0 <= i < k && runs[i] != [] {
      assert runs[..k][i] != [];
    }
  }

  lemma RunBalances(count: nat, s: seq<int>)
    requires Numbered(s, count)
    ensures var r := Summarise(s);
      && r.received == r.unique + r.duplicates && r.expected == r.unique + r.lost
      && |Missing(count, s)| == r.lost + (count - r.expected)
      && 0 <= r.lost && 0 <= r.duplicates
      && if s == [] then r.expected == 0 else r.lost < r.expected
  {
    MissingSize(count, s);
    DistinctBounds(s);
    if s == [] {
      assert Distinct(s) == {};
    } else {
      LastArrived(count, s);
      var at := MaxBounds(s, |s|);
      MissingSize(Max(s) + 1, s);
    }
  }

  lemma {:induction false} DistinctBounds(s: seq<int>)
    ensures |Distinct(s)| <= |s|
    ensures s != [] ==> |Distinct(s)| > 0
  {
    if s != [] {
      var k := |s| - 1;
      DistinctBounds(s[..k]);
      assert Distinct(s) == Distinct(s[..k]) + {s[k]};
    }
  }

  lemma Percentage(lost: int, expected: int)
    requires 0 <= lost < expected
    ensures 0.0 <= 100.0 * lost as real / expected as real < 100.0
  {
    var q := 100.0 * lost as real / expected as real;
    assert q * expected as real == 100.0 * lost as real;
  }
}
