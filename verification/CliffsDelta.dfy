/**
 Cliff's delta: the fast form (sort one sample, binary-search the other's elements in it) against the definition,
 the sum of signs over all pairs. Samples hold no NaN; everything depends on their order only.
 */
module CliffsDelta {
  import opened Wrappers

  type Sample = seq<real>

  // ----- The definition -----

  function Sign(x: real, y: real): int { if x > y then 1 else if x < y then -1 else 0 }

  /** The signs of `x` against every element of `b`. */
  function Row(x: real, b: Sample): int {
    if b == [] then 0 else Sign(x, b[0]) + Row(x, b[1..])
  }

  /** The signs of every pair. */
  function Pairs(a: Sample, b: Sample): int {
    if a == [] then 0 else Row(a[0], b) + Pairs(a[1..], b)
  }

  // ----- The fast form -----

  predicate Sorted(s: Sample) { forall i, j | 0 <= i < j < |s| :: s[i] <= s[j] }

  function Insert(x: real, s: Sample): (r: Sample)
    ensures |r| == |s| + 1
  {
    if s == [] || x <= s[0] then [x] + s else [s[0]] + Insert(x, s[1..])
  }

  function Sort(s: Sample): (r: Sample)
    ensures |r| == |s|
  {
    if s == [] then [] else Insert(s[0], Sort(s[1..]))
  }

  lemma {:induction false} InsertPermutes(x: real, s: Sample)
    ensures multiset(Insert(x, s)) == multiset(s) + multiset{x}
  {
    if s != [] && x > s[0] {
      InsertPermutes(x, s[1..]);
      assert s == [s[0]] + s[1..];
    }
  }

  lemma {:induction false} InsertKeepsSorted(x: real, s: Sample)
    requires Sorted(s)
    ensures Sorted(Insert(x, s))
    ensures forall i | 0 <= i < |s| + 1 :: Insert(x, s)[i] == x || Insert(x, s)[i] in s
  {
    if s != [] && x > s[0] {
      InsertKeepsSorted(x, s[1..]);
      var rest := Insert(x, s[1..]);
      forall i | 0 <= i < |rest| ensures s[0] <= rest[i] && (rest[i] == x || rest[i] in s) {
        assert rest[i] == x || rest[i] in s[1..];
      }
    }
  }

  /** `np.sort`: a sorted permutation. */
  lemma {:induction false} SortSorts(s: Sample)
    ensures Sorted(Sort(s)) && multiset(Sort(s)) == multiset(s)
  {
    if s != [] {
      SortSorts(s[1..]);
      InsertPermutes(s[0], Sort(s[1..]));
      InsertKeepsSorted(s[0], Sort(s[1..]));
      assert s == [s[0]] + s[1..];
    }
  }

  /** Where `x` goes in a sorted sample: before its equals, or, from the right, behind them. */
  predicate GoesBefore(y: real, x: real, right: bool) { y < x || (right && y == x) }

  /** `searchsorted`, by bisection of [lo, hi). */
  function SearchSorted(b: Sample, x: real, right: bool, lo: nat, hi: nat): (k: nat)
    requires Sorted(b) && lo <= hi <= |b|
    requires forall i | 0 <= i < lo :: GoesBefore(b[i], x, right)
    requires forall i | hi <= i < |b| :: !GoesBefore(b[i], x, right)
    ensures lo <= k <= hi
    ensures forall i | 0 <= i < k :: GoesBefore(b[i], x, right)
    ensures forall i | k <= i < |b| :: !GoesBefore(b[i], x, right)
    decreases hi - lo
  {
    if lo == hi then lo
    else
      var mid := (lo + hi) / 2;
      if GoesBefore(b[mid], x, right) then SearchSorted(b, x, right, mid + 1, hi)
      else SearchSorted(b, x, right, lo, mid)
  }

  /** How many elements of sorted `b` are smaller than each of `a`, in all. */
  function Less(a: Sample, b: Sample): int
    requires Sorted(b)
  {
    if a == [] then 0 else SearchSorted(b, a[0], false, 0, |b|) + Less(a[1..], b)
  }

  /** How many elements of sorted `b` are larger than each of `a`, in all. */
  function Greater(a: Sample, b: Sample): int
    requires Sorted(b)
  {
    if a == [] then 0 else |b| - SearchSorted(b, a[0], true, 0, |b|) + Greater(a[1..], b)
  }

  /** `cliffs_delta`; None stands for NaN. */
  function Delta(a: Sample, b: Sample): Option<real> {
    SortSorts(b);
    var sorted := Sort(b);
    if a == [] || b == [] then None
    else Some((Less(a, sorted) - Greater(a, sorted)) as real / (|a| * |b|) as real)
  }

  // ----- The fast form computes the definition -----

  lemma {:induction false} RowConcat(x: real, b: Sample, c: Sample)
    ensures Row(x, b + c) == Row(x, b) + Row(x, c)
  {
    if b == [] {
      assert b + c == c;
    } else {
      assert (b + c)[1..] == b[1..] + c;
      RowConcat(x, b[1..], c);
    }
  }

  lemma {:induction false} RowConstant(x: real, b: Sample, sign: int)
    requires forall i | 0 <= i < |b| :: Sign(x, b[i]) == sign
    ensures Row(x, b) == sign * |b|
  {
    if b != [] {
      RowConstant(x, b[1..], sign);
    }
  }

  /** Bisection from both sides splits a sorted sample into smaller, equal and larger elements. */
  lemma FastRow(x: real, b: Sample)
    requires Sorted(b)
    ensures SearchSorted(b, x, false, 0, |b|) - (|b| - SearchSorted(b, x, true, 0, |b|)) == Row(x, b)
  {
    var l, r := SearchSorted(b, x, false, 0, |b|), SearchSorted(b, x, true, 0, |b|);
    assert r < |b| ==> !GoesBefore(b[r], x, false);
    RowSplit(x, b, l, r);
  }

  lemma RowSplit(x: real, b: Sample, l: nat, r: nat)
    requires l <= r <= |b|
    requires forall i | 0 <= i < l :: b[i] < x
    requires forall i | l <= i < r :: b[i] == x
    requires forall i | r <= i < |b| :: b[i] > x
    ensures Row(x, b) == l - (|b| - r)
  {
    RowConstant(x, b[..l], 1);
    RowConstant(x, b[l..r], 0);
    RowConstant(x, b[r..], -1);
    assert b[l..] == b[l..r] + b[r..];
    RowConcat(x, b[l..r], b[r..]);
    assert b == b[..l] + b[l..];
    RowConcat(x, b[..l], b[l..]);
  }

  lemma {:induction false} FastOnSorted(a: Sample, b: Sample)
    requires Sorted(b)
    ensures Less(a, b) - Greater(a, b) == Pairs(a, b)
  {
    if a != [] {
      FastOnSorted(a[1..], b);
      FastRow(a[0], b);
    }
  }

  // ----- Symmetries of the definition -----

  lemma {:induction false} PairsCons(a: Sample, y: real, b: Sample)
    ensures Pairs(a, [y] + b) == Pairs(a, b) - Row(y, a)
  {
    if a != [] {
      PairsCons(a[1..], y, b);
      assert ([y] + b)[1..] == b;
    }
  }

  /** Swapping the samples flips the sign. */
  lemma {:induction false} PairsAntisymmetric(a: Sample, b: Sample)
    ensures Pairs(a, b) == -Pairs(b, a)
  {
    if b == [] {
      PairsEmpty(a);
    } else {
      assert b == [b[0]] + b[1..];
      PairsCons(a, b[0], b[1..]);
      PairsAntisymmetric(a, b[1..]);
    }
  }

  lemma {:induction false} PairsEmpty(a: Sample)
    ensures Pairs(a, []) == 0
  {
    if a != [] {
      PairsEmpty(a[1..]);
    }
  }

  lemma {:induction false} PairsTakeOut(a: Sample, i: nat, b: Sample)
    requires i < |a|
    ensures Pairs(a, b) == Row(a[i], b) + Pairs(a[..i] + a[i + 1..], b)
  {
    var rest := a[..i] + a[i + 1..];
    if i == 0 {
      assert rest == a[1..];
    } else {
      PairsTakeOut(a[1..], i - 1, b);
      assert rest[1..] == a[1..][..i - 1] + a[1..][i..];
    }
  }

  /** Only the multiset of the first sample matters. */
  lemma {:induction false} PairsPermuteLeft(a: Sample, a': Sample, b: Sample)
    requires multiset(a) == multiset(a')
    ensures Pairs(a, b) == Pairs(a', b)
    decreases |a|
  {
    if a == [] {
      assert |multiset(a')| == 0;
    } else {
      assert a[0] in multiset(a');
      var i :| 0 <= i < |a'| && a'[i] == a[0];
      MultisetTakeOut(a, a', i);
      PairsTakeOut(a', i, b);
      PairsPermuteLeft(a[1..], a'[..i] + a'[i + 1..], b);
    }
  }

  lemma MultisetTakeOut(a: Sample, a': Sample, i: nat)
    requires a != [] && multiset(a) == multiset(a') && i < |a'| && a'[i] == a[0]
    ensures multiset(a[1..]) == multiset(a'[..i] + a'[i + 1..])
  {
    var front, back := a'[..i], a'[i + 1..];
    assert a == [a[0]] + a[1..];
    assert a' == front + [a'[i]] + back;
    assert multiset(a') == multiset(front) + multiset{a[0]} + multiset(back);
    assert multiset(a) == multiset{a[0]} + multiset(a[1..]);
    assert multiset(front + back) == multiset(front) + multiset(back);
    assert multiset(front + back) == multiset(a) - multiset{a[0]};
  }

  /** Only the multisets of the samples matter. */
  lemma PairsPermute(a: Sample, a': Sample, b: Sample, b': Sample)
    requires multiset(a) == multiset(a') && multiset(b) == multiset(b')
    ensures Pairs(a, b) == Pairs(a', b')
  {
    PairsPermuteLeft(a, a', b);
    PairsAntisymmetric(a', b);
    PairsPermuteLeft(b, b', a');
    PairsAntisymmetric(a', b');
  }

  lemma {:induction false} RowBounds(x: real, b: Sample)
    ensures -|b| <= Row(x, b) <= |b|
    ensures Row(x, b) == |b| <==> forall j | 0 <= j < |b| :: x > b[j]
  {
    if b != [] {
      RowBounds(x, b[1..]);
      assert forall j | 0 < j < |b| :: b[j] == b[1..][j - 1];
    }
  }

  lemma {:induction false} PairsBounds(a: Sample, b: Sample)
    ensures -(|a| * |b|) <= Pairs(a, b) <= |a| * |b|
    ensures Pairs(a, b) == |a| * |b| <==> forall i, j | 0 <= i < |a| && 0 <= j < |b| :: a[i] > b[j]
  {
    if a != [] {
      RowBounds(a[0], b);
      PairsBounds(a[1..], b);
      assert |a| * |b| == |a[1..]| * |b| + |b|;
      assert forall i | 0 < i < |a| :: a[i] == a[1..][i - 1];
    }
  }

  // ----- The result -----

  /** The fast form is the definition, for all samples and whatever ties they hold; NaN iff a sample is empty. */
  lemma DeltaIsPairs(a: Sample, b: Sample)
    ensures Delta(a, b) == if a == [] || b == [] then None else Some(Pairs(a, b) as real / (|a| * |b|) as real)
  {
    SortSorts(b);
    FastOnSorted(a, Sort(b));
    PairsPermute(a, a, Sort(b), b);
  }

  /** The order of the samples is irrelevant. */
  lemma DeltaPermute(a: Sample, b: Sample, a': Sample, b': Sample)
    requires multiset(a) == multiset(a') && multiset(b) == multiset(b')
    ensures Delta(a, b) == Delta(a', b')
  {
    assert |a'| == |multiset(a')| == |multiset(a)| == |a| && |b'| == |multiset(b')| == |multiset(b)| == |b|;
    DeltaIsPairs(a, b);
    DeltaIsPairs(a', b');
    PairsPermute(a, a', b, b');
  }

  /** Delta flips its sign with the samples. */
  lemma DeltaAntisymmetric(a: Sample, b: Sample)
    ensures Delta(b, a) == if Delta(a, b).None? then None else Some(-Delta(a, b).value)
  {
    DeltaIsPairs(a, b);
    DeltaIsPairs(b, a);
    PairsAntisymmetric(a, b);
    if a != [] && b != [] {
      PositiveProduct(|a|, |b|);
      Negated(Pairs(a, b), |a| * |b|);
    }
  }

  /** Delta lies in [-1, 1] and is 1 only for complete separation: every element of `a` above every element of `b`. */
  lemma DeltaRange(a: Sample, b: Sample)
    requires a != [] && b != []
    ensures Delta(a, b).Some? && -1.0 <= Delta(a, b).value <= 1.0
    ensures Delta(a, b).value == 1.0 <==> forall i, j | 0 <= i < |a| && 0 <= j < |b| :: a[i] > b[j]
  {
    DeltaIsPairs(a, b);
    PairsBounds(a, b);
    PositiveProduct(|a|, |b|);
    Ratio(Pairs(a, b), |a| * |b|);
  }

  lemma PositiveProduct(x: int, y: int)
    requires x > 0 && y > 0
    ensures x * y == y * x > 0
  {
  }

  lemma Negated(n: int, d: int)
    requires d > 0
    ensures (-n) as real / d as real == -(n as real / d as real)
  {
  }

  lemma Ratio(n: int, d: int)
    requires d > 0 && -d <= n <= d
    ensures -1.0 <= n as real / d as real <= 1.0
    ensures n as real / d as real == 1.0 <==> n == d
  {
    var q := n as real / d as real;
    assert q * d as real == n as real;
    if q == 1.0 {
      assert n as real == d as real;
    }
  }
}
