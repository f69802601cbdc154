/**
 The resampling loop of `bootstrap_ci`. The random generator is any stream of draws, the statistic and the percentile
 any functions; what is proved is that drawing the resamples in chunks makes no difference.
 */
module Bootstrap {

  type Statistic = seq<real> -> real

  /** A generator: `draws` is its stream of indices, `pos` how many have been used. */
  class Rng {
    const draws: nat -> nat
    var pos: nat

    constructor (draws: nat -> nat)
      ensures this.draws == draws && pos == 0
    {
      this.draws, pos := draws, 0;
    }

    /** `integers(0, n, size=(rows, cols))`: the next rows * cols draws, row by row. */
    method Integers(rows: nat, cols: nat) returns (m: seq<seq<nat>>)
      modifies this
      ensures pos == old(pos) + rows * cols
      ensures |m| == rows
      ensures forall r | 0 <= r < rows :: m[r] == Draws(draws, old(pos) + r * cols, cols)
    {
      m := [];
      while |m| < rows
        invariant |m| <= rows && pos == old(pos) + |m| * cols
        invariant forall r | 0 <= r < |m| :: m[r] == Draws(draws, old(pos) + r * cols, cols)
      {
        m := m + [Draws(draws, pos, cols)];
        pos := pos + cols;
        assert (|m| - 1) * cols + cols == |m| * cols;
      }
    }
  }

  function Draws(draws: nat -> nat, start: nat, n: nat): (d: seq<nat>)
    ensures |d| == n
  {
    seq(n, i requires 0 <= i => draws(start + i))
  }

  /** The generator only produces indices into the sample. */
  ghost predicate InRange(draws: nat -> nat, n: nat) { forall i: nat :: draws(i) < n }

  /** The elements of `x` at the given indices. */
  function Pick(x: seq<real>, idx: seq<nat>): seq<real>
    requires forall i | 0 <= i < |idx| :: idx[i] < |x|
  {
    seq(|idx|, i requires 0 <= i < |idx| => x[idx[i]])
  }

  /** Resample number `i` of a stream that starts at `start`: the i-th block of |x| draws. */
  function Resample(x: seq<real>, draws: nat -> nat, start: nat, i: nat): seq<real>
    requires InRange(draws, |x|)
  {
    Pick(x, Draws(draws, start + i * |x|, |x|))
  }

  /** The array of one unchunked draw. */
  function Unchunked(x: seq<real>, stat: Statistic, nBoot: nat, draws: nat -> nat, start: nat): seq<real>
    requires InRange(draws, |x|)
  {
    seq(nBoot, i requires 0 <= i < nBoot => stat(Resample(x, draws, start, i)))
  }

  /** Value `i` is the statistic of the elements drawn with numbers i * |x| to i * |x| + |x| - 1. */
  lemma UnchunkedMeans(x: seq<real>, stat: Statistic, nBoot: nat, draws: nat -> nat, start: nat)
    requires InRange(draws, |x|)
    ensures var u := Unchunked(x, stat, nBoot, draws, start);
      && |u| == nBoot
      && forall i: nat | i < nBoot ::
           u[i] == stat(seq(|x|, c requires 0 <= c < |x| => x[draws(start + i * |x| + c)]))
  {
    forall i: nat | i < nBoot
      ensures Resample(x, draws, start, i) == seq(|x|, c requires 0 <= c < |x| => x[draws(start + i * |x| + c)])
    {
    }
  }

  /** `stat` of every row of indices. */
  function Rows(x: seq<real>, stat: Statistic, idx: seq<seq<nat>>): (v: seq<real>)
    requires forall r | 0 <= r < |idx| :: forall i | 0 <= i < |idx[r]| :: idx[r][i] < |x|
    ensures |v| == |idx|
  {
    seq(|idx|, r requires 0 <= r < |idx| => stat(Pick(x, idx[r])))
  }

  lemma RowsAreResamples(x: seq<real>, stat: Statistic, idx: seq<seq<nat>>, draws: nat -> nat, start: nat)
    requires InRange(draws, |x|)
    requires forall r | 0 <= r < |idx| :: forall i | 0 <= i < |idx[r]| :: idx[r][i] < |x|
    requires forall r | 0 <= r < |idx| :: idx[r] == Draws(draws, start + r * |x|, |x|)
    ensures Rows(x, stat, idx) == Unchunked(x, stat, |idx|, draws, start)
  {
    var values := Rows(x, stat, idx);
    forall r | 0 <= r < |idx| ensures values[r] == stat(Resample(x, draws, start, r)) {
      assert idx[r] == Draws(draws, start + r * |x|, |x|);
    }
  }

  /** The statement in the loop: draw `k` resamples and store their statistics from slot `at` on. */
  method FillSlice(x: seq<real>, stat: Statistic, boots: array<real>, at: nat, k: nat, rng: Rng)
    requires InRange(rng.draws, |x|) && at + k <= boots.Length
    modifies rng, boots
    ensures rng.pos == old(rng.pos) + k * |x|
    ensures boots[..] == old(boots[..at]) + Unchunked(x, stat, k, rng.draws, old(rng.pos)) + old(boots[at + k..])
  {
    var idx := rng.Integers(k, |x|);
    var values := Rows(x, stat, idx);
    RowsAreResamples(x, stat, idx, rng.draws, old(rng.pos));
    forall i | 0 <= i < |values| {
      boots[at + i] := values[i];
    }
  }

  /**
   The while loop of `bootstrap_ci`. For every chunk size of at least 1 it ends and leaves the array, and the
   generator, as one unchunked draw would. `slices` records which slots each iteration wrote, from where to where.
   */
  method Resamples(x: seq<real>, stat: Statistic, nBoot: nat, chunk: nat, rng: Rng)
    returns (boots: array<real>, ghost slices: seq<(nat, nat)>)
    requires chunk >= 1 && InRange(rng.draws, |x|)
    modifies rng
    ensures fresh(boots)
    ensures boots[..] == Unchunked(x, stat, nBoot, rng.draws, old(rng.pos))
    ensures var draws, start := rng.draws, old(rng.pos);
      && boots.Length == nBoot
      && forall i: nat | i < nBoot ::
           boots[i] == stat(seq(|x|, c requires 0 <= c < |x| => x[draws(start + i * |x| + c)]))
    ensures rng.pos == old(rng.pos) + nBoot * |x|
    ensures Progress(|slices|, nBoot, slices, nBoot, chunk)
  {
    ghost var start := rng.pos;
    boots := new real[nBoot];
    slices := [];
    var done := 0;
    while done < nBoot
      invariant 0 <= done <= nBoot && fresh(boots) && boots.Length == nBoot
      invariant Progress(|slices|, done, slices, nBoot, chunk)
      invariant rng.pos == start + done * |x|
      invariant boots[..done] == Unchunked(x, stat, done, rng.draws, start)
    {
      var k := if chunk < nBoot - done then chunk else nBoot - done;
      FillSlice(x, stat, boots, done, k, rng);
      ChunkIsBlock(x, stat, rng.draws, start, done, k);
      NextSlice(done, k, slices, nBoot, chunk);
      slices := slices + [(done, done + k)];
      done := done + k;
    }
    UnchunkedMeans(x, stat, nBoot, rng.draws, start);
  }

  /** A chunk continues the unchunked array where the chunks before it ended. */
  lemma ChunkIsBlock(x: seq<real>, stat: Statistic, draws: nat -> nat, start: nat, done: nat, k: nat)
    requires InRange(draws, |x|)
    ensures Unchunked(x, stat, done, draws, start) + Unchunked(x, stat, k, draws, start + done * |x|) ==
            Unchunked(x, stat, done + k, draws, start)
    ensures start + done * |x| + k * |x| == start + (done + k) * |x|
  {
    BlockOffset(start, done, k, |x|);
    var chunk := Unchunked(x, stat, k, draws, start + done * |x|);
    forall r | 0 <= r < k ensures chunk[r] == stat(Resample(x, draws, start, done + r)) {
      BlockOffset(start, done, r, |x|);
      assert chunk[r] == stat(Resample(x, draws, start + done * |x|, r));
      assert Resample(x, draws, start + done * |x|, r) == Resample(x, draws, start, done + r);
    }
  }

  lemma BlockOffset(start: nat, done: nat, r: nat, n: nat)
    ensures start + done * n + r * n == start + (done + r) * n
  {
  }

  // ----- When the loop ends -----

  /** `done` after `t` iterations. */
  function DoneAfter(t: nat, nBoot: nat, chunk: nat): (done: nat)
    ensures done <= nBoot
  {
    if t == 0 then 0
    else
      var done := DoneAfter(t - 1, nBoot, chunk);
      done + if chunk < nBoot - done then chunk else nBoot - done
  }

  /** The slices written by `t` iterations. */
  function Slices(t: nat, nBoot: nat, chunk: nat): seq<(nat, nat)> {
    if t == 0 then []
    else Slices(t - 1, nBoot, chunk) + [(DoneAfter(t - 1, nBoot, chunk), DoneAfter(t, nBoot, chunk))]
  }

  /** Where the loop is after `t` iterations, all of which had something to do. */
  predicate Progress(t: nat, done: nat, slices: seq<(nat, nat)>, nBoot: nat, chunk: nat) {
    && done == DoneAfter(t, nBoot, chunk) && slices == Slices(t, nBoot, chunk)
    && (t > 0 ==> DoneAfter(t - 1, nBoot, chunk) < nBoot)
  }

  lemma NextSlice(done: nat, k: nat, slices: seq<(nat, nat)>, nBoot: nat, chunk: nat)
    requires Progress(|slices|, done, slices, nBoot, chunk) && done < nBoot
    requires k == if chunk < nBoot - done then chunk else nBoot - done
    ensures Progress(|slices| + 1, done + k, slices + [(done, done + k)], nBoot, chunk)
  {
  }

  lemma {:induction false} DoneClosedForm(t: nat, nBoot: nat, chunk: nat)
    ensures DoneAfter(t, nBoot, chunk) == if t * chunk < nBoot then t * chunk else nBoot
  {
    if t > 0 {
      DoneClosedForm(t - 1, nBoot, chunk);
      assert t * chunk == (t - 1) * chunk + chunk;
    }
  }

  /** With resamples to draw, the loop ends iff the chunk size is not 0; it then takes nBoot / chunk iterations,
      rounded up. */
  lemma EndsIffChunkPositive(nBoot: nat, chunk: nat)
    requires nBoot > 0
    ensures (exists t: nat :: DoneAfter(t, nBoot, chunk) == nBoot) <==> chunk >= 1
    ensures chunk >= 1 ==> forall t: nat :: DoneAfter(t, nBoot, chunk) == nBoot <==> t >= (nBoot + chunk - 1) / chunk
  {
    forall t: nat
      ensures DoneAfter(t, nBoot, chunk) == nBoot <==> t * chunk >= nBoot
    {
      DoneClosedForm(t, nBoot, chunk);
    }
    if chunk >= 1 {
      forall t: nat
        ensures DoneAfter(t, nBoot, chunk) == nBoot <==> t >= (nBoot + chunk - 1) / chunk
      {
        CeilingDivision(t, nBoot, chunk);
      }
      assert DoneAfter((nBoot + chunk - 1) / chunk, nBoot, chunk) == nBoot;
    }
  }

  /** Every slot is written exactly once: of all slices of the finished loop, slot `i` lies in that of iteration
      i / chunk and in no other. */
  lemma EachSlotOnce(slices: seq<(nat, nat)>, i: nat, nBoot: nat, chunk: nat)
    requires chunk >= 1 && i < nBoot && Progress(|slices|, nBoot, slices, nBoot, chunk)
    ensures i / chunk < |slices|
    ensures forall t | 0 <= t < |slices| :: slices[t].0 <= i < slices[t].1 <==> t == i / chunk
  {
    var q := i / chunk;
    forall t | 0 <= t < |slices| ensures slices[t].0 <= i < slices[t].1 <==> t == q {
      SlicesAt(|slices|, nBoot, chunk, t);
      SliceSlots(i, nBoot, chunk, t);
    }
    DoneClosedForm(|slices|, nBoot, chunk);
    QuotientBelow(i, chunk, |slices|);
  }

  lemma QuotientBelow(i: nat, c: nat, n: nat)
    requires c >= 1 && i < n * c
    ensures i / c < n
  {
    var q := i / c;
    assert q * c <= i;
    assert n <= q ==> n * c <= q * c;
  }

  lemma {:induction false} SlicesAt(n: nat, nBoot: nat, chunk: nat, t: nat)
    ensures |Slices(n, nBoot, chunk)| == n
    ensures t < n ==> Slices(n, nBoot, chunk)[t] == (DoneAfter(t, nBoot, chunk), DoneAfter(t + 1, nBoot, chunk))
  {
    if n > 0 {
      SlicesAt(n - 1, nBoot, chunk, t);
    }
  }

  lemma SliceSlots(i: nat, nBoot: nat, chunk: nat, t: nat)
    requires chunk >= 1 && i < nBoot
    ensures DoneAfter(t, nBoot, chunk) <= i < DoneAfter(t + 1, nBoot, chunk) <==> t == i / chunk
  {
    DoneClosedForm(t, nBoot, chunk);
    DoneClosedForm(t + 1, nBoot, chunk);
    assert (t + 1) * chunk == t * chunk + chunk;
    QuotientUnique(i, chunk, t);
  }

  /** The finished loop took nBoot / chunk iterations, rounded up. */
  lemma IterationCount(slices: seq<(nat, nat)>, nBoot: nat, chunk: nat)
    requires chunk >= 1 && Progress(|slices|, nBoot, slices, nBoot, chunk)
    ensures |slices| == (nBoot + chunk - 1) / chunk
  {
    var t := |slices|;
    DoneClosedForm(t, nBoot, chunk);
    CeilingDivision(t, nBoot, chunk);
    if t > 0 {
      DoneClosedForm(t - 1, nBoot, chunk);
      CeilingDivision(t - 1, nBoot, chunk);
    }
  }

  lemma QuotientUnique(i: nat, c: nat, t: nat)
    requires c >= 1
    ensures t * c <= i < t * c + c <==> t == i / c
  {
    var q := i / c;
    assert q * c <= i < q * c + c;
    if t < q {
      assert t * c + c == (t + 1) * c <= q * c;
    } else if t > q {
      assert q * c + c == (q + 1) * c <= t * c;
    }
  }

  lemma CeilingDivision(t: nat, n: nat, c: nat)
    requires c >= 1
    ensures t * c >= n <==> t >= (n + c - 1) / c
  {
    var q := (n + c - 1) / c;
    assert n <= q * c < n + c;
    if t >= q {
      assert t * c >= q * c;
    } else {
      assert t * c <= (q - 1) * c == q * c - c;
    }
  }

  // ----- The interval -----

  /** NaN for an empty sample. */
  datatype CI = NaN | CI(point: real, low: real, high: real)

  /** The interval by the unchunked definition. */
  function Interval(x: seq<real>, stat: Statistic, nBoot: int, ci: real, draws: nat -> nat,
                    percentile: (seq<real>, real) -> real): CI
    requires InRange(draws, |x|) || |x| == 0
  {
    if x == [] then NaN
    else if |x| == 1 || nBoot <= 0 then CI(stat(x), stat(x), stat(x))
    else
      var boots := Unchunked(x, stat, nBoot, draws, 0);
      var alpha := (1.0 - ci) / 2.0;
      CI(stat(x), percentile(boots, 100.0 * alpha), percentile(boots, 100.0 * (1.0 - alpha)))
  }

  /**
   The bounds are the percentiles of the resampled statistics at 50 - 50 ci and 50 + 50 ci, which leave out equal tails
   and cover the share ci; one value, or no resamples, give the point alone.
   */
  lemma IntervalMeans(x: seq<real>, stat: Statistic, nBoot: int, ci: real, draws: nat -> nat,
                      percentile: (seq<real>, real) -> real, boots: seq<real>)
    requires InRange(draws, |x|) || |x| == 0
    requires x != [] && nBoot >= 0 ==>
               && |boots| == nBoot
               && forall i: nat | i < nBoot ::
                    boots[i] == stat(seq(|x|, c requires 0 <= c < |x| => x[draws(i * |x| + c)]))
    ensures var r := Interval(x, stat, nBoot, ci, draws, percentile);
      if |x| == 0 then r == NaN
      else if |x| == 1 || nBoot <= 0 then r == CI(stat(x), stat(x), stat(x))
      else r == CI(stat(x), percentile(boots, 50.0 - 50.0 * ci), percentile(boots, 50.0 + 50.0 * ci))
  {
    if |x| > 1 && nBoot > 0 {
      UnchunkedMeans(x, stat, nBoot, draws, 0);
      assert boots == Unchunked(x, stat, nBoot, draws, 0) by {
        forall i: nat | i < nBoot ensures boots[i] == Unchunked(x, stat, nBoot, draws, 0)[i] {
          assert seq(|x|, c requires 0 <= c < |x| => x[draws(i * |x| + c)]) ==
                 seq(|x|, c requires 0 <= c < |x| => x[draws(0 + i * |x| + c)]);
        }
      }
    }
  }

  /** `bootstrap_ci`: the interval does not depend on the chunk size. */
  method BootstrapCi(x: seq<real>, stat: Statistic, nBoot: int, ci: real, draws: nat -> nat, chunk: nat,
                     percentile: (seq<real>, real) -> real) returns (r: CI)
    requires chunk >= 1
    requires InRange(draws, |x|) || |x| == 0
    ensures r == Interval(x, stat, nBoot, ci, draws, percentile)
  {
    if |x| == 0 {
      return NaN;
    }
    var point := stat(x);
    if |x| == 1 || nBoot <= 0 {
      return CI(point, point, point);
    }
    var rng := new Rng(draws);
    var boots, _ := Resamples(x, stat, nBoot, chunk, rng);
    var alpha := (1.0 - ci) / 2.0;
    return CI(point, percentile(boots[..], 100.0 * alpha), percentile(boots[..], 100.0 * (1.0 - alpha)));
  }
}
