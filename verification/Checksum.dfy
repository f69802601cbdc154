/**
 The Internet checksum (section 2 of RFC 1071) from scratch, and its incremental
 update (equation 3 in section 3 of RFC 1624), which `mark_dscp` relies on.

 Everything rests on one fact: folding a sum to 16 bits picks the representative
 modulo 0xFFFF that is 0 only when the sum itself is 0. An IPv4 header never sums
 to 0, so its checksum has no 0x0000/0xFFFF ambiguity to get wrong.
 */
module Checksum {
  import opened Bytes

  /** The sum of the network-order words of `h`; an odd trailing byte is padded with 0. */
  function WordSum(h: seq<byte>): nat {
    if |h| == 0 then 0
    else if |h| == 1 then Word(h[0], 0)
    else U16At(h, 0) + WordSum(h[2..])
  }

  /** The one's-complement value of a sum: its residue modulo 0xFFFF, as 0xFFFF rather than 0 for positive
      multiples. */
  function Residue(s: nat): u16 {
    if s == 0 then 0 else (s - 1) % 0xFFFF + 1
  }

  /** What `ip_checksum` returns. */
  function IpChecksum(h: seq<byte>): u16 {
    0xFFFF - Residue(WordSum(h))
  }

  /** `ip_checksum`: pad to whole words, sum them, fold the carries back in; proved against the closed form. */
  method ComputeIpChecksum(hdr: seq<byte>) returns (checksum: u16)
    ensures checksum == IpChecksum(hdr)
  {
    var h := if |hdr| % 2 == 1 then hdr + [0] else hdr;
    PaddingKeepsSum(hdr);
    var s := WordSum(h);
    while s / 0x1_0000 != 0
      invariant Residue(s) == Residue(WordSum(hdr))
      decreases s
    {
      FoldKeepsResidue(s);
      s := s % 0x1_0000 + s / 0x1_0000;
    }
    checksum := 0xFFFF - s;
  }

  lemma {:induction false} PaddingKeepsSum(h: seq<byte>)
    ensures |h| % 2 == 1 ==> WordSum(h + [0]) == WordSum(h)
  {
    if |h| == 1 {
      assert (h + [0])[2..] == [];
    } else if |h| > 1 {
      assert (h + [0])[2..] == h[2..] + [0];
      PaddingKeepsSum(h[2..]);
    }
  }

  /** Overwriting the word at offset `2 * k` changes the sum by the difference of the two words. */
  lemma {:induction false} WordSumUpdate(h: seq<byte>, k: nat, hi: byte, lo: byte)
    requires 2 * k + 2 <= |h|
    ensures WordSum(h[2 * k := hi][2 * k + 1 := lo]) == WordSum(h) - U16At(h, 2 * k) + Word(hi, lo)
  {
    var h' := h[2 * k := hi][2 * k + 1 := lo];
    if k == 0 {
      assert h'[2..] == h[2..];
    } else {
      assert h'[2..] == h[2..][2 * (k - 1) := hi][2 * (k - 1) + 1 := lo];
      WordSumUpdate(h[2..], k - 1, hi, lo);
    }
  }

  lemma {:induction false} PositiveSum(h: seq<byte>)
    requires |h| >= 1 && h[0] > 0
    ensures WordSum(h) > 0
  {
  }

  /** 16-bit addition with end-around carry. */
  function EndAroundAdd(a: u16, b: u16): u16 {
    if a + b < 0x1_0000 then a + b else a + b - 0xFFFF
  }

  /** Equation 3 of RFC 1624: HC' = ~(~HC + ~m + m'). This is `bpf_l3_csum_replace` on a 16-bit field. */
  function CsumReplace(check: u16, from: u16, to: u16): u16 {
    0xFFFF - EndAroundAdd(EndAroundAdd(0xFFFF - check, 0xFFFF - from), to)
  }

  /** Sums that differ by a multiple of 0xFFFF have the same residue, unless just one of them is 0. */
  lemma ResidueCongruent(s: nat, t: nat, k: int)
    requires s - t == 0xFFFF * k && (s == 0 <==> t == 0)
    ensures Residue(s) == Residue(t)
  {
    if s > 0 {
      assert s - 1 == t - 1 + 0xFFFF * k;
    }
  }

  lemma FoldKeepsResidue(s: nat)
    requires s >= 0x1_0000
    ensures Residue(s % 0x1_0000 + s / 0x1_0000) == Residue(s)
    ensures s % 0x1_0000 + s / 0x1_0000 < s
  {
    ResidueCongruent(s, s % 0x1_0000 + s / 0x1_0000, s / 0x1_0000);
  }

  // ----- What the checksum is -----

  /** No bytes: the complement of 0. One word, or one byte and its padding: the complement of that word. */
  lemma ChecksumOfWord(hi: byte, lo: byte)
    ensures IpChecksum([]) == 0xFFFF
    ensures IpChecksum([hi]) == 0xFFFF - 0x100 * hi
    ensures IpChecksum([hi, lo]) == 0xFFFF - (0x100 * hi + lo)
  {
    assert [hi, lo][2..] == [];
    assert WordSum([hi, lo]) == 0x100 * hi + lo;
  }

  /**
   Cut behind any word, a header's one's-complement sum is that of its parts, added with end-around carry.
   With the checksum of a single word this says what the checksum of every header is.
   */
  lemma ChecksumConcat(a: seq<byte>, b: seq<byte>)
    requires |a| % 2 == 0
    ensures var x, y := 0xFFFF - IpChecksum(a), 0xFFFF - IpChecksum(b);
            0xFFFF - IpChecksum(a + b) == if x + y < 0x1_0000 then x + y else x + y - 0xFFFF
  {
    WordSumConcat(a, b);
    ResidueAdds(WordSum(a), WordSum(b));
  }

  lemma {:induction false} WordSumConcat(a: seq<byte>, b: seq<byte>)
    requires |a| % 2 == 0
    ensures WordSum(a + b) == WordSum(a) + WordSum(b)
  {
    if a == [] {
      assert a + b == b;
    } else {
      assert (a + b)[2..] == a[2..] + b;
      WordSumConcat(a[2..], b);
    }
  }

  lemma ResidueAdds(s: nat, t: nat)
    ensures var x, y := Residue(s), Residue(t);
            Residue(s + t) == if x + y < 0x1_0000 then x + y else x + y - 0xFFFF
  {
    var x: int, y: int := Residue(s), Residue(t);
    if s > 0 && t > 0 {
      var i, j := (s - 1) / 0xFFFF, (t - 1) / 0xFFFF;
      assert s == x + 0xFFFF * i && t == y + 0xFFFF * j;
      var z: int := if x + y < 0x1_0000 then x + y else x + y - 0xFFFF;
      ResidueCongruent(s + t, z, i + j + if x + y < 0x1_0000 then 0 else 1);
      assert Residue(z) == z;
    }
  }

  lemma {:induction false} WordSumByte(h: seq<byte>, i: nat, b: byte)
    requires i < |h|
    ensures WordSum(h[i := b]) == WordSum(h) + (b - h[i]) * (if i % 2 == 0 then 0x100 else 1)
  {
    if i < 2 {
      assert |h| >= 2 ==> h[i := b][2..] == h[2..];
    } else {
      assert h[i := b][2..] == h[2..][i - 2 := b];
      WordSumByte(h[2..], i - 2, b);
    }
  }

  /** A header that verifies no longer does when any one byte of it changes. */
  lemma {:induction false} OneByteDetected(h: seq<byte>, i: nat, b: byte)
    requires i < |h| && b != h[i] && IpChecksum(h) == 0
    ensures IpChecksum(h[i := b]) != 0
  {
    WordSumByte(h, i, b);
    NotCongruent(WordSum(h), WordSum(h[i := b]));
  }

  lemma NotCongruent(s: nat, t: nat)
    requires s != t && -0xFFFF < s - t < 0xFFFF && Residue(s) == 0xFFFF
    ensures Residue(t) != 0xFFFF
  {
    if t > 0 {
      var i, j := (s - 1) / 0xFFFF, (t - 1) / 0xFFFF;
      assert s == Residue(s) + 0xFFFF * i && t == Residue(t) + 0xFFFF * j;
    }
  }

  // ----- Byte order -----

  /** `w'` is `w` with its two bytes in the other order. */
  ghost predicate Swapped(w: u16, w': u16) {
    exists hi: byte, lo: byte :: w == Word(hi, lo) && w' == Word(lo, hi)
  }

  /** Swapping bytes is multiplication by 256 modulo 0xFFFF. */
  lemma SwappedScales(w: u16, w': u16) returns (k: int)
    requires Swapped(w, w')
    ensures w' == 0x100 * w - 0xFFFF * k && (w' == 0 <==> w == 0)
  {
    var hi: byte, lo: byte :| w == Word(hi, lo) && w' == Word(lo, hi);
    k := hi;
  }

  /** And nothing else is: the congruence, with 0 for 0 only, determines the swapped word. */
  lemma ScaledIsSwapped(w: u16, w': u16, k: int)
    requires w' == 0x100 * w - 0xFFFF * k && (w' == 0 <==> w == 0)
    ensures Swapped(w, w')
  {
    SplitWord(w);
    ScaledBytes(Hi(w), Lo(w), w', k);
  }

  lemma ScaledBytes(hi: byte, lo: byte, w': u16, k: int)
    requires w' == 0x100 * Word(hi, lo) - 0xFFFF * k && (w' == 0 <==> Word(hi, lo) == 0)
    ensures w' == Word(lo, hi)
  {
    SameWord(w', Word(lo, hi), hi - k);
  }

  lemma SameWord(x: u16, y: u16, k: int)
    requires x - y == 0xFFFF * k && (x == 0 <==> y == 0)
    ensures x == y
  {
  }

  lemma SwappedWord(hi: byte, lo: byte)
    ensures Swapped(Word(hi, lo), Word(lo, hi))
  {
  }

  lemma SwappedBytes(w: u16, w': u16)
    requires Swapped(w, w')
    ensures Hi(w') == Lo(w) && Lo(w') == Hi(w)
  {
    var hi: byte, lo: byte :| w == Word(hi, lo) && w' == Word(lo, hi);
    WordBytes(hi, lo);
    WordBytes(lo, hi);
  }

  lemma SwappedComplement(w: u16, w': u16)
    requires Swapped(w, w')
    ensures Swapped(0xFFFF - w, 0xFFFF - w')
  {
    var hi: byte, lo: byte :| w == Word(hi, lo) && w' == Word(lo, hi);
    SwappedWord(0xFF - hi, 0xFF - lo);
  }

  /** Byte swap commutes with end-around addition: the sum may be taken in either byte order. */
  lemma SwapCommutes(a: u16, a': u16, b: u16, b': u16)
    requires Swapped(a, a') && Swapped(b, b')
    ensures Swapped(EndAroundAdd(a, b), EndAroundAdd(a', b'))
  {
    var i := SwappedScales(a, a');
    var j := SwappedScales(b, b');
    var carry := if a + b < 0x1_0000 then 0 else 1;
    var carry' := if a' + b' < 0x1_0000 then 0 else 1;
    ScaledIsSwapped(EndAroundAdd(a, b), EndAroundAdd(a', b'), i + j - 0x100 * carry + carry');
  }

  /** Updating byte-swapped words gives the byte-swapped update. */
  lemma CsumReplaceByteOrder(c0: byte, c1: byte, f0: byte, f1: byte, t0: byte, t1: byte)
    ensures Swapped(CsumReplace(Word(c0, c1), Word(f0, f1), Word(t0, t1)),
                    CsumReplace(Word(c1, c0), Word(f1, f0), Word(t1, t0)))
  {
    SwappedWord(t0, t1);
    SwappedDifference(c0, c1, f0, f1);
    var x := EndAroundAdd(0xFFFF - Word(c0, c1), 0xFFFF - Word(f0, f1));
    var x' := EndAroundAdd(0xFFFF - Word(c1, c0), 0xFFFF - Word(f1, f0));
    SwappedSum(x, x', Word(t0, t1), Word(t1, t0));
  }

  lemma SwappedSum(x: u16, x': u16, to: u16, to': u16)
    requires Swapped(x, x') && Swapped(to, to')
    ensures Swapped(0xFFFF - EndAroundAdd(x, to), 0xFFFF - EndAroundAdd(x', to'))
  {
    SwapCommutes(x, x', to, to');
    SwappedComplement(EndAroundAdd(x, to), EndAroundAdd(x', to'));
  }

  lemma SwappedDifference(c0: byte, c1: byte, f0: byte, f1: byte)
    ensures Swapped(EndAroundAdd(0xFFFF - Word(c0, c1), 0xFFFF - Word(f0, f1)),
                    EndAroundAdd(0xFFFF - Word(c1, c0), 0xFFFF - Word(f1, f0)))
  {
    SwappedWord(c0, c1);
    SwappedWord(f0, f1);
    SwappedComplement(Word(c0, c1), Word(c1, c0));
    SwappedComplement(Word(f0, f1), Word(f1, f0));
    SwapCommutes(0xFFFF - Word(c0, c1), 0xFFFF - Word(c1, c0), 0xFFFF - Word(f0, f1), 0xFFFF - Word(f1, f0));
  }

  /** Every word of `h` with its bytes swapped. */
  function SwapWords(h: seq<byte>): seq<byte> {
    if |h| < 2 then h else [h[1], h[0]] + SwapWords(h[2..])
  }

  lemma {:induction false} SwapWordsSum(h: seq<byte>) returns (k: int)
    requires |h| % 2 == 0
    ensures WordSum(SwapWords(h)) == 0x100 * WordSum(h) - 0xFFFF * k
    ensures WordSum(SwapWords(h)) == 0 <==> WordSum(h) == 0
  {
    k := 0;
    if h != [] {
      var rest := SwapWordsSum(h[2..]);
      assert SwapWords(h)[2..] == SwapWords(h[2..]);
      k := rest + h[0];
    }
  }

  /** The checksum may be computed on host-order words all along: it comes out with its own bytes swapped. */
  lemma {:induction false} ByteOrderIndependent(h: seq<byte>)
    requires |h| % 2 == 0
    ensures Swapped(IpChecksum(h), IpChecksum(SwapWords(h)))
  {
    var k := SwapWordsSum(h);
    SwappedResidue(WordSum(h), WordSum(SwapWords(h)), k);
    SwappedComplement(Residue(WordSum(h)), Residue(WordSum(SwapWords(h))));
  }

  lemma SwappedResidue(s: nat, t: nat, k: int)
    requires t == 0x100 * s - 0xFFFF * k && (t == 0 <==> s == 0)
    ensures Swapped(Residue(s), Residue(t))
  {
    if s == 0 {
      SwappedWord(0, 0);
    } else {
      var i, j := (s - 1) / 0xFFFF, (t - 1) / 0xFFFF;
      assert s == Residue(s) + 0xFFFF * i && t == Residue(t) + 0xFFFF * j;
      ScaledIsSwapped(Residue(s), Residue(t), k + j - 0x100 * i);
    }
  }

  /** The update is 0xFFFF only when nothing was there to sum. */
  lemma CsumReplaceTop(check: u16, from: u16, to: u16)
    ensures CsumReplace(check, from, to) == 0xFFFF <==> check == from == 0xFFFF && to == 0
  {
  }

  /** The new checksum is congruent to the old one plus the old word minus the new word. */
  lemma CsumReplaceCongruence(check: u16, from: u16, to: u16) returns (k: int)
    ensures check + from - to - CsumReplace(check, from, to) == 0xFFFF * k
  {
    var x := EndAroundAdd(0xFFFF - check, 0xFFFF - from);
    k := 1 - (if 0xFFFF - check + 0xFFFF - from < 0x1_0000 then 0 else 1) - (if x + to < 0x1_0000 then 0 else 1);
  }

  // ----- Incremental update of a header -----

  const CHECK := 10   // offset of the checksum in an IPv4 header

  /** The checksum after an update that changes the second byte of the first word to `tos`. */
  function NewCheck(b0: byte, b1: byte, c0: byte, c1: byte, tos: byte): u16 {
    CsumReplace(Word(c0, c1), Word(b0, b1), Word(b0, tos))
  }

  /** The three byte stores of an update. */
  function Stored(h: seq<byte>, tos: byte, hi: byte, lo: byte): (r: seq<byte>)
    requires |h| >= 12
    ensures |r| == |h|
  {
    h[1 := tos][CHECK := hi][CHECK + 1 := lo]
  }

  /** Header `h` with its TOS set to `tos` and its checksum updated incrementally. */
  function Retagged(h: seq<byte>, tos: byte): (r: seq<byte>)
    requires |h| >= 12
    ensures |r| == |h|
  {
    var c := NewCheck(h[0], h[1], h[CHECK], h[CHECK + 1], tos);
    Stored(h, tos, Hi(c), Lo(c))
  }

  /** What follows the header does not matter. */
  lemma RetaggedPrefix(h: seq<byte>, rest: seq<byte>, tos: byte)
    requires |h| >= 12
    ensures Retagged(h + rest, tos) == Retagged(h, tos) + rest
  {
    var c := NewCheck(h[0], h[1], h[CHECK], h[CHECK + 1], tos);
    StoredPrefix(h, rest, tos, Hi(c), Lo(c));
  }

  lemma StoredPrefix(h: seq<byte>, rest: seq<byte>, tos: byte, hi: byte, lo: byte)
    requires |h| >= 12
    ensures Stored(h + rest, tos, hi, lo) == Stored(h, tos, hi, lo) + rest
  {
  }

  function ZeroCheck(h: seq<byte>): (r: seq<byte>)
    requires |h| >= 12
    ensures |r| == |h|
  {
    h[CHECK := 0][CHECK + 1 := 0]
  }

  lemma StoredZeroCheck(h: seq<byte>, tos: byte, hi: byte, lo: byte)
    requires |h| >= 12
    ensures ZeroCheck(Stored(h, tos, hi, lo)) == ZeroCheck(h)[1 := tos]
  {
  }

  lemma {:induction false} StoredSum(h: seq<byte>, tos: byte, c: u16)
    requires |h| >= 12
    ensures WordSum(Stored(h, tos, Hi(c), Lo(c))) ==
            WordSum(h) - U16At(h, 0) + Word(h[0], tos) - U16At(h, CHECK) + c
  {
    var h1 := h[0 := h[0]][1 := tos];
    assert h1 == h[1 := tos];
    WordSumUpdate(h, 0, h[0], tos);
    WordSumUpdate(h1, 5, Hi(c), Lo(c));
    assert Stored(h, tos, Hi(c), Lo(c)) == h1[2 * 5 := Hi(c)][2 * 5 + 1 := Lo(c)];
  }

  lemma {:induction false} RetaggedSum(h: seq<byte>, tos: byte)
    requires |h| >= 12
    ensures WordSum(Retagged(h, tos)) ==
            WordSum(h) - U16At(h, 0) + Word(h[0], tos) - U16At(h, CHECK) + U16At(Retagged(h, tos), CHECK)
  {
    StoredSum(h, tos, NewCheck(h[0], h[1], h[CHECK], h[CHECK + 1], tos));
  }

  /**
   The incremental update leaves the residue that a receiver computes unchanged, for every
   header with a nonzero first byte: a valid header stays valid and a corrupt one stays exactly as corrupt.
   */
  lemma RetaggedResidue(h: seq<byte>, tos: byte)
    requires |h| >= 12 && h[0] > 0
    ensures IpChecksum(Retagged(h, tos)) == IpChecksum(h)
  {
    var r := Retagged(h, tos);
    RetaggedSum(h, tos);
    var k := CsumReplaceCongruence(U16At(h, CHECK), U16At(h, 0), Word(h[0], tos));
    PositiveSum(h);
    PositiveSum(r);
    ResidueCongruent(WordSum(h), WordSum(r), k);
  }

  /**
   The stored checksum after the update is bit for bit the one computed from scratch over the
   rewritten header exactly when the header verified before. This includes a header that
   carried the alias 0xFFFF where the from-scratch value is 0x0000.
   */
  lemma RetaggedIsFromScratch(h: seq<byte>, tos: byte)
    requires |h| >= 12 && h[0] > 0
    ensures var r := Retagged(h, tos);
            U16At(r, CHECK) == IpChecksum(ZeroCheck(r)) <==> IpChecksum(h) == 0
  {
    var r := Retagged(h, tos);
    RetaggedResidue(h, tos);
    CsumReplaceTop(U16At(h, CHECK), U16At(h, 0), Word(h[0], tos));
    WordSumUpdate(r, 5, 0, 0);
    PositiveSum(ZeroCheck(r));
    FromScratchIffVerifies(WordSum(ZeroCheck(r)), U16At(r, CHECK));
  }

  /** A stored checksum other than 0xFFFF is the complement of the other words' residue iff the whole sums to a
      multiple of 0xFFFF. */
  lemma FromScratchIffVerifies(others: nat, check: u16)
    requires others > 0 && check < 0xFFFF
    ensures check == 0xFFFF - Residue(others) <==> Residue(others + check) == 0xFFFF
  {
    var q := (others - 1) / 0xFFFF;
    assert others == 0xFFFF * q + Residue(others);
    if check == 0xFFFF - Residue(others) {
      ResidueCongruent(others + check, 0xFFFF, q);
    } else if Residue(others + check) == 0xFFFF {
      SameWord(Residue(others), 0xFFFF - check, (others + check - 1) / 0xFFFF - q);
    }
  }
}
