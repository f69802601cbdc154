/**
 The measured flow: the talker numbers and sends packets, a channel may drop, duplicate and reorder them, and the
 listener turns what arrives into rows. Clock readings, send results and the channel are arbitrary.
 */
module Traffic {
  import opened Bytes
  import opened Wrappers

  const HEADER: nat := 12   // "!IQ": sequence number, send time

  function Datagram(seqNo: nat, sendNs: nat, size: int): seq<byte> {
    BigEndian(4, seqNo) + BigEndian(8, sendNs) + seq(if size > HEADER then size - HEADER else 0, i => 0)
  }

  function SeqNo(d: seq<byte>): nat
    requires |d| >= HEADER
  {
    FromBigEndian(d[..4])
  }

  function SendNs(d: seq<byte>): nat
    requires |d| >= HEADER
  {
    FromBigEndian(d[4..HEADER])
  }

  /** What the listener unpacks is what the talker packed. */
  lemma HeaderRoundTrip(seqNo: u32, sendNs: u64, size: int)
    ensures var d := Datagram(seqNo, sendNs, size);
            |d| == (if size > 12 then size else 12) && SeqNo(d) == seqNo && SendNs(d) == sendNs
  {
    FieldRanges();
    BigEndianRoundTrip(4, seqNo);
    BigEndianRoundTrip(8, sendNs);
    var d := Datagram(seqNo, sendNs, size);
    assert d[..4] == BigEndian(4, seqNo);
    assert d[4..HEADER] == BigEndian(8, sendNs);
  }

  /** On the wire: four bytes of sequence number and eight of send time, highest byte first, and zeros. */
  lemma {:induction false} DatagramBytes(seqNo: nat, sendNs: nat, size: int, i: nat)
    requires i < |Datagram(seqNo, sendNs, size)|
    ensures var b := Datagram(seqNo, sendNs, size)[i];
      && (i < 4 ==> b == seqNo / Range(3 - i) % 0x100)
      && (4 <= i < 12 ==> b == sendNs / Range(11 - i) % 0x100)
      && (12 <= i ==> b == 0)
  {
    if i < 4 {
      BigEndianAt(4, seqNo, i);
    } else if i < 12 {
      BigEndianAt(8, sendNs, i - 4);
    }
  }

  // ----- Talker -----

  /** The sequence numbers below `n` whose `sendto` succeeded, in order. */
  function SentSeqs(n: nat, ok: nat -> bool): seq<nat> {
    if n == 0 then [] else SentSeqs(n - 1, ok) + if ok(n - 1) then [n - 1] else []
  }

  lemma {:induction false} SentSeqsAscend(n: nat, ok: nat -> bool)
    ensures forall i | 0 <= i < |SentSeqs(n, ok)| :: SentSeqs(n, ok)[i] < n
    ensures forall i, j | 0 <= i < j < |SentSeqs(n, ok)| :: SentSeqs(n, ok)[i] < SentSeqs(n, ok)[j]
    ensures forall k: nat :: k in SentSeqs(n, ok) <==> k < n && ok(k)
  {
    if n > 0 {
      SentSeqsAscend(n - 1, ok);
    }
  }

  /** The first reading that packet `k` may use: the one behind that of the packet before. */
  function FirstReading(used: seq<nat>, k: nat): nat
    requires k <= |used|
  {
    if k == 0 then 0 else used[k - 1] + 1
  }

  /** All readings in [from, to) are before `slot`. */
  predicate Early(mono: seq<int>, from: nat, to: nat, slot: int)
    requires to <= |mono|
  {
    forall i | from <= i < to :: mono[i] < slot
  }

  /** Packet `k` leaves at the first reading left that is not before its slot. */
  predicate OnTime(mono: seq<int>, used: seq<nat>, leftAt: seq<int>, k: nat, start: int, interval: int)
    requires k < |used| == |leftAt|
  {
    && FirstReading(used, k) <= used[k] < |mono|
    && leftAt[k] == mono[used[k]] >= start + k * interval
    && Early(mono, FirstReading(used, k), used[k], start + k * interval)
  }

  predicate AllOnTime(mono: seq<int>, used: seq<nat>, leftAt: seq<int>, start: int, interval: int) {
    |used| == |leftAt| && forall k | 0 <= k < |used| :: OnTime(mono, used, leftAt, k, start, interval)
  }

  lemma OneMoreOnTime(mono: seq<int>, used: seq<nat>, leftAt: seq<int>, start: int, interval: int, r: nat)
    requires AllOnTime(mono, used, leftAt, start, interval)
    requires FirstReading(used, |used|) <= r < |mono| && mono[r] >= start + |used| * interval
    requires Early(mono, FirstReading(used, |used|), r, start + |used| * interval)
    ensures AllOnTime(mono, used + [r], leftAt + [mono[r]], start, interval)
  {
    var used', leftAt' := used + [r], leftAt + [mono[r]];
    forall k | 0 <= k < |used'| ensures OnTime(mono, used', leftAt', k, start, interval) {
      assert FirstReading(used', k) == FirstReading(used, k);
      assert k < |used| ==> OnTime(mono, used, leftAt, k, start, interval);
    }
  }

  /** The inner loop: read the clock until the slot has come. */
  method AwaitSlot(mono: seq<int>, from: nat, slot: int) returns (r: nat)
    requires from <= |mono|
    ensures from <= r <= |mono| && Early(mono, from, r, slot)
    ensures r < |mono| ==> mono[r] >= slot
  {
    r := from;
    while r < |mono| && mono[r] < slot
      invariant from <= r <= |mono| && Early(mono, from, r, slot)
    {
      r := r + 1;
    }
  }

  /** The wire carries the numbered datagrams of the successful sends among the first `n`. */
  predicate Carries(wire: seq<seq<byte>>, n: nat, size: int, wall: nat -> u64, ok: nat -> bool) {
    && |wire| == |SentSeqs(n, ok)|
    && forall i | 0 <= i < |wire| :: var k := SentSeqs(n, ok)[i]; wire[i] == Datagram(k, wall(k), size)
  }

  /**
   The send loop. `mono` holds the monotonic clock's readings; running out of them is the interrupt.
   The wire carries one datagram per successful send, numbered from 0 in order, and each attempt is counted once as sent
   or failed. Packet `k` leaves at reading `used[k]`, the first one left that is not before its slot; only when no such
   reading is left is the loop interrupted.
   */
  method Talk(count: nat, size: int, start: int, interval: int, mono: seq<int>, wall: nat -> u64, ok: nat -> bool)
    returns (wire: seq<seq<byte>>, sent: nat, errors: nat, leftAt: seq<int>, interrupted: bool, ghost used: seq<nat>)
    ensures |leftAt| <= count && (!interrupted ==> |leftAt| == count)
    ensures sent + errors == |leftAt| && sent == |wire|
    ensures Carries(wire, |leftAt|, size, wall, ok)
    ensures AllOnTime(mono, used, leftAt, start, interval)
    ensures interrupted ==>
              |used| < count && Early(mono, FirstReading(used, |used|), |mono|, start + |used| * interval)
  {
    wire, sent, errors, leftAt, interrupted, used := [], 0, 0, [], false, [];
    var r := 0;   // readings used
    for k := 0 to count
      invariant |leftAt| == |used| == k && r <= |mono|
      invariant sent + errors == k && sent == |wire| && Carries(wire, k, size, wall, ok)
      invariant r == FirstReading(used, k) && AllOnTime(mono, used, leftAt, start, interval)
    {
      r := AwaitSlot(mono, r, start + k * interval);
      if r == |mono| {
        interrupted := true;
        return;
      }
      OneMoreOnTime(mono, used, leftAt, start, interval, r);
      leftAt, used := leftAt + [mono[r]], used + [r];
      r := r + 1;
      if ok(k) {
        wire := wire + [Datagram(k, wall(k), size)];
        sent := sent + 1;
      } else {
        errors := errors + 1;
      }
    }
  }

  // ----- Listener -----

  datatype Arrival = Arrival(data: seq<byte>, recvNs: int, tos: int)

  /** An arrival with its header unpacked; `tos` is -1 when the kernel reported none. */
  datatype Received = Received(seqNo: nat, sendNs: nat, recvNs: int, size: nat, tos: int)

  /** `struct.unpack` of the header; None for a datagram too short to have one. */
  function Unpack(a: Arrival): Option<Received> {
    if |a.data| < HEADER then None else Some(Received(SeqNo(a.data), SendNs(a.data), a.recvNs, |a.data|, a.tos))
  }

  function Inbox(arrivals: seq<Arrival>): (inbox: seq<Option<Received>>)
    ensures |inbox| == |arrivals|
  {
    seq(|arrivals|, i requires 0 <= i < |arrivals| => Unpack(arrivals[i]))
  }

  /** The packets of an inbox; datagrams without a header are skipped. */
  function Kept(inbox: seq<Option<Received>>): seq<Received> {
    if inbox == [] then []
    else
      var k := |inbox| - 1;
      Kept(inbox[..k]) + if inbox[k].Some? then [inbox[k].value] else []
  }

  /** A result row; times are in ns. */
  datatype Row = Row(packet: Received, latency: int, jitter: int)

  /** The i-th row: its jitter is measured against the kept arrival before it. */
  function RowAt(kept: seq<Received>, i: nat, interval: int): Row
    requires i < |kept|
  {
    var p := kept[i];
    Row(p, p.recvNs - p.sendNs, if i == 0 then 0 else p.recvNs - (kept[i - 1].recvNs + interval))
  }

  function TotalSize(kept: seq<Received>): nat {
    if kept == [] then 0 else TotalSize(kept[..|kept| - 1]) + kept[|kept| - 1].size
  }

  predicate RowsOf(rows: seq<Row>, kept: seq<Received>, interval: int) {
    |rows| == |kept| && forall i | 0 <= i < |kept| :: rows[i] == RowAt(kept, i, interval)
  }

  /** The receive loop: one row per packet with a header, in order of arrival. */
  method Receive(inbox: seq<Option<Received>>, interval: int) returns (rows: seq<Row>, totalBytes: nat)
    ensures RowsOf(rows, Kept(inbox), interval)
    ensures totalBytes == TotalSize(Kept(inbox))
    ensures forall i | 0 <= i < |rows| :: rows[i].latency == rows[i].packet.recvNs - rows[i].packet.sendNs
    ensures forall i | 0 <= i < |rows| ::
              rows[i].jitter ==
              if i == 0 then 0 else rows[i].packet.recvNs - rows[i - 1].packet.recvNs - interval
  {
    rows, totalBytes := [], 0;
    var prevRecvNs: Option<int> := None;
    ghost var kept: seq<Received> := [];
    var n := 0;
    while n < |inbox|
      invariant n <= |inbox| && kept == Kept(inbox[..n])
      invariant RowsOf(rows, kept, interval) && totalBytes == TotalSize(kept)
      invariant prevRecvNs == if kept == [] then None else Some(kept[|kept| - 1].recvNs)
    {
      KeptStep(inbox, n);
      n := n + 1;
      if inbox[n - 1].None? {
        continue;
      }
      var p := inbox[n - 1].value;
      totalBytes := totalBytes + p.size;
      var jitter := if prevRecvNs.Some? then p.recvNs - (prevRecvNs.value + interval) else 0;
      var row := Row(p, p.recvNs - p.sendNs, jitter);
      NextRow(kept, p, interval, prevRecvNs, row);
      RowsExtend(rows, kept, p, interval);
      TotalSizeExtend(kept, p);
      prevRecvNs := Some(p.recvNs);
      rows, kept := rows + [row], kept + [p];
    }
    assert inbox[..n] == inbox;
  }

  lemma KeptStep(inbox: seq<Option<Received>>, n: nat)
    requires n < |inbox|
    ensures Kept(inbox[..n + 1]) == Kept(inbox[..n]) + if inbox[n].Some? then [inbox[n].value] else []
  {
    assert inbox[..n + 1][..n] == inbox[..n];
  }

  lemma NextRow(kept: seq<Received>, p: Received, interval: int, prev: Option<int>, row: Row)
    requires prev == if kept == [] then None else Some(kept[|kept| - 1].recvNs)
    requires row == Row(p, p.recvNs - p.sendNs, if prev.Some? then p.recvNs - (prev.value + interval) else 0)
    ensures row == RowAt(kept + [p], |kept|, interval)
  {
  }

  lemma {:induction false} RowsExtend(rows: seq<Row>, kept: seq<Received>, p: Received, interval: int)
    requires RowsOf(rows, kept, interval)
    ensures RowsOf(rows + [RowAt(kept + [p], |kept|, interval)], kept + [p], interval)
  {
    forall i | 0 <= i < |kept| ensures RowAt(kept + [p], i, interval) == RowAt(kept, i, interval) {
    }
  }

  lemma {:induction false} TotalSizeExtend(kept: seq<Received>, p: Received)
    ensures TotalSize(kept + [p]) == TotalSize(kept) + p.size
  {
    assert (kept + [p])[..|kept|] == kept;
  }

  /** The positions of the arrivals that have a header. */
  function KeptAt(inbox: seq<Option<Received>>): seq<nat> {
    if inbox == [] then []
    else
      var n := |inbox| - 1;
      KeptAt(inbox[..n]) + if inbox[n].Some? then [n] else []
  }

  lemma {:induction false} KeptAtIncludes(inbox: seq<Option<Received>>, k: nat)
    ensures k in KeptAt(inbox) <==> k < |inbox| && inbox[k].Some?
  {
    if inbox != [] {
      KeptAtIncludes(inbox[..|inbox| - 1], k);
    }
  }

  lemma {:induction false} KeptAtAscends(inbox: seq<Option<Received>>)
    ensures forall i | 0 <= i < |KeptAt(inbox)| :: KeptAt(inbox)[i] < |inbox|
    ensures forall i, j | 0 <= i < j < |KeptAt(inbox)| :: KeptAt(inbox)[i] < KeptAt(inbox)[j]
  {
    if inbox != [] {
      KeptAtAscends(inbox[..|inbox| - 1]);
    }
  }

  lemma {:induction false} KeptIsAt(inbox: seq<Option<Received>>, i: nat)
    ensures |Kept(inbox)| == |KeptAt(inbox)|
    ensures i < |Kept(inbox)| ==> KeptAt(inbox)[i] < |inbox| && inbox[KeptAt(inbox)[i]] == Some(Kept(inbox)[i])
  {
    if inbox != [] {
      KeptIsAt(inbox[..|inbox| - 1], i);
    }
  }

  /** The kept packets are those with a header, all of them and in order: packet `i` is arrival `at[i]`. */
  lemma KeptInOrder(inbox: seq<Option<Received>>) returns (at: seq<nat>)
    ensures |at| == |Kept(inbox)|
    ensures forall i | 0 <= i < |at| :: at[i] < |inbox| && inbox[at[i]] == Some(Kept(inbox)[i])
    ensures forall i, j | 0 <= i < j < |at| :: at[i] < at[j]
    ensures forall k: nat | k < |inbox| && inbox[k].Some? :: k in at
  {
    at := KeptAt(inbox);
    KeptIsAt(inbox, 0);
    KeptAtAscends(inbox);
    forall i | 0 <= i < |at| ensures at[i] < |inbox| && inbox[at[i]] == Some(Kept(inbox)[i]) {
      KeptIsAt(inbox, i);
    }
    forall k: nat | k < |inbox| && inbox[k].Some? ensures k in at {
      KeptAtIncludes(inbox, k);
    }
  }

  /** The total size is a sum: nothing for no packet, a packet's size for one, and additive. */
  lemma {:induction false} TotalSizeAdds(a: seq<Received>, b: seq<Received>, p: Received)
    ensures TotalSize([]) == 0 && TotalSize([p]) == p.size
    ensures TotalSize(a + b) == TotalSize(a) + TotalSize(b)
  {
    assert [p][..0] == [];
    if b == [] {
      assert a + b == a;
    } else {
      var n := |b| - 1;
      TotalSizeAdds(a, b[..n], p);
      assert (a + b)[..|a| + n] == a + b[..n];
    }
  }

  function JitterSum(kept: seq<Received>, interval: int, n: nat): int
    requires n <= |kept|
  {
    if n == 0 then 0 else JitterSum(kept, interval, n - 1) + RowAt(kept, n - 1, interval).jitter
  }

  /** Jitter telescopes: summed over a run it is how far the last arrival is off the schedule set by the first. */
  lemma {:induction false} JitterTelescopes(kept: seq<Received>, interval: int, n: nat)
    requires 0 < n <= |kept|
    ensures JitterSum(kept, interval, n) == kept[n - 1].recvNs - kept[0].recvNs - (n - 1) * interval
  {
    if n == 1 {
      assert JitterSum(kept, interval, 0) == 0;
    } else {
      JitterTelescopes(kept, interval, n - 1);
      assert (n - 1) * interval == (n - 2) * interval + interval;
    }
  }

  // ----- Channel -----

  /** A channel delivers datagrams from the wire only: any of them, any number of times, in any order. */
  predicate Delivers(wire: seq<seq<byte>>, via: seq<nat>, arrivals: seq<Arrival>) {
    && |arrivals| == |via|
    && forall i | 0 <= i < |via| :: via[i] < |wire| && arrivals[i].data == wire[via[i]]
  }

  lemma UnpackDatagram(a: Arrival, seqNo: u32, sendNs: u64, size: int)
    requires a.data == Datagram(seqNo, sendNs, size)
    ensures Unpack(a) == Some(Received(seqNo, sendNs, a.recvNs, |a.data|, a.tos))
  {
    HeaderRoundTrip(seqNo, sendNs, size);
  }

  lemma {:induction false} AllKept(inbox: seq<Option<Received>>, ps: seq<Received>)
    requires |inbox| == |ps| && forall i | 0 <= i < |ps| :: inbox[i] == Some(ps[i])
    ensures Kept(inbox) == ps
  {
    if ps != [] {
      var k := |ps| - 1;
      AllKept(inbox[..k], ps[..k]);
      assert inbox[k] == Some(ps[k]);
    }
  }

  /** The packet that delivery `i` of the channel makes. */
  function Delivered(n: nat, ok: nat -> bool, wall: nat -> u64, via: seq<nat>, arrivals: seq<Arrival>, i: nat): Received
    requires i < |via| == |arrivals| && via[i] < |SentSeqs(n, ok)|
  {
    var k := SentSeqs(n, ok)[via[i]];
    Received(k, wall(k), arrivals[i].recvNs, |arrivals[i].data|, arrivals[i].tos)
  }

  /** Through any channel, the listener's rows carry the talker's numbers and times in arrival order, and no
      datagram is skipped. */
  lemma {:induction false} RowsCarryNumbers(n: nat, ok: nat -> bool, wall: nat -> u64, size: int,
                                            wire: seq<seq<byte>>, via: seq<nat>, arrivals: seq<Arrival>)
    requires n <= 0x1_0000_0000 && |wire| == |SentSeqs(n, ok)|
    requires forall i | 0 <= i < |wire| :: var k := SentSeqs(n, ok)[i]; wire[i] == Datagram(k, wall(k), size)
    requires Delivers(wire, via, arrivals)
    ensures Kept(Inbox(arrivals)) ==
            seq(|via|, i requires 0 <= i < |via| => Delivered(n, ok, wall, via, arrivals, i))
  {
    var ps := seq(|via|, i requires 0 <= i < |via| => Delivered(n, ok, wall, via, arrivals, i));
    SentSeqsAscend(n, ok);
    forall i | 0 <= i < |via| ensures Inbox(arrivals)[i] == Some(ps[i]) {
      var k := SentSeqs(n, ok)[via[i]];
      UnpackDatagram(arrivals[i], k, wall(k), size);
    }
    AllKept(Inbox(arrivals), ps);
  }
}
