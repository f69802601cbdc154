/**
 What the counters say about the packets: the classifier's counters and the histogram of the priority probe
 behind it, on any number of CPUs, as `bpfmaps.py` reads them back.
 */
module Counting {
  import opened Bytes
  import opened Wrappers
  import opened TsCommon
  import opened Rule
  import opened Classifier
  import opened Interleaving
  import opened Sizes

  const HIST_BUCKETS: nat := 16

  /** The histogram bucket of a priority; the last one takes everything from 15 on. */
  function Bucket(priority: u32): nat {
    if priority >= HIST_BUCKETS then HIST_BUCKETS - 1 else priority
  }

  class Probe {
    const hist: array<u64>   // this CPU's prio_hist

    constructor ()
      ensures fresh(hist) && hist[..] == seq(HIST_BUCKETS, i => 0)
    {
      hist := new u64[HIST_BUCKETS](i => 0);
    }

    /** `prio_probe`: counts the packet's priority and leaves the packet alone. */
    method Run(skb: Skb) returns (verdict: Verdict)
      requires hist.Length == HIST_BUCKETS && skb.data as object != hist
      modifies hist
      ensures verdict == Unspec && skb.Value() == old(skb.Value())
      ensures var b := if skb.priority < 15 then skb.priority else 15;
              hist[..] == old(hist[..])[b := (old(hist[b]) as nat + 1) % 0x1_0000_0000_0000_0000]
    {
      var idx := skb.priority;
      if idx >= HIST_BUCKETS {
        idx := HIST_BUCKETS - 1;
      }
      hist[idx] := Increment(hist[idx]);
      return Unspec;
    }
  }

  // ----- The slots a packet increments -----

  datatype Slot = Count(counter: Counter) | Hist(bucket: nat)

  /** A packet with this outcome increments these slots, in program order. */
  function Increments(o: Outcome): seq<Slot> {
    [Count(o.reason)] + (if o.marked then [Count(DscpMarked)] else []) + [Hist(Bucket(o.packet.priority))]
  }

  function JobsOf(os: seq<Outcome>): (jobs: seq<seq<Slot>>)
    ensures |jobs| == |os|
  {
    seq(|os|, i requires 0 <= i < |os| => Increments(os[i]))
  }

  function Outcomes(ps: seq<Packet>, cfg: Config, ports: PortMap): (os: seq<Outcome>)
    ensures |os| == |ps|
  {
    seq(|ps|, i requires 0 <= i < |ps| => Process(ps[i], cfg, ports))
  }

  /** What every outcome of the classifier satisfies. */
  predicate Sound(o: Outcome, was: u32, cfg: Config) {
    && o.reason != DscpMarked
    && (o.marked ==> o.reason in {TsPcp, TsUdp})
    && o.packet.priority == if IsTs(o.reason) then cfg.Priority() else was
  }

  lemma OutcomesSound(p: Packet, cfg: Config, ports: PortMap)
    ensures Sound(Process(p, cfg, ports), p.priority, cfg)
  {
    if WholeIpv4(p.frame) && EtherType(p.frame) == AVTP_ETHERTYPE {
      assert false;
    }
  }

  /** How often an outcome increments slot `s`. */
  function Hits(o: Outcome, s: Slot): nat {
    match s
    case Count(c) => (if c == o.reason then 1 else 0) + (if c == DscpMarked && o.marked then 1 else 0)
    case Hist(b) => if b == Bucket(o.packet.priority) then 1 else 0
  }

  /** The program's counter stores are the increments of the job, slot by slot. */
  lemma CountedIsHits(slots: seq<u64>, o: Outcome, c: Counter)
    requires |slots| == CNT_MAX
    ensures Counted(slots, o)[c.Index()] == (slots[c.Index()] + Hits(o, Count(c))) % MODULUS
  {
    assert forall d: Counter :: d.Index() == c.Index() <==> d == c;
  }

  function SumHits(os: seq<Outcome>, s: Slot): nat {
    if os == [] then 0 else SumHits(os[..|os| - 1], s) + Hits(os[|os| - 1], s)
  }

  lemma {:induction false} TallyIsSumHits(os: seq<Outcome>, s: Slot)
    ensures Tally(JobsOf(os), s) == SumHits(os, s)
  {
    if os != [] {
      var k := |os| - 1;
      TallyIsSumHits(os[..k], s);
      assert JobsOf(os)[..k] == JobsOf(os[..k]);
      assert JobsOf(os)[k] == Increments(os[k]);
      IncrementsHits(os[k], s);
    }
  }

  lemma IncrementsHits(o: Outcome, s: Slot)
    ensures multiset(Increments(o))[s] == Hits(o, s)
  {
  }

  /** Each packet counts exactly one reason, so the five reasons add up to the packets; a mark needs a PCP or UDP
      match. */
  lemma {:induction false} ReasonsAddUp(os: seq<Outcome>, was: seq<u32>, cfg: Config)
    requires |os| == |was| && forall i | 0 <= i < |os| :: Sound(os[i], was[i], cfg)
    ensures SumHits(os, Count(Normal)) + SumHits(os, Count(TsAvtp)) + SumHits(os, Count(TsPcp))
            + SumHits(os, Count(TsUdp)) + SumHits(os, Count(ParseShort)) == |os|
    ensures SumHits(os, Count(DscpMarked)) <= SumHits(os, Count(TsPcp)) + SumHits(os, Count(TsUdp))
  {
    if os != [] {
      var k := |os| - 1;
      ReasonsAddUp(os[..k], was[..k], cfg);
      assert Sound(os[k], was[k], cfg);
    }
  }

  /** The probe behind the classifier sees every time-sensitive packet at the configured priority and, when all
      packets came in at 0, every other packet at 0. */
  lemma {:induction false} HistogramMatchesCounters(os: seq<Outcome>, cfg: Config)
    requires forall i | 0 <= i < |os| :: Sound(os[i], 0, cfg)
    ensures 0 < Bucket(cfg.Priority()) < HIST_BUCKETS
    ensures SumHits(os, Hist(Bucket(cfg.Priority()))) ==
              SumHits(os, Count(TsAvtp)) + SumHits(os, Count(TsPcp)) + SumHits(os, Count(TsUdp))
    ensures SumHits(os, Hist(0)) == SumHits(os, Count(Normal)) + SumHits(os, Count(ParseShort))
  {
    if os != [] {
      var k := |os| - 1;
      HistogramMatchesCounters(os[..k], cfg);
      HitsBalance(os[k], cfg);
    }
  }

  lemma HitsBalance(o: Outcome, cfg: Config)
    requires Sound(o, 0, cfg)
    ensures 0 < Bucket(cfg.Priority()) < HIST_BUCKETS
    ensures Hits(o, Hist(Bucket(cfg.Priority()))) ==
              Hits(o, Count(TsAvtp)) + Hits(o, Count(TsPcp)) + Hits(o, Count(TsUdp))
    ensures Hits(o, Hist(0)) == Hits(o, Count(Normal)) + Hits(o, Count(ParseShort))
  {
  }

  lemma {:induction false} SumHitsBound(os: seq<Outcome>, was: seq<u32>, cfg: Config, s: Slot)
    requires |os| == |was| && forall i | 0 <= i < |os| :: Sound(os[i], was[i], cfg)
    ensures SumHits(os, s) <= |os|
  {
    if os != [] {
      var k := |os| - 1;
      SumHitsBound(os[..k], was[..k], cfg, s);
      assert Sound(os[k], was[k], cfg);
    }
  }

  // ----- What the slots count -----

  /** Which packets increment slot `s`. */
  function HitMarks(os: seq<Outcome>, s: Slot): seq<bool> {
    seq(|os|, i requires 0 <= i < |os| => Hits(os[i], s) > 0)
  }

  lemma {:induction false} SumHitsCount(os: seq<Outcome>, was: seq<u32>, cfg: Config, s: Slot)
    requires |os| == |was| && forall i | 0 <= i < |os| :: Sound(os[i], was[i], cfg)
    ensures SumHits(os, s) == CountTrue(HitMarks(os, s))
  {
    if os != [] {
      var k := |os| - 1;
      SumHitsCount(os[..k], was[..k], cfg, s);
      assert HitMarks(os, s)[..k] == HitMarks(os[..k], s);
      assert Sound(os[k], was[k], cfg);
    }
  }

  lemma SlotMeans(os: seq<Outcome>, was: seq<u32>, cfg: Config, s: Slot)
    requires |os| == |was| && forall i | 0 <= i < |os| :: Sound(os[i], was[i], cfg)
    ensures SumHits(os, s) == |set i | 0 <= i < |os| && Hits(os[i], s) > 0|
  {
    SumHitsCount(os, was, cfg, s);
    var m := HitMarks(os, s);
    CountIsSize(m);
    assert (set i | 0 <= i < |m| && m[i]) == (set i | 0 <= i < |os| && Hits(os[i], s) > 0);
  }

  /** Each reason counts the packets with that reason, and DSCP_MARKED the marked ones. */
  lemma CountersMean(os: seq<Outcome>, was: seq<u32>, cfg: Config, c: Counter)
    requires |os| == |was| && forall i | 0 <= i < |os| :: Sound(os[i], was[i], cfg)
    ensures c != DscpMarked ==> SumHits(os, Count(c)) == |set i | 0 <= i < |os| && os[i].reason == c|
    ensures SumHits(os, Count(DscpMarked)) == |set i | 0 <= i < |os| && os[i].marked|
  {
    SlotMeans(os, was, cfg, Count(c));
    SlotMeans(os, was, cfg, Count(DscpMarked));
    assert forall i | 0 <= i < |os| :: Sound(os[i], was[i], cfg);
    if c != DscpMarked {
      assert (set i | 0 <= i < |os| && Hits(os[i], Count(c)) > 0) == (set i | 0 <= i < |os| && os[i].reason == c);
    }
    assert (set i | 0 <= i < |os| && Hits(os[i], Count(DscpMarked)) > 0) == (set i | 0 <= i < |os| && os[i].marked);
  }

  /** A bucket counts the packets that leave with its priority, the last one those with 15 or more. */
  lemma BucketsMean(os: seq<Outcome>, was: seq<u32>, cfg: Config, b: nat)
    requires |os| == |was| && forall i | 0 <= i < |os| :: Sound(os[i], was[i], cfg)
    ensures b < 15 ==> SumHits(os, Hist(b)) == |set i | 0 <= i < |os| && os[i].packet.priority == b|
    ensures b == 15 ==> SumHits(os, Hist(b)) == |set i | 0 <= i < |os| && os[i].packet.priority >= 15|
  {
    SlotMeans(os, was, cfg, Hist(b));
    var hit := set i | 0 <= i < |os| && Hits(os[i], Hist(b)) > 0;
    if b < 15 {
      assert hit == (set i | 0 <= i < |os| && os[i].packet.priority == b);
    } else if b == 15 {
      assert hit == (set i | 0 <= i < |os| && os[i].packet.priority >= 15);
    }
  }

  // ----- Reading the maps back -----

  /** A JSON number, or a string of decimal digits. */
  datatype Scalar = Num(n: nat) | Decimal(digits: seq<nat>) {
    function Int(): nat {
      match this
      case Num(n) => n
      case Decimal(digits) => FromDecimal(digits)
    }
  }

  /** A scalar, or the little-endian byte list that bpftool prints without type information. */
  datatype Json = Single(scalar: Scalar) | HexBytes(bytes: seq<byte>)

  /** `_to_int` */
  function ToInt(v: Json): nat {
    match v
    case Single(s) => s.Int()
    case HexBytes(b) => FromLittleEndian(b)
  }

  /** A map that is not per-CPU has `value` instead of `values`. */
  datatype Fields<K> = Fields(key: K, values: seq<Json>, value: Option<Json>) {
    function Values(): seq<Json> {
      if values != [] then values else [if value.Some? then value.value else Single(Num(0))]
    }
  }

  /** One entry of a dump; with type information it has a `formatted` part, which takes precedence. */
  datatype Entry = Entry(raw: Fields<Json>, formatted: Option<Fields<Scalar>>) {
    function Key(): nat {
      if formatted.Some? then formatted.value.key.Int() else ToInt(raw.key)
    }

    function Values(): seq<Json> {
      if formatted.Some? then formatted.value.Values() else raw.Values()
    }
  }

  function SumInts(vs: seq<Json>): nat {
    if vs == [] then 0 else SumInts(vs[..|vs| - 1]) + ToInt(vs[|vs| - 1])
  }

  /** `dump_percpu` entry by entry; an entry replaces an earlier one with the same key. */
  function Dump(entries: seq<Entry>): map<nat, nat> {
    if entries == [] then map[]
    else
      var e := entries[|entries| - 1];
      Dump(entries[..|entries| - 1])[e.Key() := SumInts(e.Values())]
  }

  /** The loop of `dump_percpu`. */
  method DumpPercpu(entries: seq<Entry>) returns (res: map<nat, nat>)
    ensures res == Dump(entries)
  {
    res := map[];
    var n := 0;
    while n < |entries|
      invariant 0 <= n <= |entries| && res == Dump(entries[..n])
    {
      assert entries[..n + 1][..n] == entries[..n];
      var sum := SumValues(entries[n].Values());
      res := res[entries[n].Key() := sum];
      n := n + 1;
    }
    assert entries[..n] == entries;
  }

  method SumValues(vals: seq<Json>) returns (sum: nat)
    ensures sum == SumInts(vals)
  {
    sum := 0;
    var i := 0;
    while i < |vals|
      invariant 0 <= i <= |vals| && sum == SumInts(vals[..i])
    {
      assert vals[..i + 1][..i] == vals[..i];
      sum := sum + ToInt(vals[i]);
      i := i + 1;
    }
    assert vals[..i] == vals;
  }

  /** Every key is reported with the sum over its CPUs in the last entry that has it, and no other key is reported. */
  lemma {:induction false} DumpReports(entries: seq<Entry>, i: nat, k: nat)
    requires i <= |entries| && (i < |entries| ==> entries[i].Key() == k)
    requires forall j | i < j < |entries| :: entries[j].Key() != k
    requires i == |entries| ==> forall j | 0 <= j < |entries| :: entries[j].Key() != k
    ensures k in Dump(entries) <==> i < |entries|
    ensures i < |entries| ==> Dump(entries)[k] == SumInts(entries[i].Values())
  {
    if entries != [] {
      var n := |entries| - 1;
      if i != n {
        DumpReports(entries[..n], if i < n then i else n, k);
      }
    }
  }

  /** What an entry is read as: the formatted part where there is one, else the raw part; the per-CPU values, else the
      single value, else 0. */
  lemma EntryTable(raw: Fields<Json>, formatted: Fields<Scalar>, v: Json)
    ensures Entry(raw, Some(formatted)).Key() == formatted.key.Int() && Entry(raw, None).Key() == ToInt(raw.key)
    ensures raw.values != [] ==> Entry(raw, None).Values() == raw.values
    ensures formatted.values != [] ==> Entry(raw, Some(formatted)).Values() == formatted.values
    ensures Entry(Fields(raw.key, [], Some(v)), None).Values() == [v]
    ensures Entry(raw, Some(Fields(formatted.key, [], Some(v)))).Values() == [v]
    ensures SumInts(Entry(Fields(raw.key, [], None), None).Values()) == 0
    ensures SumInts(Entry(raw, Some(Fields(formatted.key, [], None))).Values()) == 0
  {
    assert SumInts([Single(Num(0))]) == 0;
  }

  /** A byte list is read with its first byte lowest, a decimal string with its first digit highest. */
  lemma {:induction false} ToIntExamples(b0: byte, b1: byte, d0: nat, d1: nat)
    ensures ToInt(HexBytes([b0, b1])) == b0 + 0x100 * b1 as int
    ensures ToInt(Single(Decimal([d0, d1]))) == 10 * d0 + d1 && ToInt(Single(Num(d0))) == d0
  {
    assert [b0, b1][1..] == [b1] && [b1][1..] == [];
    assert FromLittleEndian([b1]) == b1;
    assert [d0, d1][..1] == [d0] && [d0][..0] == [];
    assert FromDecimal([d0]) == d0;
  }

  /** What bpftool may print: raw bytes, numbers or decimal strings, or raw bytes with a formatted part. */
  datatype Style = RawBytes | Numbers | Strings | Formatted {
    function Number(v: nat): Scalar {
      if this == Strings then Decimal(DecimalDigits(v)) else Num(v)
    }

    /** An unsigned value of `n` bytes. */
    function Field(n: nat, v: nat): Json {
      if this == RawBytes || this == Formatted then HexBytes(LittleEndian(n, v)) else Single(Number(v))
    }
  }

  /** How slot `s` is printed under key `key`. */
  function Print(st: seq<Cpu<Slot>>, s: Slot, key: nat, style: Style): Entry {
    var raw := seq(|st|, i requires 0 <= i < |st| => style.Field(8, st[i].Read(s)));
    var typed := seq(|st|, i requires 0 <= i < |st| => Single(style.Number(st[i].Read(s))));
    Entry(Fields(style.Field(4, key), raw, None),
          if style == Formatted then Some(Fields(style.Number(key), typed, None)) else None)
  }

  /** How each style writes a value of two bytes. */
  lemma {:induction false} StyleForms(hi: byte, lo: byte)
    ensures var v := Word(hi, lo);
      && RawBytes.Field(2, v) == Formatted.Field(2, v) == HexBytes([lo, hi]) && Formatted.Number(v) == Num(v)
      && Numbers.Field(2, v) == Single(Num(v)) && Strings.Field(2, v) == Single(Decimal(DecimalDigits(v)))
  {
    WordBytes(hi, lo);
    var v := Word(hi, lo);
    assert v / 0x100 == hi && v % 0x100 == lo && hi % 0x100 == hi;
    assert LittleEndian(0, hi / 0x100) == [];
    assert LittleEndian(1, hi) == [hi];
    assert LittleEndian(2, v) == [lo] + [hi];
  }

  /** Every style reads back, as a number of its own or as a field of `n` bytes. */
  lemma StyleRoundTrip(style: Style, n: nat, v: nat)
    requires v < Range(n)
    ensures style.Number(v).Int() == v && ToInt(style.Field(n, v)) == v
  {
    LittleEndianRoundTrip(n, v);
    DecimalRoundTrip(v);
  }

  /** Printing a slot in any style and reading it back gives its key and its sum over the CPUs. */
  lemma {:induction false} PrintRoundTrip(st: seq<Cpu<Slot>>, s: Slot, key: nat, style: Style)
    requires key < 0x1_0000_0000
    ensures Print(st, s, key, style).Key() == key
    ensures SumInts(Print(st, s, key, style).Values()) == Total(st, s)
  {
    FieldRanges();
    StyleRoundTrip(style, 4, key);
    var e := Print(st, s, key, style);
    if st == [] {
      assert SumInts([Single(Num(0))]) == 0;
    } else {
      forall i | 0 <= i < |st| ensures ToInt(e.Values()[i]) == st[i].Read(s) {
        StyleRoundTrip(style, 8, st[i].Read(s));
      }
      SumPrinted(st, s, e.Values());
    }
  }

  /** Values that read back as the CPUs' slots add up to their total. */
  lemma {:induction false} SumPrinted(st: seq<Cpu<Slot>>, s: Slot, vs: seq<Json>)
    requires |vs| == |st| && forall i | 0 <= i < |st| :: ToInt(vs[i]) == st[i].Read(s)
    ensures SumInts(vs) == Total(st, s)
  {
    if st != [] {
      var k := |st| - 1;
      SumPrinted(st[..k], s, vs[..k]);
    }
  }

  /** The dump of a whole map: slot `slots[i]` under key `i`. */
  function PrintMap(st: seq<Cpu<Slot>>, slots: seq<Slot>, style: Style): seq<Entry> {
    seq(|slots|, i requires 0 <= i < |slots| => Print(st, slots[i], i, style))
  }

  const COUNTERS: seq<Slot> :=
    [Count(Normal), Count(TsAvtp), Count(TsPcp), Count(TsUdp), Count(DscpMarked), Count(ParseShort)]

  function Buckets(): seq<Slot> { seq(HIST_BUCKETS, b requires 0 <= b => Hist(b)) }

  /** What the reader reports for a slot: `raw.get(key, 0)` of the map's dump. */
  function Reported(st: seq<Cpu<Slot>>, s: Slot, style: Style): nat {
    var (slots, key) := match s case Count(c) => (COUNTERS, c.Index()) case Hist(b) => (Buckets(), b);
    var res := Dump(PrintMap(st, slots, style));
    if key in res then res[key] else 0
  }

  lemma {:induction false} DumpOfMap(st: seq<Cpu<Slot>>, slots: seq<Slot>, style: Style, i: nat)
    requires i < |slots| <= 0x1_0000_0000
    ensures var res := Dump(PrintMap(st, slots, style)); i in res && res[i] == Total(st, slots[i])
  {
    var entries := PrintMap(st, slots, style);
    forall j | 0 <= j < |slots| ensures entries[j].Key() == j {
      PrintRoundTrip(st, slots[j], j, style);
    }
    PrintRoundTrip(st, slots[i], i, style);
    DumpReports(entries, i, i);
  }

  /** A slot of either map is reported as its sum over the CPUs. */
  lemma {:induction false} ReportedIsTotal(st: seq<Cpu<Slot>>, s: Slot, style: Style)
    requires s.Hist? ==> s.bucket < HIST_BUCKETS
    ensures Reported(st, s, style) == Total(st, s)
  {
    match s
    case Count(c) =>
      assert COUNTERS[c.Index()] == s;
      DumpOfMap(st, COUNTERS, style, c.Index());
    case Hist(b) =>
      assert Buckets()[b] == s;
      DumpOfMap(st, Buckets(), style, b);
  }

  /** A bucket that the map does not have is reported as 0. */
  lemma ReportedBeyond(st: seq<Cpu<Slot>>, b: nat, style: Style)
    requires b >= 16
    ensures Reported(st, Hist(b), style) == 0
  {
    var entries := PrintMap(st, Buckets(), style);
    forall j | 0 <= j < |entries| ensures entries[j].Key() == j {
      PrintRoundTrip(st, Buckets()[j], j, style);
    }
    DumpReports(entries, |entries|, b);
  }

  /** The packets `ps` were processed on `n` CPUs in the interleaving `trace`, and every increment has been stored. */
  predicate Processed(n: nat, trace: seq<Step<Slot>>, ps: seq<Packet>, cfg: Config, ports: PortMap) {
    && Exec(n, trace).Some? && Quiescent(Exec(n, trace).value)
    && Jobs(trace) == JobsOf(Outcomes(ps, cfg, ports))
  }

  /**
   End to end: for every list of packets, spread over any number of CPUs in any interleaving of loads and stores,
   the reported reasons add up to the packets and the marks stay within the PCP and UDP matches.
   */
  lemma ReportedReasonsAddUp(n: nat, trace: seq<Step<Slot>>, ps: seq<Packet>, cfg: Config, ports: PortMap, style: Style)
    requires Processed(n, trace, ps, cfg, ports) && |ps| < MODULUS
    ensures var st := Exec(n, trace).value;
      && Reported(st, Count(Normal), style) + Reported(st, Count(TsAvtp), style) + Reported(st, Count(TsPcp), style)
         + Reported(st, Count(TsUdp), style) + Reported(st, Count(ParseShort), style) == |ps|
      && Reported(st, Count(DscpMarked), style) <= Reported(st, Count(TsPcp), style) + Reported(st, Count(TsUdp), style)
  {
    var was := SoundRun(ps, cfg, ports);
    ReasonsAddUp(Outcomes(ps, cfg, ports), was, cfg);
    ReportedIsTally(n, trace, ps, cfg, ports, Count(Normal), style);
    ReportedIsTally(n, trace, ps, cfg, ports, Count(TsAvtp), style);
    ReportedIsTally(n, trace, ps, cfg, ports, Count(TsPcp), style);
    ReportedIsTally(n, trace, ps, cfg, ports, Count(TsUdp), style);
    ReportedIsTally(n, trace, ps, cfg, ports, Count(ParseShort), style);
    ReportedIsTally(n, trace, ps, cfg, ports, Count(DscpMarked), style);
  }

  /** What is reported, slot by slot: how many packets had that reason, were marked, or left with that priority. */
  lemma ReportedMeans(n: nat, trace: seq<Step<Slot>>, ps: seq<Packet>, cfg: Config, ports: PortMap, style: Style,
                      c: Counter, b: nat)
    requires Processed(n, trace, ps, cfg, ports) && |ps| < MODULUS && c != DscpMarked && b < 15
    ensures var st, os := Exec(n, trace).value, Outcomes(ps, cfg, ports);
      && Reported(st, Count(c), style) == |set i | 0 <= i < |os| && os[i].reason == c|
      && Reported(st, Count(DscpMarked), style) == |set i | 0 <= i < |os| && os[i].marked|
      && Reported(st, Hist(b), style) == |set i | 0 <= i < |os| && os[i].packet.priority == b|
      && Reported(st, Hist(15), style) == |set i | 0 <= i < |os| && os[i].packet.priority >= 15|
  {
    var was := SoundRun(ps, cfg, ports);
    var os := Outcomes(ps, cfg, ports);
    CountersMean(os, was, cfg, c);
    BucketsMean(os, was, cfg, b);
    BucketsMean(os, was, cfg, 15);
    ReportedIsTally(n, trace, ps, cfg, ports, Count(c), style);
    ReportedIsTally(n, trace, ps, cfg, ports, Count(DscpMarked), style);
    ReportedIsTally(n, trace, ps, cfg, ports, Hist(b), style);
    ReportedIsTally(n, trace, ps, cfg, ports, Hist(15), style);
  }

  /**
   When every packet comes in at priority 0, as it does behind a veth, the probe's histogram and the classifier's
   counters tell the same story.
   */
  lemma ReportedHistogram(n: nat, trace: seq<Step<Slot>>, ps: seq<Packet>, cfg: Config, ports: PortMap, style: Style)
    requires Processed(n, trace, ps, cfg, ports) && |ps| < MODULUS
    requires forall i | 0 <= i < |ps| :: ps[i].priority == 0
    ensures var st, b := Exec(n, trace).value, Bucket(cfg.Priority());
      && 0 < b < HIST_BUCKETS
      && Reported(st, Hist(b), style) ==
           Reported(st, Count(TsAvtp), style) + Reported(st, Count(TsPcp), style) + Reported(st, Count(TsUdp), style)
      && Reported(st, Hist(0), style) == Reported(st, Count(Normal), style) + Reported(st, Count(ParseShort), style)
  {
    var was := SoundRun(ps, cfg, ports);
    HistogramMatchesCounters(Outcomes(ps, cfg, ports), cfg);
    ReportedIsTally(n, trace, ps, cfg, ports, Count(Normal), style);
    ReportedIsTally(n, trace, ps, cfg, ports, Count(TsAvtp), style);
    ReportedIsTally(n, trace, ps, cfg, ports, Count(TsPcp), style);
    ReportedIsTally(n, trace, ps, cfg, ports, Count(TsUdp), style);
    ReportedIsTally(n, trace, ps, cfg, ports, Count(ParseShort), style);
    ReportedIsTally(n, trace, ps, cfg, ports, Hist(Bucket(cfg.Priority())), style);
    ReportedIsTally(n, trace, ps, cfg, ports, Hist(0), style);
  }

  lemma SoundRun(ps: seq<Packet>, cfg: Config, ports: PortMap) returns (was: seq<u32>)
    ensures |was| == |ps| && forall i | 0 <= i < |ps| :: was[i] == ps[i].priority
    ensures forall i | 0 <= i < |ps| :: Sound(Outcomes(ps, cfg, ports)[i], was[i], cfg)
  {
    was := seq(|ps|, i requires 0 <= i < |ps| => ps[i].priority);
    forall i | 0 <= i < |ps| ensures Sound(Outcomes(ps, cfg, ports)[i], was[i], cfg) {
      OutcomesSound(ps[i], cfg, ports);
    }
  }

  lemma ReportedIsTally(n: nat, trace: seq<Step<Slot>>, ps: seq<Packet>, cfg: Config, ports: PortMap, s: Slot,
                        style: Style)
    requires Processed(n, trace, ps, cfg, ports) && |ps| < MODULUS && (s.Hist? ==> s.bucket < HIST_BUCKETS)
    ensures Reported(Exec(n, trace).value, s, style) == SumHits(Outcomes(ps, cfg, ports), s)
  {
    var was := SoundRun(ps, cfg, ports);
    ReportedIsTotal(Exec(n, trace).value, s, style);
    SumHitsBound(Outcomes(ps, cfg, ports), was, cfg, s);
    TallyIsSumHits(Outcomes(ps, cfg, ports), s);
    SummedSlotsAreExact(n, trace, s);
  }
}
