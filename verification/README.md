# Verified model of the time-sensitive packet classifier and its testbed

This Dafny project models the logic of the classifier, of the tools around it and of the measurement pipeline, and proves
what they are for. `dafny verify dfyconfig.toml` checks all of it.

| file | models |
|---|---|
| `Wrappers.dfy` | a value that may be missing |
| `Sizes.dfy` | counting marked positions |
| `Bytes.dfy` | fixed-width integers, byte orders, decimal digits |
| `Checksum.dfy` | the Internet checksum from scratch and its incremental update |
| `TsCommon.dfy` | constants, configuration, the packet and the skb |
| `Rule.dfy` | what counts as time-sensitive, as a rule about the frame |
| `Classifier.dfy` | the BPF program `ts_classifier`: parser, DSCP rewriting, counters |
| `Harness.dfy` | the packet builders of the BPF test harness |
| `Interleaving.dfy` | counting on many CPUs, load by load and store by store |
| `Counting.dfy` | the priority probe, `bpfmaps.py`, and what the counters add up to |
| `TcxChain.dfy` | attaching to, detaching from and running the tcx chain |
| `Flood.dfy` | the pacing loop of the best-effort flood |
| `Traffic.dfy` | talker, channel and listener |
| `Loss.dfy` | loss, duplicate and reorder accounting, per run and summed |
| `Dscp.dfy` | TOS, DSCP and ECN histograms, per run and merged |
| `CliffsDelta.dfy` | Cliff's delta by sorting and searching |
| `Bootstrap.dfy` | the chunked resampling loop |

## The main results

- **Checksum.** For every header, the incremental update of RFC 1624 (section 3, equation 3) on host-order words leaves the
  receiver's residue unchanged, and what it stores is bit for bit the from-scratch checksum iff the header verified before.
  Byte order does not matter, for the update and for the whole checksum (section 2 of RFC 1071). What the checksum is
  follows from its value on one word and its law for concatenation.
- **Classifier.** The parser decides exactly as a declarative rule does, and the rule is given byte by byte for every
  frame. Rewriting never fails half-way, touches only TOS and checksum, keeps ECN, and is invisible to the parser, so the
  program may run any number of times. Fragments of one datagram never part ways.
- **Builders.** Rewriting a built frame in place gives the frame that would have been built with the new TOS. The parser
  recovers what was built iff the options fit an IHL.
- **Counters.** In every interleaving of loads and stores on any number of CPUs no increment is lost, and what `bpfmaps.py`
  reads back is exact: every slot counts its packets, reasons add up to packets, and histogram to reasons.
- **tcx chain.** Every reachable chain is ordered by when and where its links were attached. Putting the classifier at its
  head makes it run on every packet and changes nothing about who else runs, the verdict, or the legacy filters.
- **Flood.** For any clock readings: a burst bound (and a run that attains it), a total bound, and the exact condition for
  drift-free pacing.
- **Loss.** From the talker's bytes through any channel to both reports: reported loss is exactly what is missing below the
  last number seen, and the remainder is the invisible tail; the sums over runs still balance. Every reported number is
  the size of the set of rows or numbers it is meant to count.
- **Statistics.** The fast Cliff's delta is the quadratic definition. Chunking the bootstrap changes nothing.
- **Histograms.** Merging runs is pooling their rows, keys and counts, for every field. The dominant DSCP can differ on
  ties; the exact condition is proved for every list of runs.

## How the source is represented

- An skb is a class with a byte array that is rewritten in place; `goto done` is leaving a labelled block. `classify` is
  split at the end of its tag loop into `SkipTags` and `ClassifyIp`, which the source writes as one function.
- Bit operations on unsigned values are written as division and remainder by powers of two. The fragment test is made on
  the two bytes of the field, as the mask in network byte order makes it.
- `bpf_l3_csum_replace` is executable 16-bit one's-complement arithmetic on words in the host's byte order, little or big.
  The load, store and checksum helpers fail only when out of range.
- 64-bit counters wrap around. A CPU runs one packet's programs to the end before the next packet, as the kernel does with
  bottom halves disabled; other CPUs interleave arbitrarily.
- Clock readings, send results, the channel, the random stream, the statistic and the percentile are arbitrary parameters.
  An interrupt is running out of clock readings. Latency and jitter are in ns, samples are reals without NaN.
- A Python dictionary of positive counts is its keys in insertion order with the multiset of what was counted.
- A program in the tcx chain is any function from a packet to a verdict and a packet. Verdicts are the four tcx codes.

## Where the code does not do what one might expect

- `_aggregate_dscp` and `dscp_distribution` break ties for the dominant DSCP differently (`DominantAgreesIff`,
  `DominantCanDiffer`).
- The listener's reorder scan and the vectorised one differ on sequences that start below -1, which the wire format excludes
  (`ScanAgreesIff`); reported loss is not the number of missing rows when a number is negative (`LostIsMissingIff`).
- `ipv4` accepts more than 40 bytes of options and then overwrites the version nibble (`HeaderRecovered`).
- Rates above 8000 Mbit/s per byte of packet size turn the flood's pacing off (`PacingOnIff`, `UnpacedIsUnbounded`).
- `bootstrap_ci` never ends with a chunk size of 0 (`EndsIffChunkPositive`).
- Reported loss cannot see lost packets behind the last arrival, as a comment in `metrics.py` says (`LossAccounting`).

## Model

| member | source | states |
|---|---|---|
| Checksum.ComputeIpChecksum | bpf/tests/bpf_harness.py:49-55 | padding, summing and folding gives the complement of the sum's residue modulo 0xFFFF, with 0xFFFF for positive multiples |
| Checksum.ChecksumOfWord | bpf/tests/bpf_harness.py:49-55 | nothing sums to 0xFFFF, one word or one padded byte to its complement |
| Checksum.ChecksumConcat | bpf/tests/bpf_harness.py:49-55 | cut behind any word, the complements of the parts' checksums add up with end-around carry; with `ChecksumOfWord` this fixes every checksum |
| Checksum.OneByteDetected | bpf/tests/bpf_harness.py:124-128 | a header that verifies no longer does with any one byte changed |
| Checksum.SwapCommutes | bpf/src/ts_classifier.c:194-200 | for any two words and their byte-swapped forms, the end-around sums are byte-swapped forms of each other |
| Checksum.ByteOrderIndependent | bpf/tests/bpf_harness.py:49-55 | the checksum of byte-swapped words is the byte-swapped checksum |
| Checksum.CsumReplaceByteOrder | bpf/src/ts_classifier.c:194-200 | the incremental update commutes with byte swap, for all words given by their bytes |
| Checksum.RetaggedResidue | bpf/src/ts_classifier.c:177-203 | after an incremental update the receiver computes the residue it computed before, valid or not |
| Checksum.RetaggedIsFromScratch | bpf/src/ts_classifier.c:177-203 | the stored checksum is the from-scratch one of the rewritten header iff the header verified before |
| Rule.TagCountUnique | bpf/src/ts_classifier.c:100-118 | at most one number of tags fits the rule, and then L2 is not truncated |
| Rule.IpOffsetInFrame | bpf/src/ts_classifier.c:130-148 | a reported IPv4 offset is 14, 18 or 22 with all 20 fixed header bytes in the frame, and is reported iff the datagram is whole and well-formed |
| Rule.InnerTagNeverDecides | bpf/src/ts_classifier.c:100-118 | the inner tag's TCI never changes the decision |
| Rule.ShortWithoutL2 | bpf/src/ts_classifier.c:84-113 | short without 14 bytes, or with a tag cut off behind a first or second TPID 0x8100 or 0x88A8 |
| Rule.HighPcpTable | bpf/src/ts_classifier.c:92-118 | where L3 starts, the EtherType, and that PCP 5 to 7 is high, taken from the metadata or else from the first tag |
| Rule.AvtpTable | bpf/src/ts_classifier.c:121-124 | EtherType 0x22F0 behind up to two tags is TS_AVTP, whatever else |
| Rule.PcpTable | bpf/src/ts_classifier.c:126-128 | any other frame is TS_PCP iff its outer PCP is at least 5, and without IPv4 normal otherwise |
| Rule.Ipv4Table | bpf/src/ts_classifier.c:130-174 | the decision on every other IPv4 frame, byte by byte: short, TS_UDP for a whole UDP datagram to 6000 (unless flag 2) or to a port in the map, else normal |
| Rule.FragmentsAgree | bpf/src/ts_classifier.c:130-174 | two fragments with the same L2 header get the same reason, whatever their content, ports, protocol, options and configuration |
| Rule.MarkIsInvisible | bpf/src/ts_classifier.c:130-168 | frames that differ only in TOS and checksum are parsed and decided alike, options included |
| Classifier.SkipTags | bpf/src/ts_classifier.c:80-128 | the loop stops where the rule says, fails iff L2 is truncated, and takes the PCP from the outermost tag |
| Classifier.ClassifyIp | bpf/src/ts_classifier.c:126-174 | the branches of the IPv4 part give the reason and offset of the rule at that offset |
| Classifier.Classify | bpf/src/ts_classifier.c:77-175 | for every frame, metadata, configuration and port map the parser returns the rule's reason, verdict and IPv4 offset |
| Classifier.LoadTwo | bpf/src/ts_classifier.c:187-188 | loads the two bytes, or fails iff one is out of range |
| Classifier.L3CsumReplace | bpf/src/ts_classifier.c:198-200 | updates the two checksum bytes in host order, or changes nothing |
| Classifier.Marked | bpf/src/ts_classifier.c:177-204 | as specified, rewriting returns 1 iff the frame changed, differs in TOS and checksum bytes only, and with a whole fixed header never fails and sets the TOS |
| Classifier.HostOrderUpdate | bpf/src/ts_classifier.c:194-200 | on little- and big-endian hosts the bytes written are those of a network-order update |
| Classifier.MarkDscp | bpf/src/ts_classifier.c:181-204 | for every offset: -1 and no change, 0 and no change, or 1 with TOS and checksum both written |
| Classifier.MarkFailsIff | bpf/src/ts_classifier.c:181-204 | for every offset the return code is -1 iff a needed byte is out of range, 0 iff the DSCP was already there, else 1 |
| Classifier.Program.constructor | bpf/src/ts_classifier.c:32-53 | counters start at 0 |
| Classifier.Program.Count | bpf/src/ts_classifier.c:55-61 | one counter goes up by one, modulo 2^64 |
| Classifier.Program.Run | bpf/src/ts_classifier.c:206-233 | the verdict is UNSPEC, and packet and counters are as specified for the packet's reason and the configuration in the map, or all zeros without one |
| Classifier.MarkNeverFails | bpf/src/ts_classifier.c:181-204 | with an offset from the parser there is no failure, and nothing is written iff the DSCP was already there |
| Classifier.ConfiguredPriority | bpf/src/ts_classifier.c:206-233 | a time-sensitive packet gets the configured priority or 6, any other keeps its own; without flag 1 no byte changes |
| Classifier.FirstPacketCounts | bpf/src/ts_common.h:37-46 | which of the six slots one packet increments |
| Classifier.OnlyMarkChanges | bpf/tests/test_ts_classifier.py:173-186 | only TOS and checksum bytes change, only for time-sensitive packets; DSCP_MARKED iff the frame changed |
| Classifier.DscpIsSet | bpf/tests/test_ts_classifier.py:189-193 | a time-sensitive IPv4 packet leaves with the TOS byte of the configured DSCP and its own ECN bits |
| Classifier.Idempotent | bpf/src/ts_classifier.c:206-233 | any number of further runs gives the same reason, priority and bytes and marks nothing |
| Classifier.FragmentsShareBand | bpf/src/ts_classifier.c:144-148 | fragments of one datagram leave with the same priority and unchanged, even if cut off in the IP header |
| Classifier.ChecksumStaysRight | bpf/src/ts_classifier.c:177-204 | for every packet and any number of runs the header's residue is kept, and a rewritten header has the from-scratch checksum iff it arrived valid |
| Harness.FrameLayout | bpf/tests/bpf_harness.py:58-66 | where tags, EtherTypes and payload of a built frame lie |
| Harness.UntaggedFrameBytes | bpf/tests/bpf_harness.py:58-59 | the bytes of an untagged frame of any EtherType |
| Harness.TaggedFrameBytes | bpf/tests/bpf_harness.py:58-66 | the bytes of a frame with one tag |
| Harness.DoubleTaggedFrameBytes | bpf/tests/bpf_harness.py:58-66 | the bytes of a frame with two tags |
| Harness.BuiltBytes | bpf/tests/bpf_harness.py:73-105 | every field of a built IPv4 packet: version and length, TOS, total length, identification, fragment field, TTL, protocol, addresses, options, payload |
| Harness.UdpBytes | bpf/tests/bpf_harness.py:112-113 | the bytes of a built UDP datagram |
| Harness.CorruptionDetected | bpf/tests/bpf_harness.py:124-128 | the harness reads the second header byte and notices any one changed byte of a header that verified |
| Harness.TagsRecovered | bpf/tests/bpf_harness.py:58-66 | the parser finds the built tags and the outer PCP |
| Harness.HeaderRecovered | bpf/tests/bpf_harness.py:73-105 | the parser recognises the built header with its length iff it is unfragmented and has at most 40 bytes of options |
| Harness.PayloadRecovered | bpf/src/ts_classifier.c:126-174 | a built IPv4 packet with any payload is decided by outer PCP, protocol, fragmentation and the port in a whole UDP header only, at the built IP offset |
| Harness.PortRecovered | bpf/tests/bpf_harness.py:112-121 | a built UDP packet is decided by outer PCP, protocol, fragmentation and destination port only, at the built IP offset |
| Harness.AvtpIsTs | bpf/tests/test_ts_classifier.py:95-99 | every frame built with EtherType 0x22F0 is TS_AVTP |
| Harness.PcpIsTs | bpf/tests/test_ts_classifier.py:57-93 | every other built frame is TS_PCP iff the PCP of the metadata, or else of the outermost tag, is at least 5 |
| Harness.PortsAreTs | bpf/tests/test_ts_classifier.py:42-54 | without a high PCP, a whole datagram to a port in the map is TS_UDP whatever the flags, to 6000 unless flag 2 is set, and to any other normal |
| Harness.FilledVerifies | bpf/tests/bpf_harness.py:103-104 | filling in the checksum makes a header verify and changes nothing else |
| Harness.RetaggedIsRebuilt | bpf/tests/bpf_harness.py:73-105 | retagging a built header gives the header built with the new TOS |
| Harness.BuiltFrameVerifies | bpf/tests/bpf_harness.py:124-128 | the harness reads the built TOS and a correct checksum from every built frame |
| Harness.MarkingIsRebuilding | bpf/tests/test_ts_classifier.py:173-209 | the program, run once or more often, turns a built frame into the frame built with the configured DSCP, byte for byte, and its header verifies |
| Harness.UdpRebuilt | bpf/src/ts_classifier.c:157-228 | with marking on, every whole datagram built around a UDP header for a time-sensitive port leaves, after any number of runs, at the configured priority as the frame built with the configured DSCP |
| Harness.DefaultsMarkEf | bpf/tests/test_ts_classifier.py:173-180 | with only marking configured, every whole datagram to UDP 6000 leaves at priority 6 as the frame built with DSCP 46 and its own ECN bits (its checksum verifies by `BuiltFrameVerifies`), after any number of runs |
| Harness.ConfiguredMark | bpf/src/ts_classifier.c:217-229 | with a priority, a DSCP and marking configured, a datagram to a port in the map leaves with that priority as the frame built with the low six bits of that DSCP |
| Harness.DefaultsIgnoreOthers | bpf/tests/test_ts_classifier.py:42-54 | other ports without a high outer PCP are counted as normal and left alone |
| Interleaving.StepKeepsAccount | bpf/src/ts_classifier.c:47-61 | each load, store or arrival on any CPU keeps every CPU's account |
| Interleaving.NoLostUpdate | bpf/src/ts_classifier.c:47-61 | in every interleaving a slot holds what was asked for and is not owed, and no loaded value is stale |
| Interleaving.SummedSlotsAreExact | bpf/src/ts_classifier.c:47-61 | the slots summed over CPUs are what was asked for, less 2^64 per wrap-around, and exact below 2^64 |
| Counting.Probe.Run | bpf/src/prio_probe.c:25-37 | the slot of the packet's priority, or 15 from 15 on, goes up by one modulo 2^64; the packet is untouched |
| Counting.CountedIsHits | bpf/src/ts_classifier.c:217-230 | the program's counter stores are the increments of its interleaved job |
| Counting.ReasonsAddUp | bpf/src/ts_common.h:37-46 | five reasons add up to the packets; marks stay within PCP and UDP matches |
| Counting.HistogramMatchesCounters | bpf/src/prio_probe.c:25-37 | with inputs at priority 0 the histogram splits into the time-sensitive bucket and bucket 0 as the counters do |
| Counting.CountersMean | bpf/src/ts_classifier.c:217-230 | a reason's slot counts the packets with that reason, DSCP_MARKED the marked ones |
| Counting.BucketsMean | bpf/src/prio_probe.c:25-37 | a bucket below 15 counts the packets that leave with that priority, bucket 15 those with 15 or more |
| Counting.DumpPercpu | testbed/bpfmaps.py:25-39 | the loop builds the dump entry by entry, from the formatted part of an entry where there is one |
| Counting.DumpReports | testbed/bpfmaps.py:29-39 | a key is reported iff an entry has it, with the sum of the last such entry's values |
| Counting.EntryTable | testbed/bpfmaps.py:29-38 | the formatted part of an entry goes before the raw one, the per-CPU values before the single one, and 0 is the default |
| Counting.ToIntExamples | testbed/bpfmaps.py:17-22 | a byte list is read lowest byte first, a decimal string highest digit first |
| Counting.ReportedBeyond | testbed/bpfmaps.py:63-69 | a key that the map does not have is reported as 0 |
| Counting.PrintRoundTrip | testbed/bpfmaps.py:17-22 | numbers, decimal strings, little-endian byte lists and formatted entries read back as the key and the sum over CPUs |
| Counting.ReportedReasonsAddUp | testbed/bpfmaps.py:63-69 | over any interleaving on any number of CPUs the reported reasons add up to the packets, and marks stay within PCP and UDP |
| Counting.ReportedMeans | testbed/bpfmaps.py:63-69 | over any interleaving, each reported slot is the number of packets with that reason, that mark or that priority |
| Counting.ReportedHistogram | testbed/run.sh:74-78 | the reported histogram behind the classifier equals the sums of reported counters |
| TcxChain.Device.DoAttach | bpf/tools/tcx_attach.c:79-97 | the link goes to the head or the tail; a refused link or a taken pin leaves the chain as it was |
| TcxChain.Device.DoDetach | bpf/tools/tcx_attach.c:100-117 | the pinned link leaves the chain; an unknown pin changes nothing |
| TcxChain.ReachableValid | bpf/tools/tcx_attach.c:42-117 | in every reachable chain the later of two links goes first iff attached at the head, and pins and links correspond one to one |
| TcxChain.LatestHeadIsFirst | bpf/tools/tcx_attach.c:79-81 | the latest link attached at the head runs first |
| TcxChain.LatestTailIsLast | bpf/tools/tcx_attach.c:79-81 | the latest link attached at the tail runs last |
| TcxChain.DetachUndoesAttach | bpf/tools/tcx_attach.c:100-117 | detaching restores chain and pins |
| TcxChain.AllDetachedIsEmpty | bpf/tests/test_tcx_chain.sh:108-112 | with no pin left the chain is empty |
| TcxChain.LegacyRunsIffAllUnspec | README.md:19-25 | the legacy filters run iff every program returned UNSPEC, and then every program ran |
| TcxChain.FirstAnswerDecides | README.md:19-25 | the first program with an answer gives the chain its verdict and packet, and exactly the programs up to it ran |
| TcxChain.NoAnswerPasses | README.md:19-25 | without an answer every program ran in turn and the verdict is UNSPEC |
| TcxChain.DummyOkPasses | bpf/src/tcx_dummy_ok.c:21-30 | the dummy gives OK and leaves the packet alone |
| TcxChain.TestbedChain | bpf/tests/test_tcx_chain.sh:94-106 | classifier, probe and dummy in a row all run, and the packet passes as the classifier left it |
| TcxChain.AnswererShadows | bpf/src/tcx_dummy_ok.c:21-30 | behind a program that always answers nothing runs |
| TcxChain.OwnProgramsIndifferent | bpf/src/tcx_dummy_ok.c:21-30 | classifier, probe and dummy ignore priority, TOS and checksum |
| TcxChain.ClassifierAtHeadIsTransparent | bpf/src/ts_classifier.c:8-11 | at the head of any reachable chain of such programs the classifier always runs, and the other programs run, the verdict and the legacy filters stay the same |
| Flood.Run | workload/be_flood.py:30-56 | sent and errors add up to the attempts of the pacing loop over the clock readings, and sent are the successful ones |
| Flood.EveryReading | workload/be_flood.py:40-56 | what one reading does: end the run, wait, or attempt a send and move the schedule by a spacing, or to the reading if more than 50 ms behind |
| Flood.StallRun | workload/be_flood.py:46-51 | the attempts after a stall of more than 50 ms |
| Flood.BurstBound | workload/be_flood.py:39-56 | for any two attempts and any readings, the attempts between fit their time distance plus 50 ms |
| Flood.BurstBoundAttained | workload/be_flood.py:49-51 | some run attains the burst bound |
| Flood.TotalBound | workload/be_flood.py:29-56 | no attempt is early, and a run makes at most duration / spacing attempts, rounded up |
| Flood.NoDriftIffNoReset | workload/be_flood.py:49-51 | the schedule is t0 plus a spacing per attempt iff no attempt was 50 ms past its next slot |
| Flood.PerPkt | workload/be_flood.py:29-29 | the spacing is the exact one rounded down |
| Flood.PacingOnIff | workload/be_flood.py:29-29 | pacing is on iff the rate is positive and at most 8000 Mbit/s per byte |
| Flood.UnpacedIsUnbounded | workload/be_flood.py:43-56 | without pacing any number of attempts is possible |
| CliffsDelta.SortSorts | analysis/tsn_analysis/stats.py:119-119 | sorting gives a sorted permutation |
| CliffsDelta.SearchSorted | analysis/tsn_analysis/stats.py:122-123 | bisection splits a sorted sample at the left or right insertion point |
| CliffsDelta.DeltaIsPairs | analysis/tsn_analysis/stats.py:112-124 | the fast form is the sum of signs over all pairs divided by their number, NaN iff a sample is empty |
| CliffsDelta.DeltaPermute | analysis/tsn_analysis/stats.py:112-124 | only the samples' multisets matter |
| CliffsDelta.DeltaAntisymmetric | analysis/tsn_analysis/stats.py:112-124 | swapping the samples flips the sign |
| CliffsDelta.DeltaRange | analysis/tsn_analysis/stats.py:112-124 | the value is in [-1, 1], and 1 iff every element of the first sample exceeds every element of the second |
| Bootstrap.Rng.Integers | analysis/tsn_analysis/stats.py:95-95 | draws come row by row from the stream |
| Bootstrap.FillSlice | analysis/tsn_analysis/stats.py:95-95 | one statement of the loop draws k resamples and stores their statistics in k slots |
| Bootstrap.Resamples | analysis/tsn_analysis/stats.py:90-96 | for every chunk size from 1 on, value i is the statistic of the elements drawn with numbers i * n to i * n + n - 1, as after one unchunked draw, and so is the generator; the slices written are those of the loop's progress |
| Bootstrap.EndsIffChunkPositive | analysis/tsn_analysis/stats.py:92-96 | the loop ends iff the chunk size is positive, after nBoot / chunk iterations, rounded up |
| Bootstrap.IterationCount | analysis/tsn_analysis/stats.py:92-96 | the finished loop wrote nBoot / chunk slices, rounded up |
| Bootstrap.EachSlotOnce | analysis/tsn_analysis/stats.py:93-96 | of the slices that the finished loop wrote, slot i lies in that of iteration i / chunk and in no other |
| Bootstrap.BootstrapCi | analysis/tsn_analysis/stats.py:68-99 | the interval, including the short cuts, does not depend on the chunk size |
| Bootstrap.IntervalMeans | analysis/tsn_analysis/stats.py:83-99 | NaN, the point alone, or the percentiles at 50 - 50 ci and 50 + 50 ci of the resampled statistics |
| Traffic.HeaderRoundTrip | workload/talker.py:13-14 | sequence number and send time survive packing and unpacking, and the datagram has the size asked for, at least 12 |
| Traffic.DatagramBytes | workload/talker.py:13-14 | byte by byte: the sequence number in four bytes and the send time in eight, highest first, then zeros |
| Traffic.Talk | workload/talker.py:58-81 | one datagram per successful send, numbered from 0; sent and errors add up; every packet leaves at the first reading not before its slot, and the loop is interrupted only when there is none |
| Traffic.AwaitSlot | workload/talker.py:66-70 | the inner loop passes over the readings before the slot and no others |
| Traffic.SentSeqsAscend | workload/talker.py:64-78 | the numbers sent are those whose send succeeded, ascending |
| Traffic.Receive | workload/listener.py:86-131 | one row per packet with a header, its latency, its jitter against the row before, and the total size |
| Traffic.KeptInOrder | workload/listener.py:103-131 | exactly the arrivals with a header become rows, in order |
| Traffic.TotalSizeAdds | workload/listener.py:108-109 | the total size is the sum of the packets' sizes |
| Traffic.JitterTelescopes | workload/listener.py:114-117 | summed jitter is how far the last arrival is off the first one's schedule |
| Traffic.RowsCarryNumbers | workload/listener.py:106-131 | through any channel the rows carry the talker's numbers and times in arrival order |
| Loss.ScanReorders | workload/listener.py:158-164 | the scan counts the late rows of the sequence with -1 put in front |
| Loss.ListenerSummary | workload/listener.py:152-164 | the listener's expected, loss and duplicates are those of the analysis |
| Loss.ScanAgreesIff | analysis/tsn_analysis/metrics.py:104-105 | scan and vectorised count agree iff the sequence does not start below -1 |
| Loss.ReordersAreLateRows | analysis/tsn_analysis/metrics.py:104-105 | the reorders are the rows that come after a row with a larger number |
| Loss.NoReordersIffAscending | analysis/tsn_analysis/metrics.py:104-105 | no reorders iff the arrivals are nondecreasing |
| Loss.LostIsMissingIff | analysis/tsn_analysis/metrics.py:76-103 | lost is the number of sequence numbers below the maximum that never arrived iff none is negative |
| Loss.SummaryMeans | analysis/tsn_analysis/metrics.py:88-114 | what every number of a run's summary counts, without rows included |
| Loss.LossPctMeans | analysis/tsn_analysis/metrics.py:111-111 | the percentage times expected is a hundred times lost, NaN iff nothing is expected |
| Loss.SummaryPermutes | analysis/tsn_analysis/metrics.py:88-114 | all but the reorders depend on the arrivals as a multiset |
| Loss.LossAccounting | analysis/tsn_analysis/metrics.py:88-114 | lost plus the tail is what never arrived, which is failed sends plus drops; nothing is hidden iff the last number arrived |
| Loss.EndToEnd | workload/listener.py:152-164 | the same from the talker's bytes through any channel, and listener and analysis report the same |
| Loss.AggregateBalances | analysis/tsn_analysis/report.py:42-49 | summed over runs, empty ones included, the accounts still balance; the loss is a percentage below 100 iff something arrived, and NaN otherwise |
| Loss.AggregateMeans | analysis/tsn_analysis/report.py:42-49 | summed reorders, duplicates and losses count rows and numbers over all runs |
| Loss.AggregateReceived | analysis/tsn_analysis/report.py:42-49 | summed received counts all rows of all runs |
| Dscp.HistogramValid | analysis/tsn_analysis/metrics.py:128-130 | a histogram has each counted value once, ascending |
| Dscp.TotalsMatch | analysis/tsn_analysis/metrics.py:120-123 | the values of each histogram add up to the rows minus the missing |
| Dscp.FieldsAreImages | analysis/tsn_analysis/metrics.py:126-135 | DSCP and ECN counts are the TOS counts under >> 2 and & 3 |
| Dscp.DistributionMeans | analysis/tsn_analysis/metrics.py:126-135 | a count is the number of rows >= 0 whose value / 4, % 4 or value is the key; missing is the number of rows below 0 |
| Dscp.DominantMeans | analysis/tsn_analysis/metrics.py:136-136 | the dominant DSCP of a run is the smallest with the largest count, None without a valid row |
| Dscp.MergeInto | analysis/tsn_analysis/report.py:58-60 | merging adds counts and puts new keys last |
| Dscp.AggregateDscp | analysis/tsn_analysis/report.py:52-65 | the nested loops merge the runs that have a tos column, None iff there is none |
| Dscp.MergedIsPooled | analysis/tsn_analysis/report.py:56-61 | for every field the merged dictionary has the keys, each once, and the counts of all rows pooled |
| Dscp.AggregatedIsPooled | analysis/tsn_analysis/report.py:52-65 | None iff no run has a tos column; else every field has the items of the pooled rows |
| Dscp.AggregatedMeans | analysis/tsn_analysis/report.py:56-61 | an aggregated count is the number of rows over all runs with that DSCP, ECN or TOS |
| Dscp.AggregatedMissingMeans | analysis/tsn_analysis/report.py:61-61 | aggregated missing is the number of rows below 0 over all runs |
| Dscp.AggregatedDominant | analysis/tsn_analysis/report.py:62-64 | the aggregate's dominant DSCP has the largest count, None without a valid row |
| Dscp.MissingIsPooled | analysis/tsn_analysis/report.py:61-61 | so are the missing rows |
| Dscp.MergedTotals | analysis/tsn_analysis/report.py:56-61 | the values of each merged histogram add up to all rows minus the missing |
| Dscp.DominantIsMaximal | analysis/tsn_analysis/report.py:62-64 | no DSCP is counted more often than the dominant one |
| Dscp.TopRunExists | analysis/tsn_analysis/report.py:56-64 | with a valid row, some run is the first to have a value with the top count |
| Dscp.DominantAgreesIff | analysis/tsn_analysis/report.py:62-64 | for every list of runs: both are None without a valid row; otherwise merged and pooled dominant DSCP agree iff the first run with a top value, which exists, has the smallest |
| Dscp.DominantCanDiffer | analysis/tsn_analysis/report.py:62-64 | two one-packet runs, the first with the larger DSCP, make them differ |

## Left out

- Sockets, subprocesses, argument parsing, CSV and JSON files, printing and signals.
- Plots, the command line interface, and the Markdown and JSON reports.
- `numpy.percentile`, the Mann-Whitney test, the Student-t interval, other summary statistics and effect-size labels.
- Floating-point rounding and NaN samples.
- Run discovery and file-name parsing, and the ordering of conditions.
- Kernel queueing disciplines, veth, and measured latencies.
- Failures of BPF helpers other than range errors, program loading and pinning errors, interface lookup, and `do_query`.
- IPv6 and TCP builders of the harness, and its `bpftool` wrapper.
- Malformed numbers in a bpftool dump, which raise an error; strings of decimal digits, numbers and byte lists are modelled.
- The TOS distribution that the listener prints; the analysis computes it from the same rows.
- Counting.ReportedReasonsAddUp: is stated for fewer than 2^64 packets, because the 64-bit counters wrap around; SummedSlotsAreExact covers the rest.
- Bootstrap.Resamples: requires a chunk size of at least 1, because the loop does not end otherwise, as EndsIffChunkPositive states.
- Bootstrap.BootstrapCi: does not model the error that numpy raises for a negative chunk size.
- Traffic.Talk: sequence numbers past 2^32 - 1, for which packing raises an error, are excluded where the header is unpacked, not in the loop.
