/** The whole way: a program packed to units, packets and bytes, and unpacked again (src/ts/ts_stream.c,
    src/ts/ts_units.c, src/ts/ts_packets.c). */
module EndToEnd {
  import opened Words
  import opened Bytestreams
  import P = TsPackets
  import PL = PacketLists
  import PP = PacketListProperties
  import opened UnitLists
  import opened UnitListProperties
  import AF = AdaptationFields
  import R = Remultiplexing
  import Bytes = ParsedBytes
  import A = ProgramAssociation
  import M = ProgramMap
  import E = PesPackets
  import T = StreamTable
  import opened Scheduler
  import opened ProgramUnits
  import C = TsStreams

  // ---- what a program must look like, and what comes back ----

  predicate GoodPid(pid: int) {
    0 < pid < 0x2000
  }

  predicate GoodStream(p: T.Program, st: T.Elementary) {
    && GoodPid(st.pid) && st.pid != p.programPid
    && forall k :: 0 <= k < |Stamped(st.packets)| ==> !E.Refused(Stamped(st.packets)[k])
  }

  /** The length of the section with the program map table. */
  function TableLength(p: T.Program): nat {
    13 + M.DescriptorSize(p.descriptor) + M.StreamsSize(EntriesFor(p.streams))
  }

  predicate WellFormed(p: T.Program) {
    && GoodPid(p.programPid) && 0 <= p.pcrPid < 0x2000
    && T.DistinctPids(p.streams)
    && (forall i :: 0 <= i < |p.streams| ==> GoodStream(p, p.streams[i]))
    && TableLength(p) <= 1021
  }

  function NormDescriptor(d: M.Descriptor): M.Descriptor {
    if d.tag == 0 then M.NO_DESCRIPTOR else d
  }

  /** The packets that arrive of those sent: the ones that can be read back, in normal form, with their random access
      flag. */
  function Received(q: seq<E.Pes>): seq<E.Pes> {
    if q == [] then [] else ReceivedOne(q[0]) + Received(q[1..])
  }

  function ReceivedOne(pes: E.Pes): seq<E.Pes> {
    if E.ReadsBack(pes) then [E.Norm(pes).(randomAccess := pes.randomAccess)] else []
  }

  function Announced(st: T.Elementary): T.Elementary {
    T.Elementary(st.pid, st.streamType, NormDescriptor(st.descriptor), [])
  }

  function RestoredStream(st: T.Elementary): T.Elementary {
    Announced(st).(packets := Received(Stamped(st.packets)))
  }

  function RestoredStreams(sts: seq<T.Elementary>): (out: seq<T.Elementary>)
    ensures |out| == |sts|
  {
    seq(|sts|, i requires 0 <= i < |sts| => RestoredStream(sts[i]))
  }

  /** What a program comes back as: the program descriptor is never restored, and a program without a clock PID names
      0x1fff. */
  function Restored(p: T.Program): T.Program {
    T.Program(p.programPid, if p.pcrPid != 0 then p.pcrPid else 0x1fff, M.NO_DESCRIPTOR, RestoredStreams(p.streams))
  }

  /** A program with one video packet. */
  const ONE_PACKET := E.EMPTY.(streamId := 0xe0, copyright := 1, ptsFlag := 1, pts := 0x2_0000_0007, data := [1, 2, 3])
  const ONE_STREAM := T.Elementary(256, 27, M.NO_DESCRIPTOR, [ONE_PACKET])
  const ONE_PROGRAM := T.Program(1, 256, M.NO_DESCRIPTOR, [ONE_STREAM])

  lemma OnePacketArrives()
    ensures !E.Refused(ONE_PACKET) && E.ReadsBack(ONE_PACKET)
    ensures Stamped([ONE_PACKET]) == [ONE_PACKET] && Received([ONE_PACKET]) == [ONE_PACKET.(copyright := 0, pts := 7)]
  {
    assert E.HeaderSize(ONE_PACKET) + |ONE_PACKET.data| == 11;
  }

  /** It is well-formed, and comes back without the copyright bit and with its time stamp reduced. */
  lemma OneProgram()
    ensures WellFormed(ONE_PROGRAM)
    ensures Restored(ONE_PROGRAM).streams == [ONE_STREAM.(packets := [ONE_PACKET.(copyright := 0, pts := 7)])]
  {
    hide Stamped, Received, E.Refused;
    OnePacketArrives();
    assert EntriesFor([ONE_STREAM]) == [M.PmtStream(27, 256, M.NO_DESCRIPTOR)];
    assert [M.PmtStream(27, 256, M.NO_DESCRIPTOR)][..0] == [] && M.StreamsSize(EntriesFor([ONE_STREAM])) == 5;
    assert RestoredStreams([ONE_STREAM]) == [RestoredStream(ONE_STREAM)];
  }

  lemma OneSchedule()
    ensures Schedule(ONE_PROGRAM) == [Sent(0, ONE_PACKET)]
  {
    var qs := QueuesOf(ONE_PROGRAM);
    assert qs == [[ONE_PACKET]] && ONE_PACKET.ptsFlag == 1;
    assert Pick(qs, 0) == -1 && Pick(qs, 1) == 0;
    var none: Queues := [[]];
    assert [ONE_PACKET][1..] == [] && qs[0 := qs[0][1..]] == none;
    assert Pick(none, 0) == -1 && Pick(none, 1) == -1 && Order(none) == [];
  }

  lemma TableIsShort(psi: M.S.Psi, data: seq<byte>)
    requires |data| <= 1012
    ensures |M.S.Encode(psi, data, 1)| <= 1300
  {
    hide Be, M.S.LengthWord, M.S.VersionWord;
    assert |M.S.Section(psi, data)| == 8 + |data|;
    hide M.S.Section;
  }

  lemma ThreeUnits(a: UnitValue, b: UnitValue, c: UnitValue)
    ensures |SegmentAll([a, b, c])| <= |a.data| + |b.data| + |c.data|
  {
    hide Segment;
    SegmentIsShort(a, true, a.data);
    SegmentIsShort(b, true, b.data);
    SegmentIsShort(c, true, c.data);
    assert [a, b, c][1..] == [b, c] && [b, c][1..] == [c] && [c][1..] == [];
    assert SegmentAll([c]) == Segment(c, true, c.data) + SegmentAll([]) && SegmentAll([]) == [];
    assert SegmentAll([b, c]) == Segment(b, true, b.data) + SegmentAll([c]);
  }

  lemma OneProgramUnits()
    ensures UnitsOfProgram(ONE_PROGRAM) ==
            [PatUnit(ONE_PROGRAM), PmtUnit(ONE_PROGRAM), UnitFor(ONE_STREAM, ONE_PACKET, true)]
  {
    OneSchedule();
    hide PatUnit, PmtUnit, UnitFor, Schedule;
    assert [Sent(0, ONE_PACKET)][1..] == [] && UnitsFor(ONE_PROGRAM, [], true) == [];
  }

  lemma OnePacketBytes()
    ensures |E.Encode(ONE_PACKET)| == 17
  {
    E.HeaderLength(ONE_PACKET);
    assert E.HeaderSize(ONE_PACKET) == 8;
    hide Be, E.HeaderBytes, E.StartWord, E.Length;
  }

  lemma OneProgramBytes()
    ensures |PatUnit(ONE_PROGRAM).data| + |PmtUnit(ONE_PROGRAM).data| <= 2602
    ensures |UnitFor(ONE_STREAM, ONE_PACKET, true).data| == 17
  {
    hide WellFormed, M.Data, M.S.Encode, A.Word, E.Encode, PmtFor;
    OneProgram();
    TableFits(ONE_PROGRAM);
    OnePacketBytes();
    TableIsShort(M.SECTION, M.Data(PmtFor(ONE_PROGRAM)));
    TableIsShort(A.SECTION, Be(A.Word(A.Pat(0, 1, 0, 1, Pid13(1))), 4));
  }

  /** Its packets can be counted, in bytes. */
  lemma OneProgramIsSmall()
    ensures P.PACKET_SIZE * |SegmentAll(UnitsOfProgram(ONE_PROGRAM))| < 0x1_0000_0000_0000_0000
  {
    hide SegmentAll, UnitsOfProgram, PatUnit, PmtUnit, UnitFor;
    OneProgramUnits();
    OneProgramBytes();
    ThreeUnits(PatUnit(ONE_PROGRAM), PmtUnit(ONE_PROGRAM), UnitFor(ONE_STREAM, ONE_PACKET, true));
  }

  // ---- the normal form ----

  lemma StampReduced(t: int)
    ensures t % E.STAMP_MODULUS % E.STAMP_MODULUS == t % E.STAMP_MODULUS
  {
  }

  lemma NormTwice(pes: E.Pes)
    ensures
      var q := E.Norm(pes).(randomAccess := pes.randomAccess);
      && E.Norm(q).(randomAccess := q.randomAccess) == q && q.ptsFlag == pes.ptsFlag
      && (E.ReadsBack(q) <==> E.ReadsBack(pes))
  {
    StampReduced(pes.pts);
    StampReduced(pes.dts);
  }

  lemma {:induction false} ReceivedTwice(q: seq<E.Pes>)
    requires forall k :: 0 <= k < |q| ==> q[k].ptsFlag == 1
    ensures Received(Received(q)) == Received(q) && Stamped(Received(q)) == Received(q)
    decreases |q|
  {
    hide E.Norm, E.ReadsBack;
    if q != [] {
      NormTwice(q[0]);
      ReceivedTwice(q[1..]);
      var one, more := ReceivedOne(q[0]), Received(q[1..]);
      if one != [] {
        assert (one + more)[0] == one[0] && (one + more)[1..] == more;
      } else {
        assert one + more == more;
      }
    }
  }

  lemma {:induction false} StampedOnly(q: seq<E.Pes>)
    ensures forall k :: 0 <= k < |Stamped(q)| ==> Stamped(q)[k].ptsFlag == 1
  {
    if Ready(q) {
      StampedOnly(q[1..]);
    }
  }

  lemma StreamRestoredTwice(st: T.Elementary)
    ensures RestoredStream(RestoredStream(st)) == RestoredStream(st)
  {
    hide Received, Stamped;
    StampedOnly(st.packets);
    ReceivedTwice(Stamped(st.packets));
  }

  /** What a program comes back as comes back as it is. */
  lemma RestoredTwice(p: T.Program)
    ensures Restored(Restored(p)) == Restored(p)
  {
    hide RestoredStream;
    forall i | 0 <= i < |p.streams|
      ensures RestoredStreams(RestoredStreams(p.streams))[i] == RestoredStreams(p.streams)[i]
    {
      StreamRestoredTwice(p.streams[i]);
    }
    assert RestoredStreams(RestoredStreams(p.streams)) == RestoredStreams(p.streams);
  }

  // ---- the program map table ----

  /** The section of a well-formed program is not too long. */
  lemma TableFits(p: T.Program)
    requires WellFormed(p)
    ensures |M.Data(PmtFor(p))| + 9 <= 1021 && !PmtRefused(p)
  {
    hide M.Data, GoodStream;
    M.RefusedExactly(PmtFor(p));
  }

  function NormEntry(e: M.PmtStream): M.PmtStream {
    e.(descriptor := NormDescriptor(e.descriptor))
  }

  function NormEntries(es: seq<M.PmtStream>): (out: seq<M.PmtStream>)
    ensures |out| == |es|
  {
    seq(|es|, i requires 0 <= i < |es| => NormEntry(es[i]))
  }

  lemma SameBytesWithoutTag(pid: P.Pid, d: M.Descriptor)
    ensures M.Entry(pid, NormDescriptor(d)) == M.Entry(pid, d)
  {
    hide M.PidWord;
    if d.tag == 0 {
      assert M.InfoFields(NormDescriptor(d)) == M.InfoFields(d);
    }
  }

  lemma {:induction false} SameStreamsWithoutTags(es: seq<M.PmtStream>)
    ensures M.StreamsBytes(NormEntries(es)) == M.StreamsBytes(es)
  {
    hide M.Entry;
    if es != [] {
      var init := es[..|es| - 1];
      SameStreamsWithoutTags(init);
      assert NormEntries(es)[..|es| - 1] == NormEntries(init);
      SameBytesWithoutTag(es[|es| - 1].pid, es[|es| - 1].descriptor);
    }
  }

  /** The table of a program reads back with the descriptors that have a tag. */
  lemma PmtReadsBack(p: T.Program)
    requires WellFormed(p)
    ensures !PmtRefused(p)
    ensures M.Decode(Open(M.Encode(PmtFor(p)))) ==
            M.Decoded(Success, M.Pmt(2, 1, 0, if p.pcrPid != 0 then p.pcrPid else 0x1fff, NormDescriptor(p.descriptor),
                                     NormEntries(EntriesFor(p.streams))))
  {
    hide M.Entry, M.StreamsBytes, M.Decode, M.S.Encode, GoodStream;
    var pmt := PmtFor(p);
    var norm := pmt.(descriptor := NormDescriptor(p.descriptor), streams := NormEntries(pmt.streams));
    SameBytesWithoutTag(pmt.pcrPid, p.descriptor);
    SameStreamsWithoutTags(pmt.streams);
    assert M.Data(norm) == M.Data(pmt) && M.Encode(norm) == M.Encode(pmt);
    TableFits(p);
    M.RoundTrip(norm);
  }

  function FromEntry(e: M.PmtStream): T.Elementary {
    T.Elementary(e.pid, e.streamType, e.descriptor, [])
  }

  function FromEntries(es: seq<M.PmtStream>): (out: seq<T.Elementary>)
    ensures |out| == |es|
  {
    seq(|es|, i requires 0 <= i < |es| => FromEntry(es[i]))
  }

  lemma FreshEntry(sts: seq<T.Elementary>, e: M.PmtStream)
    requires M.Normal(e.descriptor) && T.Lookup(sts, e.pid) < 0
    ensures T.MergeEntry(sts, e) == T.Merged(true, sts + [FromEntry(e)])
  {
    T.CreateFinds(sts, e.pid);
    assert (sts + [T.NewStream(e.pid)])[|sts| := FromEntry(e)] == sts + [FromEntry(e)];
  }

  predicate NewPids(sts: seq<T.Elementary>, es: seq<M.PmtStream>) {
    && (forall i, j :: 0 <= i < |sts| && 0 <= j < |es| ==> sts[i].pid != es[j].pid)
    && (forall i, j :: 0 <= i < j < |es| ==> es[i].pid != es[j].pid)
  }

  /** Entries for new PIDs become streams, one for one and in order. */
  lemma {:induction false} FreshEntries(sts: seq<T.Elementary>, es: seq<M.PmtStream>)
    requires M.NormalStreams(es) && NewPids(sts, es)
    ensures T.MergeEntries(sts, es) == T.Merged(true, sts + FromEntries(es))
    decreases |es|
  {
    hide T.MergeEntry, FromEntry;
    if es == [] {
      assert sts + FromEntries(es) == sts;
    } else {
      var i := T.Lookup(sts, es[0].pid);
      FreshEntry(sts, es[0]);
      FromEntryPid(es[0]);
      FreshEntries(sts + [FromEntry(es[0])], es[1..]);
      assert sts + [FromEntry(es[0])] + FromEntries(es[1..]) == sts + FromEntries(es);
    }
  }

  lemma FromEntryPid(e: M.PmtStream)
    ensures FromEntry(e).pid == e.pid
  {
  }

  function AnnouncedAll(sts: seq<T.Elementary>): (out: seq<T.Elementary>)
    ensures |out| == |sts|
  {
    seq(|sts|, i requires 0 <= i < |sts| => Announced(sts[i]))
  }

  lemma ProgramAnnounced(p: T.Program)
    requires WellFormed(p)
    ensures T.MergeEntries([], NormEntries(EntriesFor(p.streams))) == T.Merged(true, AnnouncedAll(p.streams))
  {
    hide T.MergeEntries, M.Data;
    var es := NormEntries(EntriesFor(p.streams));
    assert forall i :: 0 <= i < |es| ==> es[i].pid == p.streams[i].pid;
    FreshEntries([], es);
    assert [] + FromEntries(es) == AnnouncedAll(p.streams);
  }

  // ---- units ----

  predicate NoUnit(us: seq<UnitValue>, pid: int) {
    forall i :: 0 <= i < |us| ==> us[i].pid != pid
  }

  lemma {:induction false} NothingForPat(p: T.Program, us: seq<UnitValue>)
    requires NoUnit(us, 0)
    ensures UnpackPat(p, us) == T.Folded(true, p)
    decreases |us|
  {
    if us != [] {
      NothingForPat(p, us[1..]);
    }
  }

  lemma {:induction false} NothingForPmt(p: T.Program, us: seq<UnitValue>)
    requires NoUnit(us, p.programPid)
    ensures UnpackPmts(p, us) == T.Folded(true, p)
    decreases |us|
  {
    if us != [] {
      NothingForPmt(p, us[1..]);
    }
  }

  lemma {:induction false} PesInJoin(a: seq<UnitValue>, b: seq<UnitValue>, pid: int)
    ensures PesIn(a + b, pid) == PesIn(a, pid) + PesIn(b, pid)
    decreases |b|
  {
    hide PesOf;
    if b == [] {
      assert a + b == a;
    } else {
      assert (a + b)[..|a + b| - 1] == a + b[..|b| - 1];
      PesInJoin(a, b[..|b| - 1], pid);
    }
  }

  lemma PesInOne(u: UnitValue, pid: int)
    ensures PesIn([u], pid) == PesOf(u, pid)
  {
    hide PesOf;
    assert [u][..0] == [];
  }

  predicate GoodSent(p: T.Program, sent: seq<Sent>) {
    forall a :: 0 <= a < |sent| ==>
                  sent[a].stream < |p.streams| && GoodPid(p.streams[sent[a].stream].pid) && !E.Refused(sent[a].pes)
  }

  lemma UnitReadsBack(st: T.Elementary, pes: E.Pes, clock: bool, pid: int)
    requires !E.Refused(pes) && GoodPid(st.pid)
    ensures PesOf(UnitFor(st, pes, clock), pid) == if st.pid == pid then ReceivedOne(pes) else []
  {
    hide E.Encode, E.Decode, E.Norm, E.Refused;
    E.RoundTrip(pes);
    E.DecodeStatus(Open(E.Encode(pes)));
  }

  /** The units sent for a stream carry its packets, and no other unit does. */
  lemma {:induction false} UnitsReadBack(p: T.Program, sent: seq<Sent>, recorded: bool, i: nat)
    requires GoodSent(p, sent) && InRange(sent, |p.streams|) && i < |p.streams| && T.DistinctPids(p.streams)
    ensures PesIn(UnitsFor(p, sent, recorded), p.streams[i].pid) == Received(SentFor(sent, i))
    decreases |sent|
  {
    hide UnitFor, ReceivedOne, PesOf, E.Refused;
    if sent != [] {
      var k, pid := sent[0].stream, p.streams[i].pid;
      var st := p.streams[k];
      var clock := p.pcrPid == st.pid && !recorded;
      var u, more := UnitFor(st, sent[0].pes, clock), UnitsFor(p, sent[1..], recorded || clock);
      UnitReadsBack(st, sent[0].pes, clock, pid);
      PesInOne(u, pid);
      PesInJoin([u], more, pid);
      UnitsReadBack(p, sent[1..], recorded || clock, i);
      assert st.pid == pid <==> k == i;
      var rest := SentFor(sent[1..], i);
      if k == i {
        assert SentFor(sent, i)[1..] == rest;
      } else {
        assert SentFor(sent, i) == rest && [] + Received(rest) == Received(rest);
      }
    }
  }

  lemma {:induction false} UnitPids(p: T.Program, sent: seq<Sent>, recorded: bool, pid: int)
    requires InRange(sent, |p.streams|)
    requires forall i :: 0 <= i < |p.streams| ==> GoodPid(p.streams[i].pid) && p.streams[i].pid != pid
    ensures NoUnit(UnitsFor(p, sent, recorded), pid)
    decreases |sent|
  {
    hide E.Encode;
    if sent != [] {
      var clock := p.pcrPid == p.streams[sent[0].stream].pid && !recorded;
      UnitPids(p, sent[1..], recorded || clock, pid);
    }
  }

  lemma ScheduleIsGood(p: T.Program)
    requires WellFormed(p)
    ensures GoodSent(p, Schedule(p)) && !AnyRefused(Schedule(p))
  {
    hide Order, E.Refused, M.Data;
    StreamsInRange(QueuesOf(p));
    var sent := Schedule(p);
    forall a | 0 <= a < |sent|
      ensures sent[a].stream < |p.streams| && GoodPid(p.streams[sent[a].stream].pid) && !E.Refused(sent[a].pes)
    {
      var st := p.streams[sent[a].stream];
      assert GoodStream(p, st);
      assert sent[a].pes in Stamped(st.packets);
    }
  }

  /** Exactly which programs can be packed. The int that measures the table wraps at 2 GB. */
  lemma PacksExactly(p: T.Program)
    ensures Packs(p) <==>
            && p.programPid != 0
            && !(1021 < TableLength(p) % 0x1_0000_0000 < 0x8000_0000)
            && forall i, k :: 0 <= i < |p.streams| && 0 <= k < |Stamped(p.streams[i].packets)| ==>
                                !E.Refused(Stamped(p.streams[i].packets)[k])
  {
    hide M.Data, Schedule, Stamped, E.Refused, AnyRefused;
    M.RefusedExactly(PmtFor(p));
    RefusesExactly(p);
  }

  // ---- one program through its units ----

  lemma PatThrough(p: T.Program)
    requires WellFormed(p)
    ensures UnpackPat(T.EMPTY, UnitsOfProgram(p)) == T.Folded(true, T.EMPTY.(programPid := p.programPid))
  {
    hide A.Decode, A.Encode, M.Encode, UnitsFor, M.Data;
    var us, rest := UnitsOfProgram(p), [PmtUnit(p)] + UnitsFor(p, Schedule(p), false);
    assert us[0] == PatUnit(p) && us[1..] == rest;
    A.RoundTrip(A.Pat(0, 1, 0, 1, p.programPid));
    GoodPids(p);
    UnitPids(p, Schedule(p), false, 0);
    NothingForPat(T.EMPTY.(programPid := p.programPid), rest);
  }

  lemma GoodPids(p: T.Program)
    requires WellFormed(p)
    ensures forall i :: 0 <= i < |p.streams| ==>
                          GoodPid(p.streams[i].pid) && p.streams[i].pid != 0 && p.streams[i].pid != p.programPid
  {
    hide M.Data, E.Refused;
    forall i | 0 <= i < |p.streams|
      ensures GoodPid(p.streams[i].pid) && p.streams[i].pid != 0 && p.streams[i].pid != p.programPid
    {
      assert GoodStream(p, p.streams[i]);
    }
  }

  lemma PmtThrough(p: T.Program)
    requires WellFormed(p)
    ensures
      var q := T.EMPTY.(programPid := p.programPid);
      UnpackPmt(q, UnitsOfProgram(p)) ==
      T.Folded(true, T.Program(p.programPid, if p.pcrPid != 0 then p.pcrPid else 0x1fff, M.NO_DESCRIPTOR,
                               AnnouncedAll(p.streams)))
  {
    hide A.Encode, M.Encode, M.Decode, UnitsFor, M.Data, T.MergeEntries, WellFormed;
    WellFormedPids(p);
    var us, tail := UnitsOfProgram(p), UnitsFor(p, Schedule(p), false);
    var q := T.EMPTY.(programPid := p.programPid);
    assert us[0] == PatUnit(p) && us[1..] == [PmtUnit(p)] + tail && us[1..][1..] == tail;
    PmtReadsBack(p);
    ProgramAnnounced(p);
    var done := T.Program(p.programPid, if p.pcrPid != 0 then p.pcrPid else 0x1fff, M.NO_DESCRIPTOR,
                          AnnouncedAll(p.streams));
    assert UnpackPmts(q, us) == UnpackPmts(q, us[1..]);
    assert UnpackPmts(q, us[1..]) == UnpackPmts(done, tail);
    GoodPids(p);
    UnitPids(p, Schedule(p), false, p.programPid);
    NothingForPmt(done, tail);
  }

  lemma WellFormedPids(p: T.Program)
    requires WellFormed(p)
    ensures GoodPid(p.programPid) && 0 <= p.pcrPid < 0x2000 && T.DistinctPids(p.streams)
  {
  }

  lemma PesThrough(p: T.Program, i: nat)
    requires WellFormed(p) && i < |p.streams|
    ensures PesIn(UnitsOfProgram(p), p.streams[i].pid) == Received(Stamped(p.streams[i].packets))
  {
    hide A.Encode, M.Encode, UnitsFor, WellFormed, Order, Received, PesOf, Stamped, SentFor;
    WellFormedPids(p);
    GoodPids(p);
    var pid, tail := p.streams[i].pid, UnitsFor(p, Schedule(p), false);
    var a, b := PatUnit(p), PmtUnit(p);
    assert UnitsOfProgram(p) == [a] + ([b] + tail);
    PesInJoin([a], [b] + tail, pid);
    PesInJoin([b], tail, pid);
    PesInOne(a, pid);
    PesInOne(b, pid);
    NotForPid(a, pid);
    NotForPid(b, pid);
    ScheduleIsGood(p);
    UnitsReadBack(p, Schedule(p), false, i);
    SendsStampedPrefixes(QueuesOf(p), i);
  }

  lemma NotForPid(u: UnitValue, pid: int)
    requires u.pid != pid
    ensures PesOf(u, pid) == []
  {
  }

  lemma StreamThrough(p: T.Program, i: nat)
    requires WellFormed(p) && i < |p.streams|
    ensures WithPes(Announced(p.streams[i]), UnitsOfProgram(p)) == RestoredStream(p.streams[i])
  {
    hide WellFormed, UnitsOfProgram, PesIn, Received, NormDescriptor;
    PesThrough(p, i);
    var found := PesIn(UnitsOfProgram(p), p.streams[i].pid);
    assert [] + found == found;
  }

  lemma StreamsThrough(p: T.Program)
    requires WellFormed(p)
    ensures AllWithPes(AnnouncedAll(p.streams), UnitsOfProgram(p)) == RestoredStreams(p.streams)
  {
    hide WellFormed, UnitsOfProgram, WithPes, RestoredStream, Announced;
    var sts, us := AnnouncedAll(p.streams), UnitsOfProgram(p);
    forall i | 0 <= i < |sts|
      ensures AllWithPes(sts, us)[i] == RestoredStreams(p.streams)[i]
    {
      StreamThrough(p, i);
    }
  }

  /** A well-formed program packs, and its units unpack to the restored program. */
  lemma UnitsRoundTrip(p: T.Program)
    requires WellFormed(p)
    ensures Packs(p) && Unpack(T.EMPTY, UnitsOfProgram(p)) == T.Folded(true, Restored(p))
  {
    hide UnitsOfProgram, UnpackPat, UnpackPmt, AnyRefused, PmtRefused, AllWithPes, AnnouncedAll, RestoredStreams,
      Schedule, GoodStream, M.Data;
    ScheduleIsGood(p);
    PmtReadsBack(p);
    PatThrough(p);
    PmtThrough(p);
    StreamsThrough(p);
  }

  // ---- units that were interleaved and whose clocks were reduced ----

  /** The same units for every PID, in the same order, with reduced clocks. */
  predicate SamePerPid(us: seq<UnitValue>, vs: seq<UnitValue>) {
    forall pid: P.Pid :: UnitsOf(us, pid) == ReduceAll(UnitsOf(vs, pid))
  }

  lemma {:induction false} PatPerPid(p: T.Program, us: seq<UnitValue>)
    ensures UnpackPat(p, us) == UnpackPat(p, UnitsOf(us, 0))
    decreases |us|
  {
    hide A.Decode;
    if us != [] {
      var rest := UnitsOf(us[1..], 0);
      if us[0].pid == 0 {
        assert UnitsOf(us, 0)[1..] == rest;
        var d := A.Decode(Open(us[0].data));
        PatPerPid(if p.programPid == 0 then p.(programPid := d.pat.programPid) else p, us[1..]);
      } else {
        assert UnitsOf(us, 0) == rest;
        PatPerPid(p, us[1..]);
      }
    }
  }

  lemma {:induction false} PmtPerPid(p: T.Program, us: seq<UnitValue>)
    requires 0 <= p.programPid < 0x2000
    ensures UnpackPmts(p, us) == UnpackPmts(p, UnitsOf(us, p.programPid))
    decreases |us|
  {
    hide M.Decode, T.MergeEntries;
    if us != [] {
      var rest := UnitsOf(us[1..], p.programPid);
      if us[0].pid == p.programPid {
        assert UnitsOf(us, p.programPid)[1..] == rest;
        PmtPerPid(T.MergePmt(p, M.Decode(Open(us[0].data)).pmt).program, us[1..]);
      } else {
        assert UnitsOf(us, p.programPid) == rest;
        PmtPerPid(p, us[1..]);
      }
    }
  }

  lemma {:induction false} PesPerPid(us: seq<UnitValue>, pid: P.Pid)
    ensures PesIn(us, pid) == PesIn(UnitsOf(us, pid), pid)
    decreases |us|
  {
    hide PesOf;
    if us != [] {
      var u, rest := us[0], us[1..];
      assert us == [u] + rest;
      PesInJoin([u], rest, pid);
      PesInOne(u, pid);
      PesPerPid(rest, pid);
      if u.pid == pid {
        PesInJoin([u], UnitsOf(rest, pid), pid);
      } else {
        NotForPid(u, pid);
        assert UnitsOf(us, pid) == UnitsOf(rest, pid) && [] + PesIn(rest, pid) == PesIn(rest, pid);
      }
    }
  }

  lemma {:induction false} PatIgnoresClocks(p: T.Program, us: seq<UnitValue>)
    ensures UnpackPat(p, ReduceAll(us)) == UnpackPat(p, us)
    decreases |us|
  {
    hide A.Decode;
    if us != [] {
      ReduceFirst(us);
      PatIgnoresClocks(p, us[1..]);
      PatIgnoresClocks(p.(programPid := A.Decode(Open(us[0].data)).pat.programPid), us[1..]);
    }
  }

  lemma {:induction false} PmtsIgnoreClocks(p: T.Program, us: seq<UnitValue>)
    ensures UnpackPmts(p, ReduceAll(us)) == UnpackPmts(p, us)
    decreases |us|
  {
    hide M.Decode, T.MergePmt;
    if us != [] {
      ReduceFirst(us);
      PmtsIgnoreClocks(p, us[1..]);
      PmtsIgnoreClocks(T.MergePmt(p, M.Decode(Open(us[0].data)).pmt).program, us[1..]);
    }
  }

  lemma {:induction false} PesIgnoresClocks(us: seq<UnitValue>, pid: int)
    ensures PesIn(ReduceAll(us), pid) == PesIn(us, pid)
    decreases |us|
  {
    hide E.Decode;
    if us != [] {
      ReduceLast(us);
      PesIgnoresClocks(us[..|us| - 1], pid);
    }
  }

  lemma ReduceFirst(us: seq<UnitValue>)
    requires us != []
    ensures ReduceAll(us)[1..] == ReduceAll(us[1..])
    ensures ReduceAll(us)[0].pid == us[0].pid && ReduceAll(us)[0].data == us[0].data
  {
  }

  lemma ReduceLast(us: seq<UnitValue>)
    requires us != []
    ensures
      var n := |us| - 1;
      && ReduceAll(us)[..n] == ReduceAll(us[..n])
      && ReduceAll(us)[n].pid == us[n].pid && ReduceAll(us)[n].data == us[n].data
  {
  }

  /** Every stream has a PID of thirteen bits. */
  predicate PidsInRange(sts: seq<T.Elementary>) {
    forall i :: 0 <= i < |sts| ==> 0 <= sts[i].pid < 0x2000
  }

  lemma EntryKeepsRange(sts: seq<T.Elementary>, entry: M.PmtStream)
    requires PidsInRange(sts)
    ensures PidsInRange(T.MergeEntry(sts, entry).streams)
  {
    T.CreateFinds(sts, entry.pid);
  }

  lemma {:induction false} EntriesKeepRange(sts: seq<T.Elementary>, entries: seq<M.PmtStream>)
    requires PidsInRange(sts)
    ensures PidsInRange(T.MergeEntries(sts, entries).streams)
    decreases |entries|
  {
    hide T.MergeEntry, PidsInRange;
    if entries != [] {
      EntryKeepsRange(sts, entries[0]);
      EntriesKeepRange(T.MergeEntry(sts, entries[0]).streams, entries[1..]);
    }
  }

  lemma {:induction false} PmtsKeepRange(p: T.Program, us: seq<UnitValue>)
    requires PidsInRange(p.streams)
    ensures PidsInRange(UnpackPmts(p, us).program.streams)
    decreases |us|
  {
    hide M.Decode, T.MergeEntries, PidsInRange;
    if us != [] {
      var pmt := M.Decode(Open(us[0].data)).pmt;
      EntriesKeepRange(p.streams, pmt.streams);
      PmtsKeepRange(p, us[1..]);
      PmtsKeepRange(T.MergePmt(p, pmt).program, us[1..]);
    }
  }

  lemma {:induction false} PatKeepsStreams(p: T.Program, us: seq<UnitValue>)
    ensures UnpackPat(p, us).program.streams == p.streams
    decreases |us|
  {
    hide A.Decode;
    if us != [] {
      PatKeepsStreams(p, us[1..]);
      PatKeepsStreams(p.(programPid := A.Decode(Open(us[0].data)).pat.programPid), us[1..]);
    }
  }

  /** For every PID the same units in the same order, whatever their clocks. */
  predicate AgreePerPid(us: seq<UnitValue>, vs: seq<UnitValue>) {
    forall pid: P.Pid :: ReduceAll(UnitsOf(us, pid)) == ReduceAll(UnitsOf(vs, pid))
  }

  lemma ReducedTwice(us: seq<UnitValue>)
    ensures ReduceAll(ReduceAll(us)) == ReduceAll(us)
  {
  }

  lemma SameAgree(us: seq<UnitValue>, vs: seq<UnitValue>)
    requires SamePerPid(us, vs)
    ensures AgreePerPid(us, vs)
  {
    hide ReduceAll;
    forall pid: P.Pid
      ensures ReduceAll(UnitsOf(us, pid)) == ReduceAll(UnitsOf(vs, pid))
    {
      ReducedTwice(UnitsOf(vs, pid));
    }
  }

  /** Unpacking into a program looks at each PID by itself, and never at a clock, whether it succeeds or not. */
  lemma UnpackPerPid(p: T.Program, us: seq<UnitValue>, vs: seq<UnitValue>)
    requires AgreePerPid(us, vs) && 0 <= p.programPid < 0x2000 && PidsInRange(p.streams)
    ensures Unpack(p, us) == Unpack(p, vs)
  {
    hide UnpackPat, UnpackPmts, PesIn, UnitsOf, ReduceAll;
    PatPerPid(p, us);
    PatPerPid(p, vs);
    PatIgnoresClocks(p, UnitsOf(us, 0));
    PatIgnoresClocks(p, UnitsOf(vs, 0));
    PatPidInRange(p, vs);
    PatKeepsStreams(p, vs);
    var q := UnpackPat(p, vs).program;
    PmtPerPid(q, us);
    PmtPerPid(q, vs);
    PmtsIgnoreClocks(q, UnitsOf(us, q.programPid));
    PmtsIgnoreClocks(q, UnitsOf(vs, q.programPid));
    PmtsKeepRange(q, vs);
    var sts := UnpackPmt(q, vs).program.streams;
    forall i | 0 <= i < |sts|
      ensures AllWithPes(sts, us)[i] == AllWithPes(sts, vs)[i]
    {
      PesPerPid(us, sts[i].pid);
      PesPerPid(vs, sts[i].pid);
      PesIgnoresClocks(UnitsOf(us, sts[i].pid), sts[i].pid);
      PesIgnoresClocks(UnitsOf(vs, sts[i].pid), sts[i].pid);
    }
    assert AllWithPes(sts, us) == AllWithPes(sts, vs);
  }

  /** What loading a stream into a program gives: an error that leaves the program alone when the stream does not parse,
      and otherwise what its units unpack to. */
  function Loaded(p: T.Program, r: Input): T.Folded {
    var parsed := PL.DecodeAll(r);
    if parsed.rest.Failed? then T.Folded(false, p) else Unpack(p, Assemble(parsed.packets))
  }

  /** Loading looks at each PID by itself: two streams that both parse or both do not, and whose packets are the same
      for every PID, in the same order, give the same program, or the same error. */
  lemma LoadPerPid(p: T.Program, a: Input, b: Input)
    requires 0 <= p.programPid < 0x2000 && PidsInRange(p.streams)
    requires PL.DecodeAll(a).rest.Failed? <==> PL.DecodeAll(b).rest.Failed?
    requires forall pid: P.Pid :: PacketsOf(PL.DecodeAll(a).packets, pid) == PacketsOf(PL.DecodeAll(b).packets, pid)
    ensures Loaded(p, a) == Loaded(p, b)
  {
    hide PL.DecodeAll, Assemble, PacketsOf, UnitsOf, Unpack;
    var ps, qs := PL.DecodeAll(a).packets, PL.DecodeAll(b).packets;
    forall pid: P.Pid
      ensures UnitsOf(Assemble(ps), pid) == UnitsOf(Assemble(qs), pid)
    {
      InterleavingIsFree(ps, qs, pid);
    }
    UnpackPerPid(p, Assemble(ps), Assemble(qs));
  }

  lemma {:induction false} PatPidInRange(p: T.Program, us: seq<UnitValue>)
    requires 0 <= p.programPid < 0x2000
    ensures 0 <= UnpackPat(p, us).program.programPid < 0x2000
    decreases |us|
  {
    hide A.Decode;
    if us != [] {
      var d := A.Decode(Open(us[0].data));
      PatPidInRange(p, us[1..]);
      PatPidInRange(p.(programPid := d.pat.programPid), us[1..]);
    }
  }

  // ---- through packets and bytes ----

  /** Packets that keep the order of every PID, in any interleaving. */
  predicate Interleaves(ps: seq<P.Packet>, us: seq<UnitValue>) {
    forall pid: P.Pid :: PacketsOf(ps, pid) == PacketsOf(SegmentAll(us), pid)
  }

  lemma {:induction false} InPacketsOf(ps: seq<P.Packet>, p: P.Packet)
    ensures p in ps <==> p in PacketsOf(ps, p.pid)
  {
    if ps != [] {
      InPacketsOf(ps[1..], p);
      assert ps == [ps[0]] + ps[1..];
    }
  }

  lemma PacketSurvives(us: seq<UnitValue>, ps: seq<P.Packet>, i: nat, c: P.nibble)
    requires Interleaves(ps, us) && i < |ps|
    ensures P.Fits(ps[i].(counter := c)) && Alike(ps[i], P.Norm(ps[i].(counter := c)))
  {
    hide P.Fits, P.Norm, PacketsOf, SegmentAll;
    var p := ps[i];
    InPacketsOf(ps, p);
    InPacketsOf(SegmentAll(us), p);
    var k :| 0 <= k < |SegmentAll(us)| && SegmentAll(us)[k] == p;
    SegmentAllSurvive(us, k, c);
  }

  lemma {:induction false} UnitsOfReduced(us: seq<UnitValue>, pid: P.Pid)
    ensures UnitsOf(ReduceAll(us), pid) == ReduceAll(UnitsOf(us, pid))
  {
    if us != [] {
      UnitsOfReduced(us[1..], pid);
      assert ReduceAll(us)[1..] == ReduceAll(us[1..]) && ReduceAll(us)[0] == Reduced(us[0]);
      var more := UnitsOf(us[1..], pid);
      assert ReduceAll([us[0]] + more) == [Reduced(us[0])] + ReduceAll(more);
      assert [] + more == more && [] + ReduceAll(more) == ReduceAll(more);
    }
  }

  /** Units that are segmented, interleaved, numbered from any counter table, packed to bytes, unpacked and reassembled
      are the same units for every PID. */
  lemma ThroughInterleavedBytes(us: seq<UnitValue>, ps: seq<P.Packet>, cs: seq<PL.Counter>)
    requires Interleaves(ps, us) && P.PACKET_SIZE * |ps| < 0x1_0000_0000_0000_0000
    ensures
      var parsed := PL.DecodeAll(Open(PL.EncodeAll(PL.NumberedAll(cs, ps))));
      parsed.rest == Open([]) && SamePerPid(Assemble(parsed.packets), Kept(us))
  {
    hide P.Fits, P.Norm, PacketsOf, PL.DecodeAll, PL.EncodeAll, UnitsOf, Assemble;
    var qs := PL.NumberedAll(cs, ps);
    forall i | 0 <= i < |ps|
      ensures P.Fits(qs[i]) && Alike(ps[i], P.Norm(qs[i]))
    {
      PacketSurvives(us, ps, i, qs[i].counter);
    }
    PP.ListRoundTrip(qs);
    AssembleAlike(ps, PP.NormAll(qs));
    forall pid: P.Pid
      ensures UnitsOf(Assemble(PP.NormAll(qs)), pid) == ReduceAll(UnitsOf(Kept(us), pid))
    {
      UnitsOfReduced(Assemble(ps), pid);
      SegmentInterleaveAssemble(us, ps, pid);
    }
  }

  predicate CleanUnits(us: seq<UnitValue>) {
    forall i :: 0 <= i < |us| ==> us[i].data != [] && Clean(us[i]) == us[i]
  }

  lemma {:induction false} KeepsClean(us: seq<UnitValue>)
    requires CleanUnits(us)
    ensures Kept(us) == us
  {
    if us != [] {
      KeepsClean(us[1..]);
      assert us == [us[0]] + us[1..];
    }
  }

  lemma {:induction false} ScheduledAreClean(p: T.Program, sent: seq<Sent>, recorded: bool)
    requires InRange(sent, |p.streams|)
    ensures CleanUnits(UnitsFor(p, sent, recorded))
    decreases |sent|
  {
    hide E.Body, E.StartWord, E.Length;
    if sent != [] {
      ScheduledAreClean(p, sent[1..], recorded || (p.pcrPid == p.streams[sent[0].stream].pid && !recorded));
    }
  }

  lemma ProgramUnitsAreClean(p: T.Program)
    ensures Kept(UnitsOfProgram(p)) == UnitsOfProgram(p)
  {
    hide UnitsFor, A.S.Encode, M.S.Encode, Kept;
    ScheduledAreClean(p, Schedule(p), false);
    assert CleanUnits([PatUnit(p), PmtUnit(p)]);
    KeepsClean(UnitsOfProgram(p));
  }

  /** A well-formed program packed to units, cut into packets, interleaved in any way that keeps the order of each PID,
      numbered, packed to bytes and unpacked all the way into an empty program is the restored program: the same program
      and clock PIDs, and in order the same streams with their PIDs, types and descriptors, and for each of them its
      longest stamped prefix of packets with data, time stamps and random access flags. */
  lemma EndToEnd(p: T.Program, ps: seq<P.Packet>, cs: seq<PL.Counter>)
    requires WellFormed(p) && Interleaves(ps, UnitsOfProgram(p)) && P.PACKET_SIZE * |ps| < 0x1_0000_0000_0000_0000
    ensures Packs(p)
    ensures
      var parsed := PL.DecodeAll(Open(PL.EncodeAll(PL.NumberedAll(cs, ps))));
      parsed.rest == Open([]) && Unpack(T.EMPTY, Assemble(parsed.packets)) == T.Folded(true, Restored(p))
  {
    hide WellFormed, Interleaves, UnitsOfProgram, Unpack, Packs, Restored, SamePerPid, AgreePerPid, PL.DecodeAll,
      PL.EncodeAll, Assemble;
    UnitsRoundTrip(p);
    ProgramUnitsAreClean(p);
    ThroughInterleavedBytes(UnitsOfProgram(p), ps, cs);
    var us := Assemble(PL.DecodeAll(Open(PL.EncodeAll(PL.NumberedAll(cs, ps)))).packets);
    SameAgree(us, UnitsOfProgram(p));
    UnpackPerPid(T.EMPTY, us, UnitsOfProgram(p));
  }

  /** The packets as the packer writes them, unit after unit. */
  lemma InOrderInterleaves(us: seq<UnitValue>)
    ensures Interleaves(SegmentAll(us), us)
  {
  }

  /** The bytes a program is saved as. */
  function SavedBytes(p: T.Program): seq<byte> {
    PL.EncodeAll(PL.NumberedAll([], SegmentAll(UnitsOfProgram(p))))
  }

  /** ts_stream_save without the file. */
  method Save(source: C.TsStream) returns (n: Status, bytes: seq<byte>)
    ensures n == if Packs(source.Value()) then Success else Error
    ensures n == Success ==> bytes == SavedBytes(source.Value())
  {
    hide UnitsOfProgram, Packs, PL.EncodeAll, SegmentAll;
    var units := new Units();
    n := source.Pack(units);
    if n == Error {
      return n, [];
    }
    assert units.list[0..] == units.list;
    var packets := new PL.Packets();
    var unitCount := units.Pack(packets);
    assert [] + SegmentAll(UnitsOfProgram(source.Value())) == SegmentAll(UnitsOfProgram(source.Value()));
    bytes := PL.PackToBytes(packets);
  }

  /** ts_stream_load without the file. hasData says whether the buffer it is read into holds memory, which it may not if
      the file is empty. */
  method Load(stream: C.TsStream, bytes: seq<byte>, hasData: bool) returns (n: Status)
    requires bytes != [] ==> hasData
    modifies stream
    ensures
      var f := Loaded(old(stream.Value()), if hasData then Open(bytes) else Failed);
      stream.Value() == f.program && n == if f.ok then Success else Error
  {
    hide Unpack, PL.DecodeAll, Assemble;
    var input := new Bytestream.OfBuffer(bytes, hasData);
    ghost var parsed := PL.DecodeAll(input.In());
    var packets := new PL.Packets();
    var count := packets.Unpack(input);
    if count == -1 {
      return Error;
    }
    assert [] + parsed.packets == parsed.packets;
    var units := new Units();
    var assembled := units.Unpack(packets);
    assert units.list[0..] == units.list;
    n := stream.Unpack(units);
  }

  lemma SavedLoads(p: T.Program)
    requires WellFormed(p) && P.PACKET_SIZE * |SegmentAll(UnitsOfProgram(p))| < 0x1_0000_0000_0000_0000
    ensures Packs(p) && Loaded(T.EMPTY, Open(SavedBytes(p))) == T.Folded(true, Restored(p))
  {
    hide WellFormed, UnitsOfProgram, Unpack, Packs, Restored, PL.DecodeAll, PL.EncodeAll, Assemble, SegmentAll;
    InOrderInterleaves(UnitsOfProgram(p));
    EndToEnd(p, SegmentAll(UnitsOfProgram(p)), []);
  }

  /** Saving a well-formed program and loading what was saved gives the restored program. */
  method SaveAndLoad(source: C.TsStream) returns (n: Status, copy: C.TsStream)
    requires WellFormed(source.Value())
    requires P.PACKET_SIZE * |SegmentAll(UnitsOfProgram(source.Value()))| < 0x1_0000_0000_0000_0000
    ensures n == Success && copy.Value() == Restored(source.Value())
  {
    hide WellFormed, UnitsOfProgram, Loaded, Packs, Restored, SavedBytes, SegmentAll;
    SavedLoads(source.Value());
    var bytes;
    n, bytes := Save(source);
    copy := new C.TsStream();
    n := Load(copy, bytes, true);
  }

  // ---- loading fails as a whole ----

  /** A packet whose adaptation field is a byte longer than the packet. */
  predicate FieldTooLong(bad: seq<byte>) {
    |bad| == P.PACKET_SIZE && bad[3] == 0x30 && bad[4] == 184 && bad[5] == 0
  }

  lemma NoFlags()
    ensures AF.FromFlags(0) == AF.EMPTY
  {
    Pow2Values();
  }

  lemma LongFieldFails(f: seq<byte>)
    requires |f| == 184 && f[0] == 184 && f[1] == 0
    ensures AF.Decode(Open(f)).status == Error && AF.Decode(Open(f)).rest == Failed
  {
    NoFlags();
    hide AF.FromFlags, FromBe;
    FromBeOne(f[..1]);
    FromBeOne(f[1..][..1]);
    assert f[1..][..1] == [f[1]];
    Difference(183, 182);
    Difference(184, 1);
  }

  lemma BadControl(b: seq<byte>)
    requires |b| == 4 && b[3] == 0x30
    ensures P.FromHeader(FromBe(b)).control == 3
  {
    hide P.FromHeader, FromBe;
    R.HeaderNumber(b);
    R.HeaderFields(FromBe(b));
  }

  lemma BadHeader(bad: seq<byte>)
    requires FieldTooLong(bad)
    ensures P.FromHeader(Open(bad).Number(4)).control == 3 && Open(bad).Drop(4) == Open(bad[4..])
  {
    hide P.FromHeader, FromBe;
    BadControl(bad[..4]);
  }

  lemma BadPacketFails(bad: seq<byte>)
    requires FieldTooLong(bad)
    ensures PL.DecodeAll(Open(bad)) == PL.Parsed([], Failed)
  {
    hide P.FromHeader, P.TakePayload, FromBe, AF.Decode;
    BadHeader(bad);
    LongFieldFails(bad[4..]);
  }

  lemma SavedFits(us: seq<UnitValue>)
    ensures PP.Packable(PL.NumberedAll([], SegmentAll(us)))
  {
    hide P.Fits, P.Norm, SegmentAll;
    var qs := PL.NumberedAll([], SegmentAll(us));
    forall i | 0 <= i < |qs|
      ensures P.Fits(qs[i])
    {
      SegmentAllSurvive(us, i, qs[i].counter);
    }
  }

  lemma NothingBehind<X>(ps: seq<X>)
    ensures ps + [] == ps
  {
  }

  /** What is behind a saved program is decoded as by itself. */
  lemma SavedWithTail(p: T.Program, tail: seq<byte>)
    requires P.PACKET_SIZE * |SegmentAll(UnitsOfProgram(p))| + |tail| < 0x1_0000_0000_0000_0000
    ensures
      var saved, behind := PL.DecodeAll(Open(SavedBytes(p))), PL.DecodeAll(Open(tail));
      saved.rest == Open([]) &&
      PL.DecodeAll(Open(SavedBytes(p) + tail)) == PL.Parsed(saved.packets + behind.packets, behind.rest)
  {
    hide UnitsOfProgram, PL.EncodeAll, PL.DecodeAll, SegmentAll, PP.NormAll, PP.Packable, PL.Numbered;
    var qs := PL.NumberedAll([], SegmentAll(UnitsOfProgram(p)));
    SavedFits(UnitsOfProgram(p));
    PP.ListReadsBack(qs, tail);
    PP.ListRoundTrip(qs);
  }

  lemma SavedWithBad(p: T.Program, bad: seq<byte>)
    requires FieldTooLong(bad) && P.PACKET_SIZE * (|SegmentAll(UnitsOfProgram(p))| + 1) < 0x1_0000_0000_0000_0000
    ensures
      var parsed := PL.DecodeAll(Open(SavedBytes(p)));
      parsed.rest == Open([]) && PL.DecodeAll(Open(SavedBytes(p) + bad)) == PL.Parsed(parsed.packets, Failed)
  {
    assert |bad| == P.PACKET_SIZE;
    hide UnitsOfProgram, SavedBytes, FieldTooLong, PL.DecodeAll, SegmentAll;
    BadPacketFails(bad);
    SavedWithTail(p, bad);
    NothingBehind(PL.DecodeAll(Open(SavedBytes(p))).packets);
  }

  /** A bad packet behind a saved program adds nothing to the packets that are found, but makes loading fail. */
  lemma LoadsApart(p: T.Program, bad: seq<byte>)
    requires WellFormed(p) && FieldTooLong(bad)
    requires P.PACKET_SIZE * (|SegmentAll(UnitsOfProgram(p))| + 1) < 0x1_0000_0000_0000_0000
    ensures PL.DecodeAll(Open(SavedBytes(p) + bad)).packets == PL.DecodeAll(Open(SavedBytes(p))).packets
    ensures Loaded(T.EMPTY, Open(SavedBytes(p))) == T.Folded(true, Restored(p))
    ensures Loaded(T.EMPTY, Open(SavedBytes(p) + bad)) == T.Folded(false, T.EMPTY)
  {
    hide WellFormed, UnitsOfProgram, Unpack, Restored, SavedBytes, Assemble, FieldTooLong, PL.DecodeAll, SegmentAll;
    SavedLoads(p);
    SavedWithBad(p, bad);
  }

  // ---- and not for less ----

  /** A packet whose private data is too long for the stream. */
  predicate PrivateTooLong(bad: seq<byte>) {
    |bad| == P.PACKET_SIZE && bad[3] == 0x30 && bad[4] != 0 && bad[5] == 2 && bad[6] > 181
  }

  lemma PrivateFlags()
    ensures Bytes.FieldFlags(2) == AF.EMPTY.(privateFlag := 1)
  {
  }

  lemma PrivateFieldStays(f: seq<byte>)
    requires |f| == 184 && f[0] != 0 && f[1] == 2 && f[2] > 181
    ensures AF.Decode(Open(f)).status == Error && AF.Decode(Open(f)).rest == Open(f[3..])
  {
    PrivateFlags();
    hide AF.Decode, Bytes.FieldFlags, Bytes.FieldFrom;
    Bytes.FieldParsed(f);
  }

  lemma PrivateControl(bad: seq<byte>)
    requires |bad| == P.PACKET_SIZE && bad[3] == 0x30
    ensures Bytes.PacketHeader(bad).control == 3
  {
  }

  lemma PrivateTooLongStays(bad: seq<byte>)
    requires PrivateTooLong(bad)
    ensures PL.DecodeAll(Open(bad)) == PL.Parsed([], Open(bad[7..]))
  {
    hide P.Decode, AF.Decode, Bytes.PacketHeader;
    PrivateControl(bad);
    Bytes.PacketParsed(bad);
    PrivateFieldStays(bad[4..]);
    assert bad[4..][3..] == bad[7..];
  }

  /** What is behind a saved program, and is no whole packet, or one whose private data is too long, is not looked at:
      the program is loaded. */
  lemma TailIsIgnored(p: T.Program, tail: seq<byte>)
    requires WellFormed(p) && (|tail| < P.PACKET_SIZE || PrivateTooLong(tail))
    requires P.PACKET_SIZE * (|SegmentAll(UnitsOfProgram(p))| + 1) < 0x1_0000_0000_0000_0000
    ensures Loaded(T.EMPTY, Open(SavedBytes(p) + tail)) == T.Folded(true, Restored(p))
  {
    hide WellFormed, UnitsOfProgram, Unpack, Restored, SegmentAll, Assemble, SavedBytes, PL.DecodeAll;
    SavedLoads(p);
    TailStays(tail);
    SavedWithTail(p, tail);
    NothingBehind(PL.DecodeAll(Open(SavedBytes(p))).packets);
  }

  lemma TailStays(tail: seq<byte>)
    requires |tail| < P.PACKET_SIZE || PrivateTooLong(tail)
    ensures |tail| <= P.PACKET_SIZE && PL.DecodeAll(Open(tail)).packets == [] && PL.DecodeAll(Open(tail)).rest.Open?
  {
    hide PL.DecodeAll;
    if |tail| < P.PACKET_SIZE {
      PP.ShortTail(tail);
    } else {
      PrivateTooLongStays(tail);
    }
  }
}
