/** What segmentation and reassembly guarantee, apart and together. */
module UnitListProperties {
  import opened Words
  import opened Bytestreams
  import opened P = TsPackets
  import opened PL = PacketLists
  import opened PP = PacketListProperties
  import opened UnitLists

  // ---- segmentation ----

  function CeilDiv(n: nat, d: nat): nat
    requires d > 0
  {
    (n + d - 1) / d
  }

  /** A unit of n bytes takes one packet for as much as fits beside its flags and one for every further 184 bytes. */
  lemma {:induction false} SegmentCount(u: UnitValue, first: bool, data: seq<byte>)
    requires data != []
    ensures |Segment(u, first, data)| ==
            1 + CeilDiv(if |data| > Capacity(u, first) then |data| - Capacity(u, first) else 0, 184)
    decreases |data|
  {
    TemplateRoom(u, first);
    hide Size, Template;
    var k := Min(Capacity(u, first), |data|);
    if k < |data| {
      SegmentCount(u, false, data[k..]);
    }
  }

  function Payloads(ps: seq<Packet>): seq<byte> {
    if ps == [] then [] else ps[0].payload + Payloads(ps[1..])
  }

  /** The packets carry the data of the unit, all of it, in order, and each of them some. */
  lemma {:induction false} SegmentKeepsData(u: UnitValue, first: bool, data: seq<byte>)
    ensures Payloads(Segment(u, first, data)) == data
    ensures forall i :: 0 <= i < |Segment(u, first, data)| ==> Segment(u, first, data)[i].payload != []
    decreases |data|
  {
    TemplateRoom(u, first);
    hide Size, Template;
    if data != [] {
      var k := Min(Capacity(u, first), |data|);
      SegmentKeepsData(u, false, data[k..]);
      assert data[..k] + data[k..] == data;
    }
  }

  /** There are never more packets than bytes. */
  lemma {:induction false} SegmentIsShort(u: UnitValue, first: bool, data: seq<byte>)
    ensures |Segment(u, first, data)| <= |data|
    decreases |data|
  {
    if data != [] {
      var t := Template(u, first);
      TemplateRoom(u, first);
      var k := Min(PACKET_SIZE - Size(t), |data|);
      hide Template, Size;
      SegmentOne(u, first, data, t, k);
      SegmentIsShort(u, false, data[k..]);
    }
  }

  /** Every packet fills its 188 bytes exactly: the stuffing count never wraps, and a payload of 183 bytes gets the
      adaptation field that is a single zero byte. */
  lemma {:induction false} SegmentFits(u: UnitValue, first: bool, data: seq<byte>)
    ensures Packable(Segment(u, first, data)) && Honest(Segment(u, first, data))
    ensures forall i :: 0 <= i < |Segment(u, first, data)| ==>
                          var p := Segment(u, first, data)[i];
                          |Encode(p)| == PACKET_SIZE && (|p.payload| == 183 ==> FieldBytes(Prepared(p)) == Be(0, 1))
    decreases |data|
  {
    hide Encode, AF.Encode;
    if data != [] {
      var t := Template(u, first);
      TemplateRoom(u, first);
      var k := Min(Capacity(u, first), |data|);
      SegmentFits(u, false, data[k..]);
      TemplateFits(u, first, data[..k]);
      hide Segment, Template, Fits, Prepared;
      SegmentOne(u, first, data, t, k);
      Exactly188(t.(payload := data[..k]));
    }
  }

  lemma TemplateFits(u: UnitValue, first: bool, payload: seq<byte>)
    requires 0 < |payload| <= Capacity(u, first)
    ensures
      var p := Template(u, first).(payload := payload);
      && Fits(p) && p.HasPayload()
      && (|payload| == 183 ==> FieldBytes(Prepared(p)) == Be(0, 1))
  {
    hide AF.Body, AF.Stuffing;
  }

  lemma {:induction false} SegmentAllFits(us: seq<UnitValue>)
    ensures Packable(SegmentAll(us)) && Honest(SegmentAll(us))
  {
    hide Fits;
    if us != [] {
      SegmentFits(us[0], true, us[0].data);
      SegmentAllFits(us[1..]);
    }
  }

  // ---- continuity of segmented units ----

  function PacketsOf(ps: seq<Packet>, pid: Pid): seq<Packet> {
    if ps == [] then []
    else (if ps[0].pid == pid then [ps[0]] else []) + PacketsOf(ps[1..], pid)
  }

  function OfPid(p: Packet, pid: Pid): seq<Packet> {
    if p.pid == pid then [p] else []
  }

  lemma PacketsOfFirst(ps: seq<Packet>, pid: Pid)
    requires ps != []
    ensures PacketsOf(ps, pid) == OfPid(ps[0], pid) + PacketsOf(ps[1..], pid)
  {
  }

  lemma {:induction false} PacketsOfJoin(a: seq<Packet>, b: seq<Packet>, pid: Pid)
    ensures PacketsOf(a + b, pid) == PacketsOf(a, pid) + PacketsOf(b, pid)
    decreases |a|
  {
    if a == [] {
      assert a + b == b;
    } else {
      hide PacketsOf, OfPid;
      assert (a + b)[1..] == a[1..] + b && (a + b)[0] == a[0];
      PacketsOfJoin(a[1..], b, pid);
      PacketsOfFirst(a, pid);
      PacketsOfFirst(a + b, pid);
    }
  }

  predicate AllCarry(ps: seq<Packet>) {
    forall i :: 0 <= i < |ps| ==> ps[i].payload != []
  }

  lemma {:induction false} SegmentAllCarry(us: seq<UnitValue>)
    ensures AllCarry(SegmentAll(us))
  {
    if us != [] {
      SegmentKeepsData(us[0], true, us[0].data);
      SegmentAllCarry(us[1..]);
    }
  }

  lemma {:induction false} CarriedIsAll(ps: seq<Packet>, pid: Pid)
    requires AllCarry(ps)
    ensures Carried(ps, pid) == |PacketsOf(ps, pid)|
  {
    if ps != [] {
      var last := |ps| - 1;
      assert ps == ps[..last] + [ps[last]];
      CarriedIsAll(ps[..last], pid);
      PacketsOfJoin(ps[..last], [ps[last]], pid);
      assert [ps[last]][1..] == [] && PacketsOf([], pid) == [];
    }
  }

  function SegmentRuns(runs: seq<seq<UnitValue>>): (out: seq<seq<Packet>>)
    ensures |out| == |runs|
  {
    seq(|runs|, i requires 0 <= i < |runs| => SegmentAll(runs[i]))
  }

  lemma {:induction false} FlatCarries(runs: seq<seq<Packet>>)
    requires forall k :: 0 <= k < |runs| ==> AllCarry(runs[k])
    ensures AllCarry(Flat(runs))
  {
    if runs != [] {
      FlatCarries(runs[..|runs| - 1]);
    }
  }

  /** When lists of units are packed by one packet list, one list after another, the k-th packet of a PID among all
      their packets, counting from zero, gets k mod 16. */
  lemma UnitContinuity(runs: seq<seq<UnitValue>>, tables: seq<seq<Counter>>, r: nat, i: nat)
    requires History(SegmentRuns(runs), tables) && r < |runs| && i < |SegmentAll(runs[r])|
    ensures
      var all := SegmentRuns(runs);
      var p := all[r][i];
      Numbered(tables[r], all[r], i).counter == |PacketsOf(Flat(all[..r]) + all[r][..i], p.pid)| % 16
  {
    hide Segment, PacketsOf, Carried, Numbered, History;
    var all := SegmentRuns(runs);
    forall k | 0 <= k < |all|
      ensures Honest(all[k]) && AllCarry(all[k])
    {
      SegmentAllFits(runs[k]);
      SegmentAllCarry(runs[k]);
    }
    Continuity(all, tables, r, i);
    FlatCarries(all[..r]);
    CarriedIsAll(Flat(all[..r]) + all[r][..i], all[r][i].pid);
  }

  // ---- reassembly ----

  function UnitsOf(us: seq<UnitValue>, pid: Pid): seq<UnitValue> {
    if us == [] then []
    else (if us[0].pid == pid then [us[0]] else []) + UnitsOf(us[1..], pid)
  }

  lemma {:induction false} TailOfPid(ps: seq<Packet>, pid: Pid)
    ensures Tail(PacketsOf(ps, pid), pid) == Tail(ps, pid)
  {
    if ps != [] {
      TailOfPid(ps[1..], pid);
      if ps[0].pid == pid {
        assert PacketsOf(ps, pid)[1..] == PacketsOf(ps[1..], pid);
      } else {
        assert PacketsOf(ps, pid) == PacketsOf(ps[1..], pid);
      }
    }
  }

  /** The units of a PID depend only on the packets of that PID. */
  lemma {:induction false} PerPid(ps: seq<Packet>, pid: Pid)
    ensures UnitsOf(Assemble(ps), pid) == Assemble(PacketsOf(ps, pid))
  {
    if ps != [] {
      PerPid(ps[1..], pid);
      if ps[0].pid == pid {
        assert PacketsOf(ps, pid)[1..] == PacketsOf(ps[1..], pid);
        TailOfPid(ps[1..], pid);
      } else {
        assert PacketsOf(ps, pid) == PacketsOf(ps[1..], pid);
      }
      if ps[0].unitStart == 1 {
        assert Assemble(ps)[1..] == Assemble(ps[1..]);
      }
    }
  }

  /** How the packets of different PIDs are interleaved does not matter. */
  lemma InterleavingIsFree(ps: seq<Packet>, qs: seq<Packet>, pid: Pid)
    requires PacketsOf(ps, pid) == PacketsOf(qs, pid)
    ensures UnitsOf(Assemble(ps), pid) == UnitsOf(Assemble(qs), pid)
  {
    PerPid(ps, pid);
    PerPid(qs, pid);
  }

  /** Packets before a PID's first start belong to no unit. */
  lemma {:induction false} DroppedBeforeStart(ps: seq<Packet>, qs: seq<Packet>)
    requires forall i :: 0 <= i < |ps| ==> ps[i].unitStart == 0
    ensures Assemble(ps + qs) == Assemble(qs)
  {
    if ps == [] {
      assert ps + qs == qs;
    } else {
      assert (ps + qs)[1..] == ps[1..] + qs;
      DroppedBeforeStart(ps[1..], qs);
    }
  }

  // ---- segmentation, then reassembly ----

  /** A unit as a packet header can describe it: no clock value without the clock flag. */
  function Clean(u: UnitValue): UnitValue {
    if u.pcrFlag == 1 then u else u.(pcr := 0)
  }

  /** Units without data produce no packets, so nothing of them comes back. */
  function Kept(us: seq<UnitValue>): seq<UnitValue> {
    if us == [] then [] else (if us[0].data != [] then [Clean(us[0])] else []) + Kept(us[1..])
  }

  lemma {:induction false} ContinuationAssembles(u: UnitValue, data: seq<byte>, ps: seq<Packet>, pid: Pid)
    ensures Assemble(Segment(u, false, data) + ps) == Assemble(ps)
    ensures Tail(Segment(u, false, data) + ps, pid) == (if pid == u.pid then data else []) + Tail(ps, pid)
    decreases |data|
  {
    hide Size;
    TemplateRoom(u, false);
    if data == [] {
      assert Segment(u, false, data) + ps == ps;
      assert Tail(ps, pid) == [] + Tail(ps, pid);
    } else {
      var k := Min(Capacity(u, false), |data|);
      var p := Template(u, false).(payload := data[..k]);
      SegmentOne(u, false, data, Template(u, false), k);
      var rest := Segment(u, false, data[k..]) + ps;
      assert Segment(u, false, data) + ps == [p] + rest;
      ContinuationAssembles(u, data[k..], ps, pid);
      assert data[..k] + (data[k..] + Tail(ps, pid)) == data + Tail(ps, pid);
      assert [] + Tail(ps, pid) == Tail(ps, pid);
    }
  }

  lemma StartAssembles(p: Packet, rest: seq<Packet>)
    requires p.unitStart == 1
    ensures Assemble([p] + rest) == [Opened(p).(data := p.payload + Tail(rest, p.pid))] + Assemble(rest)
  {
    assert ([p] + rest)[1..] == rest;
  }

  lemma FirstPacket(u: UnitValue, payload: seq<byte>)
    ensures
      var p := Template(u, true).(payload := payload);
      p.unitStart == 1 && p.pid == u.pid && p.payload == payload && Opened(p) == Clean(u).(data := [])
  {
  }

  lemma SegmentAssembles(u: UnitValue, ps: seq<Packet>)
    requires u.data != [] && Tail(ps, u.pid) == []
    ensures Assemble(Segment(u, true, u.data) + ps) == [Clean(u)] + Assemble(ps)
  {
    hide Size, Template, Segment, Opened, Assemble, Tail;
    TemplateRoom(u, true);
    var k := Min(Capacity(u, true), |u.data|);
    var p := Template(u, true).(payload := u.data[..k]);
    FirstPacket(u, u.data[..k]);
    SegmentOne(u, true, u.data, Template(u, true), k);
    var rest := Segment(u, false, u.data[k..]) + ps;
    assert Segment(u, true, u.data) + ps == [p] + rest;
    StartAssembles(p, rest);
    ContinuationAssembles(u, u.data[k..], ps, u.pid);
    assert u.data[..k] + (u.data[k..] + []) == u.data;
  }

  /** A segmented unit starts with a start packet, which ends whatever came before. */
  lemma SegmentEndsTail(u: UnitValue, ps: seq<Packet>, pid: Pid)
    requires Tail(ps, pid) == []
    ensures Tail(Segment(u, true, u.data) + ps, pid) == []
  {
    if u.data == [] {
      assert Segment(u, true, u.data) + ps == ps;
    } else {
      TemplateRoom(u, true);
      var k := Min(Capacity(u, true), |u.data|);
      SegmentOne(u, true, u.data, Template(u, true), k);
      var p := Template(u, true).(payload := u.data[..k]);
      var rest := Segment(u, false, u.data[k..]) + ps;
      hide Segment, Template, Size;
      assert Segment(u, true, u.data) + ps == [p] + rest && ([p] + rest)[1..] == rest;
      ContinuationAssembles(u, u.data[k..], ps, pid);
    }
  }

  lemma {:induction false} NoTail(us: seq<UnitValue>, pid: Pid)
    ensures Tail(SegmentAll(us), pid) == []
  {
    hide Segment;
    if us != [] {
      NoTail(us[1..], pid);
      SegmentEndsTail(us[0], SegmentAll(us[1..]), pid);
    }
  }

  /** Segmenting any list of units and reassembling the packets gives back exactly the units that have data. */
  lemma {:induction false} SegmentThenAssemble(us: seq<UnitValue>)
    ensures Assemble(SegmentAll(us)) == Kept(us)
  {
    hide Segment;
    if us != [] {
      SegmentThenAssemble(us[1..]);
      NoTail(us[1..], us[0].pid);
      if us[0].data == [] {
        SegmentNone(us[0], true);
        assert [] + SegmentAll(us[1..]) == SegmentAll(us[1..]);
      } else {
        SegmentAssembles(us[0], SegmentAll(us[1..]));
      }
    }
  }

  /** The same holds for each PID when the packets are interleaved in any way that keeps each PID's order. */
  lemma SegmentInterleaveAssemble(us: seq<UnitValue>, ps: seq<Packet>, pid: Pid)
    requires PacketsOf(ps, pid) == PacketsOf(SegmentAll(us), pid)
    ensures UnitsOf(Assemble(ps), pid) == UnitsOf(Kept(us), pid)
  {
    InterleavingIsFree(ps, SegmentAll(us), pid);
    SegmentThenAssemble(us);
  }

  // ---- through the wire ----

  function Reduced(u: UnitValue): UnitValue {
    u.(pcr := u.pcr % AF.Pcr.PCR_MODULUS)
  }

  function ReduceAll(us: seq<UnitValue>): (vs: seq<UnitValue>)
    ensures |vs| == |us|
  {
    seq(|us|, i requires 0 <= i < |us| => Reduced(us[i]))
  }

  /** q says of a unit what p says, with its clock reduced. */
  predicate Alike(p: Packet, q: Packet) {
    && q.pid == p.pid && q.unitStart == p.unitStart && q.payload == p.payload
    && Opened(q) == Reduced(Opened(p))
  }

  lemma {:induction false} AssembleAlike(ps: seq<Packet>, qs: seq<Packet>)
    requires |ps| == |qs| && forall i :: 0 <= i < |ps| ==> Alike(ps[i], qs[i])
    ensures Assemble(qs) == ReduceAll(Assemble(ps))
  {
    if ps != [] {
      AssembleAlike(ps[1..], qs[1..]);
      TailAlike(ps[1..], qs[1..], ps[0].pid);
    }
  }

  lemma {:induction false} TailAlike(ps: seq<Packet>, qs: seq<Packet>, pid: Pid)
    requires |ps| == |qs| && forall i :: 0 <= i < |ps| ==> Alike(ps[i], qs[i])
    ensures Tail(qs, pid) == Tail(ps, pid)
  {
    if ps != [] {
      TailAlike(ps[1..], qs[1..], pid);
    }
  }

  lemma {:induction false} SegmentSurvives(u: UnitValue, first: bool, data: seq<byte>, i: nat, c: nibble)
    requires i < |Segment(u, first, data)|
    ensures var p := Segment(u, first, data)[i];
            Alike(p, Norm(p.(counter := c))) && Fits(p.(counter := c))
    decreases |data|
  {
    TemplateRoom(u, first);
    var k := Min(Capacity(u, first), |data|);
    if i == 0 {
      TemplateFits(u, first, data[..k]);
      TemplateSurvives(u, first, data[..k], c);
    } else {
      hide Size, Template;
      SegmentSurvives(u, false, data[k..], i - 1, c);
    }
  }

  lemma TemplateSurvives(u: UnitValue, first: bool, payload: seq<byte>, c: nibble)
    requires 0 < |payload| <= Capacity(u, first)
    ensures var p := Template(u, first).(payload := payload);
            Alike(p, Norm(p.(counter := c))) && Fits(p.(counter := c))
  {
    hide AF.Body, AF.Stuffing;
  }

  /** Units with data, packed to packets, numbered from any table, packed to bytes, unpacked and reassembled come back
      as they were, clocks reduced. */
  lemma ThroughBytes(us: seq<UnitValue>, cs: seq<Counter>)
    requires PACKET_SIZE * |SegmentAll(us)| < 0x1_0000_0000_0000_0000
    ensures
      var parsed := DecodeAll(Open(EncodeAll(NumberedAll(cs, SegmentAll(us)))));
      parsed.rest == Open([]) && Assemble(parsed.packets) == ReduceAll(Kept(us))
  {
    var ps := SegmentAll(us);
    var qs := NumberedAll(cs, ps);
    forall i | 0 <= i < |ps|
      ensures Fits(qs[i]) && Alike(ps[i], Norm(qs[i]))
    {
      SegmentAllSurvive(us, i, qs[i].counter);
    }
    hide Fits, Norm;
    ListRoundTrip(qs);
    AssembleAlike(ps, NormAll(qs));
    SegmentThenAssemble(us);
  }

  lemma {:induction false} SegmentAllSurvive(us: seq<UnitValue>, i: nat, c: nibble)
    requires i < |SegmentAll(us)|
    ensures var p := SegmentAll(us)[i];
            Alike(p, Norm(p.(counter := c))) && Fits(p.(counter := c))
  {
    hide Norm, Fits, Segment;
    var n := |Segment(us[0], true, us[0].data)|;
    if i < n {
      SegmentSurvives(us[0], true, us[0].data, i, c);
    } else {
      SegmentAllSurvive(us[1..], i - n, c);
    }
  }

  // ---- each unit and each packet by its place ----

  function Starts(ps: seq<Packet>): nat {
    if ps == [] then 0 else (if ps[0].unitStart == 1 then 1 else 0) + Starts(ps[1..])
  }

  predicate StartOf(p: Packet, pid: Pid) {
    p.pid == pid && p.unitStart == 1
  }

  /** The packets of a PID go to one unit up to place j, which is the next start of the PID, or the end. */
  predicate NextStart(ps: seq<Packet>, pid: Pid, i: nat, j: nat) {
    i <= j <= |ps| && (forall k :: i <= k < j ==> !StartOf(ps[k], pid)) && (j == |ps| || StartOf(ps[j], pid))
  }

  lemma {:induction false} TailIs(ps: seq<Packet>, pid: Pid, j: nat)
    requires NextStart(ps, pid, 0, j)
    ensures Tail(ps, pid) == Payloads(PacketsOf(ps[..j], pid))
    decreases |ps|
  {
    if j > 0 {
      assert ps[..j][1..] == ps[1..][..j - 1];
      TailIs(ps[1..], pid, j - 1);
      PayloadsOfFirst(ps[0], PacketsOf(ps[1..][..j - 1], pid));
    }
  }

  lemma PayloadsOfFirst(p: Packet, ps: seq<Packet>)
    ensures Payloads([p] + ps) == p.payload + Payloads(ps) && [] + ps == ps
  {
    assert ([p] + ps)[1..] == ps;
  }

  /** There is a unit for every start packet, in their order. It has the PID, the flags and the clock of that packet,
      and the payloads of its PID from there up to the next start of the PID. */
  lemma {:induction false} UnitByPlace(ps: seq<Packet>, i: nat, j: nat)
    requires i < |ps| && ps[i].unitStart == 1 && NextStart(ps, ps[i].pid, i + 1, j)
    ensures |Assemble(ps)| == Starts(ps) > Starts(ps[..i])
    ensures
      var p := ps[i];
      Assemble(ps)[Starts(ps[..i])] ==
      UnitValue(p.pid, p.field.randomAccess, p.field.pcrFlag, if p.field.pcrFlag == 1 then p.field.pcr else 0,
                Payloads(PacketsOf(ps[i..j], p.pid)))
    decreases |ps|
  {
    AssembleStarts(ps);
    hide Tail, Payloads;
    if i == 0 {
      TailIs(ps[1..], ps[0].pid, j - 1);
      assert ps[0..j][1..] == ps[1..][..j - 1];
      PayloadsOfFirst(ps[0], PacketsOf(ps[1..][..j - 1], ps[0].pid));
    } else {
      assert ps[..i][1..] == ps[1..][..i - 1] && ps[1..][i - 1..j - 1] == ps[i..j];
      UnitByPlace(ps[1..], i - 1, j - 1);
    }
  }

  lemma {:induction false} AssembleStarts(ps: seq<Packet>)
    ensures |Assemble(ps)| == Starts(ps)
  {
    if ps != [] {
      AssembleStarts(ps[1..]);
    }
  }

  /** Where the i-th packet of a unit begins in its data. */
  function PlaceOf(u: UnitValue, first: bool, i: nat): nat {
    if i == 0 then 0 else Capacity(u, first) + 184 * (i - 1)
  }

  function FieldIn(u: UnitValue, first: bool): AF.AdaptationField {
    if first then
      AF.EMPTY.(randomAccess := u.randomAccess, pcrFlag := u.pcrFlag, pcr := if u.pcrFlag == 1 then u.pcr else 0)
    else AF.EMPTY
  }

  /** Every packet of a segmentation, field by field: only the first is a start and has flags and a clock, and all have
      the next part of the data. */
  lemma {:induction false} SegmentByPlace(u: UnitValue, first: bool, data: seq<byte>, i: nat)
    requires i < |Segment(u, first, data)|
    ensures PlaceOf(u, first, i) < |data|
    ensures
      var from, to := PlaceOf(u, first, i), Min(PlaceOf(u, first, i + 1), |data|);
      var start := first && i == 0;
      Segment(u, first, data)[i] ==
      Packet(0, if start then 1 else 0, 0, u.pid, 0,
             if start && (u.randomAccess == 1 || u.pcrFlag == 1) then 3 else 1, 0,
             FieldIn(u, start), data[from..to])
    decreases |data|
  {
    hide Template, Capacity, FieldIn, Segment, PlaceOf;
    SegmentStep(u, first, data, i);
    PlaceNext(u, first, i + 1);
    if i == 0 {
      PlaceFirst(u);
      TemplateIs(u, first);
    } else {
      var k := Min(Capacity(u, first), |data|);
      var rest := data[k..];
      SegmentStep(u, false, rest, i - 1);
      SegmentByPlace(u, false, rest, i - 1);
      PlaceNext(u, first, i);
      PlaceNext(u, false, i);
      SliceBehind(data, k, PlaceOf(u, false, i - 1), Min(PlaceOf(u, false, i), |rest|));
    }
  }

  lemma PlaceFirst(u: UnitValue)
    ensures forall first :: PlaceOf(u, first, 0) == 0
  {
  }

  /** A packet is the template with the first bytes, or one of those that segment the rest. */
  lemma SegmentStep(u: UnitValue, first: bool, data: seq<byte>, i: nat)
    requires i < |Segment(u, first, data)|
    ensures
      var k, ps := Min(Capacity(u, first), |data|), Segment(u, first, data);
      && 0 < k && (i > 0 ==> k == Capacity(u, first) && i - 1 < |Segment(u, false, data[k..])|)
      && ps[i] == if i == 0 then Template(u, first).(payload := data[..k]) else Segment(u, false, data[k..])[i - 1]
  {
    SegmentNothing(u, first, data, i);
    TemplateRoom(u, first);
    hide Template, Size;
    var k := Min(Capacity(u, first), |data|);
    SegmentOne(u, first, data, Template(u, first), k);
    if i > 0 {
      SegmentNothing(u, false, data[k..], i - 1);
    }
  }

  lemma SliceBehind(data: seq<byte>, k: nat, a: nat, b: nat)
    requires a <= b && k + b <= |data|
    ensures data[k..][a..b] == data[k + a..k + b]
  {
  }

  lemma SegmentNothing(u: UnitValue, first: bool, data: seq<byte>, i: nat)
    requires i < |Segment(u, first, data)|
    ensures data != []
  {
  }

  lemma PlaceNext(u: UnitValue, first: bool, i: nat)
    requires i > 0
    ensures PlaceOf(u, first, i) == Capacity(u, first) + PlaceOf(u, false, i - 1)
  {
    NoFlagsCapacity(u);
  }

  lemma NoFlagsCapacity(u: UnitValue)
    ensures Capacity(u, false) == 184
  {
  }

  lemma TemplateIs(u: UnitValue, first: bool)
    ensures Template(u, first) ==
            Packet(0, if first then 1 else 0, 0, u.pid, 0,
                   if first && (u.randomAccess == 1 || u.pcrFlag == 1) then 3 else 1, 0, FieldIn(u, first), [])
  {
  }
}
