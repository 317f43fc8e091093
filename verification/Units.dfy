/** Units - the payloads of PES packets and sections - cut into packets and put together again
    (src/ts/ts_unit.c, src/ts/ts_units.c). */
module UnitLists {
  import opened Words
  import opened Bytestreams
  import opened P = TsPackets
  import PL = PacketLists

  datatype UnitValue = UnitValue(pid: Pid, randomAccess: bit, pcrFlag: bit, pcr: u64, data: seq<byte>)

  // ---- segmentation ----

  /** The packet that opens a unit, or carries on with it, before it gets a payload. */
  function Template(u: UnitValue, first: bool): Packet {
    var p := EMPTY.(pid := u.pid, control := 1);
    if !first then p
    else
      p.(unitStart := 1,
         control := if u.randomAccess == 1 || u.pcrFlag == 1 then 3 else 1,
         field := AF.EMPTY.(randomAccess := u.randomAccess, pcrFlag := u.pcrFlag,
                            pcr := if u.pcrFlag == 1 then u.pcr else 0))
  }

  /** The room a unit has for data in its first packet, and in the others. */
  function Capacity(u: UnitValue, first: bool): nat {
    if first && u.pcrFlag == 1 then 176 else if first && u.randomAccess == 1 then 182 else 184
  }

  lemma TemplateRoom(u: UnitValue, first: bool)
    ensures Size(Template(u, first)) == PACKET_SIZE - Capacity(u, first)
  {
  }

  function Min(a: nat, b: nat): nat {
    if a < b then a else b
  }

  /** The packets for the data that is still to be sent. */
  function Segment(u: UnitValue, first: bool, data: seq<byte>): seq<Packet>
    decreases |data|
  {
    if data == [] then []
    else
      var t := Template(u, first);
      var k := Min(PACKET_SIZE - Size(t), |data|);
      [t.(payload := data[..k])] + Segment(u, false, data[k..])
  }

  lemma SegmentOne(u: UnitValue, first: bool, data: seq<byte>, t: Packet, k: nat)
    requires data != [] && t == Template(u, first)
    requires k == Min(PACKET_SIZE - Size(t), |data|)
    ensures 0 < k <= |data|
    ensures Segment(u, first, data) == [t.(payload := data[..k])] + Segment(u, false, data[k..])
  {
    TemplateRoom(u, first);
  }

  lemma SegmentNone(u: UnitValue, first: bool)
    ensures Segment(u, first, []) == []
  {
  }

  function SegmentAll(us: seq<UnitValue>): seq<Packet> {
    if us == [] then [] else Segment(us[0], true, us[0].data) + SegmentAll(us[1..])
  }

  // ---- reassembly, declaratively ----

  /** The payloads of a PID up to its next start. */
  function Tail(ps: seq<Packet>, pid: Pid): seq<byte> {
    if ps == [] then []
    else if ps[0].pid != pid then Tail(ps[1..], pid)
    else if ps[0].unitStart == 1 then []
    else ps[0].payload + Tail(ps[1..], pid)
  }

  function Opened(p: Packet): UnitValue {
    UnitValue(p.pid, p.field.randomAccess, p.field.pcrFlag, if p.field.pcrFlag == 1 then p.field.pcr else 0, [])
  }

  /** One unit for each start packet, in the order of the start packets, holding the payloads of its PID from there to
      the next start of that PID. Packets before a PID's first start belong to no unit. */
  function Assemble(ps: seq<Packet>): seq<UnitValue> {
    if ps == [] then []
    else if ps[0].unitStart == 1 then
      [Opened(ps[0]).(data := ps[0].payload + Tail(ps[1..], ps[0].pid))] + Assemble(ps[1..])
    else Assemble(ps[1..])
  }

  // ---- reassembly, one packet at a time ----

  /** The index of the last occurrence of a PID, or -1. */
  function LastIndex(pids: seq<Pid>, pid: Pid): (i: int)
    ensures -1 <= i < |pids|
    ensures 0 <= i ==> pids[i] == pid
    ensures forall j :: i < j < |pids| ==> pids[j] != pid
  {
    if pids == [] then -1
    else if pids[|pids| - 1] == pid then |pids| - 1
    else LastIndex(pids[..|pids| - 1], pid)
  }

  function PidsOf(us: seq<UnitValue>): (pids: seq<Pid>)
    ensures |pids| == |us| && forall i :: 0 <= i < |us| ==> pids[i] == us[i].pid
  {
    seq(|us|, i requires 0 <= i < |us| => us[i].pid)
  }

  /** The index of the last unit of a PID, or -1. */
  function LastOf(us: seq<UnitValue>, pid: Pid): (i: int)
    ensures -1 <= i < |us|
    ensures 0 <= i ==> us[i].pid == pid
    ensures forall j :: i < j < |us| ==> us[j].pid != pid
  {
    LastIndex(PidsOf(us), pid)
  }

  function Extend(us: seq<UnitValue>, i: int, payload: seq<byte>): (vs: seq<UnitValue>)
    requires -1 <= i < |us|
    ensures |vs| == |us|
  {
    if i < 0 then us else us[i := us[i].(data := us[i].data + payload)]
  }

  function Step(us: seq<UnitValue>, p: Packet): seq<UnitValue> {
    if p.unitStart == 1 then us + [Opened(p).(data := p.payload)]
    else Extend(us, LastOf(us, p.pid), p.payload)
  }

  lemma LastOfIs(us: seq<UnitValue>, pid: Pid, i: int)
    requires -1 <= i < |us| && (0 <= i ==> us[i].pid == pid)
    requires forall j :: i < j < |us| ==> us[j].pid != pid
    ensures LastOf(us, pid) == i
  {
  }

  lemma {:induction false} TailSnoc(ps: seq<Packet>, p: Packet, pid: Pid)
    ensures Tail(ps + [p], pid) ==
            Tail(ps, pid) + if p.pid == pid && p.unitStart == 0 && LastOf(Assemble(ps), pid) < 0 then p.payload else []
  {
    if ps == [] {
      assert Tail([p][1..], pid) == [];
    } else {
      assert (ps + [p])[1..] == ps[1..] + [p];
      TailSnoc(ps[1..], p, pid);
      LastOfCons(ps, pid);
      var more := if p.pid == pid && p.unitStart == 0 && LastOf(Assemble(ps[1..]), pid) < 0 then p.payload else [];
      assert ps[0].payload + (Tail(ps[1..], pid) + more) == ps[0].payload + Tail(ps[1..], pid) + more;
    }
  }

  /** A start packet in front moves the last unit of a PID by one place. */
  lemma LastOfCons(ps: seq<Packet>, pid: Pid)
    requires ps != []
    ensures
      var i := LastOf(Assemble(ps[1..]), pid);
      LastOf(Assemble(ps), pid) ==
      if ps[0].unitStart == 0 then i
      else if i >= 0 then i + 1
      else if ps[0].pid == pid then 0 else -1
  {
    hide Tail;
    var us, vs := Assemble(ps), Assemble(ps[1..]);
    hide Assemble, LastIndex;
    if ps[0].unitStart == 1 {
      assert us[1..] == vs && us[0].pid == ps[0].pid by { StartFirst(ps); }
      LastOfPrepended(us[0], vs, pid);
      assert us == [us[0]] + vs;
    } else {
      StartFirst(ps);
    }
  }

  lemma StartFirst(ps: seq<Packet>)
    requires ps != []
    ensures
      if ps[0].unitStart == 0 then Assemble(ps) == Assemble(ps[1..])
      else |Assemble(ps)| > 0 && Assemble(ps)[0].pid == ps[0].pid && Assemble(ps)[1..] == Assemble(ps[1..])
  {
  }

  lemma LastOfPrepended(u: UnitValue, us: seq<UnitValue>, pid: Pid)
    ensures
      var i := LastOf(us, pid);
      LastOf([u] + us, pid) == if i >= 0 then i + 1 else if u.pid == pid then 0 else -1
  {
    hide LastIndex;
    var i, vs := LastOf(us, pid), [u] + us;
    assert forall j :: 0 < j < |vs| ==> vs[j] == us[j - 1];
    LastOfIs(vs, pid, if i >= 0 then i + 1 else if u.pid == pid then 0 else -1);
  }

  /** The declarative reading of a packet list grows by one packet exactly as the incremental one does. */
  lemma {:induction false} AssembleSnoc(ps: seq<Packet>, p: Packet)
    ensures Assemble(ps + [p]) == Step(Assemble(ps), p)
  {
    if ps == [] {
      assert ps + [p] == [p] && [p][1..] == [];
      assert p.payload + [] == p.payload;
    } else {
      var q, rest := ps[0], ps[1..];
      assert (ps + [p])[1..] == rest + [p];
      AssembleSnoc(rest, p);
      if q.unitStart == 1 {
        TailSnoc(rest, p, q.pid);
        LastOfCons(ps, p.pid);
        var d := Tail(rest, q.pid);
        assert q.payload + (d + p.payload) == q.payload + d + p.payload && d + [] == d;
      }
    }
  }

  // ---- the objects ----

  class Unit {
    var pid: Pid
    var randomAccess: bit
    var pcrFlag: bit
    var pcr: u64
    var data: seq<byte>

    constructor (pid: Pid, randomAccess: bit)
      ensures Value() == UnitValue(pid, randomAccess, 0, 0, [])
    {
      this.pid, this.randomAccess, pcrFlag, pcr, data := pid, randomAccess, 0, 0, [];
    }

    function Value(): UnitValue
      reads this
    {
      UnitValue(pid, randomAccess, pcrFlag, pcr, data)
    }

    /** The packet ts_unit_pack sets up before it gets its payload. */
    method NewPacket(first: bool) returns (packet: Packet)
      ensures packet == Template(Value(), first)
    {
      packet := EMPTY.(pid := pid, control := 1);
      if first {
        packet := packet.(unitStart := 1);
        if randomAccess == 1 {
          packet := packet.(field := packet.field.(randomAccess := 1), control := 3);
        }
        if pcrFlag == 1 {
          packet := packet.(field := packet.field.(pcrFlag := 1, pcr := pcr), control := 3);
        }
      }
    }

    /** Cuts the unit into packets at the end of a packet list. */
    method Pack(packets: PL.Packets)
      modifies packets`list
      ensures packets.list == old(packets.list) + Segment(Value(), true, data)
    {
      hide Size, AF.Size, Template, Segment;
      ghost var u, sent := Value(), [];
      assert data[0..] == data && [] + Segment(u, true, data) == Segment(u, true, data);
      var base: nat, size: nat, count := 0, |data|, 0;
      while size > 0
        invariant base + size == |data| && (count == 0 <==> base == 0)
        invariant packets.list == old(packets.list) + sent
        invariant sent + Segment(u, count == 0, data[base..]) == Segment(u, true, data)
      {
        var packet := NewPacket(count == 0);
        TemplateRoom(u, count == 0);
        var k := Min(PACKET_SIZE - Size(packet), size);
        SegmentOne(u, count == 0, data[base..], packet, k);
        packet := packet.(payload := data[base..base + k]);
        packets.list := packets.list + [packet];
        assert data[base..][k..] == data[base + k..] && data[base..][..k] == data[base..base + k];
        ghost var rest := Segment(u, false, data[base + k..]);
        assert sent + ([packet] + rest) == sent + [packet] + rest;
        sent := sent + [packet];
        base := base + k;
        size := size - k;
        count := count + 1;
      }
      SegmentNone(u, count == 0);
      assert data[base..] == [] && sent + [] == sent;
    }

    /** Takes in the payload of one more packet. */
    method Unpack(packet: Packet)
      modifies this`data
      ensures Value() == old(Value()).(data := old(data) + packet.payload)
    {
      data := data + packet.payload;
    }
  }

  ghost function Values(us: seq<Unit>): (vs: seq<UnitValue>)
    reads us
    ensures |vs| == |us|
  {
    seq(|us|, i requires 0 <= i < |us| reads us => us[i].Value())
  }

  ghost predicate AllDistinct(us: seq<Unit>) {
    forall i, j :: 0 <= i < j < |us| ==> us[i] != us[j]
  }

  /** Where the incomplete list points: at the last unit of each PID that has one, so never at two units of one PID. */
  ghost predicate Tracks(open: seq<nat>, pids: seq<Pid>) {
    && (forall i, j :: 0 <= i < j < |open| ==> open[i] != open[j])
    && (forall k :: k in open <==> 0 <= k < |pids| && LastIndex(pids, pids[k]) == k)
  }

  lemma NeverTwoOfOnePid(open: seq<nat>, pids: seq<Pid>, i: nat, j: nat)
    requires Tracks(open, pids) && i < j < |open|
    ensures open[i] in open && open[j] in open && pids[open[i]] != pids[open[j]]
  {
  }

  function Without(open: seq<nat>, found: int): seq<nat>
    requires -1 <= found < |open|
  {
    if found >= 0 then open[..found] + open[found + 1..] else open
  }

  lemma WithoutOne(open: seq<nat>, found: int)
    requires -1 <= found < |open|
    requires forall i, j :: 0 <= i < j < |open| ==> open[i] != open[j]
    ensures
      var rest := Without(open, found);
      && (forall i, j :: 0 <= i < j < |rest| ==> rest[i] != rest[j])
      && forall k :: k in rest <==> k in open && (found >= 0 ==> k != open[found])
  {
    if found >= 0 {
      var rest := Without(open, found);
      forall k | k in open && k != open[found]
        ensures k in rest
      {
        var i :| 0 <= i < |open| && open[i] == k;
        assert rest[if i < found then i else i - 1] == k;
      }
    }
  }

  lemma TracksAfterStart(open: seq<nat>, pids: seq<Pid>, found: int, pid: Pid)
    requires Tracks(open, pids) && -1 <= found < |open|
    requires if found >= 0 then open[found] == LastIndex(pids, pid) else LastIndex(pids, pid) < 0
    ensures Tracks(Without(open, found) + [|pids|], pids + [pid])
  {
    WithoutOne(open, found);
    var rest := Without(open, found);
    var now, more := rest + [|pids|], pids + [pid];
    forall i | 0 <= i < |rest|
      ensures rest[i] < |pids|
    {
      assert rest[i] in rest;
    }
    assert more[..|pids|] == pids;
    assert forall q: Pid :: LastIndex(more, q) == if q == pid then |pids| else LastIndex(pids, q);
    assert forall k :: k in now <==> k in rest || k == |pids|;
  }

  /** What the search in the incomplete list finds. */
  lemma FoundIsLast(open: seq<nat>, pids: seq<Pid>, found: int, pid: Pid)
    requires Tracks(open, pids) && -1 <= found < |open|
    requires forall i :: 0 <= i < |open| ==> open[i] in open && open[i] < |pids|
    requires found >= 0 ==> pids[open[found]] == pid
    requires forall j :: found < j < |open| ==> pids[open[j]] != pid
    ensures if found >= 0 then open[found] == LastIndex(pids, pid) else LastIndex(pids, pid) < 0
  {
    var last := LastIndex(pids, pid);
    if last >= 0 {
      assert last in open;
    }
  }

  class Units {
    var list: seq<Unit>

    constructor ()
      ensures list == []
    {
      list := [];
    }

    method Pack(packets: PL.Packets) returns (count: nat)
      modifies packets`list
      ensures packets.list == old(packets.list) + SegmentAll(Values(list)) && count == |list|
    {
      hide Segment;
      ghost var us, sent := Values(list), [];
      assert us[0..] == us;
      count := 0;
      for i := 0 to |list|
        invariant count == i && packets.list == old(packets.list) + sent
        invariant sent + SegmentAll(us[i..]) == SegmentAll(us)
      {
        list[i].Pack(packets);
        ghost var segment := Segment(us[i], true, us[i].data);
        assert us[i..][0] == us[i] && us[i..][1..] == us[i + 1..];
        Reassociate(sent, segment, SegmentAll(us[i + 1..]));
        Reassociate(old(packets.list), sent, segment);
        sent := sent + segment;
        count := count + 1;
      }
      assert sent + SegmentAll([]) == sent;
    }

    /** Puts the units of a packet list together, after whatever units the list held before. */
    method Unpack(packets: PL.Packets) returns (count: nat)
      modifies this`list
      ensures count == |Assemble(packets.list)| && |list| == |old(list)| + count
      ensures list[..|old(list)|] == old(list)
      ensures Values(list[|old(list)|..]) == Assemble(packets.list)
      ensures AllDistinct(list[|old(list)|..]) && forall u :: u in list[|old(list)|..] ==> fresh(u)
    {
      assert Assembling([], [], [], Assemble(packets.list[..0]));
      hide Assemble, LastIndex, Without, Tracks, Points;
      ghost var ps := packets.list;
      ghost var units: seq<Unit>, open: seq<nat> := [], [];
      var incomplete: seq<Unit> := [];
      count := 0;
      for i := 0 to |packets.list|
        invariant packets.list == ps && count == |units|
        invariant list == old(list) + units && forall u :: u in units ==> fresh(u)
        invariant Assembling(units, incomplete, open, Assemble(ps[..i]))
      {
        var p := packets.list[i];
        ghost var us := Assemble(ps[..i]);
        AssembleSnoc(ps[..i], p);
        assert ps[..i + 1] == ps[..i] + [p];
        var found := FindIncomplete(incomplete, p.pid);
        SearchFinds(units, incomplete, open, us, found, p.pid);
        if p.unitStart == 1 {
          var unit;
          unit, incomplete, open := Begin(p, found, incomplete, units, open, us);
          list := list + [unit];
          units := units + [unit];
          count := count + 1;
        } else if found >= 0 {
          assert incomplete[found] in units;
          Continue(incomplete[found], p, units, incomplete, open, us);
        }
      }
      assert ps[..|ps|] == ps;
    }
  }

  /** The invariant of reassembly: the new units are distinct objects with the values read so far, and the incomplete
      list points at the units still open. */
  ghost predicate Assembling(units: seq<Unit>, incomplete: seq<Unit>, open: seq<nat>, us: seq<UnitValue>)
    reads units
  {
    AllDistinct(units) && Values(units) == us && Tracks(open, PidsOf(us)) && Points(incomplete, open, units)
  }

  ghost predicate Points(incomplete: seq<Unit>, open: seq<nat>, units: seq<Unit>) {
    |incomplete| == |open| && forall i :: 0 <= i < |open| ==> open[i] < |units| && incomplete[i] == units[open[i]]
  }

  lemma SearchFinds(units: seq<Unit>, incomplete: seq<Unit>, open: seq<nat>, us: seq<UnitValue>, found: int, pid: Pid)
    requires Assembling(units, incomplete, open, us) && -1 <= found < |incomplete|
    requires found >= 0 ==> incomplete[found].pid == pid
    requires forall j :: found < j < |incomplete| ==> incomplete[j].pid != pid
    ensures
      var last := LastOf(us, pid);
      if found < 0 then last < 0 else last >= 0 && open[found] == last && incomplete[found] == units[last]
  {
    hide LastIndex;
    FoundIsLast(open, PidsOf(us), found, pid);
  }

  /** A start packet closes the open unit of its PID, if there is one, and opens a new one. */
  method Begin(p: Packet, found: int, incomplete: seq<Unit>, ghost units: seq<Unit>, ghost open: seq<nat>,
               ghost us: seq<UnitValue>)
    returns (unit: Unit, now: seq<Unit>, ghost nowOpen: seq<nat>)
    requires Assembling(units, incomplete, open, us) && -1 <= found < |incomplete|
    requires if found >= 0 then open[found] == LastOf(us, p.pid) else LastOf(us, p.pid) < 0
    ensures fresh(unit)
    ensures Assembling(units + [unit], now, nowOpen, us + [Opened(p).(data := p.payload)])
  {
    hide LastIndex, Tracks, Without, Points, AllDistinct;
    now := incomplete;
    if found >= 0 {
      now := now[..found] + now[found + 1..];
    }
    PointsWithout(incomplete, open, units, found);
    unit := StartUnit(p);
    PointsMore(now, Without(open, found), units, unit);
    DistinctMore(units, unit);
    now := now + [unit];
    unit.Unpack(p);
    nowOpen := Without(open, found) + [|units|];
    TracksAfterStart(open, PidsOf(us), found, p.pid);
    ghost var vs := us + [Opened(p).(data := p.payload)];
    assert PidsOf(vs) == PidsOf(us) + [p.pid];
    assert [] + p.payload == p.payload && unit.Value() == Opened(p).(data := p.payload);
    assert Values(units) == us && Values(units + [unit]) == vs;
  }

  lemma PointsWithout(incomplete: seq<Unit>, open: seq<nat>, units: seq<Unit>, found: int)
    requires Points(incomplete, open, units) && -1 <= found < |incomplete|
    ensures |open| == |incomplete|
    ensures Points(if found < 0 then incomplete else incomplete[..found] + incomplete[found + 1..],
                   Without(open, found), units)
  {
  }

  lemma PointsMore(incomplete: seq<Unit>, open: seq<nat>, units: seq<Unit>, unit: Unit)
    requires Points(incomplete, open, units)
    ensures Points(incomplete + [unit], open + [|units|], units + [unit])
  {
  }

  lemma DistinctMore(units: seq<Unit>, unit: Unit)
    requires AllDistinct(units) && unit !in units
    ensures AllDistinct(units + [unit])
  {
  }

  /** A packet without a start goes to the open unit of its PID. */
  method Continue(unit: Unit, p: Packet, ghost units: seq<Unit>, ghost incomplete: seq<Unit>, ghost open: seq<nat>,
                  ghost us: seq<UnitValue>)
    requires Assembling(units, incomplete, open, us)
    requires var i := LastOf(us, p.pid); i >= 0 && unit == units[i]
    modifies unit
    ensures Assembling(units, incomplete, open, Extend(us, LastOf(us, p.pid), p.payload))
  {
    hide LastIndex;
    unit.Unpack(p);
    ghost var vs := Extend(us, LastOf(us, p.pid), p.payload);
    assert Values(units) == vs;
    assert PidsOf(vs) == PidsOf(us);
  }

  /** The unit that a start packet creates. */
  method StartUnit(p: Packet) returns (unit: Unit)
    ensures fresh(unit) && unit.Value() == Opened(p)
  {
    unit := new Unit(p.pid, p.field.randomAccess);
    if p.field.pcrFlag == 1 {
      unit.pcrFlag := 1;
      unit.pcr := p.field.pcr;
    }
  }

  method FindIncomplete(incomplete: seq<Unit>, pid: Pid) returns (found: int)
    ensures -1 <= found < |incomplete|
    ensures found >= 0 ==> incomplete[found].pid == pid
    ensures forall j :: found < j < |incomplete| ==> incomplete[j].pid != pid
  {
    found := -1;
    for i := 0 to |incomplete|
      invariant -1 <= found < i
      invariant found >= 0 ==> incomplete[found].pid == pid
      invariant forall j :: found < j < i ==> incomplete[j].pid != pid
    {
      if incomplete[i].pid == pid {
        found := i;
      }
    }
  }

  lemma Reassociate(a: seq<Packet>, b: seq<Packet>, c: seq<Packet>)
    ensures a + (b + c) == a + b + c
  {
  }
}
