/** A program, packed to units and unpacked from them (src/ts/ts_stream.c). */
module ProgramUnits {
  import opened Words
  import opened Bytestreams
  import opened UnitLists
  import A = ProgramAssociation
  import M = ProgramMap
  import E = PesPackets
  import T = StreamTable
  import opened Scheduler

  // ---- packing ----

  function PatUnit(p: T.Program): UnitValue {
    UnitValue(0, 0, 0, 0, A.Encode(A.Pat(0, 1, 0, 1, Pid13(p.programPid))))
  }

  function EntryFor(st: T.Elementary): M.PmtStream {
    M.PmtStream(st.streamType, Pid13(st.pid), st.descriptor)
  }

  function EntriesFor(sts: seq<T.Elementary>): (entries: seq<M.PmtStream>)
    ensures |entries| == |sts|
  {
    seq(|sts|, i requires 0 <= i < |sts| => EntryFor(sts[i]))
  }

  /** The table of a program; a program without a clock PID names 0x1fff. */
  function PmtFor(p: T.Program): M.Pmt {
    M.Pmt(2, 1, 0, Pid13(if p.pcrPid != 0 then p.pcrPid else 0x1fff), p.descriptor, EntriesFor(p.streams))
  }

  function PmtUnit(p: T.Program): UnitValue {
    UnitValue(Pid13(p.programPid), 0, 0, 0, M.Encode(PmtFor(p)))
  }

  predicate PmtRefused(p: T.Program) {
    M.S.Refused(|M.Data(PmtFor(p))|)
  }

  predicate Packs(p: T.Program) {
    p.programPid != 0 && !PmtRefused(p) && !AnyRefused(Schedule(p))
  }

  /** All the units of a program. */
  function UnitsOfProgram(p: T.Program): seq<UnitValue> {
    [PatUnit(p), PmtUnit(p)] + UnitsFor(p, Schedule(p), false)
  }

  // ---- unpacking ----

  /** ts_stream_unpack_pat: every unit of PID 0 must name the same program PID. */
  function UnpackPat(p: T.Program, us: seq<UnitValue>): T.Folded
    decreases |us|
  {
    if us == [] then T.Folded(true, p)
    else if us[0].pid != 0 then UnpackPat(p, us[1..])
    else
      var d := A.Decode(Open(us[0].data));
      if d.status == Error then T.Folded(false, p)
      else
        var q := if p.programPid == 0 then p.(programPid := d.pat.programPid) else p;
        if q.programPid != d.pat.programPid then T.Folded(false, q) else UnpackPat(q, us[1..])
  }

  /** The loop of ts_stream_unpack_pmt: every unit of the program PID is folded into the table. */
  function UnpackPmts(p: T.Program, us: seq<UnitValue>): T.Folded
    decreases |us|
  {
    if us == [] then T.Folded(true, p)
    else if us[0].pid != p.programPid then UnpackPmts(p, us[1..])
    else
      var d := M.Decode(Open(us[0].data));
      if d.status == Error then T.Folded(false, p)
      else
        var f := T.MergePmt(p, d.pmt);
        if f.ok then UnpackPmts(f.program, us[1..]) else f
  }

  function UnpackPmt(p: T.Program, us: seq<UnitValue>): T.Folded {
    if p.programPid == 0 then T.Folded(false, p) else UnpackPmts(p, us)
  }

  /** The packets in the units of a PID; units that do not parse are skipped. */
  function PesIn(us: seq<UnitValue>, pid: int): seq<E.Pes> {
    if us == [] then []
    else PesIn(us[..|us| - 1], pid) + PesOf(us[|us| - 1], pid)
  }

  function PesOf(u: UnitValue, pid: int): seq<E.Pes> {
    var d := E.Decode(Open(u.data));
    if u.pid == pid && d.status != Error then [d.pes.(randomAccess := u.randomAccess)] else []
  }

  function WithPes(st: T.Elementary, us: seq<UnitValue>): T.Elementary {
    st.(packets := st.packets + PesIn(us, st.pid))
  }

  function AllWithPes(sts: seq<T.Elementary>, us: seq<UnitValue>): (out: seq<T.Elementary>)
    ensures |out| == |sts|
  {
    seq(|sts|, i requires 0 <= i < |sts| => WithPes(sts[i], us))
  }

  lemma AllWithPesAt(sts: seq<T.Elementary>, us: seq<UnitValue>)
    ensures forall i :: 0 <= i < |sts| ==> AllWithPes(sts, us)[i] == WithPes(sts[i], us)
  {
  }

  /** ts_stream_unpack. */
  function Unpack(p: T.Program, us: seq<UnitValue>): T.Folded {
    var pat := UnpackPat(p, us);
    if !pat.ok then pat
    else
      var pmt := UnpackPmt(pat.program, us);
      if !pmt.ok then pmt
      else T.Folded(true, pmt.program.(streams := AllWithPes(pmt.program.streams, us)))
  }

  /** The new list is the old one followed by units of the given values. */
  ghost predicate Appended(before: seq<Unit>, after: seq<Unit>, values: seq<UnitValue>)
    reads after
  {
    |after| == |before| + |values| && after[..|before|] == before && Values(after[|before|..]) == values
  }

  lemma AppendedJoin(a: seq<Unit>, b: seq<Unit>, c: seq<Unit>, v: seq<UnitValue>, w: seq<UnitValue>)
    requires Appended(a, b, v) && Appended(b, c, w)
    ensures Appended(a, c, v + w)
    ensures |a| <= |b| <= |c| && c[..|a|] == a && c[|a|..] == b[|a|..] + c[|b|..]
  {
    assert c[..|a|] == c[..|b|][..|a|];
    assert Values(c[|a|..]) == Values(b[|a|..]) + Values(c[|b|..]);
  }

  lemma AppendedKeeps(a: seq<Unit>, b: seq<Unit>, v: seq<UnitValue>)
    requires Appended(a, b, v)
    ensures |a| <= |b| && b[..|a|] == a
  {
  }

  lemma UnitsInThree(p: T.Program)
    ensures UnitsOfProgram(p) == ([PatUnit(p)] + [PmtUnit(p)]) + UnitsFor(p, Schedule(p), false)
  {
    hide UnitsFor, PatUnit, PmtUnit;
  }

  /** Every iterator has what is left of its stream in front of it. */
  ghost predicate At(sts: seq<T.Elementary>, current: seq<nat>, qs: Queues) {
    && |current| == |qs| == |sts|
    && forall i :: 0 <= i < |sts| ==> current[i] <= |sts[i].packets| && qs[i] == sts[i].packets[current[i]..]
  }

  lemma AtStart(sts: seq<T.Elementary>)
    ensures forall p: T.Program :: p.streams == sts ==> At(sts, seq(|sts|, i => 0), QueuesOf(p))
  {
  }

  lemma SendingShape(p: T.Program, qs: Queues, made: seq<UnitValue>, recorded: bool)
    requires Sending(p, qs, made, recorded)
    ensures |qs| == |p.streams| && InRange(Accepted(Schedule(p)), |p.streams|)
  {
  }

  lemma AtNext(sts: seq<T.Elementary>, current: seq<nat>, qs: Queues, i: nat)
    requires At(sts, current, qs) && i < |qs| && qs[i] != []
    ensures |current| == |qs| == |sts|
    ensures current[i] < |sts[i].packets| && qs[i][0] == sts[i].packets[current[i]]
    ensures At(sts, current[i := current[i] + 1], qs[i := qs[i][1..]])
  {
    assert qs[i] == sts[i].packets[current[i]..];
    assert qs[i][1..] == sts[i].packets[current[i] + 1..];
  }

  /** The units made so far, and those for the packets still to be sent, are all that the schedule asks for. */
  ghost predicate Plan(p: T.Program, sent: seq<Sent>, made: seq<UnitValue>, recorded: bool) {
    && InRange(sent, |p.streams|) && InRange(Accepted(sent), |p.streams|) && InRange(Accepted(Schedule(p)), |p.streams|)
    && UnitsFor(p, Accepted(Schedule(p)), false) == made + UnitsFor(p, Accepted(sent), recorded)
    && AnyRefused(Schedule(p)) == AnyRefused(sent)
  }

  ghost predicate Sending(p: T.Program, qs: Queues, made: seq<UnitValue>, recorded: bool) {
    |qs| == |p.streams| && Plan(p, Order(qs), made, recorded)
  }

  lemma SendingStarts(p: T.Program)
    ensures Sending(p, QueuesOf(p), [], false)
  {
    AcceptedAll(Schedule(p));
    var units := UnitsFor(p, Accepted(Schedule(p)), false);
    assert [] + units == units;
  }

  lemma SendingStops(p: T.Program, qs: Queues, made: seq<UnitValue>, recorded: bool)
    requires Sending(p, qs, made, recorded)
    ensures Pick(qs, |qs|) < 0 ==> UnitsFor(p, Accepted(Schedule(p)), false) == made && !AnyRefused(Schedule(p))
  {
    assert made + [] == made;
  }

  lemma PlanRefused(p: T.Program, first: Sent, rest: seq<Sent>, made: seq<UnitValue>, recorded: bool)
    requires Plan(p, [first] + rest, made, recorded) && E.Refused(first.pes)
    ensures UnitsFor(p, Accepted(Schedule(p)), false) == made && AnyRefused(Schedule(p))
  {
    assert made + UnitsFor(p, [], recorded) == made;
    hide E.Refused, Schedule, UnitsFor, Accepted, AnyRefused, InRange;
    FirstOf(first, rest, |p.streams|);
  }

  lemma PlanSent(p: T.Program, first: Sent, rest: seq<Sent>, made: seq<UnitValue>, recorded: bool)
    requires Plan(p, [first] + rest, made, recorded) && !E.Refused(first.pes) && first.stream < |p.streams|
    ensures
      var clock := p.pcrPid == p.streams[first.stream].pid && !recorded;
      Plan(p, rest, made + [UnitFor(p.streams[first.stream], first.pes, clock)], recorded || clock)
  {
    hide E.Refused, Schedule, UnitsFor, UnitFor, Accepted, AnyRefused, InRange;
    FirstOf(first, rest, |p.streams|);
    UnitsForFirst(p, first, Accepted(rest), recorded);
    var clock := p.pcrPid == p.streams[first.stream].pid && !recorded;
    var unit := UnitFor(p.streams[first.stream], first.pes, clock);
    var more := UnitsFor(p, Accepted(rest), recorded || clock);
    assert made + ([unit] + more) == made + [unit] + more;
  }

  lemma OrderFirst(qs: Queues)
    requires Pick(qs, |qs|) >= 0
    ensures var i := Pick(qs, |qs|); Order(qs) == [Sent(i, qs[i][0])] + Order(qs[i := qs[i][1..]])
  {
    RemainingDrops(qs, Pick(qs, |qs|));
  }

  lemma SendingNext(p: T.Program, qs: Queues, made: seq<UnitValue>, recorded: bool)
    requires Sending(p, qs, made, recorded) && Pick(qs, |qs|) >= 0
    ensures
      var i := Pick(qs, |qs|);
      var clock := p.pcrPid == p.streams[i].pid && !recorded;
      if E.Refused(qs[i][0]) then UnitsFor(p, Accepted(Schedule(p)), false) == made && AnyRefused(Schedule(p))
      else Sending(p, qs[i := qs[i][1..]], made + [UnitFor(p.streams[i], qs[i][0], clock)], recorded || clock)
  {
    hide E.Refused, UnitFor, Plan, Order, Pick, UnitsFor, Schedule, Accepted, AnyRefused, InRange;
    var i := Pick(qs, |qs|);
    OrderFirst(qs);
    if E.Refused(qs[i][0]) {
      PlanRefused(p, Sent(i, qs[i][0]), Order(qs[i := qs[i][1..]]), made, recorded);
    } else {
      PlanSent(p, Sent(i, qs[i][0]), Order(qs[i := qs[i][1..]]), made, recorded);
    }
  }

  lemma UnitsForFirst(p: T.Program, first: Sent, more: seq<Sent>, recorded: bool)
    requires InRange([first] + more, |p.streams|) && InRange(more, |p.streams|) && first.stream < |p.streams|
    ensures
      var st := p.streams[first.stream];
      var clock := p.pcrPid == st.pid && !recorded;
      UnitsFor(p, [first] + more, recorded) == [UnitFor(st, first.pes, clock)] + UnitsFor(p, more, recorded || clock)
  {
    hide UnitFor;
    assert ([first] + more)[1..] == more;
  }

  lemma FirstOf(first: Sent, sent: seq<Sent>, n: nat)
    requires InRange([first] + sent, n) && InRange(Accepted([first] + sent), n)
    ensures InRange(sent, n) && InRange(Accepted(sent), n)
    ensures Accepted([first] + sent) == if E.Refused(first.pes) then [] else [first] + Accepted(sent)
    ensures AnyRefused([first] + sent) <==> E.Refused(first.pes) || AnyRefused(sent)
  {
    hide E.Refused;
    assert ([first] + sent)[1..] == sent;
    AcceptedAll(sent);
    assert forall a :: 0 <= a < |sent| ==> ([first] + sent)[a + 1] == sent[a];
    assert ([first] + sent)[0] == first;
  }
}

/** The program object itself. */
module TsStreams {
  import opened Words
  import opened Bytestreams
  import opened UnitLists
  import A = ProgramAssociation
  import M = ProgramMap
  import E = PesPackets
  import T = StreamTable
  import opened Scheduler
  import V = ProgramUnits

  class TsStream {
    var programPid: int
    var pcrPid: int
    var descriptor: M.Descriptor
    var streams: seq<T.Elementary>

    constructor ()
      ensures Value() == T.EMPTY
    {
      programPid, pcrPid, descriptor, streams := 0, 0, M.NO_DESCRIPTOR, [];
    }

    function Value(): T.Program
      reads this
    {
      T.Program(programPid, pcrPid, descriptor, streams)
    }

    method Lookup(pid: int) returns (i: int)
      ensures i == T.Lookup(streams, pid)
    {
      i := 0;
      while i < |streams|
        invariant 0 <= i <= |streams| && forall j :: 0 <= j < i ==> streams[j].pid != pid
      {
        if streams[i].pid == pid {
          T.LookupIs(streams, pid, i);
          return;
        }
        i := i + 1;
      }
      i := -1;
    }

    /** The place of the stream of a PID, which is made if there is none. */
    method Create(pid: int) returns (i: int)
      modifies this`streams
      ensures streams == T.Create(old(streams), pid)
      ensures i == T.Lookup(streams, pid) && 0 <= i < |streams|
    {
      T.CreateFinds(streams, pid);
      i := Lookup(pid);
      if i < 0 {
        i := |streams|;
        streams := streams + [T.NewStream(pid)];
      }
    }

    method PackPat(units: Units) returns (n: Status)
      modifies units
      ensures n == if programPid == 0 then Error else Success
      ensures V.Appended(old(units.list), units.list, if programPid == 0 then [] else [V.PatUnit(Value())])
      ensures forall u :: u in units.list[|old(units.list)|..] ==> fresh(u)
    {
      hide A.Encode;
      if programPid == 0 {
        return Error;
      }
      var unit := new Unit(0, 0);
      var bytes;
      n, bytes := A.PackPat(A.Pat(0, 1, 0, 1, Pid13(programPid)), false);
      unit.data := bytes;
      units.list := units.list + [unit];
    }

    method PackPmt(units: Units) returns (n: Status)
      modifies units
      ensures n == if programPid == 0 || V.PmtRefused(Value()) then Error else Success
      ensures V.Appended(old(units.list), units.list, if n == Error then [] else [V.PmtUnit(Value())])
      ensures forall u :: u in units.list[|old(units.list)|..] ==> fresh(u)
    {
      hide M.Encode, M.Data, M.S.Refused;
      if programPid == 0 {
        return Error;
      }
      var entries: seq<M.PmtStream> := [];
      for i := 0 to |streams|
        invariant entries == V.EntriesFor(streams)[..i]
      {
        entries := entries + [M.PmtStream(streams[i].streamType, Pid13(streams[i].pid), streams[i].descriptor)];
      }
      var pmt := M.Pmt(2, 1, 0, Pid13(if pcrPid != 0 then pcrPid else 0x1fff), descriptor, entries);
      assert pmt == V.PmtFor(Value());
      var unit := new Unit(Pid13(programPid), 0);
      var bytes;
      n, bytes := M.PackPmt(pmt, false);
      if n == Error {
        return;
      }
      unit.data := bytes;
      units.list := units.list + [unit];
    }

    /** The first of the iterators whose current packet has the least time stamp, or -1. */
    method PickNext(current: seq<nat>, ghost qs: Queues) returns (i_min: int)
      requires V.At(streams, current, qs)
      ensures i_min == Pick(qs, |qs|)
    {
      i_min := -1;
      for i := 0 to |streams|
        invariant i_min == Pick(qs, i)
      {
        assert qs[i] == streams[i].packets[current[i]..];
        if i_min >= 0 {
          assert qs[i_min] == streams[i_min].packets[current[i_min]..];
        }
        if current[i] != |streams[i].packets| && streams[i].packets[current[i]].ptsFlag == 1
           && (i_min == -1 || streams[i].packets[current[i]].pts < streams[i_min].packets[current[i_min]].pts) {
          i_min := i;
        }
      }
    }

    /** The unit of one packet. */
    method MakeUnit(i: nat, pes: E.Pes, clock: bool) returns (n: Status, unit: Unit)
      requires i < |streams|
      ensures fresh(unit) && n == if E.Refused(pes) then Error else Success
      ensures n == Success ==> unit.Value() == UnitFor(streams[i], pes, clock)
    {
      hide E.Encode, E.Refused;
      unit := new Unit(Pid13(streams[i].pid), pes.randomAccess);
      if clock {
        unit.pcrFlag := 1;
        unit.pcr := (pes.pts * 300) % 0x1_0000_0000_0000_0000;
      }
      var s := new Bytestream.OfBuffer([], false);
      n := E.PackPes(pes, s);
      assert [] + E.Encode(pes) == E.Encode(pes);
      unit.data := s.data;
    }

    /** ts_stream_pack_pes: the merge of the streams by time stamp. It stops when no stream has a stamped packet next,
        or when a packet is refused. */
    method PackPes(units: Units) returns (n: Status)
      modifies units
      ensures n == if AnyRefused(Schedule(Value())) then Error else Success
      ensures InRange(Accepted(Schedule(Value())), |streams|)
      ensures V.Appended(old(units.list), units.list, UnitsFor(Value(), Accepted(Schedule(Value())), false))
      ensures forall u :: u in units.list[|old(units.list)|..] ==> fresh(u)
    {
      hide V.Sending, V.At, E.Refused, UnitFor, Order, Accepted, AnyRefused, UnitsFor;
      ghost var p := Value();
      V.SendingStarts(p);
      var current := seq(|streams|, i => 0);
      ghost var qs, added: seq<Unit> := QueuesOf(p), [];
      V.AtStart(streams);
      var pcrRecorded := false;
      while true
        invariant V.At(streams, current, qs) && V.Sending(p, qs, Values(added), pcrRecorded)
        invariant units.list == old(units.list) + added && (forall u :: u in added ==> fresh(u))
        decreases Remaining(qs)
      {
        V.SendingShape(p, qs, Values(added), pcrRecorded);
        var i_min := PickNext(current, qs);
        if i_min == -1 {
          V.SendingStops(p, qs, Values(added), pcrRecorded);
          break;
        }
        RemainingDrops(qs, i_min);
        V.SendingNext(p, qs, Values(added), pcrRecorded);
        V.AtNext(streams, current, qs, i_min);
        var pes := streams[i_min].packets[current[i_min]];
        current := current[i_min := current[i_min] + 1];
        qs := qs[i_min := qs[i_min][1..]];
        var clock := pcrPid == streams[i_min].pid && !pcrRecorded;
        var unit;
        n, unit := MakeUnit(i_min, pes, clock);
        if n == Error {
          return;
        }
        pcrRecorded := pcrRecorded || clock;
        assert Values(added + [unit]) == Values(added) + [unit.Value()];
        units.list := units.list + [unit];
        added := added + [unit];
      }
      n := Success;
    }

    /** ts_stream_pack. */
    method Pack(units: Units) returns (n: Status)
      modifies units
      ensures n == if V.Packs(Value()) then Success else Error
      ensures n == Success ==> V.Appended(old(units.list), units.list, V.UnitsOfProgram(Value()))
      ensures |old(units.list)| <= |units.list| && units.list[..|old(units.list)|] == old(units.list)
      ensures forall u :: u in units.list[|old(units.list)|..] ==> fresh(u)
    {
      hide V.PatUnit, V.PmtUnit, UnitsFor, V.PmtRefused, V.Appended, V.UnitsOfProgram, Accepted, Schedule, AnyRefused;
      ghost var before, p := units.list, Value();
      AcceptedAll(Schedule(p));
      V.UnitsInThree(p);
      n := PackPat(units);
      if n == Error {
        V.AppendedKeeps(before, units.list, []);
        return;
      }
      ghost var one := units.list;
      n := PackPmt(units);
      ghost var two := units.list;
      if n == Error {
        V.AppendedJoin(before, one, two, [V.PatUnit(p)], []);
        return;
      }
      V.AppendedJoin(before, one, two, [V.PatUnit(p)], [V.PmtUnit(p)]);
      n := PackPes(units);
      V.AppendedJoin(before, two, units.list, [V.PatUnit(p)] + [V.PmtUnit(p)],
                     UnitsFor(p, Accepted(Schedule(p)), false));
    }

    method UnpackPat(units: Units) returns (n: Status)
      modifies this`programPid
      ensures
        var f := V.UnpackPat(old(Value()), Values(units.list));
        Value() == f.program && n == if f.ok then Success else Error
    {
      hide A.Decode;
      ghost var us, all := Values(units.list), V.UnpackPat(Value(), Values(units.list));
      assert us[0..] == us;
      for i := 0 to |units.list|
        invariant Value() == old(Value()).(programPid := programPid)
        invariant all == V.UnpackPat(Value(), us[i..])
      {
        assert us[i..][0] == us[i] && us[i..][1..] == us[i + 1..];
        if units.list[i].pid == 0 {
          var s := new Bytestream.OfBuffer(units.list[i].data, true);
          var pat;
          n, pat := A.UnpackPat(s);
          if n == Error {
            return;
          }
          if programPid == 0 {
            programPid := pat.programPid;
          }
          if programPid != pat.programPid {
            return Error;
          }
        }
      }
      n := Success;
    }

    /** One entry of a program map table, folded into the streams. */
    method MergeEntry(entry: M.PmtStream) returns (ok: bool)
      modifies this`streams
      ensures var m := T.MergeEntry(old(streams), entry); streams == m.streams && ok == m.ok
    {
      T.CreateFinds(streams, entry.pid);
      var i := Create(entry.pid);
      ghost var all := streams;
      assert all[i := all[i]] == all;
      if streams[i].streamType == 0 {
        streams := streams[i := streams[i].(streamType := entry.streamType)];
      }
      if streams[i].streamType != entry.streamType {
        return false;
      }
      if M.DescriptorSize(streams[i].descriptor) == 0 && M.DescriptorSize(entry.descriptor) != 0 {
        streams := streams[i := streams[i].(descriptor := entry.descriptor)];
      }
      ok := M.DescriptorEqual(streams[i].descriptor, entry.descriptor);
    }

    /** One program map table, folded into the program. */
    method MergePmt(pmt: M.Pmt) returns (ok: bool)
      modifies this`pcrPid, this`streams
      ensures var f := T.MergePmt(old(Value()), pmt); Value() == f.program && ok == f.ok
    {
      hide T.MergeEntry;
      if pcrPid == 0 {
        pcrPid := pmt.pcrPid;
      }
      if pcrPid != pmt.pcrPid {
        return false;
      }
      ghost var m := T.MergeEntries(streams, pmt.streams);
      assert pmt.streams[0..] == pmt.streams;
      for i := 0 to |pmt.streams|
        invariant pcrPid == pmt.pcrPid && m == T.MergeEntries(streams, pmt.streams[i..])
      {
        assert pmt.streams[i..][0] == pmt.streams[i] && pmt.streams[i..][1..] == pmt.streams[i + 1..];
        ok := MergeEntry(pmt.streams[i]);
        if !ok {
          return;
        }
      }
      ok := true;
    }

    method UnpackPmt(units: Units) returns (n: Status)
      modifies this`pcrPid, this`streams
      ensures
        var f := V.UnpackPmt(old(Value()), Values(units.list));
        Value() == f.program && n == if f.ok then Success else Error
    {
      hide M.Decode, T.MergePmt;
      if programPid == 0 {
        return Error;
      }
      ghost var us, all := Values(units.list), V.UnpackPmts(Value(), Values(units.list));
      assert us[0..] == us;
      for i := 0 to |units.list|
        invariant Values(units.list) == us && Value().programPid == old(programPid)
        invariant all == V.UnpackPmts(Value(), us[i..])
      {
        assert us[i..][0] == us[i] && us[i..][1..] == us[i + 1..];
        if units.list[i].pid == programPid {
          var s := new Bytestream.OfBuffer(units.list[i].data, true);
          var pmt;
          n, pmt := M.UnpackPmt(s);
          if n == Error {
            return;
          }
          var ok := MergePmt(pmt);
          if !ok {
            return Error;
          }
        }
      }
      n := Success;
    }

    method UnpackPes(units: Units)
      modifies this`streams
      ensures streams == V.AllWithPes(old(streams), Values(units.list))
    {
      ghost var us, sts := Values(units.list), streams;
      ghost var all := V.AllWithPes(sts, us);
      V.AllWithPesAt(sts, us);
      hide V.WithPes, V.AllWithPes;
      for k := 0 to |streams|
        invariant |streams| == |all|
        invariant forall i :: 0 <= i < k ==> streams[i] == all[i]
        invariant forall i :: k <= i < |all| ==> streams[i] == sts[i]
      {
        UnpackPesOf(k, units);
      }
    }

    /** The inner loop of ts_stream_unpack_pes. */
    method UnpackPesOf(k: nat, units: Units)
      requires k < |streams|
      modifies this`streams
      ensures streams == old(streams)[k := V.WithPes(old(streams)[k], Values(units.list))]
    {
      hide V.PesOf;
      ghost var us, st := Values(units.list), streams[k];
      assert st.packets + [] == st.packets;
      for j := 0 to |units.list|
        invariant streams == old(streams)[k := st.(packets := st.packets + V.PesIn(us[..j], st.pid))]
      {
        ghost var before := V.PesIn(us[..j], st.pid);
        assert us[..j + 1][..j] == us[..j] && us[..j + 1][j] == us[j];
        var found := PesOf(units.list[j], streams[k].pid);
        streams := streams[k := streams[k].(packets := streams[k].packets + found)];
        assert st.packets + (before + found) == st.packets + before + found;
      }
      assert us[..|us|] == us;
    }

    /** The packet in a unit of a PID, if there is one that parses. */
    method PesOf(u: Unit, pid: int) returns (found: seq<E.Pes>)
      ensures found == V.PesOf(u.Value(), pid)
    {
      hide E.Decode;
      found := [];
      if u.pid == pid {
        var s := new Bytestream.OfBuffer(u.data, true);
        assert s.In() == Open(u.data);
        var n, pes := E.UnpackPes(s);
        E.DecodeStatus(Open(u.data));
        if n != Error {
          found := [pes.(randomAccess := u.randomAccess)];
        }
      }
    }

    /** ts_stream_unpack. */
    method Unpack(units: Units) returns (n: Status)
      modifies this
      ensures
        var f := V.Unpack(old(Value()), Values(units.list));
        Value() == f.program && n == if f.ok then Success else Error
    {
      hide V.UnpackPat, V.UnpackPmt;
      n := UnpackPat(units);
      if n != Error {
        n := UnpackPmt(units);
      }
      if n != Error {
        UnpackPes(units);
      }
    }
  }
}
