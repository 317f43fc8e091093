/** The order in which the packets of several elementary streams are sent (ts_stream_pack_pes in src/ts/ts_stream.c). */
module Scheduler {
  import opened Words
  import opened Bytestreams
  import opened UnitLists
  import P = TsPackets
  import E = PesPackets
  import T = StreamTable

  type Queues = seq<seq<E.Pes>>

  /** A packet and the stream it was taken from. */
  datatype Sent = Sent(stream: nat, pes: E.Pes)

  // ---- picking ----

  /** A queue takes part while its first packet has a time stamp. */
  predicate Ready(q: seq<E.Pes>) {
    q != [] && q[0].ptsFlag == 1
  }

  /** The first of the queues below n whose head has the least time stamp, or -1. */
  function Pick(qs: Queues, n: nat): (i: int)
    requires n <= |qs|
    ensures -1 <= i < n
    ensures i >= 0 ==> Ready(qs[i])
  {
    if n == 0 then -1
    else
      var best := Pick(qs, n - 1);
      if Ready(qs[n - 1]) && (best == -1 || qs[n - 1][0].pts < qs[best][0].pts) then n - 1 else best
  }

  lemma {:induction false} PickIsLeast(qs: Queues, n: nat)
    requires n <= |qs|
    ensures
      var i := Pick(qs, n);
      && (i < 0 ==> forall j :: 0 <= j < n ==> !Ready(qs[j]))
      && (i >= 0 ==> forall j :: 0 <= j < n && Ready(qs[j]) ==>
                       qs[i][0].pts <= qs[j][0].pts && (j < i ==> qs[i][0].pts < qs[j][0].pts))
  {
    if n > 0 {
      PickIsLeast(qs, n - 1);
    }
  }

  /** How many packets are still queued. */
  function Remaining(qs: Queues): nat {
    if qs == [] then 0 else Remaining(qs[..|qs| - 1]) + |qs[|qs| - 1]|
  }

  lemma {:induction false} RemainingDrops(qs: Queues, i: nat)
    requires i < |qs| && qs[i] != []
    ensures Remaining(qs[i := qs[i][1..]]) == Remaining(qs) - 1
    decreases |qs|
  {
    var rs := qs[i := qs[i][1..]];
    var last := |qs| - 1;
    if i == last {
      assert rs[..last] == qs[..last];
    } else {
      assert rs[..last] == qs[..last][i := qs[i][1..]];
      RemainingDrops(qs[..last], i);
    }
  }

  /** Everything that is sent, in order. */
  function Order(qs: Queues): seq<Sent>
    decreases Remaining(qs)
  {
    var i := Pick(qs, |qs|);
    if i < 0 then []
    else
      RemainingDrops(qs, i);
      [Sent(i, qs[i][0])] + Order(qs[i := qs[i][1..]])
  }

  // ---- what is sent ----

  /** The longest prefix of packets that have a time stamp. */
  function Stamped(q: seq<E.Pes>): seq<E.Pes> {
    if Ready(q) then [q[0]] + Stamped(q[1..]) else []
  }

  /** What was sent for one stream. */
  function SentFor(sent: seq<Sent>, i: nat): seq<E.Pes> {
    if sent == [] then []
    else (if sent[0].stream == i then [sent[0].pes] else []) + SentFor(sent[1..], i)
  }

  /** The schedule sends of every stream exactly its longest stamped prefix, in the stream's own order. */
  lemma {:induction false} SendsStampedPrefixes(qs: Queues, i: nat)
    requires i < |qs|
    ensures SentFor(Order(qs), i) == Stamped(qs[i])
    decreases Remaining(qs)
  {
    var k := Pick(qs, |qs|);
    PickIsLeast(qs, |qs|);
    if k >= 0 {
      var rest := qs[k := qs[k][1..]];
      RemainingDrops(qs, k);
      SendsStampedPrefixes(rest, i);
      assert Order(qs)[1..] == Order(rest);
    }
  }

  lemma {:induction false} StreamsInRange(qs: Queues)
    ensures forall a :: 0 <= a < |Order(qs)| ==>
                          Order(qs)[a].stream < |qs| && Order(qs)[a].pes in Stamped(qs[Order(qs)[a].stream])
    decreases Remaining(qs)
  {
    var k := Pick(qs, |qs|);
    if k >= 0 {
      var rest := qs[k := qs[k][1..]];
      RemainingDrops(qs, k);
      StreamsInRange(rest);
      assert Stamped(qs[k]) == [qs[k][0]] + Stamped(rest[k]);
    }
  }

  // ---- order ----

  predicate Nondecreasing(q: seq<E.Pes>) {
    forall a, b :: 0 <= a < b < |q| ==> q[a].pts <= q[b].pts
  }

  /** Earlier time stamps go first; of equal ones, the earlier stream. */
  predicate Before(x: Sent, y: Sent) {
    x.pes.pts < y.pes.pts || (x.pes.pts == y.pes.pts && x.stream <= y.stream)
  }

  predicate Ordered(sent: seq<Sent>) {
    forall a, b :: 0 <= a < b < |sent| ==> Before(sent[a], sent[b])
  }

  lemma {:induction false} StampedOfTail(q: seq<E.Pes>)
    requires Ready(q) && Nondecreasing(Stamped(q))
    ensures Nondecreasing(Stamped(q[1..]))
    ensures forall p :: p in Stamped(q) ==> q[0].pts <= p.pts
  {
    var s := Stamped(q);
    assert s[1..] == Stamped(q[1..]) && s[0] == q[0];
    forall p | p in s
      ensures q[0].pts <= p.pts
    {
      var a :| 0 <= a < |s| && s[a] == p;
      assert s[0].pts <= s[a].pts;
    }
    forall a, b | 0 <= a < b < |s[1..]|
      ensures s[1..][a].pts <= s[1..][b].pts
    {
      assert s[a + 1].pts <= s[b + 1].pts;
    }
  }

  lemma StampedIsReady(q: seq<E.Pes>, p: E.Pes)
    requires p in Stamped(q)
    ensures Ready(q)
  {
  }

  /** If every stamped prefix is nondecreasing in time, so is the schedule, and ties go to the earlier stream. */
  lemma {:induction false} ScheduleIsOrdered(qs: Queues)
    requires forall i :: 0 <= i < |qs| ==> Nondecreasing(Stamped(qs[i]))
    ensures Ordered(Order(qs))
    decreases Remaining(qs)
  {
    var k := Pick(qs, |qs|);
    PickIsLeast(qs, |qs|);
    if k >= 0 {
      var rest := qs[k := qs[k][1..]];
      var first, sent := Sent(k, qs[k][0]), Order(rest);
      RemainingDrops(qs, k);
      StampedOfTail(qs[k]);
      ScheduleIsOrdered(rest);
      StreamsInRange(rest);
      forall b | 0 <= b < |sent|
        ensures Before(first, sent[b])
      {
        var i, p := sent[b].stream, sent[b].pes;
        StampedIsReady(rest[i], p);
        if i == k {
          assert Stamped(qs[k]) == [qs[k][0]] + Stamped(rest[k]);
          assert p in Stamped(qs[k]);
        } else {
          StampedOfTail(qs[i]);
        }
      }
      assert Order(qs) == [first] + sent;
    }
  }

  // ---- units ----

  /** A 13-bit field keeps the low bits of an int. */
  function Pid13(pid: int): P.Pid {
    pid % 0x2000
  }

  /** The unit of a packet; the source multiplies the time stamp by 300 in 64 bits. */
  function UnitFor(st: T.Elementary, pes: E.Pes, clock: bool): UnitValue {
    UnitValue(Pid13(st.pid), pes.randomAccess, if clock then 1 else 0,
              if clock then (pes.pts * 300) % 0x1_0000_0000_0000_0000 else 0, E.Encode(pes))
  }

  predicate InRange(sent: seq<Sent>, n: nat) {
    forall a :: 0 <= a < |sent| ==> sent[a].stream < n
  }

  /** The units of what is sent; the clock goes into the first unit of the clock PID. */
  function UnitsFor(p: T.Program, sent: seq<Sent>, recorded: bool): seq<UnitValue>
    requires InRange(sent, |p.streams|)
  {
    if sent == [] then []
    else
      var st := p.streams[sent[0].stream];
      var clock := p.pcrPid == st.pid && !recorded;
      [UnitFor(st, sent[0].pes, clock)] + UnitsFor(p, sent[1..], recorded || clock)
  }

  predicate AnyRefused(sent: seq<Sent>) {
    exists a :: 0 <= a < |sent| && E.Refused(sent[a].pes)
  }

  /** What is sent before the first packet that the PES packer refuses. */
  function Accepted(sent: seq<Sent>): seq<Sent> {
    if sent == [] || E.Refused(sent[0].pes) then [] else [sent[0]] + Accepted(sent[1..])
  }

  lemma {:induction false} AcceptedAll(sent: seq<Sent>)
    ensures Accepted(sent) == sent <==> !AnyRefused(sent)
    ensures forall n: nat :: InRange(sent, n) ==> InRange(Accepted(sent), n)
  {
    hide E.Refused;
    if sent != [] {
      AcceptedAll(sent[1..]);
      if E.Refused(sent[0].pes) {
        assert Accepted(sent) == [];
      } else {
        assert Accepted(sent)[1..] == Accepted(sent[1..]);
        assert forall a :: 0 < a < |sent| ==> sent[a] == sent[1..][a - 1];
      }
      forall n: nat | InRange(sent, n)
        ensures InRange(Accepted(sent), n)
      {
        assert InRange(sent[1..], n);
      }
    }
  }

  function QueuesOf(p: T.Program): (qs: Queues)
    ensures |qs| == |p.streams|
  {
    seq(|p.streams|, i requires 0 <= i < |p.streams| => p.streams[i].packets)
  }

  /** Everything a program sends. */
  function Schedule(p: T.Program): (sent: seq<Sent>)
    ensures InRange(sent, |p.streams|)
  {
    StreamsInRange(QueuesOf(p));
    Order(QueuesOf(p))
  }

  lemma {:induction false} SentForMember(sent: seq<Sent>, i: nat, pes: E.Pes)
    requires pes in SentFor(sent, i)
    ensures exists a :: 0 <= a < |sent| && sent[a].pes == pes
  {
    if sent[0].stream == i && sent[0].pes == pes {
      assert sent[0].pes == pes;
    } else {
      SentForMember(sent[1..], i, pes);
      var a :| 0 <= a < |sent[1..]| && sent[1..][a].pes == pes;
      assert sent[a + 1].pes == pes;
    }
  }

  /** Packing meets a packet that is refused exactly when one is in the longest stamped prefix of some stream. */
  lemma RefusesExactly(p: T.Program)
    ensures AnyRefused(Schedule(p)) <==>
            exists i, k :: 0 <= i < |p.streams| && 0 <= k < |Stamped(p.streams[i].packets)| &&
                           E.Refused(Stamped(p.streams[i].packets)[k])
  {
    hide Order, E.Refused, Stamped;
    var qs, sent := QueuesOf(p), Schedule(p);
    StreamsInRange(qs);
    if AnyRefused(sent) {
      var a :| 0 <= a < |sent| && E.Refused(sent[a].pes);
      var i := sent[a].stream;
      assert sent[a].pes in Stamped(p.streams[i].packets);
    }
    if i, k :| 0 <= i < |p.streams| && 0 <= k < |Stamped(p.streams[i].packets)| &&
               E.Refused(Stamped(p.streams[i].packets)[k])
    {
      SendsStampedPrefixes(qs, i);
      SentForMember(sent, i, Stamped(p.streams[i].packets)[k]);
    }
  }

  /** The first unit of the clock PID, and no other, carries the clock, and its value is the packet's time stamp times
      300, in 64 bits. */
  lemma {:induction false} OneClock(p: T.Program, sent: seq<Sent>, recorded: bool, a: nat)
    requires InRange(sent, |p.streams|) && a < |sent|
    ensures |UnitsFor(p, sent, recorded)| == |sent|
    ensures
      var u := UnitsFor(p, sent, recorded)[a];
      && (u.pcrFlag == 1 <==>
          && !recorded && p.streams[sent[a].stream].pid == p.pcrPid
          && forall b :: 0 <= b < a ==> p.streams[sent[b].stream].pid != p.pcrPid)
      && u.pcr == if u.pcrFlag == 1 then sent[a].pes.pts * 300 % 0x1_0000_0000_0000_0000 else 0
  {
    hide E.Encode;
    UnitsLength(p, sent, recorded);
    if a > 0 {
      var clock := p.pcrPid == p.streams[sent[0].stream].pid && !recorded;
      OneClock(p, sent[1..], recorded || clock, a - 1);
      assert sent[1..][a - 1] == sent[a];
      assert forall b :: 0 < b < a ==> sent[b] == sent[1..][b - 1];
      assert forall b :: 0 <= b < a - 1 ==> sent[1..][b] == sent[b + 1];
    }
  }

  lemma {:induction false} UnitsLength(p: T.Program, sent: seq<Sent>, recorded: bool)
    requires InRange(sent, |p.streams|)
    ensures |UnitsFor(p, sent, recorded)| == |sent|
  {
    hide E.Encode;
    if sent != [] {
      UnitsLength(p, sent[1..], recorded || (p.pcrPid == p.streams[sent[0].stream].pid && !recorded));
    }
  }
}
