/** A list of packets with its continuity counters (src/ts/ts_packets.c). */
module PacketLists {
  import opened Words
  import opened Bytestreams
  import opened P = TsPackets

  datatype Counter = Counter(pid: Pid, value: nat)

  // ---- the counter table ----

  predicate DistinctPids(cs: seq<Counter>) {
    forall i, j :: 0 <= i < j < |cs| ==> cs[i].pid != cs[j].pid
  }

  /** The value held for a PID; a PID that is not in the table is about to enter it with zero. */
  function Value(cs: seq<Counter>, pid: Pid): nat {
    if cs == [] then 0 else if cs[0].pid == pid then cs[0].value else Value(cs[1..], pid)
  }

  lemma {:induction false} ValueAt(cs: seq<Counter>, i: nat)
    requires DistinctPids(cs) && i < |cs|
    ensures Value(cs, cs[i].pid) == cs[i].value
  {
    if i > 0 {
      ValueAt(cs[1..], i - 1);
    }
  }

  lemma {:induction false} ValueOfAbsent(cs: seq<Counter>, pid: Pid)
    requires forall i :: 0 <= i < |cs| ==> cs[i].pid != pid
    ensures Value(cs, pid) == 0
    ensures forall c: Counter :: Value(cs + [c], pid) == (if c.pid == pid then c.value else 0)
  {
    if cs != [] {
      ValueOfAbsent(cs[1..], pid);
      forall c: Counter
        ensures Value(cs + [c], pid) == (if c.pid == pid then c.value else 0)
      {
        assert (cs + [c])[1..] == cs[1..] + [c];
      }
    }
  }

  lemma {:induction false} ValueOfOther(cs: seq<Counter>, c: Counter, pid: Pid)
    requires pid != c.pid
    ensures Value(cs + [c], pid) == Value(cs, pid)
  {
    if cs != [] {
      assert (cs + [c])[1..] == cs[1..] + [c];
      ValueOfOther(cs[1..], c, pid);
    }
  }

  lemma {:induction false} ValueAfterUpdate(cs: seq<Counter>, i: nat, v: nat, pid: Pid)
    requires DistinctPids(cs) && i < |cs|
    ensures Value(cs[i := Counter(cs[i].pid, v)], pid) == if pid == cs[i].pid then v else Value(cs, pid)
  {
    var ds := cs[i := Counter(cs[i].pid, v)];
    if i == 0 {
      assert ds[1..] == cs[1..];
    } else {
      assert ds[1..] == cs[1..][i - 1 := Counter(cs[i].pid, v)];
      ValueAfterUpdate(cs[1..], i - 1, v, pid);
    }
  }

  // ---- numbering ----

  function Announces(p: Packet, pid: Pid): nat {
    if p.pid == pid && p.HasPayload() then 1 else 0
  }

  /** How many packets of a PID announce a payload. */
  function Announced(ps: seq<Packet>, pid: Pid): nat {
    if ps == [] then 0 else Announced(ps[..|ps| - 1], pid) + Announces(ps[|ps| - 1], pid)
  }

  /** The i-th packet with the continuity counter it gets when the table held cs before the list was packed. */
  function Numbered(cs: seq<Counter>, ps: seq<Packet>, i: nat): Packet
    requires i < |ps|
  {
    ps[i].(counter := (Value(cs, ps[i].pid) + Announced(ps[..i], ps[i].pid)) % 16)
  }

  function NumberedAll(cs: seq<Counter>, ps: seq<Packet>): (qs: seq<Packet>)
    ensures |qs| == |ps|
  {
    seq(|ps|, i requires 0 <= i < |ps| => Numbered(cs, ps, i))
  }

  /** The packets carry the counters that packing gives them: numbering changes none of them. */
  predicate CountersAgree(cs: seq<Counter>, ps: seq<Packet>) {
    forall i :: 0 <= i < |ps| ==> ps[i].counter == (Value(cs, ps[i].pid) + Announced(ps[..i], ps[i].pid)) % 16
  }

  lemma NumberingKeeps(cs: seq<Counter>, ps: seq<Packet>)
    ensures CountersAgree(cs, ps) <==> NumberedAll(cs, ps) == ps
  {
    forall i | 0 <= i < |ps| && CountersAgree(cs, ps)
      ensures NumberedAll(cs, ps)[i] == ps[i]
    {
    }
    forall i | 0 <= i < |ps| && NumberedAll(cs, ps) == ps
      ensures ps[i].counter == (Value(cs, ps[i].pid) + Announced(ps[..i], ps[i].pid)) % 16
    {
      assert NumberedAll(cs, ps)[i] == ps[i];
    }
  }

  function PreparedAll(ps: seq<Packet>): (qs: seq<Packet>)
    ensures |qs| == |ps|
  {
    seq(|ps|, i requires 0 <= i < |ps| => Prepared(ps[i]))
  }

  function EncodeAll(ps: seq<Packet>): seq<byte> {
    if ps == [] then [] else EncodeAll(ps[..|ps| - 1]) + Encode(ps[|ps| - 1])
  }

  /** The table has counted the announced payloads of the packed list, for every PID, and holds no PID twice. */
  ghost predicate Counted(before: seq<Counter>, ps: seq<Packet>, after: seq<Counter>) {
    DistinctPids(after) && forall pid: Pid :: Value(after, pid) == Value(before, pid) + Announced(ps, pid)
  }

  lemma NothingYet(cs: seq<Counter>, ps: seq<Packet>, o: Output)
    requires DistinctPids(cs)
    ensures Counted(cs, ps[..0], cs) && o == o.Add(EncodeAll(NumberedAll(cs, ps)[..0]))
  {
    if o.Buffer? {
      assert o.data + [] == o.data;
    }
  }

  lemma CounterGiven(before: seq<Counter>, ps: seq<Packet>, i: nat, now: seq<Counter>)
    requires i < |ps| && Counted(before, ps[..i], now)
    ensures DistinctPids(now) && Numbered(before, ps, i) == ps[i].(counter := Value(now, ps[i].pid) % 16)
  {
  }

  lemma CountOneMore(before: seq<Counter>, ps: seq<Packet>, i: nat, now: seq<Counter>, after: seq<Counter>)
    requires i < |ps| && Counted(before, ps[..i], now) && DistinctPids(after)
    requires forall pid: Pid :: Value(after, pid) == Value(now, pid) + Announces(ps[i], pid)
    ensures Counted(before, ps[..i + 1], after)
  {
    assert ps[..i + 1][..i] == ps[..i];
  }

  lemma CountedAll(before: seq<Counter>, ps: seq<Packet>, after: seq<Counter>)
    requires Counted(before, ps, after)
    ensures DistinctPids(after)
  {
  }

  lemma PrepareOneMore(qs: seq<Packet>, ps: seq<Packet>, i: nat)
    requires i < |qs| == |ps|
    ensures (PreparedAll(qs)[..i] + ps[i..])[i := Prepared(qs[i])] == PreparedAll(qs)[..i + 1] + ps[i + 1..]
  {
    hide Prepared;
  }

  lemma EncodeOneMore(o: Output, qs: seq<Packet>, i: nat)
    requires i < |qs|
    ensures o.Add(EncodeAll(qs[..i])).Add(Encode(qs[i])) == o.Add(EncodeAll(qs[..i + 1]))
  {
    hide Encode;
    AddAdd(o, EncodeAll(qs[..i]), Encode(qs[i]));
    assert qs[..i + 1][..i] == qs[..i];
  }

  // ---- unpacking ----

  lemma FieldDecodeShrinks(r: Input)
    ensures AF.Decode(r).rest.Size() <= r.Size()
  {
    hide AF.DecodeEbp, AF.Pcr.Decode, AF.ReadByte, ReadFlag;
    var r1 := r.Drop(1);
    var a := AF.FromFlags(r1.Number(1));
    hide AF.FromFlags;
    TimesShrink(a, r1.Drop(1));
  }

  lemma TimesShrink(a: AF.AdaptationField, r: Input)
    ensures AF.TakeTimes(a, r).rest.Size() <= r.Size()
  {
    hide AF.Pcr.Decode, AF.ReadByte;
  }

  lemma DecodeShrinks(r: Input)
    ensures Decode(r).rest.Size() <= r.Size()
    ensures Decode(r).status == Success ==> Decode(r).rest.Size() < r.Size()
  {
    hide AF.Decode, FromHeader;
    FieldDecodeShrinks(r.Drop(4));
  }

  datatype Parsed = Parsed(packets: seq<Packet>, rest: Input)

  /** Packets are read until the stream is empty or a packet does not parse. */
  function DecodeAll(r: Input): Parsed
    decreases r.Size()
  {
    if r.Size() == 0 then Parsed([], r)
    else
      var d := Decode(r);
      if d.status != Success then Parsed([], d.rest)
      else
        DecodeShrinks(r);
        var more := DecodeAll(d.rest);
        Parsed([d.packet] + more.packets, more.rest)
  }

  // ---- the list object ----

  class Packets {
    var list: seq<Packet>
    var counters: seq<Counter>

    constructor ()
      ensures list == [] && counters == []
    {
      list, counters := [], [];
    }

    method LookupCounter(pid: Pid) returns (i: nat)
      requires DistinctPids(counters)
      modifies this`counters
      ensures DistinctPids(counters) && i < |counters| && counters[i].pid == pid
      ensures counters == old(counters) || counters == old(counters) + [Counter(pid, 0)]
      ensures forall q: Pid :: Value(counters, q) == old(Value(counters, q))
    {
      i := 0;
      while i < |counters|
        invariant i <= |counters|
        invariant forall j :: 0 <= j < i ==> counters[j].pid != pid
      {
        if counters[i].pid == pid {
          return;
        }
        i := i + 1;
      }
      ghost var before := counters;
      counters := counters + [Counter(pid, 0)];
      forall q: Pid
        ensures Value(counters, q) == Value(before, q)
      {
        if q == pid {
          ValueOfAbsent(before, pid);
        } else {
          ValueOfOther(before, Counter(pid, 0), q);
        }
      }
    }

    /** Gives a packet its counter; only an announced payload moves the table on. */
    method Number(p: Packet) returns (q: Packet)
      requires DistinctPids(counters)
      modifies this`counters
      ensures DistinctPids(counters)
      ensures q == p.(counter := old(Value(counters, p.pid)) % 16)
      ensures forall pid: Pid :: Value(counters, pid) == old(Value(counters, pid)) + Announces(p, pid)
    {
      var c := LookupCounter(p.pid);
      ValueAt(counters, c);
      var v := counters[c].value;
      q := p.(counter := v % 16);
      if p.HasPayload() {
        ghost var before := counters;
        forall pid: Pid
          ensures Value(before[c := Counter(p.pid, v + 1)], pid) == Value(before, pid) + Announces(p, pid)
        {
          ValueAfterUpdate(before, c, v + 1, pid);
        }
        counters := counters[c := Counter(p.pid, v + 1)];
      }
    }

    /** Packs the whole list: every packet is numbered from the table, gets its control bits, and is written. Only a
        stream without a buffer can stop it, at the first packet. */
    method Pack(s: Bytestream) returns (count: int)
      requires DistinctPids(counters) && s.Ok()
      modifies this, s
      ensures s.Ok() && DistinctPids(counters) && s.buffered == old(s.buffered)
      ensures s.buffered || old(list) == [] ==>
                && count == |old(list)|
                && list == PreparedAll(NumberedAll(old(counters), old(list)))
                && s.Out() == old(s.Out()).Add(EncodeAll(NumberedAll(old(counters), old(list))))
                && Counted(old(counters), old(list), counters)
      ensures !s.buffered && old(list) != [] ==>
                && count == -1
                && list == [Prepared(Numbered(old(counters), old(list), 0))] + old(list)[1..]
                && Counted(old(counters), old(list)[..1], counters)
    {
      hide Encode, Prepared, Numbered, PreparedAll, EncodeAll, Announced, Counted;
      ghost var ps, cs, o := list, counters, s.Out();
      ghost var qs := NumberedAll(cs, ps);
      NothingYet(cs, ps, o);
      count := 0;
      for i := 0 to |list|
        invariant |list| == |ps| && count == i && s.Ok() && s.buffered == old(s.buffered)
        invariant i > 0 ==> s.buffered
        invariant Counted(cs, ps[..i], counters)
        invariant list == PreparedAll(qs)[..i] + ps[i..]
        invariant s.Out() == o.Add(EncodeAll(qs[..i]))
      {
        var p := list[i];
        ghost var now := counters;
        CounterGiven(cs, ps, i, now);
        p := Number(p);
        CountOneMore(cs, ps, i, now, counters);
        var n, q := PackPacket(p, s);
        PrepareOneMore(qs, ps, i);
        list := list[i := q];
        if n == Error {
          return -1;
        }
        EncodeOneMore(o, qs, i);
        count := count + 1;
      }
      assert ps[..|ps|] == ps && qs[..|qs|] == qs;
      CountedAll(cs, ps, counters);
      assert PreparedAll(qs)[..|ps|] + ps[|ps|..] == PreparedAll(qs);
    }

    method Unpack(s: Bytestream) returns (count: int)
      requires s.Ok()
      modifies this`list, s
      ensures
        var parsed := DecodeAll(old(s.In()));
        && s.Ok() && s.In() == parsed.rest
        && list == old(list) + parsed.packets
        && count == if parsed.rest.Open? then |parsed.packets| else -1
    {
      hide Decode;
      count := 0;
      ghost var all := DecodeAll(s.In());
      assert all.packets == [] + all.packets;
      ghost var got := [];
      while s.Size() != 0
        invariant s.Ok() && list == old(list) + got && count == |got|
        invariant all.packets == got + DecodeAll(s.In()).packets && all.rest == DecodeAll(s.In()).rest
        decreases s.In().Size()
      {
        DecodeShrinks(s.In());
        var n, packet := UnpackPacket(s);
        if n != Success {
          if !s.valid { count := -1; }
          assert all.packets == got;
          return;
        }
        list := list + [packet];
        got := got + [packet];
        count := count + 1;
      }
      if !s.valid {
        count := -1;
      }
    }
  }

  /** ts_packets_save without the file, for a list that has not been packed yet. */
  method PackToBytes(packets: Packets) returns (bytes: seq<byte>)
    requires packets.counters == []
    modifies packets
    ensures bytes == EncodeAll(NumberedAll([], old(packets.list)))
  {
    hide EncodeAll, NumberedAll;
    var s := new Bytestream.OfBuffer([], false);
    ghost var all := EncodeAll(NumberedAll([], packets.list));
    var count := packets.Pack(s);
    assert [] + all == all;
    bytes := s.data;
  }
}
