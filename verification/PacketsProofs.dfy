/** What the packet list guarantees: framing, round trip, and continuity over any number of pack calls. */
module PacketListProperties {
  import opened Words
  import opened Bytestreams
  import opened P = TsPackets
  import opened PacketLists

  /** Packets the packer writes as 188 bytes. */
  predicate Packable(ps: seq<Packet>) {
    forall i :: 0 <= i < |ps| ==> Fits(ps[i])
  }

  function NormAll(ps: seq<Packet>): (qs: seq<Packet>)
    ensures |qs| == |ps|
  {
    seq(|ps|, i requires 0 <= i < |ps| => Norm(ps[i]))
  }

  // ---- framing and round trip ----

  /** Every packet occupies its own 188 bytes, which start at a multiple of 188 with the sync byte. */
  lemma {:induction false} Framing(ps: seq<Packet>, i: nat)
    requires Packable(ps) && i < |ps|
    ensures |EncodeAll(ps)| == PACKET_SIZE * |ps|
    ensures EncodeAll(ps)[PACKET_SIZE * i..PACKET_SIZE * (i + 1)] == Encode(ps[i])
    ensures EncodeAll(ps)[PACKET_SIZE * i] == 0x47
    decreases |ps|
  {
    hide Encode, Fits;
    var last := |ps| - 1;
    var init := EncodeAll(ps[..last]);
    EncodedLength(ps[..last]);
    Exactly188(ps[last]);
    SyncByte(ps[last]);
    if i < last {
      Framing(ps[..last], i);
      MulMono(i + 1, last, PACKET_SIZE);
      SliceOfFirst(init, Encode(ps[last]), PACKET_SIZE * i, PACKET_SIZE * (i + 1));
    } else {
      SliceOfSecond(init, Encode(ps[last]));
    }
  }

  lemma SliceOfFirst(x: seq<byte>, y: seq<byte>, a: nat, b: nat)
    requires a < b <= |x|
    ensures (x + y)[a..b] == x[a..b] && (x + y)[a] == x[a]
  {
  }

  lemma SliceOfSecond(x: seq<byte>, y: seq<byte>)
    requires y != []
    ensures (x + y)[|x|..|x| + |y|] == y && (x + y)[|x|] == y[0]
  {
  }

  lemma {:induction false} EncodedLength(ps: seq<Packet>)
    requires Packable(ps)
    ensures |EncodeAll(ps)| == PACKET_SIZE * |ps|
  {
    hide Encode, Fits;
    if ps != [] {
      EncodedLength(ps[..|ps| - 1]);
      Exactly188(ps[|ps| - 1]);
    }
  }

  /** A packed list reads back packet by packet, in normal form, and then reading goes on with what follows. */
  lemma {:induction false} ListReadsBack(ps: seq<Packet>, tail: seq<byte>)
    requires Packable(ps) && PACKET_SIZE * |ps| + |tail| < 0x1_0000_0000_0000_0000
    ensures DecodeAll(Open(EncodeAll(ps) + tail)) ==
            Parsed(NormAll(ps) + DecodeAll(Open(tail)).packets, DecodeAll(Open(tail)).rest)
    decreases |ps|
  {
    hide Encode, Decode, Norm, Fits;
    if ps == [] {
      assert EncodeAll(ps) + tail == tail;
      assert NormAll(ps) + DecodeAll(Open(tail)).packets == DecodeAll(Open(tail)).packets;
    } else {
      var init, p := ps[..|ps| - 1], ps[|ps| - 1];
      Exactly188(p);
      assert EncodeAll(ps) + tail == EncodeAll(init) + (Encode(p) + tail);
      ListReadsBack(init, Encode(p) + tail);
      RoundTrip(p, tail);
      assert NormAll(ps) == NormAll(init) + [Norm(p)];
      var more := DecodeAll(Open(tail)).packets;
      assert NormAll(init) + ([Norm(p)] + more) == NormAll(ps) + more;
    }
  }

  /** The same number of packets comes back, in normal form and in order, and the stream is drained. */
  lemma ListRoundTrip(ps: seq<Packet>)
    requires Packable(ps) && PACKET_SIZE * |ps| < 0x1_0000_0000_0000_0000
    ensures DecodeAll(Open(EncodeAll(ps))) == Parsed(NormAll(ps), Open([]))
  {
    assert EncodeAll(ps) + [] == EncodeAll(ps);
    ListReadsBack(ps, []);
  }

  /** Up to 187 bytes behind the last packet stay in the stream, and are no error. */
  lemma ShortTailStays(ps: seq<Packet>, tail: seq<byte>)
    requires Packable(ps) && |tail| < PACKET_SIZE && PACKET_SIZE * (|ps| + 1) < 0x1_0000_0000_0000_0000
    ensures DecodeAll(Open(EncodeAll(ps) + tail)) == Parsed(NormAll(ps), Open(tail))
  {
    ShortTail(tail);
    hide DecodeAll;
    ListReadsBack(ps, tail);
    assert NormAll(ps) + [] == NormAll(ps);
  }

  lemma ShortTail(tail: seq<byte>)
    requires |tail| < PACKET_SIZE
    ensures DecodeAll(Open(tail)) == Parsed([], Open(tail))
  {
  }

  // ---- packing again ----

  /** A packet's worth of stuffing in a row, which no list of packets that fit contains. */
  ghost predicate HasRun(s: seq<byte>) {
    exists a: nat :: IsRun(s, a)
  }

  predicate IsRun(s: seq<byte>, a: nat) {
    a + PACKET_SIZE <= |s| && s[a..a + PACKET_SIZE] == AF.Stuffing(PACKET_SIZE)
  }

  lemma RunInside(x: seq<byte>, s: seq<byte>, y: seq<byte>)
    requires HasRun(s)
    ensures HasRun(x + s + y)
  {
    var a: nat :| IsRun(s, a);
    assert (x + s + y)[|x| + a..|x| + a + PACKET_SIZE] == s[a..a + PACKET_SIZE];
    assert IsRun(x + s + y, |x| + a);
  }

  lemma NoRun(ps: seq<Packet>)
    requires Packable(ps)
    ensures !HasRun(EncodeAll(ps))
  {
    hide Encode, Fits;
    var s := EncodeAll(ps);
    EncodedLength(ps);
    forall a: nat
      ensures !IsRun(s, a)
    {
      if a + PACKET_SIZE <= |s| {
        var i := (a + PACKET_SIZE - 1) / PACKET_SIZE;
        assert a <= PACKET_SIZE * i < a + PACKET_SIZE;
        Framing(ps, i);
        assert s[a..a + PACKET_SIZE][PACKET_SIZE * i - a] == 0x47;
        assert AF.Stuffing(PACKET_SIZE)[PACKET_SIZE * i - a] == 0xff;
      }
    }
  }

  /** A packet does not become longer, or contains such a run, if that is so of its field. */
  lemma LongerOnlyByRun(header: seq<byte>, field: seq<byte>, payload: seq<byte>, room: nat)
    requires |header| + room + |payload| <= PACKET_SIZE && (|field| <= room || HasRun(field))
    ensures |header + field + payload| <= PACKET_SIZE || HasRun(header + field + payload)
  {
    hide HasRun;
    if |field| > room {
      RunInside(header, field, payload);
    }
  }

  lemma RepackedParts(p: Packet, c: nibble) returns (header: seq<byte>, field: seq<byte>, payload: seq<byte>, room: nat)
    requires Fits(p)
    ensures Encode(Norm(p).(counter := c)) == header + field + payload
    ensures |header| + room + |payload| == PACKET_SIZE && (|field| <= room || HasRun(field))
  {
    hide Encode, Norm, Fits, AF.Encode, AF.Norm, AF.Fits, AF.Size, Pack, Prepared, HasRun;
    CounterBytes(p, c);
    PreparedRoom(p);
    var q := Prepared(p);
    header, payload := Be(Pack(Header(q.(counter := c)), 32), 4), q.payload;
    if q.HasField() {
      room, field := Room(p), AF.Encode(AF.Norm(p.field, Room(p)), Room(p));
      FieldAgain(p.field, Room(p));
    } else {
      room, field := 0, [];
    }
  }

  lemma FieldAgain(af: AF.AdaptationField, size: u64)
    requires AF.Fits(af, size) && size > 0
    ensures |AF.Encode(AF.Norm(af, size), size)| <= size || HasRun(AF.Encode(AF.Norm(af, size), size))
  {
    hide AF.Body, AF.Size;
    var n := AF.Norm(af, size);
    if size != 1 {
      AF.NormSize(af);
      hide AF.Norm, AF.Encode, AF.Fits, AF.SizeAgrees;
      assert n == AF.Norm(af, size);
      AF.OvercountedLength(n, size);
      if |AF.Encode(n, size)| > size {
        EndsInRun(AF.Encode(n, size), Sub64(size, AF.Size(n)));
      }
    }
  }

  lemma EndsInRun(s: seq<byte>, k: nat)
    requires AF.EndsInStuffing(s, k)
    ensures HasRun(s)
  {
    var a := |s| - k;
    assert s[a..a + PACKET_SIZE] == s[a..][..PACKET_SIZE] == AF.Stuffing(PACKET_SIZE);
    assert IsRun(s, a);
  }

  lemma PreparedRoom(p: Packet)
    requires Fits(p)
    ensures InWord(Header(Prepared(p)), 32)
    ensures
      var q := Prepared(p);
      if q.HasField() then AF.Fits(p.field, Room(p)) && Room(p) > 0 && 4 + Room(p) + |q.payload| == PACKET_SIZE
      else 4 + |q.payload| == PACKET_SIZE
  {
    hide AF.Size, AF.Fits;
  }

  lemma {:induction false} RunInList(qs: seq<Packet>, i: nat)
    requires i < |qs| && HasRun(Encode(qs[i]))
    ensures HasRun(EncodeAll(qs))
  {
    hide Encode, HasRun;
    var last := |qs| - 1;
    var init := EncodeAll(qs[..last]);
    if i < last {
      RunInList(qs[..last], i);
      RunInside([], init, Encode(qs[last]));
      assert [] + init == init;
    } else {
      RunInside(init, Encode(qs[last]), []);
      assert EncodeAll(qs) + [] == EncodeAll(qs);
    }
  }

  lemma {:induction false} ShortLengths(qs: seq<Packet>)
    requires forall i :: 0 <= i < |qs| ==> |Encode(qs[i])| <= PACKET_SIZE
    ensures |EncodeAll(qs)| <= PACKET_SIZE * |qs|
  {
    hide Encode;
    if qs != [] {
      ShortLengths(qs[..|qs| - 1]);
    }
  }

  /** Short packets that are packed to the same bytes as packets that fit are the same one by one. */
  lemma {:induction false} SamePacketByPacket(ps: seq<Packet>, qs: seq<Packet>, i: nat)
    requires Packable(ps) && i < |ps| == |qs| && EncodeAll(qs) == EncodeAll(ps)
    requires forall k :: 0 <= k < |qs| ==> |Encode(qs[k])| <= PACKET_SIZE
    ensures Encode(qs[i]) == Encode(ps[i])
    decreases |ps|
  {
    hide Encode, Fits;
    var last := |ps| - 1;
    EncodedLength(ps);
    EncodedLength(ps[..last]);
    ShortLengths(qs[..last]);
    Exactly188(ps[last]);
    SameHalves(EncodeAll(qs[..last]), Encode(qs[last]), EncodeAll(ps[..last]), Encode(ps[last]));
    if i < last {
      SamePacketByPacket(ps[..last], qs[..last], i);
    }
  }

  lemma SameHalves(a: seq<byte>, b: seq<byte>, c: seq<byte>, d: seq<byte>)
    requires a + b == c + d && |a| == |c|
    ensures a == c && b == d
  {
    assert a == (a + b)[..|a|] == (c + d)[..|c|] == c;
    assert b == (a + b)[|a|..] == (c + d)[|c|..] == d;
  }

  /** A packet in normal form with some counter is packed to the bytes it came from exactly when the counter is its own
      and it can be packed again. */
  lemma RepackCounted(p: Packet, c: nibble)
    requires Fits(p)
    ensures Encode(Norm(p).(counter := c)) == Encode(p) <==> c == p.counter && Repacks(p)
  {
    NormKeepsCounter(p);
    hide Encode, Norm, Fits, Repacks, Decode;
    var q := Norm(p).(counter := c);
    if Encode(q) == Encode(p) {
      Exactly188(p);
      Exactly188(q);
      RoundTrip(p, []);
      RoundTrip(q, []);
      NormKeepsCounter(q);
    }
    if c == p.counter {
      assert q == Norm(p);
      Repack(p);
    }
  }

  lemma NormKeepsCounter(p: Packet)
    ensures Norm(p).counter == p.counter
  {
    hide AF.Norm, AF.Size;
  }

  lemma {:induction false} RepacksAll(ps: seq<Packet>)
    requires Packable(ps) && forall i :: 0 <= i < |ps| ==> Repacks(ps[i])
    ensures EncodeAll(NormAll(ps)) == EncodeAll(ps)
  {
    hide Encode, Norm, Fits, Repacks;
    if ps != [] {
      var init := ps[..|ps| - 1];
      RepacksAll(init);
      Repack(ps[|ps| - 1]);
      assert NormAll(ps)[..|ps| - 1] == NormAll(init);
    }
  }

  /** Packets that fit, packed, unpacked, and packed again with any counter table, give the same bytes exactly when
      every packet can be packed again and carries the counter that the second packing gives it. */
  lemma ListRepack(cs: seq<Counter>, ps: seq<Packet>)
    requires Packable(ps)
    ensures EncodeAll(NumberedAll(cs, NormAll(ps))) == EncodeAll(ps) <==>
            CountersAgree(cs, NormAll(ps)) && forall i :: 0 <= i < |ps| ==> Repacks(ps[i])
  {
    hide Encode, Norm, Fits, Repacks, HasRun, CountersAgree;
    var qs := NumberedAll(cs, NormAll(ps));
    NumberingKeeps(cs, NormAll(ps));
    if EncodeAll(qs) == EncodeAll(ps) {
      NoRun(ps);
      forall i | 0 <= i < |ps|
        ensures |Encode(qs[i])| <= PACKET_SIZE
      {
        var header, field, payload, room := RepackedParts(ps[i], qs[i].counter);
        LongerOnlyByRun(header, field, payload, room);
        if HasRun(Encode(qs[i])) {
          RunInList(qs, i);
        }
      }
      forall i | 0 <= i < |ps|
        ensures Repacks(ps[i]) && qs[i] == NormAll(ps)[i]
      {
        SamePacketByPacket(ps, qs, i);
        RepackCounted(ps[i], qs[i].counter);
        NormKeepsCounter(ps[i]);
      }
      assert qs == NormAll(ps);
    } else if forall i :: 0 <= i < |ps| ==> Repacks(ps[i]) {
      RepacksAll(ps);
    }
  }

  // ---- continuity counters ----

  /** How many packets of a PID carry a payload. */
  function Carried(ps: seq<Packet>, pid: Pid): nat {
    if ps == [] then 0
    else Carried(ps[..|ps| - 1], pid) + (if ps[|ps| - 1].pid == pid && ps[|ps| - 1].payload != [] then 1 else 0)
  }

  predicate Honest(ps: seq<Packet>) {
    forall i :: 0 <= i < |ps| ==> (ps[i].HasPayload() <==> ps[i].payload != [])
  }

  function Flat(runs: seq<seq<Packet>>): seq<Packet> {
    if runs == [] then [] else Flat(runs[..|runs| - 1]) + runs[|runs| - 1]
  }

  /** The tables of one packet list object over a history of pack calls: it starts empty, and each call counts the list
      it packed. */
  ghost predicate History(runs: seq<seq<Packet>>, tables: seq<seq<Counter>>) {
    && |tables| == |runs| + 1
    && tables[0] == []
    && forall k :: 0 <= k < |runs| ==> Counted(tables[k], runs[k], tables[k + 1])
  }

  lemma {:induction false} AnnouncedJoin(a: seq<Packet>, b: seq<Packet>, pid: Pid)
    ensures Announced(a + b, pid) == Announced(a, pid) + Announced(b, pid)
    decreases |b|
  {
    if b == [] {
      assert a + b == a;
    } else {
      assert (a + b)[..|a + b| - 1] == a + b[..|b| - 1];
      AnnouncedJoin(a, b[..|b| - 1], pid);
    }
  }

  lemma {:induction false} HonestCounts(ps: seq<Packet>, pid: Pid)
    requires Honest(ps)
    ensures Announced(ps, pid) == Carried(ps, pid)
  {
    if ps != [] {
      HonestCounts(ps[..|ps| - 1], pid);
    }
  }

  lemma {:induction false} TableCountsHistory(runs: seq<seq<Packet>>, tables: seq<seq<Counter>>, r: nat, pid: Pid)
    requires History(runs, tables) && r <= |runs|
    ensures Value(tables[r], pid) == Announced(Flat(runs[..r]), pid)
  {
    if r > 0 {
      TableCountsHistory(runs, tables, r - 1, pid);
      assert runs[..r][..r - 1] == runs[..r - 1];
      AnnouncedJoin(Flat(runs[..r - 1]), runs[r - 1], pid);
    }
  }

  /** Over any number of pack calls, a packet's counter is the number of payload-carrying packets of its own PID packed
      before it, modulo 16: the k-th such packet of a PID, counting from zero, gets k mod 16, whatever other PIDs do. */
  lemma Continuity(runs: seq<seq<Packet>>, tables: seq<seq<Counter>>, r: nat, i: nat)
    requires History(runs, tables) && r < |runs| && i < |runs[r]|
    requires forall k :: 0 <= k < |runs| ==> Honest(runs[k])
    ensures Numbered(tables[r], runs[r], i).counter ==
            Carried(Flat(runs[..r]) + runs[r][..i], runs[r][i].pid) % 16
    ensures DistinctPids(tables[r])
  {
    var pid := runs[r][i].pid;
    TableCountsHistory(runs, tables, r, pid);
    AnnouncedJoin(Flat(runs[..r]), runs[r][..i], pid);
    FlatHonest(runs[..r]);
    HonestCounts(Flat(runs[..r]) + runs[r][..i], pid);
    if r > 0 {
      assert Counted(tables[r - 1], runs[r - 1], tables[r - 1 + 1]);
    }
  }

  lemma {:induction false} FlatHonest(runs: seq<seq<Packet>>)
    requires forall k :: 0 <= k < |runs| ==> Honest(runs[k])
    ensures Honest(Flat(runs))
  {
    if runs != [] {
      FlatHonest(runs[..|runs| - 1]);
    }
  }
}
