/** One 188-byte transport packet (src/ts/ts_packet.c). */
module TsPackets {
  import opened Words
  import opened Bytestreams
  import AF = AdaptationFields

  type Pid = x: int | 0 <= x < 0x2000
  type twobits = x: int | 0 <= x < 4
  type nibble = x: int | 0 <= x < 16

  const PACKET_SIZE := 188

  /** `control` is the adaptation field control: bit 0 announces a payload, bit 1 an adaptation field. */
  datatype Packet = Packet(
    errorIndicator: bit,
    unitStart: bit,
    priority: bit,
    pid: Pid,
    scrambling: twobits,
    control: twobits,
    counter: nibble,
    field: AF.AdaptationField,
    payload: seq<byte>)
  {
    predicate HasField() {
      control / 2 == 1
    }

    predicate HasPayload() {
      control % 2 == 1
    }
  }

  /** ts_packet_construct. */
  const EMPTY := Packet(0, 0, 0, 0, 0, 0, 0, AF.EMPTY, [])

  /** ts_packet_size. */
  function Size(p: Packet): nat {
    4 + (if p.HasField() then AF.Size(p.field) else 0) + |p.payload|
  }

  // ---- packing ----

  /** The packet with the control bits that packing gives it. */
  function Prepared(p: Packet): Packet {
    var q := p.(control := p.control / 2 * 2 + (if p.payload != [] then 1 else 0));
    if Size(q) < PACKET_SIZE then q.(control := 2 + q.control % 2) else q
  }

  function Header(p: Packet): seq<Field> {
    [Field(0x47, 0, 8), Field(p.errorIndicator, 8, 1), Field(p.unitStart, 9, 1), Field(p.priority, 10, 1),
     Field(p.pid, 11, 13), Field(p.scrambling, 24, 2), Field(p.control, 26, 2), Field(p.counter, 28, 4)]
  }

  /** The size set aside for the adaptation field; unsigned. */
  function Room(p: Packet): u64 {
    Sub64(PACKET_SIZE - 4, |p.payload|)
  }

  function FieldBytes(p: Packet): seq<byte> {
    if p.HasField() then AF.Encode(p.field, Room(p)) else []
  }

  function PayloadBytes(p: Packet): seq<byte> {
    if p.HasPayload() then p.payload else []
  }

  function Raw(q: Packet): seq<byte> {
    Be(Pack(Header(q), 32), 4) + FieldBytes(q) + PayloadBytes(q)
  }

  function Encode(p: Packet): seq<byte> {
    Raw(Prepared(p))
  }

  method PackPacket(p: Packet, s: Bytestream) returns (n: Status, q: Packet)
    requires s.Ok()
    modifies s
    ensures s.Ok() && s.buffered == s.valid == old(s.buffered)
    ensures q == Prepared(p) && s.Out() == old(s.Out()).Add(Encode(p)) && n == s.Status()
  {
    ghost var o := s.Out();
    q := p;
    if q.payload != [] {
      q := q.(control := q.control / 2 * 2 + 1);
    } else {
      q := q.(control := q.control / 2 * 2);
    }
    if Size(q) < PACKET_SIZE {
      q := q.(control := 2 + q.control % 2);
    }
    ghost var header := Be(Pack(Header(q), 32), 4);
    s.WriteNumber(Pack(Header(q), 32), 4);
    if q.HasField() {
      n := AF.PackField(q.field, s, Room(q));
      AddAdd(o, header, FieldBytes(q));
      if n == Error {
        return;
      }
    }
    assert s.Out() == o.Add(header + FieldBytes(q)) by { AF.AddMore(o, header, FieldBytes(q), s.Out()); }
    if q.HasPayload() {
      s.Write(q.payload);
    }
    AF.AddMore(o, header + FieldBytes(q), PayloadBytes(q), s.Out());
    n := s.Status();
  }

  // ---- unpacking ----

  datatype Decoded = Decoded(status: Status, packet: Packet, rest: Input)

  function ReadWord(w: nat, offset: nat, bits: nat): (v: nat)
    requires offset + bits <= 32
    ensures v == ReadBits(w, 32, offset, bits) < Pow2(bits)
  {
    ReadBits(w, 32, offset, bits)
  }

  function FromHeader(w: nat): Packet {
    Pow2Values();
    EMPTY.(errorIndicator := ReadFlag(w, 32, 8), unitStart := ReadFlag(w, 32, 9), priority := ReadFlag(w, 32, 10),
           pid := ReadWord(w, 11, 13), scrambling := ReadWord(w, 24, 2), control := ReadWord(w, 26, 2),
           counter := ReadWord(w, 28, 4))
  }

  /** Reads what is left of the 188 bytes; the count is an unsigned difference. */
  function TakePayload(p: Packet, r: Input, size: nat): Decoded {
    if p.HasPayload() then
      var k := Sub64(PACKET_SIZE, Sub64(size, r.Size()));
      Decoded(Done(r.Drop(k)), p.(payload := r.Bytes(k)), r.Drop(k))
    else Decoded(Done(r), p, r)
  }

  /** ts_packet_unpack into a packet that has just been constructed. */
  function Decode(r: Input): Decoded {
    if r.Size() < PACKET_SIZE then Decoded(Incomplete, EMPTY, r)
    else
      var p := FromHeader(r.Number(4));
      if p.HasField() then
        var d := AF.Decode(r.Drop(4));
        if d.status != Success then Decoded(d.status, p.(field := d.af), d.rest)
        else TakePayload(p.(field := d.af), d.rest, r.Size())
      else TakePayload(p, r.Drop(4), r.Size())
  }

  method UnpackPacket(s: Bytestream) returns (n: Status, p: Packet)
    requires s.Ok()
    modifies s
    ensures s.Ok() && Decoded(n, p, s.In()) == Decode(old(s.In()))
  {
    var size := s.Size();
    if size < PACKET_SIZE {
      return Incomplete, EMPTY;
    }
    var v := s.ReadNumber(4);
    p := FromHeader(v);
    if p.HasField() {
      var af;
      n, af := AF.UnpackField(s);
      p := p.(field := af);
      if n != Success {
        return;
      }
    }
    if p.HasPayload() {
      var payload := s.Read(Sub64(PACKET_SIZE, Sub64(size, s.Size())));
      p := p.(payload := payload);
    }
    n := s.Status();
  }

  // ---- properties ----

  /** When a packet fills its 188 bytes: its payload and its adaptation field must leave no byte over and need none
      too many, and the field's size must be counted as it is written. */
  predicate Fits(p: Packet) {
    var q := Prepared(p);
    if q.HasField() then |p.payload| < PACKET_SIZE - 4 && AF.Fits(p.field, Room(p))
    else |p.payload| == PACKET_SIZE - 4
  }

  /** Packing writes 188 bytes exactly for the packets that fit; otherwise the unsigned stuffing count wraps, or the
      payload overflows the packet, or the private data is miscounted. */
  lemma Exactly188(p: Packet)
    ensures |Encode(p)| == PACKET_SIZE <==> Fits(p)
  {
    hide AF.Encode, AF.Fits, AF.Size, Pack;
    var q := Prepared(p);
    if q.HasField() {
      AF.LengthExact(p.field, Room(p));
      if |p.payload| == PACKET_SIZE - 4 {
        NoEmptyField(p.field);
      }
    }
  }

  /** A packet with such a field, and one with a payload of a byte too many. */
  lemma NotExactly188()
    ensures |Encode(EMPTY.(control := 2, field := AF.EMPTY.(privateFlag := 1)))| != PACKET_SIZE
    ensures |Encode(EMPTY.(control := 1, payload := seq(185, i => 0)))| != PACKET_SIZE
  {
    Exactly188(EMPTY.(control := 2, field := AF.EMPTY.(privateFlag := 1)));
    Exactly188(EMPTY.(control := 1, payload := seq(185, i => 0)));
  }

  lemma NoEmptyField(af: AF.AdaptationField)
    ensures |AF.Encode(af, 0)| > 0
  {
  }

  lemma HeaderLayout(p: Packet)
    ensures Layout(Header(p), 32)
  {
    hide Pow2;
    Pow2Values();
  }

  /** The sync byte comes first. */
  lemma SyncByte(p: Packet)
    ensures Encode(p)[0] == 0x47
  {
    var fs := Header(Prepared(p));
    var w := Pack(fs, 32);
    hide Pack, AF.Encode, AF.Size, Be;
    HeaderLayout(Prepared(p));
    ReadAt(fs, 32, 0, 0x47, 0, 8);
    PackBound(fs, 32);
    TopByte(w);
    FirstByte(w);
  }

  lemma TopByte(w: nat)
    requires w < Pow2(32)
    ensures ReadBits(w, 32, 0, 8) == w / 0x100_0000
  {
    Pow2Values();
  }

  lemma FirstByte(w: nat)
    requires w < Pow2(32)
    ensures Be(w, 4)[0] == w / 0x100_0000
  {
    Pow2Values();
    assert Be(w, 4)[0] == Be(w / 256, 3)[0] == Be(w / 256 / 256, 2)[0] == Be(w / 256 / 256 / 256, 1)[0];
  }

  /** What survives a round trip. */
  function Norm(p: Packet): Packet {
    var q := Prepared(p);
    q.(field := if q.HasField() then AF.Norm(p.field, Room(p)) else AF.EMPTY)
  }

  lemma HeaderReadsBack(q: Packet, tail: seq<byte>)
    ensures
      var w := Pack(Header(q), 32);
      && Open(Be(w, 4) + tail).Number(4) == w
      && Open(Be(w, 4) + tail).Drop(4) == Open(tail)
      && FromHeader(w) == q.(field := AF.EMPTY, payload := [])
  {
    hide Be, Pack, Pow2;
    var fs := Header(q);
    var w := Pack(fs, 32);
    PackBound(fs, 32);
    Pow2Values();
    ReadBackNumber(w, 4, tail);
    HeaderLayout(q);
    ReadAt(fs, 32, 1, q.errorIndicator, 8, 1);
    ReadAt(fs, 32, 2, q.unitStart, 9, 1);
    ReadAt(fs, 32, 3, q.priority, 10, 1);
    ReadAt(fs, 32, 4, q.pid, 11, 13);
    ReadAt(fs, 32, 5, q.scrambling, 24, 2);
    ReadAt(fs, 32, 6, q.control, 26, 2);
    ReadAt(fs, 32, 7, q.counter, 28, 4);
  }

  lemma FieldReadsBack(q: Packet, tail: seq<byte>)
    requires q.HasField() && AF.Fits(q.field, Room(q)) && |q.payload| < PACKET_SIZE - 4
    requires |tail| + Room(q) < 0x1_0000_0000_0000_0000
    ensures AF.Decode(Open(FieldBytes(q) + tail)) == AF.Decoded(Success, AF.Norm(q.field, Room(q)), Open(tail))
  {
    hide AF.Encode, AF.Decode, AF.Norm, AF.Size, AF.Fits;
    AF.RoundTrip(q.field, Room(q), tail);
  }

  lemma PayloadReadsBack(p: Packet, payload: seq<byte>, tail: seq<byte>, size: nat)
    requires p.payload == [] && (p.HasPayload() <==> payload != [])
    requires size == PACKET_SIZE + |tail| < 0x1_0000_0000_0000_0000 && |payload| <= PACKET_SIZE
    ensures TakePayload(p, Open(payload + tail), size) == Decoded(Success, p.(payload := payload), Open(tail))
  {
    if payload == [] {
      assert payload + tail == tail;
    } else {
      ReadBack(payload, tail);
    }
  }

  /** A packet that fits reads back in normal form from its own 188 bytes, whatever follows them. */
  lemma RoundTrip(p: Packet, tail: seq<byte>)
    requires Fits(p) && |tail| + PACKET_SIZE < 0x1_0000_0000_0000_0000
    ensures Decode(Open(Encode(p) + tail)) == Decoded(Success, Norm(p), Open(tail))
  {
    hide AF.Encode, AF.Decode, AF.Norm, AF.Size, AF.Fits, Be, Pack, FromHeader, TakePayload;
    var q := Prepared(p);
    var w, t := Pack(Header(q), 32), q.payload + tail;
    Exactly188(p);
    assert Encode(p) + tail == Be(w, 4) + (FieldBytes(q) + t);
    HeaderReadsBack(q, FieldBytes(q) + t);
    var bare := q.(field := AF.EMPTY, payload := []);
    if q.HasField() {
      FieldReadsBack(q, t);
      bare := bare.(field := AF.Norm(q.field, Room(q)));
    } else {
      assert FieldBytes(q) + t == t;
    }
    PayloadReadsBack(bare, q.payload, tail, PACKET_SIZE + |tail|);
  }

  predicate Repacks(p: Packet) {
    !Prepared(p).HasField() || AF.Repacks(p.field, Room(p))
  }

  /** Packing prepares an unpacked packet no further. */
  lemma NormPrepared(p: Packet)
    requires Fits(p)
    ensures Prepared(Norm(p)) == Norm(p)
  {
    hide AF.Norm, AF.Size, AF.Fits;
  }

  lemma Cancel(a: seq<byte>, b: seq<byte>, c: seq<byte>, d: seq<byte>)
    ensures a + b + d == a + c + d <==> b == c
  {
    if a + b + d == a + c + d {
      assert |b| == |c|;
      assert b == (a + b + d)[|a|..|a| + |b|] == (a + c + d)[|a|..|a| + |c|] == c;
    }
  }

  /** An unpacked packet is packed again as it was, but for its adaptation field. */
  lemma NormBytes(p: Packet)
    requires Fits(p)
    ensures
      var q := Prepared(p);
      var header := Be(Pack(Header(q), 32), 4);
      && Encode(p) == header + FieldBytes(q) + q.payload
      && Encode(Norm(p)) ==
         header + (if q.HasField() then AF.Encode(AF.Norm(p.field, Room(p)), Room(p)) else []) + q.payload
  {
    hide AF.Encode, AF.Norm, AF.Size, AF.Fits, Be, Pack;
    NormPrepared(p);
    assert Header(Norm(p)) == Header(Prepared(p));
  }

  /** Another counter changes the header only. */
  lemma CounterBytes(p: Packet, c: nibble)
    requires Fits(p)
    ensures
      var q := Prepared(p);
      Encode(Norm(p).(counter := c)) ==
      Be(Pack(Header(q.(counter := c)), 32), 4)
      + (if q.HasField() then AF.Encode(AF.Norm(p.field, Room(p)), Room(p)) else []) + q.payload
  {
    hide AF.Encode, AF.Norm, AF.Size, AF.Fits, Be, Pack;
    NormPrepared(p);
    CounterPrepared(Norm(p), c);
    assert Header(Norm(p).(counter := c)) == Header(Prepared(p).(counter := c));
  }

  lemma CounterPrepared(p: Packet, c: nibble)
    ensures Prepared(p.(counter := c)) == Prepared(p).(counter := c)
  {
    hide AF.Size;
  }

  /** Packing an unpacked packet reproduces its bytes, exactly when it has no adaptation field or one that can be
      packed again. */
  lemma Repack(p: Packet)
    requires Fits(p)
    ensures Encode(Norm(p)) == Encode(p) <==> Repacks(p)
  {
    hide AF.Encode, AF.Norm, AF.Repacks, Be, Pack, AF.Size, AF.Fits, Encode, Norm;
    var q := Prepared(p);
    NormBytes(p);
    if q.HasField() {
      FitsRoom(p);
      AF.Repack(p.field, Room(p));
      Cancel(Be(Pack(Header(q), 32), 4), FieldBytes(q), AF.Encode(AF.Norm(p.field, Room(p)), Room(p)), q.payload);
    }
  }

  lemma FitsRoom(p: Packet)
    requires Fits(p) && Prepared(p).HasField()
    ensures AF.Fits(p.field, Room(p)) && Prepared(p).field == p.field && Room(Prepared(p)) == Room(p) <= 184
  {
    hide AF.Size, AF.Fits;
  }
}
