/** The cursor every packer writes through and every parser reads through (src/ts/bytestream.c).

    A read that does not fit, or a write without a buffer, clears the whole stream: from then on it is invalid, has
    size zero and yields zeros. Callers therefore check validity once, after a run of reads. */
module Bytestreams {
  import opened Words

  /** The source's ssize_t results: 1, 0 and -1. */
  datatype Status = Success | Incomplete | Error

  function Zeros(n: nat): (bs: seq<byte>)
    ensures |bs| == n && forall i :: 0 <= i < n ==> bs[i] == 0
  {
    seq(n, i => 0)
  }

  /** What a reader can see of a stream: nothing any more, or the bytes still to be read. */
  datatype Input = Failed | Open(rest: seq<byte>) {

    function Size(): nat {
      if Failed? then 0 else |rest|
    }

    predicate Has(n: nat) {
      Open? && n <= |rest|
    }

    /** The n bytes a read returns. */
    function Bytes(n: nat): (bs: seq<byte>)
      ensures |bs| == n
    {
      if Has(n) then rest[..n] else Zeros(n)
    }

    /** The stream after a read of n bytes. */
    function Drop(n: nat): Input {
      if Has(n) then Open(rest[n..]) else Failed
    }

    /** The n-byte integer a read returns. */
    function Number(n: nat): nat {
      FromBe(Bytes(n))
    }
  }

  function Done(r: Input): Status {
    if r.Open? then Success else Error
  }

  /** What a writer can see of a stream: the buffer it appends to, and where reading would begin. */
  datatype Output = NoBuffer | Buffer(begin: nat, data: seq<byte>) {

    /** How many bytes a reader of the same stream would find. */
    function Size(): int {
      if NoBuffer? then 0 else |data| - begin
    }

    function Add(bs: seq<byte>): Output {
      if NoBuffer? then NoBuffer else Buffer(begin, data + bs)
    }
  }

  lemma AddAdd(o: Output, a: seq<byte>, b: seq<byte>)
    ensures o.Add(a).Add(b) == o.Add(a + b)
  {
    if o.Buffer? {
      assert o.data + a + b == o.data + (a + b);
    }
  }

  class Bytestream {
    var buffered: bool
    var valid: bool
    var data: seq<byte>
    var begin: nat
    var end: nat

    ghost predicate Ok()
      reads this
    {
      && begin <= end <= |data|
      && (!valid ==> data == [])
      && (buffered ==> end == |data|)
    }

    function In(): Input
      reads this
      requires Ok()
    {
      if valid then Open(data[begin..end]) else Failed
    }

    function Out(): Output
      reads this
    {
      if buffered then Buffer(begin, data) else NoBuffer
    }

    /** bytestream_construct. */
    constructor (bytes: seq<byte>)
      ensures Ok() && !buffered && valid && In() == Open(bytes)
    {
      buffered, valid, data, begin, end := false, true, bytes, 0, |bytes|;
    }

    /** bytestream_construct_buffer; `hasData` says whether the buffer's data pointer is set, which is up to the
        buffer library when the buffer is empty. */
    constructor OfBuffer(bytes: seq<byte>, hasData: bool)
      requires bytes != [] ==> hasData
      ensures Ok() && buffered && valid == hasData
      ensures Out() == Buffer(0, bytes) && In() == if hasData then Open(bytes) else Failed
    {
      buffered, valid, data, begin, end := true, hasData, bytes, 0, |bytes|;
    }

    method Destruct()
      modifies this
      ensures Ok() && !buffered && !valid && data == [] && begin == end == 0
    {
      buffered, valid, data, begin, end := false, false, [], 0, 0;
    }

    function Size(): nat
      reads this
      requires Ok()
      ensures Size() == In().Size()
    {
      end - begin
    }

    method Read(n: nat) returns (bs: seq<byte>)
      requires Ok()
      modifies this
      ensures Ok()
      ensures bs == old(In()).Bytes(n) && In() == old(In()).Drop(n)
      ensures In().Open? ==> begin == old(begin) + n && end == old(end)
      ensures In().Open? ==> data == old(data) && buffered == old(buffered)
    {
      if n > end - begin || !valid {
        bs := Zeros(n);
        Destruct();
        return;
      }
      bs := data[begin..begin + n];
      begin := begin + n;
    }

    method ReadNumber(n: nat) returns (v: nat)
      requires Ok()
      modifies this
      ensures Ok()
      ensures v == old(In()).Number(n) && In() == old(In()).Drop(n)
    {
      var bs := Read(n);
      v := FromBe(bs);
    }

    method Write(bs: seq<byte>)
      requires Ok()
      modifies this
      ensures Ok() && buffered == old(buffered)
      ensures Out() == old(Out()).Add(bs)
      ensures if buffered then valid == (old(valid) || bs != []) else !valid
    {
      if !buffered {
        Destruct();
        return;
      }
      data := data + bs;
      valid := valid || bs != [];
      end := end + |bs|;
    }

    /** Writes the low n bytes of v. */
    method WriteNumber(v: nat, n: nat)
      requires Ok()
      modifies this
      ensures Ok() && buffered == old(buffered)
      ensures Out() == old(Out()).Add(Be(v, n))
      ensures if buffered then valid == (old(valid) || n > 0) else !valid
    {
      Write(Be(v, n));
    }

    function Status(): Status
      reads this
    {
      if valid then Success else Error
    }
  }

  // ---- reading back what was written ----

  lemma ReadBack(bs: seq<byte>, tail: seq<byte>)
    ensures Open(bs + tail).Bytes(|bs|) == bs && Open(bs + tail).Drop(|bs|) == Open(tail)
  {
  }

  lemma ReadBackNumber(v: nat, n: nat, tail: seq<byte>)
    ensures Open(Be(v, n) + tail).Number(n) == v % Pow2(8 * n)
    ensures v < Pow2(8 * n) ==> Open(Be(v, n) + tail).Number(n) == v
    ensures Open(Be(v, n) + tail).Drop(n) == Open(tail)
  {
    ReadBack(Be(v, n), tail);
    FromBeOfBe(v, n);
    if v < Pow2(8 * n) {
      FromBeOfSmall(v, n);
    }
  }

  lemma {:induction false} FromBeOfZeros(n: nat)
    ensures FromBe(Zeros(n)) == 0
  {
    if n > 0 {
      assert Zeros(n)[..n - 1] == Zeros(n - 1);
      FromBeOfZeros(n - 1);
    }
  }

  // ---- sticky failure ----

  function Total(sizes: seq<nat>): nat {
    if sizes == [] then 0 else sizes[0] + Total(sizes[1..])
  }

  function After(r: Input, sizes: seq<nat>): Input
    decreases |sizes|
  {
    if sizes == [] then r else After(r.Drop(sizes[0]), sizes[1..])
  }

  /** One validity check after a run of reads says whether every read of the run fitted. */
  lemma {:induction false} OneCheckIsEnough(r: Input, sizes: seq<nat>)
    ensures After(r, sizes).Open? <==> r.Open? && Total(sizes) <= |r.rest|
    ensures After(r, sizes).Open? ==> After(r, sizes).rest == r.rest[Total(sizes)..]
    decreases |sizes|
  {
    if sizes != [] {
      OneCheckIsEnough(r.Drop(sizes[0]), sizes[1..]);
    }
  }

  /** A read that fails, and every read after a failure, yields only zeros; before that, exactly the next bytes. */
  lemma {:induction false} ReadsAreSticky(r: Input, sizes: seq<nat>, n: nat)
    ensures r.Open? && Total(sizes) + n <= |r.rest| ==>
              After(r, sizes).Bytes(n) == r.rest[Total(sizes)..Total(sizes) + n]
    ensures !(r.Open? && Total(sizes) + n <= |r.rest|) ==>
              After(r, sizes).Bytes(n) == Zeros(n) && After(r, sizes).Number(n) == 0 && After(r, sizes).Drop(n).Failed?
  {
    OneCheckIsEnough(r, sizes);
    FromBeOfZeros(n);
  }
}
