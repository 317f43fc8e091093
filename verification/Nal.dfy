/** H.264 byte streams (examples/h264_debug.c): start codes (Annex B of ITU-T H.264) and emulation prevention (section
    7.4.1 of ITU-T H.264). */
module NalUnits {
  import opened Words
  import B = Bytestreams

  // ---- searching ----

  predicate CodeAt(s: seq<byte>, i: nat, third: byte) {
    i + 2 < |s| && s[i] == 0 && s[i + 1] == 0 && s[i + 2] == third
  }

  /** The first place of the bytes 00 00 third, or -1. */
  function First(s: seq<byte>, third: byte): (i: int)
    ensures -1 <= i && (i >= 0 ==> CodeAt(s, i, third))
  {
    if |s| < 3 then -1
    else if CodeAt(s, 0, third) then 0
    else
      var i := First(s[1..], third);
      if i < 0 then -1 else i + 1
  }

  lemma {:induction false} FirstIs(s: seq<byte>, third: byte, i: nat)
    requires forall j :: 0 <= j < i ==> !CodeAt(s, j, third)
    ensures CodeAt(s, i, third) ==> First(s, third) == i
    ensures i >= |s| ==> First(s, third) == -1
  {
    if |s| >= 3 && i > 0 {
      assert forall j :: 0 <= j < i - 1 ==> (CodeAt(s[1..], j, third) <==> CodeAt(s, j + 1, third));
      FirstIs(s[1..], third, i - 1);
      assert CodeAt(s, i, third) ==> CodeAt(s[1..], i - 1, third);
    }
  }

  lemma {:induction false} NoneBeforeFirst(s: seq<byte>, third: byte, j: nat)
    requires First(s, third) < 0 || j < First(s, third)
    ensures !CodeAt(s, j, third)
  {
    if |s| >= 3 && j > 0 {
      NoneBeforeFirst(s[1..], third, j - 1);
    }
  }

  /** memmem for the bytes 00 00 third, in a stretch of the buffer. */
  method Find(a: array<byte>, lo: nat, hi: nat, third: byte) returns (found: bool, i: nat)
    requires lo <= hi <= a.Length
    ensures found <==> First(a[lo..hi], third) >= 0
    ensures found ==> i == lo + First(a[lo..hi], third) && i + 3 <= hi
  {
    i := lo;
    while i + 3 <= hi
      invariant lo <= i <= hi
      invariant forall j :: 0 <= j < i - lo ==> !CodeAt(a[lo..hi], j, third)
    {
      if a[i] == 0 && a[i + 1] == 0 && a[i + 2] == third {
        FirstIs(a[lo..hi], third, i - lo);
        return true, i;
      }
      i := i + 1;
    }
    assert forall j :: 0 <= j < hi - lo ==> !CodeAt(a[lo..hi], j, third);
    FirstIs(a[lo..hi], third, hi - lo);
    found := false;
  }

  // ---- emulation prevention ----

  /** What is left when the 03 of the first 00 00 03 is removed and the search goes on after it. */
  function Unescape(s: seq<byte>): seq<byte>
    decreases |s|
  {
    var i := First(s, 3);
    if i < 0 then s else s[..i + 2] + Unescape(s[i + 3..])
  }

  /** memmove(b, b + 1, e - b). */
  method MoveDown(a: array<byte>, b: nat, e: nat)
    requires b <= e < a.Length
    modifies a
    ensures a[..b] == old(a[..b]) && a[b..e] == old(a[b + 1..e + 1]) && a[e..] == old(a[e..])
  {
    for k := b to e
      invariant a[..b] == old(a[..b]) && a[b..k] == old(a[b + 1..k + 1]) && a[k..] == old(a[k..])
    {
      a[k] := a[k + 1];
    }
  }

  /** nal_unit_decode on the bytes from lo to hi: they are rewritten in place, and the new size is returned. Nothing
      outside them changes. */
  method Decode(a: array<byte>, lo: nat, hi: nat) returns (size: nat)
    requires lo <= hi <= a.Length
    modifies a
    ensures lo + size <= hi && a[lo..lo + size] == Unescape(old(a[lo..hi]))
    ensures a[..lo] == old(a[..lo]) && a[hi..] == old(a[hi..])
  {
    hide First, Unescape;
    ghost var all := Unescape(a[lo..hi]);
    var b, e := lo, hi;
    while true
      invariant lo <= b <= e <= hi
      invariant all == a[lo..b] + Unescape(a[b..e])
      invariant a[..lo] == old(a[..lo]) && a[hi..] == old(a[hi..])
      decreases e - b
    {
      ghost var before := a[..];
      var found, i := Find(a, b, e, 3);
      if !found {
        UnescapeNothing(a[b..e]);
        assert a[lo..b] + a[b..e] == a[lo..e];
        break;
      }
      UnescapeOne(before, lo, b, e, i);
      b := i + 2;
      e := e - 1;
      MoveDown(a, b, e);
      assert a[lo..b] == a[..b][lo..] == before[lo..b] && a[b..e] == before[b + 1..e + 1];
      assert a[..lo] == a[..b][..lo] == before[..lo] && a[hi..] == a[e..][hi - e..] == before[hi..];
    }
    size := e - lo;
  }

  lemma UnescapeNothing(s: seq<byte>)
    requires First(s, 3) < 0
    ensures Unescape(s) == s
  {
  }

  lemma PartsOfSlice(s: seq<byte>, b: nat, e: nat, j: nat)
    requires b <= e <= |s| && j <= e - b
    ensures s[b..e][..j] == s[b..b + j] && s[b..e][j..] == s[b + j..e]
  {
  }

  lemma TwoSlices(s: seq<byte>, lo: nat, b: nat, k: nat, more: seq<byte>)
    requires lo <= b <= k <= |s|
    ensures s[lo..b] + (s[b..k] + more) == s[lo..k] + more
  {
  }

  lemma UnescapeFirst(s: seq<byte>)
    requires First(s, 3) >= 0
    ensures First(s, 3) + 3 <= |s| && Unescape(s) == s[..First(s, 3) + 2] + Unescape(s[First(s, 3) + 3..])
  {
    CodeEnds(s, 3);
    hide First, CodeAt;
    var i := First(s, 3);
    var kept, more := s[..i + 2], Unescape(s[i + 3..]);
    assert Unescape(s) == kept + more;
  }

  lemma CodeEnds(s: seq<byte>, third: byte)
    requires First(s, third) >= 0
    ensures First(s, third) + 3 <= |s|
  {
    hide First;
  }

  lemma UnescapeOne(s: seq<byte>, lo: nat, b: nat, e: nat, i: nat)
    requires lo <= b <= e <= |s| && First(s[b..e], 3) >= 0 && i == b + First(s[b..e], 3)
    ensures i + 3 <= e
    ensures s[lo..b] + Unescape(s[b..e]) == s[lo..i + 2] + Unescape(s[i + 3..e])
  {
    hide First, Unescape, CodeAt;
    UnescapeFirst(s[b..e]);
    PartsOfSlice(s, b, e, i - b + 2);
    PartsOfSlice(s, b, e, i - b + 3);
    TwoSlices(s, lo, b, i + 2, Unescape(s[i + 3..e]));
  }

  // ---- the same in one pass ----

  type zeros = z: int | 0 <= z <= 2

  /** How many zeros, up to two, end in front of the next byte. */
  function After(z: zeros, c: byte): zeros {
    if c != 0 then 0 else if z == 2 then 2 else z + 1
  }

  /** One pass: a 03 after two zeros is dropped, and the count starts again. */
  function Scan(s: seq<byte>, z: zeros): seq<byte> {
    if s == [] then []
    else if z == 2 && s[0] == 3 then Scan(s[1..], 0)
    else [s[0]] + Scan(s[1..], After(z, s[0]))
  }

  lemma CodeShifted(s: seq<byte>, d: nat, i: nat, third: byte)
    requires d <= |s|
    ensures CodeAt(s[d..], i, third) <==> CodeAt(s, d + i, third)
  {
  }

  lemma FirstShifted(t: seq<byte>, d: nat, third: byte)
    requires d <= |t| && forall k :: 0 <= k < d ==> !CodeAt(t, k, third)
    ensures First(t, third) == if First(t[d..], third) < 0 then -1 else First(t[d..], third) + d
  {
    hide First, CodeAt;
    var j := First(t[d..], third);
    var n := if j < 0 then |t| else j + d;
    forall k | 0 <= k < n
      ensures !CodeAt(t, k, third)
    {
      if k >= d {
        NoneBeforeFirst(t[d..], third, k - d);
        CodeShifted(t, d, k - d, third);
      }
    }
    if j >= 0 {
      CodeShifted(t, d, j, third);
    }
    FirstIs(t, third, n);
  }

  /** How the first removal moves when one byte is read. */
  lemma FirstAfter(s: seq<byte>, z: zeros)
    requires s != [] && !(z == 2 && s[0] == 3)
    ensures
      var y := After(z, s[0]);
      var i, j := First(B.Zeros(z) + s, 3), First(B.Zeros(y) + s[1..], 3);
      i == if j < 0 then -1 else j + z + 1 - y
  {
    hide First;
    var y := After(z, s[0]);
    var t, d := B.Zeros(z) + s, z + 1 - y;
    assert t[z] == s[0] && t[d..] == B.Zeros(y) + s[1..];
    FirstShifted(t, d, 3);
  }

  lemma Prepend(s: seq<byte>, n: nat)
    requires n + 1 < |s|
    ensures s[1..][n + 1..] == s[n + 2..]
    ensures [s[0]] + (s[1..][..n] + Scan(s[n + 2..], 0)) == s[..n + 1] + Scan(s[n + 2..], 0)
  {
    hide Scan;
  }

  /** The pass drops one byte, at i + 2 if the zeros in front are counted, and starts again behind it; or drops none. */
  predicate Removes(s: seq<byte>, z: zeros, i: int) {
    if i < 0 then Scan(s, z) == s
    else z <= i + 2 < z + |s| && Scan(s, z) == s[..i + 2 - z] + Scan(s[i + 3 - z..], 0)
  }

  lemma RemovesNext(s: seq<byte>, z: zeros, j: int)
    requires s != [] && !(z == 2 && s[0] == 3) && Removes(s[1..], After(z, s[0]), j)
    ensures Removes(s, z, if j < 0 then -1 else j + z + 1 - After(z, s[0]))
  {
    var y := After(z, s[0]);
    assert Scan(s, z) == [s[0]] + Scan(s[1..], y);
    hide Scan, After;
    if j >= 0 {
      Prepend(s, j + 2 - y);
    } else {
      assert [s[0]] + s[1..] == s;
    }
  }

  lemma RemovesFirst(s: seq<byte>)
    requires s != [] && s[0] == 3
    ensures First(B.Zeros(2) + s, 3) == 0 && Removes(s, 2, 0)
  {
    hide First;
    var t := B.Zeros(2) + s;
    assert t[0] == 0 && t[1] == 0 && t[2] == 3;
    FirstIs(t, 3, 0);
    assert Scan(s, 2) == [] + Scan(s[1..], 0);
  }

  lemma RemovesNothing(z: zeros)
    ensures First(B.Zeros(z) + [], 3) == -1 && Removes([], z, -1)
  {
  }

  lemma {:induction false} ScanRemoves(s: seq<byte>, z: zeros)
    ensures Removes(s, z, First(B.Zeros(z) + s, 3))
    decreases |s|
  {
    hide First, Removes, Scan, B.Zeros;
    if s == [] {
      RemovesNothing(z);
    } else if z == 2 && s[0] == 3 {
      RemovesFirst(s);
    } else {
      var y := After(z, s[0]);
      FirstAfter(s, z);
      ScanRemoves(s[1..], y);
      RemovesNext(s, z, First(B.Zeros(y) + s[1..], 3));
    }
  }

  /** Searching again after every removal is the same as one pass with a count of zeros. */
  lemma {:induction false} UnescapeIsOnePass(s: seq<byte>)
    ensures Unescape(s) == Scan(s, 0)
    decreases |s|
  {
    hide First, Unescape, Scan, CodeAt;
    ScanRemoves(s, 0);
    assert B.Zeros(0) + s == s;
    if First(s, 3) >= 0 {
      UnescapeFirst(s);
      UnescapeIsOnePass(s[First(s, 3) + 3..]);
    } else {
      UnescapeNothing(s);
    }
  }

  /** The encoder: 03 goes in front of any byte up to 03 that follows two zeros, and after two final zeros. (A payload
      that ends in zeros ends in cabac_zero_words, which are two zeros each.) */
  function Escape(s: seq<byte>, z: zeros): seq<byte> {
    if s == [] then (if z == 2 then [3] else [])
    else if z == 2 && s[0] <= 3 then [3, s[0]] + Escape(s[1..], After(0, s[0]))
    else [s[0]] + Escape(s[1..], After(z, s[0]))
  }

  lemma {:induction false} ScanOfEscape(s: seq<byte>, z: zeros)
    ensures Scan(Escape(s, z), z) == s
    decreases |s|
  {
    if s == [] {
      assert z == 2 ==> Scan([3], 2) == Scan([3][1..], 0) == [];
    } else if z == 2 && s[0] <= 3 {
      var more := Escape(s[1..], After(0, s[0]));
      ScanOfEscape(s[1..], After(0, s[0]));
      assert ([3, s[0]] + more)[1..] == [s[0]] + more && ([s[0]] + more)[1..] == more;
      assert Scan([s[0]] + more, 0) == [s[0]] + s[1..];
    } else {
      ScanOfEscape(s[1..], After(z, s[0]));
      assert ([s[0]] + Escape(s[1..], After(z, s[0])))[1..] == Escape(s[1..], After(z, s[0]));
    }
  }

  /** Decoding undoes emulation prevention for every byte string. */
  lemma EscapeRoundTrip(s: seq<byte>)
    ensures Unescape(Escape(s, 0)) == s
  {
    UnescapeIsOnePass(Escape(s, 0));
    ScanOfEscape(s, 0);
  }

  ghost predicate Nowhere(s: seq<byte>, third: byte) {
    forall k: nat :: !CodeAt(s, k, third)
  }

  lemma NowhereInTail(t: seq<byte>, d: nat, third: byte)
    requires d <= |t| && Nowhere(t[d..], third)
    requires forall k: nat :: k < d ==> !CodeAt(t, k, third)
    ensures Nowhere(t, third)
  {
    forall k: nat
      ensures !CodeAt(t, k, third)
    {
      if k >= d {
        assert !CodeAt(t[d..], k - d, third);
      }
    }
  }

  lemma AvoidsWithGuard(c: byte, more: seq<byte>, third: byte)
    requires c <= 3 && third <= 2 && Nowhere(B.Zeros(After(0, c)) + more, third)
    ensures Nowhere(B.Zeros(2) + ([3, c] + more), third)
  {
    var t := B.Zeros(2) + ([3, c] + more);
    assert t[2] == 3 && t[3] == c;
    var d := if c == 0 then 3 else 4;
    assert t[d..] == B.Zeros(After(0, c)) + more;
    NowhereInTail(t, d, third);
  }

  lemma AvoidsWithout(z: zeros, c: byte, more: seq<byte>, third: byte)
    requires third <= 2 && (z == 2 ==> c > 3) && Nowhere(B.Zeros(After(z, c)) + more, third)
    ensures Nowhere(B.Zeros(z) + ([c] + more), third)
  {
    var t := B.Zeros(z) + ([c] + more);
    var d := z + 1 - After(z, c);
    assert t[z] == c;
    assert t[d..] == B.Zeros(After(z, c)) + more;
    NowhereInTail(t, d, third);
  }

  /** An escaped string never spells a start code or three zeros, not even across what went before it. */
  lemma {:induction false} EscapeAvoids(s: seq<byte>, z: zeros, third: byte)
    requires third <= 2
    ensures Nowhere(B.Zeros(z) + Escape(s, z), third)
    decreases |s|
  {
    hide Nowhere, B.Zeros, After;
    if s == [] {
      AvoidsAtEnd(z, third);
    } else if z == 2 && s[0] <= 3 {
      EscapeAvoids(s[1..], After(0, s[0]), third);
      AvoidsWithGuard(s[0], Escape(s[1..], After(0, s[0])), third);
    } else {
      EscapeAvoids(s[1..], After(z, s[0]), third);
      AvoidsWithout(z, s[0], Escape(s[1..], After(z, s[0])), third);
    }
  }

  lemma AvoidsAtEnd(z: zeros, third: byte)
    requires third <= 2
    ensures Nowhere(B.Zeros(z) + if z == 2 then [3] else [], third)
  {
  }

  // ---- start codes ----

  /** Where the unit at the front of the bytes ends: before the next start code, or before the zero in front of it. */
  function UnitEnd(s: seq<byte>): (n: nat)
    ensures n <= |s|
  {
    var j := First(s, 1);
    if j < 0 then |s| else if j > 0 && s[j - 1] == 0 then j - 1 else j
  }

  /** The first unit of some bytes with a start code, and what comes after it. */
  function Head(s: seq<byte>): seq<byte>
    requires First(s, 1) >= 0
  {
    var rest := s[First(s, 1) + 3..];
    rest[..UnitEnd(rest)]
  }

  function Behind(s: seq<byte>): seq<byte>
    requires First(s, 1) >= 0
  {
    var rest := s[First(s, 1) + 3..];
    rest[UnitEnd(rest)..]
  }

  /** The units of a byte stream, as the loop finds them. */
  function Split(s: seq<byte>): seq<seq<byte>>
    decreases |s|
  {
    if First(s, 1) < 0 then [] else [Head(s)] + Split(Behind(s))
  }

  /** What is shown of a unit. */
  datatype Shown = Shown(header: byte, payload: seq<byte>)

  function Show(unit: seq<byte>): Shown
    requires unit != []
  {
    Shown(unit[0], Unescape(unit[1..]))
  }

  predicate NoneEmpty(units: seq<seq<byte>>) {
    forall i :: 0 <= i < |units| ==> units[i] != []
  }

  function ShowAll(units: seq<seq<byte>>): (out: seq<Shown>)
    requires NoneEmpty(units)
    ensures |out| == |units|
  {
    seq(|units|, i requires 0 <= i < |units| => Show(units[i]))
  }

  /** nal_unit_debug, without the printing. It reads the header byte of the unit, so there must be one. */
  method ShowUnit(a: array<byte>, lo: nat, hi: nat) returns (shown: Shown)
    requires lo < hi <= a.Length
    modifies a
    ensures shown == Show(old(a[lo..hi]))
    ensures a[..lo] == old(a[..lo]) && a[hi..] == old(a[hi..])
  {
    ghost var before := a[..];
    var header := a[lo];
    var size := Decode(a, lo + 1, hi);
    assert before[lo..hi][1..] == before[lo + 1..hi];
    assert a[..lo] == a[..lo + 1][..lo] == before[..lo];
    shown := Shown(header, a[lo + 1..lo + 1 + size]);
  }

  // ---- units without bytes ----

  /** A start code with nothing behind it: the input ends, or another start code of either length follows. */
  predicate EmptyAt(s: seq<byte>, i: nat) {
    CodeAt(s, i, 1) && (i + 3 == |s| || CodeAt(s, i + 3, 1) || (s[i + 3] == 0 && CodeAt(s, i + 4, 1)))
  }

  predicate NoEmptyUnit(s: seq<byte>) {
    forall i :: 0 <= i < |s| ==> !EmptyAt(s, i)
  }

  lemma NothingAtFront(s: seq<byte>)
    ensures UnitEnd(s) == 0 <==> s == [] || CodeAt(s, 0, 1) || (s[0] == 0 && CodeAt(s, 1, 1))
  {
    FirstIs(s, 1, 0);
    if !CodeAt(s, 0, 1) {
      FirstIs(s, 1, 1);
    }
    hide First;
  }

  /** The first unit is empty exactly when its start code has nothing behind it. */
  lemma FirstUnitEmpty(s: seq<byte>)
    requires First(s, 1) >= 0
    ensures Head(s) == [] <==> EmptyAt(s, First(s, 1))
  {
    var d := First(s, 1) + 3;
    assert d <= |s|;
    hide First, UnitEnd, CodeAt;
    NothingAtFront(s[d..]);
    CodeShifted(s, d, 0, 1);
    CodeShifted(s, d, 1, 1);
  }

  lemma NoCodeInUnit(s: seq<byte>, k: nat)
    requires k < UnitEnd(s)
    ensures !CodeAt(s, k, 1)
  {
    hide First, CodeAt;
    NoneBeforeFirst(s, 1, k);
  }

  lemma NoCodeInCode(s: seq<byte>, f: nat, i: nat)
    requires CodeAt(s, f, 1) && f < i < f + 3
    ensures !CodeAt(s, i, 1)
  {
    assert s[f + 2] == 1;
  }

  /** There is no start code but the first in front of what comes behind the first unit. */
  lemma NoCodeBetween(s: seq<byte>, i: nat)
    requires First(s, 1) >= 0 && i != First(s, 1) && i + |Behind(s)| < |s|
    ensures !CodeAt(s, i, 1)
  {
    var f := First(s, 1);
    assert f + 3 <= |s| && |Behind(s)| == |s| - (f + 3) - UnitEnd(s[f + 3..]);
    hide First, CodeAt, Behind, UnitEnd;
    if i < f {
      NoneBeforeFirst(s, 1, i);
    } else if i < f + 3 {
      NoCodeInCode(s, f, i);
    } else {
      CodeShifted(s, f + 3, i - (f + 3), 1);
      NoCodeInUnit(s[f + 3..], i - (f + 3));
    }
  }

  lemma BehindIs(s: seq<byte>)
    requires First(s, 1) >= 0
    ensures |Behind(s)| + 3 <= |s| - First(s, 1) && Behind(s) == s[|s| - |Behind(s)|..]
  {
    hide First;
    var f := First(s, 1);
    DropDrop(s, f + 3, UnitEnd(s[f + 3..]));
  }

  lemma EmptyShifted(s: seq<byte>, d: nat, i: nat)
    requires d <= |s|
    ensures EmptyAt(s[d..], i) <==> EmptyAt(s, d + i)
  {
  }

  lemma EmptyIsCode(s: seq<byte>, i: nat)
    requires EmptyAt(s, i)
    ensures CodeAt(s, i, 1)
  {
  }

  lemma NoEmptyBehind(s: seq<byte>)
    requires First(s, 1) >= 0
    ensures NoEmptyUnit(s) <==> !EmptyAt(s, First(s, 1)) && NoEmptyUnit(Behind(s))
  {
    hide First, Behind, EmptyAt, CodeAt;
    var f, d := First(s, 1), |s| - |Behind(s)|;
    BehindIs(s);
    if NoEmptyUnit(s) {
      forall i | 0 <= i < |Behind(s)|
        ensures !EmptyAt(Behind(s), i)
      {
        EmptyShifted(s, d, i);
      }
    }
    if !EmptyAt(s, f) && NoEmptyUnit(Behind(s)) {
      forall i | 0 <= i < |s|
        ensures !EmptyAt(s, i)
      {
        if i >= d {
          EmptyShifted(s, d, i - d);
        } else if i != f && EmptyAt(s, i) {
          EmptyIsCode(s, i);
          NoCodeBetween(s, i);
        }
      }
    }
  }

  /** The loop meets no unit without bytes exactly when no start code has nothing behind it. */
  lemma {:induction false} NoneEmptyExactly(s: seq<byte>)
    ensures NoneEmpty(Split(s)) <==> NoEmptyUnit(s)
    decreases |s|
  {
    if First(s, 1) < 0 {
      forall i | 0 <= i < |s|
        ensures !EmptyAt(s, i)
      {
        NoneBeforeFirst(s, 1, i);
      }
    } else {
      BehindIs(s);
      assert Split(s) == [Head(s)] + Split(Behind(s));
      hide First, Behind, Head, EmptyAt, Split, NoEmptyUnit;
      FirstUnitEmpty(s);
      NoEmptyBehind(s);
      NoneEmptyExactly(Behind(s));
      NoneEmptyCons(Head(s), Split(Behind(s)));
    }
  }

  lemma NoneEmptyCons(unit: seq<byte>, more: seq<seq<byte>>)
    ensures NoneEmpty([unit] + more) <==> unit != [] && NoneEmpty(more)
  {
    assert ([unit] + more)[0] == unit;
    assert forall i :: 0 <= i < |more| ==> more[i] == ([unit] + more)[i + 1];
  }

  /** Three bytes on which the source reads past its input: a start code at the end. And a start code that is followed
      by another. */
  lemma EmptyUnits()
    ensures !NoneEmpty(Split([0, 0, 1])) && !NoneEmpty(Split([0, 0, 1, 0, 0, 0, 1, 0x65]))
  {
    assert EmptyAt([0, 0, 1], 0) && EmptyAt([0, 0, 1, 0, 0, 0, 1, 0x65], 0);
    NoneEmptyExactly([0, 0, 1]);
    NoneEmptyExactly([0, 0, 1, 0, 0, 0, 1, 0x65]);
  }

  // ---- the loop over the units ----

  /** nal_stream_debug: every unit is shown, in order, although each is rewritten in place while the loop goes on. A
      unit without bytes would make the source read past it, so no start code may have nothing behind it. */
  method ShowStream(a: array<byte>) returns (shown: seq<Shown>)
    requires NoEmptyUnit(a[..])
    modifies a
    ensures NoneEmpty(Split(old(a[..]))) && shown == ShowAll(Split(old(a[..])))
  {
    hide First, Split, Unescape, Show, NoneEmpty, ShowAll, CodeAt, Head, Behind, NoEmptyUnit;
    NoneEmptyExactly(a[..]);
    ghost var units, tail := Split(a[..]), a[..];
    shown := [];
    var begin, end := 0, a.Length;
    while true
      invariant 0 <= begin <= end == a.Length && a[begin..] == tail
      invariant NoneEmpty(units) && NoneEmpty(Split(tail))
      invariant ShowAll(units) == shown + ShowAll(Split(tail))
      decreases end - begin
    {
      ghost var from := begin;
      assert a[begin..end] == tail;
      var found, i := Find(a, begin, end, 1);
      if !found {
        SplitNothing(tail);
        break;
      }
      begin := i + 3;
      var next;
      found, next := Find(a, begin, end, 1);
      if !found {
        next := end;
      } else if a[next - 1] == 0 {
        next := next - 1;
      }
      UnitInBuffer(a[..], from, begin, next);
      SplitOne(tail);
      ghost var unit := Head(tail);
      tail := Behind(tail);
      assert a[begin..next] == unit;
      var one := ShowUnit(a, begin, next);
      shown := shown + [one];
      begin := next;
    }
  }

  /** The loop may look at the byte in front of the next start code: if that is not in the unit, it is 01. */
  lemma UnitInBuffer(s: seq<byte>, from: nat, begin: nat, next: int)
    requires from <= |s| && First(s[from..], 1) >= 0 && begin == from + First(s[from..], 1) + 3
    requires begin <= |s|
    requires
      var j := First(s[begin..|s|], 1);
      next == if j < 0 then |s| else if s[begin + j - 1] == 0 then begin + j - 1 else begin + j
    ensures begin <= next <= |s| && s[begin..next] == Head(s[from..]) && s[next..] == Behind(s[from..])
  {
    hide First, UnitEnd;
    var rest := s[begin..|s|];
    DropDrop(s, from, begin - from);
    BackOne(s, from, begin - 1 - from);
    UnitEndSeen(s, begin);
    hide CodeAt;
    PartsOfSlice(s, begin, |s|, UnitEnd(rest));
    assert s[begin..] == rest;
  }

  lemma UnitEndSeen(s: seq<byte>, begin: nat)
    requires 0 < begin <= |s| && s[begin - 1] != 0
    ensures
      var j := First(s[begin..|s|], 1);
      begin + UnitEnd(s[begin..|s|]) ==
      if j < 0 then |s| else if s[begin + j - 1] == 0 then begin + j - 1 else begin + j
  {
    hide First, CodeAt;
    var j := First(s[begin..|s|], 1);
    if j > 0 {
      FirstInside(s[begin..|s|], 1);
      assert s[begin..|s|][j - 1] == s[begin + j - 1];
    }
  }

  lemma FirstInside(s: seq<byte>, third: byte)
    ensures First(s, third) < |s|
  {
  }

  lemma DropDrop(s: seq<byte>, from: nat, j: nat)
    requires from + j <= |s|
    ensures s[from..][j..] == s[from + j..]
  {
  }

  lemma BackOne(s: seq<byte>, from: nat, k: nat)
    requires from + k < |s|
    ensures s[from..][k] == s[from + k]
  {
  }

  lemma SplitNothing(s: seq<byte>)
    requires First(s, 1) < 0
    ensures NoneEmpty(Split(s)) && ShowAll(Split(s)) == []
  {
  }

  lemma SplitOne(s: seq<byte>)
    requires First(s, 1) >= 0 && NoneEmpty(Split(s))
    ensures Head(s) != [] && NoneEmpty(Split(Behind(s)))
    ensures ShowAll(Split(s)) == [Show(Head(s))] + ShowAll(Split(Behind(s)))
  {
    hide First, Head, Behind, Show;
    ShowOne(Head(s), Split(Behind(s)));
  }

  lemma ShowOne(unit: seq<byte>, more: seq<seq<byte>>)
    requires NoneEmpty([unit] + more)
    ensures unit != [] && NoneEmpty(more) && ShowAll([unit] + more) == [Show(unit)] + ShowAll(more)
  {
    assert ([unit] + more)[0] == unit;
    assert forall i :: 0 <= i < |more| ==> more[i] == ([unit] + more)[i + 1];
  }

  // ---- Annex B ----

  /** A start code of three bytes, or of four. */
  function StartCode(long: bool): seq<byte> {
    if long then [0, 0, 0, 1] else [0, 0, 1]
  }

  /** Units behind start codes, each of either length. */
  function Join(units: seq<seq<byte>>, long: seq<bool>): seq<byte>
    requires |long| == |units|
  {
    if units == [] then [] else StartCode(long[0]) + (units[0] + Join(units[1..], long[1..]))
  }

  /** A unit that the loop can tell from what follows it: it does not contain a start code, and if it ends in a zero
      then no three-byte start code follows. */
  predicate Told(u: seq<byte>, code: seq<byte>) {
    First(u, 1) < 0 && (u == [] || u[|u| - 1] != 0 || code != StartCode(false))
  }

  /** The start code behind the first unit, if there is one. */
  function NextCode(long: seq<bool>): seq<byte> {
    if |long| > 1 then StartCode(long[1]) else []
  }

  predicate AllTold(units: seq<seq<byte>>, long: seq<bool>)
    requires |long| == |units|
  {
    units == [] || (Told(units[0], NextCode(long)) && AllTold(units[1..], long[1..]))
  }

  lemma StartCodeFirst(long: bool, s: seq<byte>)
    ensures First(StartCode(long) + s, 1) == |StartCode(long)| - 3
    ensures (StartCode(long) + s)[|StartCode(long)|..] == s
  {
    var t := StartCode(long) + s;
    assert long ==> !CodeAt(t, 0, 1) && CodeAt(t, 1, 1);
    assert !long ==> CodeAt(t, 0, 1);
    FirstIs(t, 1, |StartCode(long)| - 3);
  }

  /** Where a code is found behind a unit that does not contain one: none straddles the border. */
  lemma CodeBehind(u: seq<byte>, long: bool, more: seq<byte>)
    requires First(u, 1) < 0
    ensures First(u + (StartCode(long) + more), 1) == |u| + |StartCode(long)| - 3
  {
    hide First;
    var t := u + (StartCode(long) + more);
    var n := |u| + |StartCode(long)| - 3;
    assert t[|u|] == 0 && t[|u| + 1] == 0 && t[n + 1] == 0 && t[n + 2] == 1;
    forall k | 0 <= k < n
      ensures !CodeAt(t, k, 1)
    {
      if k + 2 < |u| {
        assert t[k] == u[k] && t[k + 1] == u[k + 1] && t[k + 2] == u[k + 2];
        NoneBeforeFirst(u, 1, k);
      } else {
        assert k + 2 == |u| || k + 2 == |u| + 1 || k + 2 == n + 1;
      }
    }
    FirstIs(t, 1, n);
  }

  lemma CodeInside(u: seq<byte>, more: seq<byte>)
    requires First(u, 1) >= 0
    ensures First(u + more, 1) == First(u, 1)
  {
    hide First;
    var n := First(u, 1);
    forall k | 0 <= k < n
      ensures !CodeAt(u + more, k, 1)
    {
      NoneBeforeFirst(u, 1, k);
    }
    FirstIs(u + more, 1, n);
  }

  /** The end of the first unit is found exactly when the unit can be told from what follows. */
  lemma UnitEndExact(u: seq<byte>, units: seq<seq<byte>>, long: seq<bool>)
    requires |long| == |units| + 1
    ensures UnitEnd(u + Join(units, long[1..])) == |u| <==> Told(u, NextCode(long))
  {
    var tail := Join(units, long[1..]);
    hide First;
    if First(u, 1) >= 0 {
      CodeInside(u, tail);
    } else if units == [] {
      assert u + tail == u;
    } else {
      var more := units[0] + Join(units[1..], long[1..][1..]);
      CodeBehind(u, long[1], more);
      assert long[1] ==> (u + tail)[|u|] == 0;
      assert StartCode(true) != StartCode(false);
    }
  }

  /** Splitting inverts joining, with any mix of start codes, exactly when every unit can be told from what follows it:
      the units are found, all of them and in order, if and only if none contains a start code or ends in a zero in
      front of a three-byte start code. */
  lemma {:induction false} SplitOfJoin(units: seq<seq<byte>>, long: seq<bool>)
    requires |long| == |units|
    ensures Split(Join(units, long)) == units <==> AllTold(units, long)
    decreases |units|
  {
    if units != [] {
      var u, tail := units[0], Join(units[1..], long[1..]);
      var all, told, rest := Join(units, long), AllTold(units, long), AllTold(units[1..], long[1..]);
      assert all == StartCode(long[0]) + (u + tail) && told == (Told(u, NextCode(long)) && rest);
      hide *;
      UnitEndExact(u, units[1..], long);
      SplitOfJoin(units[1..], long[1..]);
      SplitFirst(long[0], u, tail);
      SameList(Split(all), units);
    }
  }

  /** A unit that is one zero is lost in front of a three-byte start code, and kept in front of a four-byte one. */
  lemma ZeroIsLost()
    ensures Split(Join([[0], [5]], [true, false])) != [[0], [5]]
    ensures Split(Join([[0], [5]], [true, true])) == [[0], [5]]
  {
    hide Split, Join;
    assert [[0], [5]][1..] == [[5]] && [[5]][1..] == [] && [true, false][1..] == [false] && [true, true][1..] == [true];
    assert StartCode(true)[0] == 0 && StartCode(false) != StartCode(true);
    SplitOfJoin([[0], [5]], [true, false]);
    SplitOfJoin([[0], [5]], [true, true]);
  }

  lemma SameList(s: seq<seq<byte>>, t: seq<seq<byte>>)
    requires s != [] && t != []
    ensures s == t <==> s[0] == t[0] && s[1..] == t[1..]
  {
    assert s == [s[0]] + s[1..] && t == [t[0]] + t[1..];
  }

  lemma SplitFirst(long: bool, u: seq<byte>, tail: seq<byte>)
    ensures
      var units := Split(StartCode(long) + (u + tail));
      && units != [] && units[0] == (u + tail)[..UnitEnd(u + tail)]
      && if UnitEnd(u + tail) == |u| then units[0] == u && units[1..] == Split(tail) else units[0] != u
  {
    hide First, UnitEnd;
    StartCodeFirst(long, u + tail);
    var s, t := StartCode(long) + (u + tail), u + tail;
    assert s[First(s, 1) + 3..] == t;
    assert t[..|u|] == u && t[|u|..] == tail;
  }

  /** Bytes in front of the first start code are no unit; and without a start code there is none. */
  lemma FrontIsSkipped(front: seq<byte>, long: bool, more: seq<byte>)
    requires First(front, 1) < 0
    ensures Split(front) == [] && Split(front + (StartCode(long) + more)) == Split(StartCode(long) + more)
  {
    CodeBehind(front, long, more);
    StartCodeFirst(long, more);
    hide First, UnitEnd, StartCode;
    var code := StartCode(long);
    var s, t := code + more, front + (code + more);
    assert t[|front| + |code|..] == more && s[|code|..] == more;
    assert First(t, 1) + 3 == |front| + |code| && First(s, 1) + 3 == |code|;
  }

  // ---- both together ----

  /** A unit as an encoder makes it. */
  function MakeUnit(shown: Shown): seq<byte> {
    [shown.header] + Escape(shown.payload, 0)
  }

  /** A header byte that is not zero, and a payload that does not end in a zero. */
  predicate Sendable(shown: Shown) {
    shown.header != 0 && (shown.payload != [] ==> shown.payload[|shown.payload| - 1] != 0)
  }

  lemma {:induction false} EscapeEnds(s: seq<byte>, z: zeros)
    requires s != [] && s[|s| - 1] != 0
    ensures Escape(s, z) != [] && Escape(s, z)[|Escape(s, z)| - 1] != 0
    decreases |s|
  {
    if |s| > 1 {
      EscapeEnds(s[1..], After(if z == 2 && s[0] <= 3 then 0 else z, s[0]));
    } else {
      assert s[1..] == [];
    }
  }

  lemma NowhereIsNone(s: seq<byte>, third: byte)
    requires Nowhere(s, third)
    ensures First(s, third) < 0
  {
    FirstIs(s, third, |s|);
  }

  lemma MadeUnitHasNoCode(shown: Shown)
    requires shown.header != 0
    ensures First(MakeUnit(shown), 1) < 0
  {
    hide First, Escape, Nowhere;
    var u, e := MakeUnit(shown), Escape(shown.payload, 0);
    EscapeAvoids(shown.payload, 0, 1);
    assert B.Zeros(0) + e == u[1..] == e;
    NowhereInTail(u, 1, 1);
    NowhereIsNone(u, 1);
  }

  lemma MadeUnitIsTold(shown: Shown, code: seq<byte>)
    requires Sendable(shown)
    ensures Told(MakeUnit(shown), code) && MakeUnit(shown) != [] && Show(MakeUnit(shown)) == shown
  {
    assert Escape([], 0) == [];
    hide First, Escape, Unescape;
    MadeUnitHasNoCode(shown);
    if shown.payload != [] {
      EscapeEnds(shown.payload, 0);
    }
    EscapeRoundTrip(shown.payload);
    assert MakeUnit(shown)[1..] == Escape(shown.payload, 0);
  }

  function MakeAll(shown: seq<Shown>): (units: seq<seq<byte>>)
    ensures |units| == |shown|
  {
    seq(|shown|, i requires 0 <= i < |shown| => MakeUnit(shown[i]))
  }

  lemma {:induction false} MadeUnitsAreTold(shown: seq<Shown>, long: seq<bool>)
    requires |long| == |shown| && forall i :: 0 <= i < |shown| ==> Sendable(shown[i])
    ensures AllTold(MakeAll(shown), long)
    decreases |shown|
  {
    hide Told, NextCode, MakeUnit, Sendable;
    if shown != [] {
      MadeUnitIsTold(shown[0], NextCode(long));
      MadeUnitsAreTold(shown[1..], long[1..]);
      assert MakeAll(shown)[1..] == MakeAll(shown[1..]);
    }
  }

  /** What is found of a unit that cannot be told from what follows it: less than the unit. */
  lemma NotTold(u: seq<byte>, units: seq<seq<byte>>, long: seq<bool>)
    requires |long| == |units| + 1 && !Told(u, NextCode(long))
    ensures
      var n := UnitEnd(u + Join(units, long[1..]));
      if First(u, 1) >= 0 then n <= First(u, 1) else u != [] && u[|u| - 1] == 0 && n == |u| - 1
  {
    var tail := Join(units, long[1..]);
    hide First;
    if First(u, 1) >= 0 {
      CodeInside(u, tail);
    } else {
      assert units != [] && !long[1];
      CodeBehind(u, false, units[0] + Join(units[1..], long[1..][1..]));
      assert (u + tail)[|u| - 1] == 0;
    }
  }

  lemma {:induction false} ScanOfZeroBehind(s: seq<byte>, z: zeros)
    ensures Scan(s + [0], z) == Scan(s, z) + [0]
    decreases |s|
  {
    if s == [] {
      assert [0][1..] == [] && ([] + [0])[0] == 0;
    } else {
      assert (s + [0])[1..] == s[1..] + [0] && (s + [0])[0] == s[0];
      ScanOfZeroBehind(s[1..], if z == 2 && s[0] == 3 then 0 else After(z, s[0]));
    }
  }

  /** A made unit can only spell a start code with its header. */
  lemma CodeAtHeader(shown: Shown)
    ensures First(MakeUnit(shown), 1) <= 0
  {
    var u, e := MakeUnit(shown), Escape(shown.payload, 0);
    hide First, Escape, Nowhere;
    EscapeAvoids(shown.payload, 0, 1);
    assert B.Zeros(0) + e == u[1..] == e;
    if !CodeAt(u, 0, 1) {
      NowhereInTail(u, 1, 1);
      NowhereIsNone(u, 1);
    } else {
      FirstIs(u, 1, 0);
    }
  }

  /** What is found of such a unit is empty, or is not shown as it was. */
  lemma LostIsNotShown(shown: Shown, n: nat)
    requires
      var u := MakeUnit(shown);
      if First(u, 1) >= 0 then n <= First(u, 1) else u[|u| - 1] == 0 && n == |u| - 1
    ensures n <= |MakeUnit(shown)|
    ensures var unit := MakeUnit(shown)[..n]; unit == [] || Show(unit) != shown
  {
    hide First, Escape, Unescape;
    CodeAtHeader(shown);
    var u, e := MakeUnit(shown), Escape(shown.payload, 0);
    if n > 0 {
      var f := e[..|e| - 1];
      assert e == f + [0] && u[..n][1..] == f;
      EscapeRoundTrip(shown.payload);
      UnescapeIsOnePass(e);
      UnescapeIsOnePass(f);
      ScanOfZeroBehind(f, 0);
    }
  }

  lemma MadeUnitShows(shown: Shown)
    ensures MakeUnit(shown) != [] && Show(MakeUnit(shown)) == shown
  {
    hide Escape, Unescape;
    EscapeRoundTrip(shown.payload);
    assert MakeUnit(shown)[1..] == Escape(shown.payload, 0);
  }

  predicate ShownAs(units: seq<seq<byte>>, shown: seq<Shown>) {
    NoneEmpty(units) && ShowAll(units) == shown
  }

  lemma ShownAsFirst(unit: seq<byte>, more: seq<seq<byte>>, one: Shown, rest: seq<Shown>)
    ensures ShownAs([unit] + more, [one] + rest) <==> unit != [] && Show(unit) == one && ShownAs(more, rest)
  {
    hide Show;
    NoneEmptyCons(unit, more);
    if unit != [] && NoneEmpty(more) {
      ShowOne(unit, more);
      hide ShowAll;
      assert ([Show(unit)] + ShowAll(more))[1..] == ShowAll(more) && ([one] + rest)[1..] == rest;
    }
  }

  lemma FirstIsLost(one: Shown, rest: seq<Shown>, units: seq<seq<byte>>, long: seq<bool>)
    requires |long| == |units| + 1 && !Told(MakeUnit(one), NextCode(long))
    ensures !ShownAs(Split(StartCode(long[0]) + (MakeUnit(one) + Join(units, long[1..]))), [one] + rest)
  {
    var u, tail := MakeUnit(one), Join(units, long[1..]);
    hide *;
    NotTold(u, units, long);
    var n := UnitEnd(u + tail);
    LostIsNotShown(one, n);
    PrefixOf(u, tail, n);
    SplitFirst(long[0], u, tail);
    NotShownAs(Split(StartCode(long[0]) + (u + tail)), one, rest);
  }

  lemma PrefixOf(u: seq<byte>, tail: seq<byte>, n: nat)
    requires n <= |u|
    ensures (u + tail)[..n] == u[..n]
  {
  }

  lemma NotShownAs(found: seq<seq<byte>>, one: Shown, rest: seq<Shown>)
    requires found != [] && (found[0] == [] || Show(found[0]) != one)
    ensures !ShownAs(found, [one] + rest)
  {
    hide *;
    assert found == [found[0]] + found[1..];
    ShownAsFirst(found[0], found[1..], one, rest);
  }

  lemma FirstIsKept(one: Shown, rest: seq<Shown>, units: seq<seq<byte>>, long: seq<bool>)
    requires |long| == |units| + 1 && Told(MakeUnit(one), NextCode(long))
    ensures ShownAs(Split(StartCode(long[0]) + (MakeUnit(one) + Join(units, long[1..]))), [one] + rest) <==>
            ShownAs(Split(Join(units, long[1..])), rest)
  {
    var u, tail := MakeUnit(one), Join(units, long[1..]);
    hide *;
    UnitEndExact(u, units, long);
    SplitFirst(long[0], u, tail);
    MadeUnitShows(one);
    var found := Split(StartCode(long[0]) + (u + tail));
    assert found == [u] + found[1..];
    ShownAsFirst(u, found[1..], one, rest);
  }

  /** Headers and payloads, escaped and joined into a byte stream in any mix of start codes, are shown as they were, all
      and in order, exactly when every unit that was made can be told from what follows it. */
  lemma {:induction false} StreamRoundTrip(shown: seq<Shown>, long: seq<bool>)
    requires |long| == |shown|
    ensures ShownAs(Split(Join(MakeAll(shown), long)), shown) <==> AllTold(MakeAll(shown), long)
    decreases |shown|
  {
    if shown == [] {
      assert MakeAll(shown) == [] && ShowAll([]) == [];
    } else {
      var units, u := MakeAll(shown), MakeUnit(shown[0]);
      assert units[0] == u && units[1..] == MakeAll(shown[1..]);
      assert Join(units, long) == StartCode(long[0]) + (u + Join(units[1..], long[1..]));
      assert AllTold(units, long) <==> Told(u, NextCode(long)) && AllTold(units[1..], long[1..]);
      hide *;
      assert shown == [shown[0]] + shown[1..];
      StreamRoundTrip(shown[1..], long[1..]);
      if Told(u, NextCode(long)) {
        FirstIsKept(shown[0], shown[1..], units[1..], long);
      } else {
        FirstIsLost(shown[0], shown[1..], units[1..], long);
      }
    }
  }
}
