/** The variable-length integer: 1, 3, 5 or 9 bytes, and only the shortest form is accepted. */
module VarInts {
  import opened Bytes
  import opened Parsing
  import opened Streams

  function Size(v: nat): nat {
    if v <= 0xFC then 1 else if v <= 0xFFFF then 3 else if v <= 0xFFFF_FFFF then 5 else 9
  }

  function VarIntBytes(v: nat): bytes {
    if v <= 0xFC then LE(v, 1)
    else if v <= 0xFFFF then [0xFD] + LE(v, 2)
    else if v <= 0xFFFF_FFFF then [0xFE] + LE(v, 4)
    else [0xFF] + LE(v, 8)
  }

  /** The width of the field after the first byte and the least value that needs it. */
  function Class(first: byte): (nat, nat) {
    if first == 0xFF then (8, 0x1_0000_0000)
    else if first == 0xFE then (4, 0x1_0000)
    else if first == 0xFD then (2, 0xFD)
    else (0, 0)
  }

  function ReadVarInt(s: bytes): Parsed<nat> {
    var (n, r) :- ReadLE(s, 1);
    WordSizes();
    if n < 0xFD then Done(n, r)
    else
      var (width, least) := Class(n);
      var (x, r') :- ReadLE(r, width);
      if x < least then Failed(NonMinimalVarInt) else Done(x, r')
  }

  predicate IsU64(v: nat) { v <= USIZE_MAX }

  lemma VarIntLength(v: nat)
    ensures |VarIntBytes(v)| == Size(v)
  {
  }

  /** The four forms, byte by byte. */
  lemma VarIntLayout(v: nat)
    requires IsU64(v)
    ensures VarIntBytes(v) ==
            if v < 0xFD then [v]
            else if v < 0x1_0000 then [0xFD, v % 0x100, v / 0x100]
            else if v < 0x1_0000_0000 then [0xFE, v % 0x100, v / 0x100 % 0x100, v / 0x1_0000 % 0x100, v / 0x100_0000]
            else [0xFF, v % 0x100, v / 0x100 % 0x100, v / 0x1_0000 % 0x100, v / 0x100_0000 % 0x100,
                  v / 0x1_0000_0000 % 0x100, v / 0x100_0000_0000 % 0x100,
                  v / 0x1_0000_0000_0000 % 0x100, v / 0x100_0000_0000_0000]
  {
    hide LE;
    if v < 0xFD {
      LESmall(v, 1);
    } else if v < 0x1_0000 {
      LEOfTwo(v);
    } else if v < 0x1_0000_0000 {
      LEOfFour(v);
    } else {
      LEOfEight(v);
    }
  }

  /** A bijection between the 64-bit integers and the accepted byte strings. */
  lemma VarIntLawful()
    ensures Lawful(IsU64, VarIntBytes, ReadVarInt)
    ensures forall v: nat :: IsU64(v) ==> |VarIntBytes(v)| == Size(v)
  {
    forall v: nat, t: bytes | IsU64(v)
      ensures ReadVarInt(VarIntBytes(v) + t) == Done(v, t)
    {
      ReadVarIntOf(v, t);
    }
    forall s: bytes | ReadVarInt(s).Done?
      ensures var p := ReadVarInt(s); IsU64(p.value) && s == VarIntBytes(p.value) + p.rest
    {
      ReadVarIntCanonical(s);
    }
  }

  lemma ReadVarIntOf(v: nat, t: bytes)
    requires IsU64(v)
    ensures ReadVarInt(VarIntBytes(v) + t) == Done(v, t)
  {
    WordSizes();
    var s := VarIntBytes(v) + t;
    if v <= 0xFC {
      ReadLEOfLE(v, 1, t);
    } else {
      var first := VarIntBytes(v)[0];
      var width := Class(first).0;
      assert LE(first, 1) == [first] + LE(first / 256, 0);
      var tail := LE(v, width) + t;
      assert s == LE(first, 1) + tail;
      ReadLEOfLE(first, 1, tail);
      ReadLEOfLE(v, width, t);
    }
  }

  lemma ReadVarIntCanonical(s: bytes)
    requires ReadVarInt(s).Done?
    ensures var p := ReadVarInt(s); IsU64(p.value) && s == VarIntBytes(p.value) + p.rest
  {
    hide LE, FromLE, Pow256;
    WordSizes();
    var p := ReadVarInt(s);
    var head := ReadLE(s, 1);
    var n := head.value;
    if n >= 0xFD {
      LESmall(n, 1);
      assert head.rest == LE(p.value, Class(n).0) + p.rest;
      AppendStep([n], LE(p.value, Class(n).0), p.rest);
    }
  }

  /** The first byte is zero for the value zero and for no other. */
  lemma FirstByteZero(v: nat)
    requires IsU64(v)
    ensures VarIntBytes(v) != [] && (VarIntBytes(v)[0] == 0 <==> v == 0)
  {
  }

  method EncodeVarInt(v: u64, w: ByteVec) returns (n: nat)
    modifies w
    ensures w.data == old(w.data) + VarIntBytes(v)
    ensures n == |VarIntBytes(v)| == Size(v)
  {
    if v <= 0xFC {
      w.WriteAll(LE(v, 1));
      n := 1;
    } else if v <= 0xFFFF {
      w.WriteAll([0xFD]);
      w.WriteAll(LE(v, 2));
      n := 3;
    } else if v <= 0xFFFF_FFFF {
      w.WriteAll([0xFE]);
      w.WriteAll(LE(v, 4));
      n := 5;
    } else {
      w.WriteAll([0xFF]);
      w.WriteAll(LE(v, 8));
      n := 9;
    }
    assert w.data == old(w.data) + VarIntBytes(v);
  }

  method DecodeVarInt(r: Reader) returns (res: Result<u64>)
    requires r.Valid()
    modifies r`pos
    ensures r.Valid() && old(r.pos) <= r.pos
    ensures Agrees(ReadVarInt(old(r.Rest())), res, r.Rest())
  {
    WordSizes();
    var n :- r.ReadWord(1);
    if n == 0xFF {
      var x :- r.ReadWord(8);
      res := if x < 0x1_0000_0000 then Failure(NonMinimalVarInt) else Success(x);
    } else if n == 0xFE {
      var x :- r.ReadWord(4);
      res := if x < 0x1_0000 then Failure(NonMinimalVarInt) else Success(x);
    } else if n == 0xFD {
      var x :- r.ReadWord(2);
      res := if x < 0xFD then Failure(NonMinimalVarInt) else Success(x);
    } else {
      res := Success(n);
    }
  }

  // ---- Length-prefixed byte strings

  function VarBytes(d: bytes): bytes {
    VarIntBytes(|d|) + d
  }

  function ReadVarBytes(s: bytes): Parsed<bytes> {
    var (n, r) :- ReadVarInt(s);
    ReadBytes(r, n)
  }

  lemma VarBytesLength(d: bytes)
    ensures |VarBytes(d)| == Size(|d|) + |d|
  {
  }

  predicate HasU64Length(d: bytes) { IsU64(|d|) }

  lemma VarBytesLawful()
    ensures Lawful(HasU64Length, VarBytes, ReadVarBytes)
  {
    forall d: bytes, t: bytes | HasU64Length(d)
      ensures ReadVarBytes(VarBytes(d) + t) == Done(d, t)
    {
      assert VarBytes(d) + t == VarIntBytes(|d|) + (d + t);
      ReadVarIntOf(|d|, d + t);
      ReadBytesOf(d, t);
    }
    forall s: bytes | ReadVarBytes(s).Done?
      ensures var p := ReadVarBytes(s); HasU64Length(p.value) && s == VarBytes(p.value) + p.rest
    {
      ReadVarIntCanonical(s);
    }
  }

  method EncodeWithSize(d: bytes, w: ByteVec) returns (n: nat)
    requires HasU64Length(d)
    modifies w
    ensures w.data == old(w.data) + VarBytes(d) && n == |VarBytes(d)|
  {
    n := EncodeVarInt(|d|, w);
    w.WriteAll(d);
    n := n + |d|;
    assert w.data == old(w.data) + VarBytes(d);
  }

  // ---- Counted lists

  function Counted<T>(enc: T -> bytes, xs: seq<T>): bytes {
    VarIntBytes(|xs|) + Flat(enc, xs)
  }

  function ReadCounted<T>(dec: bytes -> Parsed<T>, s: bytes): Parsed<seq<T>> {
    var (n, r) :- ReadVarInt(s);
    ReadMany(dec, n, r)
  }

  lemma ReadCountedOf<T(!new)>(ok: T -> bool, enc: T -> bytes, dec: bytes -> Parsed<T>, xs: seq<T>, t: bytes)
    requires RoundTrips(ok, enc, dec) && IsU64(|xs|)
    requires forall x :: x in xs ==> ok(x)
    ensures ReadCounted(dec, Counted(enc, xs) + t) == Done(xs, t)
  {
    assert Counted(enc, xs) + t == VarIntBytes(|xs|) + (Flat(enc, xs) + t);
    ReadVarIntOf(|xs|, Flat(enc, xs) + t);
    ReadManyOfFlat(ok, enc, dec, xs, t);
  }

  lemma ReadCountedCanonical<T(!new)>(ok: T -> bool, enc: T -> bytes, dec: bytes -> Parsed<T>, s: bytes)
    requires Canonical(ok, enc, dec)
    requires ReadCounted(dec, s).Done?
    ensures var p := ReadCounted(dec, s);
            IsU64(|p.value|) && (forall x :: x in p.value ==> ok(x)) && s == Counted(enc, p.value) + p.rest
  {
    hide VarIntBytes, ReadVarInt, Flat, ReadMany;
    ReadVarIntCanonical(s);
    var head := ReadVarInt(s);
    ReadManyCanonical(ok, enc, dec, head.value, head.rest);
  }
}
