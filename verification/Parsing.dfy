/** Reading values off the front of a byte string, and the two laws that tie a reader to an encoder. */
module Parsing {
  import opened Bytes

  datatype Error = UnexpectedEof | NonMinimalVarInt | OversizedVectorAllocation | InvalidData

  datatype Option<+T> = None | Some(value: T)

  /** What a method that advances a reader returns. */
  datatype Result<+T> = Success(value: T) | Failure(error: Error) {
    predicate IsFailure() { Failure? }
    function PropagateFailure<U>(): Result<U>
      requires Failure?
    {
      Failure(error)
    }
    function Extract(): T
      requires Success?
    {
      value
    }
  }

  /** What a pure reader returns: a value and the bytes that follow it. */
  datatype Parsed<+T> = Done(value: T, rest: bytes) | Failed(error: Error) {
    predicate IsFailure() { Failed? }
    function PropagateFailure<U>(): Parsed<U>
      requires Failed?
    {
      Failed(error)
    }
    function Extract(): (T, bytes)
      requires Done?
    {
      (value, rest)
    }
  }

  /** Reading back any encoding, whatever follows it, gives the value and exactly what followed. */
  ghost predicate RoundTrips<T(!new)>(ok: T -> bool, enc: T -> bytes, dec: bytes -> Parsed<T>) {
    forall x: T, t: bytes {:trigger dec(enc(x) + t)} :: ok(x) ==> dec(enc(x) + t) == Done(x, t)
  }

  /** Whatever is accepted is an encoding of the value returned. */
  ghost predicate Canonical<T(!new)>(ok: T -> bool, enc: T -> bytes, dec: bytes -> Parsed<T>) {
    forall s: bytes {:trigger dec(s)} ::
      dec(s).Done? ==> ok(dec(s).value) && s == enc(dec(s).value) + dec(s).rest
  }

  ghost predicate Lawful<T(!new)>(ok: T -> bool, enc: T -> bytes, dec: bytes -> Parsed<T>) {
    RoundTrips(ok, enc, dec) && Canonical(ok, enc, dec)
  }

  lemma UniqueSplit<T(!new)>(ok: T -> bool, enc: T -> bytes, dec: bytes -> Parsed<T>, x: T, s: bytes, y: T, t: bytes)
    requires RoundTrips(ok, enc, dec) && ok(x) && ok(y)
    requires enc(x) + s == enc(y) + t
    ensures x == y && s == t
  {
    assert dec(enc(x) + s) == Done(x, s);
    assert dec(enc(y) + t) == Done(y, t);
  }

  // ---- Fixed-size fields

  function ReadBytes(s: bytes, n: nat): (p: Parsed<bytes>)
    ensures p.Done? ==> |p.value| == n && s == p.value + p.rest
  {
    if |s| < n then Failed(UnexpectedEof) else Done(s[..n], s[n..])
  }

  function ReadLE(s: bytes, k: nat): (p: Parsed<nat>)
    ensures p.Done? ==> p.value < Pow256(k) && s == LE(p.value, k) + p.rest
  {
    if |s| < k then Failed(UnexpectedEof)
    else
      LEOfFromLE(s[..k]);
      Done(FromLE(s[..k]), s[k..])
  }

  lemma ReadLEOfLE(v: nat, k: nat, t: bytes)
    requires v < Pow256(k)
    ensures ReadLE(LE(v, k) + t, k) == Done(v, t)
  {
    FromLEOfLE(v, k);
    assert (LE(v, k) + t)[..k] == LE(v, k);
  }

  lemma ReadBytesOf(d: bytes, t: bytes)
    ensures ReadBytes(d + t, |d|) == Done(d, t)
  {
    assert (d + t)[..|d|] == d && (d + t)[|d|..] == t;
  }

  // ---- Lists

  /** The encodings of `xs`, one after the other. */
  function Flat<T>(enc: T -> bytes, xs: seq<T>): bytes {
    if xs == [] then [] else Flat(enc, xs[..|xs| - 1]) + enc(xs[|xs| - 1])
  }

  lemma {:induction false} FlatConcat<T>(enc: T -> bytes, xs: seq<T>, ys: seq<T>)
    ensures Flat(enc, xs + ys) == Flat(enc, xs) + Flat(enc, ys)
  {
    if ys == [] {
      assert xs + ys == xs;
    } else {
      var n := |ys| - 1;
      FlatConcat(enc, xs, ys[..n]);
      assert (xs + ys)[..|xs + ys| - 1] == xs + ys[..n];
      AppendStep(Flat(enc, xs), Flat(enc, ys[..n]), enc(ys[n]));
    }
  }

  lemma FlatCons<T>(enc: T -> bytes, xs: seq<T>)
    requires xs != []
    ensures Flat(enc, xs) == enc(xs[0]) + Flat(enc, xs[1..])
  {
    hide *;
    FlatConcat(enc, [xs[0]], xs[1..]);
    FlatOne(enc, xs[0]);
    assert [xs[0]] + xs[1..] == xs;
  }

  lemma FlatOne<T>(enc: T -> bytes, x: T)
    ensures Flat(enc, [x]) == enc(x)
  {
    assert [x][..0] == [];
  }

  lemma FlatSnoc<T>(enc: T -> bytes, xs: seq<T>, i: nat)
    requires i < |xs|
    ensures Flat(enc, xs[..i + 1]) == Flat(enc, xs[..i]) + enc(xs[i])
  {
    assert xs[..i + 1][..i] == xs[..i];
  }

  /** Where the encoding of element `i` is. */
  lemma FlatAt<T>(enc: T -> bytes, xs: seq<T>, i: nat)
    requires i < |xs|
    ensures var at := |Flat(enc, xs[..i])|;
            at + |enc(xs[i])| <= |Flat(enc, xs)| && Flat(enc, xs)[at..at + |enc(xs[i])|] == enc(xs[i])
  {
    hide Flat;
    FlatConcat(enc, xs[..i], xs[i..]);
    assert xs[..i] + xs[i..] == xs;
    FlatCons(enc, xs[i..]);
    SliceOfSecond(Flat(enc, xs[..i]), Flat(enc, xs[i..]), 0, |enc(xs[i])|);
  }

  lemma {:induction false} FixedLength<T>(enc: T -> bytes, xs: seq<T>, k: nat)
    requires forall i | 0 <= i < |xs| :: |enc(xs[i])| == k
    ensures |Flat(enc, xs)| == k * |xs|
  {
    if xs != [] {
      var n := |xs| - 1;
      FixedLength(enc, xs[..n], k);
      assert k * (n + 1) == k * n + k;
    }
  }

  /** Element by element the same bytes, so the same bytes. */
  lemma {:induction false} FlatPointwise<T, U>(enc: T -> bytes, xs: seq<T>, enc': U -> bytes, ys: seq<U>)
    requires |xs| == |ys| && forall i | 0 <= i < |xs| :: enc(xs[i]) == enc'(ys[i])
    ensures Flat(enc, xs) == Flat(enc', ys)
  {
    if xs != [] {
      FlatPointwise(enc, xs[..|xs| - 1], enc', ys[..|xs| - 1]);
    }
  }

  function ReadMany<T>(dec: bytes -> Parsed<T>, n: nat, s: bytes): (p: Parsed<seq<T>>)
    ensures p.Done? ==> |p.value| == n
  {
    if n == 0 then Done([], s)
    else
      var (x, r) :- dec(s);
      var (xs, r') :- ReadMany(dec, n - 1, r);
      Done([x] + xs, r')
  }

  /** `p` with `xs` in front of the values read; the shape of a loop that pushes as it reads. */
  function After<T>(xs: seq<T>, p: Parsed<seq<T>>): Parsed<seq<T>> {
    if p.Done? then Done(xs + p.value, p.rest) else p
  }

  lemma ReadManyStep<T>(dec: bytes -> Parsed<T>, n: nat, s: bytes)
    requires n > 0
    ensures ReadMany(dec, n, s) ==
            match dec(s)
            case Done(x, r) => After([x], ReadMany(dec, n - 1, r))
            case Failed(e) => Failed(e)
  {
  }

  lemma ReadNone<T>(dec: bytes -> Parsed<T>, s: bytes)
    ensures ReadMany(dec, 0, s) == Done([], s)
  {
  }

  lemma AfterSnoc<T>(xs: seq<T>, x: T, p: Parsed<seq<T>>)
    ensures After(xs, After([x], p)) == After(xs + [x], p)
  {
    if p.Done? {
      assert xs + ([x] + p.value) == xs + [x] + p.value;
    }
  }

  lemma AfterNone<T>(p: Parsed<seq<T>>)
    ensures After([], p) == p
  {
    if p.Done? {
      assert [] + p.value == p.value;
    }
  }

  lemma AfterAll<T>(xs: seq<T>, s: bytes)
    ensures After(xs, Done([], s)) == Done(xs, s)
  {
    assert xs + [] == xs;
  }

  lemma {:induction false} ReadManyOfFlat<T(!new)>(ok: T -> bool, enc: T -> bytes, dec: bytes -> Parsed<T>, xs: seq<T>, t: bytes)
    requires RoundTrips(ok, enc, dec)
    requires forall x :: x in xs ==> ok(x)
    ensures ReadMany(dec, |xs|, Flat(enc, xs) + t) == Done(xs, t)
  {
    if xs == [] {
      assert Flat(enc, xs) + t == t;
    } else {
      FlatCons(enc, xs);
      var tail := Flat(enc, xs[1..]) + t;
      assert Flat(enc, xs) + t == enc(xs[0]) + tail;
      ReadManyOfFlat(ok, enc, dec, xs[1..], t);
      assert [xs[0]] + xs[1..] == xs;
    }
  }

  lemma {:induction false} ReadManyCanonical<T(!new)>(ok: T -> bool, enc: T -> bytes, dec: bytes -> Parsed<T>, n: nat, s: bytes)
    requires Canonical(ok, enc, dec)
    requires ReadMany(dec, n, s).Done?
    ensures var p := ReadMany(dec, n, s);
            (forall x :: x in p.value ==> ok(x)) && s == Flat(enc, p.value) + p.rest
  {
    hide Flat;
    if n > 0 {
      var p := ReadMany(dec, n, s);
      var first := dec(s);
      var others := ReadMany(dec, n - 1, first.rest);
      ReadManyCanonical(ok, enc, dec, n - 1, first.rest);
      assert p.value == [first.value] + others.value;
      assert p.value[1..] == others.value;
      FlatCons(enc, p.value);
    } else {
      FlatNone(enc);
    }
  }

  lemma FlatNone<T>(enc: T -> bytes)
    ensures Flat(enc, []) == []
  {
  }

  /** Self-delimiting, non-empty encodings need no count: the concatenation alone fixes the list. */
  lemma {:induction false} FlatInjective<T(!new)>(ok: T -> bool, enc: T -> bytes, dec: bytes -> Parsed<T>, xs: seq<T>, ys: seq<T>)
    requires RoundTrips(ok, enc, dec)
    requires forall x :: x in xs ==> ok(x)
    requires forall y :: y in ys ==> ok(y)
    requires forall x :: ok(x) ==> enc(x) != []
    requires Flat(enc, xs) == Flat(enc, ys)
    ensures xs == ys
  {
    if xs == [] || ys == [] {
      if xs != [] { FlatCons(enc, xs); }
      if ys != [] { FlatCons(enc, ys); }
    } else {
      FlatCons(enc, xs);
      FlatCons(enc, ys);
      UniqueSplit(ok, enc, dec, xs[0], Flat(enc, xs[1..]), ys[0], Flat(enc, ys[1..]));
      FlatInjective(ok, enc, dec, xs[1..], ys[1..]);
      assert xs == [xs[0]] + xs[1..] && ys == [ys[0]] + ys[1..];
    }
  }

  // ---- Readers cut off after a number of bytes

  /** `dec` run through `take(limit)`: it sees only the first `limit` bytes. */
  function Limited<T>(dec: bytes -> Parsed<T>, limit: nat, s: bytes): Parsed<T> {
    var m := Min(limit, |s|);
    var (x, r) :- dec(s[..m]);
    Done(x, r + s[m..])
  }

  lemma LimitedAccepts<T(!new)>(ok: T -> bool, enc: T -> bytes, dec: bytes -> Parsed<T>, limit: nat, x: T, t: bytes)
    requires RoundTrips(ok, enc, dec) && ok(x) && |enc(x)| <= limit
    ensures Limited(dec, limit, enc(x) + t) == Done(x, t)
  {
    var s := enc(x) + t;
    var m := Min(limit, |s|);
    var t' := t[..m - |enc(x)|];
    assert s[..m] == enc(x) + t';
    assert t' + s[m..] == t;
  }

  lemma LimitedCanonical<T(!new)>(ok: T -> bool, enc: T -> bytes, dec: bytes -> Parsed<T>, limit: nat, s: bytes)
    requires Canonical(ok, enc, dec)
    requires Limited(dec, limit, s).Done?
    ensures var p := Limited(dec, limit, s);
            ok(p.value) && |enc(p.value)| <= limit && s == enc(p.value) + p.rest
  {
    var m := Min(limit, |s|);
    assert s == s[..m] + s[m..];
    var q := dec(s[..m]);
    assert s[..m] == enc(q.value) + q.rest;
    assert |s[..m]| == |enc(q.value)| + |q.rest|;
  }
}
