/** Vectors of inputs and outputs: a count, then the elements; decoding sees at most 4,000,000 bytes. */
module TxVectors {
  import opened Bytes
  import opened Parsing
  import opened Streams
  import opened VarInts
  import opened Limits
  import opened Witnesses
  import opened TxParts

  function TxInsBytes(xs: seq<TxIn>): bytes {
    Counted(TxInBytes, xs)
  }

  function TxOutsBytes(xs: seq<TxOut>): bytes {
    Counted(TxOutBytes, xs)
  }

  function CountedReader<T>(dec: bytes -> Parsed<T>): bytes -> Parsed<seq<T>> {
    s => ReadCounted(dec, s)
  }

  /** `Vec<TxIn>::decode`: the limit is on the whole vector and, again, on each script. */
  function ReadTxIns(s: bytes): Parsed<seq<TxIn>> {
    Limited(CountedReader(TxInReader(ReadScript)), MAX_VEC_SIZE, s)
  }

  function ReadTxOuts(s: bytes): Parsed<seq<TxOut>> {
    Limited(CountedReader(ReadTxOut), MAX_VEC_SIZE, s)
  }

  ghost predicate ListOk<T>(ok: T -> bool, xs: seq<T>) {
    IsU64(|xs|) && forall x :: x in xs ==> ok(x)
  }

  /** Inputs without witnesses, whose scripts and count have 64-bit lengths: the field sizes of the format. */
  ghost predicate BareInputs(xs: seq<TxIn>) {
    ListOk(TxInFits(HasU64Length), xs)
  }

  ghost predicate SmallInputs(xs: seq<TxIn>) {
    ListOk(TxInFits(ScriptFits), xs)
  }

  ghost predicate Outputs(xs: seq<TxOut>) {
    ListOk(TxOutFits, xs)
  }

  lemma CountedLawful<T(!new)>(ok: T -> bool, enc: T -> bytes, dec: bytes -> Parsed<T>, listOk: seq<T> -> bool, listEnc: seq<T> -> bytes)
    requires Lawful(ok, enc, dec)
    requires forall xs :: listOk(xs) == ListOk(ok, xs)
    requires forall xs :: listEnc(xs) == Counted(enc, xs)
    ensures Lawful(listOk, listEnc, CountedReader(dec))
  {
    hide Counted, ReadCounted;
    forall xs: seq<T>, t: bytes | listOk(xs)
      ensures CountedReader(dec)(listEnc(xs) + t) == Done(xs, t)
    {
      ReadCountedOf(ok, enc, dec, xs, t);
    }
    forall s: bytes | CountedReader(dec)(s).Done?
      ensures var p := CountedReader(dec)(s); listOk(p.value) && s == listEnc(p.value) + p.rest
    {
      ReadCountedCanonical(ok, enc, dec, s);
    }
  }

  lemma InputsLawful()
    ensures Lawful(BareInputs, TxInsBytes, CountedReader(TxInReader(ReadVarBytes)))
    ensures Lawful(SmallInputs, TxInsBytes, CountedReader(TxInReader(ReadScript)))
  {
    hide Counted, ListOk;
    VarBytesLawful();
    ScriptLawful();
    TxInLawful(HasU64Length, ReadVarBytes);
    TxInLawful(ScriptFits, ReadScript);
    CountedLawful(TxInFits(HasU64Length), TxInBytes, TxInReader(ReadVarBytes), BareInputs, TxInsBytes);
    CountedLawful(TxInFits(ScriptFits), TxInBytes, TxInReader(ReadScript), SmallInputs, TxInsBytes);
  }

  lemma OutputsLawful()
    ensures Lawful(Outputs, TxOutsBytes, CountedReader(ReadTxOut))
  {
    hide Counted, ListOk;
    TxOutLawful();
    CountedLawful(TxOutFits, TxOutBytes, ReadTxOut, Outputs, TxOutsBytes);
  }

  // ---- Inputs as they come back: with empty witnesses

  function Bare(xs: seq<TxIn>): (ys: seq<TxIn>)
    ensures |ys| == |xs|
  {
    seq(|xs|, i requires 0 <= i < |xs| => xs[i].(witnessData := EMPTY))
  }

  ghost predicate Sendable(xs: seq<TxIn>) {
    IsU64(|xs|) && forall x :: x in xs ==> HasU64Length(x.scriptSig)
  }

  lemma BareIsBare(xs: seq<TxIn>)
    requires Sendable(xs)
    ensures BareInputs(Bare(xs)) && TxInsBytes(Bare(xs)) == TxInsBytes(xs)
  {
    FlatPointwise(TxInBytes, Bare(xs), TxInBytes, xs);
    forall y | y in Bare(xs)
      ensures TxInFits(HasU64Length)(y)
    {
      var i :| 0 <= i < |xs| && y == xs[i].(witnessData := EMPTY);
      assert xs[i] in xs;
    }
  }

  /** An element is never longer than the list it is in. */
  lemma {:induction false} ElementNoLonger<T>(enc: T -> bytes, xs: seq<T>, x: T)
    requires x in xs
    ensures |enc(x)| <= |Flat(enc, xs)|
  {
    if x != xs[|xs| - 1] {
      ElementNoLonger(enc, xs[..|xs| - 1], x);
    }
  }

  lemma ScriptNoLonger(x: TxIn)
    ensures |VarBytes(x.scriptSig)| <= |TxInBytes(x)|
  {
  }

  lemma ShortIsSmall(xs: seq<TxIn>)
    requires BareInputs(xs) && |TxInsBytes(xs)| <= MAX_VEC_SIZE
    ensures SmallInputs(xs)
  {
    hide VarBytes, TxInBytes, Flat;
    forall x | x in xs
      ensures TxInFits(ScriptFits)(x)
    {
      ElementNoLonger(TxInBytes, xs, x);
      assert TxInFits(HasU64Length)(x);
      ScriptNoLonger(x);
      assert ScriptFits(x.scriptSig);
    }
  }

  /** Decoding inverts encoding, but for the witnesses, exactly when the whole encoding is within the limit. */
  lemma TxInsRoundTrip(xs: seq<TxIn>, t: bytes)
    requires Sendable(xs)
    ensures var p := ReadTxIns(TxInsBytes(xs) + t);
            if |TxInsBytes(xs)| <= 4_000_000 then p == Done(Bare(xs), t) else p.Failed?
  {
    hide TxInsBytes, Bare, BareInputs, SmallInputs, CountedReader, TxInReader;
    BareIsBare(xs);
    InputsLawful();
    var p := ReadTxIns(TxInsBytes(xs) + t);
    if |TxInsBytes(xs)| <= MAX_VEC_SIZE {
      ShortIsSmall(Bare(xs));
      LimitedAccepts(SmallInputs, TxInsBytes, CountedReader(TxInReader(ReadScript)), MAX_VEC_SIZE, Bare(xs), t);
    } else if p.Done? {
      TxInsCanonical(TxInsBytes(xs) + t);
      UniqueSplit(BareInputs, TxInsBytes, CountedReader(TxInReader(ReadVarBytes)), Bare(xs), t, p.value, p.rest);
      assert false;
    }
  }

  /** Whatever is accepted is the encoding of the result, which has no witnesses. */
  lemma TxInsCanonical(s: bytes)
    requires ReadTxIns(s).Done?
    ensures var p := ReadTxIns(s);
            BareInputs(p.value) && |TxInsBytes(p.value)| <= 4_000_000 && s == TxInsBytes(p.value) + p.rest
  {
    InputsLawful();
    LimitedCanonical(SmallInputs, TxInsBytes, CountedReader(TxInReader(ReadScript)), MAX_VEC_SIZE, s);
    var p := ReadTxIns(s);
    assert SmallInputs(p.value);
    forall x | x in p.value
      ensures TxInFits(HasU64Length)(x)
    {
      assert TxInFits(ScriptFits)(x);
    }
  }

  lemma TxOutsRoundTrip(xs: seq<TxOut>, t: bytes)
    requires Outputs(xs)
    ensures var p := ReadTxOuts(TxOutsBytes(xs) + t);
            if |TxOutsBytes(xs)| <= 4_000_000 then p == Done(xs, t) else p.Failed?
  {
    hide TxOutsBytes, Outputs, CountedReader;
    OutputsLawful();
    var p := ReadTxOuts(TxOutsBytes(xs) + t);
    if |TxOutsBytes(xs)| <= MAX_VEC_SIZE {
      LimitedAccepts(Outputs, TxOutsBytes, CountedReader(ReadTxOut), MAX_VEC_SIZE, xs, t);
    } else if p.Done? {
      TxOutsCanonical(TxOutsBytes(xs) + t);
      UniqueSplit(Outputs, TxOutsBytes, CountedReader(ReadTxOut), xs, t, p.value, p.rest);
      assert false;
    }
  }

  lemma TxOutsCanonical(s: bytes)
    requires ReadTxOuts(s).Done?
    ensures var p := ReadTxOuts(s);
            Outputs(p.value) && |TxOutsBytes(p.value)| <= 4_000_000 && s == TxOutsBytes(p.value) + p.rest
  {
    OutputsLawful();
    LimitedCanonical(Outputs, TxOutsBytes, CountedReader(ReadTxOut), MAX_VEC_SIZE, s);
  }

  // ---- The methods

  method EncodeTxIns(xs: seq<TxIn>, w: ByteVec) returns (len: nat)
    requires Sendable(xs)
    modifies w
    ensures w.data == old(w.data) + TxInsBytes(xs) && len == |TxInsBytes(xs)|
  {
    hide VarIntBytes, TxInBytes, Flat;
    len := EncodeVarInt(|xs|, w);
    ghost var head := w.data;
    FlatNone(TxInBytes);
    for i := 0 to |xs|
      invariant w.data == head + Flat(TxInBytes, xs[..i])
      invariant len == |VarIntBytes(|xs|)| + |Flat(TxInBytes, xs[..i])|
    {
      FlatSnoc(TxInBytes, xs, i);
      AppendStep(head, Flat(TxInBytes, xs[..i]), TxInBytes(xs[i]));
      var n := EncodeTxIn(xs[i], w);
      len := len + n;
    }
    assert xs[..|xs|] == xs;
    AppendStep(old(w.data), VarIntBytes(|xs|), Flat(TxInBytes, xs));
  }

  method EncodeTxOuts(xs: seq<TxOut>, w: ByteVec) returns (len: nat)
    requires Outputs(xs)
    modifies w
    ensures w.data == old(w.data) + TxOutsBytes(xs) && len == |TxOutsBytes(xs)|
  {
    hide VarIntBytes, TxOutBytes, Flat;
    len := EncodeVarInt(|xs|, w);
    ghost var head := w.data;
    FlatNone(TxOutBytes);
    for i := 0 to |xs|
      invariant w.data == head + Flat(TxOutBytes, xs[..i])
      invariant len == |VarIntBytes(|xs|)| + |Flat(TxOutBytes, xs[..i])|
    {
      FlatSnoc(TxOutBytes, xs, i);
      AppendStep(head, Flat(TxOutBytes, xs[..i]), TxOutBytes(xs[i]));
      assert TxOutFits(xs[i]);
      var n := EncodeTxOut(xs[i], w);
      len := len + n;
    }
    assert xs[..|xs|] == xs;
    AppendStep(old(w.data), VarIntBytes(|xs|), Flat(TxOutBytes, xs));
  }

  method DecodeTxInsFinite(r: Reader) returns (res: Result<seq<TxIn>>)
    requires r.Valid()
    modifies r
    ensures r.Valid() && r.end == old(r.end) && old(r.pos) <= r.pos
    ensures Agrees(ReadCounted(TxInReader(ReadScript), old(r.Rest())), res, r.Rest())
  {
    hide ReadVarInt, ReadTxIn, ReadMany;
    var len :- DecodeVarInt(r);
    ghost var all := r.Rest();
    ghost var dec := TxInReader(ReadScript);
    var ret: seq<TxIn> := [];
    AfterNone(ReadMany(dec, len, all));
    for i := 0 to len
      invariant r.Valid() && r.end == old(r.end) && old(r.pos) <= r.pos
      invariant ReadMany(dec, len, all) == After(ret, ReadMany(dec, len - i, r.Rest()))
    {
      ReadManyStep(dec, len - i, r.Rest());
      var x :- DecodeTxIn(r);
      AfterSnoc(ret, x, ReadMany(dec, len - i - 1, r.Rest()));
      ret := ret + [x];
    }
    ReadNone(dec, r.Rest());
    AfterAll(ret, r.Rest());
    res := Success(ret);
  }

  method DecodeTxIns(r: Reader) returns (res: Result<seq<TxIn>>)
    requires r.Valid()
    modifies r
    ensures r.Valid() && r.end == old(r.end) && old(r.pos) <= r.pos
    ensures Agrees(ReadTxIns(old(r.Rest())), res, r.Rest())
  {
    hide ReadCounted;
    var outer := r.Take(MAX_VEC_SIZE);
    res := DecodeTxInsFinite(r);
    r.EndTake(outer);
  }

  method DecodeTxOutsFinite(r: Reader) returns (res: Result<seq<TxOut>>)
    requires r.Valid()
    modifies r
    ensures r.Valid() && r.end == old(r.end) && old(r.pos) <= r.pos
    ensures Agrees(ReadCounted(ReadTxOut, old(r.Rest())), res, r.Rest())
  {
    hide ReadVarInt, ReadTxOut, ReadMany;
    var len :- DecodeVarInt(r);
    ghost var all := r.Rest();
    ghost var dec := ReadTxOut;
    var ret: seq<TxOut> := [];
    AfterNone(ReadMany(dec, len, all));
    for i := 0 to len
      invariant r.Valid() && r.end == old(r.end) && old(r.pos) <= r.pos
      invariant ReadMany(dec, len, all) == After(ret, ReadMany(dec, len - i, r.Rest()))
    {
      ReadManyStep(dec, len - i, r.Rest());
      var x :- DecodeTxOut(r);
      AfterSnoc(ret, x, ReadMany(dec, len - i - 1, r.Rest()));
      ret := ret + [x];
    }
    ReadNone(dec, r.Rest());
    AfterAll(ret, r.Rest());
    res := Success(ret);
  }

  method DecodeTxOuts(r: Reader) returns (res: Result<seq<TxOut>>)
    requires r.Valid()
    modifies r
    ensures r.Valid() && r.end == old(r.end) && old(r.pos) <= r.pos
    ensures Agrees(ReadTxOuts(old(r.Rest())), res, r.Rest())
  {
    hide ReadCounted;
    var outer := r.Take(MAX_VEC_SIZE);
    res := DecodeTxOutsFinite(r);
    r.EndTake(outer);
  }
}
