/** Out points, transaction inputs and transaction outputs. */
module TxParts {
  import opened Bytes
  import opened Parsing
  import opened Streams
  import opened VarInts
  import opened Limits
  import opened Witnesses

  /** A hash is kept in display order and sent reversed. */
  datatype OutPoint = OutPoint(txid: Bytes32, vout: u32)

  datatype TxIn = TxIn(previousOutput: OutPoint, scriptSig: bytes, sequence: u32, witnessData: Witness)

  datatype TxOut = TxOut(value: u64, scriptPubkey: bytes)

  // ---- Out points: always 36 bytes

  function OutPointBytes(o: OutPoint): (s: bytes)
    ensures |s| == 36
  {
    Reverse(o.txid) + LE(o.vout, 4)
  }

  function ReadOutPoint(s: bytes): Parsed<OutPoint> {
    var (h, r) :- ReadBytes(s, 32);
    var (vout, r') :- ReadLE(r, 4);
    WordSizes();
    Done(OutPoint(Reverse(h), vout), r')
  }

  predicate AnyOutPoint(o: OutPoint) { true }

  lemma OutPointLawful()
    ensures Lawful(AnyOutPoint, OutPointBytes, ReadOutPoint)
  {
    forall o: OutPoint, t: bytes
      ensures ReadOutPoint(OutPointBytes(o) + t) == Done(o, t)
    {
      hide LE, FromLE;
      WordSizes();
      assert OutPointBytes(o) + t == Reverse(o.txid) + (LE(o.vout, 4) + t);
      ReadBytesOf(Reverse(o.txid), LE(o.vout, 4) + t);
      ReadLEOfLE(o.vout, 4, t);
      ReverseInvolutive(o.txid);
    }
    forall s: bytes | ReadOutPoint(s).Done?
      ensures s == OutPointBytes(ReadOutPoint(s).value) + ReadOutPoint(s).rest
    {
      hide LE, FromLE;
      ReverseInvolutive(ReadBytes(s, 32).value);
    }
  }

  /** The 36 bytes: the hash from its last byte to its first, then the output index. */
  lemma OutPointLayout(o: OutPoint)
    ensures forall j | 0 <= j < 32 :: OutPointBytes(o)[j] == o.txid[31 - j]
    ensures OutPointBytes(o)[..32] == Reverse(o.txid) && OutPointBytes(o)[32..] == LE(o.vout, 4)
  {
    hide LE;
  }

  method EncodeOutPoint(o: OutPoint, w: ByteVec) returns (n: nat)
    modifies w
    ensures w.data == old(w.data) + OutPointBytes(o) && n == |OutPointBytes(o)|
  {
    w.WriteAll(Reverse(o.txid));
    n := |o.txid|;
    w.WriteAll(LE(o.vout, 4));
    n := n + 4;
    assert w.data == old(w.data) + OutPointBytes(o);
  }

  method DecodeOutPoint(r: Reader) returns (res: Result<OutPoint>)
    requires r.Valid()
    modifies r`pos
    ensures r.Valid() && old(r.pos) <= r.pos
    ensures Agrees(ReadOutPoint(old(r.Rest())), res, r.Rest())
  {
    hide LE, FromLE;
    var h :- r.ReadExact(32);
    var vout :- r.ReadWord(4);
    WordSizes();
    res := Success(OutPoint(Reverse(h), vout));
  }

  // ---- Inputs: the witness is left out

  function TxInBytes(x: TxIn): bytes {
    OutPointBytes(x.previousOutput) + VarBytes(x.scriptSig) + LE(x.sequence, 4)
  }

  function ReadTxIn(script: bytes -> Parsed<bytes>, s: bytes): Parsed<TxIn> {
    var (o, r) :- ReadOutPoint(s);
    var (d, r') :- script(r);
    var (q, r'') :- ReadLE(r', 4);
    WordSizes();
    Done(TxIn(o, d, q, EMPTY), r'')
  }

  /** The input reader over a script reader: the decoder's, cut off at the limit, or an unlimited one. */
  function TxInReader(script: bytes -> Parsed<bytes>): bytes -> Parsed<TxIn> {
    s => ReadTxIn(script, s)
  }

  function TxInFits(scriptOk: bytes -> bool): TxIn -> bool {
    (x: TxIn) => x.witnessData == EMPTY && scriptOk(x.scriptSig)
  }

  lemma TxInLawful(scriptOk: bytes -> bool, script: bytes -> Parsed<bytes>)
    requires Lawful(scriptOk, VarBytes, script)
    ensures Lawful(TxInFits(scriptOk), TxInBytes, TxInReader(script))
  {
    forall x: TxIn, t: bytes | TxInFits(scriptOk)(x)
      ensures TxInReader(script)(TxInBytes(x) + t) == Done(x, t)
    {
      ReadTxInOf(scriptOk, script, x, t);
    }
    forall s: bytes | TxInReader(script)(s).Done?
      ensures var p := TxInReader(script)(s);
              TxInFits(scriptOk)(p.value) && s == TxInBytes(p.value) + p.rest
    {
      ReadTxInCanonical(scriptOk, script, s);
    }
  }

  lemma ReadTxInOf(scriptOk: bytes -> bool, script: bytes -> Parsed<bytes>, x: TxIn, t: bytes)
    requires RoundTrips(scriptOk, VarBytes, script)
    requires x.witnessData == EMPTY && scriptOk(x.scriptSig)
    ensures ReadTxIn(script, TxInBytes(x) + t) == Done(x, t)
  {
    hide LE, FromLE, OutPointBytes, ReadOutPoint, VarBytes;
    OutPointLawful();
    WordSizes();
    var t1 := LE(x.sequence, 4) + t;
    var t2 := VarBytes(x.scriptSig) + t1;
    assert TxInBytes(x) + t == OutPointBytes(x.previousOutput) + t2;
    assert ReadOutPoint(OutPointBytes(x.previousOutput) + t2) == Done(x.previousOutput, t2);
    assert script(VarBytes(x.scriptSig) + t1) == Done(x.scriptSig, t1);
    ReadLEOfLE(x.sequence, 4, t);
  }

  lemma ReadTxInCanonical(scriptOk: bytes -> bool, script: bytes -> Parsed<bytes>, s: bytes)
    requires Canonical(scriptOk, VarBytes, script)
    requires ReadTxIn(script, s).Done?
    ensures var p := ReadTxIn(script, s);
            p.value.witnessData == EMPTY && scriptOk(p.value.scriptSig) && s == TxInBytes(p.value) + p.rest
  {
    hide LE, FromLE, OutPointBytes, ReadOutPoint, VarBytes;
    OutPointLawful();
    var p := ReadTxIn(script, s);
    var o := ReadOutPoint(s);
    var d := script(o.rest);
    assert s == OutPointBytes(o.value) + (VarBytes(d.value) + (LE(p.value.sequence, 4) + p.rest));
  }

  /** Where each field of an input is. */
  lemma TxInLayout(x: TxIn)
    ensures var s, n := TxInBytes(x), |VarBytes(x.scriptSig)|;
            && |s| == n + 40
            && (forall j | 0 <= j < 32 :: s[j] == x.previousOutput.txid[31 - j])
            && s[32..36] == LE(x.previousOutput.vout, 4)
            && s[36..n + 36] == VarBytes(x.scriptSig)
            && s[n + 36..] == LE(x.sequence, 4)
  {
    hide LE, VarBytes, OutPointBytes;
    OutPointLayout(x.previousOutput);
    SliceOfFirst(OutPointBytes(x.previousOutput), VarBytes(x.scriptSig) + LE(x.sequence, 4), 32, 4);
    assert TxInBytes(x) == OutPointBytes(x.previousOutput) + (VarBytes(x.scriptSig) + LE(x.sequence, 4));
  }

  method EncodeTxIn(x: TxIn, w: ByteVec) returns (n: nat)
    requires HasU64Length(x.scriptSig)
    modifies w
    ensures w.data == old(w.data) + TxInBytes(x) && n == |TxInBytes(x)|
  {
    n := EncodeOutPoint(x.previousOutput, w);
    var m := EncodeWithSize(x.scriptSig, w);
    n := n + m;
    w.WriteAll(LE(x.sequence, 4));
    n := n + 4;
    assert w.data == old(w.data) + TxInBytes(x);
  }

  method DecodeTxIn(r: Reader) returns (res: Result<TxIn>)
    requires r.Valid()
    modifies r
    ensures r.Valid() && r.end == old(r.end) && old(r.pos) <= r.pos
    ensures Agrees(ReadTxIn(ReadScript, old(r.Rest())), res, r.Rest())
  {
    hide ReadOutPoint, ReadScript, LE, FromLE;
    var o :- DecodeOutPoint(r);
    var d :- DecodeScript(r);
    var q :- r.ReadWord(4);
    WordSizes();
    res := Success(TxIn(o, d, q, EMPTY));
  }

  // ---- Outputs

  function TxOutBytes(x: TxOut): bytes {
    LE(x.value, 8) + VarBytes(x.scriptPubkey)
  }

  function ReadTxOut(s: bytes): Parsed<TxOut> {
    var (v, r) :- ReadLE(s, 8);
    var (d, r') :- ReadVarBytes(r);
    WordSizes();
    Done(TxOut(v, d), r')
  }

  predicate TxOutFits(x: TxOut) { HasU64Length(x.scriptPubkey) }

  lemma TxOutLawful()
    ensures Lawful(TxOutFits, TxOutBytes, ReadTxOut)
  {
    VarBytesLawful();
    forall x: TxOut, t: bytes | TxOutFits(x)
      ensures ReadTxOut(TxOutBytes(x) + t) == Done(x, t)
    {
      hide LE, FromLE, VarBytes, ReadVarBytes;
      WordSizes();
      var t1 := VarBytes(x.scriptPubkey) + t;
      assert TxOutBytes(x) + t == LE(x.value, 8) + t1;
      ReadLEOfLE(x.value, 8, t1);
      assert ReadVarBytes(t1) == Done(x.scriptPubkey, t);
    }
    forall s: bytes | ReadTxOut(s).Done?
      ensures var p := ReadTxOut(s); TxOutFits(p.value) && s == TxOutBytes(p.value) + p.rest
    {
      hide LE, FromLE, VarBytes, ReadVarBytes;
      var p := ReadTxOut(s);
      var v := ReadLE(s, 8);
      assert ReadVarBytes(v.rest).Done?;
      assert s == LE(p.value.value, 8) + (VarBytes(p.value.scriptPubkey) + p.rest);
    }
  }

  /** Where each field of an output is. */
  lemma TxOutLayout(x: TxOut)
    ensures |TxOutBytes(x)| == 8 + |VarBytes(x.scriptPubkey)|
    ensures TxOutBytes(x)[..8] == LE(x.value, 8) && TxOutBytes(x)[8..] == VarBytes(x.scriptPubkey)
  {
    hide LE, VarBytes;
  }

  method EncodeTxOut(x: TxOut, w: ByteVec) returns (n: nat)
    requires HasU64Length(x.scriptPubkey)
    modifies w
    ensures w.data == old(w.data) + TxOutBytes(x) && n == |TxOutBytes(x)|
  {
    w.WriteAll(LE(x.value, 8));
    n := EncodeWithSize(x.scriptPubkey, w);
    n := 8 + n;
    assert w.data == old(w.data) + TxOutBytes(x);
  }

  /** `decode_from_finite_reader`: no limit of its own. */
  method DecodeTxOut(r: Reader) returns (res: Result<TxOut>)
    requires r.Valid()
    modifies r`pos
    ensures r.Valid() && old(r.pos) <= r.pos
    ensures Agrees(ReadTxOut(old(r.Rest())), res, r.Rest())
  {
    hide ReadVarBytes, LE, FromLE;
    var v :- r.ReadWord(8);
    WordSizes();
    var d :- DecodeByteVec(r);
    res := Success(TxOut(v, d));
  }
}
