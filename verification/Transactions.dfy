/** The transaction format: the legacy layout, and the BIP-144 layout with marker, flag and witnesses. */
module Transactions {
  import opened Bytes
  import opened Parsing
  import opened VarInts
  import opened Limits
  import opened Witnesses
  import opened TxParts
  import opened TxVectors

  datatype Version = One | Two

  datatype Tx = Tx(version: Version, lockTime: u32, input: seq<TxIn>, output: seq<TxOut>)

  const SEGWIT_MARKER: byte := 0x00
  const SEGWIT_FLAG: byte := 0x01

  function VersionBytes(v: Version): (s: bytes)
    ensures |s| == 4
  {
    LE(if v == One then 1 else 2, 4)
  }

  function ReadVersion(s: bytes): Parsed<Version> {
    var (n, r) :- ReadLE(s, 4);
    if n == 1 then Done(One, r) else if n == 2 then Done(Two, r) else Failed(InvalidData)
  }

  predicate AnyVersion(v: Version) { true }

  /** Only versions 1 and 2 are read, and each from its own four bytes. */
  lemma VersionLawful()
    ensures Lawful(AnyVersion, VersionBytes, ReadVersion)
  {
    hide LE, FromLE;
    WordSizes();
    forall v: Version, t: bytes
      ensures ReadVersion(VersionBytes(v) + t) == Done(v, t)
    {
      ReadLEOfLE(if v == One then 1 else 2, 4, t);
    }
  }

  predicate HasWitness(xs: seq<TxIn>) {
    exists i :: 0 <= i < |xs| && xs[i].witnessData.witnessElements != 0
  }

  /** No inputs also means the BIP-144 layout: its count byte would read as the marker. */
  predicate UsesSegwit(xs: seq<TxIn>) {
    HasWitness(xs) || xs == []
  }

  function InputWitnessBytes(x: TxIn): bytes {
    WitnessBytes(x.witnessData)
  }

  function Marker(tx: Tx): bytes {
    if UsesSegwit(tx.input) then [SEGWIT_MARKER, SEGWIT_FLAG] else []
  }

  function WitnessSection(tx: Tx): bytes {
    if UsesSegwit(tx.input) then Flat(InputWitnessBytes, tx.input) else []
  }

  function TxBytes(tx: Tx): bytes {
    VersionBytes(tx.version) + Marker(tx) + TxInsBytes(tx.input) + TxOutsBytes(tx.output)
    + WitnessSection(tx) + LE(tx.lockTime, 4)
  }

  /**
   Where each part of the serialization is. It has marker, flag and witnesses when some witness is attached
   or there are no inputs.
   */
  lemma TxLayout(tx: Tx)
    ensures var segwit := tx.input == [] || exists i :: 0 <= i < |tx.input| && tx.input[i].witnessData.witnessElements != 0;
            var s, head := TxBytes(tx), if segwit then 6 else 4;
            && |s| >= head + 4
            && s[..4] == [if tx.version == One then 0x01 else 0x02, 0x00, 0x00, 0x00]
            && (segwit ==> s[4..6] == [0x00, 0x01])
            && s[head..|s| - 4] == VarIntBytes(|tx.input|) + Flat(TxInBytes, tx.input)
                                   + VarIntBytes(|tx.output|) + Flat(TxOutBytes, tx.output)
                                   + (if segwit then Flat(InputWitnessBytes, tx.input) else [])
            && s[|s| - 4..] == LE(tx.lockTime, 4)
  {
    hide LE, VarIntBytes, Flat;
    VersionLayout(tx.version);
    var ins, outs := VarIntBytes(|tx.input|) + Flat(TxInBytes, tx.input), VarIntBytes(|tx.output|) + Flat(TxOutBytes, tx.output);
    var w := WitnessSection(tx);
    var body := VarIntBytes(|tx.input|) + Flat(TxInBytes, tx.input) + VarIntBytes(|tx.output|) + Flat(TxOutBytes, tx.output) + w;
    assert body == ins + outs + w;
    assert TxBytes(tx) == VersionBytes(tx.version) + Marker(tx) + body + LE(tx.lockTime, 4);
  }

  lemma MarkerAndFlag(tx: Tx)
    requires HasWitness(tx.input)
    ensures |TxBytes(tx)| > 6 && TxBytes(tx)[4..6] == [0x00, 0x01]
  {
    hide TxBytes;
    TxLayout(tx);
  }

  lemma VersionLayout(v: Version)
    ensures VersionBytes(v) == [if v == One then 0x01 else 0x02, 0x00, 0x00, 0x00]
  {
    hide LE;
    LESmall(if v == One then 1 else 2, 4);
  }

  /** Counts and script lengths are machine words, and every witness was built by the three constructors. */
  ghost predicate WellFormed(tx: Tx) {
    && Sendable(tx.input) && Outputs(tx.output)
    && forall x :: x in tx.input ==> IsPacked(x.witnessData)
  }

  // ---- A reader of the format, from BIP-144; the library itself has no transaction decoder

  function ItemListBytes(items: seq<bytes>): bytes {
    Counted(VarBytes, items)
  }

  ghost predicate ItemListOk(items: seq<bytes>) {
    ListOk(HasU64Length, items)
  }

  function PackRead(items: seq<bytes>): Witness {
    if |items| <= USIZE_MAX then Pack(items) else EMPTY
  }

  function WithWitnesses(xs: seq<TxIn>, ws: seq<seq<bytes>>): seq<TxIn>
    requires |ws| == |xs|
  {
    seq(|xs|, i requires 0 <= i < |xs| => xs[i].(witnessData := PackRead(ws[i])))
  }

  /** The readers of the three parts of a transaction that are lists. */
  datatype Parts = Parts(
    inputs: bytes -> Parsed<seq<TxIn>>, outputs: bytes -> Parsed<seq<TxOut>>, items: bytes -> Parsed<seq<bytes>>)

  const UNLIMITED_PARTS: Parts :=
    Parts(CountedReader(TxInReader(ReadVarBytes)), CountedReader(ReadTxOut), CountedReader(ReadVarBytes))

  /** The decoders of the library, each with its limit of 4,000,000 bytes. */
  const LIBRARY_PARTS: Parts := Parts(ReadTxIns, ReadTxOuts, ReadWitness)

  function ReadTx(parts: Parts, s: bytes): Parsed<Tx> {
    var (v, r) :- ReadVersion(s);
    if r != [] && r[0] == 0x00 then ReadSegwit(parts, v, r[1..]) else ReadLegacy(parts, v, r)
  }

  function ReadLegacy(parts: Parts, v: Version, s: bytes): Parsed<Tx> {
    var (ins, r1) :- parts.inputs(s);
    var (outs, r2) :- parts.outputs(r1);
    var (lock, r3) :- ReadLE(r2, 4);
    WordSizes();
    Done(Tx(v, lock, ins, outs), r3)
  }

  function ReadSegwit(parts: Parts, v: Version, s: bytes): Parsed<Tx> {
    if s == [] || s[0] != 0x01 then Failed(InvalidData)
    else
      var (ins, r1) :- parts.inputs(s[1..]);
      var (outs, r2) :- parts.outputs(r1);
      var (ws, r3) :- ReadMany(parts.items, |ins|, r2);
      var (lock, r4) :- ReadLE(r3, 4);
      WordSizes();
      Done(Tx(v, lock, WithWitnesses(ins, ws), outs), r4)
  }

  ghost function Items(w: Witness): (xs: seq<bytes>)
    requires IsPacked(w)
    ensures Indexable(xs) && |xs| <= USIZE_MAX && w == Pack(xs)
  {
    var xs :| Indexable(xs) && w == Pack(xs);
    xs
  }

  ghost function ItemLists(xs: seq<TxIn>): (ws: seq<seq<bytes>>)
    requires forall x :: x in xs ==> IsPacked(x.witnessData)
    ensures |ws| == |xs|
  {
    seq(|xs|, i requires 0 <= i < |xs| => assert xs[i] in xs; Items(xs[i].witnessData))
  }

  lemma FlatItemLists(xs: seq<TxIn>)
    requires forall x :: x in xs ==> IsPacked(x.witnessData)
    ensures Flat(InputWitnessBytes, xs) == Flat(ItemListBytes, ItemLists(xs))
  {
    hide WitnessBytes, Counted, IsPacked, Indexable, Pack, Flat;
    forall i | 0 <= i < |xs|
      ensures InputWitnessBytes(xs[i]) == ItemListBytes(ItemLists(xs)[i])
    {
      assert xs[i] in xs;
      WitnessBytesOfPack(Items(xs[i].witnessData));
    }
    FlatPointwise(InputWitnessBytes, xs, ItemListBytes, ItemLists(xs));
  }

  lemma ItemListsOk(xs: seq<TxIn>)
    requires forall x :: x in xs ==> IsPacked(x.witnessData)
    ensures forall l :: l in ItemLists(xs) ==> ItemListOk(l)
  {
    hide Pack;
    forall l | l in ItemLists(xs)
      ensures ItemListOk(l)
    {
      var i :| 0 <= i < |xs| && l == ItemLists(xs)[i];
      assert xs[i] in xs;
      IndexableLength(l);
      forall d | d in l
        ensures HasU64Length(d)
      {
      }
    }
  }

  lemma Reassemble(xs: seq<TxIn>)
    requires forall x :: x in xs ==> IsPacked(x.witnessData)
    ensures WithWitnesses(Bare(xs), ItemLists(xs)) == xs
  {
    hide Pack, Indexable;
    forall i | 0 <= i < |xs|
      ensures WithWitnesses(Bare(xs), ItemLists(xs))[i] == xs[i]
    {
      assert xs[i] in xs;
    }
  }

  lemma ReadWitnessSection(xs: seq<TxIn>, t: bytes)
    requires forall x :: x in xs ==> IsPacked(x.witnessData)
    ensures ReadMany(CountedReader(ReadVarBytes), |xs|, Flat(InputWitnessBytes, xs) + t) == Done(ItemLists(xs), t)
  {
    hide ItemListBytes, IsPacked, ReadVarBytes, Flat, ReadMany;
    VarBytesLawful();
    CountedItemsLawful();
    FlatItemLists(xs);
    ItemListsOk(xs);
    ReadManyOfFlat(ItemListOk, ItemListBytes, CountedReader(ReadVarBytes), ItemLists(xs), t);
  }

  lemma CountedItemsLawful()
    ensures Lawful(ItemListOk, ItemListBytes, CountedReader(ReadVarBytes))
  {
    hide Counted, ListOk;
    VarBytesLawful();
    CountedLawful(HasU64Length, VarBytes, ReadVarBytes, ItemListOk, ItemListBytes);
  }

  lemma InputsAndOutputs(xs: seq<TxIn>, ys: seq<TxOut>, t: bytes)
    requires Sendable(xs) && Outputs(ys)
    ensures CountedReader(TxInReader(ReadVarBytes))(TxInsBytes(xs) + (TxOutsBytes(ys) + t)) == Done(Bare(xs), TxOutsBytes(ys) + t)
    ensures CountedReader(ReadTxOut)(TxOutsBytes(ys) + t) == Done(ys, t)
  {
    hide TxInsBytes, TxOutsBytes, CountedReader, TxInReader, BareInputs, Outputs;
    BareIsBare(xs);
    InputsLawful();
    OutputsLawful();
  }

  /** The byte after the version is zero exactly when the BIP-144 layout was used. */
  lemma MarkerByte(tx: Tx)
    requires WellFormed(tx)
    ensures |TxBytes(tx)| > 4 && (TxBytes(tx)[4] == 0 <==> UsesSegwit(tx.input))
  {
    hide VarIntBytes, Flat, LE, TxOutsBytes;
    FirstByteZero(|tx.input|);
  }

  lemma NoWitnessIsBare(tx: Tx)
    requires WellFormed(tx) && !HasWitness(tx.input)
    ensures Bare(tx.input) == tx.input
  {
    forall i | 0 <= i < |tx.input|
      ensures tx.input[i].witnessData == EMPTY
    {
      var x := tx.input[i];
      assert x in tx.input;
      NothingPacked();
      assert Items(x.witnessData) == [];
    }
  }

  /** Over part readers that read the three parts back, the whole reads back. */
  ghost predicate PartsRead(parts: Parts, tx: Tx, t: bytes)
    requires WellFormed(tx)
  {
    var t1 := LE(tx.lockTime, 4) + t;
    var t2 := WitnessSection(tx) + t1;
    var t3 := TxOutsBytes(tx.output) + t2;
    && parts.inputs(TxInsBytes(tx.input) + t3) == Done(Bare(tx.input), t3)
    && parts.outputs(t3) == Done(tx.output, t2)
    && (UsesSegwit(tx.input) ==> ReadMany(parts.items, |tx.input|, t2) == Done(ItemLists(tx.input), t1))
  }

  /** Some part is refused where it starts. */
  ghost predicate PartRefused(parts: Parts, tx: Tx, t: bytes)
    requires WellFormed(tx)
  {
    var t1 := LE(tx.lockTime, 4) + t;
    var t2 := WitnessSection(tx) + t1;
    var t3 := TxOutsBytes(tx.output) + t2;
    || parts.inputs(TxInsBytes(tx.input) + t3).Failed?
    || (parts.inputs(TxInsBytes(tx.input) + t3) == Done(Bare(tx.input), t3) && parts.outputs(t3).Failed?)
    || (parts.inputs(TxInsBytes(tx.input) + t3) == Done(Bare(tx.input), t3) && parts.outputs(t3) == Done(tx.output, t2)
        && UsesSegwit(tx.input) && ReadMany(parts.items, |tx.input|, t2).Failed?)
  }

  lemma ReadTxByParts(parts: Parts, tx: Tx, t: bytes)
    requires WellFormed(tx)
    ensures PartsRead(parts, tx, t) ==> ReadTx(parts, TxBytes(tx) + t) == Done(tx, t)
    ensures PartRefused(parts, tx, t) ==> ReadTx(parts, TxBytes(tx) + t).Failed?
  {
    hide PartsRead, PartRefused, WellFormed, UsesSegwit, ReadTx, TxBytes;
    if UsesSegwit(tx.input) {
      SegwitHead(parts, tx, t);
      SegwitByParts(parts, tx, t);
    } else {
      LegacyHead(parts, tx, t);
      LegacyByParts(parts, tx, t);
    }
  }

  /** What follows the version, the marker and the flag. */
  function Sections(tx: Tx, t: bytes): bytes {
    TxInsBytes(tx.input) + (TxOutsBytes(tx.output) + (WitnessSection(tx) + (LE(tx.lockTime, 4) + t)))
  }

  lemma TxBytesThen(tx: Tx, t: bytes)
    ensures TxBytes(tx) + t == VersionBytes(tx.version) + (Marker(tx) + Sections(tx, t))
  {
    hide LE, VersionBytes, TxInsBytes, TxOutsBytes, Marker, WitnessSection;
  }

  lemma SegwitHead(parts: Parts, tx: Tx, t: bytes)
    requires UsesSegwit(tx.input)
    ensures ReadTx(parts, TxBytes(tx) + t) == ReadSegwit(parts, tx.version, [0x01] + Sections(tx, t))
  {
    hide TxBytes, VersionBytes, ReadVersion, Sections, ReadSegwit, ReadLegacy, UsesSegwit;
    TxBytesThen(tx, t);
    VersionLawful();
    var r := Marker(tx) + Sections(tx, t);
    assert r[1..] == [0x01] + Sections(tx, t);
  }

  lemma LegacyHead(parts: Parts, tx: Tx, t: bytes)
    requires WellFormed(tx) && !UsesSegwit(tx.input)
    ensures ReadTx(parts, TxBytes(tx) + t) == ReadLegacy(parts, tx.version, Sections(tx, t))
  {
    hide TxBytes, VersionBytes, ReadVersion, Sections, ReadSegwit, ReadLegacy, UsesSegwit, WellFormed;
    TxBytesThen(tx, t);
    MarkerByte(tx);
    VersionLawful();
    var s := Sections(tx, t);
    assert Marker(tx) + s == s;
    assert (VersionBytes(tx.version) + s)[4] == TxBytes(tx)[4];
  }

  lemma SegwitByParts(parts: Parts, tx: Tx, t: bytes)
    requires WellFormed(tx) && UsesSegwit(tx.input)
    ensures var p := ReadSegwit(parts, tx.version, [0x01] + Sections(tx, t));
            (PartsRead(parts, tx, t) ==> p == Done(tx, t)) && (PartRefused(parts, tx, t) ==> p.Failed?)
  {
    hide LE, FromLE, TxInsBytes, TxOutsBytes, Outputs, ReadMany, IsPacked, UsesSegwit, WitnessSection;
    assert ([0x01] + Sections(tx, t))[1..] == Sections(tx, t);
    LockTimeReads(tx, t);
    Reassemble(tx.input);
  }

  lemma LegacyByParts(parts: Parts, tx: Tx, t: bytes)
    requires WellFormed(tx) && !UsesSegwit(tx.input)
    ensures var p := ReadLegacy(parts, tx.version, Sections(tx, t));
            (PartsRead(parts, tx, t) ==> p == Done(tx, t)) && (PartRefused(parts, tx, t) ==> p.Failed?)
  {
    hide LE, FromLE, TxInsBytes, TxOutsBytes, Outputs, IsPacked, UsesSegwit, WitnessSection;
    LockTimeReads(tx, t);
    NoWitnessSection(tx, LE(tx.lockTime, 4) + t);
    NoWitnessIsBare(tx);
  }

  lemma LockTimeReads(tx: Tx, t: bytes)
    ensures ReadLE(LE(tx.lockTime, 4) + t, 4) == Done(tx.lockTime, t)
  {
    hide LE, FromLE;
    WordSizes();
    ReadLEOfLE(tx.lockTime, 4, t);
  }

  lemma NoWitnessSection(tx: Tx, t: bytes)
    requires !UsesSegwit(tx.input)
    ensures WitnessSection(tx) + t == t && !HasWitness(tx.input)
  {
  }

  lemma TxRoundTrip(tx: Tx, t: bytes)
    requires WellFormed(tx)
    ensures ReadTx(UNLIMITED_PARTS, TxBytes(tx) + t) == Done(tx, t)
  {
    hide LE, TxInsBytes, TxOutsBytes, CountedReader, TxInReader, Flat, ReadMany, IsPacked, UsesSegwit, TxBytes, ReadTx, Outputs, Sendable;
    var t1 := LE(tx.lockTime, 4) + t;
    InputsAndOutputs(tx.input, tx.output, WitnessSection(tx) + t1);
    ReadWitnessSection(tx.input, t1);
    ReadTxByParts(UNLIMITED_PARTS, tx, t);
  }

  /** Equal bytes mean equal version, inputs with their witnesses, outputs and lock time; and no
      serialization is a prefix of another. */
  lemma UniquelyDecodable(tx: Tx, s: bytes, tx': Tx, s': bytes)
    requires WellFormed(tx) && WellFormed(tx')
    requires TxBytes(tx) + s == TxBytes(tx') + s'
    ensures tx == tx' && s == s'
  {
    hide TxBytes, WellFormed, ReadTx;
    TxRoundTrip(tx, s);
    TxRoundTrip(tx', s');
  }

  // ---- The library's own decoders, one after the other

  /** Each list is within the limit; for a witness that is where its index area starts. */
  predicate WithinLimits(tx: Tx) {
    && |TxInsBytes(tx.input)| <= 4_000_000 && |TxOutsBytes(tx.output)| <= 4_000_000
    && SmallWitnesses(tx.input)
  }

  predicate SmallWitnesses(xs: seq<TxIn>) {
    forall i | 0 <= i < |xs| :: xs[i].witnessData.indicesStart <= 4_000_000
  }

  lemma FirstWitness(x: TxIn, t: bytes)
    requires IsPacked(x.witnessData)
    ensures var p := ReadWitness(InputWitnessBytes(x) + t);
            if x.witnessData.indicesStart <= 4_000_000 then p == Done(Items(x.witnessData), t) else p.Failed?
  {
    hide ReadWitness, WitnessBytes, Indexable;
    WitnessRoundTrip(Items(x.witnessData), t);
    if x.witnessData.indicesStart <= MAX_VEC_SIZE {
      var p := ReadWitness(WitnessBytes(x.witnessData) + t);
      assert Packing(p) == Done(x.witnessData, t);
      WitnessCanonical(WitnessBytes(x.witnessData) + t);
      AcceptedIsIndexable(p.value);
      PackInjective(p.value, Items(x.witnessData));
    }
  }

  lemma {:induction false} WitnessSectionExact(xs: seq<TxIn>, t: bytes)
    requires forall x :: x in xs ==> IsPacked(x.witnessData)
    ensures var p := ReadMany(ReadWitness, |xs|, Flat(InputWitnessBytes, xs) + t);
            if SmallWitnesses(xs) then p == Done(ItemLists(xs), t) else p.Failed?
  {
    hide IsPacked, InputWitnessBytes, ReadWitness, Flat, ReadMany;
    if xs == [] {
      FlatNone(InputWitnessBytes);
      ReadNone(ReadWitness, t);
      assert [] + t == t;
    } else {
      var tail := Flat(InputWitnessBytes, xs[1..]) + t;
      assert xs[0] in xs;
      FlatCons(InputWitnessBytes, xs);
      assert Flat(InputWitnessBytes, xs) + t == InputWitnessBytes(xs[0]) + tail;
      FirstWitness(xs[0], tail);
      ReadManyStep(ReadWitness, |xs|, InputWitnessBytes(xs[0]) + tail);
      WitnessSectionExact(xs[1..], t);
      SmallWitnessesCons(xs);
      assert ItemLists(xs) == [Items(xs[0].witnessData)] + ItemLists(xs[1..]);
    }
  }

  lemma SmallWitnessesCons(xs: seq<TxIn>)
    requires xs != []
    ensures SmallWitnesses(xs) <==> xs[0].witnessData.indicesStart <= 4_000_000 && SmallWitnesses(xs[1..])
  {
    if xs[0].witnessData.indicesStart <= MAX_VEC_SIZE && SmallWitnesses(xs[1..]) {
      forall i | 0 <= i < |xs|
        ensures xs[i].witnessData.indicesStart <= MAX_VEC_SIZE
      {
        assert i > 0 ==> xs[i] == xs[1..][i - 1];
      }
    }
  }

  /**
   The library's decoders of the parts, run one after the other as BIP-144 lays them out, give back the
   transaction exactly when each list is within the limit, and fail otherwise.
   */
  lemma LibraryDecodersExactly(tx: Tx, t: bytes)
    requires WellFormed(tx)
    ensures var p := ReadTx(LIBRARY_PARTS, TxBytes(tx) + t);
            if WithinLimits(tx) then p == Done(tx, t) else p.Failed?
  {
    hide LE, TxInsBytes, TxOutsBytes, ReadTxIns, ReadTxOuts, ReadWitness, Flat, ReadMany, IsPacked, TxBytes, ReadTx, Outputs, Sendable;
    var t1 := LE(tx.lockTime, 4) + t;
    var t2 := WitnessSection(tx) + t1;
    TxInsRoundTrip(tx.input, TxOutsBytes(tx.output) + t2);
    TxOutsRoundTrip(tx.output, t2);
    WitnessSectionExact(tx.input, t1);
    ReadTxByParts(LIBRARY_PARTS, tx, t);
    if !UsesSegwit(tx.input) {
      NoWitnessIsSmall(tx);
    }
  }

  lemma NoWitnessIsSmall(tx: Tx)
    requires WellFormed(tx) && !HasWitness(tx.input)
    ensures SmallWitnesses(tx.input)
  {
    NoWitnessIsBare(tx);
    forall i | 0 <= i < |tx.input|
      ensures tx.input[i].witnessData.indicesStart <= MAX_VEC_SIZE
    {
      assert Bare(tx.input)[i].witnessData == EMPTY;
    }
  }
}
