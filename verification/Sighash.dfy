/** The message signed for one segwit input, and what it commits to. The double hash is a parameter. */
module Sighash {
  import opened Bytes
  import opened Parsing
  import opened VarInts
  import opened TxParts
  import opened TxVectors
  import opened Transactions

  type Sha256d = bytes -> Bytes32

  datatype SighashType = All

  /** The ten fields of the Specification section of BIP-143, in its order. */
  datatype Preimage = Preimage(
    version: Version, hashPrevouts: Bytes32, hashSequence: Bytes32, outpoint: OutPoint, scriptCode: bytes,
    amount: u64, sequence: u32, hashOutputs: Bytes32, lockTime: u32, sighashType: SighashType)

  function SighashNumber(t: SighashType): u32 {
    match t case All => 1
  }

  function PreimageBytes(p: Preimage): bytes {
    VersionBytes(p.version)
    + (p.hashPrevouts
       + (p.hashSequence
          + (OutPointBytes(p.outpoint)
             + (VarBytes(p.scriptCode)
                + (LE(p.amount, 8)
                   + (LE(p.sequence, 4)
                      + (p.hashOutputs
                         + (LE(p.lockTime, 4)
                            + LE(SighashNumber(p.sighashType), 4)))))))))
  }

  function PrevoutBytes(x: TxIn): bytes { OutPointBytes(x.previousOutput) }

  function SequenceBytes(x: TxIn): bytes { LE(x.sequence, 4) }

  function Prevouts(tx: Tx): bytes { Flat(PrevoutBytes, tx.input) }

  function Sequences(tx: Tx): bytes { Flat(SequenceBytes, tx.input) }

  function OutputsPart(tx: Tx): bytes { Flat(TxOutBytes, tx.output) }

  function PreimageOf(h: Sha256d, tx: Tx, t: SighashType, i: nat, code: bytes, value: u64): Preimage
    requires i < |tx.input|
  {
    Preimage(tx.version, h(Prevouts(tx)), h(Sequences(tx)), tx.input[i].previousOutput, code, value,
             tx.input[i].sequence, h(OutputsPart(tx)), tx.lockTime, t)
  }

  /** With a witness attached, the library puts marker and flag after the version. */
  function SigningBytes(h: Sha256d, tx: Tx, t: SighashType, i: nat, code: bytes, value: u64): bytes
    requires i < |tx.input|
  {
    var p := PreimageBytes(PreimageOf(h, tx, t, i, code, value));
    if HasWitness(tx.input) then p[..4] + [SEGWIT_MARKER, SEGWIT_FLAG] + p[4..] else p
  }

  /** `s` is the message BIP-143 defines for input `i` and SIGHASH_ALL: each of the ten fields in its place. */
  ghost predicate Bip143Message(s: bytes, h: Sha256d, tx: Tx, i: nat, code: bytes, value: u64)
    requires i < |tx.input|
  {
    var x, n := tx.input[i], 104 + |VarBytes(code)|;
    && |s| == n + 52
    && s[..4] == [if tx.version == One then 0x01 else 0x02, 0x00, 0x00, 0x00]
    && s[4..36] == h(Prevouts(tx))
    && s[36..68] == h(Sequences(tx))
    && s[68..100] == Reverse(x.previousOutput.txid)
    && s[100..104] == LE(x.previousOutput.vout, 4)
    && s[104..n] == VarBytes(code)
    && s[n..n + 8] == LE(value, 8)
    && s[n + 8..n + 12] == LE(x.sequence, 4)
    && s[n + 12..n + 44] == h(OutputsPart(tx))
    && s[n + 44..n + 48] == LE(tx.lockTime, 4)
    && s[n + 48..] == [0x01, 0x00, 0x00, 0x00]
  }

  lemma FirstFields(a: bytes, b: Bytes32, c: Bytes32, d: bytes, t: bytes)
    requires |a| == 4 && |d| == 36
    ensures var s := a + b + c + d + t;
            && |s| == 104 + |t|
            && s[..4] == a && s[4..36] == b && s[36..68] == c && s[68..104] == d && s[104..] == t
  {
  }

  lemma LastFields(s: bytes, n: nat, a: bytes, b: bytes, c: Bytes32, d: bytes, e: bytes)
    requires |a| == 8 && |b| == |d| == |e| == 4
    requires n <= |s| && s[n..] == a + b + c + d + e
    ensures |s| == n + 52
    ensures s[n..n + 8] == a && s[n + 8..n + 12] == b && s[n + 12..n + 44] == c && s[n + 44..n + 48] == d && s[n + 48..] == e
  {
    var t := a + b + c + d + e;
    SliceOfRest(s, n, n, n + 8);
    SliceOfRest(s, n, n + 8, n + 12);
    SliceOfRest(s, n, n + 12, n + 44);
    SliceOfRest(s, n, n + 44, n + 48);
    SliceOfRest(s, n, n + 48, n + 52);
  }

  /** Where each field is: the ones before the script code, the script code, the ones behind it. */
  lemma PreimageSlices(p: Preimage)
    ensures var s, n := PreimageBytes(p), 104 + |VarBytes(p.scriptCode)|;
            && |s| == n + 52
            && s[..4] == VersionBytes(p.version)
            && s[4..36] == p.hashPrevouts
            && s[36..68] == p.hashSequence
            && s[68..104] == OutPointBytes(p.outpoint)
            && s[104..n] == VarBytes(p.scriptCode)
            && s[n..n + 8] == LE(p.amount, 8)
            && s[n + 8..n + 12] == LE(p.sequence, 4)
            && s[n + 12..n + 44] == p.hashOutputs
            && s[n + 44..n + 48] == LE(p.lockTime, 4)
            && s[n + 48..] == LE(SighashNumber(p.sighashType), 4)
  {
    hide LE, VarBytes, VersionBytes, OutPointBytes, SighashNumber;
    var s, code, hashType := PreimageBytes(p), VarBytes(p.scriptCode), LE(SighashNumber(p.sighashType), 4);
    var tail := LE(p.amount, 8) + LE(p.sequence, 4) + p.hashOutputs + LE(p.lockTime, 4) + hashType;
    assert s == VersionBytes(p.version) + p.hashPrevouts + p.hashSequence + OutPointBytes(p.outpoint) + (code + tail);
    hide PreimageBytes;
    FirstFields(VersionBytes(p.version), p.hashPrevouts, p.hashSequence, OutPointBytes(p.outpoint), code + tail);
    TwoParts(s, 104, code, tail);
    LastFields(s, 104 + |code|, LE(p.amount, 8), LE(p.sequence, 4), p.hashOutputs, LE(p.lockTime, 4), hashType);
  }

  lemma TwoParts(s: bytes, n: nat, a: bytes, b: bytes)
    requires n <= |s| && s[n..] == a + b
    ensures n + |a| <= |s| && s[n..n + |a|] == a && s[n + |a|..] == b
  {
    SliceOfRest(s, n, n, n + |a|);
    SliceOfRest(s, n, n + |a|, |s|);
  }

  lemma PreimageIsMessage(h: Sha256d, tx: Tx, t: SighashType, i: nat, code: bytes, value: u64)
    requires i < |tx.input|
    ensures Bip143Message(PreimageBytes(PreimageOf(h, tx, t, i, code, value)), h, tx, i, code, value)
  {
    hide LE, VarBytes, VersionBytes, OutPointBytes, PreimageBytes, Prevouts, Sequences, OutputsPart;
    var p := PreimageOf(h, tx, t, i, code, value);
    var s := PreimageBytes(p);
    PreimageSlices(p);
    VersionLayout(tx.version);
    LESmall(1, 4);
    OutPointLayout(p.outpoint);
    SliceSplit(s, 68, 100, 104);
  }

  /** A message is that of BIP-143 exactly when no input carries a witness; otherwise it has 00 01 put in. */
  lemma Bip143Exactly(h: Sha256d, tx: Tx, t: SighashType, i: nat, code: bytes, value: u64)
    requires i < |tx.input|
    ensures var s := SigningBytes(h, tx, t, i, code, value);
            && (Bip143Message(s, h, tx, i, code, value) <==> !HasWitness(tx.input))
            && (HasWitness(tx.input) ==>
                  |s| > 6 && s[4..6] == [0x00, 0x01] && Bip143Message(s[..4] + s[6..], h, tx, i, code, value))
  {
    hide PreimageBytes, PreimageOf, HasWitness;
    var p := PreimageBytes(PreimageOf(h, tx, t, i, code, value));
    PreimageIsMessage(h, tx, t, i, code, value);
    if HasWitness(tx.input) {
      var s := SigningBytes(h, tx, t, i, code, value);
      assert |s| == |p| + 2;
      assert s[..4] + s[6..] == p;
    }
  }

  lemma PreimageLength(p: Preimage)
    ensures |PreimageBytes(p)| == 156 + |VarBytes(p.scriptCode)|
  {
    hide LE, VarBytes;
  }

  lemma SplitFixed(a: bytes, s: bytes, b: bytes, t: bytes)
    requires |a| == |b| && a + s == b + t
    ensures a == b && s == t
  {
    assert (a + s)[..|a|] == a && (b + t)[..|b|] == b;
    assert (a + s)[|a|..] == s && (b + t)[|b|..] == t;
  }

  lemma LEInjective(v: nat, w: nat, k: nat)
    requires v < Pow256(k) && w < Pow256(k) && LE(v, k) == LE(w, k)
    ensures v == w
  {
    FromLEOfLE(v, k);
    FromLEOfLE(w, k);
  }

  /** The ten fields can be read back from the message. */
  lemma PreimageInjective(p: Preimage, q: Preimage)
    requires HasU64Length(p.scriptCode) && HasU64Length(q.scriptCode)
    requires PreimageBytes(p) == PreimageBytes(q)
    ensures p == q
  {
    hide LE, FromLE, VersionBytes, OutPointBytes, ReadOutPoint, VarBytes, ReadVarBytes, SighashNumber;
    var (p9, q9) := (LE(SighashNumber(p.sighashType), 4), LE(SighashNumber(q.sighashType), 4));
    var (p8, q8) := (LE(p.lockTime, 4) + p9, LE(q.lockTime, 4) + q9);
    var (p7, q7) := (p.hashOutputs + p8, q.hashOutputs + q8);
    var (p6, q6) := (LE(p.sequence, 4) + p7, LE(q.sequence, 4) + q7);
    var (p5, q5) := (LE(p.amount, 8) + p6, LE(q.amount, 8) + q6);
    var (p4, q4) := (VarBytes(p.scriptCode) + p5, VarBytes(q.scriptCode) + q5);
    var (p3, q3) := (OutPointBytes(p.outpoint) + p4, OutPointBytes(q.outpoint) + q4);
    var (p2, q2) := (p.hashSequence + p3, q.hashSequence + q3);
    var (p1, q1) := (p.hashPrevouts + p2, q.hashPrevouts + q2);
    VersionLawful();
    UniqueSplit(AnyVersion, VersionBytes, ReadVersion, p.version, p1, q.version, q1);
    SplitFixed(p.hashPrevouts, p2, q.hashPrevouts, q2);
    SplitFixed(p.hashSequence, p3, q.hashSequence, q3);
    OutPointLawful();
    UniqueSplit(AnyOutPoint, OutPointBytes, ReadOutPoint, p.outpoint, p4, q.outpoint, q4);
    VarBytesLawful();
    UniqueSplit(HasU64Length, VarBytes, ReadVarBytes, p.scriptCode, p5, q.scriptCode, q5);
    SplitFixed(LE(p.amount, 8), p6, LE(q.amount, 8), q6);
    SplitFixed(LE(p.sequence, 4), p7, LE(q.sequence, 4), q7);
    SplitFixed(p.hashOutputs, p8, q.hashOutputs, q8);
    SplitFixed(LE(p.lockTime, 4), p9, LE(q.lockTime, 4), q9);
    WordSizes();
    LEInjective(p.amount, q.amount, 8);
    LEInjective(p.sequence, q.sequence, 4);
    LEInjective(p.lockTime, q.lockTime, 4);
  }

  // ---- The hashed lists

  /** 36 bytes an input: the hash reversed and the output index. */
  lemma PrevoutsLayout(tx: Tx, i: nat)
    requires i < |tx.input|
    ensures var s, o := Prevouts(tx), tx.input[i].previousOutput;
            && |s| == 36 * |tx.input|
            && s[36 * i..36 * i + 32] == Reverse(o.txid)
            && s[36 * i + 32..36 * i + 36] == LE(o.vout, 4)
  {
    hide LE, OutPointBytes, Flat;
    var s, o := Prevouts(tx), tx.input[i].previousOutput;
    FixedLength(PrevoutBytes, tx.input, 36);
    FixedLength(PrevoutBytes, tx.input[..i], 36);
    FlatAt(PrevoutBytes, tx.input, i);
    OutPointLayout(o);
    SliceSplit(s, 36 * i, 36 * i + 32, 36 * i + 36);
  }

  /** Four bytes an input. */
  lemma SequencesLayout(tx: Tx, i: nat)
    requires i < |tx.input|
    ensures |Sequences(tx)| == 4 * |tx.input|
    ensures Sequences(tx)[4 * i..4 * i + 4] == LE(tx.input[i].sequence, 4)
  {
    hide LE, Flat;
    FixedLength(SequenceBytes, tx.input, 4);
    FixedLength(SequenceBytes, tx.input[..i], 4);
    FlatAt(SequenceBytes, tx.input, i);
  }

  /** How many bytes `ys` take: a value of eight bytes and a script with its length. */
  function OutputsSize(ys: seq<TxOut>): nat {
    if ys == [] then 0 else OutputsSize(ys[..|ys| - 1]) + 8 + |VarBytes(ys[|ys| - 1].scriptPubkey)|
  }

  lemma {:induction false} OutputsLength(ys: seq<TxOut>)
    ensures |Flat(TxOutBytes, ys)| == OutputsSize(ys)
  {
    hide LE, VarBytes;
    if ys != [] {
      OutputsLength(ys[..|ys| - 1]);
    }
  }

  /** One output behind the other, with no count in front. */
  lemma OutputsLayout(tx: Tx, i: nat)
    requires i < |tx.output|
    ensures var s, at, d := OutputsPart(tx), OutputsSize(tx.output[..i]), VarBytes(tx.output[i].scriptPubkey);
            && at + 8 + |d| <= |s| == OutputsSize(tx.output)
            && s[at..at + 8] == LE(tx.output[i].value, 8)
            && s[at + 8..at + 8 + |d|] == d
  {
    hide LE, VarBytes, Flat, OutputsSize, TxOutBytes;
    var s, at, e := OutputsPart(tx), OutputsSize(tx.output[..i]), TxOutBytes(tx.output[i]);
    OutputsLength(tx.output);
    OutputsLength(tx.output[..i]);
    FlatAt(TxOutBytes, tx.output, i);
    TxOutLayout(tx.output[i]);
    SliceSplit(s, at, at + 8, at + |e|);
  }

  function U32Bytes(n: u32): bytes { LE(n, 4) }

  function ReadU32(s: bytes): Parsed<u32> {
    var (n, r) :- ReadLE(s, 4);
    WordSizes();
    Done(n, r)
  }

  predicate AnyU32(n: u32) { true }

  lemma U32RoundTrips()
    ensures RoundTrips(AnyU32, U32Bytes, ReadU32)
  {
    forall n: u32, t: bytes
      ensures ReadU32(U32Bytes(n) + t) == Done(n, t)
    {
      hide LE, FromLE;
      WordSizes();
      ReadLEOfLE(n, 4, t);
    }
  }

  function OutPoints(xs: seq<TxIn>): seq<OutPoint> {
    seq(|xs|, i requires 0 <= i < |xs| => xs[i].previousOutput)
  }

  function SequenceNumbers(xs: seq<TxIn>): seq<u32> {
    seq(|xs|, i requires 0 <= i < |xs| => xs[i].sequence)
  }

  lemma PrevoutsFixOutPoints(tx: Tx, tx': Tx)
    requires Prevouts(tx) == Prevouts(tx')
    ensures OutPoints(tx.input) == OutPoints(tx'.input)
  {
    hide OutPointBytes, ReadOutPoint, Flat;
    OutPointLawful();
    FlatPointwise(PrevoutBytes, tx.input, OutPointBytes, OutPoints(tx.input));
    FlatPointwise(PrevoutBytes, tx'.input, OutPointBytes, OutPoints(tx'.input));
    FlatInjective(AnyOutPoint, OutPointBytes, ReadOutPoint, OutPoints(tx.input), OutPoints(tx'.input));
  }

  lemma SequencesFixNumbers(tx: Tx, tx': Tx)
    requires Sequences(tx) == Sequences(tx')
    ensures SequenceNumbers(tx.input) == SequenceNumbers(tx'.input)
  {
    hide LE, ReadU32, Flat;
    U32RoundTrips();
    FlatPointwise(SequenceBytes, tx.input, U32Bytes, SequenceNumbers(tx.input));
    FlatPointwise(SequenceBytes, tx'.input, U32Bytes, SequenceNumbers(tx'.input));
    FlatInjective(AnyU32, U32Bytes, ReadU32, SequenceNumbers(tx.input), SequenceNumbers(tx'.input));
  }

  lemma OutputsPartFixesOutputs(tx: Tx, tx': Tx)
    requires Outputs(tx.output) && Outputs(tx'.output)
    requires OutputsPart(tx) == OutputsPart(tx')
    ensures tx.output == tx'.output
  {
    hide ReadTxOut, Flat, VarBytes, LE;
    TxOutLawful();
    FlatInjective(TxOutFits, TxOutBytes, ReadTxOut, tx.output, tx'.output);
  }

  ghost predicate Collision(h: Sha256d, a: bytes, b: bytes) {
    a != b && h(a) == h(b)
  }

  /** Everything the signature is meant to bind. */
  ghost predicate SameSigned(tx: Tx, i: nat, code: bytes, value: u64, tx': Tx, i': nat, code': bytes, value': u64)
    requires i < |tx.input| && i' < |tx'.input|
  {
    && tx.version == tx'.version && tx.lockTime == tx'.lockTime
    && OutPoints(tx.input) == OutPoints(tx'.input)
    && SequenceNumbers(tx.input) == SequenceNumbers(tx'.input)
    && tx.output == tx'.output
    && tx.input[i].previousOutput == tx'.input[i'].previousOutput
    && tx.input[i].sequence == tx'.input[i'].sequence
    && code == code' && value == value'
  }

  /** The hash of `a` is 00 01 and all but the end of the hash of `b`. */
  ghost predicate ShiftedHash(h: Sha256d, a: bytes, b: bytes) {
    h(a) == [0x00, 0x01] + h(b)[..30]
  }

  /** Two equal layouts of BIP-143 sign the same thing, or one of three pairs of buffers is a collision. */
  lemma PreimageCommitment(h: Sha256d, t: SighashType, tx: Tx, i: nat, code: bytes, value: u64,
                           tx': Tx, i': nat, code': bytes, value': u64)
    requires i < |tx.input| && i' < |tx'.input|
    requires Outputs(tx.output) && Outputs(tx'.output)
    requires HasU64Length(code) && HasU64Length(code')
    requires PreimageBytes(PreimageOf(h, tx, t, i, code, value)) == PreimageBytes(PreimageOf(h, tx', t, i', code', value'))
    ensures || SameSigned(tx, i, code, value, tx', i', code', value')
            || Collision(h, Prevouts(tx), Prevouts(tx'))
            || Collision(h, Sequences(tx), Sequences(tx'))
            || Collision(h, OutputsPart(tx), OutputsPart(tx'))
  {
    hide PreimageBytes, Prevouts, Sequences, OutputsPart, OutPoints, SequenceNumbers, Outputs;
    PreimageInjective(PreimageOf(h, tx, t, i, code, value), PreimageOf(h, tx', t, i', code', value'));
    if Prevouts(tx) == Prevouts(tx') && Sequences(tx) == Sequences(tx') && OutputsPart(tx) == OutputsPart(tx') {
      PrevoutsFixOutPoints(tx, tx');
      SequencesFixNumbers(tx, tx');
      OutputsPartFixesOutputs(tx, tx');
    }
  }

  /** Taking 00 01 out from behind the version again. */
  lemma InsertInjective(a: bytes, b: bytes)
    requires |a| >= 4 && |b| >= 4
    requires a[..4] + [SEGWIT_MARKER, SEGWIT_FLAG] + a[4..] == b[..4] + [SEGWIT_MARKER, SEGWIT_FLAG] + b[4..]
    ensures a == b
  {
    var m := [SEGWIT_MARKER, SEGWIT_FLAG];
    SplitFixed(a[..4] + m, a[4..], b[..4] + m, b[4..]);
    SplitFixed(a[..4], m, b[..4], m);
    assert a == a[..4] + a[4..] && b == b[..4] + b[4..];
  }

  /** If only the second layout has 00 01 inserted, the hash of the first out points begins with them. */
  lemma InsertShifts(h: Sha256d, p: Preimage, q: Preimage, a: bytes, b: bytes)
    requires p.hashPrevouts == h(a) && q.hashPrevouts == h(b)
    requires PreimageBytes(p) == PreimageBytes(q)[..4] + [SEGWIT_MARKER, SEGWIT_FLAG] + PreimageBytes(q)[4..]
    ensures ShiftedHash(h, a, b)
  {
    hide PreimageBytes;
    var s, s' := PreimageBytes(p), PreimageBytes(q);
    PrevoutsHashAt(p);
    PrevoutsHashAt(q);
    var m, tail := [SEGWIT_MARKER, SEGWIT_FLAG], s'[4..];
    assert s[4..] == m + tail;
    assert s[4..36] == s[4..][..32] == m + tail[..30];
    assert s'[4..36] == tail[..32];
  }

  lemma PrevoutsHashAt(p: Preimage)
    ensures |PreimageBytes(p)| >= 36 && PreimageBytes(p)[4..36] == p.hashPrevouts
  {
    hide LE, PreimageBytes;
    PreimageSlices(p);
  }

  /**
   Two equal messages sign the same thing, or one of three pairs of buffers is a collision of the hash.
   Witnesses attached to both transactions do not matter. When only one has any, its marker and flag are
   read as the first two bytes of the other's hash of out points, and that hash is the other shifted.
   */
  lemma Commitment(h: Sha256d, t: SighashType, tx: Tx, i: nat, code: bytes, value: u64,
                   tx': Tx, i': nat, code': bytes, value': u64)
    requires i < |tx.input| && i' < |tx'.input|
    requires Outputs(tx.output) && Outputs(tx'.output)
    requires HasU64Length(code) && HasU64Length(code')
    requires SigningBytes(h, tx, t, i, code, value) == SigningBytes(h, tx', t, i', code', value')
    ensures if HasWitness(tx.input) == HasWitness(tx'.input) then
              || SameSigned(tx, i, code, value, tx', i', code', value')
              || Collision(h, Prevouts(tx), Prevouts(tx'))
              || Collision(h, Sequences(tx), Sequences(tx'))
              || Collision(h, OutputsPart(tx), OutputsPart(tx'))
            else if HasWitness(tx'.input) then ShiftedHash(h, Prevouts(tx), Prevouts(tx'))
            else ShiftedHash(h, Prevouts(tx'), Prevouts(tx))
  {
    hide PreimageBytes, Prevouts, Sequences, OutputsPart, OutPoints, SequenceNumbers, HasWitness, Outputs, SameSigned;
    var p, q := PreimageOf(h, tx, t, i, code, value), PreimageOf(h, tx', t, i', code', value');
    PreimageLength(p);
    PreimageLength(q);
    if HasWitness(tx.input) == HasWitness(tx'.input) {
      if HasWitness(tx.input) {
        InsertInjective(PreimageBytes(p), PreimageBytes(q));
      }
      PreimageCommitment(h, t, tx, i, code, value, tx', i', code', value');
    } else if HasWitness(tx'.input) {
      InsertShifts(h, p, q, Prevouts(tx), Prevouts(tx'));
    } else {
      InsertShifts(h, q, p, Prevouts(tx'), Prevouts(tx));
    }
  }

  /** The legacy message is the serialization and the hash type, so it fixes the whole transaction. */
  lemma LegacyCommitment(tx: Tx, tx': Tx)
    requires WellFormed(tx) && WellFormed(tx')
    requires TxBytes(tx) + [0x01, 0x00, 0x00, 0x00] == TxBytes(tx') + [0x01, 0x00, 0x00, 0x00]
    ensures tx == tx'
  {
    hide TxBytes, WellFormed, LE;
    UniquelyDecodable(tx, [0x01, 0x00, 0x00, 0x00], tx', [0x01, 0x00, 0x00, 0x00]);
  }
}
