/** The transaction object: building, attaching signatures, and the messages to sign. */
module BitcoinTransactions {
  import opened Bytes
  import opened Parsing
  import opened Streams
  import opened VarInts
  import opened Witnesses
  import opened TxParts
  import opened TxVectors
  import opened Transactions
  import opened WitnessRuns
  import opened Sighash

  datatype TransactionType = P2PKH | P2SH | P2WPKH | P2WSH

  lemma HeadOfSigning(start: bytes, h: Sha256d, tx: Tx, i: nat, code: bytes, value: u64, tail: bytes)
    requires i < |tx.input|
    requires PreimageBytes(PreimageOf(h, tx, All, i, code, value)) == VersionBytes(tx.version) + tail
    ensures start + SigningBytes(h, tx, All, i, code, value) ==
            if HasWitness(tx.input) then start + VersionBytes(tx.version) + [SEGWIT_MARKER] + [SEGWIT_FLAG] + tail
            else start + VersionBytes(tx.version) + tail
  {
    hide PreimageBytes, PreimageOf, HasWitness;
    var p := PreimageBytes(PreimageOf(h, tx, All, i, code, value));
    assert p[..4] == VersionBytes(tx.version) && p[4..] == tail;
  }

  class BitcoinTransaction {
    var version: Version
    var lockTime: u32
    var input: seq<TxIn>
    var output: seq<TxOut>

    ghost function Value(): Tx
      reads this
    {
      Tx(version, lockTime, input, output)
    }

    constructor (tx: Tx)
      ensures Value() == tx
    {
      version, lockTime, input, output := tx.version, tx.lockTime, tx.input, tx.output;
    }

    method EncodeVersion(w: ByteVec) returns (n: nat)
      modifies w
      ensures w.data == old(w.data) + VersionBytes(version) && n == 4
    {
      w.WriteAll(LE(match version case One => 1 case Two => 2, 4));
      n := 4;
    }

    /** `iter().any(..)` over the inputs. */
    method AnyWitness() returns (b: bool)
      ensures b == HasWitness(input)
    {
      b := false;
      for i := 0 to |input|
        invariant b == HasWitness(input[..i])
      {
        assert input[..i + 1][..i] == input[..i];
        b := b || input[i].witnessData.witnessElements != 0;
        assert b ==> HasWitness(input[..i + 1]);
      }
      assert input[..|input|] == input;
    }

    /** Appends the whole transaction and returns how many bytes that was. */
    method Encode(w: ByteVec) returns (len: nat)
      requires Sendable(input) && Outputs(output)
      modifies w
      ensures w.data == old(w.data) + TxBytes(Value()) && len == |TxBytes(Value())|
    {
      hide LE, VersionBytes, TxInsBytes, TxOutsBytes, WitnessBytes, Flat, Sendable, Outputs, HasWitness;
      ghost var start, tx := w.data, Value();
      ghost var p2 := VersionBytes(version) + Marker(tx);
      ghost var p3 := p2 + TxInsBytes(input);
      ghost var p4 := p3 + TxOutsBytes(output);
      len := EncodeVersion(w);
      var any := AnyWitness();
      if !(any || input == []) {
        assert w.data == start + p2;
        var n := EncodeTxIns(input, w);
        len := len + n;
        AppendStep(start, p2, TxInsBytes(input));
        n := EncodeTxOuts(output, w);
        len := len + n;
        AppendStep(start, p3, TxOutsBytes(output));
        assert p4 == p4 + WitnessSection(tx);
      } else {
        w.WriteAll([SEGWIT_MARKER]);
        len := len + 1;
        w.WriteAll([SEGWIT_FLAG]);
        len := len + 1;
        assert w.data == start + p2;
        var n := EncodeTxIns(input, w);
        len := len + n;
        AppendStep(start, p2, TxInsBytes(input));
        n := EncodeTxOuts(output, w);
        len := len + n;
        AppendStep(start, p3, TxOutsBytes(output));
        n := EncodeWitnesses(w);
        len := len + n;
        AppendStep(start, p4, WitnessSection(tx));
      }
      w.WriteAll(LE(lockTime, 4));
      len := len + 4;
      AppendStep(start, p4 + WitnessSection(tx), LE(lockTime, 4));
    }

    /** The last loop of the BIP-144 layout. */
    method EncodeWitnesses(w: ByteVec) returns (len: nat)
      modifies w
      ensures w.data == old(w.data) + Flat(InputWitnessBytes, input) && len == |Flat(InputWitnessBytes, input)|
    {
      hide WitnessBytes;
      len := 0;
      for i := 0 to |input|
        invariant w.data == old(w.data) + Flat(InputWitnessBytes, input[..i])
        invariant len == |Flat(InputWitnessBytes, input[..i])|
      {
        FlatSnoc(InputWitnessBytes, input, i);
        var n := Witnesses.Encode(input[i].witnessData, w);
        len := len + n;
      }
      assert input[..|input|] == input;
    }

    method Serialize() returns (buffer: bytes)
      requires Sendable(input) && Outputs(output)
      ensures buffer == TxBytes(Value())
    {
      var w := new ByteVec([]);
      var _ := Encode(w);
      assert [] + TxBytes(Value()) == TxBytes(Value());
      buffer := w.data;
    }

    method BuildForSigningLegacy(t: SighashType) returns (buffer: bytes)
      requires Sendable(input) && Outputs(output)
      ensures buffer == TxBytes(Value()) + [0x01, 0x00, 0x00, 0x00]
    {
      hide LE, TxBytes;
      LESmall(SighashNumber(t), 4);
      var encoded := Serialize();
      buffer := encoded + LE(SighashNumber(t), 4);
    }

    /** The Rust code panics on an index out of range and on the two segwit types. */
    method BuildWithScriptSig(i: nat, scriptSig: bytes, t: TransactionType) returns (buffer: bytes)
      requires i < |input| && (t == P2PKH || t == P2SH)
      requires Sendable(input) && Outputs(output) && HasU64Length(scriptSig)
      modifies this`input
      ensures input == old(input)[i := old(input)[i].(scriptSig := scriptSig)]
      ensures buffer == TxBytes(Value())
    {
      SetKeepsSendable(i, input[i].(scriptSig := scriptSig));
      input := input[i := input[i].(scriptSig := scriptSig)];
      buffer := Serialize();
    }

    lemma SetKeepsSendable(i: nat, x: TxIn)
      requires i < |input| && Sendable(input) && HasU64Length(x.scriptSig)
      ensures Sendable(input[i := x])
    {
      forall y | y in input[i := x]
        ensures HasU64Length(y.scriptSig)
      {
        var j :| 0 <= j < |input| && y == input[i := x][j];
        assert input[j] in input;
      }
    }

    /** The Rust code panics on an index out of range and on the two legacy types. */
    method BuildWithWitness(i: nat, items: seq<bytes>, t: TransactionType) returns (buffer: bytes)
      requires CanCall(|input|, Call(i, items)) && (t == P2WPKH || t == P2WSH)
      requires Sendable(input) && Outputs(output)
      modifies this`input
      ensures Value() == AfterRun(old(Value()), [Call(i, items)])
      ensures buffer == TxBytes(Value())
      ensures items != [] ==> |buffer| > 6 && buffer[4..6] == [0x00, 0x01]
    {
      hide TxBytes, Pack, Indexable, HasWitness;
      var stack := FromSlice(items);
      assert input[i] in input;
      SetKeepsSendable(i, input[i].(witnessData := stack));
      RunSnoc(Value(), [], Call(i, items));
      assert [] + [Call(i, items)] == [Call(i, items)];
      input := input[i := input[i].(witnessData := stack)];
      buffer := Serialize();
      if items != [] {
        RunHasWitness(old(input), [Call(i, items)]);
        MarkerAndFlag(Value());
      }
    }

    /**
     Any sequence of calls, one after the other; the last bytes are returned. If there were inputs and no
     witness before, the legacy serialization of then can be cut out of the bytes of now.
     */
    method RunBuildWithWitness(calls: seq<Call>, t: TransactionType) returns (buffer: bytes)
      requires WellFormed(Value()) && CanRun(|input|, calls) && (t == P2WPKH || t == P2WSH)
      modifies this`input
      ensures Value() == AfterRun(old(Value()), calls)
      ensures WellFormed(Value()) && buffer == TxBytes(Value())
      ensures old(input != [] && !HasWitness(input)) ==>
                if HasWitness(input) then StripSegwit(buffer) == Done(TxBytes(old(Value())), [])
                else buffer == TxBytes(old(Value()))
    {
      hide TxBytes, WellFormed, StripSegwit, HasWitness, AttachAll, Attach, CanCall;
      ghost var tx := Value();
      SendableParts(tx);
      NoCalls(tx);
      buffer := Serialize();
      for k := 0 to |calls|
        invariant CanRun(|tx.input|, calls[..k]) && Value() == AfterRun(tx, calls[..k])
        invariant WellFormed(Value()) && buffer == TxBytes(Value())
      {
        var c := calls[k];
        assert calls[..k + 1] == calls[..k] + [c];
        RunSnoc(tx, calls[..k], c);
        RunSnoc(Value(), [], c);
        assert [] + [c] == [c];
        SendableParts(Value());
        buffer := BuildWithWitness(c.index, c.items, t);
        RunKeepsWellFormed(tx, calls[..k + 1]);
      }
      assert calls[..|calls|] == calls;
      if tx.input != [] && !HasWitness(tx.input) {
        StripAfterRun(tx, calls);
      }
    }

    method EncodeForSighashForSegwit(h: Sha256d, buffer: ByteVec, i: nat, code: bytes, value: u64)
      requires i < |input| && Outputs(output) && HasU64Length(code)
      modifies buffer
      ensures buffer.data + [0x01, 0x00, 0x00, 0x00] == old(buffer.data) + SigningBytes(h, Value(), All, i, code, value)
    {
      hide LE, VersionBytes, OutPointBytes, VarBytes, Prevouts, Sequences, OutputsPart, HasWitness, Outputs;
      ghost var p := PreimageOf(h, Value(), All, i, code, value);
      ghost var t9 := LE(SighashNumber(All), 4);
      ghost var t8 := LE(p.lockTime, 4) + t9;
      ghost var t7 := p.hashOutputs + t8;
      ghost var t6 := LE(p.sequence, 4) + t7;
      ghost var t5 := LE(p.amount, 8) + t6;
      ghost var t4 := VarBytes(p.scriptCode) + t5;
      ghost var t3 := OutPointBytes(p.outpoint) + t4;
      ghost var t2 := p.hashSequence + t3;
      ghost var t1 := p.hashPrevouts + t2;
      assert PreimageBytes(p) == VersionBytes(version) + t1;
      LESmall(1, 4);
      assert t9 == [0x01, 0x00, 0x00, 0x00];
      ghost var start := buffer.data;

      var _ := EncodeVersion(buffer);
      var any := AnyWitness();
      if any {
        buffer.WriteAll([SEGWIT_MARKER]);
        buffer.WriteAll([SEGWIT_FLAG]);
      }
      HeadOfSigning(start, h, Value(), i, code, value, t1);
      ghost var goal := start + SigningBytes(h, Value(), All, i, code, value);
      assert buffer.data + t1 == goal;

      var prevouts := PrevoutsBuffer();
      AppendStep(buffer.data, p.hashPrevouts, t2);
      buffer.WriteAll(h(prevouts));

      var sequences := SequencesBuffer();
      AppendStep(buffer.data, p.hashSequence, t3);
      buffer.WriteAll(h(sequences));

      AppendStep(buffer.data, OutPointBytes(p.outpoint), t4);
      var _ := EncodeOutPoint(input[i].previousOutput, buffer);

      AppendStep(buffer.data, VarBytes(p.scriptCode), t5);
      var _ := EncodeWithSize(code, buffer);

      AppendStep(buffer.data, LE(p.amount, 8), t6);
      buffer.WriteAll(LE(value, 8));

      AppendStep(buffer.data, LE(p.sequence, 4), t7);
      buffer.WriteAll(LE(input[i].sequence, 4));

      var outputs := OutputsBuffer();
      AppendStep(buffer.data, p.hashOutputs, t8);
      buffer.WriteAll(h(outputs));

      AppendStep(buffer.data, LE(p.lockTime, 4), t9);
      buffer.WriteAll(LE(lockTime, 4));
    }

    method PrevoutsBuffer() returns (out: bytes)
      ensures out == Prevouts(Value())
    {
      hide OutPointBytes;
      var prevouts := new ByteVec([]);
      for i := 0 to |input|
        invariant fresh(prevouts) && prevouts.data == Flat(PrevoutBytes, input[..i])
      {
        FlatSnoc(PrevoutBytes, input, i);
        var _ := EncodeOutPoint(input[i].previousOutput, prevouts);
      }
      assert input[..|input|] == input;
      out := prevouts.data;
    }

    method SequencesBuffer() returns (out: bytes)
      ensures out == Sequences(Value())
    {
      hide LE;
      var sequences := new ByteVec([]);
      for i := 0 to |input|
        invariant fresh(sequences) && sequences.data == Flat(SequenceBytes, input[..i])
      {
        FlatSnoc(SequenceBytes, input, i);
        sequences.WriteAll(LE(input[i].sequence, 4));
      }
      assert input[..|input|] == input;
      out := sequences.data;
    }

    method OutputsBuffer() returns (out: bytes)
      requires Outputs(output)
      ensures out == OutputsPart(Value())
    {
      hide TxOutBytes;
      var outputs := new ByteVec([]);
      for i := 0 to |output|
        invariant fresh(outputs) && outputs.data == Flat(TxOutBytes, output[..i])
      {
        FlatSnoc(TxOutBytes, output, i);
        assert TxOutFits(output[i]);
        var _ := EncodeTxOut(output[i], outputs);
      }
      assert output[..|output|] == output;
      out := outputs.data;
    }

    /** The Rust code panics on an index out of range and on version 1. */
    method BuildForSigningSegwit(h: Sha256d, t: SighashType, i: nat, code: bytes, value: u64) returns (buffer: bytes)
      requires version == Two && i < |input|
      requires Outputs(output) && HasU64Length(code)
      ensures buffer == SigningBytes(h, Value(), t, i, code, value)
      ensures if HasWitness(input) then |buffer| > 6 && buffer[4..6] == [0x00, 0x01]
                                        && Bip143Message(buffer[..4] + buffer[6..], h, Value(), i, code, value)
              else Bip143Message(buffer, h, Value(), i, code, value)
    {
      hide SigningBytes, LE, HasWitness, Bip143Message;
      var w := new ByteVec([]);
      EncodeForSighashForSegwit(h, w, i, code, value);
      assert [] + SigningBytes(h, Value(), t, i, code, value) == SigningBytes(h, Value(), t, i, code, value);
      buffer := w.data + LE(SighashNumber(t), 4);
      LESmall(SighashNumber(t), 4);
      Bip143Exactly(h, Value(), t, i, code, value);
    }
  }
}
