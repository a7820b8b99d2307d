/**
 The message for one input while witnesses are being attached to others. BIP-143 signs no witness, so its
 message never moves; the library's does, once, when the first witness is attached.
 */
module SighashRuns {
  import opened Bytes
  import opened Parsing
  import opened VarInts
  import opened Witnesses
  import opened TxParts
  import opened TxVectors
  import opened Transactions
  import opened WitnessRuns
  import opened Sighash

  /** Attaching witnesses leaves alone what an input spends and its sequence. */
  lemma RunKeepsSigned(xs: seq<TxIn>, calls: seq<Call>, i: nat)
    requires CanRun(|xs|, calls) && i < |xs|
    ensures var y := AttachAll(xs, calls)[i];
            y.previousOutput == xs[i].previousOutput && y.sequence == xs[i].sequence
  {
    hide Pack, Indexable, AttachAll;
    AttachedAt(xs, calls, i);
  }

  /** No run of calls moves any of the ten fields of BIP-143. */
  lemma RunKeepsPreimage(h: Sha256d, tx: Tx, calls: seq<Call>, t: SighashType, i: nat, code: bytes, value: u64)
    requires CanRun(|tx.input|, calls) && i < |tx.input|
    ensures PreimageOf(h, AfterRun(tx, calls), t, i, code, value) == PreimageOf(h, tx, t, i, code, value)
  {
    hide AttachAll, Flat, OutPointBytes, LE;
    var xs, ys := tx.input, AttachAll(tx.input, calls);
    forall j | 0 <= j < |xs|
      ensures PrevoutBytes(ys[j]) == PrevoutBytes(xs[j]) && SequenceBytes(ys[j]) == SequenceBytes(xs[j])
    {
      RunKeepsSigned(xs, calls, j);
    }
    FlatPointwise(PrevoutBytes, ys, PrevoutBytes, xs);
    FlatPointwise(SequenceBytes, ys, SequenceBytes, xs);
    RunKeepsSigned(xs, calls, i);
  }

  /** A run leaves the library's message alone exactly when it does not change whether there is a witness. */
  lemma RunKeepsMessageExactly(h: Sha256d, tx: Tx, calls: seq<Call>, t: SighashType, i: nat, code: bytes, value: u64)
    requires CanRun(|tx.input|, calls) && i < |tx.input|
    ensures SigningBytes(h, AfterRun(tx, calls), t, i, code, value) == SigningBytes(h, tx, t, i, code, value)
            <==> HasWitness(AfterRun(tx, calls).input) == HasWitness(tx.input)
  {
    hide PreimageBytes, PreimageOf, HasWitness, AfterRun;
    RunKeepsPreimage(h, tx, calls, t, i, code, value);
    PreimageLength(PreimageOf(h, tx, t, i, code, value));
  }

  /**
   The call that breaks it: on a transaction without witnesses, attach some items to any input. The
   message for every input was the one of BIP-143, which is still the same, and has become another.
   */
  lemma FirstWitnessMovesMessage(h: Sha256d, tx: Tx, c: Call, t: SighashType, i: nat, code: bytes, value: u64)
    requires !HasWitness(tx.input) && i < |tx.input|
    requires CanCall(|tx.input|, c) && c.items != []
    ensures CanRun(|tx.input|, [c])
    ensures var s := SigningBytes(h, tx, t, i, code, value);
            && Bip143Message(s, h, tx, i, code, value)
            && Bip143Message(s, h, AfterRun(tx, [c]), i, code, value)
            && |s| > 4
            && SigningBytes(h, AfterRun(tx, [c]), t, i, code, value) == s[..4] + [0x00, 0x01] + s[4..] != s
  {
    hide PreimageBytes, PreimageOf, HasWitness, AttachAll, Bip143Message;
    RunHasWitness(tx.input, [c]);
    RunKeepsPreimage(h, tx, [c], t, i, code, value);
    PreimageIsMessage(h, tx, t, i, code, value);
    PreimageIsMessage(h, AfterRun(tx, [c]), t, i, code, value);
    var s := SigningBytes(h, tx, t, i, code, value);
    PreimageLength(PreimageOf(h, tx, t, i, code, value));
    assert |s[..4] + [0x00, 0x01] + s[4..]| == |s| + 2;
  }
}
