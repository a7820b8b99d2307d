/** Runs of `build_with_witness` calls on one transaction. */
module WitnessRuns {
  import opened Bytes
  import opened Parsing
  import opened VarInts
  import opened Witnesses
  import opened TxParts
  import opened TxVectors
  import opened Transactions

  /** One call: the input it is for and the witness items it attaches. */
  datatype Call = Call(index: nat, items: seq<bytes>)

  ghost predicate CanCall(n: nat, c: Call) {
    c.index < n && Indexable(c.items)
  }

  ghost predicate CanRun(n: nat, calls: seq<Call>) {
    forall c :: c in calls ==> CanCall(n, c)
  }

  ghost function Attach(xs: seq<TxIn>, c: Call): (ys: seq<TxIn>)
    requires CanCall(|xs|, c)
    ensures |ys| == |xs|
  {
    xs[c.index := xs[c.index].(witnessData := Pack(c.items))]
  }

  ghost function AttachAll(xs: seq<TxIn>, calls: seq<Call>): (ys: seq<TxIn>)
    requires CanRun(|xs|, calls)
    ensures |ys| == |xs|
  {
    if calls == [] then xs else Attach(AttachAll(xs, calls[..|calls| - 1]), calls[|calls| - 1])
  }

  ghost function AfterRun(tx: Tx, calls: seq<Call>): Tx
    requires CanRun(|tx.input|, calls)
  {
    tx.(input := AttachAll(tx.input, calls))
  }

  /** A run and then one more call is a longer run. */
  lemma RunSnoc(tx: Tx, calls: seq<Call>, c: Call)
    requires CanRun(|tx.input|, calls) && CanCall(|tx.input|, c)
    ensures CanRun(|tx.input|, calls + [c])
    ensures AfterRun(tx, calls + [c]) == AfterRun(tx, calls).(input := Attach(AfterRun(tx, calls).input, c))
    ensures AfterRun(tx, []) == tx
  {
    hide Pack, Indexable;
    assert (calls + [c])[..|calls|] == calls;
  }

  /** A run and then another is one run. */
  lemma {:induction false} RunsCompose(tx: Tx, a: seq<Call>, b: seq<Call>)
    requires CanRun(|tx.input|, a) && CanRun(|tx.input|, b)
    ensures CanRun(|tx.input|, a + b)
    ensures AfterRun(AfterRun(tx, a), b) == AfterRun(tx, a + b)
  {
    hide CanCall, Pack;
    if b == [] {
      assert a + b == a;
    } else {
      var n := |b| - 1;
      assert b[n] in b;
      RunsCompose(tx, a, b[..n]);
      RunSnoc(tx, a + b[..n], b[n]);
      RunSnoc(AfterRun(tx, a), b[..n], b[n]);
      assert b == b[..n] + [b[n]];
      assert a + b == a + b[..n] + [b[n]];
    }
  }

  // ---- The order of calls

  /** The items of the last call for input `i`. */
  ghost function LastFor(calls: seq<Call>, i: nat): Option<seq<bytes>> {
    if calls == [] then None
    else if calls[|calls| - 1].index == i then Some(calls[|calls| - 1].items)
    else LastFor(calls[..|calls| - 1], i)
  }

  /** After any run an input is as it was but for the witness of the last call for it. */
  lemma {:induction false} AttachedAt(xs: seq<TxIn>, calls: seq<Call>, i: nat)
    requires CanRun(|xs|, calls) && i < |xs|
    ensures match LastFor(calls, i)
            case None => AttachAll(xs, calls)[i] == xs[i]
            case Some(items) => Indexable(items) && AttachAll(xs, calls)[i] == xs[i].(witnessData := Pack(items))
  {
    hide Pack, Indexable;
    if calls != [] {
      var c := calls[|calls| - 1];
      assert c in calls && CanCall(|xs|, c);
      AttachedAt(xs, calls[..|calls| - 1], i);
    }
  }

  ghost predicate DistinctInputs(calls: seq<Call>) {
    forall i, j | 0 <= i < j < |calls| :: calls[i].index != calls[j].index
  }

  lemma {:induction false} LastIsOnly(calls: seq<Call>, i: nat)
    requires DistinctInputs(calls)
    ensures match LastFor(calls, i)
            case None => forall c :: c in calls ==> c.index != i
            case Some(items) => Call(i, items) in calls && forall c :: c in calls && c.index == i ==> c.items == items
  {
    if calls != [] {
      var n := |calls| - 1;
      if calls[n].index == i {
        assert calls[n] == Call(i, calls[n].items);
      } else {
        LastIsOnly(calls[..n], i);
      }
    }
  }

  /** Calls for distinct inputs may be made in any order. */
  lemma OrderDoesNotMatter(tx: Tx, calls: seq<Call>, calls': seq<Call>)
    requires CanRun(|tx.input|, calls) && CanRun(|tx.input|, calls')
    requires DistinctInputs(calls) && DistinctInputs(calls')
    requires forall c :: c in calls <==> c in calls'
    ensures AfterRun(tx, calls) == AfterRun(tx, calls')
    ensures TxBytes(AfterRun(tx, calls)) == TxBytes(AfterRun(tx, calls'))
  {
    hide TxBytes;
    forall i | 0 <= i < |tx.input|
      ensures AttachAll(tx.input, calls)[i] == AttachAll(tx.input, calls')[i]
    {
      AttachedAt(tx.input, calls, i);
      AttachedAt(tx.input, calls', i);
      LastIsOnly(calls, i);
      LastIsOnly(calls', i);
      match LastFor(calls, i)
      case None =>
      case Some(items) => assert Call(i, items) in calls';
    }
  }

  // ---- Taking the witnesses out again

  /** `s` without marker, flag and witness section, if it is one whole BIP-144 serialization. */
  function StripSegwit(s: bytes): Parsed<bytes> {
    if |s| < 6 || s[4] != 0x00 || s[5] != 0x01 then Failed(InvalidData)
    else
      var (ins, r1) :- CountedReader(TxInReader(ReadVarBytes))(s[6..]);
      var (outs, r2) :- CountedReader(ReadTxOut)(r1);
      var (ws, r3) :- ReadMany(CountedReader(ReadVarBytes), |ins|, r2);
      if |r3| != 4 || |r2| > |s| - 6 then Failed(InvalidData) else Done(s[..4] + s[6..|s| - |r2|] + r3, [])
  }

  lemma {:induction false} AttachKeeps(xs: seq<TxIn>, calls: seq<Call>)
    requires CanRun(|xs|, calls) && Sendable(xs)
    requires forall x :: x in xs ==> IsPacked(x.witnessData)
    ensures var ys := AttachAll(xs, calls);
            Sendable(ys) && Bare(ys) == Bare(xs) && forall y :: y in ys ==> IsPacked(y.witnessData)
  {
    hide Pack, Indexable;
    if calls != [] {
      var c := calls[|calls| - 1];
      assert c in calls && CanCall(|xs|, c);
      var before := AttachAll(xs, calls[..|calls| - 1]);
      AttachKeeps(xs, calls[..|calls| - 1]);
      var ys := Attach(before, c);
      assert before[c.index] in before;
      forall y | y in ys
        ensures HasU64Length(y.scriptSig) && IsPacked(y.witnessData)
      {
        var i :| 0 <= i < |ys| && y == ys[i];
        assert before[i] in before;
      }
      assert Bare(ys) == Bare(before);
    }
  }

  lemma RunKeepsWellFormed(tx: Tx, calls: seq<Call>)
    requires WellFormed(tx) && CanRun(|tx.input|, calls)
    ensures WellFormed(AfterRun(tx, calls))
  {
    hide AttachAll, IsPacked, Sendable, Outputs;
    AttachKeeps(tx.input, calls);
  }

  lemma SendableParts(tx: Tx)
    requires WellFormed(tx)
    ensures Sendable(tx.input) && Outputs(tx.output)
  {
  }

  lemma NoCalls(tx: Tx)
    ensures AfterRun(tx, []) == tx
  {
  }

  lemma {:induction false} RunHasWitness(xs: seq<TxIn>, calls: seq<Call>)
    requires CanRun(|xs|, calls) && calls != [] && calls[|calls| - 1].items != []
    ensures HasWitness(AttachAll(xs, calls))
  {
    hide Indexable;
    var c := calls[|calls| - 1];
    assert c in calls && CanCall(|xs|, c);
    assert AttachAll(xs, calls)[c.index].witnessData == Pack(c.items);
  }

  lemma StripOfSegwit(tx: Tx)
    requires WellFormed(tx) && UsesSegwit(tx.input)
    ensures StripSegwit(TxBytes(tx)) ==
            Done(VersionBytes(tx.version) + TxInsBytes(tx.input) + TxOutsBytes(tx.output) + LE(tx.lockTime, 4), [])
  {
    hide LE, VersionBytes, TxInsBytes, TxOutsBytes, CountedReader, TxInReader, Outputs, Flat, ReadMany, IsPacked, UsesSegwit;
    var s, ins, outs := TxBytes(tx), TxInsBytes(tx.input), TxOutsBytes(tx.output);
    var t1 := LE(tx.lockTime, 4);
    var t2 := Flat(InputWitnessBytes, tx.input) + t1;
    assert s == VersionBytes(tx.version) + [SEGWIT_MARKER, SEGWIT_FLAG] + (ins + (outs + t2));
    assert s[6..] == ins + (outs + t2);
    InputsAndOutputs(tx.input, tx.output, t2);
    ReadWitnessSection(tx.input, t1);
    assert s[6..|s| - |t2|] == ins + outs;
    assert s[..4] == VersionBytes(tx.version);
    assert VersionBytes(tx.version) + (ins + outs) + t1 == VersionBytes(tx.version) + ins + outs + t1;
  }

  /**
   After any run of calls on a transaction with inputs and without witnesses: if a witness is attached,
   the latest bytes without marker, flag and witness section are the legacy serialization there was
   before; if none is, because only empty ones were given, they are that serialization.
   */
  lemma StripAfterRun(tx: Tx, calls: seq<Call>)
    requires WellFormed(tx) && tx.input != [] && !HasWitness(tx.input)
    requires CanRun(|tx.input|, calls)
    ensures WellFormed(AfterRun(tx, calls))
    ensures if HasWitness(AfterRun(tx, calls).input)
            then StripSegwit(TxBytes(AfterRun(tx, calls))) == Done(TxBytes(tx), [])
            else TxBytes(AfterRun(tx, calls)) == TxBytes(tx)
  {
    hide TxInsBytes, TxOutsBytes, LE, StripSegwit, Outputs;
    hide IsPacked, Indexable, Pack, Bare, BareInputs, VersionBytes, HasWitness, AttachAll, Sendable;
    var tx' := AfterRun(tx, calls);
    AttachKeeps(tx.input, calls);
    BareIsBare(tx.input);
    BareIsBare(tx'.input);
    assert TxBytes(tx) == VersionBytes(tx.version) + TxInsBytes(tx.input) + TxOutsBytes(tx.output) + LE(tx.lockTime, 4);
    if HasWitness(tx'.input) {
      StripOfSegwit(tx');
    }
  }
}
