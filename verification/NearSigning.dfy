/** The bytes a NEAR account signs, the signed transaction, and where the decoder and `try_from` part ways. */
module NearSigning {
  import opened Bytes
  import opened Parsing
  import opened Borsh
  import opened NearKeys
  import opened Near
  import opened NearCanonical

  function BuildForSigning(tx: NearTransaction): bytes {
    PutTransaction(tx, [])
  }

  function SignatureBytes(g: Signature): bytes {
    PutSignature(g, [])
  }

  /** The derived serializer of `SignedTransaction`: the transaction, then the signature. */
  function BuildWithSignature(tx: NearTransaction, g: Signature): bytes {
    PutTransaction(tx, PutSignature(g, []))
  }

  function TransactionFits(rules: TextRules): NearTransaction -> bool {
    tx => TransactionOk(rules, tx)
  }

  function TransactionReader(rules: TextRules): bytes -> Parsed<NearTransaction> {
    s => ReadTransaction(rules, s)
  }

  /** Signing bytes read back, whatever follows them, and whatever reads back is signing bytes. */
  lemma SigningLawful(rules: TextRules)
    ensures Lawful(TransactionFits(rules), BuildForSigning, TransactionReader(rules))
  {
    hide TransactionOk, ReadTransaction, PutTransaction;
    forall tx: NearTransaction, t: bytes | TransactionOk(rules, tx)
      ensures ReadTransaction(rules, BuildForSigning(tx) + t) == Done(tx, t)
    {
      SigningThen(tx, t);
      TransactionRoundTrip(rules, tx, t);
    }
    forall s: bytes | ReadTransaction(rules, s).Done?
      ensures var p := ReadTransaction(rules, s);
              TransactionOk(rules, p.value) && s == BuildForSigning(p.value) + p.rest
    {
      TransactionCanonical(rules, s);
      SigningThen(ReadTransaction(rules, s).value, ReadTransaction(rules, s).rest);
    }
  }

  lemma SigningThen(tx: NearTransaction, t: bytes)
    ensures PutTransaction(tx, t) == BuildForSigning(tx) + t
  {
    hide PutTransaction;
    TransactionTail(tx, [], t);
    assert [] + t == t;
  }

  /** A signed transaction is the bytes that were signed and the signature. */
  lemma SignedIsSigningThenSignature(tx: NearTransaction, g: Signature)
    ensures BuildWithSignature(tx, g) == BuildForSigning(tx) + SignatureBytes(g)
  {
    SigningThen(tx, SignatureBytes(g));
  }

  /** It splits in one way only, even when more bytes follow. */
  lemma SignedSplitsOneWay(rules: TextRules, tx: NearTransaction, g: Signature, t: bytes, tx': NearTransaction, g': Signature, t': bytes)
    requires TransactionOk(rules, tx) && TransactionOk(rules, tx')
    requires BuildWithSignature(tx, g) + t == BuildWithSignature(tx', g') + t'
    ensures tx == tx' && g == g' && t == t'
  {
    hide TransactionOk, ReadTransaction, PutTransaction, PutSignature, ReadSignature;
    SignatureTail(g, [], t);
    SignatureTail(g', [], t');
    assert [] + t == t && [] + t' == t';
    TransactionTail(tx, SignatureBytes(g), t);
    TransactionTail(tx', SignatureBytes(g'), t');
    TransactionRoundTrip(rules, tx, PutSignature(g, t));
    TransactionRoundTrip(rules, tx', PutSignature(g', t'));
    SignatureRoundTrip(g, t);
    SignatureRoundTrip(g', t');
  }

  // ---- Non-delegate actions

  /** `NonDelegateAction::try_from`. */
  function TryFrom(a: Action): Option<NonDelegateAction> {
    if a.Delegate? then None else Some(NonDelegateAction(a))
  }

  /**
   The derived decoder does not go through `try_from`: a delegate action inside a delegate action is
   read back, although no `NonDelegateAction` could have been made of it.
   */
  lemma NestedDelegateIsRead(rules: TextRules, name: bytes, key: PublicKey, g: Signature)
    requires AccountOk(rules, name)
    ensures var inner := Delegate(SignedDelegateAction(DelegateAction(name, name, [], 0, 0, key), g));
            var outer := Delegate(SignedDelegateAction(DelegateAction(name, name, [NonDelegateAction(inner)], 0, 0, key), g));
            TryFrom(inner) == None && ReadAction(rules, PutAction(outer, [])) == Done(outer, [])
  {
    hide PutAction, ReadAction, AccountOk;
    var leaf := SignedDelegateAction(DelegateAction(name, name, [], 0, 0, key), g);
    var inner := Delegate(leaf);
    assert DelegateOk(rules, leaf);
    var xs := [NonDelegateAction(inner)];
    assert InnerOk(rules, xs[1..]);
    assert NonDelegateOk(rules, xs[0]);
    assert InnerOk(rules, xs);
    var top := SignedDelegateAction(DelegateAction(name, name, xs, 0, 0, key), g);
    assert DelegateOk(rules, top);
    ActionRoundTrip(rules, Delegate(top), []);
  }

  /** None of the `n` actions at the front of `s` starts with the tag of a delegate action. */
  predicate NoDelegateTag(rules: TextRules, n: nat, s: bytes) {
    if n == 0 then true
    else s != [] && s[0] != 8 &&
         match ReadAction(rules, s)
         case Done(_, r) => NoDelegateTag(rules, n - 1, r)
         case Failed(_) => true
  }

  /** What is decoded could have been made by `try_from` exactly when no delegate tag is among the inner actions. */
  lemma {:induction false} TryFromExactly(rules: TextRules, n: nat, s: bytes)
    requires ReadInner(rules, n, s).Done?
    ensures (forall x :: x in ReadInner(rules, n, s).value ==> TryFrom(x.action) == Some(x)) <==> NoDelegateTag(rules, n, s)
  {
    hide ReadDelegate, ReadPlainBody;
    if n > 0 {
      var head := ReadAction(rules, s);
      var rest := ReadInner(rules, n - 1, head.rest);
      TryFromExactly(rules, n - 1, head.rest);
      DelegateTagExactly(rules, s);
      var xs := ReadInner(rules, n, s).value;
      assert xs == [NonDelegateAction(head.value)] + rest.value;
      assert xs[0] in xs;
      forall x | x in rest.value
        ensures x in xs
      {
      }
    }
  }

  lemma DelegateTagExactly(rules: TextRules, s: bytes)
    requires ReadAction(rules, s).Done?
    ensures s != [] && (ReadAction(rules, s).value.Delegate? <==> s[0] == 8)
  {
    hide ReadDelegate, ReadPlainBody;
    if s[0] != 8 {
      PlainCanonical(rules, s[0], s[1..]);
    }
  }
}
