/** Only serializations are accepted, and a value's serialization does not depend on what follows it. */
module NearCanonical {
  import opened Bytes
  import opened Parsing
  import opened Borsh
  import opened NearKeys
  import opened Near

  // ---- Whatever is read was written

  lemma OptionCanonical(s: bytes)
    requires ReadOption(s).Done?
    ensures s == PutOption(ReadOption(s).value, ReadOption(s).rest)
  {
    hide PutWord, ReadU128;
    assert s == [s[0]] + s[1..];
    WordCanonical(s[1..]);
  }

  lemma PermissionCanonical(rules: TextRules, s: bytes)
    requires ReadPermission(rules, s).Done?
    ensures var p := ReadPermission(rules, s);
            PermissionOk(rules, p.value) && s == PutPermission(p.value, p.rest)
  {
    hide PutWord, ReadWord, PutVec, ReadText, PutTexts, ReadTexts, PutOption, ReadOption, TextOk, TextsOk;
    assert s == [s[0]] + s[1..];
    if s[0] == 0 {
      OptionCanonical(s[1..]);
      var r1 := ReadOption(s[1..]).rest;
      TextCanonical(rules, r1);
      var r2 := ReadText(rules, r1).rest;
      CountCanonical(r2);
      TextsCanonical(rules, ReadWord(r2, 4).value, ReadWord(r2, 4).rest);
    }
  }

  lemma IdentifierCanonical(rules: TextRules, s: bytes)
    requires ReadIdentifier(rules, s).Done?
    ensures var p := ReadIdentifier(rules, s);
            IdentifierOk(rules, p.value) && s == PutIdentifier(p.value, p.rest)
  {
    hide PutVec, ReadAccount, AccountOk;
    assert s == [s[0]] + s[1..];
    TextCanonical(rules, s[1..]);
  }

  lemma ModeCanonical(s: bytes)
    requires ReadMode(s).Done?
    ensures s == PutMode(ReadMode(s).value, ReadMode(s).rest)
  {
    assert s == [s[0]] + s[1..];
  }

  lemma PlainCanonical(rules: TextRules, tag: byte, s: bytes)
    requires ReadPlainBody(rules, tag, s).Done?
    ensures var p := ReadPlainBody(rules, tag, s);
            ActionOk(rules, p.value) && !p.value.Delegate? && Tag(p.value) == tag && s == PutBody(p.value, p.rest)
  {
    hide PutWord, ReadU64, ReadU128, PutVec, ReadVec, ReadText, ReadAccount, PutPublicKey, ReadPublicKey;
    hide PutPermission, ReadPermission, PutIdentifier, ReadIdentifier, PutMode, ReadMode;
    hide TextOk, AccountOk, VecOk, PermissionOk, IdentifierOk;
    if tag == 1 {
      VecCanonical(s);
    } else if tag == 2 {
      TextCanonical(rules, s);
      var r1 := ReadText(rules, s).rest;
      VecCanonical(r1);
      var r2 := ReadVec(r1).rest;
      WordCanonical(r2);
      WordCanonical(ReadU64(r2).rest);
    } else if tag == 3 {
      WordCanonical(s);
    } else if tag == 4 {
      WordCanonical(s);
      PublicKeyCanonical(ReadU128(s).rest);
    } else if tag == 5 {
      PublicKeyCanonical(s);
      var r1 := ReadPublicKey(s).rest;
      WordCanonical(r1);
      PermissionCanonical(rules, ReadU64(r1).rest);
    } else if tag == 6 {
      PublicKeyCanonical(s);
    } else if tag == 7 {
      TextCanonical(rules, s);
    } else if tag == 9 {
      VecCanonical(s);
      ModeCanonical(ReadVec(s).rest);
    } else if tag == 10 {
      IdentifierCanonical(rules, s);
    }
  }

  lemma {:induction false} ActionCanonical(rules: TextRules, s: bytes)
    requires ReadAction(rules, s).Done?
    ensures var p := ReadAction(rules, s);
            ActionOk(rules, p.value) && s == PutAction(p.value, p.rest)
    decreases |s|, 0
  {
    hide PutDelegate, ReadDelegate, ReadPlainBody, DelegateOk;
    assert s == [s[0]] + s[1..];
    if s[0] == 8 {
      DelegateCanonical(rules, s[1..]);
    } else {
      PlainCanonical(rules, s[0], s[1..]);
    }
  }

  lemma {:induction false} DelegateCanonical(rules: TextRules, s: bytes)
    requires ReadDelegate(rules, s).Done?
    ensures var p := ReadDelegate(rules, s);
            DelegateOk(rules, p.value) && s == PutDelegate(p.value, p.rest)
    decreases |s|, 0
  {
    hide PutWord, ReadWord, PutVec, ReadAccount, PutInner, ReadInner, PutDelegateEnd, ReadDelegateEnd, InnerOk, AccountOk;
    TextCanonical(rules, s);
    var r1 := ReadAccount(rules, s).rest;
    TextCanonical(rules, r1);
    var r2 := ReadAccount(rules, r1).rest;
    CountCanonical(r2);
    var h := ReadDelegateHead(rules, s);
    InnerCanonical(rules, h.value.count, h.rest);
    var inner := ReadInner(rules, h.value.count, h.rest);
    DelegateEndCanonical(h.value, inner.value, inner.rest);
  }

  lemma DelegateEndCanonical(h: DelegateHead, xs: seq<NonDelegateAction>, s: bytes)
    requires ReadDelegateEnd(h, xs, s).Done?
    ensures var p := ReadDelegateEnd(h, xs, s);
            && p.value.delegateAction.senderId == h.senderId && p.value.delegateAction.receiverId == h.receiverId
            && p.value.delegateAction.actions == xs && s == PutDelegateEnd(p.value, p.rest)
  {
    hide PutWord, ReadU64, PutPublicKey, ReadPublicKey, PutSignature, ReadSignature;
    WordCanonical(s);
    var r1 := ReadU64(s).rest;
    WordCanonical(r1);
    var r2 := ReadU64(r1).rest;
    PublicKeyCanonical(r2);
    SignatureCanonical(ReadPublicKey(r2).rest);
  }

  lemma {:induction false} InnerCanonical(rules: TextRules, n: nat, s: bytes)
    requires ReadInner(rules, n, s).Done?
    ensures var p := ReadInner(rules, n, s);
            InnerOk(rules, p.value) && s == PutInner(p.value, p.rest)
    decreases |s|, n
  {
    hide PutAction, ReadAction, ActionOk;
    if n > 0 {
      ActionCanonical(rules, s);
      var head := ReadAction(rules, s);
      InnerCanonical(rules, n - 1, head.rest);
      var p := ReadInner(rules, n, s);
      assert p.value[1..] == ReadInner(rules, n - 1, head.rest).value;
    }
  }

  lemma {:induction false} ActionsCanonical(rules: TextRules, n: nat, s: bytes)
    requires ReadActions(rules, n, s).Done?
    ensures var p := ReadActions(rules, n, s);
            (forall a :: a in p.value ==> ActionOk(rules, a)) && s == PutActions(p.value, p.rest)
  {
    hide PutAction, ReadAction, ActionOk;
    if n > 0 {
      ActionCanonical(rules, s);
      var head := ReadAction(rules, s);
      ActionsCanonical(rules, n - 1, head.rest);
      var p := ReadActions(rules, n, s);
      assert p.value[1..] == ReadActions(rules, n - 1, head.rest).value;
    }
  }

  /** Every byte string that is read as a transaction is the serialization of that transaction. */
  lemma TransactionCanonical(rules: TextRules, s: bytes)
    requires ReadTransaction(rules, s).Done?
    ensures var p := ReadTransaction(rules, s);
            TransactionOk(rules, p.value) && s == PutTransaction(p.value, p.rest)
  {
    hide PutWord, ReadWord, ReadU64, PutVec, ReadAccount, PutPublicKey, ReadPublicKey, PutActions, ReadActions, ActionOk, AccountOk;
    TextCanonical(rules, s);
    var r1 := ReadAccount(rules, s).rest;
    PublicKeyCanonical(r1);
    var r2 := ReadPublicKey(r1).rest;
    WordCanonical(r2);
    var r3 := ReadU64(r2).rest;
    TextCanonical(rules, r3);
    var r4 := ReadAccount(rules, r3).rest;
    var r5 := ReadBytes(r4, 32).rest;
    CountCanonical(r5);
    ActionsCanonical(rules, ReadWord(r5, 4).value, ReadWord(r5, 4).rest);
  }

  // ---- What follows a value does not change its bytes

  lemma PermissionTail(p: AccessKeyPermission, t: bytes, u: bytes)
    ensures PutPermission(p, t + u) == PutPermission(p, t) + u
  {
    hide PutWord, PutVec, PutTexts;
    match p {
      case FunctionCallPermission(allowance, receiverId, names) =>
        var t3 := PutTexts(names, t);
        var t2 := PutWord(|names|, 4, t3);
        var t1 := PutVec(receiverId, t2);
        TextsTail(names, t, u);
        WordTail(|names|, 4, t3, u);
        VecTail(receiverId, t2, u);
        if allowance.Some? {
          WordTail(allowance.value, 16, t1, u);
        }
      case FullAccess =>
    }
  }

  lemma IdentifierTail(i: GlobalContractIdentifier, t: bytes, u: bytes)
    ensures PutIdentifier(i, t + u) == PutIdentifier(i, t) + u
  {
    hide PutVec;
    match i {
      case CodeHash(h) => assert [0] + (h + (t + u)) == [0] + (h + t) + u;
      case AccountId(id) => VecTail(id, t, u);
    }
  }

  lemma {:induction false} BodyTail(a: Action, t: bytes, u: bytes)
    ensures PutBody(a, t + u) == PutBody(a, t) + u
    decreases a, 0
  {
    hide PutWord, PutVec, PutPublicKey, PutPermission, PutIdentifier, PutMode, PutDelegate;
    match a {
      case CreateAccount =>
      case DeployContract(code) => VecTail(code, t, u);
      case FunctionCall(name, args, gas, deposit) =>
        var t3 := PutWord(deposit, 16, t);
        var t2 := PutWord(gas, 8, t3);
        WordTail(deposit, 16, t, u);
        WordTail(gas, 8, t3, u);
        VecTail(args, t2, u);
        VecTail(name, PutVec(args, t2), u);
      case Transfer(amount) => WordTail(amount, 16, t, u);
      case Stake(stake, key) =>
        PublicKeyTail(key, t, u);
        WordTail(stake, 16, PutPublicKey(key, t), u);
      case AddKey(key, access) =>
        var t2 := PutPermission(access.permission, t);
        PermissionTail(access.permission, t, u);
        WordTail(access.nonce, 8, t2, u);
        PublicKeyTail(key, PutWord(access.nonce, 8, t2), u);
      case DeleteKey(key) => PublicKeyTail(key, t, u);
      case DeleteAccount(id) => VecTail(id, t, u);
      case Delegate(signed) => DelegateTail(signed, t, u);
      case DeployGlobalContract(code, mode) =>
        ModeTail(mode, t, u);
        VecTail(code, PutMode(mode, t), u);
      case UseGlobalContract(i) => IdentifierTail(i, t, u);
    }
  }

  lemma ModeTail(m: GlobalContractDeployMode, t: bytes, u: bytes)
    ensures PutMode(m, t + u) == PutMode(m, t) + u
  {
    AppendStep(PutMode(m, []), t, u);
  }

  lemma {:induction false} ActionTail(a: Action, t: bytes, u: bytes)
    ensures PutAction(a, t + u) == PutAction(a, t) + u
    decreases a, 1
  {
    hide PutBody, Tag;
    BodyTail(a, t, u);
    assert [Tag(a)] + (PutBody(a, t) + u) == [Tag(a)] + PutBody(a, t) + u;
  }

  lemma {:induction false} NonDelegateTail(x: NonDelegateAction, t: bytes, u: bytes)
    ensures PutNonDelegate(x, t + u) == PutNonDelegate(x, t) + u
    decreases x, 2
  {
    hide PutAction;
    ActionTail(x.action, t, u);
  }

  lemma {:induction false} DelegateTail(g: SignedDelegateAction, t: bytes, u: bytes)
    ensures PutDelegate(g, t + u) == PutDelegate(g, t) + u
    decreases g, 0
  {
    hide PutWord, PutVec, PutInner, PutPublicKey, PutSignature;
    var d := g.delegateAction;
    var e3 := PutSignature(g.signature, t);
    var e2 := PutPublicKey(d.publicKey, e3);
    var e1 := PutWord(d.maxBlockHeight, 8, e2);
    var e0 := PutWord(d.nonce, 8, e1);
    SignatureTail(g.signature, t, u);
    PublicKeyTail(d.publicKey, e3, u);
    WordTail(d.maxBlockHeight, 8, e2, u);
    WordTail(d.nonce, 8, e1, u);
    var t3 := PutInner(d.actions, e0);
    var t2 := PutWord(|d.actions|, 4, t3);
    var t1 := PutVec(d.receiverId, t2);
    InnerTail(d.actions, e0, u);
    WordTail(|d.actions|, 4, t3, u);
    VecTail(d.receiverId, t2, u);
    VecTail(d.senderId, t1, u);
  }

  lemma {:induction false} InnerTail(xs: seq<NonDelegateAction>, t: bytes, u: bytes)
    ensures PutInner(xs, t + u) == PutInner(xs, t) + u
    decreases xs, 0
  {
    hide PutNonDelegate;
    if xs != [] {
      InnerTail(xs[1..], t, u);
      NonDelegateTail(xs[0], PutInner(xs[1..], t), u);
    }
  }

  lemma {:induction false} ActionsTail(xs: seq<Action>, t: bytes, u: bytes)
    ensures PutActions(xs, t + u) == PutActions(xs, t) + u
  {
    hide PutAction;
    if xs != [] {
      ActionsTail(xs[1..], t, u);
      ActionTail(xs[0], PutActions(xs[1..], t), u);
    }
  }

  lemma TransactionTail(tx: NearTransaction, t: bytes, u: bytes)
    ensures PutTransaction(tx, t + u) == PutTransaction(tx, t) + u
  {
    hide PutWord, PutVec, PutActions, PutPublicKey;
    var t5 := PutActions(tx.actions, t);
    var t4 := PutWord(|tx.actions|, 4, t5);
    var t3 := PutVec(tx.receiverId, tx.blockHash + t4);
    var t2 := PutWord(tx.nonce, 8, t3);
    var t1 := PutPublicKey(tx.signerPublicKey, t2);
    ActionsTail(tx.actions, t, u);
    WordTail(|tx.actions|, 4, t5, u);
    assert tx.blockHash + (t4 + u) == tx.blockHash + t4 + u;
    VecTail(tx.receiverId, tx.blockHash + t4, u);
    WordTail(tx.nonce, 8, t3, u);
    PublicKeyTail(tx.signerPublicKey, t2, u);
    VecTail(tx.signerId, t1, u);
  }
}
