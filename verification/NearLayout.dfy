/**
 The bytes of NEAR values as their declarations and the Borsh specification give them: the fields of a
 struct in order, the position of a variant and its fields, a length in front of every list.
 */
module NearLayout {
  import opened Bytes
  import opened Parsing
  import opened Borsh
  import opened NearKeys
  import opened Near
  import opened NearSigning

  /** Bytes and strings: a 32-bit length in front. */
  function Prefixed(d: bytes): bytes {
    LE(|d|, 4) + d
  }

  function DeclaredKey(k: PublicKey): bytes {
    match k case ED25519(d) => [0x00] + d case SECP256K1(d) => [0x01] + d
  }

  function DeclaredSignature(g: Signature): bytes {
    match g case ED25519Signature(r, s) => [0x00] + r + s case Secp256K1Signature(d) => [0x01] + d
  }

  function DeclaredAllowance(v: Option<u128>): bytes {
    match v case None => [0x00] case Some(n) => [0x01] + LE(n, 16)
  }

  function DeclaredPermission(p: AccessKeyPermission): bytes {
    match p
    case FunctionCallPermission(allowance, receiverId, names) =>
      [0x00] + (DeclaredAllowance(allowance) + (Prefixed(receiverId) + (LE(|names|, 4) + Flat(Prefixed, names))))
    case FullAccess => [0x01]
  }

  function DeclaredMode(m: GlobalContractDeployMode): bytes {
    match m case ByCodeHash => [0x00] case ByAccountId => [0x01]
  }

  function DeclaredIdentifier(i: GlobalContractIdentifier): bytes {
    match i case CodeHash(h) => [0x00] + h case AccountId(id) => [0x01] + Prefixed(id)
  }

  function DeclaredAction(a: Action): bytes
    decreases a, 1
  {
    match a
    case CreateAccount => [0x00]
    case DeployContract(code) => [0x01] + Prefixed(code)
    case FunctionCall(name, args, gas, deposit) =>
      [0x02] + (Prefixed(name) + Prefixed(args) + LE(gas, 8) + LE(deposit, 16))
    case Transfer(amount) => [0x03] + LE(amount, 16)
    case Stake(stake, key) => [0x04] + (LE(stake, 16) + DeclaredKey(key))
    case AddKey(key, access) =>
      [0x05] + (DeclaredKey(key) + LE(access.nonce, 8) + DeclaredPermission(access.permission))
    case DeleteKey(key) => [0x06] + DeclaredKey(key)
    case DeleteAccount(id) => [0x07] + Prefixed(id)
    case Delegate(signed) => [0x08] + DeclaredDelegate(signed)
    case DeployGlobalContract(code, mode) => [0x09] + (Prefixed(code) + DeclaredMode(mode))
    case UseGlobalContract(i) => [0x0A] + DeclaredIdentifier(i)
  }

  function DeclaredDelegate(g: SignedDelegateAction): bytes
    decreases g, 0
  {
    var d := g.delegateAction;
    Prefixed(d.senderId) + Prefixed(d.receiverId) + LE(|d.actions|, 4) + DeclaredInner(d.actions)
    + LE(d.nonce, 8) + LE(d.maxBlockHeight, 8) + DeclaredKey(d.publicKey) + DeclaredSignature(g.signature)
  }

  function DeclaredInner(xs: seq<NonDelegateAction>): bytes
    decreases xs, 0
  {
    if xs == [] then [] else DeclaredNonDelegate(xs[0]) + DeclaredInner(xs[1..])
  }

  function DeclaredNonDelegate(x: NonDelegateAction): bytes
    decreases x, 2
  {
    DeclaredAction(x.action)
  }

  function DeclaredTransaction(tx: NearTransaction): bytes {
    Prefixed(tx.signerId) + DeclaredKey(tx.signerPublicKey) + LE(tx.nonce, 8) + Prefixed(tx.receiverId) + tx.blockHash
    + LE(|tx.actions|, 4) + Flat(DeclaredAction, tx.actions)
  }

  // ---- What is written is what is declared

  lemma PrefixedThen(d: bytes, t: bytes)
    ensures PutVec(d, t) == Prefixed(d) + t
  {
    hide LE;
    AppendStep(LE(|d|, 4), d, t);
  }

  lemma KeyThen(k: PublicKey, t: bytes)
    ensures PutPublicKey(k, t) == DeclaredKey(k) + t
  {
  }

  lemma SignatureThen(g: Signature, t: bytes)
    ensures PutSignature(g, t) == DeclaredSignature(g) + t
  {
    match g {
      case ED25519Signature(r, s) => assert [0x00] + (r + (s + t)) == [0x00] + r + s + t;
      case Secp256K1Signature(d) => AppendStep([0x01], d, t);
    }
  }

  lemma {:induction false} TextsThen(ds: seq<bytes>, t: bytes)
    ensures PutTexts(ds, t) == Flat(Prefixed, ds) + t
  {
    hide PutVec, Prefixed, Flat;
    if ds == [] {
      FlatNone(Prefixed);
      assert [] + t == t;
    } else {
      FlatCons(Prefixed, ds);
      TextsThen(ds[1..], t);
      PrefixedThen(ds[0], PutTexts(ds[1..], t));
      AppendStep(Prefixed(ds[0]), Flat(Prefixed, ds[1..]), t);
    }
  }

  lemma AllowanceThen(v: Option<u128>, t: bytes)
    ensures PutOption(v, t) == DeclaredAllowance(v) + t
  {
    hide LE;
    if v.Some? {
      AppendStep([0x01], LE(v.value, 16), t);
    }
  }

  lemma PermissionThen(p: AccessKeyPermission, t: bytes)
    ensures PutPermission(p, t) == DeclaredPermission(p) + t
  {
    hide LE, PutVec, PutTexts, PutOption, Prefixed, DeclaredAllowance, Flat;
    match p {
      case FunctionCallPermission(allowance, receiverId, names) =>
        var s2 := LE(|names|, 4) + Flat(Prefixed, names);
        var s1 := Prefixed(receiverId) + s2;
        TextsThen(names, t);
        AppendStep(LE(|names|, 4), Flat(Prefixed, names), t);
        PrefixedThen(receiverId, s2 + t);
        AppendStep(Prefixed(receiverId), s2, t);
        AllowanceThen(allowance, s1 + t);
        AppendStep(DeclaredAllowance(allowance), s1, t);
        AppendStep([0x00], DeclaredAllowance(allowance) + s1, t);
      case FullAccess =>
    }
  }

  lemma FunctionCallThen(name: bytes, args: bytes, gas: u64, deposit: u128, t: bytes)
    ensures PutBody(FunctionCall(name, args, gas, deposit), t) ==
            Prefixed(name) + Prefixed(args) + LE(gas, 8) + LE(deposit, 16) + t
  {
    hide LE, PutVec, Prefixed;
    var t2 := LE(gas, 8) + (LE(deposit, 16) + t);
    PrefixedThen(args, t2);
    PrefixedThen(name, Prefixed(args) + t2);
  }

  lemma StakeThen(stake: u128, key: PublicKey, t: bytes)
    ensures PutBody(Stake(stake, key), t) == LE(stake, 16) + DeclaredKey(key) + t
  {
    hide LE, PutPublicKey, DeclaredKey;
    KeyThen(key, t);
  }

  lemma AddKeyThen(key: PublicKey, access: AccessKey, t: bytes)
    ensures PutBody(AddKey(key, access), t) ==
            DeclaredKey(key) + LE(access.nonce, 8) + DeclaredPermission(access.permission) + t
  {
    hide LE, PutPublicKey, DeclaredKey, PutPermission, DeclaredPermission;
    PermissionThen(access.permission, t);
    KeyThen(key, LE(access.nonce, 8) + (DeclaredPermission(access.permission) + t));
  }

  lemma DeployGlobalThen(code: bytes, mode: GlobalContractDeployMode, t: bytes)
    ensures PutBody(DeployGlobalContract(code, mode), t) == Prefixed(code) + DeclaredMode(mode) + t
  {
    hide PutVec, Prefixed;
    PrefixedThen(code, PutMode(mode, t));
  }

  lemma UseGlobalThen(i: GlobalContractIdentifier, t: bytes)
    ensures PutBody(UseGlobalContract(i), t) == DeclaredIdentifier(i) + t
  {
    hide PutVec, Prefixed;
    match i {
      case CodeHash(h) => AppendStep([0x00], h, t);
      case AccountId(id) =>
        PrefixedThen(id, t);
        AppendStep([0x01], Prefixed(id), t);
    }
  }

  /** The position of the declared variant, then its fields in order. */
  lemma {:induction false} ActionAsDeclared(a: Action, t: bytes)
    ensures PutAction(a, t) == DeclaredAction(a) + t
    decreases a, 0
  {
    hide LE, PutVec, Prefixed, PutPublicKey, DeclaredKey, PutPermission, DeclaredPermission;
    hide PutDelegate, DeclaredDelegate, PutIdentifier, DeclaredIdentifier, PutMode, DeclaredMode;
    var fields := DeclaredAction(a)[1..];
    match a {
      case CreateAccount =>
      case DeployContract(code) => PrefixedThen(code, t);
      case FunctionCall(name, args, gas, deposit) => FunctionCallThen(name, args, gas, deposit, t);
      case Transfer(amount) =>
      case Stake(stake, key) => StakeThen(stake, key, t);
      case AddKey(key, access) => AddKeyThen(key, access, t);
      case DeleteKey(key) => KeyThen(key, t);
      case DeleteAccount(id) => PrefixedThen(id, t);
      case Delegate(signed) => DelegateAsDeclared(signed, t);
      case DeployGlobalContract(code, mode) => DeployGlobalThen(code, mode, t);
      case UseGlobalContract(i) => UseGlobalThen(i, t);
    }
    assert PutBody(a, t) == fields + t;
    AppendStep(DeclaredAction(a)[..1], fields, t);
  }

  lemma {:induction false} DelegateAsDeclared(g: SignedDelegateAction, t: bytes)
    ensures PutDelegate(g, t) == DeclaredDelegate(g) + t
    decreases g, 0
  {
    hide LE, PutVec, Prefixed, PutPublicKey, DeclaredKey, PutSignature, DeclaredSignature, PutInner, DeclaredInner;
    var d := g.delegateAction;
    var sig := DeclaredSignature(g.signature) + t;
    var end := LE(d.nonce, 8) + (LE(d.maxBlockHeight, 8) + (DeclaredKey(d.publicKey) + sig));
    SignatureThen(g.signature, t);
    KeyThen(d.publicKey, sig);
    InnerAsDeclared(d.actions, end);
    var t1 := LE(|d.actions|, 4) + (DeclaredInner(d.actions) + end);
    PrefixedThen(d.receiverId, t1);
    PrefixedThen(d.senderId, Prefixed(d.receiverId) + t1);
    assert DeclaredDelegate(g) + t == Prefixed(d.senderId) + (Prefixed(d.receiverId) + t1);
  }

  lemma {:induction false} InnerAsDeclared(xs: seq<NonDelegateAction>, t: bytes)
    ensures PutInner(xs, t) == DeclaredInner(xs) + t
    decreases xs, 0
  {
    hide PutNonDelegate, DeclaredNonDelegate;
    if xs == [] {
      assert [] + t == t;
    } else {
      InnerAsDeclared(xs[1..], t);
      NonDelegateAsDeclared(xs[0], PutInner(xs[1..], t));
      AppendStep(DeclaredNonDelegate(xs[0]), DeclaredInner(xs[1..]), t);
    }
  }

  lemma {:induction false} NonDelegateAsDeclared(x: NonDelegateAction, t: bytes)
    ensures PutNonDelegate(x, t) == DeclaredNonDelegate(x) + t
    decreases x, 2
  {
    hide PutAction, DeclaredAction;
    ActionAsDeclared(x.action, t);
  }

  lemma {:induction false} ActionsAsDeclared(xs: seq<Action>, t: bytes)
    ensures PutActions(xs, t) == Flat(DeclaredAction, xs) + t
  {
    hide PutAction, DeclaredAction, Flat;
    if xs == [] {
      FlatNone(DeclaredAction);
      assert [] + t == t;
    } else {
      FlatCons(DeclaredAction, xs);
      ActionsAsDeclared(xs[1..], t);
      ActionAsDeclared(xs[0], PutActions(xs[1..], t));
      AppendStep(DeclaredAction(xs[0]), Flat(DeclaredAction, xs[1..]), t);
    }
  }

  lemma TransactionThen(tx: NearTransaction, t: bytes)
    ensures PutTransaction(tx, t) == DeclaredTransaction(tx) + t
  {
    hide LE, PutVec, Prefixed, PutPublicKey, DeclaredKey, PutActions, Flat;
    var t2 := tx.blockHash + (LE(|tx.actions|, 4) + (Flat(DeclaredAction, tx.actions) + t));
    ActionsAsDeclared(tx.actions, t);
    PrefixedThen(tx.receiverId, t2);
    var t1 := LE(tx.nonce, 8) + (Prefixed(tx.receiverId) + t2);
    KeyThen(tx.signerPublicKey, t1);
    PrefixedThen(tx.signerId, DeclaredKey(tx.signerPublicKey) + t1);
    assert DeclaredTransaction(tx) + t == Prefixed(tx.signerId) + (DeclaredKey(tx.signerPublicKey) + t1);
  }

  /** The bytes to sign are the declared fields, and the signed transaction is those and the signature. */
  lemma TransactionAsDeclared(tx: NearTransaction, g: Signature)
    ensures BuildForSigning(tx) == DeclaredTransaction(tx)
    ensures BuildWithSignature(tx, g) == DeclaredTransaction(tx) + DeclaredSignature(g)
  {
    hide PutTransaction, DeclaredTransaction, PutSignature, DeclaredSignature;
    TransactionThen(tx, []);
    assert DeclaredTransaction(tx) + [] == DeclaredTransaction(tx);
    TransactionThen(tx, PutSignature(g, []));
    SignatureThen(g, []);
    assert DeclaredSignature(g) + [] == DeclaredSignature(g);
  }
}
