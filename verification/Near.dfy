/** NEAR transactions and their actions, a tree: a delegate action carries further actions. */
module Near {
  import opened Bytes
  import opened Parsing
  import opened Borsh
  import opened NearKeys

  datatype AccessKeyPermission =
    | FunctionCallPermission(allowance: Option<u128>, receiverId: bytes, methodNames: seq<bytes>)
    | FullAccess

  datatype AccessKey = AccessKey(nonce: u64, permission: AccessKeyPermission)

  datatype GlobalContractDeployMode = ByCodeHash | ByAccountId

  datatype GlobalContractIdentifier = CodeHash(hash: Bytes32) | AccountId(id: bytes)

  datatype Action =
    | CreateAccount
    | DeployContract(code: bytes)
    | FunctionCall(methodName: bytes, args: bytes, gas: u64, deposit: u128)
    | Transfer(amount: u128)
    | Stake(stake: u128, stakeKey: PublicKey)
    | AddKey(newKey: PublicKey, accessKey: AccessKey)
    | DeleteKey(oldKey: PublicKey)
    | DeleteAccount(beneficiaryId: bytes)
    | Delegate(signed: SignedDelegateAction)
    | DeployGlobalContract(globalCode: bytes, deployMode: GlobalContractDeployMode)
    | UseGlobalContract(contractIdentifier: GlobalContractIdentifier)

  datatype NonDelegateAction = NonDelegateAction(action: Action)

  datatype DelegateAction = DelegateAction(
    senderId: bytes, receiverId: bytes, actions: seq<NonDelegateAction>, nonce: u64, maxBlockHeight: u64, publicKey: PublicKey)

  datatype SignedDelegateAction = SignedDelegateAction(delegateAction: DelegateAction, signature: Signature)

  datatype NearTransaction = NearTransaction(
    signerId: bytes, signerPublicKey: PublicKey, nonce: u64, receiverId: bytes, blockHash: Bytes32, actions: seq<Action>)

  // ---- What is written

  function PutOption(v: Option<u128>, t: bytes): bytes {
    match v case None => [0] + t case Some(n) => [1] + PutWord(n, 16, t)
  }

  function PutPermission(p: AccessKeyPermission, t: bytes): bytes {
    match p
    case FunctionCallPermission(allowance, receiverId, names) =>
      [0] + PutOption(allowance, PutVec(receiverId, PutWord(|names|, 4, PutTexts(names, t))))
    case FullAccess => [1] + t
  }

  function PutIdentifier(i: GlobalContractIdentifier, t: bytes): bytes {
    match i case CodeHash(h) => [0] + (h + t) case AccountId(id) => [1] + PutVec(id, t)
  }

  function PutMode(m: GlobalContractDeployMode, t: bytes): bytes {
    match m case ByCodeHash => [0] + t case ByAccountId => [1] + t
  }

  function Tag(a: Action): byte {
    match a
    case CreateAccount => 0
    case DeployContract(_) => 1
    case FunctionCall(_, _, _, _) => 2
    case Transfer(_) => 3
    case Stake(_, _) => 4
    case AddKey(_, _) => 5
    case DeleteKey(_) => 6
    case DeleteAccount(_) => 7
    case Delegate(_) => 8
    case DeployGlobalContract(_, _) => 9
    case UseGlobalContract(_) => 10
  }

  function PutAction(a: Action, t: bytes): bytes
    decreases a, 1
  {
    [Tag(a)] + PutBody(a, t)
  }

  function PutBody(a: Action, t: bytes): bytes
    decreases a, 0
  {
    match a
    case CreateAccount => t
    case DeployContract(code) => PutVec(code, t)
    case FunctionCall(name, args, gas, deposit) => PutVec(name, PutVec(args, PutWord(gas, 8, PutWord(deposit, 16, t))))
    case Transfer(amount) => PutWord(amount, 16, t)
    case Stake(stake, key) => PutWord(stake, 16, PutPublicKey(key, t))
    case AddKey(key, access) => PutPublicKey(key, PutWord(access.nonce, 8, PutPermission(access.permission, t)))
    case DeleteKey(key) => PutPublicKey(key, t)
    case DeleteAccount(id) => PutVec(id, t)
    case Delegate(signed) => PutDelegate(signed, t)
    case DeployGlobalContract(code, mode) => PutVec(code, PutMode(mode, t))
    case UseGlobalContract(i) => PutIdentifier(i, t)
  }

  function PutDelegate(signed: SignedDelegateAction, t: bytes): bytes
    decreases signed, 0
  {
    var d := signed.delegateAction;
    PutVec(d.senderId, PutVec(d.receiverId, PutWord(|d.actions|, 4, PutInner(d.actions, PutDelegateEnd(signed, t)))))
  }

  /** What follows the inner actions. */
  function PutDelegateEnd(signed: SignedDelegateAction, t: bytes): bytes {
    var d := signed.delegateAction;
    PutWord(d.nonce, 8, PutWord(d.maxBlockHeight, 8, PutPublicKey(d.publicKey, PutSignature(signed.signature, t))))
  }

  function PutInner(xs: seq<NonDelegateAction>, t: bytes): bytes
    decreases xs, 0
  {
    if xs == [] then t else PutNonDelegate(xs[0], PutInner(xs[1..], t))
  }

  function PutNonDelegate(x: NonDelegateAction, t: bytes): bytes
    decreases x, 2
  {
    PutAction(x.action, t)
  }

  function PutActions(xs: seq<Action>, t: bytes): bytes {
    if xs == [] then t else PutAction(xs[0], PutActions(xs[1..], t))
  }

  function PutTransaction(tx: NearTransaction, t: bytes): bytes {
    PutVec(tx.signerId, PutPublicKey(tx.signerPublicKey, PutWord(tx.nonce, 8,
      PutVec(tx.receiverId, tx.blockHash + PutWord(|tx.actions|, 4, PutActions(tx.actions, t))))))
  }

  // ---- What can be written: lengths fit 32 bits and text is what its type allows

  predicate PermissionOk(rules: TextRules, p: AccessKeyPermission) {
    p.FunctionCallPermission? ==> TextOk(rules, p.receiverId) && TextsOk(rules, p.methodNames)
  }

  predicate IdentifierOk(rules: TextRules, i: GlobalContractIdentifier) {
    i.AccountId? ==> AccountOk(rules, i.id)
  }

  predicate ActionOk(rules: TextRules, a: Action)
    decreases a, 0
  {
    match a
    case DeployContract(code) => VecOk(code)
    case FunctionCall(name, args, _, _) => TextOk(rules, name) && VecOk(args)
    case AddKey(_, access) => PermissionOk(rules, access.permission)
    case DeleteAccount(id) => AccountOk(rules, id)
    case Delegate(signed) => DelegateOk(rules, signed)
    case DeployGlobalContract(code, _) => VecOk(code)
    case UseGlobalContract(i) => IdentifierOk(rules, i)
    case _ => true
  }

  predicate DelegateOk(rules: TextRules, signed: SignedDelegateAction)
    decreases signed, 0
  {
    var d := signed.delegateAction;
    && AccountOk(rules, d.senderId) && AccountOk(rules, d.receiverId)
    && |d.actions| < U32_LIMIT && InnerOk(rules, d.actions)
  }

  predicate InnerOk(rules: TextRules, xs: seq<NonDelegateAction>)
    decreases xs, 0
  {
    xs != [] ==> NonDelegateOk(rules, xs[0]) && InnerOk(rules, xs[1..])
  }

  predicate NonDelegateOk(rules: TextRules, x: NonDelegateAction)
    decreases x, 2
  {
    ActionOk(rules, x.action)
  }

  predicate TransactionOk(rules: TextRules, tx: NearTransaction) {
    && AccountOk(rules, tx.signerId) && AccountOk(rules, tx.receiverId)
    && |tx.actions| < U32_LIMIT && forall a :: a in tx.actions ==> ActionOk(rules, a)
  }

  // ---- What is read

  function ReadOption(s: bytes): (p: Parsed<Option<u128>>)
    ensures p.Done? ==> |p.rest| < |s|
  {
    if s == [] || s[0] > 1 then Failed(InvalidData)
    else if s[0] == 0 then Done(None, s[1..])
    else
      var (n, r) :- ReadU128(s[1..]);
      Done(Some(n), r)
  }

  function ReadPermission(rules: TextRules, s: bytes): (p: Parsed<AccessKeyPermission>)
    ensures p.Done? ==> |p.rest| < |s|
  {
    if s == [] || s[0] > 1 then Failed(InvalidData)
    else if s[0] == 1 then Done(FullAccess, s[1..])
    else
      var (allowance, r1) :- ReadOption(s[1..]);
      var (receiverId, r2) :- ReadText(rules, r1);
      var (n, r3) :- ReadWord(r2, 4);
      var (names, r4) :- ReadTexts(rules, n, r3);
      Done(FunctionCallPermission(allowance, receiverId, names), r4)
  }

  function ReadIdentifier(rules: TextRules, s: bytes): (p: Parsed<GlobalContractIdentifier>)
    ensures p.Done? ==> |p.rest| < |s|
  {
    if s == [] || s[0] > 1 then Failed(InvalidData)
    else if s[0] == 0 then
      var (h, r) :- ReadBytes(s[1..], 32);
      Done(CodeHash(h), r)
    else
      var (id, r) :- ReadAccount(rules, s[1..]);
      Done(AccountId(id), r)
  }

  function ReadMode(s: bytes): (p: Parsed<GlobalContractDeployMode>)
    ensures p.Done? ==> |p.rest| < |s|
  {
    if s == [] || s[0] > 1 then Failed(InvalidData)
    else Done(if s[0] == 0 then ByCodeHash else ByAccountId, s[1..])
  }

  function ReadAction(rules: TextRules, s: bytes): (p: Parsed<Action>)
    ensures p.Done? ==> |p.rest| < |s|
    decreases |s|, 0
  {
    if s == [] then Failed(InvalidData)
    else if s[0] == 8 then
      var (signed, r) :- ReadDelegate(rules, s[1..]);
      Done(Delegate(signed), r)
    else ReadPlainBody(rules, s[0], s[1..])
  }

  /** The body of an action that is not a delegate action. */
  function ReadPlainBody(rules: TextRules, tag: byte, s: bytes): (p: Parsed<Action>)
    ensures p.Done? ==> |p.rest| <= |s|
  {
    if tag == 0 then Done(CreateAccount, s)
    else if tag == 1 then
      var (code, r) :- ReadVec(s);
      Done(DeployContract(code), r)
    else if tag == 2 then
      var (name, r1) :- ReadText(rules, s);
      var (args, r2) :- ReadVec(r1);
      var (gas, r3) :- ReadU64(r2);
      var (deposit, r4) :- ReadU128(r3);
      Done(FunctionCall(name, args, gas, deposit), r4)
    else if tag == 3 then
      var (amount, r) :- ReadU128(s);
      Done(Transfer(amount), r)
    else if tag == 4 then
      var (stake, r1) :- ReadU128(s);
      var (key, r2) :- ReadPublicKey(r1);
      Done(Stake(stake, key), r2)
    else if tag == 5 then
      var (key, r1) :- ReadPublicKey(s);
      var (nonce, r2) :- ReadU64(r1);
      var (permission, r3) :- ReadPermission(rules, r2);
      Done(AddKey(key, AccessKey(nonce, permission)), r3)
    else if tag == 6 then
      var (key, r) :- ReadPublicKey(s);
      Done(DeleteKey(key), r)
    else if tag == 7 then
      var (id, r) :- ReadAccount(rules, s);
      Done(DeleteAccount(id), r)
    else if tag == 9 then
      var (code, r1) :- ReadVec(s);
      var (mode, r2) :- ReadMode(r1);
      Done(DeployGlobalContract(code, mode), r2)
    else if tag == 10 then
      var (i, r) :- ReadIdentifier(rules, s);
      Done(UseGlobalContract(i), r)
    else Failed(InvalidData)
  }

  datatype DelegateHead = DelegateHead(senderId: bytes, receiverId: bytes, count: nat)

  function ReadDelegateHead(rules: TextRules, s: bytes): (p: Parsed<DelegateHead>)
    ensures p.Done? ==> |p.rest| < |s|
  {
    var (senderId, r1) :- ReadAccount(rules, s);
    var (receiverId, r2) :- ReadAccount(rules, r1);
    var (n, r3) :- ReadWord(r2, 4);
    Done(DelegateHead(senderId, receiverId, n), r3)
  }

  function ReadDelegateEnd(h: DelegateHead, xs: seq<NonDelegateAction>, s: bytes): (p: Parsed<SignedDelegateAction>)
    ensures p.Done? ==> |p.rest| < |s|
  {
    var (nonce, r1) :- ReadU64(s);
    var (maxBlockHeight, r2) :- ReadU64(r1);
    var (key, r3) :- ReadPublicKey(r2);
    var (signature, r4) :- ReadSignature(r3);
    Done(SignedDelegateAction(DelegateAction(h.senderId, h.receiverId, xs, nonce, maxBlockHeight, key), signature), r4)
  }

  function ReadDelegate(rules: TextRules, s: bytes): (p: Parsed<SignedDelegateAction>)
    ensures p.Done? ==> |p.rest| < |s|
    decreases |s|, 0
  {
    var (h, r1) :- ReadDelegateHead(rules, s);
    var (xs, r2) :- ReadInner(rules, h.count, r1);
    ReadDelegateEnd(h, xs, r2)
  }

  /** The derived reader of a `NonDelegateAction` reads any action. */
  function ReadInner(rules: TextRules, n: nat, s: bytes): (p: Parsed<seq<NonDelegateAction>>)
    ensures p.Done? ==> |p.rest| <= |s| && |p.value| == n
    decreases |s|, n
  {
    if n == 0 then Done([], s)
    else
      var (a, r) :- ReadAction(rules, s);
      var (xs, r') :- ReadInner(rules, n - 1, r);
      Done([NonDelegateAction(a)] + xs, r')
  }

  function ReadActions(rules: TextRules, n: nat, s: bytes): (p: Parsed<seq<Action>>)
    ensures p.Done? ==> |p.value| == n
  {
    if n == 0 then Done([], s)
    else
      var (a, r) :- ReadAction(rules, s);
      var (xs, r') :- ReadActions(rules, n - 1, r);
      Done([a] + xs, r')
  }

  function ReadTransaction(rules: TextRules, s: bytes): Parsed<NearTransaction> {
    var (signerId, r1) :- ReadAccount(rules, s);
    var (key, r2) :- ReadPublicKey(r1);
    var (nonce, r3) :- ReadU64(r2);
    var (receiverId, r4) :- ReadAccount(rules, r3);
    var (hash, r5) :- ReadBytes(r4, 32);
    var (n, r6) :- ReadWord(r5, 4);
    var (actions, r7) :- ReadActions(rules, n, r6);
    Done(NearTransaction(signerId, key, nonce, receiverId, hash, actions), r7)
  }

  // ---- Reading back what was written

  lemma OptionRoundTrip(v: Option<u128>, t: bytes)
    ensures ReadOption(PutOption(v, t)) == Done(v, t)
  {
    hide PutWord, ReadU128;
    if v.Some? {
      U128RoundTrip(v.value, t);
      assert PutOption(v, t)[1..] == PutWord(v.value, 16, t);
    } else {
      assert PutOption(v, t)[1..] == t;
    }
  }

  lemma PermissionRoundTrip(rules: TextRules, p: AccessKeyPermission, t: bytes)
    requires PermissionOk(rules, p)
    ensures ReadPermission(rules, PutPermission(p, t)) == Done(p, t)
  {
    hide PutWord, ReadWord, PutVec, ReadText, PutTexts, ReadTexts, PutOption, ReadOption, TextOk;
    match p {
      case FunctionCallPermission(allowance, receiverId, names) =>
        var t3 := PutTexts(names, t);
        var t2 := PutWord(|names|, 4, t3);
        var t1 := PutVec(receiverId, t2);
        assert PutPermission(p, t)[1..] == PutOption(allowance, t1);
        OptionRoundTrip(allowance, t1);
        TextRoundTrip(rules, receiverId, t2);
        CountRoundTrip(|names|, t3);
        TextsRoundTrip(rules, names, t);
      case FullAccess =>
        assert PutPermission(p, t)[1..] == t;
    }
  }

  lemma IdentifierRoundTrip(rules: TextRules, i: GlobalContractIdentifier, t: bytes)
    requires IdentifierOk(rules, i)
    ensures ReadIdentifier(rules, PutIdentifier(i, t)) == Done(i, t)
  {
    hide PutVec, ReadAccount;
    match i {
      case CodeHash(h) =>
        assert PutIdentifier(i, t)[1..] == h + t;
        ReadBytesOf(h, t);
      case AccountId(id) =>
        assert PutIdentifier(i, t)[1..] == PutVec(id, t);
        TextRoundTrip(rules, id, t);
    }
  }

  lemma ModeRoundTrip(m: GlobalContractDeployMode, t: bytes)
    ensures ReadMode(PutMode(m, t)) == Done(m, t)
  {
    assert PutMode(m, t)[1..] == t;
  }

  lemma PlainRoundTrip(rules: TextRules, a: Action, t: bytes)
    requires ActionOk(rules, a) && !a.Delegate?
    ensures ReadPlainBody(rules, Tag(a), PutBody(a, t)) == Done(a, t)
  {
    hide PutWord, ReadU64, ReadU128, PutVec, ReadVec, ReadText, ReadAccount, PutPublicKey, ReadPublicKey;
    hide PutPermission, ReadPermission, PutIdentifier, ReadIdentifier, PutMode, ReadMode;
    match a {
      case CreateAccount =>
      case DeployContract(code) => VecRoundTrip(code, t);
      case FunctionCall(name, args, gas, deposit) =>
        var t3 := PutWord(deposit, 16, t);
        var t2 := PutWord(gas, 8, t3);
        TextRoundTrip(rules, name, PutVec(args, t2));
        VecRoundTrip(args, t2);
        U64RoundTrip(gas, t3);
        U128RoundTrip(deposit, t);
      case Transfer(amount) => U128RoundTrip(amount, t);
      case Stake(stake, key) =>
        U128RoundTrip(stake, PutPublicKey(key, t));
        PublicKeyRoundTrip(key, t);
      case AddKey(key, access) =>
        var t2 := PutPermission(access.permission, t);
        PublicKeyRoundTrip(key, PutWord(access.nonce, 8, t2));
        U64RoundTrip(access.nonce, t2);
        PermissionRoundTrip(rules, access.permission, t);
      case DeleteKey(key) => PublicKeyRoundTrip(key, t);
      case DeleteAccount(id) => TextRoundTrip(rules, id, t);
      case DeployGlobalContract(code, mode) =>
        VecRoundTrip(code, PutMode(mode, t));
        ModeRoundTrip(mode, t);
      case UseGlobalContract(i) => IdentifierRoundTrip(rules, i, t);
    }
  }

  lemma {:induction false} ActionRoundTrip(rules: TextRules, a: Action, t: bytes)
    requires ActionOk(rules, a)
    ensures ReadAction(rules, PutAction(a, t)) == Done(a, t)
    decreases a, 0
  {
    hide PutDelegate, ReadDelegate, ReadPlainBody, DelegateOk;
    assert PutAction(a, t)[1..] == PutBody(a, t);
    if a.Delegate? {
      DelegateRoundTrip(rules, a.signed, t);
    } else {
      PlainRoundTrip(rules, a, t);
    }
  }

  lemma {:induction false} DelegateRoundTrip(rules: TextRules, g: SignedDelegateAction, t: bytes)
    requires DelegateOk(rules, g)
    ensures ReadDelegate(rules, PutDelegate(g, t)) == Done(g, t)
    decreases g, 0
  {
    hide PutWord, ReadWord, PutVec, ReadAccount, PutInner, ReadInner, PutDelegateEnd, ReadDelegateEnd, InnerOk, AccountOk;
    var d := g.delegateAction;
    var t3 := PutDelegateEnd(g, t);
    var t2 := PutInner(d.actions, t3);
    var t1 := PutWord(|d.actions|, 4, t2);
    assert TextOk(rules, d.senderId) && TextOk(rules, d.receiverId) by {
      AccountIsText(rules, d.senderId);
      AccountIsText(rules, d.receiverId);
    }
    TextRoundTrip(rules, d.senderId, PutVec(d.receiverId, t1));
    TextRoundTrip(rules, d.receiverId, t1);
    CountRoundTrip(|d.actions|, t2);
    InnerRoundTrip(rules, d.actions, t3);
    DelegateEndRoundTrip(g, t);
  }

  lemma AccountIsText(rules: TextRules, d: bytes)
    requires AccountOk(rules, d)
    ensures TextOk(rules, d)
  {
  }

  lemma DelegateEndRoundTrip(g: SignedDelegateAction, t: bytes)
    ensures var d := g.delegateAction;
            ReadDelegateEnd(DelegateHead(d.senderId, d.receiverId, |d.actions|), d.actions, PutDelegateEnd(g, t)) == Done(g, t)
  {
    hide PutWord, ReadU64, PutPublicKey, ReadPublicKey, PutSignature, ReadSignature;
    var d := g.delegateAction;
    var t3 := PutSignature(g.signature, t);
    var t2 := PutPublicKey(d.publicKey, t3);
    U64RoundTrip(d.nonce, PutWord(d.maxBlockHeight, 8, t2));
    U64RoundTrip(d.maxBlockHeight, t2);
    PublicKeyRoundTrip(d.publicKey, t3);
    SignatureRoundTrip(g.signature, t);
  }

  lemma {:induction false} InnerRoundTrip(rules: TextRules, xs: seq<NonDelegateAction>, t: bytes)
    requires InnerOk(rules, xs)
    ensures ReadInner(rules, |xs|, PutInner(xs, t)) == Done(xs, t)
    decreases xs, 0
  {
    hide PutNonDelegate, ReadAction, NonDelegateOk;
    if xs != [] {
      NonDelegateRoundTrip(rules, xs[0], PutInner(xs[1..], t));
      InnerRoundTrip(rules, xs[1..], t);
      assert [xs[0]] + xs[1..] == xs;
    }
  }

  lemma {:induction false} NonDelegateRoundTrip(rules: TextRules, x: NonDelegateAction, t: bytes)
    requires NonDelegateOk(rules, x)
    ensures ReadAction(rules, PutNonDelegate(x, t)) == Done(x.action, t)
    decreases x, 2
  {
    hide PutAction, ReadAction, ActionOk;
    ActionRoundTrip(rules, x.action, t);
  }

  lemma {:induction false} ActionsRoundTrip(rules: TextRules, xs: seq<Action>, t: bytes)
    requires forall a :: a in xs ==> ActionOk(rules, a)
    ensures ReadActions(rules, |xs|, PutActions(xs, t)) == Done(xs, t)
  {
    hide PutAction, ReadAction, ActionOk;
    if xs != [] {
      ActionRoundTrip(rules, xs[0], PutActions(xs[1..], t));
      ActionsRoundTrip(rules, xs[1..], t);
      assert [xs[0]] + xs[1..] == xs;
    }
  }

  /** Deserializing a serialized transaction, whatever follows it, gives it back with what follows. */
  lemma TransactionRoundTrip(rules: TextRules, tx: NearTransaction, t: bytes)
    requires TransactionOk(rules, tx)
    ensures ReadTransaction(rules, PutTransaction(tx, t)) == Done(tx, t)
  {
    hide PutWord, ReadWord, ReadU64, PutVec, ReadAccount, PutPublicKey, ReadPublicKey, PutActions, ReadActions, ActionOk;
    var t5 := PutActions(tx.actions, t);
    var t4 := PutWord(|tx.actions|, 4, t5);
    var t3 := PutVec(tx.receiverId, tx.blockHash + t4);
    var t2 := PutWord(tx.nonce, 8, t3);
    TextRoundTrip(rules, tx.signerId, PutPublicKey(tx.signerPublicKey, t2));
    PublicKeyRoundTrip(tx.signerPublicKey, t2);
    U64RoundTrip(tx.nonce, t3);
    TextRoundTrip(rules, tx.receiverId, tx.blockHash + t4);
    ReadBytesOf(tx.blockHash, t4);
    CountRoundTrip(|tx.actions|, t5);
    ActionsRoundTrip(rules, tx.actions, t);
  }
}
