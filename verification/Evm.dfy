/** EIP-1559 transactions: the payload to sign and the signed transaction, written through an RLP stream. */
module Evm {
  import opened Bytes
  import opened Parsing
  import opened Rlp

  const EIP_1559_TYPE: byte := 0x02

  datatype Access = Access(address: Bytes20, storageKeys: seq<Bytes32>)

  datatype EvmTransaction = EvmTransaction(
    chainId: u64, nonce: u64, to: Option<Bytes20>, value: u128, input: bytes, gasLimit: u128,
    maxFeePerGas: u128, maxPriorityFeePerGas: u128, accessList: seq<Access>)

  datatype Signature = Signature(v: u64, r: bytes, s: bytes)

  // ---- The layout

  function ToBytes(to: Option<Bytes20>): bytes {
    match to case None => [] case Some(a) => a
  }

  function KeyItems(keys: seq<Bytes32>): seq<Item> {
    seq(|keys|, i requires 0 <= i < |keys| => Str(keys[i]))
  }

  function AccessItem(a: Access): Item {
    Lst([Str(a.address), Lst(KeyItems(a.storageKeys))])
  }

  function AccessItems(list: seq<Access>): seq<Item> {
    seq(|list|, i requires 0 <= i < |list| => AccessItem(list[i]))
  }

  /** The items of the nine fields. */
  function Fields(tx: EvmTransaction): (xs: seq<Item>)
    ensures |xs| == 9
  {
    [Str(BE(tx.chainId)), Str(BE(tx.nonce)), Str(BE(tx.maxPriorityFeePerGas)), Str(BE(tx.maxFeePerGas)),
     Str(BE(tx.gasLimit)), Str(ToBytes(tx.to)), Str(BE(tx.value)), Str(tx.input), Lst(AccessItems(tx.accessList))]
  }

  function SignatureItems(sig: Signature): (xs: seq<Item>)
    ensures |xs| == 3
  {
    [Str(BE(sig.v)), Str(sig.r), Str(sig.s)]
  }

  function Typed(items: seq<Item>): bytes {
    [EIP_1559_TYPE] + ItemBytes(Lst(items))
  }

  function SigningPayload(tx: EvmTransaction): bytes {
    Typed(Fields(tx))
  }

  function SignedTransaction(tx: EvmTransaction, sig: Signature): bytes {
    Typed(Fields(tx) + SignatureItems(sig))
  }

  // ---- Reading: EIP-1559 from its text, field by field

  function AsUint(x: Item, limit: nat): (r: Result<nat>)
    ensures r.Success? ==> r.value < limit
  {
    if x.Str? && (x.s != [] ==> x.s[0] != 0) && FromBE(x.s) < limit then Success(FromBE(x.s)) else Failure(InvalidData)
  }

  function AsData(x: Item): Result<bytes> {
    if x.Str? then Success(x.s) else Failure(InvalidData)
  }

  /** The empty string stands for a contract creation. */
  function AsDestination(x: Item): Result<Option<Bytes20>> {
    if x.Str? && x.s == [] then Success(None)
    else if x.Str? && |x.s| == 20 then Success(Some(x.s))
    else Failure(InvalidData)
  }

  function AsKeys(xs: seq<Item>): Result<seq<Bytes32>> {
    if xs == [] then Success([])
    else if !xs[0].Str? || |xs[0].s| != 32 then Failure(InvalidData)
    else
      var others :- AsKeys(xs[1..]);
      Success([xs[0].s] + others)
  }

  /** A pair of an address and a list of storage keys. */
  function AsAccess(x: Item): Result<Access> {
    if !x.Lst? || |x.items| != 2 || !x.items[0].Str? || |x.items[0].s| != 20 || !x.items[1].Lst? then
      Failure(InvalidData)
    else
      var keys :- AsKeys(x.items[1].items);
      Success(Access(x.items[0].s, keys))
  }

  function AsAccesses(xs: seq<Item>): Result<seq<Access>> {
    if xs == [] then Success([])
    else
      var first :- AsAccess(xs[0]);
      var others :- AsAccesses(xs[1..]);
      Success([first] + others)
  }

  /** chain_id, nonce, max_priority_fee_per_gas, max_fee_per_gas, gas_limit, destination, amount, data, access_list. */
  function AsTransaction(xs: seq<Item>): Result<EvmTransaction> {
    if |xs| != 9 || !xs[8].Lst? then Failure(InvalidData)
    else
      var chainId :- AsUint(xs[0], 0x1_0000_0000_0000_0000);
      var nonce :- AsUint(xs[1], 0x1_0000_0000_0000_0000);
      var maxPriorityFeePerGas :- AsUint(xs[2], 0x1_0000_0000_0000_0000_0000_0000_0000_0000);
      var maxFeePerGas :- AsUint(xs[3], 0x1_0000_0000_0000_0000_0000_0000_0000_0000);
      var gasLimit :- AsUint(xs[4], 0x1_0000_0000_0000_0000_0000_0000_0000_0000);
      var destination :- AsDestination(xs[5]);
      var amount :- AsUint(xs[6], 0x1_0000_0000_0000_0000_0000_0000_0000_0000);
      var data :- AsData(xs[7]);
      var accessList :- AsAccesses(xs[8].items);
      Success(EvmTransaction(chainId, nonce, destination, amount, data, gasLimit, maxFeePerGas,
                             maxPriorityFeePerGas, accessList))
  }

  /** signature_y_parity, signature_r, signature_s. */
  function AsSignature(xs: seq<Item>): Result<Signature> {
    if |xs| != 3 then Failure(InvalidData)
    else
      var v :- AsUint(xs[0], 0x1_0000_0000_0000_0000);
      var r :- AsData(xs[1]);
      var s :- AsData(xs[2]);
      Success(Signature(v, r, s))
  }

  /** The type byte and one list. */
  function ReadTyped(s: bytes): Parsed<seq<Item>> {
    if s == [] || s[0] != 0x02 then Failed(InvalidData)
    else
      var (x, r) :- ReadItem(s[1..]);
      if x.Lst? then Done(x.items, r) else Failed(InvalidData)
  }

  function ReadPayload(s: bytes): Parsed<EvmTransaction> {
    var (items, rest) :- ReadTyped(s);
    match AsTransaction(items)
    case Success(tx) => Done(tx, rest)
    case Failure(e) => Failed(e)
  }

  datatype Signed = Signed(tx: EvmTransaction, sig: Signature)

  function ReadSigned(s: bytes): Parsed<Signed> {
    var (items, rest) :- ReadTyped(s);
    if |items| != 12 then Failed(InvalidData)
    else
      match (AsTransaction(items[..9]), AsSignature(items[9..]))
      case (Success(tx), Success(sig)) => Done(Signed(tx, sig), rest)
      case _ => Failed(InvalidData)
  }

  lemma ReadTypedOf(items: seq<Item>, t: bytes)
    requires |Typed(items)| <= USIZE_MAX
    ensures ReadTyped(Typed(items) + t) == Done(items, t)
  {
    hide ItemBytes, ReadItem;
    ItemRoundTrip(Lst(items), t);
    assert (Typed(items) + t)[1..] == ItemBytes(Lst(items)) + t;
  }

  lemma ReadTypedCanonical(s: bytes)
    requires ReadTyped(s).Done?
    ensures s == Typed(ReadTyped(s).value) + ReadTyped(s).rest
  {
    hide ItemBytes, ReadItem;
    ItemCanonical(s[1..]);
    assert s == [s[0]] + s[1..];
  }

  lemma UintOf(v: nat, limit: nat)
    requires v < limit
    ensures AsUint(Str(BE(v)), limit) == Success(v)
  {
    hide BE, FromBE;
    FromBEOfBE(v);
  }

  lemma UintCanonical(x: Item, limit: nat)
    requires AsUint(x, limit).Success?
    ensures x == Str(BE(AsUint(x, limit).value))
  {
    hide BE, FromBE;
    BEOfFromBE(x.s);
  }

  lemma {:induction false} KeysOf(keys: seq<Bytes32>)
    ensures AsKeys(KeyItems(keys)) == Success(keys)
  {
    if keys != [] {
      KeysOf(keys[1..]);
      assert KeyItems(keys)[1..] == KeyItems(keys[1..]);
      assert [keys[0]] + keys[1..] == keys;
    }
  }

  lemma {:induction false} KeysCanonical(xs: seq<Item>)
    requires AsKeys(xs).Success?
    ensures xs == KeyItems(AsKeys(xs).value)
  {
    if xs != [] {
      KeysCanonical(xs[1..]);
      assert xs == [xs[0]] + xs[1..];
    }
  }

  lemma {:induction false} AccessesOf(list: seq<Access>)
    ensures AsAccesses(AccessItems(list)) == Success(list)
  {
    hide KeyItems, AsKeys;
    if list != [] {
      KeysOf(list[0].storageKeys);
      AccessesOf(list[1..]);
      assert AccessItems(list)[1..] == AccessItems(list[1..]);
      assert [list[0]] + list[1..] == list;
    }
  }

  lemma {:induction false} AccessesCanonical(xs: seq<Item>)
    requires AsAccesses(xs).Success?
    ensures xs == AccessItems(AsAccesses(xs).value)
  {
    hide AsAccess, AccessItem;
    if xs != [] {
      AccessCanonical(xs[0]);
      AccessesCanonical(xs[1..]);
      assert xs == [xs[0]] + xs[1..];
    }
  }

  lemma AccessCanonical(x: Item)
    requires AsAccess(x).Success?
    ensures x == AccessItem(AsAccess(x).value)
  {
    hide AsKeys, KeyItems;
    KeysCanonical(x.items[1].items);
    assert x.items == [x.items[0], x.items[1]];
  }

  /** Each of the nine positions holds the field EIP-1559 puts there. */
  lemma FieldsRead(tx: EvmTransaction)
    ensures AsTransaction(Fields(tx)) == Success(tx)
  {
    hide BE, AsUint, AccessItems, AsAccesses;
    UintOf(tx.chainId, 0x1_0000_0000_0000_0000);
    UintOf(tx.nonce, 0x1_0000_0000_0000_0000);
    UintOf(tx.maxPriorityFeePerGas, 0x1_0000_0000_0000_0000_0000_0000_0000_0000);
    UintOf(tx.maxFeePerGas, 0x1_0000_0000_0000_0000_0000_0000_0000_0000);
    UintOf(tx.gasLimit, 0x1_0000_0000_0000_0000_0000_0000_0000_0000);
    UintOf(tx.value, 0x1_0000_0000_0000_0000_0000_0000_0000_0000);
    AccessesOf(tx.accessList);
  }

  lemma FieldsCanonical(xs: seq<Item>)
    requires AsTransaction(xs).Success?
    ensures xs == Fields(AsTransaction(xs).value)
  {
    hide BE, AsUint, AccessItems, AsAccesses;
    UintCanonical(xs[0], 0x1_0000_0000_0000_0000);
    UintCanonical(xs[1], 0x1_0000_0000_0000_0000);
    UintCanonical(xs[2], 0x1_0000_0000_0000_0000_0000_0000_0000_0000);
    UintCanonical(xs[3], 0x1_0000_0000_0000_0000_0000_0000_0000_0000);
    UintCanonical(xs[4], 0x1_0000_0000_0000_0000_0000_0000_0000_0000);
    UintCanonical(xs[6], 0x1_0000_0000_0000_0000_0000_0000_0000_0000);
    AccessesCanonical(xs[8].items);
    assert xs == [xs[0], xs[1], xs[2], xs[3], xs[4], xs[5], xs[6], xs[7], xs[8]];
  }

  lemma SignatureRead(sig: Signature)
    ensures AsSignature(SignatureItems(sig)) == Success(sig)
  {
    hide BE, AsUint;
    UintOf(sig.v, 0x1_0000_0000_0000_0000);
  }

  lemma SignatureCanonical(xs: seq<Item>)
    requires AsSignature(xs).Success?
    ensures xs == SignatureItems(AsSignature(xs).value)
  {
    hide BE, AsUint;
    UintCanonical(xs[0], 0x1_0000_0000_0000_0000);
    assert xs == [xs[0], xs[1], xs[2]];
  }

  /** A decoder of EIP-1559 finds every component of the transaction in the payload. */
  lemma PayloadRoundTrip(tx: EvmTransaction, t: bytes)
    requires |SigningPayload(tx)| <= USIZE_MAX
    ensures ReadPayload(SigningPayload(tx) + t) == Done(tx, t)
  {
    hide Fields, AsTransaction, Typed, ReadTyped;
    ReadTypedOf(Fields(tx), t);
    FieldsRead(tx);
  }

  /** And it takes no other bytes for that transaction. */
  lemma PayloadCanonical(s: bytes)
    requires ReadPayload(s).Done?
    ensures s == SigningPayload(ReadPayload(s).value) + ReadPayload(s).rest
  {
    hide Fields, AsTransaction, Typed, ReadTyped;
    ReadTypedCanonical(s);
    FieldsCanonical(ReadTyped(s).value);
  }

  lemma SignedRoundTrip(tx: EvmTransaction, sig: Signature, t: bytes)
    requires |SignedTransaction(tx, sig)| <= USIZE_MAX
    ensures ReadSigned(SignedTransaction(tx, sig) + t) == Done(Signed(tx, sig), t)
  {
    hide Fields, SignatureItems, AsTransaction, AsSignature, Typed, ReadTyped;
    var items := Fields(tx) + SignatureItems(sig);
    ReadTypedOf(items, t);
    assert items[..9] == Fields(tx) && items[9..] == SignatureItems(sig);
    FieldsRead(tx);
    SignatureRead(sig);
  }

  lemma SignedCanonical(s: bytes)
    requires ReadSigned(s).Done?
    ensures var p := ReadSigned(s); s == SignedTransaction(p.value.tx, p.value.sig) + p.rest
  {
    hide Fields, SignatureItems, AsTransaction, AsSignature, Typed, ReadTyped;
    ReadTypedCanonical(s);
    var items := ReadTyped(s).value;
    assert items == items[..9] + items[9..];
    FieldsCanonical(items[..9]);
    SignatureCanonical(items[9..]);
  }

  // ---- Unique decodability

  lemma FieldsInjective(tx: EvmTransaction, tx': EvmTransaction)
    requires Fields(tx) == Fields(tx')
    ensures tx == tx'
  {
    hide Fields, AsTransaction;
    FieldsRead(tx);
    FieldsRead(tx');
  }

  /** Equal payloads are payloads of the same transaction, and none is a prefix of another. */
  lemma SigningUniquelyDecodable(tx: EvmTransaction, s: bytes, tx': EvmTransaction, s': bytes)
    requires |SigningPayload(tx)| <= USIZE_MAX && |SigningPayload(tx')| <= USIZE_MAX
    requires SigningPayload(tx) + s == SigningPayload(tx') + s'
    ensures tx == tx' && s == s'
  {
    hide SigningPayload, ReadPayload;
    PayloadRoundTrip(tx, s);
    PayloadRoundTrip(tx', s');
  }

  datatype Unsigned = Unsigned(payload: bytes, v: nat, r: bytes, s: bytes)

  /** Drops the last three items of a signed transaction and rebuilds the list header. */
  function Unsign(s: bytes): Parsed<Unsigned> {
    var (items, rest) :- ReadTyped(s);
    if |items| == 12 && items[9].Str? && items[10].Str? && items[11].Str?
    then Done(Unsigned(Typed(items[..9]), FromBE(items[9].s), items[10].s, items[11].s), rest)
    else Failed(InvalidData)
  }

  /** The signed transaction holds exactly the payload that was signed and the signature as given. */
  lemma UnsignSigned(tx: EvmTransaction, sig: Signature, t: bytes)
    requires |SignedTransaction(tx, sig)| <= USIZE_MAX
    ensures Unsign(SignedTransaction(tx, sig) + t) == Done(Unsigned(SigningPayload(tx), sig.v, sig.r, sig.s), t)
  {
    hide Fields, ReadTyped, Typed, BE, FromBE;
    var items := Fields(tx) + SignatureItems(sig);
    ReadTypedOf(items, t);
    FromBEOfBE(sig.v);
    assert items[..9] == Fields(tx);
    assert items[9] == SignatureItems(sig)[0];
  }

  // ---- The stream: a buffer and the start positions of the lists still open

  class RlpStream {
    var buffer: bytes
    var open: seq<nat>

    constructor ()
      ensures buffer == [] && open == []
    {
      buffer, open := [], [];
    }

    method Append(s: bytes)
      modifies this
      ensures buffer == old(buffer) + ItemBytes(Str(s)) && open == old(open)
    {
      buffer := buffer + StrBytes(s);
    }

    /** Unsigned integers go as big-endian strings without leading zeros. */
    method AppendUint(v: nat)
      modifies this
      ensures buffer == old(buffer) + ItemBytes(Str(BE(v))) && open == old(open)
    {
      Append(BE(v));
    }

    method BeginUnboundedList()
      modifies this
      ensures buffer == old(buffer) && open == old(open) + [|old(buffer)|]
    {
      open := open + [|buffer|];
    }

    /** Everything written since the list was opened becomes its payload. */
    method FinalizeUnboundedList()
      requires open != [] && open[|open| - 1] <= |buffer|
      modifies this
      ensures var start := old(open)[|old(open)| - 1];
              buffer == old(buffer)[..start] + ListBytes(old(buffer)[start..])
      ensures open == old(open)[..|old(open)| - 1]
    {
      var start := open[|open| - 1];
      var payload := buffer[start..];
      buffer := buffer[..start] + ListBytes(payload);
      open := open[..|open| - 1];
    }
  }

  method EncodeFields(tx: EvmTransaction, stream: RlpStream)
    modifies stream
    ensures stream.buffer == old(stream.buffer) + AllBytes(Fields(tx)) && stream.open == old(stream.open)
  {
    hide BE, ItemBytes, AccessItems, AllBytes;
    ghost var base, fs := stream.buffer, Fields(tx);
    NoItems(base);
    stream.AppendUint(tx.chainId);
    Appended(base, fs, 0);
    stream.AppendUint(tx.nonce);
    Appended(base, fs, 1);
    stream.AppendUint(tx.maxPriorityFeePerGas);
    Appended(base, fs, 2);
    stream.AppendUint(tx.maxFeePerGas);
    Appended(base, fs, 3);
    stream.AppendUint(tx.gasLimit);
    Appended(base, fs, 4);
    stream.Append(ToBytes(tx.to));
    Appended(base, fs, 5);
    stream.AppendUint(tx.value);
    Appended(base, fs, 6);
    stream.Append(tx.input);
    Appended(base, fs, 7);
    EncodeAccessList(tx.accessList, stream);
    Appended(base, fs, 8);
    assert fs[..9] == fs;
  }

  lemma NoItems(base: bytes)
    ensures base + AllBytes([]) == base
  {
  }

  lemma Appended(base: bytes, xs: seq<Item>, i: nat)
    requires i < |xs|
    ensures base + AllBytes(xs[..i]) + ItemBytes(xs[i]) == base + AllBytes(xs[..i + 1])
    ensures i == 0 ==> AllBytes(xs[..i]) == []
  {
    AllSnoc(xs, i);
  }

  method EncodeAccessList(list: seq<Access>, stream: RlpStream)
    modifies stream
    ensures stream.buffer == old(stream.buffer) + ItemBytes(Lst(AccessItems(list))) && stream.open == old(stream.open)
  {
    hide AccessItem, ListBytes, AllBytes;
    ghost var base, open, items := stream.buffer, stream.open, AccessItems(list);
    NoItems(base);
    stream.BeginUnboundedList();
    for i := 0 to |list|
      invariant stream.buffer == base + AllBytes(items[..i])
      invariant stream.open == open + [|base|]
    {
      EncodeAccess(list[i], stream);
      Appended(base, items, i);
    }
    assert items[..|list|] == items;
    stream.FinalizeUnboundedList();
    Closed(base, AllBytes(items));
    assert (open + [|base|])[..|open|] == open;
  }

  lemma Closed(base: bytes, payload: bytes)
    ensures (base + payload)[..|base|] == base && (base + payload)[|base|..] == payload
  {
  }

  method EncodeAccess(a: Access, stream: RlpStream)
    modifies stream
    ensures stream.buffer == old(stream.buffer) + ItemBytes(AccessItem(a)) && stream.open == old(stream.open)
  {
    hide ListBytes, AllBytes, StrBytes, KeyItems;
    ghost var base, open := stream.buffer, stream.open;
    ghost var items := [Str(a.address), Lst(KeyItems(a.storageKeys))];
    NoItems(base);
    stream.BeginUnboundedList();
    stream.Append(a.address);
    Appended(base, items, 0);
    EncodeKeys(a.storageKeys, stream);
    Appended(base, items, 1);
    assert items[..2] == items;
    stream.FinalizeUnboundedList();
    Closed(base, AllBytes(items));
    assert (open + [|base|])[..|open|] == open;
  }

  method EncodeKeys(keys: seq<Bytes32>, stream: RlpStream)
    modifies stream
    ensures stream.buffer == old(stream.buffer) + ItemBytes(Lst(KeyItems(keys))) && stream.open == old(stream.open)
  {
    hide ListBytes, AllBytes, StrBytes;
    ghost var base, open, items := stream.buffer, stream.open, KeyItems(keys);
    NoItems(base);
    stream.BeginUnboundedList();
    for i := 0 to |keys|
      invariant stream.buffer == base + AllBytes(items[..i])
      invariant stream.open == open + [|base|]
    {
      stream.Append(keys[i]);
      Appended(base, items, i);
    }
    assert items[..|keys|] == items;
    stream.FinalizeUnboundedList();
    Closed(base, AllBytes(items));
    assert (open + [|base|])[..|open|] == open;
  }

  method BuildForSigning(tx: EvmTransaction) returns (out: bytes)
    ensures out == SigningPayload(tx)
    ensures |out| <= USIZE_MAX ==> ReadPayload(out) == Done(tx, [])
  {
    hide Fields, ListBytes, AllBytes, ReadPayload;
    var stream := new RlpStream();
    stream.Append([EIP_1559_TYPE]);
    stream.BeginUnboundedList();
    EncodeFields(tx, stream);
    stream.FinalizeUnboundedList();
    Closed([EIP_1559_TYPE], AllBytes(Fields(tx)));
    out := stream.buffer;
    if |out| <= USIZE_MAX {
      PayloadRoundTrip(tx, []);
      assert out + [] == out;
    }
  }

  method EncodeSignature(sig: Signature, stream: RlpStream)
    modifies stream
    ensures stream.buffer == old(stream.buffer) + AllBytes(SignatureItems(sig)) && stream.open == old(stream.open)
  {
    hide BE, ItemBytes, AllBytes;
    ghost var base, items := stream.buffer, SignatureItems(sig);
    NoItems(base);
    stream.AppendUint(sig.v);
    Appended(base, items, 0);
    stream.Append(sig.r);
    Appended(base, items, 1);
    stream.Append(sig.s);
    Appended(base, items, 2);
    assert items[..3] == items;
  }

  method BuildWithSignature(tx: EvmTransaction, sig: Signature) returns (out: bytes)
    ensures out == SignedTransaction(tx, sig)
    ensures |out| <= USIZE_MAX ==> ReadSigned(out) == Done(Signed(tx, sig), [])
  {
    hide Fields, ListBytes, AllBytes, BE, ReadSigned;
    ghost var items := Fields(tx) + SignatureItems(sig);
    AllConcat(Fields(tx), SignatureItems(sig));
    var stream := new RlpStream();
    stream.Append([EIP_1559_TYPE]);
    stream.BeginUnboundedList();
    EncodeFields(tx, stream);
    AppendStep([EIP_1559_TYPE], AllBytes(Fields(tx)), AllBytes(SignatureItems(sig)));
    assert stream.buffer == [EIP_1559_TYPE] + AllBytes(Fields(tx));
    EncodeSignature(sig, stream);
    assert stream.buffer == [EIP_1559_TYPE] + AllBytes(items);
    stream.FinalizeUnboundedList();
    Closed([EIP_1559_TYPE], AllBytes(items));
    out := stream.buffer;
    if |out| <= USIZE_MAX {
      SignedRoundTrip(tx, sig, []);
      assert out + [] == out;
    }
  }
}
