/** Keys and signatures: a tag byte and a fixed number of bytes. */
module NearKeys {
  import opened Bytes
  import opened Parsing
  import opened Streams

  datatype PublicKey = ED25519(ed25519: Bytes32) | SECP256K1(secp256k1: Bytes64)

  datatype Signature = ED25519Signature(r: Bytes32, s: Bytes32) | Secp256K1Signature(sig: Bytes65)

  function PutPublicKey(k: PublicKey, t: bytes): bytes {
    match k
    case ED25519(d) => [0] + (d + t)
    case SECP256K1(d) => [1] + (d + t)
  }

  function ReadPublicKey(s: bytes): (p: Parsed<PublicKey>)
    ensures p.Done? ==> |p.rest| < |s|
  {
    var (tag, r) :- ReadBytes(s, 1);
    if tag[0] == 0 then
      var (d, r') :- ReadBytes(r, 32);
      Done(ED25519(d), r')
    else if tag[0] == 1 then
      var (d, r') :- ReadBytes(r, 64);
      Done(SECP256K1(d), r')
    else Failed(InvalidData)
  }

  lemma PublicKeyRoundTrip(k: PublicKey, t: bytes)
    ensures ReadPublicKey(PutPublicKey(k, t)) == Done(k, t)
  {
    match k {
      case ED25519(d) => ReadBytesOf([0], d + t); ReadBytesOf(d, t);
      case SECP256K1(d) => ReadBytesOf([1], d + t); ReadBytesOf(d, t);
    }
  }

  lemma PublicKeyCanonical(s: bytes)
    requires ReadPublicKey(s).Done?
    ensures s == PutPublicKey(ReadPublicKey(s).value, ReadPublicKey(s).rest)
  {
    var tag := ReadBytes(s, 1);
    assert tag.value == [tag.value[0]];
  }

  lemma PublicKeyTail(k: PublicKey, t: bytes, u: bytes)
    ensures PutPublicKey(k, t + u) == PutPublicKey(k, t) + u
  {
  }

  method SerializePublicKey(k: PublicKey, w: ByteVec)
    modifies w
    ensures w.data == old(w.data) + PutPublicKey(k, [])
  {
    match k {
      case ED25519(d) =>
        w.WriteAll([0]);
        w.WriteAll(d);
      case SECP256K1(d) =>
        w.WriteAll([1]);
        w.WriteAll(d);
    }
    assert w.data == old(w.data) + PutPublicKey(k, []);
  }

  /** `deserialize_reader`; `deserialize` is the same over a slice. */
  method DeserializePublicKey(r: Reader) returns (res: Result<PublicKey>)
    requires r.Valid()
    modifies r`pos
    ensures r.Valid() && old(r.pos) <= r.pos
    ensures Agrees(ReadPublicKey(old(r.Rest())), res, r.Rest())
  {
    var tag :- r.ReadExact(1);
    if tag[0] == 0 {
      var d :- r.ReadExact(32);
      res := Success(ED25519(d));
    } else if tag[0] == 1 {
      var d :- r.ReadExact(64);
      res := Success(SECP256K1(d));
    } else {
      res := Failure(InvalidData);
    }
  }

  function PutSignature(g: Signature, t: bytes): bytes {
    match g
    case ED25519Signature(r, s) => [0] + (r + (s + t))
    case Secp256K1Signature(d) => [1] + (d + t)
  }

  function ReadSignature(s: bytes): (p: Parsed<Signature>)
    ensures p.Done? ==> |p.rest| < |s|
  {
    var (tag, r) :- ReadBytes(s, 1);
    if tag[0] == 0 then
      var (a, r') :- ReadBytes(r, 32);
      var (b, r'') :- ReadBytes(r', 32);
      Done(ED25519Signature(a, b), r'')
    else if tag[0] == 1 then
      var (d, r') :- ReadBytes(r, 65);
      Done(Secp256K1Signature(d), r')
    else Failed(InvalidData)
  }

  lemma SignatureRoundTrip(g: Signature, t: bytes)
    ensures ReadSignature(PutSignature(g, t)) == Done(g, t)
  {
    match g {
      case ED25519Signature(r, s) =>
        ReadBytesOf([0], r + (s + t));
        ReadBytesOf(r, s + t);
        ReadBytesOf(s, t);
      case Secp256K1Signature(d) =>
        ReadBytesOf([1], d + t);
        ReadBytesOf(d, t);
    }
  }

  lemma SignatureCanonical(s: bytes)
    requires ReadSignature(s).Done?
    ensures s == PutSignature(ReadSignature(s).value, ReadSignature(s).rest)
  {
    var tag := ReadBytes(s, 1);
    assert tag.value == [tag.value[0]];
    if tag.value[0] == 0 {
      var a := ReadBytes(tag.rest, 32);
      var b := ReadBytes(a.rest, 32);
      assert s == [0] + (a.value + (b.value + b.rest));
    }
  }

  lemma SignatureTail(g: Signature, t: bytes, u: bytes)
    ensures PutSignature(g, t + u) == PutSignature(g, t) + u
  {
    match g {
      case ED25519Signature(r, s) =>
        assert [0] + (r + (s + (t + u))) == [0] + (r + (s + t)) + u;
      case Secp256K1Signature(d) =>
    }
  }
}
