/** ECDSA signatures in DER, and the scriptSig that pushes a signature and a public key. */
module Der {
  import opened Bytes
  import opened Parsing

  /** A length or count written with `as u8`. */
  function AsByte(n: nat): byte {
    n % 0x100
  }

  // ---- What is written

  /** The contents octets: a zero in front when the value would read as negative. */
  function Contents(b: bytes): bytes {
    if b != [] && b[0] >= 0x80 then [0x00] + b else b
  }

  function IntegerBytes(b: bytes): bytes {
    [0x02, AsByte(|Contents(b)|)] + Contents(b)
  }

  function DerBytes(sig: Bytes64): bytes {
    var r, s := IntegerBytes(sig[..32]), IntegerBytes(sig[32..]);
    [0x30, AsByte(|r| + |s|)] + r + s
  }

  function ScriptSigBytes(sig: bytes, key: bytes): bytes {
    ([AsByte(|sig|)] + sig) + ([AsByte(|key|)] + key)
  }

  method EncodeAsn1Integer(b: bytes) returns (result: bytes)
    requires b != []
    ensures result == IntegerBytes(b)
  {
    var integer := b;
    if integer[0] >= 0x80 {
      integer := [0x00] + integer;
    }
    result := [0x02, AsByte(|integer|)];
    result := result + integer;
  }

  method EncodeSignatureAsDer(sig: bytes) returns (der: bytes)
    requires |sig| == 64
    ensures der == DerBytes(sig)
  {
    var r, s := sig[..32], sig[32..];
    var rDer := EncodeAsn1Integer(r);
    var sDer := EncodeAsn1Integer(s);
    der := [0x30, AsByte(|rDer| + |sDer|)];
    der := der + rDer;
    der := der + sDer;
  }

  method SerializeEcdsaSignature(sig: bytes, sighashType: byte) returns (out: bytes)
    requires |sig| == 64
    ensures out == DerBytes(sig) + [sighashType]
  {
    out := EncodeSignatureAsDer(sig);
    out := out + [sighashType];
  }

  method BuildScriptSig(sig: bytes, key: bytes) returns (script: bytes)
    ensures script == ScriptSigBytes(sig, key)
  {
    script := [];
    script := script + [AsByte(|sig|)];
    script := script + sig;
    script := script + [AsByte(|key|)];
    script := script + key;
  }

  // ---- Reading, from X.690

  /** The contents octets as a two's-complement integer (section 8.3.3). */
  function TwosComplement(c: bytes): int {
    if c != [] && c[0] >= 0x80 then FromBE(c) - Pow256(|c|) else FromBE(c)
  }

  /** Section 8.3.2: the first nine bits are neither all zero nor all one. */
  predicate Minimal(c: bytes) {
    |c| >= 2 ==> !(c[0] == 0 && c[1] < 0x80) && !(c[0] == 0xFF && c[1] >= 0x80)
  }

  /** Tag, a short-form length, contents. */
  function ReadTlv(tag: byte, s: bytes): Parsed<bytes> {
    if |s| < 2 || s[0] != tag || s[1] >= 0x80 then Failed(InvalidData) else ReadBytes(s[2..], s[1])
  }

  datatype Pair = Pair(r: bytes, s: bytes)

  /** The contents octets of the two integers of a signature that is the whole of `der`. */
  function ReadDer(der: bytes): Parsed<Pair> {
    var (body, end) :- ReadTlv(0x30, der);
    var (r, rest) :- ReadTlv(0x02, body);
    var (s, none) :- ReadTlv(0x02, rest);
    if end != [] || none != [] || r == [] || s == [] then Failed(InvalidData) else Done(Pair(r, s), [])
  }

  lemma IntegerLayout(b: Bytes32)
    ensures IntegerBytes(b) == if b[0] >= 0x80 then [0x02, 0x21, 0x00] + b else [0x02, 0x20] + b
  {
  }

  /** SEQUENCE and its length, then for each half INTEGER, 33 and a zero or 32, and the half. */
  lemma DerLayout(sig: Bytes64)
    ensures DerBytes(sig) ==
            [0x30, 68 + (if sig[0] >= 0x80 then 1 else 0) + (if sig[32] >= 0x80 then 1 else 0)]
            + (if sig[0] >= 0x80 then [0x02, 0x21, 0x00] else [0x02, 0x20]) + sig[..32]
            + (if sig[32] >= 0x80 then [0x02, 0x21, 0x00] else [0x02, 0x20]) + sig[32..]
  {
    hide IntegerBytes;
    IntegerLayout(sig[..32]);
    IntegerLayout(sig[32..]);
  }

  lemma ReadTlvOf(tag: byte, c: bytes, t: bytes)
    requires |c| < 0x80
    ensures ReadTlv(tag, [tag, AsByte(|c|)] + c + t) == Done(c, t)
  {
    var s := [tag, AsByte(|c|)] + c + t;
    assert s[2..] == c + t;
    ReadBytesOf(c, t);
  }

  lemma {:induction false} LeadingZero(b: bytes)
    ensures FromBE([0] + b) == FromBE(b)
  {
    if b == [] {
      assert [0][..0] == [];
    } else {
      LeadingZero(b[..|b| - 1]);
      assert ([0] + b)[..|b|] == [0] + b[..|b| - 1];
    }
  }

  lemma ContentsValue(b: bytes)
    requires b != []
    ensures TwosComplement(Contents(b)) == FromBE(b)
  {
    LeadingZero(b);
  }

  /** For every signature: no length is truncated, and both integers read back, neither negative. */
  lemma DerRoundTrip(sig: Bytes64)
    ensures 70 <= |DerBytes(sig)| <= 72
    ensures var p := ReadDer(DerBytes(sig));
            && p.Done?
            && TwosComplement(p.value.r) == FromBE(sig[..32])
            && TwosComplement(p.value.s) == FromBE(sig[32..])
  {
    hide TwosComplement, FromBE, ReadTlv;
    var r, s := Contents(sig[..32]), Contents(sig[32..]);
    ContentsValue(sig[..32]);
    ContentsValue(sig[32..]);
    var body := IntegerBytes(sig[..32]) + IntegerBytes(sig[32..]);
    assert DerBytes(sig) == [0x30, AsByte(|body|)] + body + [];
    ReadTlvOf(0x30, body, []);
    assert body == [0x02, AsByte(|r|)] + r + IntegerBytes(sig[32..]);
    ReadTlvOf(0x02, r, IntegerBytes(sig[32..]));
    assert IntegerBytes(sig[32..]) == [0x02, AsByte(|s|)] + s + [];
    ReadTlvOf(0x02, s, []);
  }

  /** The output is valid DER exactly when neither half starts with a zero byte and a clear top bit. */
  lemma DerExactly(sig: Bytes64)
    ensures var p := ReadDer(DerBytes(sig));
            && p.Done?
            && (Minimal(p.value.r) <==> sig[0] != 0 || sig[1] >= 0x80)
            && (Minimal(p.value.s) <==> sig[32] != 0 || sig[33] >= 0x80)
  {
    hide FromBE, TwosComplement, ReadTlv;
    var r, s := Contents(sig[..32]), Contents(sig[32..]);
    var body := IntegerBytes(sig[..32]) + IntegerBytes(sig[32..]);
    assert DerBytes(sig) == [0x30, AsByte(|body|)] + body + [];
    ReadTlvOf(0x30, body, []);
    assert body == [0x02, AsByte(|r|)] + r + IntegerBytes(sig[32..]);
    ReadTlvOf(0x02, r, IntegerBytes(sig[32..]));
    assert IntegerBytes(sig[32..]) == [0x02, AsByte(|s|)] + s + [];
    ReadTlvOf(0x02, s, []);
  }

  /** The input on which the encoding is not valid DER: a half that starts with nine zero bits. */
  lemma ZeroSignatureIsNotDer()
    ensures var p := ReadDer(DerBytes(Zeros(64)));
            p.Done? && !Minimal(p.value.r) && !Minimal(p.value.s)
  {
    hide ReadDer, DerBytes, Minimal;
    DerExactly(Zeros(64));
    assert Zeros(64)[0] == Zeros(64)[1] == Zeros(64)[32] == Zeros(64)[33] == 0;
  }

  // ---- Reading a script of direct pushes

  /** One-byte opcodes 1 to 75 push that many bytes; nothing else is a direct push. */
  function ReadPushes(s: bytes): Parsed<seq<bytes>>
    decreases |s|
  {
    if s == [] then Done([], [])
    else if s[0] == 0 || s[0] > 75 then Failed(InvalidData)
    else
      var (d, r) :- ReadBytes(s[1..], s[0]);
      var (ds, none) :- ReadPushes(r);
      Done([d] + ds, none)
  }

  predicate DirectPush(d: bytes) {
    1 <= |d| <= 75
  }

  /** What is pushed first is as long as its opcode says. */
  lemma FirstPush(s: bytes)
    requires s != [] && ReadPushes(s).Done?
    ensures ReadPushes(s).value != [] && |ReadPushes(s).value[0]| == s[0] && 1 <= s[0] <= 75
  {
  }

  lemma ReadPush(d: bytes, t: bytes)
    requires DirectPush(d)
    ensures ReadPushes([AsByte(|d|)] + d + t) ==
            match ReadPushes(t) case Done(ds, none) => Done([d] + ds, none) case Failed(e) => Failed(e)
  {
    var s := [AsByte(|d|)] + d + t;
    assert s[1..] == d + t;
    ReadBytesOf(d, t);
  }

  lemma NoPush(d: bytes, t: bytes)
    requires !DirectPush(d)
    ensures var p := ReadPushes([AsByte(|d|)] + d + t); p.Done? ==> p.value != [] && p.value[0] != d
  {
    hide ReadPushes;
    var s := [AsByte(|d|)] + d + t;
    if ReadPushes(s).Done? {
      FirstPush(s);
    }
  }

  /** The script reads back as the two pushes exactly when both lengths are those of direct pushes. */
  lemma ScriptSigExactly(sig: bytes, key: bytes)
    ensures ReadPushes(ScriptSigBytes(sig, key)) == Done([sig, key], []) <==> DirectPush(sig) && DirectPush(key)
  {
    hide ReadPushes;
    var tail := [AsByte(|key|)] + key;
    assert ScriptSigBytes(sig, key) == [AsByte(|sig|)] + sig + tail;
    assert tail == [AsByte(|key|)] + key + [];
    if !DirectPush(sig) {
      NoPush(sig, tail);
    } else {
      ReadPush(sig, tail);
      var inner := ReadPushes(tail);
      if DirectPush(key) {
        ReadPush(key, []);
        NoPushes();
        assert [sig] + ([key] + []) == [sig, key];
      } else if inner.Done? {
        NoPush(key, []);
        assert ([sig] + inner.value)[1] == inner.value[0];
      }
    }
  }

  lemma NoPushes()
    ensures ReadPushes([]) == Done([], [])
  {
  }

  /** In particular a signature with its hash type and a compressed or uncompressed key read back. */
  lemma SignatureAndKeyReadBack(sig: Bytes64, sighashType: byte, key: bytes)
    requires |key| == 33 || |key| == 65
    ensures var full := DerBytes(sig) + [sighashType];
            ReadPushes(ScriptSigBytes(full, key)) == Done([full, key], [])
  {
    hide DerBytes, ReadPushes, ScriptSigBytes, ReadDer;
    DerRoundTrip(sig);
    ScriptSigExactly(DerBytes(sig) + [sighashType], key);
  }
}
