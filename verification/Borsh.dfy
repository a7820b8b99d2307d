/**
 Borsh primitives. `PutX(x, t)` is the serialization of `x` followed by the bytes `t`; `ReadX` reads a
 value off the front.
 */
module Borsh {
  import opened Bytes
  import opened Parsing

  const U32_LIMIT: nat := 0x1_0000_0000

  /** What text the deserializers of foreign types accept: UTF-8, and account names. */
  datatype TextRules = TextRules(utf8: bytes -> bool, account: bytes -> bool)

  function PutWord(v: nat, k: nat, t: bytes): bytes {
    LE(v, k) + t
  }

  function ReadWord(s: bytes, k: nat): (p: Parsed<nat>)
    ensures p.Done? ==> |p.rest| + k == |s|
  {
    ReadLE(s, k)
  }

  function ReadU64(s: bytes): (p: Parsed<u64>)
    ensures p.Done? ==> |p.rest| < |s|
  {
    WordSizes();
    var (n, r) :- ReadWord(s, 8);
    Done(n, r)
  }

  function ReadU128(s: bytes): (p: Parsed<u128>)
    ensures p.Done? ==> |p.rest| < |s|
  {
    WordSizes();
    var (n, r) :- ReadWord(s, 16);
    Done(n, r)
  }

  lemma U64RoundTrip(v: u64, t: bytes)
    ensures ReadU64(PutWord(v, 8, t)) == Done(v, t)
  {
    hide LE, FromLE;
    WordSizes();
    ReadLEOfLE(v, 8, t);
  }

  lemma U128RoundTrip(v: u128, t: bytes)
    ensures ReadU128(PutWord(v, 16, t)) == Done(v, t)
  {
    hide LE, FromLE;
    WordSizes();
    ReadLEOfLE(v, 16, t);
  }

  lemma WordCanonical(s: bytes)
    ensures var p := ReadU64(s); p.Done? ==> s == PutWord(p.value, 8, p.rest)
    ensures var p := ReadU128(s); p.Done? ==> s == PutWord(p.value, 16, p.rest)
  {
  }

  lemma CountRoundTrip(n: nat, t: bytes)
    requires n < U32_LIMIT
    ensures ReadWord(PutWord(n, 4, t), 4) == Done(n, t)
  {
    hide LE, FromLE;
    WordSizes();
    ReadLEOfLE(n, 4, t);
  }

  lemma CountCanonical(s: bytes)
    requires ReadWord(s, 4).Done?
    ensures ReadWord(s, 4).value < U32_LIMIT
    ensures s == PutWord(ReadWord(s, 4).value, 4, ReadWord(s, 4).rest)
  {
    WordSizes();
  }

  lemma WordTail(v: nat, k: nat, t: bytes, u: bytes)
    ensures PutWord(v, k, t + u) == PutWord(v, k, t) + u
  {
  }

  // ---- Byte vectors and text

  function PutVec(d: bytes, t: bytes): bytes {
    PutWord(|d|, 4, d + t)
  }

  function ReadVec(s: bytes): (p: Parsed<bytes>)
    ensures p.Done? ==> |p.rest| < |s|
  {
    var (n, r) :- ReadWord(s, 4);
    ReadBytes(r, n)
  }

  predicate VecOk(d: bytes) {
    |d| < U32_LIMIT
  }

  lemma VecRoundTrip(d: bytes, t: bytes)
    requires VecOk(d)
    ensures ReadVec(PutVec(d, t)) == Done(d, t)
  {
    hide PutWord, ReadWord;
    CountRoundTrip(|d|, d + t);
    ReadBytesOf(d, t);
  }

  lemma VecCanonical(s: bytes)
    requires ReadVec(s).Done?
    ensures VecOk(ReadVec(s).value) && s == PutVec(ReadVec(s).value, ReadVec(s).rest)
  {
    hide PutWord, ReadWord;
    CountCanonical(s);
  }

  lemma VecTail(d: bytes, t: bytes, u: bytes)
    ensures PutVec(d, t + u) == PutVec(d, t) + u
  {
    hide PutWord;
    assert d + (t + u) == (d + t) + u;
    WordTail(|d|, 4, d + t, u);
  }

  function ReadChecked(ok: bytes -> bool, s: bytes): (p: Parsed<bytes>)
    ensures p.Done? ==> |p.rest| < |s|
  {
    var (d, r) :- ReadVec(s);
    if ok(d) then Done(d, r) else Failed(InvalidData)
  }

  predicate TextOk(rules: TextRules, d: bytes) {
    VecOk(d) && rules.utf8(d)
  }

  predicate AccountOk(rules: TextRules, d: bytes) {
    TextOk(rules, d) && rules.account(d)
  }

  function ReadText(rules: TextRules, s: bytes): (p: Parsed<bytes>)
    ensures p.Done? ==> |p.rest| < |s|
  {
    ReadChecked(rules.utf8, s)
  }

  /** An account id is read as text and then validated. */
  function ReadAccount(rules: TextRules, s: bytes): (p: Parsed<bytes>)
    ensures p.Done? ==> |p.rest| < |s|
  {
    var (d, r) :- ReadText(rules, s);
    if rules.account(d) then Done(d, r) else Failed(InvalidData)
  }

  lemma TextRoundTrip(rules: TextRules, d: bytes, t: bytes)
    requires TextOk(rules, d)
    ensures ReadText(rules, PutVec(d, t)) == Done(d, t)
    ensures AccountOk(rules, d) ==> ReadAccount(rules, PutVec(d, t)) == Done(d, t)
  {
    hide PutVec, ReadVec;
    VecRoundTrip(d, t);
  }

  lemma TextCanonical(rules: TextRules, s: bytes)
    ensures var p := ReadText(rules, s); p.Done? ==> TextOk(rules, p.value) && s == PutVec(p.value, p.rest)
    ensures var p := ReadAccount(rules, s); p.Done? ==> AccountOk(rules, p.value) && s == PutVec(p.value, p.rest)
  {
    hide PutVec, ReadVec;
    if ReadVec(s).Done? {
      VecCanonical(s);
    }
  }

  // ---- Lists of text

  function PutTexts(ds: seq<bytes>, t: bytes): bytes {
    if ds == [] then t else PutVec(ds[0], PutTexts(ds[1..], t))
  }

  function ReadTexts(rules: TextRules, n: nat, s: bytes): (p: Parsed<seq<bytes>>)
    ensures p.Done? ==> |p.rest| <= |s| && |p.value| == n
  {
    if n == 0 then Done([], s)
    else
      var (d, r) :- ReadText(rules, s);
      var (ds, r') :- ReadTexts(rules, n - 1, r);
      Done([d] + ds, r')
  }

  predicate TextsOk(rules: TextRules, ds: seq<bytes>) {
    |ds| < U32_LIMIT && forall d :: d in ds ==> TextOk(rules, d)
  }

  lemma {:induction false} TextsRoundTrip(rules: TextRules, ds: seq<bytes>, t: bytes)
    requires TextsOk(rules, ds)
    ensures ReadTexts(rules, |ds|, PutTexts(ds, t)) == Done(ds, t)
  {
    hide PutVec, ReadText, TextOk;
    if ds != [] {
      TextRoundTrip(rules, ds[0], PutTexts(ds[1..], t));
      TextsRoundTrip(rules, ds[1..], t);
      assert [ds[0]] + ds[1..] == ds;
    }
  }

  lemma {:induction false} TextsCanonical(rules: TextRules, n: nat, s: bytes)
    requires n < U32_LIMIT && ReadTexts(rules, n, s).Done?
    ensures var p := ReadTexts(rules, n, s); TextsOk(rules, p.value) && s == PutTexts(p.value, p.rest)
  {
    hide PutVec, ReadText, TextOk;
    if n > 0 {
      TextCanonical(rules, s);
      TextsCanonical(rules, n - 1, ReadText(rules, s).rest);
      var p := ReadTexts(rules, n, s);
      assert p.value[1..] == ReadTexts(rules, n - 1, ReadText(rules, s).rest).value;
    }
  }

  lemma {:induction false} TextsTail(ds: seq<bytes>, t: bytes, u: bytes)
    ensures PutTexts(ds, t + u) == PutTexts(ds, t) + u
  {
    hide PutVec;
    if ds != [] {
      TextsTail(ds[1..], t, u);
      VecTail(ds[0], PutTexts(ds[1..], t), u);
    }
  }
}
