/** Recursive length prefix encoding, from Appendix B of the Ethereum Yellow Paper. */
module Rlp {
  import opened Bytes
  import opened Parsing

  datatype Item = Str(s: bytes) | Lst(items: seq<Item>)

  function Header(base: nat, n: nat): (s: bytes)
    ensures s != []
  {
    if n < 56 then [(base + n) % 0x100] else [(base + 55 + |BE(n)|) % 0x100] + BE(n)
  }

  function StrBytes(s: bytes): (e: bytes)
    ensures e != []
  {
    if |s| == 1 && s[0] < 0x80 then s else Header(0x80, |s|) + s
  }

  function ListBytes(payload: bytes): (e: bytes)
    ensures e != []
  {
    Header(0xC0, |payload|) + payload
  }

  function ItemBytes(x: Item): (e: bytes)
    ensures e != []
  {
    match x
    case Str(s) => StrBytes(s)
    case Lst(items) => ListBytes(AllBytes(items))
  }

  function AllBytes(xs: seq<Item>): bytes {
    if xs == [] then [] else AllBytes(xs[..|xs| - 1]) + ItemBytes(xs[|xs| - 1])
  }

  lemma {:induction false} AllConcat(xs: seq<Item>, ys: seq<Item>)
    ensures AllBytes(xs + ys) == AllBytes(xs) + AllBytes(ys)
  {
    hide ItemBytes;
    if ys == [] {
      assert xs + ys == xs;
    } else {
      var n := |ys| - 1;
      AllConcat(xs, ys[..n]);
      assert (xs + ys)[..|xs + ys| - 1] == xs + ys[..n];
      AppendStep(AllBytes(xs), AllBytes(ys[..n]), ItemBytes(ys[n]));
    }
  }

  lemma AllSnoc(xs: seq<Item>, i: nat)
    requires i < |xs|
    ensures AllBytes(xs[..i + 1]) == AllBytes(xs[..i]) + ItemBytes(xs[i])
  {
    assert xs[..i + 1][..i] == xs[..i];
  }

  lemma {:induction false} AllCons(xs: seq<Item>)
    requires xs != []
    ensures AllBytes(xs) == ItemBytes(xs[0]) + AllBytes(xs[1..])
  {
    hide *;
    AllConcat([xs[0]], xs[1..]);
    AllOne(xs[0]);
    assert [xs[0]] + xs[1..] == xs;
  }

  lemma AllOne(x: Item)
    ensures AllBytes([x]) == ItemBytes(x)
  {
    hide ItemBytes;
    assert [x][..0] == [];
  }

  // ---- Reading: the decoder of Appendix B, which takes nothing but the shortest form

  datatype Head = OneByte(b: byte) | StrOf(n: nat) | LstOf(n: nat)

  /** A length in `k` bytes, which is one that needs the long form and has no leading zero. */
  function ReadLong(s: bytes, k: nat): (p: Parsed<nat>)
    ensures p.Done? ==> |p.rest| <= |s|
  {
    var (l, r) :- ReadBytes(s, k);
    if l == [] || l[0] == 0 || FromBE(l) < 56 then Failed(InvalidData) else Done(FromBE(l), r)
  }

  function ReadHead(s: bytes): (p: Parsed<Head>)
    ensures p.Done? ==> |p.rest| < |s|
  {
    if s == [] then Failed(UnexpectedEof)
    else
      var b, r := s[0], s[1..];
      if b < 0x80 then Done(OneByte(b), r)
      else if b < 0xB8 then Done(StrOf(b - 0x80), r)
      else if b < 0xC0 then
        var (n, r') :- ReadLong(r, b - 0xB7);
        Done(StrOf(n), r')
      else if b < 0xF8 then Done(LstOf(b - 0xC0), r)
      else
        var (n, r') :- ReadLong(r, b - 0xF7);
        Done(LstOf(n), r')
  }

  function ReadItem(s: bytes): (p: Parsed<Item>)
    ensures p.Done? ==> |p.rest| < |s|
    decreases |s|, 0
  {
    var (h, r) :- ReadHead(s);
    match h
    case OneByte(b) => Done(Str([b]), r)
    case StrOf(n) =>
      var (d, r') :- ReadBytes(r, n);
      if n == 1 && d[0] < 0x80 then Failed(InvalidData) else Done(Str(d), r')
    case LstOf(n) =>
      var (payload, r') :- ReadBytes(r, n);
      var (xs, none) :- ReadAll(payload);
      Done(Lst(xs), r')
  }

  /** A payload is items and nothing else. */
  function ReadAll(s: bytes): Parsed<seq<Item>>
    decreases |s|, 1
  {
    if s == [] then Done([], [])
    else
      var (x, r) :- ReadItem(s);
      var (xs, none) :- ReadAll(r);
      Done([x] + xs, none)
  }

  lemma ReadHeadOf(base: nat, n: nat, t: bytes)
    requires base == 0x80 || base == 0xC0
    requires n <= USIZE_MAX
    ensures ReadHead(Header(base, n) + t) == Done(if base == 0x80 then StrOf(n) else LstOf(n), t)
  {
    hide BE, FromBE;
    if n < 56 {
      assert (Header(base, n) + t)[1..] == t;
    } else {
      LengthOfLength(n);
      FromBEOfBE(n);
      assert (Header(base, n) + t)[1..] == BE(n) + t;
      ReadBytesOf(BE(n), t);
    }
  }

  lemma LengthOfLength(n: nat)
    requires 0 < n <= USIZE_MAX
    ensures 1 <= |BE(n)| <= 8
  {
    WordSizes();
    BELength(n, 8);
  }

  /** An item reads back, whatever follows it: lists of lists of any depth and length included. */
  lemma {:induction false} ItemRoundTrip(x: Item, t: bytes)
    requires |ItemBytes(x)| <= USIZE_MAX
    ensures ReadItem(ItemBytes(x) + t) == Done(x, t)
    decreases x
  {
    hide Header, ReadHead, AllBytes, ReadAll;
    match x {
      case Str(s) =>
        if |s| == 1 && s[0] < 0x80 {
          ReadOneByte(s[0], t);
          assert s == [s[0]];
        } else {
          assert ItemBytes(x) + t == Header(0x80, |s|) + (s + t);
          ReadHeadOf(0x80, |s|, s + t);
          ReadBytesOf(s, t);
        }
      case Lst(items) =>
        var payload := AllBytes(items);
        assert ItemBytes(x) + t == Header(0xC0, |payload|) + (payload + t);
        ReadHeadOf(0xC0, |payload|, payload + t);
        ReadBytesOf(payload, t);
        AllRoundTrip(items);
    }
  }

  lemma ReadOneByte(b: byte, t: bytes)
    requires b < 0x80
    ensures ReadHead([b] + t) == Done(OneByte(b), t)
  {
    assert ([b] + t)[1..] == t;
  }

  lemma {:induction false} AllRoundTrip(xs: seq<Item>)
    requires |AllBytes(xs)| <= USIZE_MAX
    ensures ReadAll(AllBytes(xs)) == Done(xs, [])
    decreases xs
  {
    hide ItemBytes, ReadItem;
    if xs != [] {
      AllCons(xs);
      ItemRoundTrip(xs[0], AllBytes(xs[1..]));
      AllRoundTrip(xs[1..]);
      assert [xs[0]] + xs[1..] == xs;
    }
  }

  // ---- Whatever is read was written

  lemma ReadHeadCanonical(s: bytes)
    requires ReadHead(s).Done?
    ensures var p := ReadHead(s);
            match p.value
            case OneByte(b) => b < 0x80 && s == [b] + p.rest
            case StrOf(n) => s == Header(0x80, n) + p.rest
            case LstOf(n) => s == Header(0xC0, n) + p.rest
  {
    hide Header, ReadLong;
    assert s == [s[0]] + s[1..];
    if 0x80 <= s[0] < 0xB8 {
      ShortHeader(0x80, s[0] - 0x80);
    } else if 0xB8 <= s[0] < 0xC0 {
      ReadLongCanonical(s[1..], s[0] - 0xB7);
      LongHeader(0x80, ReadHead(s).value.n, ReadHead(s).rest);
    } else if 0xC0 <= s[0] < 0xF8 {
      ShortHeader(0xC0, s[0] - 0xC0);
    } else if 0xF8 <= s[0] {
      ReadLongCanonical(s[1..], s[0] - 0xF7);
      LongHeader(0xC0, ReadHead(s).value.n, ReadHead(s).rest);
    }
  }

  lemma ShortHeader(base: nat, n: nat)
    requires base + n < 0x100 && n < 56
    ensures Header(base, n) == [base + n]
  {
  }

  lemma LongHeader(base: nat, n: nat, t: bytes)
    requires n >= 56 && base + 55 + |BE(n)| < 0x100
    ensures Header(base, n) + t == [base + 55 + |BE(n)|] + (BE(n) + t)
  {
    hide BE;
    AppendStep([base + 55 + |BE(n)|], BE(n), t);
  }

  lemma ReadLongCanonical(s: bytes, k: nat)
    requires ReadLong(s, k).Done?
    ensures var p := ReadLong(s, k); p.value >= 56 && |BE(p.value)| == k && s == BE(p.value) + p.rest
  {
    hide BE, FromBE;
    BEOfFromBE(ReadBytes(s, k).value);
  }

  /** No other bytes are read as an item than its own encoding, so every item has one encoding. */
  lemma {:induction false} ItemCanonical(s: bytes)
    requires ReadItem(s).Done?
    ensures s == ItemBytes(ReadItem(s).value) + ReadItem(s).rest
    decreases |s|, 0
  {
    hide Header, ReadHead, AllBytes, ReadAll;
    ReadHeadCanonical(s);
    var (h, r) := (ReadHead(s).value, ReadHead(s).rest);
    match h {
      case OneByte(b) =>
      case StrOf(n) =>
        var d := ReadBytes(r, n);
        AppendStep(Header(0x80, n), d.value, d.rest);
      case LstOf(n) =>
        var payload := ReadBytes(r, n);
        AllCanonical(payload.value);
        AppendStep(Header(0xC0, n), payload.value, payload.rest);
    }
  }

  lemma {:induction false} AllCanonical(s: bytes)
    requires ReadAll(s).Done?
    ensures s == AllBytes(ReadAll(s).value)
    decreases |s|, 1
  {
    hide ItemBytes, ReadItem, AllBytes;
    if s == [] {
      NoBytes();
    } else {
      ItemCanonical(s);
      var head := ReadItem(s);
      AllCanonical(head.rest);
      var xs := ReadAll(s).value;
      assert xs[1..] == ReadAll(head.rest).value;
      AllCons(xs);
    }
  }

  lemma NoBytes()
    ensures AllBytes([]) == []
  {
  }
}
