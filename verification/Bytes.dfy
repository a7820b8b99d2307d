/** Bytes, machine-word ranges and the two integer byte orders used by the codecs. */
module Bytes {
  type byte = b: int | 0 <= b < 0x100
  type bytes = seq<byte>
  type u32 = n: int | 0 <= n < 0x1_0000_0000
  type u64 = n: int | 0 <= n < 0x1_0000_0000_0000_0000
  type u128 = n: int | 0 <= n < 0x1_0000_0000_0000_0000_0000_0000_0000_0000
  type Bytes20 = s: bytes | |s| == 20 witness Zeros(20)
  type Bytes32 = s: bytes | |s| == 32 witness Zeros(32)
  type Bytes64 = s: bytes | |s| == 64 witness Zeros(64)
  type Bytes65 = s: bytes | |s| == 65 witness Zeros(65)

  const USIZE_MAX := 0xFFFF_FFFF_FFFF_FFFF
  /** No Rust allocation is longer than this. */
  const ISIZE_MAX := 0x7FFF_FFFF_FFFF_FFFF

  function Zeros(n: nat): (s: bytes)
    ensures |s| == n
  {
    seq(n, _ => 0)
  }

  function Min(a: nat, b: nat): nat {
    if a <= b then a else b
  }

  function Max(a: nat, b: nat): nat {
    if a <= b then b else a
  }

  function Pow256(k: nat): (p: nat)
    ensures p > 0
  {
    if k == 0 then 1 else 256 * Pow256(k - 1)
  }

  /** The `k` low bytes of `v`, least significant first. */
  function LE(v: nat, k: nat): (s: bytes)
    ensures |s| == k
  {
    if k == 0 then [] else [v % 256] + LE(v / 256, k - 1)
  }

  function FromLE(s: bytes): nat {
    if s == [] then 0 else s[0] + 256 * FromLE(s[1..])
  }

  lemma {:induction false} FromLEOfLE(v: nat, k: nat)
    requires v < Pow256(k)
    ensures FromLE(LE(v, k)) == v
  {
    if k > 0 {
      FromLEOfLE(v / 256, k - 1);
      assert LE(v, k)[1..] == LE(v / 256, k - 1);
    }
  }

  lemma DigitAndRest(d: byte, q: nat)
    ensures (256 * q + d) % 256 == d && (256 * q + d) / 256 == q
  {
  }

  lemma {:induction false} LEOfFromLE(s: bytes)
    ensures FromLE(s) < Pow256(|s|)
    ensures LE(FromLE(s), |s|) == s
  {
    if s != [] {
      var q := FromLE(s[1..]);
      LEOfFromLE(s[1..]);
      DigitAndRest(s[0], q);
      assert LE(FromLE(s), |s|) == [s[0]] + LE(q, |s| - 1);
      assert s == [s[0]] + s[1..];
    }
  }

  lemma WordSizes()
    ensures Pow256(1) == 0x100
    ensures Pow256(2) == 0x1_0000
    ensures Pow256(4) == 0x1_0000_0000
    ensures Pow256(8) == 0x1_0000_0000_0000_0000
    ensures Pow256(16) == 0x1_0000_0000_0000_0000_0000_0000_0000_0000
  {
    assert Pow256(4) == 0x1_0000_0000;
    assert Pow256(8) == 0x1_0000_0000_0000_0000;
    assert Pow256(12) == 0x1_0000_0000_0000_0000_0000_0000;
  }

  lemma FromLEOfU32(v: nat)
    requires v < 0x1_0000_0000
    ensures FromLE(LE(v, 4)) == v
  {
    WordSizes();
    FromLEOfLE(v, 4);
  }

  lemma MultipleIsFar(d: nat, e: int)
    ensures e >= 1 ==> d * e >= d
    ensures e <= -1 ==> d * e + d <= 0
  {
    if e >= 1 {
      assert d * e == d * (e - 1) + d;
    } else if e <= -1 {
      assert d * e == d * (e + 1) - d;
    }
  }

  lemma QuotientUnique(v: nat, d: nat, q: nat, r: nat)
    requires v == d * q + r && r < d
    ensures v / d == q
  {
    var e := v / d - q;
    assert d * e == r - v % d;
    MultipleIsFar(d, e);
  }

  lemma QuotientOfQuotient(v: nat, p: nat)
    requires p > 0
    ensures v / 256 / p == v / (256 * p)
  {
    var q, r := v / 256 / p, v / 256 % p;
    calc {
      v;
      256 * (v / 256) + v % 256;
      256 * (p * q + r) + v % 256;
      256 * (p * q) + (256 * r + v % 256);
      256 * p * q + (256 * r + v % 256);
    }
    QuotientUnique(v, 256 * p, q, 256 * r + v % 256);
  }

  /** Little-endian, digit by digit: byte `i` counts multiples of 256 to the power `i`. */
  lemma {:induction false} LEDigit(v: nat, k: nat, i: nat)
    requires i < k
    ensures LE(v, k)[i] == v / Pow256(i) % 256
  {
    if i > 0 {
      LEDigit(v / 256, k - 1, i - 1);
      QuotientOfQuotient(v, Pow256(i - 1));
    }
  }

  lemma PowersOf256()
    ensures Pow256(0) == 1 && Pow256(1) == 0x100 && Pow256(2) == 0x1_0000 && Pow256(3) == 0x100_0000
    ensures Pow256(4) == 0x1_0000_0000 && Pow256(5) == 0x100_0000_0000
    ensures Pow256(6) == 0x1_0000_0000_0000 && Pow256(7) == 0x100_0000_0000_0000
  {
    assert Pow256(3) == 0x100_0000;
    assert Pow256(5) == 0x100_0000_0000;
  }

  lemma LEOfTwo(v: nat)
    ensures LE(v, 2) == [v % 0x100, v / 0x100 % 0x100]
  {
    hide *;
    PowersOf256();
    LEDigit(v, 2, 0);
    LEDigit(v, 2, 1);
  }

  lemma LEOfFour(v: nat)
    ensures LE(v, 4) == [v % 0x100, v / 0x100 % 0x100, v / 0x1_0000 % 0x100, v / 0x100_0000 % 0x100]
  {
    hide *;
    PowersOf256();
    LEDigit(v, 4, 0);
    LEDigit(v, 4, 1);
    LEDigit(v, 4, 2);
    LEDigit(v, 4, 3);
  }

  lemma LEOfEight(v: nat)
    ensures LE(v, 8) ==
            [v % 0x100, v / 0x100 % 0x100, v / 0x1_0000 % 0x100, v / 0x100_0000 % 0x100,
             v / 0x1_0000_0000 % 0x100, v / 0x100_0000_0000 % 0x100,
             v / 0x1_0000_0000_0000 % 0x100, v / 0x100_0000_0000_0000 % 0x100]
  {
    hide *;
    PowersOf256();
    LEDigit(v, 8, 0);
    LEDigit(v, 8, 1);
    LEDigit(v, 8, 2);
    LEDigit(v, 8, 3);
    LEDigit(v, 8, 4);
    LEDigit(v, 8, 5);
    LEDigit(v, 8, 6);
    LEDigit(v, 8, 7);
  }

  /** A small number fills the first byte and leaves the others zero. */
  lemma LESmall(b: byte, k: nat)
    requires k > 0
    ensures LE(b, k) == [b] + Zeros(k - 1)
  {
    LEZero(k - 1);
  }

  lemma {:induction false} LEZero(k: nat)
    ensures LE(0, k) == Zeros(k)
  {
    if k > 0 {
      LEZero(k - 1);
    }
  }

  /** Most significant byte first, no leading zero byte; zero is the empty string. */
  function BE(v: nat): (s: bytes)
    ensures s != [] ==> s[0] != 0
  {
    if v == 0 then [] else BE(v / 256) + [v % 256]
  }

  function FromBE(s: bytes): nat {
    if s == [] then 0 else 256 * FromBE(s[..|s| - 1]) + s[|s| - 1]
  }

  lemma {:induction false} FromBEOfBE(v: nat)
    ensures FromBE(BE(v)) == v
  {
    if v > 0 {
      FromBEOfBE(v / 256);
      assert BE(v)[..|BE(v)| - 1] == BE(v / 256);
    }
  }

  lemma {:induction false} BELength(v: nat, k: nat)
    requires v < Pow256(k)
    ensures |BE(v)| <= k
  {
    if v > 0 {
      BELength(v / 256, k - 1);
    }
  }

  /** Without leading zeros there is one string a number. */
  lemma {:induction false} BEOfFromBE(s: bytes)
    requires s != [] ==> s[0] != 0
    ensures BE(FromBE(s)) == s
    ensures s != [] ==> FromBE(s) > 0
  {
    if s != [] {
      var n := |s| - 1;
      var q := FromBE(s[..n]);
      BEOfFromBE(s[..n]);
      DigitAndRest(s[n], q);
      assert BE(FromBE(s)) == BE(q) + [s[n]];
      assert s == s[..n] + [s[n]];
    }
  }

  /** Big-endian, digit by digit, from the last byte. */
  lemma {:induction false} BEDigit(v: nat, i: nat)
    requires i < |BE(v)|
    ensures BE(v)[|BE(v)| - 1 - i] == v / Pow256(i) % 256
  {
    hide BE;
    BESnoc(v);
    if i > 0 {
      BEDigit(v / 256, i - 1);
      QuotientOfQuotient(v, Pow256(i - 1));
    }
  }

  lemma BESnoc(v: nat)
    ensures BE(v) == if v == 0 then [] else BE(v / 256) + [v % 256]
  {
  }

  function Reverse(s: bytes): (r: bytes)
    ensures |r| == |s|
    ensures forall i :: 0 <= i < |s| ==> r[i] == s[|s| - 1 - i]
  {
    seq(|s|, i requires 0 <= i < |s| => s[|s| - 1 - i])
  }

  lemma ReverseInvolutive(s: bytes)
    ensures Reverse(Reverse(s)) == s
  {
    assert |Reverse(Reverse(s))| == |s|;
  }

  lemma AppendStep(s: bytes, a: bytes, b: bytes)
    ensures (s + a) + b == s + (a + b)
  {
  }

  lemma SliceOfFirst(a: bytes, b: bytes, lo: nat, n: nat)
    requires lo + n <= |a|
    ensures (a + b)[lo..lo + n] == a[lo..lo + n]
  {
  }

  lemma SliceOfSecond(a: bytes, b: bytes, lo: nat, n: nat)
    requires lo + n <= |b|
    ensures (a + b)[|a| + lo..|a| + lo + n] == b[lo..lo + n]
  {
  }

  lemma SuffixOfConcat(a: bytes, b: bytes, i: nat)
    requires i <= |a|
    ensures (a + b)[i..] == a[i..] + b
  {
  }

  lemma SliceOfSuffix(s: bytes, i: nat, lo: nat, n: nat)
    requires i + lo + n <= |s|
    ensures s[i + lo..i + lo + n] == s[i..][lo..][..n]
  {
  }

  /** `s` with the bytes from `at` on overwritten by `d`. */
  function Splice(s: bytes, at: nat, d: bytes): (r: bytes)
    requires at + |d| <= |s|
    ensures |r| == |s|
    ensures r[..at] == s[..at]
    ensures r[at..at + |d|] == d
    ensures r[at + |d|..] == s[at + |d|..]
  {
    s[..at] + d + s[at + |d|..]
  }

  /** Overwriting all of the last bytes. */
  lemma SpliceTail(s: bytes, z: bytes, d: bytes)
    requires |z| == |d|
    ensures Splice(s + z, |s|, d) == s + d
  {
    assert (s + z)[..|s|] == s && (s + z)[|s| + |d|..] == [];
  }

  /** What is apart from the overwritten bytes is as it was. */
  lemma SpliceKeeps(s: bytes, at: nat, d: bytes, lo: nat, hi: nat)
    requires at + |d| <= |s|
    requires lo <= hi <= at || at + |d| <= lo <= hi <= |s|
    ensures Splice(s, at, d)[lo..hi] == s[lo..hi]
  {
    hide Splice;
    if hi <= at {
      SliceOfPrefix(Splice(s, at, d), at, lo, hi);
      SliceOfPrefix(s, at, lo, hi);
    } else {
      SliceOfRest(Splice(s, at, d), at + |d|, lo, hi);
      SliceOfRest(s, at + |d|, lo, hi);
    }
  }

  lemma SliceOfPrefix(s: bytes, at: nat, lo: nat, hi: nat)
    requires lo <= hi <= at <= |s|
    ensures s[..at][lo..hi] == s[lo..hi]
  {
  }

  lemma SliceOfRest(s: bytes, e: nat, lo: nat, hi: nat)
    requires e <= lo <= hi <= |s|
    ensures s[e..][lo - e..hi - e] == s[lo..hi]
  {
  }

  lemma SliceSplit(s: bytes, lo: nat, at: nat, hi: nat)
    requires lo <= at <= hi <= |s|
    ensures s[lo..hi][..at - lo] == s[lo..at] && s[lo..hi][at - lo..] == s[at..hi]
  {
  }

  lemma SliceJoin(s: bytes, lo: nat, at: nat, hi: nat)
    requires lo <= at <= hi <= |s|
    ensures s[lo..at] + s[at..hi] == s[lo..hi]
  {
  }

  /** Overwriting just behind a stretch of bytes extends it. */
  lemma SpliceExtends(s: bytes, lo: nat, at: nat, d: bytes)
    requires lo <= at && at + |d| <= |s|
    ensures Splice(s, at, d)[lo..at + |d|] == s[lo..at] + d
  {
    hide Splice;
    SpliceKeeps(s, at, d, lo, at);
    SliceJoin(Splice(s, at, d), lo, at, at + |d|);
  }

  /** Two adjacent writes extend what is before them, and leave a stretch before or behind them alone. */
  lemma SpliceTwice(s: bytes, lo: nat, at: nat, v: bytes, x: bytes, from: nat, to: nat)
    requires lo <= at && at + |v| + |x| <= |s|
    requires from <= to <= at || at + |v| + |x| <= from <= to <= |s|
    ensures var r := Splice(Splice(s, at, v), at + |v|, x);
            r[lo..at + |v| + |x|] == s[lo..at] + (v + x) && r[from..to] == s[from..to]
  {
    hide Splice;
    var r := Splice(s, at, v);
    SpliceExtends(s, lo, at, v);
    SpliceExtends(r, lo, at + |v|, x);
    AppendStep(s[lo..at], v, x);
    SpliceKeeps(s, at, v, from, to);
    SpliceKeeps(r, at + |v|, x, from, to);
  }
}
