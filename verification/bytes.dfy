/** Bytes, hexadecimal digits and bit fields, shared by the hash and UUID code:
    `hash::digest` prints digest bytes as hexadecimal, `uuid` prints and parses
    hexadecimal and patches bit fields of words and bytes. */
module Bytes {
  import opened Arith

  /** One `unsigned char` / `uint8_t`. */
  type byte = x: int | 0 <= x < 256

  predicate IsLowerHexDigit(c: char) {
    '0' <= c <= '9' || 'a' <= c <= 'f'
  }

  /** A digit the UUID parser accepts: either case. */
  predicate IsHexDigit(c: char) {
    IsLowerHexDigit(c) || 'A' <= c <= 'F'
  }

  predicate IsLowerHex(s: string) {
    forall i :: 0 <= i < |s| ==> IsLowerHexDigit(s[i])
  }

  /** The value of a hexadecimal digit of either case. */
  function HexValue(c: char): (v: nat)
    requires IsHexDigit(c)
    ensures v < 16
  {
    if '0' <= c <= '9' then c as int - '0' as int
    else if 'a' <= c <= 'f' then c as int - 'a' as int + 10
    else c as int - 'A' as int + 10
  }

  /** The digit that `std::hex` and `%x` print for a nibble: lower case. */
  function HexDigit(v: nat): (c: char)
    requires v < 16
    ensures IsLowerHexDigit(c) && HexValue(c) == v
  {
    if v < 10 then ('0' as int + v) as char else ('a' as int + v - 10) as char
  }

  /** Lower-case digits are exactly the printed ones. */
  lemma HexDigitOfValue(c: char)
    requires IsLowerHexDigit(c)
    ensures HexDigit(HexValue(c)) == c
  {
  }

  /** An upper-case digit has the value of its lower-case counterpart. */
  lemma HexValueIgnoresCase(c: char)
    requires 'A' <= c <= 'F'
    ensures IsHexDigit((c as int + 32) as char)
    ensures HexValue((c as int + 32) as char) == HexValue(c)
  {
  }

  /** The `width` lowest hexadecimal digits of `n`, most significant first,
      zero-padded: `%0<width>x` whenever `n < 16^width`, as at every use. */
  function HexN(n: nat, width: nat): (s: string)
    ensures |s| == width && IsLowerHex(s)
  {
    if width == 0 then [] else HexN(n / 16, width - 1) + [HexDigit(n % 16)]
  }

  /** Digit `i` of `HexN(n, width)` is the digit of weight `16^(width-1-i)`. */
  lemma {:induction false} HexNDigit(n: nat, width: nat, i: nat)
    requires i < width
    ensures HexN(n, width)[i] == HexDigit((n / Pow(16, width - 1 - i)) % 16)
  {
    if i == width - 1 {
      assert Pow(16, 0) == 1;
    } else {
      HexNDigit(n / 16, width - 1, i);
      DivDiv(n, 16, Pow(16, width - 2 - i));
      assert Pow(16, width - 1 - i) == 16 * Pow(16, width - 2 - i);
    }
  }

  /** Printing `a + b` digits is printing the high part in `a` digits followed
      by the low part in `b` digits. */
  lemma {:induction false} HexNSplit(n: nat, a: nat, b: nat)
    ensures HexN(n, a + b) == HexN(n / Pow(16, b), a) + HexN(n % Pow(16, b), b)
  {
    if b > 0 {
      var p := Pow(16, b - 1);
      HexNSplit(n / 16, a, b - 1);
      DivDiv(n, 16, p);
      DivDiv(n, p, 16);
      assert 16 * p == p * 16;
      assert HexN(n % Pow(16, b), b)
          == HexN((n % Pow(16, b)) / 16, b - 1) + [HexDigit((n % Pow(16, b)) % 16)];
    }
  }

  /** What `setw(2) << setfill('0') << hex << int(b)` prints. */
  function ByteHex(b: byte): (s: string)
    ensures |s| == 2 && IsLowerHex(s)
    ensures 16 * HexValue(s[0]) + HexValue(s[1]) == b
  {
    assert Pow(16, 1) == 16 && Pow(16, 0) == 1;
    HexNDigit(b, 2, 0);
    HexNDigit(b, 2, 1);
    HexN(b, 2)
  }

  /** The bytes in order, two digits each: the output loop of `hash::digest`
      and the text of a UUID before the dashes go in. */
  function HexOf(bs: seq<byte>): (s: string)
    ensures |s| == 2 * |bs| && IsLowerHex(s)
  {
    if bs == [] then [] else ByteHex(bs[0]) + HexOf(bs[1..])
  }

  lemma {:induction false} HexOfAppend(a: seq<byte>, b: seq<byte>)
    ensures HexOf(a + b) == HexOf(a) + HexOf(b)
  {
    if a == [] {
      assert a + b == b;
    } else {
      var h, ta, tb := ByteHex(a[0]), HexOf(a[1..]), HexOf(b);
      assert (a + b)[0] == a[0] && (a + b)[1..] == a[1..] + b;
      HexOfAppend(a[1..], b);
      assert HexOf(a + b) == h + (ta + tb);
      assert HexOf(a) == h + ta;
      assert h + (ta + tb) == (h + ta) + tb;
    }
  }

  /** `std::stoi(pair, nullptr, 16)` of two hexadecimal digits. */
  function PairValue(hi: char, lo: char): (b: byte)
    requires IsHexDigit(hi) && IsHexDigit(lo)
    ensures b / 16 == HexValue(hi) && b % 16 == HexValue(lo)
  {
    16 * HexValue(hi) + HexValue(lo)
  }

  /** Reads consecutive two-digit pairs back into bytes, as `uuidV3` reads the
      MD5 digest text. */
  function ParseHexPairs(s: string): (bs: seq<byte>)
    requires |s| % 2 == 0
    requires forall i :: 0 <= i < |s| ==> IsHexDigit(s[i])
    ensures |bs| == |s| / 2
    ensures forall i :: 0 <= i < |bs| ==> bs[i] == PairValue(s[2 * i], s[2 * i + 1])
  {
    if s == [] then [] else [PairValue(s[0], s[1])] + ParseHexPairs(s[2..])
  }

  /** Reading back the printed digits recovers the bytes. */
  lemma {:induction false} ParseHexOf(bs: seq<byte>)
    ensures ParseHexPairs(HexOf(bs)) == bs
  {
    if bs != [] {
      var s := HexOf(bs);
      assert s == ByteHex(bs[0]) + HexOf(bs[1..]);
      assert s[2..] == HexOf(bs[1..]);
      ParseHexOf(bs[1..]);
    }
  }

  /** Reading the first `k` pairs reads the first `k` bytes. */
  lemma {:induction false} ParseHexPairsPrefix(s: string, k: nat)
    requires |s| % 2 == 0 && 2 * k <= |s|
    requires forall i :: 0 <= i < |s| ==> IsHexDigit(s[i])
    ensures ParseHexPairs(s[..2 * k]) == ParseHexPairs(s)[..k]
  {
    if k > 0 {
      assert s[..2 * k][2..] == s[2..][..2 * (k - 1)];
      ParseHexPairsPrefix(s[2..], k - 1);
    }
  }

  /** Every lower-case digit text of even length is the printing of the bytes
      read from it. */
  lemma {:induction false} HexOfParse(s: string)
    requires |s| % 2 == 0 && IsLowerHex(s)
    ensures HexOf(ParseHexPairs(s)) == s
  {
    if s != [] {
      var b := PairValue(s[0], s[1]);
      var t := ByteHex(b);
      HexDigitOfValue(s[0]);
      HexDigitOfValue(s[1]);
      HexDigitOfValue(t[0]);
      HexDigitOfValue(t[1]);
      assert t[0] == s[0] && t[1] == s[1];
      HexOfParse(s[2..]);
      assert s == t + s[2..];
    }
  }

  /** `(x & ~field) | (v << lo)` where `field` covers bits `lo` to
      `lo + width - 1`: the field now holds `v`, every other bit is kept. */
  function SetBits(x: nat, lo: nat, width: nat, v: nat): (r: nat)
    requires v < Pow2(width)
    ensures r % Pow2(lo) == x % Pow2(lo)
    ensures (r / Pow2(lo)) % Pow2(width) == v
    ensures r / Pow2(lo + width) == x / Pow2(lo + width)
  {
    var p, q := Pow2(lo), Pow2(width);
    PowAdd(2, lo, width);
    var r := x - ((x / p) % q) * p + v * p;
    FieldReplace(x, p, q, v, r);
    r
  }
}
