/** `neko::util::uuid`: the text of version 4 and version 3 UUIDs and the
    parser that reads a UUID text back into its 16 bytes. The random words of
    `uuidV4` and the MD5 digest of `uuidV3` are parameters. */
module Uuid {
  import opened Arith
  import opened Bytes
  import opened Wrappers
  import Strings
  import Hash

  /** One `uint32_t`. */
  type word = x: int | 0 <= x < 0x1_0000_0000

  lemma PowerValues()
    ensures Pow2(4) == 16 && Pow2(12) == 4096 && Pow2(16) == 65536
    ensures Pow2(2) == 4 && Pow2(6) == 64 && Pow2(8) == 256
    ensures Pow2(28) == 0x1000_0000 && Pow2(30) == 0x4000_0000 && Pow2(32) == 0x1_0000_0000
    ensures Pow(16, 2) == 256 && Pow(16, 3) == 4096 && Pow(16, 4) == 65536
  {
  }

  predicate IsDashPosition(i: int) {
    i == 8 || i == 13 || i == 18 || i == 23
  }

  /** The canonical text of a UUID: 36 characters, `-` at 8, 13, 18 and 23,
      lower-case hexadecimal digits everywhere else. */
  predicate IsUuidText(s: string) {
    |s| == 36 &&
    forall i :: 0 <= i < 36 ==> if IsDashPosition(i) then s[i] == '-' else IsLowerHexDigit(s[i])
  }

  // ------------------------------------------------------------------ text

  /** The output loop of `uuidV3` from byte `i` on: two digits per byte and a
      `-` after bytes 3, 5, 7 and 9. */
  function DashedHexFrom(b: seq<byte>, i: nat): (s: string)
    requires |b| == 16 && i <= 16
    ensures |s| == 2 * (16 - i) + DashesFrom(i)
    decreases 16 - i
  {
    if i == 16 then ""
    else ByteHex(b[i]) + (if i == 3 || i == 5 || i == 7 || i == 9 then "-" else "") + DashedHexFrom(b, i + 1)
  }

  /** The number of dashes the loop writes from byte `i` on. */
  function DashesFrom(i: nat): nat {
    if i <= 3 then 4 else if i <= 5 then 3 else if i <= 7 then 2 else if i <= 9 then 1 else 0
  }

  /** The text of 16 bytes: 32 digits and 4 dashes. */
  function UuidText(b: seq<byte>): (s: string)
    requires |b| == 16
    ensures |s| == 36
  {
    DashedHexFrom(b, 0)
  }

  /** After the last dash the loop prints the remaining bytes. */
  lemma {:induction false} DashedHexTail(b: seq<byte>, i: nat)
    requires |b| == 16 && 10 <= i <= 16
    ensures DashedHexFrom(b, i) == HexOf(b[i..])
    decreases 16 - i
  {
    if i < 16 {
      DashedHexTail(b, i + 1);
      assert b[i..][1..] == b[i + 1..];
    }
  }

  /** The byte after the next dash at or after byte `i`. */
  function GroupEnd(i: nat): nat {
    if i < 4 then 4 else if i < 6 then 6 else if i < 8 then 8 else 10
  }

  /** A run of bytes up to the next dash. */
  lemma {:induction false} DashedHexRun(b: seq<byte>, i: nat, j: nat)
    requires |b| == 16 && i < 10 && j == GroupEnd(i)
    ensures DashedHexFrom(b, i) == HexOf(b[i..j]) + "-" + DashedHexFrom(b, j)
    decreases j - i
  {
    var h := ByteHex(b[i]);
    if i == j - 1 {
      assert DashedHexFrom(b, i) == h + "-" + DashedHexFrom(b, j);
      HexOfOne(b, i);
    } else {
      var rest := DashedHexFrom(b, i + 1);
      assert DashedHexFrom(b, i) == h + "" + rest;
      assert h + "" == h;
      DashedHexRun(b, i + 1, j);
      HexOfFirst(b, i, j);
      Assoc3(h, HexOf(b[i + 1..j]), "-", DashedHexFrom(b, j));
    }
  }

  lemma HexOfOne(b: seq<byte>, i: nat)
    requires i < |b|
    ensures HexOf(b[i..i + 1]) == ByteHex(b[i])
  {
    assert b[i..i + 1] == [b[i]];
    assert HexOf([b[i]]) == ByteHex(b[i]) + HexOf([]);
  }

  lemma HexOfFirst(b: seq<byte>, i: nat, j: nat)
    requires i < j <= |b|
    ensures HexOf(b[i..j]) == ByteHex(b[i]) + HexOf(b[i + 1..j])
  {
    assert b[i..j][0] == b[i];
    assert b[i..j][1..] == b[i + 1..j];
  }

  lemma Assoc3(a: string, b: string, c: string, d: string)
    ensures a + (b + c + d) == a + b + c + d
  {
  }

  /** The text in its five groups of 4, 2, 2, 2 and 6 bytes. */
  lemma {:induction false} UuidTextGroups(b: seq<byte>)
    requires |b| == 16
    ensures UuidText(b) == HexOf(b[..4]) + "-" + HexOf(b[4..6]) + "-" + HexOf(b[6..8]) + "-"
                           + HexOf(b[8..10]) + "-" + HexOf(b[10..])
  {
    var h0, h1, h2, h3, h4 := HexOf(b[..4]), HexOf(b[4..6]), HexOf(b[6..8]), HexOf(b[8..10]), HexOf(b[10..]);
    DashedHexRun(b, 0, 4);
    DashedHexRun(b, 4, 6);
    DashedHexRun(b, 6, 8);
    DashedHexRun(b, 8, 10);
    DashedHexTail(b, 10);
    assert b[..4] == b[0..4];
    assert UuidText(b) == h0 + "-" + (h1 + "-" + (h2 + "-" + (h3 + "-" + h4)));
    Flatten(h0, h1, h2, h3, h4);
  }

  lemma Flatten(h0: string, h1: string, h2: string, h3: string, h4: string)
    ensures h0 + "-" + (h1 + "-" + (h2 + "-" + (h3 + "-" + h4)))
         == h0 + "-" + h1 + "-" + h2 + "-" + h3 + "-" + h4
  {
  }

  /** Five digit groups of 8, 4, 4, 4 and 12 characters joined by dashes
      form a canonical text whose characters 14 and 19 open the third and
      fourth groups. */
  lemma JoinedGroups(h0: string, h1: string, h2: string, h3: string, h4: string)
    requires |h0| == 8 && |h1| == 4 && |h2| == 4 && |h3| == 4 && |h4| == 12
    requires IsLowerHex(h0) && IsLowerHex(h1) && IsLowerHex(h2) && IsLowerHex(h3) && IsLowerHex(h4)
    ensures var s := h0 + "-" + h1 + "-" + h2 + "-" + h3 + "-" + h4;
      IsUuidText(s) && s[14] == h2[0] && s[19] == h3[0]
  {
    var s := h0 + "-" + h1 + "-" + h2 + "-" + h3 + "-" + h4;
    forall i | 0 <= i < 36
      ensures if IsDashPosition(i) then s[i] == '-' else IsLowerHexDigit(s[i])
    {
      if i < 8 {
        assert s[i] == h0[i];
      } else if 8 < i < 13 {
        assert s[i] == h1[i - 9];
      } else if 13 < i < 18 {
        assert s[i] == h2[i - 14];
      } else if 18 < i < 23 {
        assert s[i] == h3[i - 19];
      } else if 23 < i {
        assert s[i] == h4[i - 24];
      }
    }
  }

  /** Sixteen bytes always print as a canonical UUID text. */
  lemma {:induction false} UuidTextIsCanonical(b: seq<byte>)
    requires |b| == 16
    ensures IsUuidText(UuidText(b))
  {
    UuidTextGroups(b);
    JoinedGroups(HexOf(b[..4]), HexOf(b[4..6]), HexOf(b[6..8]), HexOf(b[8..10]), HexOf(b[10..]));
  }

  /** Characters 14 and 19 are the high digits of bytes 6 and 8. */
  lemma {:induction false} UuidTextMarkers(b: seq<byte>)
    requires |b| == 16
    ensures UuidText(b)[14] == HexDigit(b[6] / 16)
    ensures UuidText(b)[19] == HexDigit(b[8] / 16)
  {
    UuidTextGroups(b);
    JoinedGroups(HexOf(b[..4]), HexOf(b[4..6]), HexOf(b[6..8]), HexOf(b[8..10]), HexOf(b[10..]));
    HexOfFirst(b, 6, 8);
    HexOfFirst(b, 8, 10);
    HighDigit(b[6]);
    HighDigit(b[8]);
  }

  /** The first of the two printed digits of a byte is its high nibble. */
  lemma {:induction false} HighDigit(b: byte)
    ensures ByteHex(b)[0] == HexDigit(b / 16)
  {
    var s := ByteHex(b);
    SplitAt(HexValue(s[0]), HexValue(s[1]), 16);
    DigitOfValue(s[0], b / 16);
  }

  /** A lower-case digit is determined by its value. */
  lemma {:induction false} DigitOfValue(c: char, v: nat)
    requires IsLowerHexDigit(c) && v < 16 && HexValue(c) == v
    ensures c == HexDigit(v)
  {
    HexDigitOfValue(c);
  }

  // --------------------------------------------------------------- parsing

  /** The loop of `uuidStringToBytes` over the rest `s` of the text, with room
      for `room` more bytes: `-` and characters that are not hexadecimal
      digits are skipped; a digit starts a byte; the next character, unless it
      is `-` or the text ends there, is taken as its low digit, or contributes
      nothing when it is not a digit. Setting the low bits with `|=` adds the
      low digit, since the high digit was shifted past them. */
  function ParseBytes(s: string, room: nat): (bs: seq<byte>)
    ensures |bs| <= room
    decreases |s|
  {
    if |s| == 0 || room == 0 then []
    else if s[0] == '-' then ParseBytes(s[1..], room)
    else if !IsHexDigit(s[0]) then ParseBytes(s[1..], room)
    else
      var high := 16 * HexValue(s[0]);
      if |s| > 1 && s[1] != '-' then
        [high + (if IsHexDigit(s[1]) then HexValue(s[1]) else 0)] + ParseBytes(s[2..], room - 1)
      else
        [high] + ParseBytes(s[1..], room - 1)
  }

  /** `uuidStringToBytes`: the bytes read, at most 16, followed by the zeros
      the array was initialised with. */
  function StringToBytes(s: string): (b: seq<byte>)
    ensures |b| == 16
    ensures b[..|ParseBytes(s, 16)|] == ParseBytes(s, 16)
    ensures forall i :: |ParseBytes(s, 16)| <= i < 16 ==> b[i] == 0
  {
    var parsed := ParseBytes(s, 16);
    parsed + seq(16 - |parsed|, _ => 0)
  }

  /** On a text of digit pairs the parser is the pairwise reading. */
  lemma {:induction false} ParseDigitPairs(s: string, rest: string, room: nat)
    requires |s| % 2 == 0 && |s| / 2 <= room
    requires forall i :: 0 <= i < |s| ==> IsHexDigit(s[i])
    ensures ParseBytes(s + rest, room) == ParseHexPairs(s) + ParseBytes(rest, room - |s| / 2)
  {
    if |s| > 0 {
      assert (s + rest)[2..] == s[2..] + rest;
      ParseDigitPairs(s[2..], rest, room - 1);
    } else {
      assert s + rest == rest;
    }
  }

  /** A dash is skipped. */
  lemma {:induction false} SkipDash(rest: string, room: nat)
    ensures ParseBytes("-" + rest, room) == ParseBytes(rest, room)
  {
    if room > 0 {
      assert ("-" + rest)[1..] == rest;
    }
  }

  /** A character that is neither `-` nor a hexadecimal digit is skipped
      where a byte would start. */
  lemma {:induction false} SkipNonHex(c: char, rest: string, room: nat)
    requires c != '-' && !IsHexDigit(c)
    ensures ParseBytes([c] + rest, room) == ParseBytes(rest, room)
  {
    if room > 0 {
      assert ([c] + rest)[1..] == rest;
    }
  }

  /** After a high digit, a character that is neither `-` nor a digit is
      consumed and contributes a zero low digit. */
  lemma {:induction false} HighThenNonHex(h: char, c: char, rest: string, room: nat)
    requires IsHexDigit(h) && c != '-' && !IsHexDigit(c) && room > 0
    ensures ParseBytes([h, c] + rest, room) == [16 * HexValue(h)] + ParseBytes(rest, room - 1)
  {
    assert ([h, c] + rest)[2..] == rest;
  }

  /** A high digit followed by `-` or by the end of the text is a byte of its
      own, and the `-` is then read as usual. */
  lemma {:induction false} HighThenDash(h: char, rest: string, room: nat)
    requires IsHexDigit(h) && room > 0
    requires |rest| == 0 || rest[0] == '-'
    ensures ParseBytes([h] + rest, room) == [16 * HexValue(h)] + ParseBytes(rest, room - 1)
  {
    assert ([h] + rest)[1..] == rest;
  }

  /** Printed bytes followed by more text are read back first. */
  lemma {:induction false} ParsePrinted(x: seq<byte>, rest: string, room: nat)
    requires |x| <= room
    ensures ParseBytes(HexOf(x) + rest, room) == x + ParseBytes(rest, room - |x|)
  {
    ParseDigitPairs(HexOf(x), rest, room);
    ParseHexOf(x);
  }

  /** `uuidStringToBytes` reads back the bytes of a canonical text. */
  lemma {:induction false} StringToBytesOfText(b: seq<byte>)
    requires |b| == 16
    ensures StringToBytes(UuidText(b)) == b
  {
    UuidTextGroups(b);
    var g0, g1, g2, g3, g4 := b[..4], b[4..6], b[6..8], b[8..10], b[10..];
    var t4 := HexOf(g4);
    var t3 := HexOf(g3) + "-" + t4;
    var t2 := HexOf(g2) + "-" + t3;
    var t1 := HexOf(g1) + "-" + t2;
    var t0 := HexOf(g0) + "-" + t1;
    Flatten(HexOf(g0), HexOf(g1), HexOf(g2), HexOf(g3), t4);
    assert UuidText(b) == t0;
    ParseLastGroup(g4);
    ParseGroup(g3, t4, 8);
    ParseGroup(g2, t3, 10);
    ParseGroup(g1, t2, 12);
    ParseGroup(g0, t1, 16);
    assert ParseBytes(t0, 16) == g0 + (g1 + (g2 + (g3 + g4)));
    Regroup(b);
    assert StringToBytes(t0) == b + [];
  }

  lemma {:induction false} ParseLastGroup(g: seq<byte>)
    requires |g| <= 6
    ensures ParseBytes(HexOf(g), 6) == g
  {
    ParsePrinted(g, "", 6);
    assert HexOf(g) + "" == HexOf(g);
    assert g + [] == g;
  }

  /** A group of printed bytes and a dash are read as the group. */
  lemma {:induction false} ParseGroup(g: seq<byte>, rest: string, room: nat)
    requires |g| <= room
    ensures ParseBytes(HexOf(g) + "-" + rest, room) == g + ParseBytes(rest, room - |g|)
  {
    assert HexOf(g) + "-" + rest == HexOf(g) + ("-" + rest);
    ParsePrinted(g, "-" + rest, room);
    SkipDash(rest, room - |g|);
  }

  lemma Regroup(b: seq<byte>)
    requires |b| == 16
    ensures b[..4] + (b[4..6] + (b[6..8] + (b[8..10] + b[10..]))) == b
  {
  }

  /** Lowering a character keeps what the parser sees in it: a dash, a digit
      of the same value, or neither. */
  lemma {:induction false} LowerCharParsesAlike(c: char)
    ensures (Strings.LowerChar(c) == '-') == (c == '-')
    ensures IsHexDigit(Strings.LowerChar(c)) == IsHexDigit(c)
    ensures IsHexDigit(c) ==> HexValue(Strings.LowerChar(c)) == HexValue(c)
  {
  }

  /** The parser ignores the case of the letters. */
  lemma {:induction false} ParseIgnoresCase(s: string, room: nat)
    ensures ParseBytes(Strings.ToLower(s), room) == ParseBytes(s, room)
    decreases |s|
  {
    var t := Strings.ToLower(s);
    if |s| > 0 && room > 0 {
      LowerCharParsesAlike(s[0]);
      assert t[0] == Strings.LowerChar(s[0]);
      assert t[1..] == Strings.ToLower(s[1..]);
      ParseIgnoresCase(s[1..], room);
      if |s| > 1 {
        LowerCharParsesAlike(s[1]);
        assert t[1] == Strings.LowerChar(s[1]);
        assert t[2..] == Strings.ToLower(s[2..]);
        ParseIgnoresCase(s[2..], room - 1);
      }
      ParseIgnoresCase(s[1..], room - 1);
    }
  }

  /** `uuidStringToBytes` does not depend on the case of the digits. */
  lemma {:induction false} StringToBytesIgnoresCase(s: string)
    ensures StringToBytes(Strings.ToLower(s)) == StringToBytes(s)
    ensures StringToBytes(Strings.ToUpper(s)) == StringToBytes(s)
  {
    ParseIgnoresCase(s, 16);
    ParseIgnoresCase(Strings.ToUpper(s), 16);
    Strings.CaseMappingsAbsorb(s);
  }

  // ------------------------------------------------------------- version 4

  /** `(d & 0xFFFF0FFF) | 0x00004000`: the version 4 in bits 12 to 15, every
      other bit kept. */
  function SetVersion4(d: word): (r: word)
    ensures r % 4096 == d % 4096
    ensures (r / 4096) % 16 == 4
    ensures r / 65536 == d / 65536
  {
    PowerValues();
    var r := SetBits(d, 12, 4, 4);
    assert r == (r / 65536) * 65536 + r % 65536;
    r
  }

  /** `(d & 0x3FFFFFFF) | 0x80000000`: the variant `10` in the top two bits,
      every other bit kept. */
  function SetVariant(d: word): (r: word)
    ensures r % 0x4000_0000 == d % 0x4000_0000
    ensures r / 0x4000_0000 == 2
  {
    PowerValues();
    var r := SetBits(d, 30, 2, 2);
    DivDiv(r, 0x4000_0000, 4);
    assert r == (r / 0x4000_0000) * 0x4000_0000 + r % 0x4000_0000;
    r
  }

  /** The `snprintf` of `uuidV4`: `%08x-%04x-%04x-%04x-%04x%08x` of the first
      word, the two halves of the second and of the third, and the fourth. */
  function FormatV4(d0: word, d1: word, d2: word, d3: word): (s: string)
    ensures |s| == 36
    ensures s[8] == '-' && s[13] == '-' && s[18] == '-' && s[23] == '-'
  {
    HexN(d0, 8) + "-" + HexN((d1 / 65536) % 65536, 4) + "-" + HexN(d1 % 65536, 4) + "-"
      + HexN((d2 / 65536) % 65536, 4) + "-" + HexN(d2 % 65536, 4) + HexN(d3, 8)
  }

  /** `uuidV4` for the four random words `w0` to `w3`. */
  function UuidV4(w0: word, w1: word, w2: word, w3: word): (s: string)
    ensures IsUuidText(s)
    ensures s[14] == '4'
    ensures s[19] in "89ab"
  {
    var s := FormatV4(w0, SetVersion4(w1), SetVariant(w2), w3);
    FormatV4IsText(w0, SetVersion4(w1), SetVariant(w2), w3);
    V4Markers(w0, w1, w2, w3);
    s
  }

  /** `k` bytes of `w`, most significant first. */
  function BigEndian(w: nat, k: nat): (bs: seq<byte>)
    ensures |bs| == k
  {
    if k == 0 then [] else BigEndian(w / 256, k - 1) + [w % 256]
  }

  /** The four words as 16 bytes, each word most significant byte first. */
  function WordBytes(d0: word, d1: word, d2: word, d3: word): (b: seq<byte>)
    ensures |b| == 16
  {
    BigEndian(d0, 4) + BigEndian(d1, 4) + BigEndian(d2, 4) + BigEndian(d3, 4)
  }

  /** `2k` hexadecimal digits print the `k` low bytes. */
  lemma {:induction false} HexNIsHexOfBigEndian(w: nat, k: nat)
    ensures HexN(w, 2 * k) == HexOf(BigEndian(w, k))
  {
    if k > 0 {
      PowerValues();
      HexNSplit(w, 2 * (k - 1), 2);
      HexNIsHexOfBigEndian(w / 256, k - 1);
      HexOfAppend(BigEndian(w / 256, k - 1), [w % 256]);
      assert HexOf([w % 256]) == ByteHex(w % 256) + HexOf([]);
    }
  }

  /** The high half of a 32-bit word is below 65536. */
  lemma HighHalf(d: word)
    ensures (d / 65536) % 65536 == d / 65536
  {
    assert d / 65536 < 65536;
  }

  /** The two halves of a word in `%04x` each are the word in `%08x`. */
  lemma {:induction false} HalvesOfWord(d: word)
    ensures HexN((d / 65536) % 65536, 4) == HexOf(BigEndian(d, 4)[..2])
    ensures HexN(d % 65536, 4) == HexOf(BigEndian(d, 4)[2..])
  {
    PowerValues();
    HighHalf(d);
    HexNSplit(d, 4, 4);
    HexNIsHexOfBigEndian(d, 4);
    var be := BigEndian(d, 4);
    SplitHexOf(be, 2);
    SplitEqual(HexN(d / 65536, 4), HexN(d % 65536, 4), HexOf(be[..2]), HexOf(be[2..]));
  }

  lemma SplitHexOf(x: seq<byte>, k: nat)
    requires k <= |x|
    ensures HexOf(x) == HexOf(x[..k]) + HexOf(x[k..])
  {
    var front, back := x[..k], x[k..];
    assert front + back == x;
    HexOfAppend(front, back);
  }

  lemma SplitEqual(a: string, b: string, c: string, d: string)
    requires a + b == c + d && |a| == |c|
    ensures a == c && b == d
  {
    assert a == (a + b)[..|a|] && c == (c + d)[..|c|];
    assert b == (a + b)[|a|..] && d == (c + d)[|c|..];
  }

  /** The byte groups of the text, cut from four 4-byte words. */
  lemma WordSlices(a: seq<byte>, b: seq<byte>, c: seq<byte>, d: seq<byte>)
    requires |a| == 4 && |b| == 4 && |c| == 4 && |d| == 4
    ensures var x := a + b + c + d;
      && x[..4] == a && x[4..6] == b[..2] && x[6..8] == b[2..]
      && x[8..10] == c[..2] && x[10..] == c[2..] + d
  {
    var x := a + b + c + d;
    assert x[10..] == c[2..] + d;
  }

  lemma Flatten6(x0: string, x1: string, x2: string, x3: string, x4: string, x5: string)
    ensures x0 + "-" + x1 + "-" + x2 + "-" + x3 + "-" + x4 + x5
         == x0 + "-" + x1 + "-" + x2 + "-" + x3 + "-" + (x4 + x5)
  {
  }

  /** The `snprintf` layout is the byte-wise text of the words' bytes. */
  lemma {:induction false} FormatV4IsUuidText(d0: word, d1: word, d2: word, d3: word)
    ensures FormatV4(d0, d1, d2, d3) == UuidText(WordBytes(d0, d1, d2, d3))
  {
    var b := WordBytes(d0, d1, d2, d3);
    var b2, b3 := BigEndian(d2, 4), BigEndian(d3, 4);
    UuidTextGroups(b);
    WordSlices(BigEndian(d0, 4), BigEndian(d1, 4), b2, b3);
    HexNIsHexOfBigEndian(d0, 4);
    HexNIsHexOfBigEndian(d3, 4);
    HalvesOfWord(d1);
    HalvesOfWord(d2);
    HexOfAppend(b2[2..], b3);
    Flatten6(HexN(d0, 8), HexN((d1 / 65536) % 65536, 4), HexN(d1 % 65536, 4),
             HexN((d2 / 65536) % 65536, 4), HexN(d2 % 65536, 4), HexN(d3, 8));
  }

  lemma {:induction false} FormatV4IsText(d0: word, d1: word, d2: word, d3: word)
    ensures IsUuidText(FormatV4(d0, d1, d2, d3))
  {
    FormatV4IsUuidText(d0, d1, d2, d3);
    UuidTextIsCanonical(WordBytes(d0, d1, d2, d3));
  }

  /** Characters 14 and 19 of the layout are the top digits of the low half
      of the second word and of the high half of the third. */
  lemma FormatV4Markers(d0: word, d1: word, d2: word, d3: word)
    ensures FormatV4(d0, d1, d2, d3)[14] == HexN(d1 % 65536, 4)[0]
    ensures FormatV4(d0, d1, d2, d3)[19] == HexN((d2 / 65536) % 65536, 4)[0]
  {
  }

  /** The top digit of the low half of a version-4 word is 4. */
  lemma Version4Digit(w: word)
    ensures HexN(SetVersion4(w) % 65536, 4)[0] == '4'
  {
    PowerValues();
    var d := SetVersion4(w);
    HexNDigit(d % 65536, 4, 0);
    DivDiv(d, 4096, 16);
  }

  /** The top digit of a variant word is 8, 9, a or b: its top bits are `10`. */
  lemma VariantDigit(w: word)
    ensures HexN((SetVariant(w) / 65536) % 65536, 4)[0] in "89ab"
  {
    PowerValues();
    var d := SetVariant(w);
    var high := (d / 65536) % 65536;
    HighHalf(d);
    HexNDigit(high, 4, 0);
    DivDiv(d, 65536, 4096);
    DivDiv(d, 0x1000_0000, 4);
    var top := d / 0x1000_0000;
    assert 8 <= top < 12;
    assert (high / 4096) % 16 == top;
    assert HexDigit(top) in "89ab";
  }

  /** The version digit and the variant digit of a version 4 text. */
  lemma {:induction false} V4Markers(w0: word, w1: word, w2: word, w3: word)
    ensures var s := FormatV4(w0, SetVersion4(w1), SetVariant(w2), w3);
      s[14] == '4' && s[19] in "89ab"
  {
    FormatV4Markers(w0, SetVersion4(w1), SetVariant(w2), w3);
    Version4Digit(w1);
    VariantDigit(w2);
  }

  /** `uuidStringToBytes` of a version 4 text gives the bytes of the patched
      words. */
  lemma {:induction false} StringToBytesOfV4(w0: word, w1: word, w2: word, w3: word)
    ensures StringToBytes(UuidV4(w0, w1, w2, w3)) == WordBytes(w0, SetVersion4(w1), SetVariant(w2), w3)
  {
    FormatV4IsUuidText(w0, SetVersion4(w1), SetVariant(w2), w3);
    StringToBytesOfText(WordBytes(w0, SetVersion4(w1), SetVariant(w2), w3));
  }

  // ------------------------------------------------------------- version 3

  /** `(b & 0x0F) | 0x30`: version 3 in the high nibble, the low nibble kept. */
  function SetVersion3(b: byte): (r: byte)
    ensures r / 16 == 3 && r % 16 == b % 16
  {
    PowerValues();
    var r := SetBits(b, 4, 4, 3);
    DivDiv(r, 16, 16);
    r
  }

  /** `(b & 0x3F) | 0x80`: the variant `10` in the top two bits, the low six
      bits kept. */
  function SetVariantByte(b: byte): (r: byte)
    ensures r / 64 == 2 && r % 64 == b % 64
  {
    PowerValues();
    var r := SetBits(b, 6, 2, 2);
    DivDiv(r, 64, 4);
    r
  }

  /** The bytes `uuidV3` hashes: the 16 bytes read from the namespace text,
      then the name. */
  function V3Message(name: seq<byte>, namespace: string): (m: seq<byte>)
    ensures |m| == 16 + |name| && m[16..] == name
    ensures m[..16] == StringToBytes(namespace)
  {
    StringToBytes(namespace) + name
  }

  /** The digest with the version patched into byte 6 and the variant into
      byte 8; every other byte is the digest's. */
  function PatchV3(h: seq<byte>): (p: seq<byte>)
    requires |h| == 16
    ensures |p| == 16
    ensures p[6] / 16 == 3 && p[6] % 16 == h[6] % 16
    ensures p[8] / 64 == 2 && p[8] % 64 == h[8] % 64
    ensures forall i :: 0 <= i < 16 && i != 6 && i != 8 ==> p[i] == h[i]
  {
    h[6 := SetVersion3(h[6])][8 := SetVariantByte(h[8])]
  }

  /** `uuidV3(name, namespaceUUID)`, with the MD5 computation `evp` and the
      outcome of `EVP_MD_CTX_new` as parameters. The 16 `std::stoi` calls
      read 32 digits of the digest text; a text shorter than that (the empty
      text of a failed context, or a short digest) makes one of them throw,
      which is `None` here. */
  function UuidV3(name: seq<byte>, namespace: string, evp: (Hash.Md, seq<byte>) -> seq<byte>,
                  contextCreated: bool): (u: Option<string>)
    ensures u.None? <==> !contextCreated || |evp(Hash.Md5, V3Message(name, namespace))| < 16
    ensures u.Some? ==> IsUuidText(u.value) && u.value[14] == '3' && u.value[19] in "89ab"
  {
    var hex := Hash.Digest(V3Message(name, namespace), evp, contextCreated, Hash.MD5);
    if |hex| < 32 then None
    else
      var p := PatchV3(ParseHexPairs(hex[..32]));
      UuidTextIsCanonical(p);
      V3Markers(p);
      Some(UuidText(p))
  }

  /** The text of bytes with version 3 and variant `10` shows `3` and one of
      `89ab` at the marker positions. */
  lemma {:induction false} V3Markers(p: seq<byte>)
    requires |p| == 16 && p[6] / 16 == 3 && p[8] / 64 == 2
    ensures UuidText(p)[14] == '3' && UuidText(p)[19] in "89ab"
  {
    UuidTextMarkers(p);
    DivDiv(p[8], 16, 4);
    VariantDigit8(p[8] / 16);
  }

  lemma VariantDigit8(v: nat)
    requires 8 <= v < 12
    ensures HexDigit(v) in "89ab"
  {
  }

  /** A version 3 text reads back as the first 16 digest bytes, patched:
      every byte but 6 and 8 is the digest's, and those two keep their low
      nibble and low six bits. */
  lemma {:induction false} StringToBytesOfV3(name: seq<byte>, namespace: string,
                                             evp: (Hash.Md, seq<byte>) -> seq<byte>)
    requires |evp(Hash.Md5, V3Message(name, namespace))| >= 16
    ensures UuidV3(name, namespace, evp, true).Some?
    ensures StringToBytes(UuidV3(name, namespace, evp, true).value)
         == PatchV3(evp(Hash.Md5, V3Message(name, namespace))[..16])
  {
    var out := evp(Hash.Md5, V3Message(name, namespace));
    var hex := Hash.Digest(V3Message(name, namespace), evp, true, Hash.MD5);
    ParseHexPairsPrefix(hex, 16);
    StringToBytesOfText(PatchV3(ParseHexPairs(hex[..32])));
  }
}
