/** `neko::util::base64`: the Base64 alphabet of section 4 of RFC 4648 with `=`
    padding. `Encode` and `Decode` are the bit-accumulator loops of
    `base64Encode` and `base64Decode`; the accumulator is kept reduced to its pending low bits, which are the only
    bits that reach the output. */
module Base64 {
  import opened Arith
  import opened Bytes

  /** The 64 characters of `base64Chars`. */
  predicate IsSymbolChar(c: char) {
    'A' <= c <= 'Z' || 'a' <= c <= 'z' || '0' <= c <= '9' || c == '+' || c == '/'
  }

  /** `base64Chars[i]`: `A`-`Z`, then `a`-`z`, then `0`-`9`, then `+` and `/`. */
  function Symbol(i: nat): (c: char)
    requires i < 64
    ensures c != '=' && IsSymbolChar(c)
    ensures i < 26 ==> 'A' <= c <= 'Z'
    ensures 26 <= i < 52 ==> 'a' <= c <= 'z'
    ensures 52 <= i < 62 ==> '0' <= c <= '9'
  {
    if i < 26 then ('A' as int + i) as char
    else if i < 52 then ('a' as int + i - 26) as char
    else if i < 62 then ('0' as int + i - 52) as char
    else if i == 62 then '+'
    else '/'
  }

  /** `base64Index[c]`: the position of `c` in the alphabet, or -1. */
  function Index(c: char): (i: int)
    ensures -1 <= i < 64
    ensures i >= 0 ==> Symbol(i) == c
  {
    if 'A' <= c <= 'Z' then c as int - 'A' as int
    else if 'a' <= c <= 'z' then c as int - 'a' as int + 26
    else if '0' <= c <= '9' then c as int - '0' as int + 52
    else if c == '+' then 62
    else if c == '/' then 63
    else -1
  }

  predicate InAlphabet(c: char) {
    Index(c) >= 0
  }

  /** The table is a bijection between positions and alphabet characters. */
  lemma IndexOfSymbol(i: nat)
    requires i < 64
    ensures Index(Symbol(i)) == i
  {
  }

  /** A character is outside the alphabet exactly when no position holds it. */
  lemma IndexMissing(c: char)
    ensures Index(c) == -1 <==> forall j :: 0 <= j < 64 ==> Symbol(j) != c
  {
    if Index(c) == -1 {
      forall j | 0 <= j < 64
        ensures Symbol(j) != c
      {
        IndexOfSymbol(j);
      }
    }
  }

  /** `1 << n` for the shift amounts the loops use, which never exceed six. */
  function Shift(n: nat): (r: nat)
    requires n <= 6
    ensures r > 0
  {
    [1, 2, 4, 8, 16, 32, 64][n]
  }

  // ---------------------------------------------------------------- encoder

  /** Between two input bytes the encoder's counter `bits` is -6, -4 or -2 and
      `bits + 6` bits of the accumulator are still to be written. */
  predicate EncoderState(acc: nat, bits: int) {
    || (bits == -6 && acc == 0)
    || (bits == -4 && acc < 4)
    || (bits == -2 && acc < 16)
  }

  /** The inner `while (bits >= 0)` loop: writes the sextet at `bits`, then the
      one six bits lower, until `bits` is negative; returns the characters and
      the final counter. */
  function Emit(val: nat, bits: int): (out: (string, int))
    requires -6 <= bits <= 6
    ensures bits < 0 ==> out == ([], bits)
    ensures bits >= 0 ==> |out.0| == bits / 6 + 1 && out.1 == bits % 6 - 6
    ensures forall k :: 0 <= k < |out.0| ==> IsSymbolChar(out.0[k])
    decreases bits + 6
  {
    if bits < 0 then ([], bits)
    else
      var rest := Emit(val, bits - 6);
      ([Symbol((val / Shift(bits)) % 64)] + rest.0, rest.1)
  }

  /** The `if (bits > -6)` step after the loop: the pending bits, shifted up to
      a full sextet. */
  function Flush(acc: nat, bits: int): (r: string)
    requires EncoderState(acc, bits)
    ensures |r| == (if bits == -6 then 0 else 1)
    ensures forall k :: 0 <= k < |r| ==> IsSymbolChar(r[k])
  {
    if bits > -6 then [Symbol(((acc * 256) / Shift(bits + 8)) % 64)] else []
  }

  /** One pass of the outer loop: shift in byte `b` and write every complete
      sextet; returns the characters, the pending bits and the counter. */
  function EncodeStep(acc: nat, bits: int, b: byte): (r: (string, nat, int))
    requires EncoderState(acc, bits)
    ensures EncoderState(r.1, r.2)
    ensures forall k :: 0 <= k < |r.0| ==> IsSymbolChar(r.0[k])
  {
    var val := acc * 256 + b;
    var out := Emit(val, bits + 8);
    (out.0, val % Shift(out.1 + 6), out.1)
  }

  /** The outer loop over the input bytes, then the final flush. */
  function EncodeBytes(input: seq<byte>, acc: nat, bits: int): (r: string)
    requires EncoderState(acc, bits)
    ensures forall k :: 0 <= k < |r| ==> IsSymbolChar(r[k])
    decreases |input|
  {
    if |input| == 0 then Flush(acc, bits)
    else
      var step := EncodeStep(acc, bits, input[0]);
      var rest := EncodeBytes(input[1..], step.1, step.2);
      assert forall k :: |step.0| <= k < |step.0 + rest| ==> (step.0 + rest)[k] == rest[k - |step.0|];
      step.0 + rest
  }

  /** The closing `while (encodedString.size() % 4)` loop. */
  function Pad(s: string): (r: string)
    ensures |r| % 4 == 0 && |s| <= |r| < |s| + 4
    ensures r[..|s|] == s
    ensures forall i :: |s| <= i < |r| ==> r[i] == '='
    decreases (4 - |s| % 4) % 4
  {
    if |s| % 4 == 0 then s else Pad(s + ['='])
  }

  /** `base64Encode`: alphabet characters, then `=` up to a multiple of
      four. */
  function Encode(input: seq<byte>): (r: string)
    ensures |r| % 4 == 0
    ensures forall i :: 0 <= i < |r| ==> IsSymbolChar(r[i]) || r[i] == '='
    ensures forall i, j :: 0 <= i < j < |r| && r[i] == '=' ==> r[j] == '='
    ensures forall i :: 0 <= i < |r| - 3 ==> IsSymbolChar(r[i])
  {
    var body := EncodeBytes(input, 0, -6);
    var r := Pad(body);
    assert forall i :: 0 <= i < |body| ==> r[i] == body[i];
    r
  }

  /** Section 4 of RFC 4648: each group of three bytes becomes four
      characters; a final group of one or two bytes becomes two or three
      characters and `=` up to four. */
  function Rfc4648Encode(input: seq<byte>): (r: string)
    ensures |r| == 4 * ((|input| + 2) / 3)
    decreases |input|
  {
    if |input| == 0 then []
    else if |input| == 1 then
      [Symbol(input[0] / 4), Symbol((input[0] % 4) * 16), '=', '=']
    else if |input| == 2 then
      [Symbol(input[0] / 4), Symbol((input[0] % 4) * 16 + input[1] / 16),
       Symbol((input[1] % 16) * 4), '=']
    else
      Quad(input[0], input[1], input[2]) + Rfc4648Encode(input[3..])
  }

  /** The four characters of a full group of three bytes. */
  function Quad(b0: byte, b1: byte, b2: byte): (r: string)
    ensures |r| == 4
  {
    [Symbol(b0 / 4), Symbol((b0 % 4) * 16 + b1 / 16),
     Symbol((b1 % 16) * 4 + b2 / 64), Symbol(b2 % 64)]
  }

  /** The inner loop after the first byte of a group: one sextet. */
  lemma EmitAt2(val: nat)
    ensures Emit(val, 2) == ([Symbol((val / 4) % 64)], -4)
  {
    var rest := Emit(val, -4);
    assert Emit(val, 2) == ([Symbol((val / Shift(2)) % 64)] + rest.0, rest.1);
    assert [Symbol((val / Shift(2)) % 64)] + rest.0 == [Symbol((val / 4) % 64)];
  }

  /** The inner loop after the second byte of a group: one sextet. */
  lemma EmitAt4(val: nat)
    ensures Emit(val, 4) == ([Symbol((val / 16) % 64)], -2)
  {
    var rest := Emit(val, -2);
    assert Emit(val, 4) == ([Symbol((val / Shift(4)) % 64)] + rest.0, rest.1);
    assert [Symbol((val / Shift(4)) % 64)] + rest.0 == [Symbol((val / 16) % 64)];
  }

  /** The inner loop after the third byte of a group: two sextets. */
  lemma EmitAt6(val: nat)
    ensures Emit(val, 6) == ([Symbol((val / 64) % 64), Symbol(val % 64)], -6)
  {
    var last := Emit(val, -6);
    assert Emit(val, 0) == ([Symbol((val / Shift(0)) % 64)] + last.0, last.1);
    assert val / Shift(0) == val;
    assert [Symbol(val % 64)] + last.0 == [Symbol(val % 64)];
    var rest := Emit(val, 0);
    assert rest == ([Symbol(val % 64)], -6);
    assert Emit(val, 6) == ([Symbol((val / Shift(6)) % 64)] + rest.0, rest.1);
    assert [Symbol((val / Shift(6)) % 64)] + rest.0 == [Symbol((val / 64) % 64), Symbol(val % 64)];
  }

  lemma EncodeFirstByte(b: byte)
    ensures EncodeStep(0, -6, b) == ([Symbol(b / 4)], b % 4, -4)
  {
    var val: nat := b;
    EmitAt2(val);
    assert (val / 4) % 64 == val / 4;
  }

  lemma EncodeSecondByte(acc: nat, b: byte)
    requires acc < 4
    ensures EncodeStep(acc, -4, b) == ([Symbol(acc * 16 + b / 16)], b % 16, -2)
  {
    var val: nat := acc * 256 + b;
    EmitAt4(val);
    assert val == (acc * 16 + b / 16) * 16 + b % 16;
    SplitAt(acc * 16 + b / 16, b % 16, 16);
    SplitAt(0, acc * 16 + b / 16, 64);
  }

  lemma EncodeThirdByte(acc: nat, b: byte)
    requires acc < 16
    ensures EncodeStep(acc, -2, b) == ([Symbol(acc * 4 + b / 64), Symbol(b % 64)], 0, -6)
  {
    var val: nat := acc * 256 + b;
    EmitAt6(val);
    assert val == (acc * 4 + b / 64) * 64 + b % 64;
    SplitAt(acc * 4 + b / 64, b % 64, 64);
    SplitAt(0, acc * 4 + b / 64, 64);
  }

  /** A full group of three bytes leaves the encoder where it started. */
  lemma {:induction false} EncodeGroup(input: seq<byte>)
    requires |input| >= 3
    ensures EncodeBytes(input, 0, -6)
         == Quad(input[0], input[1], input[2]) + EncodeBytes(input[3..], 0, -6)
  {
    var b0, b1, b2 := input[0], input[1], input[2];
    var s1 := input[1..];
    var s2 := s1[1..];
    var tail := s2[1..];
    assert s1[0] == b1 && s2[0] == b2 && tail == input[3..];
    EncodeFirstByte(b0);
    EncodeSecondByte(b0 % 4, b1);
    EncodeThirdByte(b1 % 16, b2);
    var c0, c1 := Symbol(b0 / 4), Symbol((b0 % 4) * 16 + b1 / 16);
    var c2, c3 := Symbol((b1 % 16) * 4 + b2 / 64), Symbol(b2 % 64);
    var t := EncodeBytes(tail, 0, -6);
    var e2 := EncodeBytes(s2, b1 % 16, -2);
    var e1 := EncodeBytes(s1, b0 % 4, -4);
    assert e2 == [c2, c3] + t;
    assert e1 == [c1] + e2;
    assert EncodeBytes(input, 0, -6) == [c0] + e1;
    assert [c0] + ([c1] + ([c2, c3] + t)) == [c0, c1, c2, c3] + t;
    assert Quad(b0, b1, b2) == [c0, c1, c2, c3];
    assert EncodeBytes(input, 0, -6) == Quad(b0, b1, b2) + t;
  }

  lemma {:induction false} PadAfterGroup(q: string, s: string)
    requires |q| % 4 == 0
    ensures Pad(q + s) == q + Pad(s)
    decreases (4 - |s| % 4) % 4
  {
    assert |q + s| % 4 == |s| % 4;
    if |s| % 4 != 0 {
      assert q + s + ['='] == q + (s + ['=']);
      PadAfterGroup(q, s + ['=']);
      assert Pad(q + s) == Pad(q + s + ['=']);
      assert Pad(s) == Pad(s + ['=']);
    }
  }

  /** The first byte of the input writes one character. */
  lemma {:induction false} EncodeFromFirst(input: seq<byte>)
    requires |input| >= 1
    ensures EncodeBytes(input, 0, -6)
         == [Symbol(input[0] / 4)] + EncodeBytes(input[1..], input[0] % 4, -4)
  {
    EncodeFirstByte(input[0]);
  }

  /** The flush after a group's first byte: its two low bits, shifted up. */
  lemma FlushAfterFirst(acc: nat)
    requires acc < 4
    ensures EncodeBytes([], acc, -4) == [Symbol(acc * 16)]
  {
    assert (acc * 256) / 16 == acc * 16;
  }

  /** The flush after a group's second byte: its four low bits, shifted up. */
  lemma FlushAfterSecond(acc: nat)
    requires acc < 16
    ensures EncodeBytes([], acc, -2) == [Symbol(acc * 4)]
  {
    assert (acc * 256) / 64 == acc * 4;
  }

  /** A last byte that is the second of its group: two characters. */
  lemma {:induction false} EncodeLastSecond(acc: nat, b: byte)
    requires acc < 4
    ensures EncodeBytes([b], acc, -4) == [Symbol(acc * 16 + b / 16), Symbol((b % 16) * 4)]
  {
    EncodeSecondByte(acc, b);
    FlushAfterSecond(b % 16);
    assert [b][1..] == [];
  }

  /** A final group of one byte: two characters and two `=`. */
  lemma {:induction false} EncodeOneByte(input: seq<byte>)
    requires |input| == 1
    ensures Encode(input) == Rfc4648Encode(input)
  {
    var b0 := input[0];
    var body := [Symbol(b0 / 4), Symbol((b0 % 4) * 16)];
    EncodeFromFirst(input);
    assert input[1..] == [];
    FlushAfterFirst(b0 % 4);
    assert EncodeBytes(input, 0, -6) == body;
    assert Pad(body + ['=']) == body + ['='] + ['='];
  }

  /** A final group of two bytes: three characters and one `=`. */
  lemma {:induction false} EncodeTwoBytes(input: seq<byte>)
    requires |input| == 2
    ensures Encode(input) == Rfc4648Encode(input)
  {
    var b0, b1 := input[0], input[1];
    var body := [Symbol(b0 / 4), Symbol((b0 % 4) * 16 + b1 / 16), Symbol((b1 % 16) * 4)];
    EncodeFromFirst(input);
    assert input[1..] == [b1];
    EncodeLastSecond(b0 % 4, b1);
    assert EncodeBytes(input, 0, -6) == body;
    assert Pad(body + ['=']) == body + ['='];
  }

  /** `base64Encode` produces exactly the encoding of section 4 of
      RFC 4648. */
  lemma {:induction false} EncodeIsRfc4648(input: seq<byte>)
    ensures Encode(input) == Rfc4648Encode(input)
    decreases |input|
  {
    if |input| == 1 {
      EncodeOneByte(input);
    } else if |input| == 2 {
      EncodeTwoBytes(input);
    } else if |input| >= 3 {
      var q := Quad(input[0], input[1], input[2]);
      var t := EncodeBytes(input[3..], 0, -6);
      EncodeGroup(input);
      PadAfterGroup(q, t);
      EncodeIsRfc4648(input[3..]);
      assert Encode(input) == Pad(q + t) == q + Pad(t);
    }
  }

  /** The length is four characters per started group of three bytes. */
  lemma EncodeLength(input: seq<byte>)
    ensures |Encode(input)| == 4 * ((|input| + 2) / 3)
    ensures |Encode(input)| % 4 == 0
  {
    EncodeIsRfc4648(input);
  }

  /** `r` is alphabet characters followed by `pad` characters `=`. */
  predicate Padded(r: string, pad: nat) {
    && pad <= |r|
    && (forall i :: 0 <= i < |r| - pad ==> InAlphabet(r[i]))
    && (forall i :: |r| - pad <= i < |r| ==> r[i] == '=')
  }

  lemma {:induction false} Rfc4648Padded(input: seq<byte>)
    ensures Padded(Rfc4648Encode(input), (3 - |input| % 3) % 3)
    decreases |input|
  {
    if |input| == 1 {
      assert input == [input[0]];
      PaddedOne(input[0]);
    } else if |input| == 2 {
      assert input == [input[0], input[1]];
      PaddedTwo(input[0], input[1]);
    } else if |input| >= 3 {
      QuadInAlphabet(input[0], input[1], input[2]);
      Rfc4648Padded(input[3..]);
      assert (3 - |input[3..]| % 3) % 3 == (3 - |input| % 3) % 3;
      assert Rfc4648Encode(input) == Quad(input[0], input[1], input[2]) + Rfc4648Encode(input[3..]);
      PaddedAfter(Quad(input[0], input[1], input[2]), Rfc4648Encode(input[3..]), (3 - |input| % 3) % 3);
    }
  }

  lemma PaddedOne(b0: byte)
    ensures Padded(Rfc4648Encode([b0]), 2)
  {
    IndexOfSymbol(b0 / 4);
    IndexOfSymbol((b0 % 4) * 16);
  }

  lemma PaddedTwo(b0: byte, b1: byte)
    ensures Padded(Rfc4648Encode([b0, b1]), 1)
  {
    IndexOfSymbol(b0 / 4);
    IndexOfSymbol((b0 % 4) * 16 + b1 / 16);
    IndexOfSymbol((b1 % 16) * 4);
  }

  lemma QuadInAlphabet(b0: byte, b1: byte, b2: byte)
    ensures forall i :: 0 <= i < 4 ==> InAlphabet(Quad(b0, b1, b2)[i])
  {
    IndexOfSymbol(b0 / 4);
    IndexOfSymbol((b0 % 4) * 16 + b1 / 16);
    IndexOfSymbol((b1 % 16) * 4 + b2 / 64);
    IndexOfSymbol(b2 % 64);
  }

  /** Alphabet characters in front of a padded text keep it padded. */
  lemma PaddedAfter(q: string, rest: string, pad: nat)
    requires forall i :: 0 <= i < |q| ==> InAlphabet(q[i])
    requires Padded(rest, pad)
    ensures Padded(q + rest, pad)
  {
    var r := q + rest;
    forall i | 0 <= i < |r| - pad
      ensures InAlphabet(r[i])
    {
      if i >= |q| {
        assert r[i] == rest[i - |q|];
      }
    }
    forall i | |r| - pad <= i < |r|
      ensures r[i] == '='
    {
      assert r[i] == rest[i - |q|];
    }
  }

  /** The text is alphabet characters followed by `=` padding: none for a
      whole number of groups, else two or one. */
  lemma EncodePadded(input: seq<byte>)
    ensures Padded(Encode(input), (3 - |input| % 3) % 3)
  {
    EncodeIsRfc4648(input);
    Rfc4648Padded(input);
  }

  // ---------------------------------------------------------------- decoder

  /** Between two input characters the decoder's counter `bits` is -8, -6, -4
      or -2 and `bits + 8` bits of the accumulator are pending. */
  predicate DecoderState(acc: nat, bits: int) {
    || (bits == -8 && acc == 0)
    || (bits == -6 && acc < 4)
    || (bits == -4 && acc < 16)
    || (bits == -2 && acc < 64)
  }

  /** One pass of the loop for an alphabet character of position `i`: shift
      in six bits and write a byte once eight are pending; returns the byte
      written, if any, the pending bits and the counter. */
  function DecodeStep(acc: nat, bits: int, i: nat): (r: (seq<byte>, nat, int))
    requires DecoderState(acc, bits) && i < 64
    ensures DecoderState(r.1, r.2)
    ensures |r.0| == (if bits == -8 then 0 else 1)
  {
    var val := acc * 64 + i;
    var b := bits + 6;
    if b >= 0 then ([(val / Shift(b)) % 256], val % Shift(b), b - 8)
    else ([], val, b)
  }

  /** The decoding loop: stop at the first character outside the alphabet,
      otherwise take one step. */
  function DecodeChars(input: string, acc: nat, bits: int): (r: seq<byte>)
    requires DecoderState(acc, bits)
    ensures |r| <= |input|
    decreases |input|
  {
    if |input| == 0 || Index(input[0]) == -1 then []
    else
      var step := DecodeStep(acc, bits, Index(input[0]));
      step.0 + DecodeChars(input[1..], step.1, step.2)
  }

  /** `base64Decode`: `6k/8` bytes from the first `k` characters, those
      before the first one outside the alphabet. */
  function Decode(input: string): (r: seq<byte>)
    ensures |r| == 6 * AlphabetPrefix(input) / 8
  {
    DecodeLengthFrom(input, 0, -8);
    DecodeChars(input, 0, -8)
  }

  /** The number of alphabet characters before the first other character. */
  function AlphabetPrefix(s: string): (k: nat)
    ensures k <= |s|
    ensures forall i :: 0 <= i < k ==> InAlphabet(s[i])
    ensures k < |s| ==> !InAlphabet(s[k])
  {
    if |s| == 0 || !InAlphabet(s[0]) then 0 else 1 + AlphabetPrefix(s[1..])
  }

  /** The decoder reads exactly the alphabet prefix. */
  lemma {:induction false} DecodeReadsAlphabetPrefix(input: string, acc: nat, bits: int)
    requires DecoderState(acc, bits)
    ensures DecodeChars(input, acc, bits) == DecodeChars(input[..AlphabetPrefix(input)], acc, bits)
    decreases |input|
  {
    var k := AlphabetPrefix(input);
    if k > 0 {
      var step := DecodeStep(acc, bits, Index(input[0]));
      assert input[..k][1..] == input[1..][..AlphabetPrefix(input[1..])];
      assert input[..k][0] == input[0];
      DecodeReadsAlphabetPrefix(input[1..], step.1, step.2);
    }
  }

  /** Every eight bits read give one byte: `k` alphabet characters decode to
      `6k/8` bytes, rounded down. */
  lemma {:induction false} DecodeLengthFrom(input: string, acc: nat, bits: int)
    requires DecoderState(acc, bits)
    ensures |DecodeChars(input, acc, bits)| == (bits + 8 + 6 * AlphabetPrefix(input)) / 8
    decreases |input|
  {
    if AlphabetPrefix(input) > 0 {
      var step := DecodeStep(acc, bits, Index(input[0]));
      DecodeLengthFrom(input[1..], step.1, step.2);
    }
  }

  /** `base64Decode` reads the longest prefix of alphabet characters, stopping
      at `=` or any other character, and makes `6k/8` bytes of `k` of them. */
  lemma DecodePrefix(input: string)
    ensures Decode(input) == Decode(input[..AlphabetPrefix(input)])
    ensures |Decode(input)| == 6 * AlphabetPrefix(input) / 8
  {
    DecodeReadsAlphabetPrefix(input, 0, -8);
    DecodeLengthFrom(input, 0, -8);
  }

  /** The first character of a group only fills the accumulator. */
  lemma DecodeFirstChar(b0: byte)
    ensures DecodeStep(0, -8, b0 / 4) == ([], b0 / 4, -2)
  {
  }

  /** The second character of a group completes its first byte. */
  lemma DecodeSecondChar(b0: byte, b1: byte)
    ensures DecodeStep(b0 / 4, -2, (b0 % 4) * 16 + b1 / 16) == ([b0], b1 / 16, -4)
  {
    var x: nat := b0;
    var y: nat := b1;
    var val := (x / 4) * 64 + (x % 4) * 16 + y / 16;
    assert val == x * 16 + y / 16;
    SplitAt(x, y / 16, 16);
    SplitAt(0, x, 256);
  }

  /** The third character of a group completes its second byte. */
  lemma DecodeThirdChar(b1: byte, b2: byte)
    ensures DecodeStep(b1 / 16, -4, (b1 % 16) * 4 + b2 / 64) == ([b1], b2 / 64, -6)
  {
    var x: nat := b1;
    var y: nat := b2;
    var val := (x / 16) * 64 + (x % 16) * 4 + y / 64;
    assert val == x * 4 + y / 64;
    SplitAt(x, y / 64, 4);
    SplitAt(0, x, 256);
  }

  /** The fourth character of a group completes its third byte and empties
      the accumulator. */
  lemma DecodeFourthChar(b2: byte)
    ensures DecodeStep(b2 / 64, -6, b2 % 64) == ([b2], 0, -8)
  {
    var x: nat := b2;
    assert (x / 64) * 64 + x % 64 == x;
    SplitAt(0, x, 256);
  }

  /** Four alphabet characters of a full group give back its three bytes and
      leave the decoder where it started. */
  lemma {:induction false} DecodeGroup(b0: byte, b1: byte, b2: byte, rest: string)
    ensures DecodeChars(Quad(b0, b1, b2) + rest, 0, -8) == [b0, b1, b2] + DecodeChars(rest, 0, -8)
  {
    var i0, i1, i2, i3 := b0 / 4, (b0 % 4) * 16 + b1 / 16, (b1 % 16) * 4 + b2 / 64, b2 % 64;
    IndexOfSymbol(i0);
    IndexOfSymbol(i1);
    IndexOfSymbol(i2);
    IndexOfSymbol(i3);
    DecodeFirstChar(b0);
    DecodeSecondChar(b0, b1);
    DecodeThirdChar(b1, b2);
    DecodeFourthChar(b2);
    var s0 := Quad(b0, b1, b2) + rest;
    var s1 := s0[1..];
    var s2 := s1[1..];
    var s3 := s2[1..];
    assert s0[0] == Symbol(i0) && s1[0] == Symbol(i1) && s2[0] == Symbol(i2) && s3[0] == Symbol(i3);
    assert s3[1..] == rest;
    var t := DecodeChars(rest, 0, -8);
    var d3 := DecodeChars(s3, b2 / 64, -6);
    var d2 := DecodeChars(s2, b1 / 16, -4);
    var d1 := DecodeChars(s1, b0 / 4, -2);
    assert d3 == [b2] + t;
    assert d2 == [b1] + d3;
    assert d1 == [b0] + d2;
    assert DecodeChars(s0, 0, -8) == d1;
  }

  /** A final group of one byte decodes back. */
  lemma {:induction false} DecodeOneByte(input: seq<byte>)
    requires |input| == 1
    ensures Decode(Rfc4648Encode(input)) == input
  {
    var s0 := Rfc4648Encode(input);
    var b0 := input[0];
    IndexOfSymbol(b0 / 4);
    IndexOfSymbol((b0 % 4) * 16);
    DecodeFirstChar(b0);
    DecodeSecondChar(b0, 0);
    var s1 := s0[1..];
    var s2 := s1[1..];
    assert s2[0] == '=';
    assert DecodeChars(s2, 0, -4) == [];
    assert DecodeChars(s1, b0 / 4, -2) == [b0];
  }

  /** A final group of two bytes decodes back. */
  lemma {:induction false} DecodeTwoBytes(input: seq<byte>)
    requires |input| == 2
    ensures Decode(Rfc4648Encode(input)) == input
  {
    var s0 := Rfc4648Encode(input);
    var b0, b1 := input[0], input[1];
    IndexOfSymbol(b0 / 4);
    IndexOfSymbol((b0 % 4) * 16 + b1 / 16);
    IndexOfSymbol((b1 % 16) * 4);
    DecodeFirstChar(b0);
    DecodeSecondChar(b0, b1);
    DecodeThirdChar(b1, 0);
    var s1 := s0[1..];
    var s2 := s1[1..];
    var s3 := s2[1..];
    assert s3[0] == '=';
    assert DecodeChars(s3, 0, -6) == [];
    assert DecodeChars(s2, b1 / 16, -4) == [b1];
    assert DecodeChars(s1, b0 / 4, -2) == [b0, b1];
  }

  /** Decoding undoes the encoding of section 4 of RFC 4648. */
  lemma {:induction false} DecodeRfc4648(input: seq<byte>)
    ensures Decode(Rfc4648Encode(input)) == input
    decreases |input|
  {
    if |input| == 1 {
      DecodeOneByte(input);
    } else if |input| == 2 {
      DecodeTwoBytes(input);
    } else if |input| >= 3 {
      DecodeGroup(input[0], input[1], input[2], Rfc4648Encode(input[3..]));
      DecodeRfc4648(input[3..]);
      assert input == [input[0], input[1], input[2]] + input[3..];
    }
  }

  /** Decoding undoes encoding: `base64Decode(base64Encode(s)) == s`. */
  lemma DecodeEncode(input: seq<byte>)
    ensures Decode(Encode(input)) == input
  {
    EncodeIsRfc4648(input);
    DecodeRfc4648(input);
  }

  /** The reference encoding of the bytes of "Hello". */
  lemma HelloReference()
    ensures Rfc4648Encode([72, 101, 108, 108, 111]) == "SGVsbG8="
  {
    var hello: seq<byte> := [72, 101, 108, 108, 111];
    assert hello[3..] == [108, 111];
    assert Quad(72, 101, 108) == "SGVs" by {
      assert Symbol(18) == 'S' && Symbol(6) == 'G' && Symbol(21) == 'V' && Symbol(44) == 's';
    }
    assert Rfc4648Encode([108, 111]) == "bG8=" by {
      assert Symbol(27) == 'b' && Symbol(6) == 'G' && Symbol(60) == '8';
    }
  }

  /** The example of the library's tests: "Hello" encodes to "SGVsbG8=" and
      decodes back. */
  lemma HelloExample()
    ensures Encode([72, 101, 108, 108, 111]) == "SGVsbG8="
    ensures Decode("SGVsbG8=") == [72, 101, 108, 108, 111]
  {
    var hello: seq<byte> := [72, 101, 108, 108, 111];
    HelloReference();
    EncodeIsRfc4648(hello);
    DecodeEncode(hello);
  }
}
