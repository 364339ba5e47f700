# NekoFunction utilities in Dafny

This project models the stateless utility core of NekoFunction, a header-only
C++ library:

- `neko::util::string`: `toLower`, `toUpper`, `wrapWith`, `getExtensionName`,
  `matchExtensionName(s)` and `convertToUnixPath`.
- `neko::util::logic`: `boolTo`, `allTrue` and `anyTrue`.
- `neko::util::base64`: `base64Encode` and `base64Decode`, modelled as the
  bit-accumulator loops of the source.
- `neko::util::time::parseToUTCTime`: the ISO 8601 timestamp recogniser and the
  conversion to seconds since the epoch.
- `neko::util::uuid`: `uuidV4`, `uuidStringToBytes` and `uuidV3`.
- `neko::util::hash`: the `Algorithm` enumeration, `hashAlgorithmMap`, both
  `mapAlgorithm` overloads, and the hexadecimal rendering done by `digest`.

Each operation is a pure Dafny function, except `matchExtensionNames`, whose
loop is a method. Default arguments of the source (`wrapWith`'s quotes,
`caseSensitive = false`, `boolTo`'s `"true"` and `"false"`, `digest`'s
SHA-256) are Dafny default parameters. Each contract or a lemma relates the
operation to an independent description:

- Base64 encoding is proved equal to the group-of-three definition of
  section 4 of RFC 4648. Decoding inverts it.
- The timestamp recogniser is proved to accept exactly the texts of valid
  stamps and to give back their parts.
- `uuidStringToBytes` inverts both UUID formatters.
- The algorithm names round-trip in both directions.

Modules:

- `Arith`: powers and the uniqueness of division.
- `Bytes`: bytes, hexadecimal digits and bit fields.
- `Strings`
- `Logic`
- `Hash`
- `Base64`
- `Uuid`
- `Iso8601`
- `Wrappers`: `Option`.

Parts of the model that differ from the code:

- Randomness and OpenSSL are parameters:
  - `uuidV4`'s four `uint32_t` words are arguments.
  - `EVP_DigestFinal_ex` is a function `evp(md, data)`.
  - The failure of `EVP_MD_CTX_new` is the boolean `contextCreated`.
- `std::stoi` on a too-short digest text throws. `uuidV3` models that
  exception as the result `None`.
- Case mapping is the "C" locale's: only ASCII letters change.

## Model

| member | source | states |
|---|---|---|
| Strings.ToLower | include/neko/function/utilities.hpp:199-205 | same length; every upper-case ASCII letter becomes its lower-case letter and nothing else changes; no upper-case letter remains |
| Strings.ToUpper | include/neko/function/utilities.hpp:213-219 | same length; every lower-case ASCII letter becomes its upper-case letter and nothing else changes; no lower-case letter remains |
| Strings.ToLowerIdempotent | include/neko/function/utilities.hpp:199-205 | lowering twice is lowering once; a text is unchanged by lowering exactly when it has no upper-case letter |
| Strings.ToUpperIdempotent | include/neko/function/utilities.hpp:213-219 | raising twice is raising once; a text is unchanged by raising exactly when it has no lower-case letter |
| Strings.CaseMappingsAbsorb | include/neko/function/utilities.hpp:199-219 | lowering after raising is lowering, and raising after lowering is raising |
| Strings.ToLowerOfSameIgnoringCase | include/neko/function/utilities.hpp:199-205 | two texts equal up to ASCII case lower to the same text |
| Strings.WrapWith | include/neko/function/utilities.hpp:184-191 | the result is the prefix, then the text, then the suffix, each at its own slice |
| Strings.FindLast | include/neko/function/utilities.hpp:228-230 | `find_last_of`: no position exactly when the character is absent; otherwise the position holds the character and none follows |
| Strings.ExtensionName | include/neko/function/utilities.hpp:227-236 | empty when the name has no `.`; the extension never contains a `.` |
| Strings.ExtensionNameAfterLastDot | include/neko/function/utilities.hpp:227-236 | with a `.` in the name the extension is the text after the last `.`, lowered unless case-sensitive |
| Strings.MatchExtensionName | include/neko/function/utilities.hpp:245-253 | case-sensitive: the extension equals the target; otherwise both compared after lowering |
| Strings.MatchExtensionNames | include/neko/function/utilities.hpp:261-268 | true exactly when some target matches |
| Strings.ConvertToUnixPath | include/neko/function/utilities.hpp:276-281 | same length; every `\` becomes `/`, every other character is kept, so no `\` remains |
| Strings.ConvertToUnixPathIdempotent | include/neko/function/utilities.hpp:276-281 | converting twice is converting once; a path is unchanged exactly when it has no `\` |
| Logic.BoolTo | include/neko/function/utilities.hpp:376-379 | one of the two values; the true value exactly when `v` holds, whenever the two differ |
| Logic.BoolToText | include/neko/function/utilities.hpp:376-379 | `boolTo` at `std::string` with the default texts: `"true"` exactly when `v` holds, else `"false"` |
| Logic.AllTrue | include/neko/function/utilities.hpp:385-387 | true exactly when every argument is true; true for no arguments |
| Logic.AnyTrue | include/neko/function/utilities.hpp:394-396 | true exactly when some argument is true; false for no arguments |
| Logic.AnyTrueIsNotAllFalse | include/neko/function/utilities.hpp:385-396 | `anyTrue` is the negation of `allTrue` of the negated arguments |
| Base64.Symbol | include/neko/function/utilities.hpp:602-605 | `base64Chars[i]`: one of the 64 alphabet characters, never `=`; indices 0-25 are `A`-`Z`, 26-51 `a`-`z`, 52-61 digits |
| Base64.Index | include/neko/function/utilities.hpp:645-648 | the reverse table: -1 or an index whose symbol is the character |
| Base64.IndexOfSymbol | include/neko/function/utilities.hpp:602-605 | every one of the 64 symbols maps back to its index |
| Base64.IndexMissing | include/neko/function/utilities.hpp:645-654 | the table gives -1 exactly for characters outside the alphabet, `=` included |
| Base64.Emit | include/neko/function/utilities.hpp:621-624 | the inner loop emits `bits / 6 + 1` alphabet characters and leaves `bits` between -6 and -1 |
| Base64.EncodeStep | include/neko/function/utilities.hpp:618-625 | one input byte keeps the encoder's accumulator below 2^(bits+6) |
| Base64.Flush | include/neko/function/utilities.hpp:627-629 | one symbol for the leftover bits, none when there are none |
| Base64.Pad | include/neko/function/utilities.hpp:631-633 | `=` appended up to a multiple of 4, fewer than four, the text kept as a prefix |
| Base64.EncodeBytes | include/neko/function/utilities.hpp:618-629 | the loop over the bytes and the final flush emit only alphabet characters |
| Base64.Encode | include/neko/function/utilities.hpp:612-636 | a multiple of four characters: alphabet characters, then `=` only as a suffix of at most three |
| Base64.EncodeGroup | include/neko/function/utilities.hpp:618-625 | three bytes from the start of a group give their four symbols and leave the state as it was |
| Base64.EncodeIsRfc4648 | include/neko/function/utilities.hpp:612-636 | the encoder equals the group-of-three encoding of section 4 of RFC 4648 |
| Base64.EncodeLength | include/neko/function/utilities.hpp:612-636 | the text has 4·⌈n/3⌉ characters |
| Base64.EncodePadded | include/neko/function/utilities.hpp:612-636 | the text is alphabet characters followed by exactly (3 - n mod 3) mod 3 `=` |
| Base64.DecodeStep | include/neko/function/utilities.hpp:655-661 | one symbol emits a byte exactly when eight bits are pending |
| Base64.AlphabetPrefix | include/neko/function/utilities.hpp:652-654 | the longest prefix of alphabet characters |
| Base64.DecodeChars | include/neko/function/utilities.hpp:650-662 | at most one byte per character read |
| Base64.Decode | include/neko/function/utilities.hpp:643-665 | ⌊6k/8⌋ bytes, where k is the length of the alphabet prefix of the text |
| Base64.DecodeReadsAlphabetPrefix | include/neko/function/utilities.hpp:652-654 | the decoder stops at the first character outside the alphabet |
| Base64.DecodePrefix | include/neko/function/utilities.hpp:643-665 | decoding reads only the alphabet prefix of k characters and yields ⌊6k/8⌋ bytes |
| Base64.DecodeGroup | include/neko/function/utilities.hpp:652-662 | four symbols of a group decode to its three bytes |
| Base64.DecodeRfc4648 | include/neko/function/utilities.hpp:643-665 | decoding the RFC 4648 encoding gives the bytes back |
| Base64.DecodeEncode | include/neko/function/utilities.hpp:612-665 | `base64Decode(base64Encode(x)) == x` for every byte string |
| Base64.HelloExample | tests/NekoFunction_test.cpp:142-150 | "Hello" encodes to "SGVsbG8=" and decodes back |
| Bytes.ByteHex | include/neko/function/hash.hpp:123 | two lower-case hexadecimal digits whose value is the byte |
| Bytes.HexOf | include/neko/function/hash.hpp:121-125 | two lower-case hexadecimal digits per byte |
| Bytes.HexOfAppend | include/neko/function/hash.hpp:121-125 | the rendering of a concatenation is the concatenation of renderings |
| Bytes.ParseHexOf | include/neko/function/uuid.hpp:114-117 | reading back the pairs of a rendering gives the bytes |
| Bytes.HexOfParse | include/neko/function/uuid.hpp:114-117 | rendering the bytes read from lower-case pairs gives the text |
| Bytes.ParseHexPairs | include/neko/function/uuid.hpp:114-117 | one byte per pair; byte i has digit 2i as high and digit 2i+1 as low nibble |
| Bytes.ParseHexPairsPrefix | include/neko/function/uuid.hpp:114-117 | the first k pairs give the first k bytes |
| Bytes.PairValue | include/neko/function/uuid.hpp:116 | a pair of digits is the byte with that high and low nibble |
| Bytes.HexValueIgnoresCase | include/neko/function/uuid.hpp:72-75 | `A`-`F` have the values of `a`-`f` |
| Bytes.HexN | include/neko/function/uuid.hpp:50 | `%0Nx` of a value below 16^N: exactly N lower-case hexadecimal digits |
| Bytes.HexNDigit | include/neko/function/uuid.hpp:50 | digit i of `%0Nx` is the value's base-16 digit of weight 16^(N-1-i) |
| Bytes.HexNSplit | include/neko/function/uuid.hpp:50-53 | `%0(a+b)x` of n is `%0ax` of the high part followed by `%0bx` of the low part |
| Bytes.SetBits | include/neko/function/uuid.hpp:44-45 | `(x & ~field) \| (v << lo)`: bits below and above the field kept, the field holds v |
| Hash.NamedAreTheKeys | include/neko/function/hash.hpp:35-50 | the table's keys are exactly the algorithms other than `none`, with distinct names |
| Hash.FindByName | include/neko/function/hash.hpp:57-64 | `none` exactly when no key has the name; otherwise a key with that name |
| Hash.AlgorithmFromName | include/neko/function/hash.hpp:57-64 | `none` exactly for texts that are not a name in the table; otherwise the algorithm of that name |
| Hash.AlgorithmName | include/neko/function/hash.hpp:71-78 | "unknown" exactly for `none`; otherwise a name in the table that maps back to the algorithm |
| Hash.NameRoundTrips | include/neko/function/hash.hpp:57-78 | name-to-algorithm and algorithm-to-name are inverse on the table; other texts come back as "unknown" |
| Hash.UnknownIsNoName | include/neko/function/hash.hpp:57-64 | "unknown" and "MD5" are not names; "sha256" is SHA-256 |
| Hash.SelectMd | include/neko/function/hash.hpp:93-109 | no handle exactly for `none`; MD5, SHA-1, SHA-256 and SHA-512 each select their own handle and no other |
| Hash.Digest | include/neko/function/hash.hpp:88-126 | lower-case hexadecimal, two digits per output byte, reading back to the digest bytes; empty for `none` or a failed context |
| Uuid.SetVersion4 | include/neko/function/uuid.hpp:44 | bits 12-15 become 4; the low 12 bits and the high 16 bits are kept |
| Uuid.SetVariant | include/neko/function/uuid.hpp:45 | the top two bits become `10`; the low 30 bits are kept |
| Uuid.UuidV4 | include/neko/function/uuid.hpp:35-56 | 36 characters: dashes at 8, 13, 18 and 23, lower-case hexadecimal elsewhere; character 14 is `4` and character 19 is one of `89ab` |
| Uuid.FormatV4 | include/neko/function/uuid.hpp:47-54 | the `snprintf` text: 36 characters with dashes at 8, 13, 18 and 23 |
| Uuid.FormatV4IsUuidText | include/neko/function/uuid.hpp:47-54 | the `snprintf` layout of four words is the dashed hexadecimal text of their 16 big-endian bytes |
| Uuid.V4Markers | include/neko/function/uuid.hpp:43-54 | after the masking the version digit is `4` and the variant digit is one of `89ab` |
| Uuid.StringToBytesOfV4 | include/neko/function/uuid.hpp:35-93 | `uuidStringToBytes` of a v4 text gives back the 16 big-endian bytes of the masked words |
| Uuid.DashedHexFrom | include/neko/function/uuid.hpp:122-129 | its length: two characters per byte from i on plus one per dash still ahead |
| Uuid.DashedHexTail | include/neko/function/uuid.hpp:122-129 | after the last dash (from byte 10 on) the text is exactly the hexadecimal rendering of the remaining bytes |
| Uuid.UuidText | include/neko/function/uuid.hpp:122-129 | 16 bytes render to 36 characters |
| Uuid.UuidTextGroups | include/neko/function/uuid.hpp:122-129 | the text is the rendering of the 4-, 2-, 2-, 2- and 6-byte groups joined by `-` |
| Uuid.UuidTextIsCanonical | include/neko/function/uuid.hpp:122-129 | the dashed rendering of 16 bytes has the canonical 8-4-4-4-12 layout |
| Uuid.UuidTextMarkers | include/neko/function/uuid.hpp:122-129 | characters 14 and 19 are the high digits of bytes 6 and 8 |
| Uuid.ParseBytes | include/neko/function/uuid.hpp:66-91 | at most `room` bytes are written |
| Uuid.StringToBytes | include/neko/function/uuid.hpp:63-93 | 16 bytes: those parsed first, then zeros |
| Uuid.SkipDash | include/neko/function/uuid.hpp:67-68 | a `-` is skipped |
| Uuid.SkipNonHex | include/neko/function/uuid.hpp:76-77 | a character that is neither `-` nor a hexadecimal digit, met in the high position, is skipped |
| Uuid.HighThenNonHex | include/neko/function/uuid.hpp:78-90 | a high digit followed by a non-hexadecimal character other than `-` makes one byte with low nibble 0, and both characters are consumed |
| Uuid.HighThenDash | include/neko/function/uuid.hpp:78-90 | a high digit followed by `-` or by the end makes one byte with low nibble 0, and the `-` is left for the next step |
| Uuid.ParseDigitPairs | include/neko/function/uuid.hpp:66-91 | a run of hexadecimal pairs parses to the bytes the pairs spell |
| Uuid.ParsePrinted | include/neko/function/uuid.hpp:66-91 | the rendering of some bytes parses back to those bytes |
| Uuid.StringToBytesOfText | include/neko/function/uuid.hpp:63-93 | `uuidStringToBytes` inverts the dashed rendering of 16 bytes |
| Uuid.ParseIgnoresCase | include/neko/function/uuid.hpp:70-86 | parsing a lowered text gives the same bytes |
| Uuid.StringToBytesIgnoresCase | include/neko/function/uuid.hpp:63-93 | lowering or raising the text does not change the bytes |
| Uuid.SetVersion3 | include/neko/function/uuid.hpp:119 | the high nibble becomes 3; the low nibble is kept |
| Uuid.SetVariantByte | include/neko/function/uuid.hpp:120 | the top two bits become `10`; the low six bits are kept |
| Uuid.V3Message | include/neko/function/uuid.hpp:107-110 | the 16 bytes `uuidStringToBytes` gives for the namespace, followed by the name |
| Uuid.PatchV3 | include/neko/function/uuid.hpp:119-120 | only bytes 6 and 8 change: version nibble 3, variant bits `10` |
| Uuid.UuidV3 | include/neko/function/uuid.hpp:105-134 | no result exactly when the digest is unavailable or too short; otherwise a canonical text with `3` at 14 and one of `89ab` at 19 |
| Uuid.V3Markers | include/neko/function/uuid.hpp:119-129 | patched bytes render with version digit `3` and a variant digit in `89ab` |
| Uuid.StringToBytesOfV3 | include/neko/function/uuid.hpp:105-129 | `uuidStringToBytes` of the v3 text gives the patched first 16 digest bytes |
| Iso8601.DigitRun | include/neko/function/utilities.hpp:529 | `\d+`: the longest run of leading digits |
| Iso8601.ParseZone | include/neko/function/utilities.hpp:529 | an accepted zone is valid and is exactly the text |
| Iso8601.ParseTail | include/neko/function/utilities.hpp:529 | an accepted fraction and zone are valid and together are exactly the text |
| Iso8601.ParseHead | include/neko/function/utilities.hpp:529 | an accepted head is a valid date and time whose text is the first 19 characters |
| Iso8601.Parse | include/neko/function/utilities.hpp:529-534 | a match is a valid stamp whose text is the whole input |
| Iso8601.ZoneRoundTrip | include/neko/function/utilities.hpp:529 | every valid zone text is recognised as that zone |
| Iso8601.TailRoundTrip | include/neko/function/utilities.hpp:529 | every valid fraction followed by a zone is recognised as those parts |
| Iso8601.ParseRender | include/neko/function/utilities.hpp:529-534 | every valid stamp's text matches with the stamp's parts as the groups |
| Iso8601.RejectsExactlyNonStamps | include/neko/function/utilities.hpp:529-534 | no result exactly when the text is the text of no valid stamp |
| Iso8601.DecimalValue | include/neko/function/utilities.hpp:537-542 | `std::stoi` of n digits is below 10^n |
| Iso8601.EpochIsDayZero | include/neko/function/utilities.hpp:464-471 | 1970-01-01 is day 0 |
| Iso8601.NextDay | include/neko/function/utilities.hpp:464-471 | the next day of the month is the next day number |
| Iso8601.NextMonth | include/neko/function/utilities.hpp:464-471 | the first of the next month is as many days on as the month has |
| Iso8601.NextYear | include/neko/function/utilities.hpp:464-471 | 1 January follows 1 December by 31 days |
| Iso8601.MarchYear | include/neko/function/utilities.hpp:464-471 | a March-based year has 365 days, 366 when the next year is a leap year |
| Iso8601.TimegmInRange | include/neko/function/utilities.hpp:537-547 | for in-range fields `timegm` is days·86400 plus the seconds of the day |
| Iso8601.TimegmCarriesMonths | include/neko/function/utilities.hpp:464-471 | twelve months more is one year more |
| Iso8601.OffsetSeconds | include/neko/function/utilities.hpp:551-555 | zero without an offset; otherwise within ±(99·3600+99·60) |
| Iso8601.OffsetShiftsInstant | include/neko/function/utilities.hpp:545-562 | `+hh:mm` subtracts the offset from the `Z` value, `-hh:mm` adds it, no zone equals `Z` |
| Iso8601.ParseToUtcTime | include/neko/function/utilities.hpp:527-565 | no result exactly when the text does not match; otherwise the seconds of a valid stamp with that text |
| Iso8601.ParseToUtcTimeOfRender | include/neko/function/utilities.hpp:527-565 | the text of any valid stamp gives that stamp's seconds |
| Iso8601.EpochStamp | include/neko/function/utilities.hpp:545-559 | fields reading 1970-01-01 00:00:00 give 0 with `Z` or no zone, and minus the offset otherwise |

## Left out

- The pattern-driven archive selection and construction layer is not part of
  this model. Its code is not among the modelled files.
- These parts of the library are left out:
  - the `neko::ops` pipeline helpers and the memory helpers;
  - the `random` generators;
  - the clock and locale functions (`getUtcNow`, `timeToString`,
    `getLocalTimeString`, `getUtcZTimeString`, `toLocalTm`,
    `parseToUTCTimeString`, `parseToLocalTimeString`);
  - the regular-expression validators (`isUrl`, `isProxyAddress`,
    `matchResolution`);
  - `exec.h`.

  They are I/O, randomness, the clock or regular-expression engines, not
  logic of the modelled core.
- `digestFile` is left out. It reads a file and then calls `digest`, which is
  modelled.
- The internals of OpenSSL's EVP are left out. The digest bytes are the
  parameter `evp`. Their lengths (16, 20, 32 and 64) are stated only as
  assumptions in `Hash.DigestLength`.
- `uuidV4`'s random generator is left out. The four words are parameters.
- Non-ASCII case mapping and `std::wstring` are left out. The model uses the
  "C" locale on `char` only.
- The C++ `int` accumulators of `base64Encode` and `base64Decode` are not
  modelled bit for bit:
  - `val << 8` and `val << 6` overflow after a few bytes.
  - The model keeps only the low pending bits.
  - The mask `& 0x3F` or `& 0xFF` reads only those bits, so the output is the
    same.
- Iso8601.ParseToUtcTime: the `gmtime` then `timegm` round trip of lines
  560-561 is taken as the identity. That holds for every `time_t` that
  `gmtime` can represent. The model follows the POSIX `timegm` branch of
  lines 464-471. The Windows branch, `_mkgmtime`, returns -1 for dates before
  1970 or after 3000; that is not modelled.
- Iso8601.ParseToUtcTime: `std::stoi` of the four-digit year and two-digit
  fields never overflows, so it is a plain decimal value. The 64-bit range of
  `time_t` is not modelled.
- Iso8601.Parse: `std::regex_match` is replaced by a hand-written recogniser.
  Its language and groups are proved to be exactly those of the valid stamps.
  The regex engine itself is not modelled.
- Uuid.UuidV3: when the digest text is shorter than 32 characters, the source
  throws from `std::stoi`. The model returns `None`, and the kind of exception
  is not modelled.
- Uuid.UuidV3: the default namespace argument
  `6ba7b810-9dad-11d1-80b4-00c04fd430c8` is not given as a constant. The
  namespace is always an argument.
- Hash.DigestLength: its precondition assumes the output length of each
  algorithm. The lengths come from OpenSSL, not from the modelled code.
