# Base32 encoder (tuupola/base32) in Dafny

A model of the Base32 codec of tuupola/base32: `PhpEncoder`, and the
constructor and byte path of `GmpEncoder`. The codec is configured by a
32-character set, an optional padding character and a Crockford flag. It
offers four operations:

- `encode`: bytes to text;
- `decode`: text to bytes;
- `encodeInteger`: an integer to text;
- `decodeInteger`: text to an integer.

The model covers:

- the constructor's defaults and character-set check;
- the bit-level algorithms: 5-bit groups, the right-fill of the last group,
  padding to a multiple of 8, Crockford normalisation, the validity check,
  skipping padding characters, and dropping an incomplete last byte;
- the places where PHP's `empty()` treats the string "0" as empty;
- the GMP encoder's big-integer route to the same text.

Modules, one per file:

| file | module | contents |
|---|---|---|
| results.dfy | Results | `Option`, `Result`, the error kinds |
| bits.dfy | Bits | bit strings; `bindec`, `decbin`, `sprintf("%0Nb")`, `str_pad`, `str_split` |
| bytes.dfy | Bytes | bytes, the per-byte bit string, `gmp_import`'s big-endian integer |
| config.dfy | Config | the alphabet constants, PHP's `empty()` on strings, the options and the constructor |
| codec.dfy | Codec | `PhpEncoder`'s four operations and lemmas about their pieces |
| roundtrip.dfy | RoundTrip | byte and integer round trips |
| gmp.dfy | Gmp | `GmpEncoder::encode` on bytes, equal to `PhpEncoder::encode` |
| arith.dfy | Arithmetic | symbol i computed from the two bytes that hold it; used by the vectors |
| findings.dfy | Findings | the `empty("0")` discrepancies, as written and corrected |
| vectors.dfy | Vectors | section 10 of RFC 4648, the repository's test vectors, the tested configurations |

Where the code departs from what RFC 4648 and the repository's own tests
lead one to expect, the model follows the code:

- Section 6 of RFC 4648 encodes every octet sequence, and the round-trip
  tests (tests/Base32Test.php:247-334) decode each encoding back. The code
  encodes the one-byte string "0" as "", because `empty("0")` is true
  (src/Base32/PhpEncoder.php:46).
- The integer round-trip tests decode what `encodeInteger` produces. The
  code throws whenever `encodeInteger` yields "0", for instance for 0 under
  the GMP set without padding (src/Base32/PhpEncoder.php:169).
- The comment at src/Base32/PhpEncoder.php:94 says text with characters
  outside the set is refused. The code returns no bytes for the text "0"
  before that check (src/Base32/PhpEncoder.php:85), even where '0' is not
  a symbol.

These three cases are listed under Findings.

## Model

| member | source | states |
|---|---|---|
| Config.Configure | src/Base32/GmpEncoder.php:53-61 | The constructor succeeds exactly when the character set (RFC 4648 by default) has 32 characters and no repeats. On success it keeps that set, the given padding (default '=') and the Crockford flag (default off). Otherwise it fails with InvalidConfiguration. |
| Config.DefaultConfiguration | src/Base32/GmpEncoder.php:44-48 | With no options the configuration is the RFC 4648 set, padding '=' and no Crockford normalisation. |
| Config.Default | src/Base32/GmpEncoder.php:44-48 | The default configuration is valid and appends padding. |
| Config.UniqueCountDistinct | src/Base32/GmpEncoder.php:57-58 | The number of distinct characters (`count_chars(_, 3)`) equals the length exactly when no character repeats. |
| Config.PresetsAreValid | src/Base32.php:38-42 | The Crockford, RFC 4648, z-base-32, GMP and hex sets each have no repeated character. |
| Config.RejectsBadCharacterSets | tests/Base32Test.php:379-411 | The constructor rejects a 31-character set and a 33-character set with a duplicated '0'. It also rejects a 32-character set with a duplicate. |
| Config.UniqueCount | src/Base32/GmpEncoder.php:57 | The number of different characters (`count_chars(_, 3)`) never exceeds the length. |
| Config.PhpEmpty | src/Base32/PhpEncoder.php:85 | PHP's `empty()` on a string is true exactly for a string of at most one character that holds nothing but '0', that is "" and "0". The same test guards decodeInteger (line 169). |
| Codec.PhpEmptyBytes | src/Base32/PhpEncoder.php:46 | `empty($data)` on the bytes to encode is true exactly when there is at most one byte and every byte is 0x30: no byte, or the byte "0". |
| Codec.PhpEmptyBits | src/Base32/PhpEncoder.php:143 | `if ($last)` on the popped chunk is false exactly when it has at most one bit and every bit is 0: "" or "0". A chunk "00000" is true. |
| Bytes.ByteBits | src/Base32/PhpEncoder.php:52-54 | `sprintf("%08b", ord($c))` gives exactly 8 bits. Bytes.ByteBitsValue states their value. |
| Bytes.ToBits | src/Base32/PhpEncoder.php:51-54 | The joined per-byte numerals have 8 bits per byte. Bytes.ToBitsByte states which bits belong to which byte. |
| Bytes.ByteBitsValue | src/Base32/PhpEncoder.php:53 | The 8-bit numeral of a byte reads back as the byte, as `bindec` undoes `sprintf("%08b", ord($c))`. |
| Bytes.ToBitsByte | src/Base32/PhpEncoder.php:51-54 | Bits 8i..8i+7 of the joined string are exactly byte i's numeral. |
| Bytes.GmpBits | src/Base32/GmpEncoder.php:80-81 | The GMP encoder's left-filled binary numeral of `gmp_import` is the per-byte bit string `PhpEncoder::encode` builds. |
| Bits.PadLeft | src/Base32/PhpEncoder.php:137 | `str_pad(..., STR_PAD_LEFT)` with "0": the result has max(\|b\|, w) bits, ends with b, and every bit before b is 0. |
| Bits.PadRight | src/Base32/PhpEncoder.php:60 | `str_pad(..., STR_PAD_RIGHT)` with "0": the result has max(\|b\|, w) bits, starts with b, and every bit after b is 0. |
| Bits.PadLastRight | src/Base32/PhpEncoder.php:57-61 | Pop the last chunk and push it back right-filled: every other chunk is unchanged, and the last keeps its bits as a prefix followed by zeros up to k bits. |
| Codec.ByteOf | src/Base32/PhpEncoder.php:123-125 | `chr(bindec($byte))` is the byte whose value the 8 bits spell, and writing that byte back as 8 bits gives the chunk again. |
| Codec.ChunkBytes | src/Base32/PhpEncoder.php:123-125 | One byte per 8-bit chunk, in order, and byte i is the value of chunk i. |
| Codec.EncodeBits | src/Base32/PhpEncoder.php:56-67 | A non-empty bit string gives ceil(\|bits\|/5) symbols, each a character of the set. Codec.Encode states which one. |
| Config.Config.PadsOutput | src/Base32/PhpEncoder.php:70 | Output is padded exactly when a padding character is set and, read as a one-character string, it is not PHP-empty. |
| Codec.Encode | src/Base32/PhpEncoder.php:44-78 | PHP-empty input ("" or the byte "0") gives "". Otherwise symbol i is the set's entry for bits 5i..5i+4 of the big-endian bit string, zero-filled on the right. The symbols are followed by the padding rule. |
| Codec.EncodeText | src/Base32/PhpEncoder.php:50-77 | The text built past the `empty()` check. There are ceil(8n/5) symbols, symbol i encodes group i, and the padding rule holds. |
| Codec.AddPadding | src/Base32/PhpEncoder.php:69-75 | The input is kept as a prefix. With padding on, the fewest padding characters are appended to reach a multiple of 8. With padding off, or with padding "0", nothing is appended. |
| Codec.EncodeGroups | src/Base32/PhpEncoder.php:56-61 | Splitting into 5-bit chunks and right-filling the last one gives ceil(n/5) groups. Group i is the 5-bit window at 5i of the zero-filled bit string. |
| Codec.PadLastIsZeroFill | src/Base32/PhpEncoder.php:56-61 | Right-filling the last chunk is the same as splitting the zero-filled bit string. |
| Codec.Symbols | src/Base32/PhpEncoder.php:63-67 | There is one symbol per group, and symbol i is the set's entry at the value of group i. |
| Codec.Normalize | src/Base32/PhpEncoder.php:89-92 | Crockford normalisation never lengthens the text, and every character it keeps is left unchanged by it. |
| Codec.NormalizeIdempotent | src/Base32/PhpEncoder.php:89-92 | Normalising twice gives the same text as normalising once. |
| Codec.UpperCases | src/Base32/PhpEncoder.php:90 | `strtoupper` maps each lower-case ASCII letter to the same letter in upper case and leaves every other character alone, so no lower-case letter remains. |
| Codec.NormalizeCharCases | src/Base32/PhpEncoder.php:90-91 | Character by character, a dash vanishes, 'o' and 'O' become '0', 'i', 'I', 'l' and 'L' become '1', and every other character becomes its upper case. |
| Codec.Prepare | src/Base32/PhpEncoder.php:89-92 | Without the Crockford flag the text is checked as given. With it the text does not grow, every character left is one that normalisation keeps, and no dash or lower-case letter remains. |
| Codec.IndexOf | src/Base32/PhpEncoder.php:108 | `strpos` gives the first position of the character, and a position below the length exactly when the character occurs. |
| Codec.Accepted | src/Base32/PhpEncoder.php:95-96 | A character passes the `strspn` check exactly when `strpos` finds it in the character set or it is the padding character. |
| Codec.CharBits | src/Base32/PhpEncoder.php:106-110 | The padding character contributes no bits. Any other character contributes 5 bits, and for a symbol their value is the symbol's position in the set. |
| Codec.SymbolBits | src/Base32/PhpEncoder.php:105-112 | The decoder's bit string has 5 bits for each character that is not the padding character. |
| Codec.Unpadded | src/Base32/PhpEncoder.php:105-111 | Removing padding characters leaves no padding character. On accepted text only symbols remain. |
| Codec.SymbolBitsSkipPadding | src/Base32/PhpEncoder.php:105-112 | The decoder's bit string is the 5-bit indexes of the symbols, with every padding character skipped wherever it stands. |
| Codec.BitsToBytes | src/Base32/PhpEncoder.php:114-125 | floor(n/8) bytes come out, and byte i is the value of bits 8i..8i+7. The incomplete last chunk is dropped. |
| Codec.WholeChunksCount | src/Base32/PhpEncoder.php:115-121 | After the incomplete last chunk is dropped, floor(n/8) chunks remain. |
| Codec.WholeChunks | src/Base32/PhpEncoder.php:114-121 | Every chunk kept has 8 bits, and the kept chunks are the `str_split` chunks with at most the last one dropped. |
| Codec.Decode | src/Base32/PhpEncoder.php:83-126 | PHP-empty text gives no bytes. Other text fails, with InvalidCharacters, exactly when a normalised character is neither a symbol nor the padding character. On success byte i is bits 8i..8i+7 of the symbols' bit string. |
| Codec.DecodeText | src/Base32/PhpEncoder.php:89-125 | This is decode past the `empty()` check. It rejects exactly the texts with a character outside the set and the padding character, and its bytes are as for Decode. |
| Codec.DecodeIgnoresPadding | src/Base32/PhpEncoder.php:95-111 | Inserting the padding character anywhere in text that is not PHP-empty (neither "" nor "0") does not change what decode returns, success or failure. Under Crockford normalisation this needs a padding character that normalisation leaves as it is. The excluded "0" differs: it decodes to no bytes, while "0=" goes through the character check. |
| Codec.DecodeLength | src/Base32/PhpEncoder.php:105-125 | Decoding k non-padding symbols yields floor(5k/8) bytes. |
| Codec.DecodeSamePrepared | src/Base32/PhpEncoder.php:89-126 | Two texts that are not PHP-empty (neither "" nor "0") decode alike when their normalised forms are accepted alike and carry the same bits. |
| Codec.IntegerBits | src/Base32/PhpEncoder.php:134-138 | `decbin(n)` is left-filled with zeros to a multiple of 5 bits and keeps the value n. |
| Codec.IntegerDigits | src/Base32/PhpEncoder.php:134-151 | The symbols spell n in base 32. There are ceil(\|decbin(n)\|/5) of them, and a positive n has no leading zero digit. |
| Codec.EncodeInteger | src/Base32/PhpEncoder.php:131-162 | The first ceil(\|decbin(n)\|/5) characters are symbols whose base-32 value is n, with no leading zero digit for n > 0. The padding rule follows. |
| Codec.DecodeInteger | src/Base32/PhpEncoder.php:167-201 | PHP-empty text fails with EmptyInput. Other text fails, with InvalidCharacters, exactly when a normalised character is not accepted. On success the result is the base-32 value of every non-padding symbol. |
| Codec.ReadInteger | src/Base32/PhpEncoder.php:175-200 | This is decodeInteger past the `empty()` check, with the same acceptance condition and value. |
| RoundTrip.EncodeDecode | src/Base32/PhpEncoder.php:44-126 | Under a reversible configuration, decode(encode(d)) is d, except for the PHP-empty inputs, which give no bytes. |
| RoundTrip.DecodeEncodedBytes | src/Base32/PhpEncoder.php:50-77 | The text built for any non-empty byte string has at least 2 characters and decodes back to those bytes. |
| RoundTrip.PaddedText | src/Base32/PhpEncoder.php:69-75 | Appended padding is accepted, left alone by normalisation and skipped on decode. |
| RoundTrip.EncodeBitsDigits | src/Base32/PhpEncoder.php:56-67 | The encoded symbols are set entries whose 5-bit indexes are the zero-filled bit string. |
| RoundTrip.ZeroFillBytes | src/Base32/PhpEncoder.php:114-121 | Cutting the zero-filled bits of n bytes into whole bytes gives the n bytes back. |
| RoundTrip.EncodeDecodeInteger | src/Base32/PhpEncoder.php:131-201 | decodeInteger(encodeInteger(n)) is n unless the encoded text is PHP-empty. In that case it fails with EmptyInput. |
| RoundTrip.IntegerTextEmpty | src/Base32/PhpEncoder.php:131-173 | encodeInteger yields PHP-empty text (then "0") exactly when n < 32, symbol n is '0' and padding is off. |
| RoundTrip.MinimalBound | src/Base32/PhpEncoder.php:134 | `decbin(n)` fits in w bits exactly when n < 2^w. |
| Bytes.GmpBitsArePerByteBits | src/Base32/GmpEncoder.php:80-81 | `gmp_import` written in binary and left-filled to 8 bits per byte is the per-byte bit string, leading zero bytes included. |
| Bytes.ToBitsValue | src/Base32/GmpEncoder.php:80 | The per-byte bit string's value is the big-endian integer `gmp_import` reads. |
| Bits.PadLeftMinimal | src/Base32/GmpEncoder.php:81 | Left-filling `decbin(n)` to w bits gives the w-bit numeral of n whenever n fits. |
| Bits.ToNatFromNat | src/Base32/PhpEncoder.php:109 | Reading the w-bit numeral of n back gives n whenever n < 2^w, so `bindec(sprintf("%05b", i))` is i. |
| Bits.ToNat | src/Base32/PhpEncoder.php:65 | `bindec` of a bit string is below 2 to the power of its length. |
| Bits.FromNat | src/Base32/PhpEncoder.php:109 | `sprintf("%05b")` and `sprintf("%08b")` give exactly that many bits. Their value is stated by Bits.ToNatFromNat. |
| Bits.Minimal | src/Base32/PhpEncoder.php:134 | `decbin(n)` and `gmp_strval(_, 2)` have value n. They are "0" for zero and otherwise start with a 1 bit. |
| Bits.Split | src/Base32/PhpEncoder.php:57 | `str_split(b, k)`: every chunk but the last has k bits, the last has 1 to k bits, and the empty string gives one empty chunk. |
| Bits.SplitFlatten | src/Base32/PhpEncoder.php:57 | Joining the chunks of `str_split(b, k)` gives b back. |
| Bytes.BigEndian | src/Base32/GmpEncoder.php:80 | `gmp_import` reads n bytes as an integer below 2 to the power 8n. |
| Gmp.Encode | src/Base32/GmpEncoder.php:66-104 | The GMP byte path gives exactly the text `PhpEncoder::encode` gives for the same configuration and bytes. |
| Gmp.LeadingZeroBytes | src/Base32/GmpEncoder.php:80-81 | `gmp_import` ignores leading zero bytes, yet the text decodes back to every byte. |
| Arithmetic.GroupValueIsField | src/Base32/PhpEncoder.php:51-65 | The value of group i is bits r..r+4 of the 16-bit big-endian word at byte floor(5i/8), where r = 5i mod 8. |
| Arithmetic.SpelledText | src/Base32/PhpEncoder.php:44-78 | A text whose first ceil(8n/5) characters spell the groups and which obeys the padding rule is the encoder's output. |
| Findings.ZeroByteLost | src/Base32/PhpEncoder.php:46-48 | As written, the byte string "0" encodes to "" under every configuration and comes back as no bytes. |
| Findings.EncodeIntended | src/Base32/PhpEncoder.php:46-48 | Testing only for the empty string, the result is "" exactly for no bytes. It agrees with encode on every input that is not PHP-empty. |
| Findings.EncodeIntendedRoundTrip | src/Base32/PhpEncoder.php:44-126 | The corrected encode round-trips every byte string under a reversible configuration. |
| Findings.ZeroByteIntended | src/Base32/PhpEncoder.php:44-78 | The corrected encode gives "GA======" for the byte string "0". |
| Findings.InvalidZeroAccepted | src/Base32/PhpEncoder.php:85-87 | As written, under the defaults "0" decodes to no bytes although '0' is not accepted, while "00" is rejected. |
| Findings.DecodeIntended | src/Base32/PhpEncoder.php:83-126 | Testing only for the empty string, non-empty text succeeds exactly when every normalised character is accepted. It agrees with decode on everything but "0". |
| Findings.DecodeIntendedRoundTrip | src/Base32/PhpEncoder.php:83-126 | The corrected pair round-trips every byte string. The corrected decode rejects "0" when '0' is neither a symbol nor the padding character. |
| Findings.ZeroIntegerUndecodable | src/Base32/PhpEncoder.php:167-173 | As written, with the GMP set and no padding, 0 encodes to "0" and decoding that fails with EmptyInput. |
| Findings.DecodeIntegerIntended | src/Base32/PhpEncoder.php:167-201 | Testing only for the empty string, only "" fails with EmptyInput. It agrees with decodeInteger on every text but "0". |
| Findings.DecodeIntegerIntendedRoundTrip | src/Base32/PhpEncoder.php:131-201 | With the corrected check every integer up to `PHP_INT_MAX` survives encodeInteger then decodeInteger. |
| Vectors.EncodeF | tests/Base32Test.php:55-119 | "f" encodes to "MY======" on both encoders and decodes back. |
| Vectors.EncodeFo | tests/Base32Test.php:55-119 | "fo" encodes to "MZXQ====" on both encoders and decodes back. |
| Vectors.EncodeFoo | tests/Base32Test.php:55-119 | "foo" encodes to "MZXW6===" on both encoders and decodes back. |
| Vectors.EncodeFoob | tests/Base32Test.php:55-119 | "foob" encodes to "MZXW6YQ=" on both encoders and decodes back. |
| Vectors.EncodeFooba | tests/Base32Test.php:55-119 | "fooba" encodes to "MZXW6YTB" on both encoders and decodes back. |
| Vectors.EncodeFoobar | tests/Base32Test.php:55-119 | "foobar" encodes to "MZXW6YTBOI======" on both encoders and decodes back. |
| Vectors.EncodeHelloWorld | tests/Base32Test.php:176-193 | "Hello world!" encodes to "JBSWY3DPEB3W64TMMQQQ====" on both encoders and decodes back. |
| Vectors.EncodeLeadingZeros | tests/Base32Test.php:194-218 | Bytes 00 00 01 02 03 04 05 06 encode to "AAAACAQDAQCQM===" on both encoders and decode back. |
| Vectors.EncodeCrockford | tests/Base32Test.php:414-436 | Under the Crockford configuration, "Hello world! xx" encodes to "91JPRV3F41VPYWKCCGGJ0Y3R" on both encoders and decodes back. |
| Vectors.UpperCaseSpelling | src/Base32/PhpEncoder.php:89-92 | Normalising the upper-case Crockford text leaves it unchanged. |
| Vectors.LowerCaseSpelling | src/Base32/PhpEncoder.php:89-92 | The lower-case spelling normalises to the upper-case text. |
| Vectors.DashedSpelling | src/Base32/PhpEncoder.php:89-92 | The dashed spelling, with 'l' for '1' and 'o' for '0', normalises to the upper-case text. |
| Vectors.DecodeCrockfordSpellings | tests/Base32Test.php:414-436 | All three spellings decode to "Hello world! xx". |
| Vectors.InvalidDataRejected | tests/Base32Test.php:336-353 | "invalid~data-%@#!@*#-foo" is rejected with InvalidCharacters under the defaults. |
| Vectors.MissingCharacterAccepted | tests/Base32Test.php:355-377 | The constructor accepts the custom set that lacks 'J'. |
| Vectors.MissingCharacterRejected | tests/Base32Test.php:355-377 | With that set, "JBSWY3DPEB3W64TMMQQQ====" is rejected with InvalidCharacters. |
| Vectors.DefaultReversible | src/Base32/GmpEncoder.php:44-48 | The default configuration round-trips: '=' is not an RFC 4648 symbol. |
| Vectors.CrockfordReversible | tests/Base32Test.php:421-425 | The Crockford configuration round-trips, because normalisation leaves every Crockford symbol as it is. |
| Vectors.TestedReversible | tests/Base32Test.php:438-463 | Each of the five tested configurations round-trips. |
| Vectors.CrockfordBreaksRfcRoundTrip | src/Base32/PhpEncoder.php:89-96 | With the RFC 4648 set and the Crockford flag, the byte 0x70 encodes to "OA======". Decode rewrites 'O' to '0', which the set lacks, so the encoder's own output fails with InvalidCharacters, and the configuration is not Reversible. |
| Vectors.TestedRoundTrips | tests/Base32Test.php:121-334 | Under each tested configuration, both encoders agree and decode back for every non-PHP-empty byte string. Every integer from 32 to `PHP_INT_MAX` survives encodeInteger then decodeInteger. |

## Left out

- The `Base32` facade and `Base32Proxy`. They only delegate, and the facade always ends up with `PhpEncoder`. Only the alphabet constants of src/Base32.php are kept.
- The `BaseEncoder` accessors of `PhpEncoder`. That file is not part of this model; `characters()`, `padding()` and `isCrockford()` are taken to return the constructor's options, as in `GmpEncoder`.
- The integer path of `GmpEncoder` (`encodeInteger`, `decodeInteger` and the `$integer` flag). Under strict types it passes an `int` where a `string` is declared, so integer behaviour is modelled from `PhpEncoder`.
- `GmpEncoder::decode` on bytes. Under the modelled `str_split` (before PHP 8.2) it behaves as `PhpEncoder::decode`, so `Codec.Decode` stands for both. The texts differ in three places: it reads `options["crockford"]` directly (src/Base32/GmpEncoder.php:115), it has the `$integer` branch (src/Base32/GmpEncoder.php:140-142), and it lacks the `null !== $last` guard of src/Base32/PhpEncoder.php:119 (src/Base32/GmpEncoder.php:149). From PHP 8.2 on, `str_split("", 8)` returns an empty array, so for text made only of padding characters, such as "=", `GmpEncoder::decode` calls `strlen(null)`, a type error under strict types, where `PhpEncoder::decode` returns "". That behaviour is not modelled.
- Bits.FromNat: the contract states only the width. The value of the numeral is stated separately by Bits.ToNatFromNat, which keeps the many proofs that unfold `FromNat` small.
- Codec.EncodeInteger: negative integers are out of scope. They give two's-complement `decbin` output. The model takes a `nat` at most `PHP_INT_MAX`.
- Codec.DecodeInteger: does not model `bindec` overflowing to a float, and then a type error, for values above `PHP_INT_MAX`. The result is an unbounded `nat`.
- Invalid-character exceptions are one error kind, `InvalidCharacters`. The message listing the offending characters is not modelled.
- Padding is one character or none (`Option<char>`). Multi-character padding strings are not modelled.
- Characters are compared as Dafny `char`s. `strtoupper` is modelled for ASCII letters only, and multibyte text is not modelled.
- `str_split` is modelled as before PHP 8.2, where "" splits into one empty chunk. Either version yields no byte for no bits.
- RoundTrip.EncodeDecode: the round trip is not claimed when Crockford normalisation is on and the set, or the padding character, holds a character normalisation rewrites: I, L, O, a lower-case letter or a dash. Vectors.CrockfordBreaksRfcRoundTrip shows such a configuration rejecting its own output.
- Vectors.TestedRoundTrips: the tests' `random_bytes(128)` payload is covered by the statement for all byte strings. The integer half starts at 32, because below 32 some tested sets spell the PHP-empty "0". RoundTrip.IntegerTextEmpty states exactly when that happens.
- The test suite's Crockford entry in `configurationProvider` spells its flag "crocford". The constructor keeps the unknown key and the flag stays off, so `Tested` lists that configuration without normalisation.

## Findings

| source | as written | input that shows it | evidently intended | confidence | as-written member | corrected member |
|---|---|---|---|---|---|---|
| src/Base32/PhpEncoder.php:46 | `empty($data)` is also true for the one-byte string "0", so encode returns "" | the byte string "0" (0x30) encodes to "" and decodes to no bytes | only the empty string encodes to ""; "0" encodes to "GA======" | high, not executed | Findings.ZeroByteLost | Findings.EncodeIntended, Findings.EncodeIntendedRoundTrip, Findings.ZeroByteIntended |
| src/Base32/PhpEncoder.php:85 | `empty($data)` returns "" for the text "0" before the character check | "0" under the defaults decodes to no bytes, while "00" is rejected | "0" goes through the character check like any other text | high, not executed | Findings.InvalidZeroAccepted | Findings.DecodeIntended, Findings.DecodeIntendedRoundTrip |
| src/Base32/PhpEncoder.php:169 | `empty($data)` throws for the text "0" | 0 under the GMP set without padding encodes to "0", and decoding that throws | only the empty string is refused, and "0" decodes to 0 | high, not executed | Findings.ZeroIntegerUndecodable | Findings.DecodeIntegerIntended, Findings.DecodeIntegerIntendedRoundTrip |
