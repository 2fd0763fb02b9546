# uuidkey in Dafny

A model of the UUID key codec of `uuidkey`, with proofs about it. A UUID key writes a
UUID of version 4 or 7 as four groups of seven Crockford Base32 symbols separated by
hyphens, `XXXXXXX-XXXXXXX-XXXXXXX-XXXXXXX`. Group `g` encodes bytes `4g` to `4g + 3`
of the UUID. The codec has four operations:

- `validate(key)` accepts exactly the strings of 31 characters that contain the
  pattern `[0-9A-Z]{7}-[0-9A-Z]{7}-[0-9A-Z]{7}-[0-9A-Z]{7}`.
- `encode(uuid)` refuses anything that is not a UUID of version 7 or 4. Otherwise it
  cuts the 8-4-4-4-12 hex text into four 8-digit chunks, decodes each chunk to four
  bytes, Base32-encodes them, joins the four encodings with `-` and strips the `=`
  padding.
- `decode(key)` refuses what `validate` refuses. Otherwise it pads each group with `=`,
  Base32-decodes it, writes the bytes as hex and re-cuts the 32 digits into 8-4-4-4-12.
- `generate` is `encode` applied to a freshly generated UUID.

The model is purely functional, like the source. Files and modules:

- `text.dfy` (`Text`): the JavaScript string operations the codec uses: `split`,
  `join`, `replaceAll` and `substring`. It also defines ASCII lower-casing. The codec never
  calls it; it is there to state what a round trip gives back, because `encodeHex` writes
  lowercase digits.
- `hex.dfy` (`Hex`): the standard library's hex codec.
- `base32.dfy` (`Base32Crockford`): the standard library's Crockford Base32 codec, for
  the one size the codec uses: 4 bytes, which encode to 7 symbols and one `=`.
- `uuid.dfy` (`Uuid`): the UUID validators `encode` calls, the 16 bytes a UUID
  text stands for, and the canonical lowercase text of 16 bytes.
- `uuidkey.dfy` (`UuidKey`): `validate`, `encode`, `decode` and `generate`, and the
  lemmas that relate them.
- `vectors.dfy` (`Vectors`): the concrete keys and UUIDs of the repository's tests,
  proved one by one.

Errors are values. `Result` is either `Ok` or `Err`, and the error holds one of three
kinds:

- `InvalidUuid`: `encode` refused its input.
- `InvalidUuidKey`: `decode` refused its input.
- `UndecodableKey`: the Base32 decoder refused a symbol.

The source throws an exception in each of these cases.

A UUID's bytes are defined positionally, as `UuidBytes`: byte `k` is hex digits `2k` and
`2k + 1`. The main results:

- `encode` computes the byte partition `KeyOf(UuidBytes(u))`.
- `decode` computes the canonical text of the key's bytes.
- A round trip gives back the UUID in lowercase.
- `decode` is not injective on valid keys, and `encode(decode(k)) == k` fails for some
  valid key `k`. The key `0000001-0000000-0000000-0000000` differs from the all-zero key
  only in the three bits the decoder drops, and both decode to the nil UUID. No string
  encodes to that key, because the last symbol of an encoded group is always `0`, `8`,
  `G` or `R`. This rests on the codecs alone, not on the UUID validators.
- In the model, the nil UUID is also refused by `Encode`, because its version digit is
  0. That fact depends on the validator assumption under "## Left out".

## Model

| member | source | states |
|---|---|---|
| UuidKey.Validate | src/uuidkey.ts:18-21 | a key is valid only if it has exactly 31 characters, so every other length is refused |
| UuidKey.ValidateShape | src/uuidkey.ts:19-20 | on 31 characters the unanchored pattern can only match at offset 0: `validate` holds exactly when indices 7, 15 and 23 are `-` and every other character is in `[0-9A-Z]` |
| UuidKey.Encode | src/uuidkey.ts:29-43 | `encode` fails exactly when the input is neither a UUIDv7 nor a UUIDv4, and the failure is `InvalidUuid` carrying the input |
| UuidKey.SplitUuid | src/uuidkey.ts:36 | splitting a UUID at `-` gives its five hex groups, 8-4-4-4-12 |
| UuidKey.HexGroups | src/uuidkey.ts:36-41 | the four texts `encode` cuts and glues from a UUID in hex layout, `p1`, `p2+p3`, `p4+p5.substring(0, 4)` and `p5.substring(4)`, are each eight hex digits |
| UuidKey.HexGroupBytes | src/uuidkey.ts:36-41 | the four texts `p1`, `p2+p3`, `p4+p5[0..4]` and `p5[4..]` hex-decode to UUID bytes 0-3, 4-7, 8-11 and 12-15 |
| UuidKey.StripPadding | src/uuidkey.ts:37-42 | joining four padded encodings with `-` and deleting every `=` leaves each group's seven symbols, separated by hyphens |
| UuidKey.EncodePartition | src/uuidkey.ts:36-42 | for every UUID of version 4 or 7, the key is `KeyOf` of the UUID's bytes: group `g` is the padding-stripped Base32 encoding of bytes `4g` to `4g + 3` |
| UuidKey.KeyOfShaped | src/uuidkey.ts:37-42 | the key of any 16 bytes has hyphens at 7, 15 and 23 and only Crockford symbols elsewhere |
| UuidKey.EncodeValidates | src/uuidkey.ts:36-42 | every UUID of version 4 or 7 encodes to a key that `validate` accepts |
| UuidKey.Decode | src/uuidkey.ts:51-68 | `decode` fails with `InvalidUuidKey` exactly on the strings that `validate` refuses |
| UuidKey.SplitKey | src/uuidkey.ts:58 | splitting a key-shaped string at `-` gives its four groups of seven |
| UuidKey.DecodeGroup | src/uuidkey.ts:59 | decoding a padded group succeeds exactly when its seven characters are all in the alphabet, and gives four bytes |
| UuidKey.DecodeGroups | src/uuidkey.ts:58-60 | mapping the padded decoder and `encodeHex` over the groups, failing as soon as one group fails; when it succeeds there is one hex text per group |
| UuidKey.DecodeGroupsSome | src/uuidkey.ts:58-60 | mapping the decoder over the groups succeeds exactly when every group is decodable |
| UuidKey.DecodeGroupsValues | src/uuidkey.ts:58-60 | when every group decodes, hex text `i` is the hex encoding of group `i`'s bytes |
| UuidKey.Reassemble | src/uuidkey.ts:61-67 | cutting the four 8-digit hex texts as `decode` does (`p2` and `p3` split 4/4, the tail of `p3` glued to `p4`) gives the canonical 8-4-4-4-12 text of their 16 bytes |
| UuidKey.DecodeValid | src/uuidkey.ts:51-68 | on a valid key, `decode` fails with `UndecodableKey` exactly when some symbol is outside the alphabet; otherwise it returns the canonical text of the key's bytes |
| UuidKey.DecodeLayout | src/uuidkey.ts:51-68 | `decode` fails exactly when `validate` refuses the key or a symbol is outside the alphabet, and its output always has the lowercase 8-4-4-4-12 hex layout |
| UuidKey.KeyGroupBytes | src/uuidkey.ts:38-41 | a key group, padded again, decodes to the four bytes it was encoded from |
| UuidKey.KeyOfBytes | src/uuidkey.ts:37-42 | the bytes a key made from 16 bytes stands for are those 16 bytes |
| UuidKey.RoundTrip | src/uuidkey.ts:29-68 | every UUID of version 4 or 7 encodes, and decoding its key gives the UUID back in lowercase |
| UuidKey.RoundTripLower | test/uuidkey.test.ts:97-107 | `decode(encode(u)) == u` for every lowercase UUID of version 4 or 7 |
| UuidKey.ReverseRoundTrip | src/uuidkey.ts:29-68 | for a key produced by `encode`, decoding it and encoding again gives the same key |
| UuidKey.Generate | src/uuidkey.ts:76-81 | for a supplied UUID, `generate` succeeds exactly when the UUID has version 4 or 7, and returns that UUID with its key |
| UuidKey.GenerateValid | test/uuidkey.test.ts:109-119 | a generated pair's key passes `validate` and decodes to the pair's UUID, in lowercase |
| Uuid.MatchesVersion | src/uuidkey.ts:30 | the standard library's validator pattern for one version, modelled as an anchored, case-insensitive 8-4-4-4-12 hex pattern with a fixed version digit and variant digit `8`, `9`, `a` or `b`; a match has 36 characters and the version digit at index 14 |
| Uuid.IsUuidV7 | src/uuidkey.ts:30 | `validateV7`: the pattern with version digit `7`; an accepted UUID has 36 characters and `7` at index 14 |
| Uuid.IsUuidV4 | src/uuidkey.ts:30 | `validateV4`, assumed to test version 4: the pattern with version digit `4`; an accepted UUID has 36 characters and `4` at index 14 |
| Uuid.VersionLayout | src/uuidkey.ts:30 | a UUID that either validator accepts has the 8-4-4-4-12 hex layout |
| Uuid.LowerKeepsVersion | src/uuidkey.ts:30 | lower-casing a UUIDv4 or UUIDv7 keeps its version and its bytes |
| Uuid.UuidTextBytes | src/uuidkey.ts:58-67 | the canonical text of any 16 bytes is lowercase 8-4-4-4-12 hex and reads back as those bytes |
| Uuid.UuidTextOfBytes | src/uuidkey.ts:36-41 | writing out the bytes of a UUID text gives the text in lowercase |
| Uuid.UuidTextSegments | src/uuidkey.ts:61-67 | the canonical text is the hex of bytes 0-3, 4-5, 6-7, 8-9 and 10-15 joined by hyphens |
| Hex.DecodeHex | src/uuidkey.ts:38-41 | `decodeHex` of an even-length hex text gives half as many bytes |
| Hex.EncodeHex | src/uuidkey.ts:59 | `encodeHex` gives two characters per byte |
| Hex.DecodeHexAt | src/uuidkey.ts:38-41 | byte `i` of `decodeHex(s)` is made of digits `2i` (high nibble) and `2i + 1` (low nibble) |
| Hex.EncodeHexAt | src/uuidkey.ts:59 | digits `2i` and `2i + 1` of `encodeHex(b)` are the high and the low nibble of byte `i` |
| Hex.EncodeHexLower | src/uuidkey.ts:59 | `encodeHex` writes only lowercase hex digits |
| Hex.DecodeEncodeHex | src/uuidkey.ts:1 | hex-decoding what `encodeHex` wrote gives the bytes back |
| Hex.EncodeDecodeHex | src/uuidkey.ts:1 | hex-encoding what `decodeHex` read gives the text back in lowercase |
| Hex.EncodeHexAppend | src/uuidkey.ts:66 | `encodeHex` distributes over concatenation of byte sequences |
| Base32Crockford.EncodeBase32Crockford | src/uuidkey.ts:38-41 | four bytes give eight characters, the last one `=` |
| Base32Crockford.DecodeBase32Crockford | src/uuidkey.ts:59 | seven characters and `=` decode exactly when the seven are all in the alphabet, and then yield four bytes |
| Base32Crockford.SymbolValue | src/uuidkey.ts:2-5 | every symbol of the alphabet sits at its own value, which is below 32 |
| Base32Crockford.SymbolIsAlphabet | src/uuidkey.ts:2-5 | `Symbol(v)` is character `v` of the Crockford alphabet `0123456789ABCDEFGHJKMNPQRSTVWXYZ`, for every value below 32 |
| Base32Crockford.AlphabetSymbol | src/uuidkey.ts:2-5 | the symbol of every value below 32 is in the alphabet and reads back as that value |
| Base32Crockford.GroupsAreDigits | src/uuidkey.ts:38-41 | the seven 5-bit groups of four bytes are the base-32 digits of their 32-bit word shifted left by three zero bits |
| Base32Crockford.EncodeSymbols | src/uuidkey.ts:38-41 | the seven symbols before the `=` are alphabet symbols that spell the groups, and none of them is `=` |
| Base32Crockford.DecodeValue | src/uuidkey.ts:59 | the decoded word is the number the seven symbols spell without its three lowest bits |
| Base32Crockford.WordInjective | src/uuidkey.ts:59 | four bytes are determined by their 32-bit word |
| Base32Crockford.DecodeEncode | src/uuidkey.ts:2-5 | decoding the padded encoding of four bytes gives the four bytes back |
| Text.Split | src/uuidkey.ts:36 | `split` with a one-character separator always gives at least one piece |
| Text.Join | src/uuidkey.ts:42 | `join` of at least one part is as long as the parts together plus one separator between each two |
| Text.Substring | src/uuidkey.ts:40 | `substring(start, end)` is never longer than the string; with both ends in range it is the slice between them, the smaller end first |
| Text.SubstringFrom | src/uuidkey.ts:41 | `substring(start)` is the suffix from `start`, or empty when `start` is past the end |
| Text.JoinSplit | src/uuidkey.ts:36 | joining the pieces of a split with the same separator gives the string back |
| Text.SplitLacks | src/uuidkey.ts:58 | no piece of a split contains the separator |
| Text.SplitFirst | src/uuidkey.ts:36 | when the first separator sits at `k`, the first piece is everything before it and the rest is the split of what follows |
| Text.RemoveAll | src/uuidkey.ts:42 | after `replaceAll(c, "")` no `c` remains and the string is no longer than before |
| Text.RemoveAllAppend | src/uuidkey.ts:42 | removing a character distributes over concatenation |
| Vectors.EncodeSample | test/mod.test.ts:27-37 | `encode("01945655-0794-7259-800b-614c6ea29659") == "06A5CN8-0YA74P8-G05P2K0-DTH9CP8"` |
| Vectors.DecodeSample | test/mod.test.ts:39-52 | `decode("06A5CN8-0YA74P8-G05P2K0-DTH9CP8") == "01945655-0794-7259-800b-614c6ea29659"` |
| Vectors.ValidKeySample | test/uuidkey.test.ts:90-91 | the tests' valid key passes `validate` |
| Vectors.InvalidKeySamples | test/uuidkey.test.ts:10-32 | none of the tests' 18 invalid keys passes `validate`, so `decode` refuses each of them with `InvalidUuidKey` |
| Vectors.ValidV7Sample | test/uuidkey.test.ts:121-122 | the tests' UUIDv7 passes the v7 validator |
| Vectors.InvalidV7Samples | test/uuidkey.test.ts:35-60 | neither validator accepts any of the 21 invalid UUIDv7 texts, so `encode` refuses each of them |
| Vectors.ValidV4Sample | test/uuidkey.test.ts:132-133 | the tests' UUIDv4 passes the v4 validator |
| Vectors.InvalidV4Samples | test/uuidkey.test.ts:63-88 | neither validator accepts any of the 21 invalid UUIDv4 texts, so `encode` refuses each of them |
| Vectors.NilKeyNotEncodable | src/uuidkey.ts:51-68 | the all-zero key is valid and decodes to the nil UUID, which the modelled `Encode` refuses because its version digit is 0 |
| Vectors.LowBitsDropped | src/uuidkey.ts:58-60 | `0000001-0000000-0000000-0000000` differs from the all-zero key and decodes to the same UUID, because the decoder drops a group's last three bits |
| Vectors.DecodeNotInvertible | src/uuidkey.ts:29-68 | `0000001-0000000-0000000-0000000` is valid and decodes, but encoding the decoded UUID does not give it back, whatever `encode` accepts |
| Vectors.NeverLowBits | src/uuidkey.ts:29-43 | no string at all encodes to `0000001-0000000-0000000-0000000` |
| Vectors.KeySeventh | src/uuidkey.ts:37-42 | the seventh symbol of every key made from 16 bytes is `0`, `8`, `G` or `R` |
| Vectors.LastSymbol | src/uuidkey.ts:38-41 | the last symbol of the encoding of four bytes is `0`, `8`, `G` or `R`: it carries two bits and three zero bits |
| Vectors.UndecodableSample | src/uuidkey.ts:52-60 | `I000000-0000000-0000000-0000000` passes `validate`, and `decode` fails on it in the Base32 decoder (`UndecodableKey`) |

## Left out

- `mod.ts`, the command-line front end: argument parsing, console output and the process exit code. These are I/O around the codec.
- UuidKey.Generate: takes the UUID as a parameter. It does not model `generateV7()`, `crypto.randomUUID()` or the `version` argument that chooses between them, because those depend on the clock and on randomness. GenerateValid therefore holds for any supplied UUID of version 4 or 7.
- Hex and Base32Crockford: the standard library's codecs are specified only at the sizes the codec uses. Hex covers even-length hex text; Base32 covers 4 bytes against 7 symbols and one `=`. Their other behaviour is not modelled: other lengths, lenient decoding, and the exact messages of their exceptions.
- Base32Crockford.DecodeBase32Crockford: the library's source is not part of this model. It is assumed to reject any character outside the 32-symbol alphabet and to drop the three trailing bits of the last group. As a result, `validate` admits `I`, `L`, `O` and `U` (see `UndecodableSample`).
- Uuid.MatchesVersion: the standard library's validators are not part of this model. Both are taken to be anchored, case-insensitive patterns for the 8-4-4-4-12 layout with a fixed version digit (`7` or `4`) and the variant digit `8`, `9`, `a` or `b`. Because of the case-insensitivity, `encode` accepts uppercase UUIDs, and RoundTrip returns the UUID in lowercase.
- Uuid.IsUuidV4: `validateV4` is the `validate` exported from the root of the UUID package (src/uuidkey.ts:6), not a function of its v4 module. It is assumed to test for version 4. If it accepts other versions or the nil UUID, two things change. First, `Encode` refuses more inputs than the program does: every syntactically valid UUID of another version, and the nil UUID. Second, the second ensures of `NilKeyNotEncodable` would not hold of the program. `LowBitsDropped` and `DecodeNotInvertible` do not depend on this assumption.
- Error messages: only the kind of error and the rejected input are kept. The message text and the example UUID and key inside it are not modelled.
- Strings are sequences of `char`. Characters beyond ASCII never reach the codec's arithmetic; they only need to fail `validate` or the UUID validators, and they do.
