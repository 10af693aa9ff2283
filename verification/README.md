# Verified model of the codec and key arithmetic of go-cardano-serialization

This project models four parts of the repository in Dafny and proves what they compute:

* **CBOR** (`internal/bech32/cbor`): the validator, the unchecked reader that relies on it, the streaming
  decoder with its buffer, the encoder, and the native scripts built on top (`tx/script.go`);
* **Curve25519 arithmetic and keys** (`crypto/edwards25519`, `bip32`): ten-limb field elements, scalars
  modulo the group order, the two scalar multiplications, key derivation and signing;
* **Bech32** (`internal/bech32/bech32.go`): bit regrouping, the checksum, encoding and decoding;
* **pointer addresses** (`address/pointer.go`, the pointer branch of `address/address.go`).

`dafny verify dfyconfig.toml` checks everything.

## How the parts fit together

**CBOR.** `CborItems` defines the tree of a data item with the width of every head and definite or
indefinite length, and the relation `Spells` between bytes and trees (section 3 of RFC 8949). `CborScan`
is the validator as a function; it accepts exactly the well-formed trees within the mode's limits.
`CborDecoder` holds the code: the validating methods are proved equal to that function, and the reading
methods, which check no bounds, are proved to stay within the data and to end at the item's end on every
well-formed item, even when they return an error. `CborValues` says what an item means: the value handed out
and the first error. `CborStream` is the streaming decoder: what a call returns is a function of the bytes
ahead, so neither the way the reader cuts the stream nor the state of the buffer matters. `CborEncode`
gives the tree that is written for a value (`ImageOf`), `CborEncoder` the code that writes it,
`CborSameValue` compares the value read back with the value written, `CborCanonical` shows that canonical trees and
values determine each other, and `CborRoundTrip` puts them together with the decoder: the round trip, writing
what was decoded, and the independence of canonical bytes from iteration order. `CborNesting` compares the documented nesting
limit with the one the validator keeps.
`NativeScripts` and `NativeScriptCodec` add the recursive script tree.

The definitions that these statements rest on are tied down from outside: `CborFaults` says what each failure of the
validator means, `CborNumbers` and `CborKeyOrder` what the byte order and the key order are, `CborMeaning` what
arrays, maps and tags mean without following the reader, `CborKnown` and `NativeScriptKnown` what every value and
every script is as bytes.

**Arithmetic.** Go's integer types are subset types (`MachineInts`): whatever is stored is proved to fit, so
the carry chains cannot overflow. Where the code relies on wrapping, the wrap is written out. A limb array has
the value that the comment at edwards25519.go:12-15 gives it. The long unrolled statement lists of the source
(products, carries, folds, packing) are loops or index formulas here, and an `or` of numbers that share no
bits is a sum (`OrDisjoint` checks that they share none). Curve points are elements of any abelian group. The
entries of the table of base multiples are words, and it is assumed that they stand for these multiples, that an
entry with its first two fields swapped and the third negated stands for the negated point, and that the entry
(1, 1, 0) stands for zero; `ScalarMultEntries` shows the last two for entries of the form (y + x, y - x, 2dxy). Hash
functions are parameters with fixed output lengths.

**Strings** of the Bech32 module are ASCII bytes. `Bech32Field` shows which checksum the code computes, a remainder of
polynomials over the field of 32 elements, and `Bech32Known` which characters stand for the symbols. The code does not enforce the limit of 90 characters, so the
statements hold for every length.

## Where code and documentation differ

* Nesting: the documentation of `MaxNestedLevels` (decode.go:289) speaks of any combination of arrays, maps and
  tags. The validator does not count the first tag of a run of nested tags, only the further ones; `CborItems.Nest`
  follows the code and `CborNesting.Levels` the documentation. `CborNesting.TowerIsAccepted` is an input with twice
  the documented levels and one more; the limit works as documented exactly for the trees with a deepest path that
  meets no tag (`CborNesting.NestingLimit`), and for everything that a mode accepts exactly if the mode forbids
  tags (`CborNesting.ModeLimitsLevels`).
* `NewXPrv` says that a key whose third highest bit is set is discarded; the code clears the bit. The key is the
  one described exactly if that bit of the hash is clear (`Bip32.NewXPrv`).
* A CBOR tag with number 0 and no content is written as null (encode.go:1240-1244) and so decoded as null
  (`CborRoundTrip.TagIsLost`). Among the values of `CborRoundTrip.Plain`, which have this one and otherwise no tag that
  the decoder treats specially, those without it are exactly the ones that are decoded as the same value
  (`CborRoundTrip.DecodeOfEncode`).
* A number in a pointer address is also accepted with leading zero digits or beyond 64 bits (it then wraps), and
  an unknown network is read as the zero network (`PointerAddress.LeadingZeroIsDropped`, `LargeNumberWraps`,
  `UnknownNetwork`). `PointerAddress.BytesOfRead` gives the exact condition on the bytes for an address that is read
  to be written as those bytes again.
* Bech32: an upper-case string whose prefix has no letter is written back in lower case
  (`Bech32Codec.UpperCaseIsLost`); `Bech32Codec.EncodeDecode` gives the exact condition.

## Model

| member | source | states |
|---|---|---|
| ScalarMulAdd.ScMulAdd | crypto/edwards25519/edwards25519.go:1026-1449 | the output is exactly (a * b + c) mod l for all 32-byte inputs, without overflow in any product, fold or carry |
| ScalarMulAdd.ScReduce | crypto/edwards25519/edwards25519.go:1457-1773 | the output is exactly the 64-byte input mod l |
| ScalarMulAdd.ColumnsEval | crypto/edwards25519/edwards25519.go:1065-1088 | the 23 column sums represent the product of the two limb arrays |
| ScalarMulAdd.Products | crypto/edwards25519/edwards25519.go:1065-1088 | the columns plus c fit into int64 and represent a * b + c |
| ScalarLimbs.FoldConstant | crypto/edwards25519/edwards25519.go:1161-1167 | the six fold constants represent 2^252 minus a multiple of l |
| ScalarLimbs.Fold | crypto/edwards25519/edwards25519.go:1161-1207 | folding one limb keeps the value modulo l and clears that limb |
| ScalarLimbs.CarryRounded | crypto/edwards25519/edwards25519.go:1090-1159 | a rounded carry keeps the value and centres the limb |
| ScalarLimbs.Shrink | crypto/edwards25519/edwards25519.go:1161-1291 | after the folds and carries the value is congruent modulo l and lies strictly between -l and l |
| ScalarLimbs.ReduceLimbs | crypto/edwards25519/edwards25519.go:1161-1415 | the last two folds and carry chains leave exactly the residue modulo l |
| ScalarBytes.UnpackValue | crypto/edwards25519/edwards25519.go:1027-1052 | the 21-bit limbs loaded from the bytes represent the little-endian number |
| ScalarBytes.PackValue | crypto/edwards25519/edwards25519.go:1417-1448 | the packed bytes represent the value of the limbs |
| Field.FeCombine | crypto/edwards25519/edwards25519.go:260-347 | the twelve carries keep the value modulo p and bring the limbs within 1.1 * 2^25 and 1.1 * 2^24 |
| Field.Carry | crypto/edwards25519/edwards25519.go:281-286 | one rounded carry keeps the value |
| Field.CarryLast | crypto/edwards25519/edwards25519.go:325-327 | the carry out of the top limb, times 19, keeps the value modulo p |
| FieldMul.FeMul | crypto/edwards25519/edwards25519.go:376-427 | the result is congruent to f * g modulo p and within the bounds, for all inputs within the precondition; the output may be one of the inputs |
| FieldMul.ColumnsValue | crypto/edwards25519/edwards25519.go:377-426 | the column sums with their factors 2, 19 and 38 represent f * g modulo p |
| FieldMul.FeSquare | crypto/edwards25519/edwards25519.go:429-478 | the result is congruent to f squared modulo p and within the bounds |
| FieldMul.SquareIsColumn | crypto/edwards25519/edwards25519.go:429-466 | the shorter square columns equal the product columns |
| FieldBytes.FeFromBytes | crypto/edwards25519/edwards25519.go:94-107 | the limbs represent the 255 low bits modulo p and are within the bounds |
| FieldBytes.FeToBytes | crypto/edwards25519/edwards25519.go:132-219 | the bytes are the unique representative in [0, p) of any limb array within its bounds |
| FieldBytes.QuotientIsSign | crypto/edwards25519/edwards25519.go:109-131 | the estimated quotient is the floor of the value over p |
| FieldBytes.Recode | crypto/edwards25519/edwards25519.go:94-219 | reading and writing gives (src mod 2^255) mod p, so a canonical encoding comes back unchanged |
| FieldInvert.FeInvert | crypto/edwards25519/edwards25519.go:507-560 | the addition chain computes z^(p - 2) modulo p |
| FieldInvert.FePow22523 | crypto/edwards25519/edwards25519.go:562-650 | the addition chain computes z^((p - 5) / 8) modulo p |
| Slide.Slide | crypto/edwards25519/edwards25519.go:845-873 | for scalars below 2^255 the digits sum to the scalar, are zero or odd of size at most 15, and of any five neighbours at most one is not zero |
| Slide.CarryUp | crypto/edwards25519/edwards25519.go:859-864 | the carry loop adds one bit and stops inside the array |
| ScalarMult.OddMultiples | crypto/edwards25519/edwards25519.go:889-897 | the eight cached points are A, 3A, ..., 15A |
| ScalarMult.GeDoubleScalarMultVartime | crypto/edwards25519/edwards25519.go:879-928 | the result is a * A + b * B in any abelian group |
| ScalarMultBase.EqualIsEquality | crypto/edwards25519/edwards25519.go:930-936 | the subtraction trick is equality of non-negative words |
| ScalarMultBase.SignAndSize | crypto/edwards25519/edwards25519.go:938-951 | the bit tricks give the sign and the absolute value of a digit |
| ScalarMultBase.FeCMove | crypto/edwards25519/edwards25519.go:59-75 | masking replaces all words or none, also when both arguments are one array |
| ScalarMultBase.PreComputed.CMove | crypto/edwards25519/edwards25519.go:943-947 | all words of an entry are replaced or none, by masking |
| ScalarMultBase.SelectEntry | crypto/edwards25519/edwards25519.go:949-962 | moving every entry of the row under its mask and then the swapped and negated one under the sign leaves the zero entry, entry b - 1 or the negated entry -b - 1 |
| ScalarMultBase.SelectPoint | crypto/edwards25519/edwards25519.go:949-962 | the entry so selected stands for b * 256^pos * B |
| ScalarMultEntries.EntryOfZero | crypto/edwards25519/edwards25519.go:777-781 | the entry (1, 1, 0) is that of the neutral element (0, 1) |
| ScalarMultEntries.EntryOfNegated | crypto/edwards25519/edwards25519.go:958-961 | swapping y + x and y - x and negating 2dxy gives the entry of (-x, y) |
| ScalarMultBase.Recode | crypto/edwards25519/edwards25519.go:971-990 | the signed digits lie in [-8, 8] and represent the scalar in base 16 |
| ScalarMultBase.EvenAndOdd | crypto/edwards25519/edwards25519.go:992-1013 | even and odd digits recombine to the base-16 number |
| ScalarMultBase.GeScalarMultBase | crypto/edwards25519/edwards25519.go:970-1014 | the result is a * B for every scalar with a[31] <= 127 |
| Bip32Bytes.Add28Mul8 | bip32/bip32.go:69-84 | the sum is x + 8 * (low 28 bytes of y), exact modulo 2^256 |
| Bip32Bytes.Add256Bits | bip32/bip32.go:86-96 | the sum is x + y, exact modulo 2^256 |
| Bip32.NewXPrv | bip32/bip32.go:25-51 | the root scalar is a multiple of 8 in [2^254, 2^254 + 2^253), all other bits come from the hashes, and a seed of another length is an error; it is the root that the comments describe if and only if the third highest bit of the hash is clear |
| Bip32.NormalizeBytesForce3rd | bip32/bip32.go:164-169 | the bytes are forced into a root scalar in place, all other bits stay |
| Bip32.MakePublicKey | bip32/bip32.go:175-184 | the public key encodes the private scalar times B |
| Bip32.Derive | bip32/bip32.go:98-138 | the child's halves are the two exact sums of the hash output and the parent, with the message and chain code chosen by hardening |
| Bip32.IndexIsLittleEndian | bip32/bip32.go:102-103 | the index is four bytes, the least significant first |
| Bip32.MessageParts | bip32/bip32.go:105-125 | a hardened child hashes the tag, both halves of the private key and the index, another one the tag, the public key and the index |
| Bip32.MessagesDiffer | bip32/bip32.go:105-125 | under one parent different indices and different tags have different messages |
| Bip32.PathKeepsScalars | bip32/bip32.go:98-138 | over any run of up to 2^26 derivations from a root the left half stays a multiple of 8 in [2^254, 2^255), so the precondition of the base multiplication always holds |
| Bip32.Sign | bip32/bip32.go:198-236 | the signature is R followed by S = (k * a + r) mod l with the nonce and challenge of section 5.1.6 of RFC 8032; for a base point of order l it verifies under the public key: S is reduced and S * B = R + k * A |
| Bip32.SignatureVerifies | bip32/bip32.go:223-235 | the equation of section 5.1.7 of RFC 8032, S * B = R + k * A, for scalars with S = (k * a + r) mod l and a base point of order l |
| CborDecoder.Decoder.ValidHead | internal/bech32/cbor/valid.go:240-300 | reads a head or gives the fault that the functional validator gives, stopping at the head's end |
| CborDecoder.Decoder.ValidInternal | internal/bech32/cbor/valid.go:81-175 | outcome, offset and depth equal those of the functional validator on all data; it terminates |
| CborDecoder.Decoder.ValidItems | internal/bech32/cbor/valid.go:133-149 | the nested counting loops check exactly the announced number of items |
| CborDecoder.Decoder.ValidTagged | internal/bech32/cbor/valid.go:150-172 | the loop over tag numbers equals the recursive reading of tags |
| CborDecoder.Decoder.ValidIndefiniteString | internal/bech32/cbor/valid.go:178-201 | chunks are of the string's own type and definite length, up to the break code |
| CborDecoder.Decoder.ValidIndefiniteArrayOrMap | internal/bech32/cbor/valid.go:204-238 | items up to the break code, with the limits and the parity check of the source |
| CborDecoder.Decoder.CheckValid | internal/bech32/cbor/valid.go:72-78 | end of input on no data, else the validator's outcome at level 0 |
| CborScan.AcceptsExactlyItems | internal/bech32/cbor/valid.go:72-300 | validation succeeds exactly when a well-formed item within the limits stands there; it stops at that item's end, reports start depth plus nesting as the code counts it, and otherwise only the nesting limit can fail such an item |
| CborNesting.NestAndLevels | internal/bech32/cbor/valid.go:111-172 | the validator counts no more than the documented levels of arrays, maps and tags, and these are at most twice what it counts and one more |
| CborNesting.NestIsLevels | internal/bech32/cbor/valid.go:111-172 | it counts exactly the documented levels if and only if one of the deepest paths of the tree meets no tag |
| CborNesting.NestingLimit | internal/bech32/cbor/decode.go:289-291 | levels within the limit are accepted; whatever the limit, a tree is accepted exactly for its levels if and only if a deepest path meets no tag |
| CborNesting.TowerIsAccepted | internal/bech32/cbor/valid.go:150-172 | tags and arrays in turn with twice the limit and one more levels are accepted, and the limit is the depth reported |
| CborNesting.ModeLimitsLevels | internal/bech32/cbor/decode.go:289-291 | all that a mode accepts is within the documented limit if and only if the mode forbids tags |
| CborScan.ScanFindsItem | internal/bech32/cbor/valid.go:81-175 | whatever is accepted is a tree of the grammar that ends where the validator stopped |
| CborScan.ScanOfItem | internal/bech32/cbor/valid.go:81-175 | every tree of the grammar within the size limits is accepted, or refused for its nesting alone |
| CborScan.ScanMoved | internal/bech32/cbor/valid.go:81-300 | an outcome other than an unexpected end does not depend on bytes before or after |
| CborScan.ScanLonger | internal/bech32/cbor/valid.go:81-300 | appending bytes changes no success and no fault but an unexpected end |
| CborScan.TruncatedItem | internal/bech32/cbor/valid.go:81-300 | every proper prefix of an accepted item gives an unexpected end and nothing else |
| CborScan.PrefixFree | internal/bech32/cbor/valid.go:81-300 | no accepted item is a proper prefix of another |
| CborFaults.EndMeansMore | internal/bech32/cbor/valid.go:81-300 | an unexpected end of input is reported if and only if some continuation of the data has another outcome |
| CborFaults.SyntaxIsFinal | internal/bech32/cbor/valid.go:81-300 | after a syntax error or an oversized length no mode accepts any continuation of the data |
| CborFaults.WiderScan | internal/bech32/cbor/valid.go:81-238 | wider limits change an outcome only if it was the fault of a limit |
| CborFaults.ScanCaused | internal/bech32/cbor/valid.go:81-238 | each limit fault is reported only where its own limit binds |
| CborFaults.InitialBytes | internal/bech32/cbor/valid.go:240-300 | exactly the reserved initial bytes, the break code and two-byte simple values below 32 are syntax errors |
| CborNumbers.FirstByteWeighsMost | internal/bech32/cbor/valid.go:258-284 | the first byte of a number weighs as much as all after it can hold |
| CborNumbers.HeadSizes | internal/bech32/cbor/valid.go:258-284 | additional information 24 to 27 announces 1, 2, 4 or 8 more bytes |
| CborBytes.UniqueItem | internal/bech32/cbor/decode.go:1715-1745 | data spells at most one well-formed tree at a place |
| CborBytes.BytesSpell | internal/bech32/cbor/decode.go:1715-1745 | where the serialization of a tree stands, that tree is spelled |
| CborDecoder.Decoder.GetHead | internal/bech32/cbor/decode.go:1715-1745 | the unchecked head reader returns the head and never indexes outside the data |
| CborDecoder.Decoder.Skip | internal/bech32/cbor/decode.go:1682-1712 | on a well-formed item it ends exactly at the item's end |
| CborDecoder.Decoder.FoundBreak | internal/bech32/cbor/decode.go:1759-1765 | the break code is found exactly when no item is left |
| CborDecoder.Decoder.NumOfItemsUntilBreak | internal/bech32/cbor/decode.go:1747-1756 | counts the elements that the array reader then reads, and goes back |
| CborDecoder.Decoder.CheckBuiltinTag | internal/bech32/cbor/decode.go:952-961 | a built-in tag with wrong content is an error and its content is skipped |
| CborDecoder.Decoder.StripSelfDescribed | internal/bech32/cbor/decode.go:941-950 | takes off exactly the self-described tags |
| CborDecoder.Decoder.Parse | internal/bech32/cbor/decode.go:939-1077 | value and first error are the item's meaning; the decoder is at the item's end even after an error |
| CborDecoder.Decoder.ParseByteString | internal/bech32/cbor/decode.go:1081-1097 | the body, or all chunks put together |
| CborDecoder.Decoder.ParseTextString | internal/bech32/cbor/decode.go:1102-1127 | the text if every chunk is valid UTF-8, else an error with all chunks consumed |
| CborDecoder.Decoder.ParseArray | internal/bech32/cbor/decode.go:1129-1149 | all elements in order, null for those that fail, and the first error |
| CborDecoder.Decoder.ParseMap | internal/bech32/cbor/decode.go:1203-1266 | the entries under Go's map assignment, with failing pairs dropped and a duplicate key ending the map when that is enforced |
| CborDecoder.Decoder.ParseToTime | internal/bech32/cbor/decode.go:856-889 | as the generic parser calls it: the content of tag 0 or 1 handed to the conversion, whether tag numbers are ignored or checked |
| CborDecoder.Decoder.Value | internal/bech32/cbor/decode.go:518-539 | invalid data moves nothing; a valid item is consumed whole and yields its meaning |
| CborMeaning.BignumMeaning | internal/bech32/cbor/decode.go:1006-1015 | tag 2 around the bytes of n, or tag 3 around those of -1 - n, means n, for every integer and any leading zeros |
| CborMeaning.NegativeMeaning | internal/bech32/cbor/decode.go:968-984 | integers of major type 1 beyond an int64 mean the same as their bignums |
| CborMeaning.BuiltinContents | internal/bech32/cbor/decode.go:952-961 | exactly text suits tag 0, an integer or a float tag 1, and bytes tags 2 and 3; other content is an error |
| CborMeaning.SelfDescribedMeaning | internal/bech32/cbor/decode.go:941-950 | an item after d9 d9 f7 means what it means without |
| CborMeaning.ArrayMeaning | internal/bech32/cbor/decode.go:1129-1149 | each element in its place, null for one that fails, and the first error |
| CborMeaning.FirstErrorIsFirst | internal/bech32/cbor/decode.go:1140-1147 | the error of an array is that of an element before which there is none |
| CborMeaning.JoinedInOrder | internal/bech32/cbor/decode.go:1081-1097 | the chunks of a string follow one another in order |
| CborMeaning.PutThenLookup | internal/bech32/cbor/decode.go:1203-1266 | assigning to a key changes the value of that key only |
| CborMeaning.MapMeaning | internal/bech32/cbor/decode.go:1203-1266 | where duplicates are allowed a key has the value of its last good pair, and the error is the first one |
| CborMeaning.UnhashableKeys | internal/bech32/cbor/decode.go:1941-1955 | exactly unwrapped byte strings, arrays, maps and integers beyond an int64 are keys that a map cannot hold, among items without a tag |
| CborMeaning.DuplicateMeaning | internal/bech32/cbor/decode.go:1240-1259 | where they are not, the first repeated key ends the map with an error that names it and its place, and has the value null |
| CborKnown.ChunksDoNotMatter | internal/bech32/cbor/decode.go:1081-1127 | a string in chunks means what the whole string means |
| CborKnown.LengthDoesNotMatter | internal/bech32/cbor/decode.go:1129-1149 | definite and indefinite arrays and maps mean the same |
| CborStream.StreamDecoder.MakeRoom | internal/bech32/cbor/stream.go:57-70 | growing and compacting lose and reorder no unread byte |
| CborStream.StreamDecoder.Fill | internal/bech32/cbor/stream.go:57-75 | a read offers at least 512 bytes and keeps the unread bytes in order |
| CborStream.StreamDecoder.OverwriteBuf | internal/bech32/cbor/stream.go:77-81 | overlapping copies keep the bytes |
| CborStream.StreamDecoder.Decode | internal/bech32/cbor/stream.go:28-50 | result, remaining stream and byte count depend only on the bytes ahead |
| CborStream.DecodeAll | internal/bech32/cbor/stream.go:28-55 | any number of calls gives outcomes and byte counts that are a function of the stream's bytes, for every split into reads |
| CborStream.DecodeInPlace | internal/bech32/cbor/stream.go:28-55 | decoding the whole stream in place gives the same outcomes and byte counts; a truncated last item reports the end of input |
| CborStream.NextInPlace | internal/bech32/cbor/stream.go:36-38 | decoding at an offset is decoding the bytes from there on |
| CborEncode.NoShorterHead | internal/bech32/cbor/encode.go:1257-1283 | no head for the same argument is shorter than the one written |
| CborEncode.ImageShaped | internal/bech32/cbor/encode.go:606-992 | what is written is well-formed and has shortest heads throughout |
| CborKnown.WrittenLeaf | internal/bech32/cbor/encode.go:606-828 | the bytes of every integer, string, boolean and null, initial byte and big-endian argument written out |
| CborKnown.WrittenNode | internal/bech32/cbor/encode.go:830-992 | the bytes of every array, map and tag, likewise |
| CborEncoder.NegatedLessOne | internal/bech32/cbor/encode.go:627 | i * (-1) - 1 is -1 - i for every negative int64, although the least one wraps |
| CborEncoder.Encoder.EncodeHead | internal/bech32/cbor/encode.go:1257-1283 | appends the shortest head |
| CborEncoder.Encoder.EncodeInt | internal/bech32/cbor/encode.go:618-630 | appends the integer, also the least one |
| CborEncoder.Encoder.EncodeByteString | internal/bech32/cbor/encode.go:788-814 | appends head and bytes, or null for a nil slice |
| CborEncoder.Encoder.EncodeString | internal/bech32/cbor/encode.go:816-828 | appends head and text |
| CborEncoder.Encoder.EncodeArray | internal/bech32/cbor/encode.go:830-853 | appends the serialization of the array, or fails on a forbidden tag |
| CborEncoder.Encoder.EncodeMap | internal/bech32/cbor/encode.go:855-890 | appends the serialization of the map in the mode's order |
| CborEncoder.Encoder.EncodeCanonical | internal/bech32/cbor/encode.go:948-992 | collecting, cutting and sorting the pairs writes exactly the canonical map |
| CborEncoder.Encoder.Encode | internal/bech32/cbor/encode.go:591-604 | appends the serialization of the value's tree; it fails exactly when tags are forbidden and the value has one |
| CborEncoder.WrittenTag | internal/bech32/cbor/encode.go:1233-1255 | a tag is written as its head and its content |
| CborEncoder.Sorter.Sort | internal/bech32/cbor/encode.go:978-982 | the pairs are permuted into ascending order by comparing and swapping |
| CborOrder.OneOrder | internal/bech32/cbor/encode.go:900-921 | things with distinct keys have one ascending order |
| CborOrder.KeyTransitive | internal/bech32/cbor/encode.go:900-921 | both key orders are transitive |
| CborKeyOrder.KeysInOrder | internal/bech32/cbor/encode.go:900-921 | length-first: shorter keys first and keys of one length by the number they stand for; bytewise: a proper prefix first, else the smaller byte at the first difference |
| CborKeyOrder.HeadsInOrder | internal/bech32/cbor/encode.go:900-921 | in both orders the heads of greater unsigned integers come later |
| CborEncoder.SortingIsCanonical | internal/bech32/cbor/encode.go:971-982 | however the pairs were sorted, they are the pairs of the canonical order |
| CborRoundTrip.DecodeOfEncode | internal/bech32/cbor/encode.go:606-992 | for plain values, in every order and both integer modes, the bytes are accepted as one item using all of them and decode without an error; the value decoded is the value written (integers by number, maps up to the order of entries) if and only if no tag in it has number 0 and no content |
| CborRoundTrip.EncodeOfDecode | internal/bech32/cbor/decode.go:939-1266 | the value decoded can be encoded again and gives the same bytes |
| CborRoundTrip.DecodedIsEqual | internal/bech32/cbor/decode.go:939-1077 | the value decoded is equal to the plain value written, Go types and order of entries included, if and only if that has the default types and its maps stand in the mode's order |
| CborRoundTrip.TagIsLost | internal/bech32/cbor/encode.go:1240-1244 | a tag with number 0 and no content is written as 0xf6 and decoded as null, which is another value |
| CborRoundTrip.IterationOrderIsIrrelevant | internal/bech32/cbor/encode.go:948-992 | in the canonical modes the same value is written as the same bytes, whatever the iteration order of its maps at any depth |
| CborRoundTrip.CanonicalBytesDecide | internal/bech32/cbor/encode.go:900-992 | canonical bytes of two plain values with initialized tags are equal if and only if the values are the same |
| CborRoundTrip.CanonicalMap | internal/bech32/cbor/encode.go:900-992 | a canonical map holds every entry once, with all heads shortest and strictly ascending keys: by length and number, or by the first differing byte (section 3.9 of RFC 7049) |
| CborRoundTrip.UnsignedKeysAscend | internal/bech32/cbor/encode.go:900-992 | the unsigned integer keys of a canonical map stand in increasing numeric order |
| NativeScripts.ScriptRoundTrip | tx/script.go:110-179 | the script read from the tree of a script is that script |
| NativeScriptCodec.MarshalCBOR | tx/script.go:110-123 | writes the serialization of the script's value, nil slices as null |
| NativeScriptCodec.GetTypeFromCBORArray | tx/encoding.go:16-32 | the first element of the array, if it is an unsigned integer |
| NativeScriptCodec.DecodeElement | internal/bech32/cbor/decode.go:919-935 | skipping finds the element's bytes, which are accepted on their own as that element |
| NativeScriptCodec.UnmarshalFields | internal/bech32/cbor/decode.go:1378-1448 | the array is read into the fields of the script's type, or is an error if their number differs |
| NativeScriptCodec.DecodeScripts | internal/bech32/cbor/decode.go:1151-1171 | a slice of scripts, nil for null, each by its own decoding |
| NativeScriptCodec.DecodeUint | internal/bech32/cbor/decode.go:583-828 | an unsigned field from any item, with tags, bignums and overflow |
| NativeScriptCodec.DecodeBytes | internal/bech32/cbor/decode.go:583-828 | a byte field from any item |
| NativeScriptCodec.UnmarshalCBOR | tx/script.go:126-179 | on all data: an error leaves the script as it was, else it is the script of the item |
| NativeScriptCodec.MarshalUnmarshal | tx/script.go:110-179 | a script of types 0 to 5 with unused fields zero, within the decoder's limits, comes back from its own serialization unchanged |
| NativeScriptKnown.WrittenScript | tx/script.go:110-123 | the bytes of every script, type by type, written out |
| NativeScriptKnown.FieldCounts | internal/bech32/cbor/decode.go:1378-1448 | another number of fields than the type has is an error, and an unknown type leaves the script as it is |
| NativeScriptKnown.ReadUintAgrees | internal/bech32/cbor/decode.go:583-828 | an unsigned field has the number that its untagged item means, 0 for null, and is an error for anything else |
| NativeScriptKnown.ReadUintOfBignum | internal/bech32/cbor/decode.go:583-828 | a bignum is read if it is not negative and fits |
| NativeScriptKnown.ReadBytesAgrees | internal/bech32/cbor/decode.go:583-828 | a byte field has the bytes that its untagged item means, nil for null |
| NativeScriptKnown.ByteListRead | internal/bech32/cbor/decode.go:1151-1171 | a byte field read from an array has the elements in their places |
| NativeScriptKnown.ScriptListRead | internal/bech32/cbor/decode.go:1151-1171 | a slice of scripts has the elements in their places |
| Bech32Bits.ConvertBits | internal/bech32/bech32.go:61-87 | the complete digits of the same number; excess or non-zero padding and wide digits are errors |
| Bech32Bits.BytesSymbolsBytes | internal/bech32/bech32.go:61-87 | symbols to bytes inverts bytes to symbols |
| Bech32Bits.SymbolsBytesSymbols | internal/bech32/bech32.go:61-87 | bytes to symbols inverts symbols to bytes where that is accepted |
| Bech32Checksum.StepLinear | internal/bech32/bech32.go:19-27 | a step of the checksum is linear over exclusive or |
| Bech32Checksum.StepInjective | internal/bech32/bech32.go:19-27 | a step is injective on 30-bit states |
| Bech32Checksum.RunLinear | internal/bech32/bech32.go:16-30 | the whole checksum is linear |
| Bech32Checksum.SixSymbolsDetected | internal/bech32/bech32.go:16-30 | sequences with one checksum that differ only inside six consecutive symbols are equal |
| Bech32Field.StepDivides | internal/bech32/bech32.go:14-27 | a step is a step of dividing by the polynomial 1, 29, 22, 20, 21, 29, 18 over the field of 32 elements with x^5 = x^3 + 1 |
| Bech32Field.RunIsRemainder | internal/bech32/bech32.go:16-30 | the checksum is the remainder modulo that polynomial: dividend = quotient * generator + remainder |
| Bech32Codec.Polymod | internal/bech32/bech32.go:16-30 | the loop computes that checksum |
| Bech32Codec.HrpExpand | internal/bech32/bech32.go:32-43 | high bits, zero and low bits of the lower-case prefix |
| Bech32Codec.CreateChecksum | internal/bech32/bech32.go:49-59 | the six symbols of the checksum |
| Bech32.ChecksumVerifies | internal/bech32/bech32.go:45-59 | data with its checksum verifies |
| Bech32.ChecksumUnique | internal/bech32/bech32.go:45-59 | no other six symbols verify |
| Bech32.DetectsSixSymbols | internal/bech32/bech32.go:45-47 | two data parts of one length that differ inside a window of six symbols cannot both verify, for every length |
| Bech32Codec.Encode | internal/bech32/bech32.go:89-120 | the string, or an error for an empty, mixed-case or unprintable prefix |
| Bech32Codec.Decode | internal/bech32/bech32.go:122-152 | prefix and bytes, or an error, with the checks of the source |
| Bech32Codec.DecodeEncode | internal/bech32/bech32.go:89-152 | decoding an encoded string gives prefix and bytes back |
| Bech32Codec.EncodeDecode | internal/bech32/bech32.go:89-152 | encoding what was decoded gives the string back up to letter case, and exactly if and only if it is in lower case or its prefix has an upper-case letter |
| Bech32Codec.UpperCaseIsLost | internal/bech32/bech32.go:89-152 | an upper-case string with prefix "2" is decoded and written back in lower case |
| Bech32Known.LettersOfSet | internal/bech32/bech32.go:12 | the symbols are the characters of "qpzry9x8gf2tvdw0s3jn54khce6mua7l", in this order |
| Bech32Known.ExpandHoldsPrefix | internal/bech32/bech32.go:32-43 | the expanded prefix holds the upper and the lower five bits of each lower-case character, with a zero between |
| Bech32Known.EncodablePrefix | internal/bech32/bech32.go:89-105 | a prefix is encoded if and only if it is not empty, lies between '!' and '~' and is not of mixed case |
| Bech32Known.EncodeOfA | internal/bech32/bech32.go:89-152 | "a" and no data is "a12uel5l", a valid string of BIP-173 |
| PointerAddress.VariableNatEncode | address/pointer.go:25-35 | the base-128 digits, most significant first, marked but for the last |
| PointerAddress.VariableNatDecode | address/pointer.go:37-49 | number modulo 2^64 and length, or an error if no byte ends it |
| PointerAddress.ReverseAny | address/pointer.go:51-57 | reverses in place |
| PointerAddress.ReadVarNat | address/pointer.go:25-49 | a number followed by any bytes is read back with its exact length |
| PointerAddress.CanonicalNat | address/pointer.go:37-49 | the digits read are the encoder's digits exactly if they fit 64 bits and do not start with a zero digit |
| PointerAddress.PointerShape | address/address.go:92-121 | a pointer address is read if and only if the type is 4 or 5 and 28 bytes and exactly three numbers follow |
| PointerAddress.FirstDigitWeighsMost | address/pointer.go:25-49 | the first base-128 digit weighs 128 to the number of digits after it |
| PointerAddress.KnownAddresses | address/pointer.go:65-75 | the pointer addresses of the test vectors of CIP-0019, as bytes and read back |
| PointerAddress.Bytes | address/pointer.go:65-75 | header, credential and the three numbers |
| PointerAddress.ReadAddrCred | address/address.go:155-166 | the credential kind is the given bit of the header |
| PointerAddress.NewAddressFromBytes | address/address.go:92-121 | the pointer branch with its three errors |
| PointerAddress.AddressRoundTrip | address/pointer.go:65-75 | an address on a known network with a 28-byte hash is read back from its bytes, for all numbers and both kinds |
| PointerAddress.BytesOfRead | address/address.go:92-121 | the bytes an address was read from are its bytes if and only if the network nibble is 0 or 1 and each of the three numbers, where it stands, does not start with 0x80 and fits into 64 bits |
| PointerAddress.LeadingZeroIsDropped | address/pointer.go:37-49 | 0x80 0x00 is read as 0, which is written 0x00 |
| PointerAddress.LargeNumberWraps | address/pointer.go:37-49 | the ten digits of 2^64 are read as 0 |
| PointerAddress.UnknownNetwork | address/address.go:92-121 | an address with network nibble 2 is read, and written with nibble 0 |

## Left out

- Reflection-driven typed decoding and encoding: struct fields by name, registered tags, default map types and the caches. The value tree and, for native scripts, the five Go types they use take its place.
- Floats are kept as width and bits, UTF-8 validity, conversion to times and equality of floats and times as map keys are parameters of the decoding mode. Encoding of floats, big integers and times is not modelled.
- CborRoundTrip.DecodeOfEncode: leaves out tags with content numbered 0 to 3 and 55799, which the decoder treats specially, and keys that a Go map cannot hold when they are read back.
- CborEncoder.Encoder.EncodeCanonical: requires keys with distinct serializations, because the order of equal ones is up to the sorting library.
- CborEncoder.Encoder.EncodeMap: requires the same in the canonical modes.
- CborEncoder.Encoder.Encode: takes no floats, big integers and times.
- CborEncoder.Sorter.Sort: an insertion sort stands for the sorting library, whose code is not part of this model; `SortingIsCanonical` holds for any sort that compares and swaps.
- CborDecoder.Decoder.ParseToTime: is stated for the calls of the generic parser, so the errors for a missing tag and for other tag numbers do not occur, and the conversion of the content is a parameter.
- CborStream.StreamDecoder.Decode: the reader delivers non-empty pieces and the end of input with the last of them or after it; a reader that returns nothing without an error, or another error, is not modelled. Streams are bounded by 2^60 bytes so that capacities stay within an int.
- The encoder's indefinite-length mode, which leaves well-formedness to its caller, and the shortcut for struct fields in cache.go.
- NativeScriptCodec.UnmarshalFields: the loop over struct fields is unrolled, one statement per field.
- Point formulas, point decompression and the entries of the tables: assumed as group operations and multiples of the base point. Timing behaviour is not stated.
- SHA-512, HMAC, SHA-256, PBKDF2 and Blake2b are functions of fixed output length.
- Base, enterprise, reward and Byron addresses: `NewAddressFromBytes` only tells their types apart.
- Bech32Codec.Decode: strings are ASCII; Unicode case mapping of other characters is not modelled.
- Transaction building, fees, hashing of transactions, HTTP and CLI clients, protocol parameters, logging and error texts.
