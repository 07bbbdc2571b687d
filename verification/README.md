# Verified models of the wallet core

Dafny models of the self-contained algorithms of the TronLink wallet core, with proofs. `dafny verify dfyconfig.toml`
checks everything. Each group has a plain specification, the code's own steps proved to meet it, and theorems about
the specification.

- **256-bit arithmetic** (`Arith`, `Digits`, `Bignum`, `Multiplication`, `Powers`, `Fermat`, `Register`,
  `AlmostInverse`, `FastInverse`, `ModularInverse`, `WrappedPrime`, `BignumBytes`, `BignumDecimal`): nine 30-bit limbs
  in `uint32` arrays, reduction, multiplication, powers and both forms of the modular inverse. Machine words are
  subset types of `int`; every assignment is checked to fit and wrap-around is written out with `%`. The bound at
  `bignum.c:667` holds for r and s, not for u and v as the comment says; line 799 of the same file argues with r and
  s. Multiplication passes its assertions exactly for products below 2^527; the comment asks for operands below
  180·prime, which is less. The square root and the slow inverse therefore fail for every normalized x whose square is
  2^527 or more (`Multiplication.ProductTooLarge`), although the comment of the former asks for a normalized x only.
  Methods return whether the assertions on their way hold; what the code does without assertions is not modelled. The
  fast inverse takes any limbs. Taking 2 from the lowest limb of the prime wraps when that limb is below 2:
  `Powers.SlowInverseExact` says what that means, and `WrappedPrime` has a prime for which the slow inverse
  is wrong.
- **Contract ABI** (`AbiTypes`, `AbiSpec`, `AbiReading`, `AbiRoundTrip`, `AbiCosts`, `AbiEncoder`, `AbiDecoder`,
  `AbiCanonical`, `AbiCodec`, `AbiExtent`, `FixedPointText`): `AbiSpec` is the formal specification of the encoding
  from the Solidity contract ABI specification; the ABIv2 encoder is proved to produce it, the decoder to invert it on
  any data, both within their budgets. Decoded data need not be what the encoder would emit: `AbiExtent` tells from
  the data when it is. The older encoder (`SolidityValues`, `SolidityEncoder`, `TwosComplement`) is proved to produce
  the same bytes (`EncodersAgree`) and function calls around them (`SolidityCall`). Type names are printed and parsed
  (`TypeStrings`, `TypeParser`, `TypeSpelling`, `TypeRoundTrip`), and text is UTF-8 (`Utf8`).
- **Base58** (`Radix`, `Base58`, `Base58Swift`, `Base58C`, `Base58Words`): the C converters against the Swift ones.
- **Scrypt** (`ScryptSpec`, `Scrypt`, `ScryptKey`): sections 4 and 5 of RFC 7914 and the unrolled loops over X, Y and V.
- **BLAKE-256, BLAKE2b, BLAKE2s** (`Blake256`, `Blake2`): buffering, counters and padding around an arbitrary
  compression function, against section 2.1.3 of the SHA-3 proposal BLAKE and section 3.3 of RFC 7693.
- **BIP-39 and RLP** (`BitStrings`, `Mnemonic`, `Bip39`, `Rlp`, `RlpEncoder`, `ByteStrings`): bit packing with a
  checksum, and Appendix B of the Ethereum Yellow Paper. SHA-256 and the word list are arbitrary.
- **Metrics** (`MetricsModel`, `MetricsHistory`, `MetricsLate`, `Metrics`): the table of transaction statistics, with
  every database access atomic and able to fail, and steps of several uploads and of recording in any order. That every
  event of a removed row was itself uploaded is false; `MetricsLate` says exactly when an event can be lost.
- **KeyStore** (`KeyStoreModel`, `KeyStore`, `KeyStoreRestart`): the lazily loaded accounts over files that may be
  unreadable for a while. Reads of other threads may come between the two locked sections of an import, an update or a
  deletion. What a new process finds on the disk of an earlier one is proved as well.

State that the source changes in place is a class or an array here, and its methods are proved against functions of
the old state. I/O, clocks and library ciphers are parameters: outcomes of accesses are given from outside and the
theorems hold for all of them.

## Model

| member | source | states |
|---|---|---|
| `Bignum.FastMod` | tronlink-iOS-core/Classes/ABI/TrezorCrypto/trezor-crypto/bignum.c:495-517 | Nine limbs of any 32-bit size become a normalized number below 2·prime congruent to what they were; the 64-bit accumulator neither underflows nor overflows. |
| `Bignum.IsLess` | tronlink-iOS-core/Classes/ABI/TrezorCrypto/trezor-crypto/bignum.c:259-272 | True exactly when the value of a is below the value of b. |
| `Bignum.Subtract` | tronlink-iOS-core/Classes/ABI/TrezorCrypto/trezor-crypto/bignum.c:930-940 | The difference modulo 2^270, normalized, also when an operand is the result array. |
| `Bignum.Mod` | tronlink-iOS-core/Classes/ABI/TrezorCrypto/trezor-crypto/bignum.c:385-393 | A partly reduced number becomes exactly its residue modulo the prime. |
| `Bignum.SubtractMod` | tronlink-iOS-core/Classes/ABI/TrezorCrypto/trezor-crypto/bignum.c:916-928 | a + 2·prime − b modulo 2^270, normalized, with a carry of at most 3 and no uint32 overflow, for any normalized operands. |
| `Bignum.SubtractModExact` | tronlink-iOS-core/Classes/ABI/TrezorCrypto/trezor-crypto/bignum.c:916-928 | For partly reduced operands nothing is lost modulo 2^270: the result is below 4·prime and congruent to a − b. |
| `Bignum.MultHalf` | tronlink-iOS-core/Classes/ABI/TrezorCrypto/trezor-crypto/bignum.c:350-372 | Twice the result is x, or x + prime when x is odd. |
| `Bignum.MultHalfCorrect` | tronlink-iOS-core/Classes/ABI/TrezorCrypto/trezor-crypto/bignum.c:350-372 | That is division by 2 modulo the prime, and it keeps a number partly reduced. |
| `Multiplication.MultiplyLong` | tronlink-iOS-core/Classes/ABI/TrezorCrypto/trezor-crypto/bignum.c:395-426 | Eighteen normalized limbs that hold the exact product; no column sum overflows 64 bits. |
| `Multiplication.Estimate` | tronlink-iOS-core/Classes/ABI/TrezorCrypto/trezor-crypto/bignum.c:428-464 | The estimate floor(y / 2^256) used as coef is below 2^31 and subtracting that multiple of the prime leaves a number in [0, 2·prime). |
| `Multiplication.ProductTooLarge` | tronlink-iOS-core/Classes/ABI/TrezorCrypto/trezor-crypto/bignum.c:428-482 | For every product from 2^527 on, the estimate held in 32 bits is not below 2^31, or so much of it is lost that the tenth limb does not vanish: one of the two assertions of the first step fails. |
| `Multiplication.SquareTooLarge` | tronlink-iOS-core/Classes/ABI/TrezorCrypto/trezor-crypto/bignum.c:484-553 | Normalized numbers with such a square exist: the largest one fails the first of these assertions. |
| `Multiplication.ReduceStep` | tronlink-iOS-core/Classes/ABI/TrezorCrypto/trezor-crypto/bignum.c:428-464 | One step takes a number below 2^(30(i−7))·2^257 to one below 2^(30(i−8))·2·prime, in place, and keeps the residue; for any other product the first step fails its assertion or leaves a tenth limb that is not zero. |
| `Multiplication.Reduce` | tronlink-iOS-core/Classes/ABI/TrezorCrypto/trezor-crypto/bignum.c:466-482 | Passes all assertions exactly for products below 2^527, and then nine steps have made a partly reduced number of the same residue. |
| `Multiplication.Multiply` | tronlink-iOS-core/Classes/ABI/TrezorCrypto/trezor-crypto/bignum.c:484-494 | For all normalized operands, also when they are one array: passes its assertions exactly for products below 2^527, which includes all operands below 180·prime, and then x is k·x modulo the prime, partly reduced. |
| `Powers.RShift` | tronlink-iOS-core/Classes/ABI/TrezorCrypto/trezor-crypto/bignum.c:313-322 | Halves a normalized number, rounding down. |
| `Powers.AddI` | tronlink-iOS-core/Classes/ABI/TrezorCrypto/trezor-crypto/bignum.c:872-907 | For any limbs and any machine word: the sum less what its 32-bit additions lose, modulo 2^270, normalized. |
| `Powers.SumExact` | tronlink-iOS-core/Classes/ABI/TrezorCrypto/trezor-crypto/bignum.c:872-907 | That is the sum modulo 2^270 exactly if no addition in the lowest eight limbs wraps around. |
| `Powers.Sqrt` | tronlink-iOS-core/Classes/ABI/TrezorCrypto/trezor-crypto/bignum.c:519-553 | For every normalized x: passes all assertions exactly if the square of x is below 2^527, and then x is exactly old(x)^((prime+1)/4) mod prime, through the limb-by-limb loop, squaring in place and leaving the last limb early. |
| `Powers.SqrtExact` | tronlink-iOS-core/Classes/ABI/TrezorCrypto/trezor-crypto/bignum.c:519-553 | For a prime that is 3 modulo 4, the square of that power is x exactly when x is a square modulo the prime. |
| `Powers.InverseSlow` | tronlink-iOS-core/Classes/ABI/TrezorCrypto/trezor-crypto/bignum.c:557-592 | The same condition, and then x is old(x)^e mod prime, where e is prime − 2, plus 2^30 if taking 2 from the lowest limb of the prime wraps. |
| `Powers.SlowInverseExact` | tronlink-iOS-core/Classes/ABI/TrezorCrypto/trezor-crypto/bignum.c:557-592 | That is the inverse of x exactly if the lowest limb of the prime is at least 2 or x^(2^30) is 1 modulo the prime. |
| `WrappedPrime.SlowInverseWrong` | tronlink-iOS-core/Classes/ABI/TrezorCrypto/trezor-crypto/bignum.c:557-592 | There is such a prime: (2^38 − 57)·2^218 + 1, in range with lowest limb 1, for which the slow form does not invert 5. |
| `WrappedPrime.Proth` | tronlink-iOS-core/Classes/ABI/TrezorCrypto/trezor-crypto/bignum.c:557-560 | What decides its primality: an odd p at most 2^2e with b^(2^(e−1)) = −1 modulo p is prime if 2^e divides p − 1. |
| `Fermat.LittleTheorem` | tronlink-iOS-core/Classes/ABI/TrezorCrypto/trezor-crypto/bignum.c:557-560 | a^(p−1) is 1 modulo a prime p that does not divide a; proved from primality alone. |
| `AlmostInverse.InvShift` | tronlink-iOS-core/Classes/ABI/TrezorCrypto/trezor-crypto/bignum.c:656-672 | Halving one low number j times and doubling its high number keeps u·s + v·r = prime and both congruences, with k + j for k. |
| `AlmostInverse.InvSubtract` | tronlink-iOS-core/Classes/ABI/TrezorCrypto/trezor-crypto/bignum.c:774-780 | Subtracting the smaller low number and adding the high numbers keeps them with the same k. |
| `AlmostInverse.SizedSubtract` | tronlink-iOS-core/Classes/ABI/TrezorCrypto/trezor-crypto/bignum.c:788-796 | The size invariants, with max(r, s) where the comment at line 667 names u and v, hold again after the subtraction once the even number is shifted. |
| `AlmostInverse.InvEnd` | tronlink-iOS-core/Classes/ABI/TrezorCrypto/trezor-crypto/bignum.c:798-804 | When u and v are equal they are 1, r + s is the prime, and x·s is 2^k modulo the prime. |
| `AlmostInverse.KRange` | tronlink-iOS-core/Classes/ABI/TrezorCrypto/trezor-crypto/bignum.c:798-801 | At that point 255 <= k <= 510. |
| `FastInverse.MakeOdd` | tronlink-iOS-core/Classes/ABI/TrezorCrypto/trezor-crypto/bignum.c:686-721 | Moves every factor of two from the first number of a packed register to the second: limb shifts, then bit shifts; neither number loses a bit and the two never collide in the nine limbs. |
| `FastInverse.Compare` | tronlink-iOS-core/Classes/ABI/TrezorCrypto/trezor-crypto/bignum.c:729-739 | Sign of the comparison of u and v, by lengths and then limbs, and which register is the longer one. |
| `FastInverse.Combine` | tronlink-iOS-core/Classes/ABI/TrezorCrypto/trezor-crypto/bignum.c:750-772 | even − odd in the first numbers and odd + even in the second ones, in place, carry and borrow included; the loop invariant holds again. |
| `FastInverse.OneTurn` | tronlink-iOS-core/Classes/ABI/TrezorCrypto/trezor-crypto/bignum.c:656-797 | One turn of the main loop keeps all invariants and decreases u + v, or ends with u = 1 and x·s = 2^k modulo the prime. |
| `FastInverse.FindAlmostInverse` | tronlink-iOS-core/Classes/ABI/TrezorCrypto/trezor-crypto/bignum.c:647-804 | The loop terminates for every odd prime in range and every x that is not 0, with x·s = 2^k modulo the prime and 255 <= k <= 510. |
| `ModularInverse.ToWords` | tronlink-iOS-core/Classes/ABI/TrezorCrypto/trezor-crypto/bignum.c:626-638 | Nine 30-bit limbs repacked into eight 32-bit words of the same value. |
| `ModularInverse.FromWords` | tronlink-iOS-core/Classes/ABI/TrezorCrypto/trezor-crypto/bignum.c:857-863 | Eight 32-bit words repacked into nine normalized 30-bit limbs of the same value. |
| `ModularInverse.NegativeInverse` | tronlink-iOS-core/Classes/ABI/TrezorCrypto/trezor-crypto/bignum.c:806-819 | The product iteration ends with −1/a modulo 2^32 for every odd a. |
| `ModularInverse.DivideStep` | tronlink-iOS-core/Classes/ABI/TrezorCrypto/trezor-crypto/bignum.c:821-855 | s becomes (s + f·prime) / 2^j exactly for some f, and stays at most the prime; no sum outgrows 64 bits. |
| `ModularInverse.DivideOut` | tronlink-iOS-core/Classes/ABI/TrezorCrypto/trezor-crypto/bignum.c:821-855 | Takes the whole factor 2^k out of the almost inverse: the result is below the prime and times x is 1. |
| `ModularInverse.Inverse` | tronlink-iOS-core/Classes/ABI/TrezorCrypto/trezor-crypto/bignum.c:595-869 | For every x in any 32-bit limbs: a multiple of the prime gives 0, every other x gives the r below the prime with x·r = 1 modulo the prime. |
| `ModularInverse.FormsAgree` | tronlink-iOS-core/Classes/ABI/TrezorCrypto/trezor-crypto/bignum.c:557-869 | The inverse below the prime, which the fast form computes, is what the slow form computes exactly if the lowest limb of the prime is at least 2 or x^(2^30) is 1 modulo the prime. |
| `BignumBytes.ReadBE` | tronlink-iOS-core/Classes/ABI/TrezorCrypto/trezor-crypto/bignum.c:89-107 | The normalized limbs hold the number the 32 big-endian bytes stand for. |
| `BignumBytes.ReadLE` | tronlink-iOS-core/Classes/ABI/TrezorCrypto/trezor-crypto/bignum.c:124-142 | The same for little-endian bytes. |
| `BignumBytes.WriteBE` | tronlink-iOS-core/Classes/ABI/TrezorCrypto/trezor-crypto/bignum.c:109-122 | The 32 bytes are the big-endian form of a number below 2^256. |
| `BignumBytes.WriteLE` | tronlink-iOS-core/Classes/ABI/TrezorCrypto/trezor-crypto/bignum.c:144-157 | The same for little-endian bytes. |
| `BignumBytes.WriteThenRead` | tronlink-iOS-core/Classes/ABI/TrezorCrypto/trezor-crypto/bignum.c:89-122 | Reading back what was written gives the same limbs. |
| `BignumBytes.ReadThenWrite` | tronlink-iOS-core/Classes/ABI/TrezorCrypto/trezor-crypto/bignum.c:87-122 | Writing what was read gives the same 32 bytes, for all bytes. |
| `BignumDecimal.DivMod58` | tronlink-iOS-core/Classes/ABI/TrezorCrypto/trezor-crypto/bignum.c:942-963 | Quotient and remainder by 58 for every normalized number, with limbs that stay normalized and no uint32 overflow. |
| `BignumDecimal.DivMod1000` | tronlink-iOS-core/Classes/ABI/TrezorCrypto/trezor-crypto/bignum.c:966-987 | The same by 1000. |
| `BignumDecimal.DigitCount` | tronlink-iOS-core/Classes/ABI/TrezorCrypto/trezor-crypto/bignum.c:198-221 | The number of decimal digits of the number modulo 10^78. |
| `BignumDecimal.DigitCountExact` | tronlink-iOS-core/Classes/ABI/TrezorCrypto/trezor-crypto/bignum.c:198-221 | That is the one length the number has exactly for numbers below 10^78, which include all below 2^256. |
| `AbiTypes.LayoutOf` | tronlink-iOS-core/Classes/Web3Subset/ABI/ABIv2.swift:36-81 | Succeeds exactly on accepted types within the depth limit whose nodes the budget covers, reports static or dynamic and the head size of the specification, and uses one node for every type visited. |
| `AbiTypes.AcceptedExactly` | tronlink-iOS-core/Classes/Web3Subset/ABI/ABIv2.swift:43-81 | Accepted within the depth limit are widths of 8, 16, ..., 256 bits, 1 to 80 decimals, 1 to 32 bytes, and arrays and tuples of types accepted one level deeper whose heads, added up so far, fit an Int. |
| `AbiTypes.NodesVisited` | tronlink-iOS-core/Classes/Web3Subset/ABI/ABIv2.swift:36-81 | The nodes of a type are the types visited in it, itself included, and it is static exactly if none of them is a text, bytes of any length or an array of any length. |
| `AbiSpec.EncSize` | tronlink-iOS-core/Classes/Web3Subset/ABI/ABIv2Encoding.swift:180-286 | Every encoding is a whole number of words, and a static one has the size its type announces. |
| `AbiSpec.ElementPlace` | tronlink-iOS-core/Classes/Web3Subset/ABI/ABIv2Encoding.swift:180-212 | In an assembled sequence, the head of every element holds the element or the offset at which its tail starts. |
| `AbiSpec.AddressWord` | tronlink-iOS-core/Classes/ABI/Solidity/ABIEncoder.swift:150-164 | Exactly the 20 address bytes, these behind 0x41 or behind zero, and these as a word stand for an address, and the word of each of the four is twelve zeros and the 20 bytes. |
| `AbiRoundTrip.LeafExact` | tronlink-iOS-core/Classes/Web3Subset/ABI/ABIv2Encoding.swift:214-286 | What an encoding holds: numbers modulo 2^256 in a word, a flag as 0 or 1, an address after twelve zeros, fixed bytes before zeros, and text and bytes as length, content and zeros up to the next whole word. |
| `AbiRoundTrip.ListExact` | tronlink-iOS-core/Classes/Web3Subset/ABI/ABIv2Encoding.swift:180-212 | The encoding of a list has the count of a dynamic array first, and then every element, in place or where its head says. |
| `AbiEncoder.SignedBytes` | tronlink-iOS-core/Classes/Web3Subset/ABI/ABIv2Encoding.swift:313-321 | Two's complement in a word exactly for numbers that fit the width. |
| `AbiEncoder.EncodeValue` | tronlink-iOS-core/Classes/Web3Subset/ABI/ABIv2Encoding.swift:214-286 | Succeeds exactly if the value belongs to the accepted type and the budget covers its cost; yields the specified encoding and takes exactly that cost. |
| `AbiEncoder.EncodeItems` | tronlink-iOS-core/Classes/Web3Subset/ABI/ABIv2Encoding.swift:194-212 | The loop over elements yields all heads and then all tails, with offsets that point at the tails. |
| `AbiCodec.Encode` | tronlink-iOS-core/Classes/Web3Subset/ABI/ABIv2Encoding.swift:166-171 | encode succeeds exactly on encodable values of accepted types that a full budget covers, with the bytes of the specification. |
| `AbiCodec.EncodeSingleType` | tronlink-iOS-core/Classes/Web3Subset/ABI/ABIv2Encoding.swift:171-176 | encodeSingleType does the same for one value, without an offset to it. |
| `AbiRoundTrip.WordRoundTrip` | tronlink-iOS-core/Classes/Web3Subset/ABI/ABIv2Decoding.swift:128-222 | Every value of one word is read back from its word, in the form the decoder uses. |
| `AbiRoundTrip.ItemStart` | tronlink-iOS-core/Classes/Web3Subset/ABI/ABIv2Decoding.swift:128-150 | The start of every element, static or dynamic, is found from its head. |
| `AbiRoundTrip.BodyRoundTrip` | tronlink-iOS-core/Classes/Web3Subset/ABI/ABIv2Decoding.swift:82-222 | Wherever the encoding of a value stands in any data, that value is read there, for any nesting of tuples and arrays. |
| `AbiDecoder.DecodeValue` | tronlink-iOS-core/Classes/Web3Subset/ABI/ABIv2Decoding.swift:128-222 | On any data: succeeds exactly if the type is accepted, the specification finds a value there and the budget covers it; then takes exactly its cost. All reads are in range and the recursion ends. |
| `AbiDecoder.DecodeTuple` | tronlink-iOS-core/Classes/Web3Subset/ABI/ABIv2Decoding.swift:82-103 | The same for the elements of a tuple. |
| `AbiDecoder.DecodeArray` | tronlink-iOS-core/Classes/Web3Subset/ABI/ABIv2Decoding.swift:105-126 | The same for the elements of an array. |
| `AbiDecoder.DecodePayload` | tronlink-iOS-core/Classes/Web3Subset/ABI/ABIv2Decoding.swift:186-202 | A length-prefixed payload with zero padding is returned exactly if it is there and the payload budget covers it. |
| `AbiExtent.PayloadIs` | tronlink-iOS-core/Classes/Web3Subset/ABI/ABIv2Decoding.swift:186-202 | The payload read at a place is b exactly if the word of its length, b and the zeros that fill it up stand there. |
| `AbiExtent.OffsetExact` | tronlink-iOS-core/Classes/Web3Subset/ABI/ABIv2Decoding.swift:205-236 | The offset of an element is accepted, with what it points at, exactly if its word stands in the head and it is a whole number of words that points behind the heads and into the data. |
| `Utf8.ValidExactly` | tronlink-iOS-core/Classes/Web3Subset/ABI/ABIv2Decoding.swift:198-201 | Bytes are accepted as text exactly if they are the UTF-8 of some Unicode scalar values. |
| `AbiCanonical.BodyCanonical` | tronlink-iOS-core/Classes/Web3Subset/ABI/ABIv2Decoding.swift:82-222 | Whatever is read from any data is a canonical value of its type. |
| `AbiCanonical.StaticExact` | tronlink-iOS-core/Classes/Web3Subset/ABI/ABIv2Decoding.swift:128-222 | A static value is accepted only in the form the encoder gives it. |
| `AbiCodec.Decode` | tronlink-iOS-core/Classes/Web3Subset/ABI/ABIv2Decoding.swift:38-44 | On any data: nodes of the result and nodes left add up to 1,000,000, payload bytes returned and payload left to 64 MiB, also when offsets share a payload; the result is canonical and is what the specification reads. |
| `AbiCodec.CostCounted` | tronlink-iOS-core/Classes/Web3Subset/ABI/ABIv2Decoding.swift:128-222 | Either direction takes one node for every value and one payload byte for every byte of text or bytes. |
| `AbiCosts.DirectionsCompared` | tronlink-iOS-core/Classes/Web3Subset/ABI/ABIv2Decoding.swift:82-126 | The decoder lays out at most twice as many types as the encoder for the same value. |
| `AbiCosts.SizeBound` | tronlink-iOS-core/Classes/Web3Subset/ABI/ABIv2Encoding.swift:180-286 | The size of an encoding is bounded by its cost, so nothing the budgets cover can overflow an Int. |
| `AbiCodec.EncodeThenDecode` | tronlink-iOS-core/Classes/Web3Subset/ABI/ABIv2Decoding.swift:82-236 | Decoding an encoding followed by any bytes gives back the values in canonical form, exactly if the type-node budget of the decoder suffices, and it does if the encoder left half of its own. |
| `AbiCodec.FieldsRefused` | tronlink-iOS-core/Classes/Web3Subset/ABI/ABIv2Decoding.swift:82-103 | It need not suffice: a tuple of n numbers can be encoded exactly if 2n is at most 1,000,000, and its encoding is decoded exactly if 3n is. |
| `AbiCodec.EncodingsDiffer` | tronlink-iOS-core/Classes/Web3Subset/ABI/ABIv2Encoding.swift:180-286 | No data starts with the encodings of two different values: encoding is injective and prefix-free for each type. |
| `AbiCodec.SameEncoding` | tronlink-iOS-core/Classes/Web3Subset/ABI/ABIv2Encoding.swift:180-286 | Two values have the same encoding exactly if the decoder has one form for both. |
| `AbiCodec.NormalizeCanonical` | tronlink-iOS-core/Classes/Web3Subset/ABI/ABIv2Decoding.swift:82-222 | That form is canonical and is encoded to the same bytes. |
| `AbiCodec.DecodedAgain` | tronlink-iOS-core/Classes/Web3Subset/ABI/ABIv2Decoding.swift:82-236 | Decoded values can be encoded, and decoding that gives them again. |
| `AbiExtent.ExtentExact` | tronlink-iOS-core/Classes/Web3Subset/ABI/ABIv2Decoding.swift:128-202 | Decoded data is the encoding of what was decoded exactly if every tail starts where the one before it ends, which the data alone tells; the encoding then ends with the last tail. |
| `AbiExtent.ReencodedSame` | tronlink-iOS-core/Classes/Web3Subset/ABI/ABIv2Decoding.swift:38-103 | Encoding decoded values gives the whole input back exactly if its tails are in that order and nothing follows the last one. |
| `AbiExtent.SharedTail` | tronlink-iOS-core/Classes/Web3Subset/ABI/ABIv2Decoding.swift:128-150 | An input that fails: two offsets to one payload are accepted although the encoder never emits them. |
| `SolidityEncoder.LengthIsSize` | tronlink-iOS-core/Classes/ABI/Solidity/ABIValue.swift:77-119 | length is the number of bytes a value encodes to, a whole number of words, and for static values the head size of its type. |
| `SolidityEncoder.OffsetsFit` | tronlink-iOS-core/Classes/ABI/Solidity/ABIEncoder.swift:53-77 | Heads and tails written so far are within tupleLength, so offsets stay in an Int. |
| `SolidityEncoder.ABIEncoder.EncodeBigInt` | tronlink-iOS-core/Classes/ABI/Solidity/ABIEncoder.swift:117-123 | Appends the number in 256-bit two's complement exactly if it fits. |
| `SolidityEncoder.ABIEncoder.EncodeAddress` | tronlink-iOS-core/Classes/ABI/Solidity/ABIEncoder.swift:142-166 | Appends twelve zeros and the 20 address bytes exactly if the raw bytes are one of the four forms of these 20 bytes. |
| `SolidityEncoder.ABIEncoder.Encode` | tronlink-iOS-core/Classes/ABI/Solidity/ABIEncoder.swift:17-50 | Succeeds exactly on valid values with usable addresses, and then appends the newer specification's encoding of the same value; calls among the values are left out. |
| `SolidityEncoder.ABIEncoder.EncodeTuple` | tronlink-iOS-core/Classes/ABI/Solidity/ABIEncoder.swift:52-77 | Appends all heads and then all tails, with the running dynamic offset pointing at each tail. |
| `SolidityCall.SignatureOf` | tronlink-iOS-core/Classes/ABI/Solidity/Function.swift:26-38 | The text a selector is made from is the name followed by the parameters as the newer ABI writes a tuple type. |
| `SolidityCall.SignaturesIdentify` | tronlink-iOS-core/Classes/ABI/Solidity/Function.swift:26-38 | Two functions with names without parentheses and parameters the newer ABI accepts have the same signature exactly if they have the same name and parameters. |
| `SolidityCall.EncodeCall` | tronlink-iOS-core/Classes/ABI/Solidity/ABIEncoder.swift:35-37 | A call is encoded exactly if its arguments are valid for the parameters and usable, as the selector and then the arguments as the newer ABI has them. |
| `SolidityCall.CallThenDecode` | tronlink-iOS-core/Classes/ABI/Solidity/ABIEncoder.swift:78-83 | The newer decoder gets the arguments back from what follows the selector, in canonical form, exactly if it accepts the parameters and can afford the arguments. |
| `SolidityValues.DynamicByType` | tronlink-iOS-core/Classes/ABI/Solidity/ABIValue.swift:105-119 | A value is dynamic exactly when its type is. |
| `SolidityValues.ValidExactly` | tronlink-iOS-core/Classes/ABI/Solidity/ABIType.swift:45-65 | Valid are widths of 8, 16, ..., 256 bits, 1 to 80 decimals, 1 to 32 bytes and valid types inside. |
| `SolidityValues.ValidValueExactly` | tronlink-iOS-core/Classes/ABI/Solidity/ABIValue.swift:172-202 | A value that is not a list is valid with a usable address or text exactly if it belongs to its type in the newer ABI and the type is valid; a list is valid exactly if its type and elements are and the elements of an array have the declared type. |
| `SolidityValues.SameEncodable` | tronlink-iOS-core/Classes/ABI/Solidity/ABIValue.swift:172-202 | Valid values belong to their type in the newer ABI exactly if their addresses and texts are usable. |
| `EncodersAgree.EncodeBoth` | tronlink-iOS-core/Classes/ABI/Solidity/ABIEncoder.swift:53-77 | On valid values both encoders produce the same bytes; the newer one refuses exactly what exceeds its limits. |
| `TwosComplement.AbiEncode` | tronlink-iOS-core/Classes/Web3Subset/Support/NativeTypesEncoding+Extensions.swift:76-92 | Exactly the numbers that fit the width are encoded, at exactly that width. |
| `TwosComplement.AbiEncodeInverse` | tronlink-iOS-core/Classes/Web3Subset/Support/NativeTypesEncoding+Extensions.swift:76-106 | fromTwosComplement undoes abiEncode at every width. |
| `TwosComplement.ToTwosComplementMinimal` | tronlink-iOS-core/Classes/Web3Subset/Support/NativeTypesEncoding+Extensions.swift:57-74 | fromTwosComplement undoes toTwosComplement, which gives the only shortest byte string of its number. |
| `TwosComplement.FitsExactly` | tronlink-iOS-core/Classes/Web3Subset/Support/NativeTypesEncoding+Extensions.swift:57-106 | A number fits a signed or unsigned width exactly if some bytes of that width stand for it. |
| `FixedPointText.ParseAccepts` | tronlink-iOS-core/Classes/Web3Subset/ABI/ABIv2Encoding.swift:356-376 | Decimal text is accepted exactly if it is a signed decimal with at most the declared number of significant decimals and a scaled value of at most 256 bits; the limit of 78 digits turns nothing else away. |
| `FixedPointText.ParseMeans` | tronlink-iOS-core/Classes/Web3Subset/ABI/ABIv2Encoding.swift:356-376 | The scaled value of accepted text is exactly the number written. |
| `FixedPointText.ParseOfDescription` | tronlink-iOS-core/Classes/Web3Subset/ABI/ABIv2Encoding.swift:342-387 | Reading the description of a fixed-point number gives the number back. |
| `FixedPointText.DescriptionsDiffer` | tronlink-iOS-core/Classes/Web3Subset/ABI/ABIv2Encoding.swift:378-387 | Different numbers with the same number of decimals have different descriptions. |
| `TypeStrings.SameIsEquivalence` | tronlink-iOS-core/Classes/Web3Subset/ABI/ABIv2ParameterTypes.swift:85-168 | The custom equality holds exactly between types with one canonical form, so it is an equivalence. |
| `TypeStrings.CanonLayout` | tronlink-iOS-core/Classes/Web3Subset/ABI/ABIv2.swift:43-81 | Types that are equal have the same layout, height and nodes. |
| `TypeStrings.Names` | tronlink-iOS-core/Classes/Web3Subset/ABI/ABIv2ParameterTypes.swift:170-205 | The names of the elementary types at their usual widths, letter by letter. |
| `TypeStrings.TupleName` | tronlink-iOS-core/Classes/Web3Subset/ABI/ABIv2ParameterTypes.swift:170-205 | The same for a tuple of arrays. |
| `TypeParser.Parser.ParseType` | tronlink-iOS-core/Classes/Web3Subset/ABI/ABIv2TypeParser.swift:38-108 | The mutating parser yields what the grammar assigns to its position and moves past it. |
| `TypeParser.ParseTypeString` | tronlink-iOS-core/Classes/Web3Subset/ABI/ABIv2TypeParser.swift:6-12 | Succeeds exactly if the whole string is one type. |
| `TypeSpelling.ParsesExactly` | tronlink-iOS-core/Classes/Web3Subset/ABI/ABIv2TypeParser.swift:6-108 | A text is parsed as a type exactly if the layout accepts the type and one of the spellings of the grammar with that meaning is the text: names with or without widths, tuples with or without the word, and array suffixes. |
| `TypeSpelling.ShortAsLong` | tronlink-iOS-core/Classes/Web3Subset/ABI/ABIv2TypeParser.swift:66-86 | A spelling with the names uint, int, fixed and ufixed anywhere in it and the one with uint256, int256, fixed128x18 and ufixed128x18 in their places both fail or give the same type. |
| `TypeSpelling.ShortThenRest` | tronlink-iOS-core/Classes/Web3Subset/ABI/ABIv2TypeParser.swift:66-86 | Whatever follows such a name without continuing it, the short and the long form both fail or give the same type and leave the same rest. |
| `TypeRoundTrip.ParseOfRepr` | tronlink-iOS-core/Classes/Web3Subset/ABI/ABIv2TypeParser.swift:38-129 | Every type the layout accepts is parsed back from its name, up to the custom equality. |
| `TypeRoundTrip.NamesIdentifyTypes` | tronlink-iOS-core/Classes/Web3Subset/ABI/ABIv2ParameterTypes.swift:85-205 | Two accepted types have the same name exactly when the custom equality holds between them. |
| `Radix.ConvertBack` | tronlink-iOS-core/Classes/types/Base58String.swift:15-35 | Conversion between bases that keeps leading zeros is undone by converting back. |
| `Radix.ConvertExact` | tronlink-iOS-core/Classes/types/Base58String.swift:15-35 | The conversion is the only digits of the new base with the same number and as many leading zeros. |
| `Base58.MapIsIndex` | tronlink-iOS-core/Classes/ABI/TrezorCrypto/trezor-crypto/base58.c:28-42 | The lookup table holds the digit of every character of the alphabet and −1 for every other byte. |
| `Base58.EncodedExact` | tronlink-iOS-core/Classes/types/Base58String.swift:15-41 | The text of some bytes is the only text in the alphabet whose digits stand for the same number, with as many leading zeros. |
| `Base58.AlphabetExact` | tronlink-iOS-core/Classes/ABI/TrezorCrypto/trezor-crypto/base58.c:32 | The alphabet is all digits and letters but 0, I, O and l, in the order of their codes. |
| `Base58.ValidAlphabetExactly` | tronlink-iOS-core/Classes/types/Base58String.swift:8-10 | An alphabet is valid exactly if it is 58 ASCII characters none of which comes again. |
| `Base58.DecodeOfEncode` | tronlink-iOS-core/Classes/types/Base58String.swift:15-86 | Decoding undoes encoding, for every alphabet of 58 different characters. |
| `Base58.EncodeOfDecode` | tronlink-iOS-core/Classes/types/Base58String.swift:15-86 | Encoding undoes decoding: every text in the alphabet stands for exactly one byte string. |
| `Base58Swift.Encode` | tronlink-iOS-core/Classes/types/Base58String.swift:15-41 | The big-integer loop computes the conversion for valid alphabets and is refused for others. |
| `Base58Swift.Decode` | tronlink-iOS-core/Classes/types/Base58String.swift:64-86 | The big-integer loop computes the inverse conversion, or nil for unknown characters. |
| `Base58C.BufferSuffices` | tronlink-iOS-core/Classes/ABI/TrezorCrypto/trezor-crypto/base58.c:166-168 | 256^n is below 58^(138n/100 + 1) for every n: the buffer of b58enc is always large enough. |
| `Base58C.AddByte` | tronlink-iOS-core/Classes/ABI/TrezorCrypto/trezor-crypto/base58.c:170-178 | The carry loop multiplies by 256 and adds a byte, never runs below index 0, and leaves zeros up to the new high mark. |
| `Base58C.Encode` | tronlink-iOS-core/Classes/ABI/TrezorCrypto/trezor-crypto/base58.c:156-196 | Writes the text of the big-integer encoder and a NUL exactly if both fit, and otherwise reports the room needed and writes nothing. |
| `Base58Words.MultiplyAdd` | tronlink-iOS-core/Classes/ABI/TrezorCrypto/trezor-crypto/base58.c:81-86 | The words times 58 plus a digit, with the carry out. |
| `Base58Words.ReadWords` | tronlink-iOS-core/Classes/ABI/TrezorCrypto/trezor-crypto/base58.c:68-93 | Succeeds exactly if all characters are known and the number fits; an overflow found on the way stays one. |
| `Base58Words.WriteBytes` | tronlink-iOS-core/Classes/ABI/TrezorCrypto/trezor-crypto/base58.c:95-117 | The words become the bytes of their number, the first word with its share only. |
| `Base58Words.Decode` | tronlink-iOS-core/Classes/ABI/TrezorCrypto/trezor-crypto/base58.c:44-134 | b58tobin succeeds exactly when the big-integer decoder does with a result that fits a nonzero capacity; then it returns the same bytes, right-aligned after zeros. |
| `Base58Words.EncodeThenDecode` | tronlink-iOS-core/Classes/ABI/TrezorCrypto/trezor-crypto/base58.c:44-196 | b58tobin of b58enc gives the data right-aligned for every capacity that holds the data and is not 0. |
| `ScryptSpec.PowerTest` | tronlink-iOS-core/Classes/Keystore/ScryptParams.swift:157-186 | n & (n − 1) is zero exactly on powers of two. |
| `ScryptSpec.XorWordBits` | tronlink-iOS-core/Classes/Keystore/Scrypt.swift:237-246 | A bit of the xor of two words is set exactly if it is set in one of the two only. |
| `Scrypt.WordIsValue` | tronlink-iOS-core/Classes/Keystore/Scrypt.swift:105-107 | Words are loaded from bytes with the least significant byte first. |
| `ScryptSpec.BlockMixSteps` | tronlink-iOS-core/Classes/Keystore/Scrypt.swift:153-176 | scryptBlockMix as RFC 7914 has it: X is the last block, is xored bit by bit with every block and mixed in turn, and the results of even turns come before those of odd turns. |
| `ScryptSpec.ROMixIsSteps` | tronlink-iOS-core/Classes/Keystore/Scrypt.swift:96-143 | scryptROMix as RFC 7914 has it: a table of inputs mixed again and again, and then turns that mix X xored bit by bit with the entry that the last block of X names modulo n. |
| `ScryptSpec.IntegerifyMasked` | tronlink-iOS-core/Classes/Keystore/Scrypt.swift:145-151 | The low 64 bits of the last block, masked with n − 1, are the whole block modulo n. |
| `Scrypt.Scrypt.BlockXor` | tronlink-iOS-core/Classes/Keystore/Scrypt.swift:237-246 | Every bit of every word of the target is set afterwards exactly if it was set in one of the two words only, and nothing else changes. |
| `Scrypt.Scrypt.BlockMixSalsa8` | tronlink-iOS-core/Classes/Keystore/Scrypt.swift:153-176 | The output region gets scryptBlockMix of the input region for every r, and the input stays as it is. |
| `Scrypt.Scrypt.FillTable` | tronlink-iOS-core/Classes/Keystore/Scrypt.swift:96-143 | After the unrolled loop, table entry i is the input mixed i times, for every i, and X is the input mixed n times. |
| `Scrypt.Scrypt.LookUps` | tronlink-iOS-core/Classes/Keystore/Scrypt.swift:96-143 | The unrolled second loop, with X and Y taking turns, ends with scryptROMix in X. |
| `Scrypt.Scrypt.Smix` | tronlink-iOS-core/Classes/Keystore/Scrypt.swift:96-143 | Replaces 128·r bytes by their scryptROMix, for every r and every power of two n from 2, with all accesses in bounds and all other bytes unchanged. |
| `ScryptKey.ValidParams` | tronlink-iOS-core/Classes/Keystore/ScryptParams.swift:157-186 | validate returns nil exactly for a power of two as cost factor with all parameters within the limits and a table that fits the memory limit. |
| `ScryptKey.Derive` | tronlink-iOS-core/Classes/Keystore/Scrypt.swift:42-94 | For parameters that validate accepts, the key is derived from the mixed parts of the first key; every buffer access of the mixing is in bounds. |
| `ScryptKey.MixUnique` | tronlink-iOS-core/Classes/Keystore/Scrypt.swift:96-143 | scryptROMix on bytes has only one result, so the description of the mixed parts determines them. |
| `Blake256.Hasher.Update` | tronlink-iOS-core/Classes/ABI/TrezorCrypto/trezor-crypto/blake256.c:136-179 | Whatever the chunks, the context is that of the bytes in a row. |
| `Blake256.Hasher.FinishOne` | tronlink-iOS-core/Classes/ABI/TrezorCrypto/trezor-crypto/blake256.c:181-229 | With at most 55 bytes buffered, one padded block is compressed with the counter of the message bits, or zero if it holds none, although the counter is first taken back modulo 2^32. |
| `Blake256.Hasher.FinishTwo` | tronlink-iOS-core/Classes/ABI/TrezorCrypto/trezor-crypto/blake256.c:181-229 | With more bytes buffered, the first of two blocks counts the message bits and the second one nothing. |
| `Blake256.LengthWords` | tronlink-iOS-core/Classes/ABI/TrezorCrypto/trezor-crypto/blake256.c:181-190 | The eight length bytes computed from the counter words are the message length in bits modulo 2^64. |
| `Blake256.DrainIsHash` | tronlink-iOS-core/Classes/ABI/TrezorCrypto/trezor-crypto/blake256.c:136-179 | The blocks compressed while absorbing, with their counters, are those of the padded message. |
| `Blake256.StateBytesExact` | tronlink-iOS-core/Classes/ABI/TrezorCrypto/trezor-crypto/blake256.c:221-228 | Bytes 4i to 4i + 3 of the digest are word i of the state, most significant byte first. |
| `Blake256.PaddedExact` | tronlink-iOS-core/Classes/ABI/TrezorCrypto/trezor-crypto/blake256.c:181-229 | The padding is a one bit, the least number of zeros, a one bit and the message length in bits as a 64-bit number. |
| `Blake256.DigestIsSteps` | tronlink-iOS-core/Classes/ABI/TrezorCrypto/trezor-crypto/blake256.c:121-229 | The specified digest comes from the initial value by compressing the padded message block by block, with the message bits up to the end of each block as counter, or zero if it holds none. |
| `Blake256.InitialRoots` | tronlink-iOS-core/Classes/ABI/TrezorCrypto/trezor-crypto/blake256.c:121-131 | The words of the initial value are the first 32 bits after the point of the square roots of the first eight primes. |
| `Blake256.Hasher.Final` | tronlink-iOS-core/Classes/ABI/TrezorCrypto/trezor-crypto/blake256.c:181-229 | The digest of all bytes absorbed: word i of the specified state as bytes 4i to 4i + 3, most significant first. |
| `Blake256.HashChunks` | tronlink-iOS-core/Classes/ABI/TrezorCrypto/trezor-crypto/blake256.c:121-238 | The same for any chunks and their concatenation. |
| `Blake2.CountsNext` | tronlink-iOS-core/Classes/ABI/TrezorCrypto/trezor-crypto/blake2b.c:81-85 | The two counter words stand for the byte count plus the increment; the carry test on the wrapped low word is right. |
| `Blake2.BlocksMore` | tronlink-iOS-core/Classes/ABI/TrezorCrypto/trezor-crypto/blake2b.c:257-282 | What has been compressed stays so when more data arrives: the last full block is kept back. |
| `Blake2.Hasher.Update` | tronlink-iOS-core/Classes/ABI/TrezorCrypto/trezor-crypto/blake2b.c:257-282 | Whatever the chunks, the context is that of the bytes in a row. |
| `Blake2.InitialIsParameterized` | tronlink-iOS-core/Classes/ABI/TrezorCrypto/trezor-crypto/blake2b.c:95-125 | Without a personalization the parameter block only changes the first word of the initialization vector, by the number RFC 7693 gives. |
| `Blake2.Hasher.InitKey` | tronlink-iOS-core/Classes/ABI/TrezorCrypto/trezor-crypto/blake2b.c:156-182 | Accepts exactly the lengths in range; the chaining value is the vector xored with the parameter block, and a keyed context is one that absorbed the key filled up to a block. |
| `Blake2.Hasher.InitPersonal` | tronlink-iOS-core/Classes/ABI/TrezorCrypto/trezor-crypto/blake2b.c:131-153 | Accepts exactly the digest lengths in range with a personalization of full length, which enters the chaining value. |
| `Blake2.WordBytesValue` | tronlink-iOS-core/Classes/ABI/TrezorCrypto/trezor-crypto/blake2b.c:300-301 | The bytes of a stored word, least significant first, have its value. |
| `Blake2.StateBytesExact` | tronlink-iOS-core/Classes/ABI/TrezorCrypto/trezor-crypto/blake2b.c:300-301 | Byte q of the stored state is byte q mod 8 of word q / 8, of 4 for BLAKE2s, and every word has its value. |
| `Blake2.HashIsSteps` | tronlink-iOS-core/Classes/ABI/TrezorCrypto/trezor-crypto/blake2b.c:257-304 | The specified hash comes from the initial value by compressing the message, filled up with zeros to whole blocks but to one block at least, with the bytes up to the end of each block as counter; the last one has all message bytes and the flags. |
| `Blake2.VectorRoots` | tronlink-iOS-core/Classes/ABI/TrezorCrypto/trezor-crypto/blake2b.c:38-44 | The words of both initialization vectors are the first bits after the point of the square roots of the first eight primes. |
| `Blake2.VariantSizes` | tronlink-iOS-core/Classes/ABI/TrezorCrypto/trezor-crypto/blake2b.h:7-14 | Blocks are sixteen words of 8 or 4 bytes, and digests and keys are eight at most. |
| `Blake2.Hasher.Final` | tronlink-iOS-core/Classes/ABI/TrezorCrypto/trezor-crypto/blake2s.c:278-300 | Refuses a short output or a second call; otherwise the last block, filled with zeros, is compressed with the total count and the last-block flag, and byte q of the digest is the byte of the specified state that q names, the least significant of a word first. |
| `Blake2.HashChunks` | tronlink-iOS-core/Classes/ABI/TrezorCrypto/trezor-crypto/blake2s.c:251-309 | For both variants and any chunks the digest is the specified one of their concatenation, byte by byte. |
| `Bip39.Codec.FromData` | tronlink-iOS-core/Classes/ABI/TrezorCrypto/trezor-crypto/bip39.c:76-111 | The sentence of the entropy and its checksum exactly for the five lengths and a large enough buffer, which it fits with its NUL. |
| `Bip39.Codec.ToEntropy` | tronlink-iOS-core/Classes/ABI/TrezorCrypto/trezor-crypto/bip39.c:146-208 | Succeeds exactly on 12 to 24 known words with single spaces between them, and packs their indexes, eleven bits each. |
| `Mnemonic.Recovered` | tronlink-iOS-core/Classes/ABI/TrezorCrypto/trezor-crypto/bip39.c:76-208 | The bytes mnemonic_to_entropy gives for the sentence of some entropy start with that entropy. |
| `Mnemonic.SentenceExact` | tronlink-iOS-core/Classes/ABI/TrezorCrypto/trezor-crypto/bip39.c:86-106 | Read as digits of base 2048, the places of the words of a sentence in the list are the entropy followed by its checksum. |
| `Mnemonic.ChecksumGivesSentence` | tronlink-iOS-core/Classes/ABI/TrezorCrypto/trezor-crypto/bip39.c:210-223 | Known words whose checksum holds are the sentence of their own entropy. |
| `Mnemonic.SentenceHasChecksum` | tronlink-iOS-core/Classes/ABI/TrezorCrypto/trezor-crypto/bip39.c:210-223 | The sentence of entropy has a checksum that holds. |
| `Bip39.Codec.Check` | tronlink-iOS-core/Classes/ABI/TrezorCrypto/trezor-crypto/bip39.c:210-223 | mnemonic_check accepts exactly the sentences of entropy of 16, 20, 24, 28 or 32 bytes. |
| `RlpEncoder.PutInt` | tronlink-iOS-core/Classes/ABI/RLP.swift:122-183 | The minimal big-endian bytes of every 64-bit number, one byte for zero. |
| `RlpEncoder.ItemExact` | tronlink-iOS-core/Classes/ABI/RLP.swift:15-82 | The item of an element: its bytes, its number without leading zeros, or the items of its elements in their order; there is none exactly if a number in it is negative. |
| `Rlp.EncodeExact` | tronlink-iOS-core/Classes/ABI/RLP.swift:84-119 | A byte below 0x80 stands for itself; other strings follow a tag from 0x80 on and lists one from 0xc0 on, which holds the size below 56 or else the size of the minimal size bytes that come next. |
| `Rlp.EncodeAllInOrder` | tronlink-iOS-core/Classes/ABI/RLP.swift:95-107 | The encodings of the items of a list follow each other in their order. |
| `RlpEncoder.EncodeElement` | tronlink-iOS-core/Classes/ABI/RLP.swift:15-82 | nil exactly if a negative number occurs in the element; otherwise the encoding of its item. |
| `RlpEncoder.EncodeList` | tronlink-iOS-core/Classes/ABI/RLP.swift:95-107 | The same for a list. |
| `Rlp.DecodeOfEncode` | tronlink-iOS-core/Classes/ABI/RLP.swift:84-119 | Decoding an encoding followed by any bytes gives the item and exactly those bytes. |
| `Rlp.PrefixFree` | tronlink-iOS-core/Classes/ABI/RLP.swift:84-119 | No encoding is a proper prefix of another, and different items have different encodings. |
| `Rlp.EncodeOfDecode` | tronlink-iOS-core/Classes/ABI/RLP.swift:84-119 | The decoder accepts only encodings: what it consumed is the encoding of the item it returns. |
| `Metrics.DistributionTokenAmount` | tronlink-iOS-core/Classes/Metrics/Reporter/TRXStatisticalUploadManager.swift:181-197 | Counts up exactly the bucket whose interval contains a positive amount, and nothing for others. |
| `MetricsModel.BucketIsInterval` | tronlink-iOS-core/Classes/Metrics/Reporter/TRXStatisticalUploadManager.swift:181-197 | The bucket is the only interval between powers of ten, upper ends included, that contains the amount; exactly the amounts that are not positive have none. |
| `MetricsModel.TransformFails` | tronlink-iOS-core/Classes/Metrics/Reporter/TRXStatisticalUploadManager.swift:95-144 | In reachable states an event is refused exactly if its row has the largest count or a sum cannot be formed: the guards on the buckets never fire. |
| `MetricsModel.StageExact` | tronlink-iOS-core/Classes/Metrics/Reporter/TRXStatisticalUploadManager.swift:224-232 | Over every interleaving, an upload counts as accepted exactly if the server answered success while the upload was sent and unanswered, and as rejected exactly if it answered failure then. |
| `MetricsModel.RecordExact` | tronlink-iOS-core/Classes/Metrics/DataBase/TRXMetricsDBManager.swift:743-774 | In a reachable state an event is refused, and then nothing changes, exactly if an access fails, the count is the largest or a sum cannot be formed; otherwise it is saved, its row counts one more and is marked as changed, and no other row changes. |
| `MetricsModel.RefusedExactly` | tronlink-iOS-core/Classes/Metrics/Reporter/TRXStatisticalUploadManager.swift:95-144 | For any row, reachable or not, an event is refused exactly if the count or a bucket is negative or would outgrow an Int, or a sum cannot be formed. |
| `MetricsModel.FailedChangesNothing` | tronlink-iOS-core/Classes/Metrics/DataBase/TRXMetricsDBManager.swift:743-774 | An upsert that could not read or commit changes nothing; a cleanup that failed, a snapshot and an answer leave all rows as they are. |
| `MetricsModel.AlwaysTaken` | tronlink-iOS-core/Classes/Metrics/Reporter/TRXStatisticalUploadManager.swift:216-224 | The entries of every upload are the listed rows, each marked as changed and as it was in the table when the upload was taken. |
| `MetricsModel.AlwaysTallied` | tronlink-iOS-core/Classes/Metrics/Reporter/TRXStatisticalUploadManager.swift:95-144 | Over every interleaving, a row's count is the number of saved events of its key folded into it, each once, its wallet type is that of the last of them, and A1 + … + A9 <= count. |
| `MetricsModel.AlwaysReported` | tronlink-iOS-core/Classes/Metrics/DataBase/TRXMetricsDBManager.swift:545-618 | Over every interleaving of recording, snapshots, answers, acknowledgements and cleanups, every row marked as reported and every row ever removed was, with exactly its content, in an upload that the server answered with success. |
| `MetricsHistory.Conservation` | tronlink-iOS-core/Classes/Metrics/DataBase/TRXMetricsDBManager.swift:545-618 | For every key, what the saved events add up to in count, amounts and each bucket is what the table holds plus what was removed. |
| `MetricsHistory.AcknowledgedEvents` | tronlink-iOS-core/Classes/Metrics/DataBase/TRXMetricsDBManager.swift:583-618 | A row that matches an uploaded one stands for the same events exactly if it is still the row that was uploaded and not one made anew. |
| `MetricsHistory.AlwaysEventsReported` | tronlink-iOS-core/Classes/Metrics/Reporter/TRXStatisticalUploadManager.swift:216-253 | If no event is dated before a day already cleaned up, every event of every removed row was itself in an upload that the server answered with success. |
| `MetricsLate.LateEventLost` | tronlink-iOS-core/Classes/Metrics/Reporter/TRXStatisticalUploadManager.swift:216-253 | Every event dated before the day of a cleanup can be lost: after two uploads it has been saved twice and removed twice, and no upload the server answered with success ever carried the second one. |
| `MetricsLate.LostExactly` | tronlink-iOS-core/Classes/Metrics/Reporter/TRXStatisticalUploadManager.swift:216-253 | Runs that save one event and clean up on one day can lose it exactly if its date is before that day. |
| `MetricsHistory.QuietPart` | tronlink-iOS-core/Classes/Metrics/Reporter/TRXStatisticalUploadManager.swift:216-253 | After an accepted upload of whatever rows the query gave, with nothing in between, exactly these rows are newly marked as reported, the identity's marked rows of past days are gone, and no other row has changed. |
| `MetricsHistory.QuietUpload` | tronlink-iOS-core/Classes/Metrics/Reporter/TRXStatisticalUploadManager.swift:216-253 | If the query was complete, the identity's rows of past days are gone, its other rows are all marked as reported, and no other row has changed. |
| `Metrics.Statistics.Upsert` | tronlink-iOS-core/Classes/Metrics/DataBase/TRXMetricsDBManager.swift:743-774 | The read, transform and write of one event change the state as the model says, and report success exactly when the event was saved. |
| `Metrics.Statistics.GetUpdated` | tronlink-iOS-core/Classes/Metrics/DataBase/TRXMetricsDBManager.swift:554-566 | Lists changed rows of the identity, each once, and all of them unless the query fails before the last. |
| `Metrics.Statistics.AcknowledgeUploadedTransaction` | tronlink-iOS-core/Classes/Metrics/DataBase/TRXMetricsDBManager.swift:583-618 | Only a row that is marked as changed and equal to the uploaded one in every other column is marked as reported. |
| `Metrics.Statistics.Advance` | tronlink-iOS-core/Classes/Metrics/Reporter/TRXStatisticalUploadManager.swift:236-246 | Acknowledgements one by one and then the cleanup, each as in the model. |
| `KeyStoreModel.AlwaysConsistent` | tronlink-iOS-core/Classes/Keystore/KeyStore.swift:41-93 | In every reachable state each account has a cached key, and both have that address, if mnemonics are imported under the address derived from them. |
| `KeyStoreModel.ImportMnemonicExact` | tronlink-iOS-core/Classes/Keystore/KeyStore.swift:227-256 | Importing a mnemonic under a stated address keeps that exactly if the address is the derived one, which the import does not compare. |
| `KeyStoreModel.SuccessMeans` | tronlink-iOS-core/Classes/Keystore/KeyStore.swift:117-407 | What an operation that succeeds leaves behind: key on disk, in the cache and in the accounts, or none of them after a deletion. |
| `KeyStoreModel.SuccessExact` | tronlink-iOS-core/Classes/Keystore/KeyStore.swift:117-407 | Once everything listed has been read, success of an operation changes accounts, cached keys and files in exactly the stated entries. |
| `KeyStoreModel.FailureMeans` | tronlink-iOS-core/Classes/Keystore/KeyStore.swift:117-407 | Once everything listed has been read, an operation that fails changes no account, no cached key and no file. |
| `KeyStoreModel.EnterUnread` | tronlink-iOS-core/Classes/Keystore/KeyStore.swift:41-93 | After the retry at the start of a section something listed is unread exactly if the directory could not be made or listed, or one of the files concerned, not loaded before, could not be read. |
| `KeyStoreModel.EnterExtends` | tronlink-iOS-core/Classes/Keystore/KeyStore.swift:56-93 | That retry takes away and replaces no account, no cached key and no file. |
| `KeyStoreModel.DiskGuarded` | tronlink-iOS-core/Classes/Keystore/KeyStore.swift:485-508 | Nothing is saved or deleted while a listed file is unread: the disk changes only when the operation succeeds, and whenever one that saves or deletes succeeds, everything listed has been read. |
| `KeyStoreModel.LoadKnown` | tronlink-iOS-core/Classes/Keystore/KeyStore.swift:56-93 | Retrying files that were read before registers nothing. |
| `KeyStoreModel.ApplyComplete` | tronlink-iOS-core/Classes/Keystore/KeyStore.swift:445-459 | Once everything listed has been read it stays so, and an operation adds no account but its own. |
| `KeyStoreModel.NothingReturns` | tronlink-iOS-core/Classes/Keystore/KeyStore.swift:385-407 | Over any further operations, an address without an account, such as a deleted one, gets one only by creating, importing or adding that address. |
| `KeyStoreRestart.Restarted` | tronlink-iOS-core/Classes/Keystore/KeyStore.swift:41-93 | A new process that can read every file registers exactly the addresses of the keys on disk, each with the key of its file and the account type of that key. |
| `KeyStoreRestart.DeletedStaysGone` | tronlink-iOS-core/Classes/Keystore/KeyStore.swift:385-407 | After a restart a deleted address is back exactly if another file had it. |
| `KeyStoreRestart.SavedComesBack` | tronlink-iOS-core/Classes/Keystore/KeyStore.swift:117-263 | After a restart an address that was created, added or imported is there. |
| `KeyStoreRestart.AlwaysOnDisk` | tronlink-iOS-core/Classes/Keystore/KeyStore.swift:41-93 | In every reachable state each account has a file on disk with a key of its address, if accesses read what is on disk and no key is saved over one of another address. |
| `KeyStoreRestart.NothingLost` | tronlink-iOS-core/Classes/Keystore/KeyStore.swift:41-93 | Then a restart with every file readable registers all accounts the process before had. |
| `KeyStore.KeyStore.LoadAccounts` | tronlink-iOS-core/Classes/Keystore/KeyStore.swift:56-93 | The loop over the files goes through the states of the model. |
| `KeyStore.KeyStore.WithStateLock` | tronlink-iOS-core/Classes/Keystore/KeyStore.swift:445-459 | Every locked section first retries what is pending, as in the model. |
| `KeyStore.KeyStore.SaveKey` | tronlink-iOS-core/Classes/Keystore/KeyStore.swift:485-508 | The key is on disk exactly if no listed file is unread and encoding, exclusion and writing succeed. |
| `KeyStore.KeyStore.CreateAccount` | tronlink-iOS-core/Classes/Keystore/KeyStore.swift:117-131 | Saved, cached and registered, or nothing of it, as in the model; succeeds exactly when saved. |
| `KeyStore.KeyStore.AddAccount` | tronlink-iOS-core/Classes/Keystore/KeyStore.swift:133-144 | The same for an account whose key is cached; succeeds exactly if it is and was saved. |
| `KeyStore.KeyStore.ImportJson` | tronlink-iOS-core/Classes/Keystore/KeyStore.swift:162-220 | The two locked sections with reads of others between them: succeeds exactly if the decrypted key has the stated address, which is new in both sections, and was saved. |
| `KeyStore.KeyStore.ImportMnemonic` | tronlink-iOS-core/Classes/Keystore/KeyStore.swift:227-256 | The same, registering the account under the derived address, which is not compared with the stated one. |
| `KeyStore.KeyStore.Update` | tronlink-iOS-core/Classes/Keystore/KeyStore.swift:348-383 | The two locked sections with reads of others between them: replaces the cached key exactly if it has the same address and was saved, and reports that. |
| `KeyStore.KeyStore.Delete` | tronlink-iOS-core/Classes/Keystore/KeyStore.swift:385-407 | The same for a deletion: file, key and account go together, exactly if the password fits, nothing listed is unread and the file could be removed. |

## Left out

- SolidityEncoder.ABIEncoder.Encode: values that are themselves function calls are not modelled; a call on the outside
  is (`SolidityCall.EncodeCall`).
- Powers.InverseSlow: asks for normalized limbs, as bn_multiply_long does.
- ScryptKey.Derive: PBKDF2 is an arbitrary function whose results have the length asked for.
- KeyStore.KeyStore.ImportJson: decryption, key derivation and file names are outcomes given from outside.
- KeyStore.KeyStore.ImportMnemonic: the same.
- Metrics.Statistics.Upsert: amounts are exact reals and whether their sum can be formed is an outcome; rounding by
  NSDecimalNumber and the text form of amounts in the table are not modelled.
- Metrics: removal of address mappings, migration from the older database, direct upserts of whole models, and the
  asset statistics, which follow the same protocol with simpler rows.
- Conversion of loosely typed arguments (strings, hex, Web3 addresses) by the ABI encoders: arguments are values tagged
  with their kind, and texts are UTF-8 bytes.
- decodeLegacyMetadata, event logs and decodeSignleType at an arbitrary pointer, which only calls what is modelled.
- Calls as arguments of calls in the older ABI; the hash that selectors are taken from is an arbitrary function.
- Lengths beyond what fits memory: data handed to the decoder has at most Int.max bytes, data encoded as RLP fewer than
  2^64, and `size_t` arithmetic on longer inputs is not modelled.
- bn_add, bn_addmod, bn_mult_k, bn_subi, bn_lshift, single-bit access and bn_format: they would only add easy members.
- Checksummed Base58 variants; mnemonic_generate, mnemonic_from_data_indexes and mnemonic_to_seed.
- The compression functions of BLAKE, Salsa20/8, SHA-256 and elliptic curves: any function takes their place.
- Constant-time behaviour, wiping of memory and the quality of randomness.
- KeyStore exports and signing, which read the state and change nothing but what is pending.
