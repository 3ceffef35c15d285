# Matasano crypto challenges (Rust): byte-level core in Dafny

This project models the byte-level building blocks of a set of solutions to
the Matasano cryptography challenges:

- **Base64** (`Base64`, `set1/challenge1/src/convertoHexToBase64.rs`).
  - The encoder handles three bytes at a time with the alphabet of section 4
    of RFC 4648. It pads the last group with `=`.
  - The decoder checks that the length is a multiple of four and that every
    character is in the alphabet. It allows `=` in the last two places of the
    final group, and reassembles the bytes.
  - `Encode`, `Decode` and `BuildDecodeMap` are imperative methods with the
    source's loops. Each is proved equal to a reference function:
    `Encoding`, `Decoding` and `IsDecodeMap`.
  - The quirks of the source are kept. `encode` needs at least three bytes.
    `decode` needs a non-empty input. `decode` always keeps the second byte
    of a padded final group.
  - A separate strict decoder, `StrictDecoding`, decodes the padded last
    group as RFC 4648 reads it. Decoding an encoding with it gives back the
    bytes. It is a one-sided inverse only: it does not check that the unused
    padding bits are zero, so "QR==" also decodes to [0x41] (see the line on
    `Base64.StrictDecoding` under Left out).
- **Key-length scan** (`Utility`, `src/utility.rs`).
  - `FindNormalizedEditDistances` takes each key length L = 1..39 while
    L ≤ n/2. It computes the bit-level Hamming distance of the first two
    L-byte blocks, divides it by L, and sorts the entries by distance.
  - The distance is an exact `real`.
- **Hamming distance** (`HammingDistance`).
  - A Dafny definition of what the external `bitwise_hamming_distance` crate
    computes: the number of differing bits.
- **Fixed XOR** (`FixedXor`, `src/fixed_xor.rs`).
  - Elementwise XOR of two buffers. It fails when their lengths differ.
- **Occurrence counting** (`FrequencyAnalysis`, `src/frequency_analysis.rs`).
  - A map from every distinct item to its number of occurrences.
- **Repeating-key XOR** (`RepeatingXor`, `src/repeating_xor.rs`).
  - Each input byte is XOR-ed with the next byte of a cycled key.

Bytes are `bv8`. Rust strings taken as bytes are `seq<bv8>`. Rust `char`
sequences are `seq<char>`. Error strings become tagged error datatypes that
carry the data the message prints: `DecodeError`, `ScanError`, `XorError`
and `HammingError`. Rust panics are preconditions: the `usize` underflows in
`encode` and `decode`, and the `unwrap` on the cycled empty key.

Two facts about the code are worth stating outright:

- The key-length scan's range `1..40` excludes 40, so the longest key
  length tried is 39.
- Base64 inputs that are too short make the source panic. It does not
  return an error for them.

## Model

| member | source | states |
|---|---|---|
| `Base64.EncodeTableLiteral` | set1/challenge1/src/convertoHexToBase64.rs:8-18 | The 64-entry table is the literal A–Z, a–z, 0–9, `+`, `/` in that order. |
| `Base64.PadNotInTable` | set1/challenge1/src/convertoHexToBase64.rs:156-175 | `=` is not in the alphabet and has no 6-bit value, so its lookup always fails and only the explicit `=` test in the final group accepts it. |
| `Base64.SextetOfInverse` | set1/challenge1/src/convertoHexToBase64.rs:86-90 | A character has a 6-bit value exactly when it is in the table. The table entry at that value is the character. |
| `Base64.Encode` | set1/challenge1/src/convertoHexToBase64.rs:20-75 | For n ≥ 3 bytes the loop and the tail produce the reference encoding, which has exactly 4·⌈n/3⌉ characters. The final `assert!` that every byte was consumed holds. |
| `Base64.EncodeTail` | set1/challenge1/src/convertoHexToBase64.rs:39-72 | The three tail branches encode the last 1–3 bytes as the reference does, and consume all of them. |
| `Base64.EncodeThreeBytes` | set1/challenge1/src/convertoHexToBase64.rs:27-34 | The four pushes of a full group are the table characters at b0>>2, ((b0&3)<<4)\|(b1>>4), ((b1&0xf)<<2)\|(b2>>6) and b2&0x3f. |
| `Base64.EncodeTwoBytes` | set1/challenge1/src/convertoHexToBase64.rs:51-60 | Two trailing bytes give three table characters and one `=`. |
| `Base64.EncodeOneByte` | set1/challenge1/src/convertoHexToBase64.rs:61-70 | One trailing byte gives two table characters and `==`. |
| `Base64.EncodingLength` | set1/challenge1/src/convertoHexToBase64.rs:26-70 | Every encoding of n bytes has 4·⌈n/3⌉ characters. |
| `Base64.EncodingShape` | set1/challenge1/src/convertoHexToBase64.rs:40-67 | Every character before the padding is in the table, and the padding is `=`. There is no `=` for n mod 3 = 0, one for n mod 3 = 2 and two for n mod 3 = 1. |
| `Base64.EncodingAlphabet` | set1/challenge1/src/convertoHexToBase64.rs:31-67 | Every output character is in the 64-entry table or is `=`. |
| `Base64.EncodingGroupAt` | set1/challenge1/src/convertoHexToBase64.rs:26-37 | Characters 4k..4k+4 of the encoding are the group of bytes 3k, 3k+1 and 3k+2. |
| `Base64.EncodeGroupBits` | set1/challenge1/src/convertoHexToBase64.rs:27-30 | The four 6-bit values of a group joined, most significant first, equal the 24 bits of its three bytes. |
| `Base64.BuildDecodeMap` | set1/challenge1/src/convertoHexToBase64.rs:86-90 | The insertion loop yields a map whose keys are exactly the table characters, each mapped to its index. |
| `Base64.Lookup` | set1/challenge1/src/convertoHexToBase64.rs:94-97 | A lookup in that map gives a character's 6-bit value, or nothing for a character outside the alphabet. |
| `Base64.Decode` | set1/challenge1/src/convertoHexToBase64.rs:77-189 | On a non-empty input the length check, the loop over the inner groups and the final group return exactly the reference decoding, including its errors. |
| `Base64.DecodeInnerGroup` | set1/challenge1/src/convertoHexToBase64.rs:98-130 | An inner group fails on its first character outside the alphabet. Otherwise it ORs the four values into three bytes. |
| `Base64.DecodeLastGroup` | set1/challenge1/src/convertoHexToBase64.rs:139-181 | The final group also accepts `=` in its third and fourth places. It always keeps the first two bytes, and the third only when the third character is not `=`. |
| `Base64.DecodeGroupAcceptance` | set1/challenge1/src/convertoHexToBase64.rs:102-126 | An inner group decodes exactly when all four characters are in the alphabet. |
| `Base64.FinalGroupAcceptance` | set1/challenge1/src/convertoHexToBase64.rs:143-175 | A final group decodes exactly when its first two characters are in the alphabet and each of the last two is in the alphabet or is `=`. |
| `Base64.DecodeGroupsAcceptance` | set1/challenge1/src/convertoHexToBase64.rs:93-175 | A well-sized input decodes exactly when no position holds a rejected character. |
| `Base64.DecodeGroupsFirstError` | set1/challenge1/src/convertoHexToBase64.rs:102-175 | A failing well-sized input reports the character at the first rejected position. |
| `Base64.DecodeGroupsLength` | set1/challenge1/src/convertoHexToBase64.rs:128-130 | A decoded input of m characters has 3·(m/4) bytes, or one fewer when character m−2 is `=`. |
| `Base64.DecodingOutcome` | set1/challenge1/src/convertoHexToBase64.rs:80-181 | A length that is not a multiple of four gives WrongLength. Otherwise the input is accepted exactly when no position is rejected, an error names the first rejected character, and success has the length above. |
| `Base64.DecodeAfterEncode` | set1/challenge1/src/convertoHexToBase64.rs:193-200 | Decoding an encoding gives back the bytes when their number is a multiple of 3. Otherwise it gives the bytes followed by one zero byte. |
| `Base64.PaddedRoundTripExample` | set1/challenge1/src/convertoHexToBase64.rs:177-181 | [0x4d, 0x61, 0x6e, 0x4d] encodes as "TWFuTQ==", which decodes to five bytes ending in 0x00. |
| `Base64.StrictDecodeAfterEncode` | set1/challenge1/src/convertoHexToBase64.rs:177-181 | The strict decoder inverts the encoding for every byte sequence, the empty one included. |
| `Base64.StrictAgreesUnpadded` | set1/challenge1/src/convertoHexToBase64.rs:77-189 | On inputs of at least two characters whose last two characters are not `=`, the strict decoder and the source's decoder agree. |
| `HammingDistance.BitDistance` | src/utility.rs:64-65 | The distance of equal-length buffers is at most 8 bits per byte, and zero exactly when they are equal. |
| `HammingDistance.BitwiseHammingDistance` | src/utility.rs:64-75 | It fails exactly when the lengths differ, reporting both lengths. |
| `HammingDistance.BitDistanceSymmetric` | src/utility.rs:64-65 | The distance does not depend on the order of the arguments. |
| `HammingDistance.SingleByteExamples` | src/utility.rs:64-65 | The distance of 0x01 and 0x03 is 1, and of 0x01 and 0xFF is 7. |
| `Utility.CandidateCount` | src/utility.rs:60-63 | The number of key lengths scanned is n/2, capped at 39 (never 40). |
| `Utility.FindNormalizedEditDistances` | src/utility.rs:53-83 | The length check, the key-length loop and the sort return exactly the reference result. The Hamming-error branch is unreachable. |
| `Utility.CandidatesOutcome` | src/utility.rs:56-59 | The scan fails exactly when the input has fewer than two bytes, and the error carries the length. |
| `Utility.NormalisedDistanceBounds` | src/utility.rs:64-69 | Every normalised distance lies in [0, 8], and is 0 exactly when the two blocks are equal. |
| `Utility.CandidatesPermutation` | src/utility.rs:77-78 | The result is a permutation of the pushed entries and is non-empty. |
| `Utility.CandidatesContents` | src/utility.rs:60-69 | There is exactly one entry per key length 1..min(39, n/2). Each carries the distance of bytes[..L] and bytes[L..2L] divided by L. |
| `Utility.CandidatesSorted` | src/utility.rs:77-78 | The result is sorted by distance ascending, and equal distances keep increasing key-length order (the sort is stable). |
| `Utility.SortPermutation` | src/utility.rs:77-78 | The stable sort by distance permutes its input. |
| `Utility.SortOrdered` | src/utility.rs:77-78 | Sorting entries pushed with increasing key lengths orders them by distance, with ties by key length. |
| `Utility.BestCandidate` | src/utility.rs:77-82 | An entry that comes before every other key length's entry is the first element of the result. |
| `Utility.TestVectorOne` | src/utility.rs:105-112 | [1, 2] is best at key length 1 with distance 2. |
| `Utility.TestVectorTwo` | src/utility.rs:106-116 | [1, 2, 1, 3] is best at key length 2 with distance 0.5. |
| `Utility.TestVectorThree` | src/utility.rs:107-120 | [1, 2, 3, 1, 3, 3, 7] is best at key length 3 with distance 1/3. |
| `Utility.TestVectorFour` | src/utility.rs:108-124 | [1, 2, 1, 2, 3, 3, 7, 8] is best at key length 2 with distance 0. |
| `FixedXor.FixedXor` | src/fixed_xor.rs:6-16 | The result is an error exactly when the lengths differ. Otherwise it has their common length, with result[i] = self[i] ^ other[i]. |
| `FixedXor.Commutative` | src/fixed_xor.rs:13 | a.fixed_xor(b) equals b.fixed_xor(a), the error case included. |
| `FixedXor.Involution` | src/fixed_xor.rs:13 | XOR-ing the result with `other` again gives back `self`. |
| `FixedXor.TestVector` | src/fixed_xor.rs:26-31 | The repository's 18-byte test vector XORs to the expected output. |
| `FrequencyAnalysis.Frequencies` | src/frequency_analysis.rs:14-23 | The keys are exactly the distinct input items. Each count is that item's number of occurrences and is at least 1. The counts sum to the input length, so the empty input gives the empty map. |
| `FrequencyAnalysis.CountLettersTest` | src/frequency_analysis.rs:31-35 | In ['h','e','l','l','o'] the letter 'l' is counted twice. |
| `RepeatingXor.RepeatingXorEncode` | src/repeating_xor.rs:13-24 | The output has the input's length, with out[i] = in[i] ^ key[i mod \|key\|]. A non-empty key is needed unless the input is empty. |
| `RepeatingXor.EncodeTwiceRestores` | src/repeating_xor.rs:20 | Encoding the output again with the same key restores the input. |
| `RepeatingXor.EmptyInput` | src/repeating_xor.rs:19-23 | The empty input gives the empty output under any key, even an empty one. |
| `RepeatingXor.SingleByteKey` | src/repeating_xor.rs:14-20 | A one-byte key XORs every byte with that byte. |
| `RepeatingXor.FullLengthKeyIsFixedXor` | src/repeating_xor.rs:14-21 | With a key as long as the input, the result is the fixed XOR of input and key. |
| `RepeatingXor.KeyCancelsAtKeyLength` | src/repeating_xor.rs:14-21 | At the key's own length, the bit distance of the ciphertext's first two blocks equals the plaintext's. This is what the key-length scan relies on. |

## Left out

- Printing is left out because it is I/O: `println!` in `decode` and in the key-length scan.
- The `main` test drivers and the hex conversion through `rustc_serialize` are left out. They are I/O and a foreign library. The Base64 driver's round trip is stated as `DecodeAfterEncode` for inputs whose length is a multiple of 3.
- `ApproxEquality` is left out because it is floating-point epsilon comparison. The test vectors compare exact reals.
- `filter_strings_heuristically` and `sort_string_vec_by_char_freq` are left out. They rely on frequency functions that are not part of this model, and they rank by floating-point scores.
- `set1/challenge2/src/fixedXor.rs`, `src/single_byte_xor.rs`, `src/lib.rs` and `src/main.rs` are not part of this model. They are a stub, a duplicated test, module declarations and orchestration.
- The internals of the external Hamming-distance crate are not part of this model. They are replaced by `HammingDistance.BitDistance`, the sum of the set bits of the XOR of each position.
- `Utility.FindNormalizedEditDistances`: the `f32` normalised distance is modelled as an exact `real`. Rounding, and the `partial_cmp(...).unwrap()` panic on NaN (impossible here), are not modelled. The order is not affected. Every entry is ed/L with L ≤ 39 and ed ≤ 8L, and entries have distinct L. So two distinct quotients differ by at least 1/(39·38) = 1/1482. Below 8 the `f32` rounding error is at most 2⁻²², and rounding preserves order. So the source's `sort_by` orders the entries exactly as `SortByDistance` does. Only the stored values differ: 0.33333334 in `f32` against the exact 1/3.
- `Utility.FindNormalizedEditDistances`: the in-place `sort_by` of the standard library is modelled as the stable sort function `SortByDistance` on values, not as an in-place algorithm.
- `Utility.FindNormalizedEditDistances`: `HammingFailed` is kept in the error type, but the model proves that this branch is never taken.
- `Base64.Encode`: inputs shorter than three bytes are excluded by a precondition. The source's `n - 3` underflows and panics there.
- `Base64.Decode`: the empty input is excluded by a precondition. The source's `n - 4` underflows and panics there.
- `Base64.Decode`: error messages are the tags `WrongLength` and `UnrecognisedChar(c)`, not formatted strings.
- `Base64.BuildDecodeMap`: the `HashMap` becomes a Dafny `map`. The table is defined entry by entry by alphabet ranges, and `EncodeTableLiteral` proves it equal to the source's literal.
- `Base64.Encode`: the four pushes of each group are factored into the helper methods `EncodeThreeBytes`, `EncodeTwoBytes` and `EncodeOneByte`, and the tail into `EncodeTail`.
- `Base64.DecodeLastGroup`: the source accepts a final group such as "xx=y", which has `=` in the third place but not in the fourth. The model keeps this, and it is covered by `FinalGroupAcceptance`.
- `Base64.StrictDecoding`: it does not reject non-zero padding bits, which section 3.5 of RFC 4648 allows a decoder to reject.
- `FrequencyAnalysis.Frequencies`: the `BTreeMap` keyed by references becomes a `map` keyed by values. Its key order is not modelled.
- `RepeatingXor.RepeatingXorEncode`: both strings are taken as their UTF-8 byte sequences. UTF-8 encoding itself is not modelled.

## Findings

| source | as written | input that shows it | evidently intended | confidence | as-written member | corrected member |
|---|---|---|---|---|---|---|
| set1/challenge1/src/convertoHexToBase64.rs:177-181 | The final group always keeps its second byte, and keeps its third whenever the third character is not `=`. So a group padded with `==` yields two bytes and one padded with `=` yields three, one more than was encoded each time. | encode([0x4d, 0x61, 0x6e, 0x4d]) = "TWFuTQ==", and decode gives [0x4d, 0x61, 0x6e, 0x4d, 0x00] | Keep the second byte only when the third character is not `=`, and the third only when the fourth is not `=`, so that decode(encode(b)) = b | high (not executed) | `Base64.PaddedRoundTripExample` | `Base64.StrictDecodeAfterEncode` |
