# Extended Hamming (SECDED) coder, modelled in Dafny

This project models the coding engine of an extended Hamming code over bit
strings, as written in `coder/src/code/HammingCoder.java` and
`coder/src/code/BinaryCode.java`.

- A `BinaryCode` is a validated word of bits. It is built from a string of
  `'0'`/`'1'` characters (anything else is rejected) or from a bit sequence
  (trusted). It can be turned back into text.
- A `HammingCoder` keeps one piece of mutable state, `parityMap`. It maps
  each parity position 2^j to the ascending list of positions that check j
  covers. The cache only ever grows: `expandParityMap(t)` appends the
  missing levels. Each new level lists the positions from 2^j up to, but
  not including, 2^t - 1.
- `encode` works as follows:
  - insert a 0 at position 0 and at every power-of-two position;
  - set each power-of-two position to the even-parity bit of what its
    cached list covers inside the word;
  - set position 0 to the parity of everything else.
- `decode` only extracts the bits at positions that are neither 0 nor a
  power of two.
- `validateCode` computes two things:
  - a candidate list `1..n`, narrowed by `retainAll` on each failing check
    and `removeAll` on each passing one;
  - the overall check.

  A small decision table turns the pair into a verdict: no error, a
  single-bit error at an index, or a double-bit error.

Files and modules:

- `bitmath.dfy` (`BitMath`): exact powers of two, the bits of a number,
  and the power-of-two test.
- `binary_code.dfy` (`BinaryCodes`): the `BinaryCode` value with its
  string and collection constructors, accessors, `toString` and the text
  round trips.
- `hamming_spec.dfy` (`HammingSpec`): the functions that specify the
  coder:
  - parity counts, parity, data extraction, coverage lists and checks;
  - the candidate search and the verdict table;
  - the cache as a function of its history of expansions (`CacheOf`,
    `LimitsOf`, `Expanded`);
  - `EncodedBy`, what encode promises about its output.
- `hamming_coder.dfy` (`Hamming`): the imperative coder.
  - The class `HammingCoder` has the field `parityMap` and a ghost history
    `Batches`, which holds the target of every expansion that added levels.
  - Every method of the source is a method here. Each one has the source's
    loops and is proved against the functions above.
- `hamming_props.dfy` (`HammingProps`): what the coder promises across
  calls:
  - clean words validate;
  - one flipped bit is located, and can then be corrected;
  - two flipped bits are detected;
  - decoding an encoding gives the input back;
  - the cache only grows;
  - encoding is determined by the cache, so a repeated encode gives the
    same word;
  - the two concrete words of the tests;
  - the position a fresh cache misses.

Exceptions become values. `InvalidInputFormatException` becomes
`Err(InvalidInputFormat)` or `InvalidFormat`. `SingleBitErrorException`
becomes `SingleBit(index)`, and `DoubleBitErrorException` becomes
`DoubleBit`. A `validateCode` that throws nothing returns `NoError`.

**Coverage stops short.** The error-location properties hold only when the
cached coverage of every check reaches the whole word (`Reaches`). The
bound of a level is fixed when the level is built: it is 2^t - 1,
exclusive, for the target t in force at the time. A payload whose encoded
length is exactly 2^p (four data bits with three checks, for example) can
therefore leave position 2^p - 1 uncovered on a fresh coder.
`LastPositionMisreported` proves that a flip there is reported as bit 0.
`FreshCoderReach` characterises when a fresh coder reaches the whole word.
The model follows the code here.

## Model

| member | source | states |
|---|---|---|
| BinaryCodes.FromString | coder/src/code/BinaryCode.java:16-24 | fails with InvalidInputFormat exactly when some character is not '0' or '1'; otherwise bit i is set iff character i is '1', and the length is the string's |
| BinaryCodes.ValidateBinary | coder/src/code/BinaryCode.java:46-53 | true exactly when every character is '0' or '1' |
| BinaryCodes.BinaryCode.ToString | coder/src/code/BinaryCode.java:30-36 | one character per bit, '1' for set; reading the text back gives the same bits |
| BinaryCodes.TextOfBitsOf | coder/src/code/BinaryCode.java:16-36 | for a binary string s, the text of the code built from s is s itself |
| BinaryCodes.BitsOfText | coder/src/code/BinaryCode.java:26-36 | reading back the text of any bit sequence gives the bits back |
| BinaryCodes.FromBits | coder/src/code/BinaryCode.java:26-28 | any bit sequence is accepted; the code has its length and holds its bits in order |
| BinaryCodes.BinaryCode.Length | coder/src/code/BinaryCode.java:38-40 | the number of bits, equal to the length of the handed-out bits and of the text |
| BinaryCodes.BinaryCode.GetBits | coder/src/code/BinaryCode.java:42-44 | the bits, same length and same bit at every position |
| BinaryCodes.FromGetBits | coder/src/code/BinaryCode.java:26-28 | building a code from the bits another code hands out gives that code back |
| HammingSpec.ParityBitsEncode | coder/src/code/HammingCoder.java:170-176 | p satisfies 2^p >= m + p + 1 and no smaller count does |
| HammingSpec.ParityBitsDecode | coder/src/code/HammingCoder.java:178-184 | p satisfies 2^p >= n and no smaller count does |
| HammingSpec.DecodeCountOfEncoded | coder/src/code/HammingCoder.java:170-184 | a word of length m + p + 1 encoded with p checks needs exactly p checks to decode |
| HammingSpec.ParityFlip | coder/src/code/HammingCoder.java:215-221 | flipping one bit of a collection flips its even-parity bit |
| HammingSpec.Covered | coder/src/code/HammingCoder.java:189-195 | a level's list holds exactly the positions in [2^j, bound) with bit j set, ascending |
| HammingSpec.CoveredBitsFlip | coder/src/code/HammingCoder.java:199-208 | flipping a bit changes a check's parity exactly when its list covers that bit and it is not the parity position itself |
| HammingSpec.RetainAll | coder/src/code/HammingCoder.java:94 | retainAll keeps exactly the candidates that are in the list, and an ascending candidate list stays ascending |
| HammingSpec.RemoveAll | coder/src/code/HammingCoder.java:96 | removeAll keeps exactly the candidates that are not in the list, and an ascending candidate list stays ascending |
| HammingSpec.Classify | coder/src/code/HammingCoder.java:65-71 | the decision table: no error iff no check fails and the overall check passes; single bit iff the search did not give -2 and the overall check fails, at the candidate or 0; double bit otherwise |
| HammingSpec.CacheShaped | coder/src/code/HammingCoder.java:186-197 | the cache of a history holds exactly the keys 2^j, j below its size, each with its level's list |
| HammingSpec.KeysArePowers | coder/src/code/HammingCoder.java:163 | below 2^size, a position is a key of the cache exactly when it is a power of two |
| HammingSpec.CacheExtends | coder/src/code/HammingCoder.java:186-197 | building more levels keeps every entry already in the cache |
| HammingSpec.NextBatch | coder/src/code/HammingCoder.java:186-197 | expanding to t leaves the history's levels as they were, ends with max(size, t) levels, and bounds each new level by 2^t - 1 |
| HammingSpec.HistoryBatched | coder/src/code/HammingCoder.java:186-197 | in any history, two levels share a bound or the earlier level's bound lies below the later level's parity position |
| HammingSpec.ParityStep | coder/src/code/HammingCoder.java:135-140 | setting parity position 2^k to the parity of its coverage makes check k pass and keeps every earlier check passing |
| HammingSpec.OverallStep | coder/src/code/HammingCoder.java:141-146 | setting bit 0 to the parity of the rest leaves every check passing and makes the overall check pass |
| HammingSpec.InsertParityPlaceholder | coder/src/code/HammingCoder.java:129-133 | inserting a placeholder at 2^k keeps the payload at the data positions, in order |
| HammingSpec.PlaceholdersKept | coder/src/code/HammingCoder.java:127-133 | inserting the next placeholder keeps bit 0 and the earlier placeholders clear |
| HammingSpec.DataBitsUpdate | coder/src/code/HammingCoder.java:138 | writing a position that is not a data position (bit 0 or a parity position) leaves the payload bits alone |
| Hamming.HammingCoder.constructor | coder/src/code/HammingCoder.java:16-18 | a new coder has an empty cache and an empty history |
| Hamming.HammingCoder.ExpandParityMap | coder/src/code/HammingCoder.java:186-197 | the cache becomes the cache of the history extended by this expansion |
| Hamming.GrowCache | coder/src/code/HammingCoder.java:188-196 | the loop over the missing levels turns the cache of the old levels into the cache of all levels |
| Hamming.LevelCoverage | coder/src/code/HammingCoder.java:189-195 | the inner loop lists exactly the positions from 2^(parity-1) below maxIndex with bit parity-1 set |
| Hamming.HammingCoder.Encode | coder/src/code/HammingCoder.java:26-34 | fails with InvalidInputFormat iff the text is not binary, and then the cache is unchanged; otherwise the cache is expanded to the encode count and the result is a binary text encoding the input |
| Hamming.HammingCoder.Decode | coder/src/code/HammingCoder.java:42-50 | fails iff the text is not binary, and then the cache is unchanged; otherwise the cache is expanded to the decode count and the result is the text of the data bits |
| Hamming.HammingCoder.EncodeCode | coder/src/code/HammingCoder.java:119-149 | the output has length m + p + 1, carries the payload at the data positions in order, passes every indexed check and the overall check |
| Hamming.InsertParityPlaceholders | coder/src/code/HammingCoder.java:125-133 | the word grows to m + p + 1 bits, the payload sits at the data positions in order, and bit 0 and every parity position are clear |
| Hamming.HammingCoder.SetIndexedParityBits | coder/src/code/HammingCoder.java:134-140 | only the parity positions change, and afterwards every indexed check below p passes |
| Hamming.BitsAfterFirst | coder/src/code/HammingCoder.java:142-145 | the copy loop yields the word without bit 0 |
| Hamming.HammingCoder.DecodeCode | coder/src/code/HammingCoder.java:151-158 | the cache is expanded to the decode count and the result is the word's data bits |
| Hamming.HammingCoder.ExtractDecodedBits | coder/src/code/HammingCoder.java:160-168 | the bits at the positions from 1 that are not keys of the cache, in order, which are the data bits |
| Hamming.HammingCoder.NumParityBitsEncode | coder/src/code/HammingCoder.java:170-176 | the counting loop returns the least p with 2^p >= m + p + 1 |
| Hamming.HammingCoder.NumParityBitsDecode | coder/src/code/HammingCoder.java:178-184 | the counting loop returns the least p with 2^p >= n |
| Hamming.HammingCoder.CollectCoveredBits | coder/src/code/HammingCoder.java:199-208 | the bits at the listed positions, stopping at the first one past the word and skipping the parity position |
| Hamming.HammingCoder.SetParityBit | coder/src/code/HammingCoder.java:215-221 | true iff the collection holds an odd number of set bits |
| Hamming.HammingCoder.ValidateParityBit | coder/src/code/HammingCoder.java:210-213 | passes iff the stored bit is the parity of the collection, that is iff stored bit and collection together have even weight |
| Hamming.HammingCoder.ValidateOverallParity | coder/src/code/HammingCoder.java:110-117 | passes iff bit 0 is the parity of the rest, that is iff the word has even weight |
| Hamming.HammingCoder.ValidateCode | coder/src/code/HammingCoder.java:60-72 | a non-binary text gives InvalidFormat and leaves the cache alone; otherwise the cache is expanded to the decode count and the verdict is the decision table over the search result and the overall check |
| Hamming.HammingCoder.DetectSingleError | coder/src/code/HammingCoder.java:80-108 | the cache is expanded to the decode count and the result is the search result: -1 when no check fails, the one remaining candidate, or -2 |
| Hamming.HammingCoder.NarrowCandidates | coder/src/code/HammingCoder.java:91-97 | one pass: the flag becomes "some check up to this one fails" and the list the candidates narrowed by the checks up to this one |
| Hamming.HammingCoder.SearchSingleError | coder/src/code/HammingCoder.java:86-107 | the loop keeps the flag equal to "some check so far fails" and the list equal to the candidates narrowed by the checks so far |
| HammingProps.CandidateMember | coder/src/code/HammingCoder.java:88-97 | a position survives the narrowing iff it lies in 1..n and, for every check, it is in that check's list exactly when the check fails |
| HammingProps.CandidatesAscending | coder/src/code/HammingCoder.java:88-97 | the candidate list stays ascending |
| HammingProps.OverallEvenWeight | coder/src/code/HammingCoder.java:141-146 | the overall check passes iff the word has even weight |
| HammingProps.OverallFlip | coder/src/code/HammingCoder.java:110-117 | flipping any one bit, bit 0 included, reverses the overall check |
| HammingProps.FlipFails | coder/src/code/HammingCoder.java:90-93 | when a list reaches the whole word, flipping bit i reverses check j exactly when bit j of i is set |
| HammingProps.OnlyCandidate | coder/src/code/HammingCoder.java:88-97 | when every list reaches the word, the only position whose membership matches the bits of i is i itself, including the extra candidate n |
| HammingProps.CleanWordValidates | coder/src/code/HammingCoder.java:60-72 | an encoded word validates with no error |
| HammingProps.FlipReported | coder/src/code/HammingCoder.java:60-108 | one flipped bit of a word that passes all checks, with coverage reaching the word, is reported at its index |
| HammingProps.TwoFlipsReported | coder/src/code/HammingCoder.java:60-108 | two distinct flipped bits of such a word are reported as a double-bit error |
| HammingProps.SingleFlipLocated | coder/src/code/HammingCoder.java:60-108 | flipping bit i of an encoded word gives SingleBit(i) when the cache's coverage reaches the whole word |
| HammingProps.DoubleFlipDetected | coder/src/code/HammingCoder.java:60-108 | flipping two distinct bits of an encoded word gives DoubleBit when the cache's coverage reaches the whole word |
| HammingProps.CorrectThenDecode | coder/src/code/HammingCoder.java:160-168 | flipping back the reported bit of a single-flipped encoded word restores a word whose data bits are the payload |
| HammingProps.DecodeOfEncode | coder/src/code/HammingCoder.java:26-50 | decoding the text of an encoding gives the encoded binary text back, whatever the cache history |
| HammingProps.EncodedUnique | coder/src/code/HammingCoder.java:119-149 | under one cache with enough levels, two words that both encode the same payload are equal |
| HammingProps.EncodeRepeated | coder/src/code/HammingCoder.java:26-34 | once the cache has the levels a payload needs, encoding it again expands nothing and yields the same word |
| HammingProps.EncodeExample | coder/tests/HammingCoderTest.java:15-20 | on a fresh coder, the word encoding 00011000 has the text 1010100111000 |
| HammingProps.DecodeExample | coder/tests/HammingCoderTest.java:22-27 | the data bits of 00011000 have the text 1000 |
| HammingProps.FreshCache | coder/src/code/HammingCoder.java:186-197 | the first expansion of a fresh coder to p levels gives every level the bound 2^p - 1 |
| HammingProps.ExpansionAppends | coder/src/code/HammingCoder.java:186-197 | expansion ends with max(size, t) levels, keeps every old list, and gives each new level j the positions from 2^j below 2^t - 1 with bit j set |
| HammingProps.FreshCoderReach | coder/src/code/HammingCoder.java:187-190 | on a fresh coder the coverage reaches an encoded word exactly when no checks are needed or the word is shorter than 2^p positions |
| HammingProps.UncoveredFlip | coder/src/code/HammingCoder.java:60-72 | a flip at a position no check covers or stores is reported as bit 0 |
| HammingProps.LastPositionMisreported | coder/src/code/HammingCoder.java:187-191 | when the encoded word fills 2^p positions on a fresh coder, flipping its last bit is reported as SingleBit(0) |

## Left out

- Console, file and UI input/output: the JavaFX controller and its file
  choosers are not part of this model.
- Java `int` overflow: integers are unbounded. The casts of `Math.pow` and
  the index arithmetic are exact. Words long enough to overflow them are
  not modelled.
- `Math.pow` is an exact power of two. For p = 0 the source compares
  against 0.5, and the model reproduces this as "the loops run zero times".
- Hamming.HammingCoder.ValidateCode: requires a non-empty text. The source
  reads bit 0 without a check and throws an unchecked index exception on
  empty input. That crash is not modelled.
- Object identity and aliasing: `BinaryCode` and the coverage lists are
  values. The copies that `getBits()` and the collection constructor make
  are therefore implicit. The `HashMap` is a `map`.
- Hamming.GrowCache: builds each level's list and then stores it once. The
  source stores an empty list first and fills it in place, and both end
  in the same cache.
- `encode` and `detectSingleError` are split into a method that may expand
  the cache and non-mutating methods that hold the loops. The order of
  the steps is the source's.
- `retainAll` and `removeAll` are functions on sequences (HammingSpec.RetainAll,
  HammingSpec.RemoveAll), not the library's in-place list algorithms.
- The random loops of the tests become universally quantified lemmas,
  under the coverage condition described above.
