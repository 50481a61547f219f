/**
 * The Hamming coder itself. Its one piece of state is the parity cache: a
 * map from each parity position 2^j to the ascending list of positions that
 * parity bit covers. The cache is grown in place, one batch of levels at a
 * time, and a level once built is never rebuilt; each level keeps the bound
 * 2^t - 1 of the target t in force when it was built.
 *
 * Levels are counted from 0 here: level j is the source's `parity` j + 1,
 * with parity position 2^j.
 */
module Hamming {
  import opened BitMath
  import opened HammingSpec
  import opened BinaryCodes

  class HammingCoder {
    /** Parity position 2^j |-> the positions it covers, ascending. */
    var parityMap: map<int, seq<int>>
    /** The target of every expansion that added levels, in order. */
    ghost var Batches: seq<nat>

    /** The cache is the one its history of batches determines. */
    ghost predicate Valid()
      reads this
    {
      Increasing(Batches) && parityMap == CacheOf(LimitsOf(Batches), Levels(Batches))
    }

    constructor ()
      ensures Valid() && Batches == [] && parityMap == map[]
    {
      parityMap := map[];
      Batches := [];
    }

    /**
     * Builds the levels |parityMap| .. target-1 (the source's `parity` from
     * size + 1 to target), each covering the positions from its parity
     * position up to, but not including, 2^target - 1. Levels already there
     * are left alone: the cache records one more batch exactly when it had
     * fewer than target levels.
     */
    method ExpandParityMap(target: nat)
      requires Valid()
      modifies this
      ensures Valid()
      ensures Batches == Expanded(old(Batches), target)
    {
      ghost var batches := Expanded(Batches, target);
      NextBatch(Batches, target);
      CacheSize(LimitsOf(Batches), Levels(Batches));
      parityMap := GrowCache(parityMap, LimitsOf(batches), target);
      Batches := batches;
    }

    /**
     * The text entry point for encoding: a non-binary text fails before any
     * coding; otherwise the result is the text of the encoded word.
     */
    method Encode(text: string) returns (r: Result<string>)
      requires Valid()
      modifies this
      ensures Valid()
      ensures r.Err? <==> !IsBinary(text)
      ensures r.Err? ==> r.error == InvalidInputFormat && Batches == old(Batches)
      ensures r.Ok? ==> Batches == Expanded(old(Batches), ParityBitsEncode(|text|))
      ensures r.Ok? ==> IsBinary(r.value) && EncodedBy(parityMap, BitsOf(text), BitsOf(r.value))
    {
      var code := FromString(text);
      if code.Err? {
        return Err(code.error);
      }
      var encoded := EncodeCode(code.value);
      var s := encoded.ToString();
      return Ok(s);
    }

    /**
     * The text entry point for decoding: a non-binary text fails; otherwise
     * the result is the text of the payload the word carries.
     */
    method Decode(text: string) returns (r: Result<string>)
      requires Valid()
      modifies this
      ensures Valid()
      ensures r.Err? <==> !IsBinary(text)
      ensures r.Err? ==> r.error == InvalidInputFormat && Batches == old(Batches)
      ensures r.Ok? ==> Batches == Expanded(old(Batches), ParityBitsDecode(|text|))
      ensures r.Ok? ==> r.value == Text(DataBits(BitsOf(text)))
    {
      var code := FromString(text);
      if code.Err? {
        return Err(code.error);
      }
      var decoded := DecodeCode(code.value);
      var s := decoded.ToString();
      return Ok(s);
    }

    /**
     * Validation of a text: InvalidFormat for a non-binary text; otherwise
     * the decision table applied to the single-error search and the overall
     * check.
     */
    method ValidateCode(codeContent: string) returns (v: Verdict)
      requires Valid() && |codeContent| >= 1
      modifies this
      ensures Valid()
      ensures !IsBinary(codeContent) ==> v == InvalidFormat && Batches == old(Batches)
      ensures IsBinary(codeContent) ==> Batches == Expanded(old(Batches), ParityBitsDecode(|codeContent|))
      ensures IsBinary(codeContent) ==>
                Checkable(parityMap, BitsOf(codeContent), ParityBitsDecode(|codeContent|)) &&
                v == Validate(parityMap, BitsOf(codeContent))
    {
      var r := FromString(codeContent);
      if r.Err? {
        return InvalidFormat;
      }
      var code := r.value;
      var singleErrorBit := DetectSingleError(code);
      var overAllParity := ValidateOverallParity(code);
      if singleErrorBit != -1 && singleErrorBit != -2 && !overAllParity {
        v := SingleBit(singleErrorBit);
      } else if singleErrorBit == -1 && !overAllParity {
        v := SingleBit(0);
      } else if (singleErrorBit != -1 && overAllParity) || singleErrorBit == -2 {
        v := DoubleBit;
      } else {
        v := NoError;
      }
    }

    /**
     * Grows the cache to the p levels a word of this length is checked with
     * and runs the single-error search on it.
     */
    method DetectSingleError(code: BinaryCode) returns (s: int)
      requires Valid()
      modifies this
      ensures Valid()
      ensures Batches == Expanded(old(Batches), ParityBitsDecode(code.Length()))
      ensures Checkable(parityMap, code.bits, ParityBitsDecode(code.Length()))
      ensures s == Syndrome(parityMap, code.bits, ParityBitsDecode(code.Length()))
    {
      var numPBits := NumParityBitsDecode(code.Length());
      CacheSize(LimitsOf(Batches), Levels(Batches));
      if |parityMap| < numPBits {
        ExpandParityMap(numPBits);
      }
      var bits := code.GetBits();
      assert Checkable(parityMap, bits, numPBits) by {
        CacheShaped(LimitsOf(Batches), Levels(Batches));
        ShapedCheckable(parityMap, LimitsOf(Batches), Levels(Batches), bits, numPBits);
      }
      s := SearchSingleError(bits, numPBits);
    }

    /**
     * The single-error search: every indexed check below 2^p is run against
     * the word; the candidates 1..|w| are narrowed to the positions a failing
     * check covers and away from those a passing check covers. The result is
     * -1 when no check fails, the one remaining candidate when exactly one
     * remains, and -2 otherwise.
     */
    method SearchSingleError(bits: seq<bool>, numPBits: nat) returns (s: int)
      requires Checkable(parityMap, bits, numPBits)
      ensures s == Syndrome(parityMap, bits, numPBits)
    {
      CheckableFewer(parityMap, bits, numPBits, 0);
      var flag := false;
      var corruption := seq(|bits|, i => i + 1);
      var parityIndex := 1;
      ghost var k := 0;
      while numPBits >= 1 && parityIndex <= Pow2(numPBits - 1)
        invariant k <= numPBits
        invariant parityIndex == Pow2(k)
        invariant flag == AnyFails(parityMap, bits, k)
        invariant corruption == Candidates(parityMap, bits, k)
        decreases numPBits - k
      {
        Pow2Below(k, numPBits);
        CheckableFewer(parityMap, bits, numPBits, k + 1);
        flag, corruption := NarrowCandidates(bits, k, parityIndex, flag, corruption);
        parityIndex := parityIndex * 2;
        k := k + 1;
      }
      Pow2Exit(k, numPBits);
      if flag {
        if |corruption| == 1 {
          return corruption[0];
        } else {
          return -2;
        }
      }
      return -1;
    }

    /**
     * One pass of the search loop: check k is evaluated on the word; a
     * failure raises the flag and keeps only the candidates its list covers,
     * a pass drops the candidates its list covers.
     */
    method NarrowCandidates(bits: seq<bool>, ghost k: nat, parityIndex: int, flag: bool, corruption: seq<int>)
      returns (flag': bool, corruption': seq<int>)
      requires Checkable(parityMap, bits, k + 1) && parityIndex == Pow2(k)
      requires flag == AnyFails(parityMap, bits, k) && corruption == Candidates(parityMap, bits, k)
      ensures flag' == AnyFails(parityMap, bits, k + 1)
      ensures corruption' == Candidates(parityMap, bits, k + 1)
    {
      var coverage := CollectCoveredBits(parityIndex, bits);
      var ok := ValidateParityBit(bits[parityIndex], coverage);
      flag' := flag;
      if !ok {
        flag' := true;
        corruption' := RetainAll(corruption, parityMap[parityIndex]);
      } else {
        corruption' := RemoveAll(corruption, parityMap[parityIndex]);
      }
      AnyFailsStep(parityMap, bits, k);
      CandidatesStep(parityMap, bits, k);
    }

    /** Decodes a code word: the cache is grown as for validation, then the payload is extracted; nothing is corrected. */
    method DecodeCode(code: BinaryCode) returns (decoded: BinaryCode)
      requires Valid()
      modifies this
      ensures Valid()
      ensures Batches == Expanded(old(Batches), ParityBitsDecode(code.Length()))
      ensures decoded.bits == DataBits(code.bits)
    {
      var numPBits := NumParityBitsDecode(code.Length());
      CacheSize(LimitsOf(Batches), Levels(Batches));
      if |parityMap| < numPBits {
        ExpandParityMap(numPBits);
      }
      var bits := code.GetBits();
      if numPBits < Levels(Batches) {
        Pow2Monotone(numPBits, Levels(Batches));
      }
      decoded := ExtractDecodedBits(bits);
    }

    /**
     * Encodes a code word: makes sure the cache has the p levels the payload
     * needs, lays the payload out around zeroed parity positions, sets each
     * indexed parity bit and then the overall parity bit.
     */
    method EncodeCode(code: BinaryCode) returns (encoded: BinaryCode)
      requires Valid()
      modifies this
      ensures Valid()
      ensures Batches == Expanded(old(Batches), ParityBitsEncode(code.Length()))
      ensures EncodedBy(parityMap, code.bits, encoded.bits)
    {
      var numPBits := NumParityBitsEncode(code.Length());
      CacheSize(LimitsOf(Batches), Levels(Batches));
      if |parityMap| < numPBits {
        ExpandParityMap(numPBits);
      }
      var bits := InsertParityPlaceholders(code.GetBits(), numPBits);
      bits := SetIndexedParityBits(bits, numPBits);
      var coverage := BitsAfterFirst(bits);
      var overall := SetParityBit(coverage);
      assert EncodedBy(parityMap, code.bits, bits[0 := overall]) by {
        CacheShaped(LimitsOf(Batches), Levels(Batches));
        OverallStep(parityMap, LimitsOf(Batches), Levels(Batches), code.bits, bits);
      }
      encoded := FromBits(bits[0 := overall]);
    }

    /**
     * Encode's parity loop: for each parity position 2^k below 2^p, the bit
     * there becomes the even-parity bit of what its cached list covers in
     * the word as it stands; nothing else changes.
     */
    method SetIndexedParityBits(bits: seq<bool>, numPBits: nat) returns (w: seq<bool>)
      requires Valid() && numPBits <= Levels(Batches)
      requires numPBits == 0 || Pow2(numPBits - 1) < |bits|
      ensures |w| == |bits| && forall i :: 0 <= i < |w| && !IsPow2(i) ==> w[i] == bits[i]
      ensures DataBits(w) == DataBits(bits)
      ensures Checkable(parityMap, w, numPBits)
      ensures forall j :: 0 <= j < numPBits ==> !Fails(parityMap, w, j)
    {
      assert Checkable(parityMap, bits, numPBits) && Separated(parityMap, Levels(Batches)) by {
        CacheShaped(LimitsOf(Batches), Levels(Batches));
        ShapedCheckable(parityMap, LimitsOf(Batches), Levels(Batches), bits, numPBits);
        ShapedSeparated(parityMap, LimitsOf(Batches), Levels(Batches));
      }
      w := bits;
      var parityIndex := 1;
      ghost var k := 0;
      while numPBits >= 1 && parityIndex <= Pow2(numPBits - 1)
        invariant k <= numPBits && parityIndex == Pow2(k)
        invariant |w| == |bits| && forall i :: 0 <= i < |w| && !IsPow2(i) ==> w[i] == bits[i]
        invariant DataBits(w) == DataBits(bits)
        invariant Checkable(parityMap, w, numPBits)
        invariant forall j :: 0 <= j < k ==> !Fails(parityMap, w, j)
        decreases numPBits - k
      {
        Pow2Below(k, numPBits);
        var coverage := CollectCoveredBits(parityIndex, w);
        var b := SetParityBit(coverage);
        PowIsPow2(k);
        ParityStep(parityMap, Levels(Batches), w, k, w[parityIndex := b]);
        DataBitsUpdate(w, parityIndex, b);
        w := w[parityIndex := b];
        parityIndex := parityIndex * 2;
        k := k + 1;
      }
      Pow2Exit(k, numPBits);
    }

    /**
     * The bits check `parityIndex` reads: its coverage list walked in order,
     * stopping at the first index past the word and skipping the parity
     * position itself.
     */
    method CollectCoveredBits(parityIndex: int, bits: seq<bool>) returns (coverage: seq<bool>)
      requires parityIndex in parityMap && Indices(parityMap[parityIndex])
      ensures coverage == CoveredBits(parityMap[parityIndex], parityIndex, bits)
    {
      var list := parityMap[parityIndex];
      coverage := [];
      var i := 0;
      while i < |list|
        invariant 0 <= i <= |list|
        invariant coverage + CoveredBits(list[i..], parityIndex, bits) == CoveredBits(list, parityIndex, bits)
      {
        var index := list[i];
        assert CoveredBits(list[i..], parityIndex, bits) ==
               if |bits| <= index then []
               else (if index == parityIndex then [] else [bits[index]]) + CoveredBits(list[i + 1..], parityIndex, bits) by {
          assert list[i..][1..] == list[i + 1..];
        }
        if |bits| <= index {
          break;
        }
        if index != parityIndex {
          coverage := coverage + [bits[index]];
        }
        i := i + 1;
      }
      assert i == |list| ==> list[i..] == [];
    }

    /** The even-parity bit: true iff an odd number of the bits are set. */
    method SetParityBit(bits: seq<bool>) returns (b: bool)
      ensures b == Parity(bits)
    {
      var count := 0;
      var i := 0;
      while i < |bits|
        invariant 0 <= i <= |bits|
        invariant (count % 2 != 0) == Parity(bits[..i])
      {
        assert bits[..i + 1] == bits[..i] + [bits[i]];
        ParityConcat(bits[..i], [bits[i]]);
        count := if bits[i] then count + 1 else count;
        i := i + 1;
      }
      assert bits[..i] == bits;
      b := count % 2 != 0;
    }

    /** A parity bit is valid iff it and the bits it covers hold an even number of set bits. */
    method ValidateParityBit(parityBit: bool, bits: seq<bool>) returns (ok: bool)
      ensures ok <==> parityBit == Parity(bits)
      ensures ok <==> !Parity([parityBit] + bits)
    {
      var expected := SetParityBit(bits);
      assert ([parityBit] + bits)[1..] == bits;
      ok := parityBit == expected;
    }

    /** The least number of parity bits p with 2^p >= wordLength + p + 1. */
    method NumParityBitsEncode(wordLength: nat) returns (numBits: nat)
      ensures numBits == ParityBitsEncode(wordLength)
      ensures Pow2(numBits) >= wordLength + numBits + 1
      ensures forall q :: 0 <= q < numBits ==> Pow2(q) < wordLength + q + 1
    {
      numBits := 0;
      while Pow2(numBits) < wordLength + numBits + 1
        invariant EncodeCountFrom(wordLength, numBits) == ParityBitsEncode(wordLength)
        decreases ParityBitsEncode(wordLength) - numBits
      {
        numBits := numBits + 1;
      }
    }

    /** The least number of parity levels p with 2^p >= wordLength. */
    method NumParityBitsDecode(wordLength: nat) returns (numBits: nat)
      ensures numBits == ParityBitsDecode(wordLength)
      ensures Pow2(numBits) >= wordLength
      ensures forall q :: 0 <= q < numBits ==> Pow2(q) < wordLength
    {
      numBits := 0;
      while Pow2(numBits) < wordLength
        invariant DecodeCountFrom(wordLength, numBits) == ParityBitsDecode(wordLength)
        decreases ParityBitsDecode(wordLength) - numBits
      {
        numBits := numBits + 1;
      }
    }

    /** The overall check: bit 0 against the even-parity bit of bits 1..end; it passes iff the word has even weight. */
    method ValidateOverallParity(code: BinaryCode) returns (ok: bool)
      requires code.Length() >= 1
      ensures ok == OverallOk(code.bits)
      ensures ok <==> !Parity(code.bits)
    {
      var codeBits := code.GetBits();
      var bits := BitsAfterFirst(codeBits);
      ok := ValidateParityBit(codeBits[0], bits);
      assert codeBits == [codeBits[0]] + bits;
    }

    /** The bits at positions 1..end that are not parity positions (not keys of the cache), in order. */
    method ExtractDecodedBits(bits: seq<bool>) returns (decoded: BinaryCode)
      requires Valid() && |bits| <= Pow2(Levels(Batches))
      ensures decoded.bits == DataBits(bits)
    {
      var decodedBits: seq<bool> := [];
      var i := 1;
      while i < |bits|
        invariant 1 <= i
        invariant i <= |bits| || |bits| == 0
        invariant decodedBits == ExtractRange(bits, 0, if |bits| == 0 then 0 else i)
      {
        assert ExtractRange(bits, 0, i + 1) == ExtractRange(bits, 0, i) + (if IsData(i) then [bits[i]] else []);
        CacheShaped(LimitsOf(Batches), Levels(Batches));
        KeysArePowers(parityMap, LimitsOf(Batches), Levels(Batches), i);
        if i !in parityMap {
          decodedBits := decodedBits + [bits[i]];
        }
        i := i + 1;
      }
      decoded := FromBits(decodedBits);
    }
  }

  /**
   * Encode's layout loop: a false bit goes in front of the payload, then at
   * every parity position 1, 2, 4, .. 2^(p-1) in turn, shifting what follows.
   * The payload ends up at the data positions, in order, and every parity
   * position and position 0 hold false.
   */
  method InsertParityPlaceholders(code: seq<bool>, numPBits: nat) returns (bits: seq<bool>)
    requires numPBits == ParityBitsEncode(|code|)
    ensures |bits| == |code| + numPBits + 1
    ensures DataBits(bits) == code
    ensures !bits[0] && forall j :: 0 <= j < numPBits ==> Pow2(j) < |bits| && !bits[Pow2(j)]
  {
    bits := InsertAt(code, 0);
    assert bits[1..] == code;
    var parityIndex := 1;
    ghost var k := 0;
    while numPBits >= 1 && parityIndex <= Pow2(numPBits - 1)
      invariant k <= numPBits && parityIndex == Pow2(k)
      invariant |bits| == |code| + k + 1
      invariant ExtractRange(bits, 0, Bound(Pow2(k), |bits|)) + bits[Bound(Pow2(k), |bits|)..] == code
      invariant !bits[0] && forall j :: 0 <= j < k ==> Pow2(j) < |bits| && !bits[Pow2(j)]
      decreases numPBits - k
    {
      Pow2Below(k, numPBits);
      assert Pow2(k) <= |bits|;
      InsertParityPlaceholder(bits, k, InsertAt(bits, parityIndex), Bound(Pow2(k + 1), |bits| + 1));
      PlaceholdersKept(bits, k);
      bits := InsertAt(bits, parityIndex);
      parityIndex := parityIndex * 2;
      k := k + 1;
    }
    Pow2Exit(k, numPBits);
    assert bits[|bits|..] == [];
  }

  /** Copies the bits after the first, in order: what the overall parity bit covers. */
  method BitsAfterFirst(codeBits: seq<bool>) returns (bits: seq<bool>)
    requires |codeBits| >= 1
    ensures bits == codeBits[1..]
  {
    bits := [];
    var i := 1;
    while i < |codeBits|
      invariant 1 <= i <= |codeBits|
      invariant bits == codeBits[1..i]
    {
      bits := bits + [codeBits[i]];
      i := i + 1;
    }
  }

  /**
   * The inner loop of the cache expansion: the indices from 2^(parity-1) up
   * to, not including, maxIndex whose binary form has a '1' at place
   * `parity` from the right, i.e. bit parity - 1.
   */
  method LevelCoverage(parity: nat, maxIndex: int) returns (list: seq<int>)
    requires 1 <= parity && Pow2(parity - 1) <= maxIndex
    ensures list == Covered(parity - 1, Pow2(parity - 1), maxIndex)
  {
    list := [];
    var index := Pow2(parity - 1);
    while index < maxIndex
      invariant Pow2(parity - 1) <= index <= maxIndex
      invariant list == Covered(parity - 1, Pow2(parity - 1), index)
    {
      if Bit(index, parity - 1) {
        list := list + [index];
      }
      index := index + 1;
    }
  }

  /**
   * The expansion loop on the cache's map: for `parity` from |m| + 1 to
   * target, stores under 2^(parity-1) the level built with bound
   * 2^target - 1. Given the history of bounds that ends with the new batch,
   * the result is the cache that history determines.
   */
  method GrowCache(m: map<int, seq<int>>, ghost limits: seq<int>, target: nat) returns (m': map<int, seq<int>>)
    requires |m| <= |limits| && m == CacheOf(limits, |m|)
    requires |limits| == if |m| < target then target else |m|
    requires forall j :: |m| <= j < |limits| ==> limits[j] == Pow2(target) - 1
    ensures m' == CacheOf(limits, |limits|)
  {
    var maxIndex := Pow2(target) - 1;
    m' := m;
    var parity := |m'| + 1;
    while parity <= target
      invariant |m| + 1 <= parity <= |limits| + 1
      invariant m' == CacheOf(limits, parity - 1)
    {
      LevelBounds(parity - 1, target);
      // the source puts an empty list under the key and appends to it in
      // place; the list is built first and stored once it is complete
      var list := LevelCoverage(parity, maxIndex);
      m' := m'[Pow2(parity - 1) := list];
      parity := parity + 1;
    }
  }
}
