/**
 * What validation makes of encoded words: an untouched word passes, a word
 * with one flipped bit is reported with that bit's position, and a word with
 * two flipped bits is reported as a double error, as long as the coverage
 * lists of the cache reach every position of the word. On a fresh coder they
 * fall one short exactly when the word length is a power of two.
 */
module HammingProps {
  import opened BitMath
  import opened HammingSpec
  import opened BinaryCodes

  /* ---------------- the candidate list ---------------- */

  /** Position x is listed by check j exactly when check j fails, for every check j below k. */
  ghost predicate Agrees(m: map<int, seq<int>>, w: seq<bool>, k: nat, x: int)
    requires Checkable(m, w, k)
  {
    k == 0 || (Agrees(m, w, k - 1, x) && (x in m[Pow2(k - 1)] <==> Fails(m, w, k - 1)))
  }

  /** Agreement with the first k checks, one check at a time. */
  lemma {:induction false} AgreesAll(m: map<int, seq<int>>, w: seq<bool>, k: nat, x: int)
    requires Checkable(m, w, k)
    ensures Agrees(m, w, k, x) <==> forall j :: 0 <= j < k ==> (x in m[Pow2(j)] <==> Fails(m, w, j))
  {
    if k > 0 {
      AgreesAll(m, w, k - 1, x);
    }
  }

  /** After k checks, x is a candidate iff it is one of 1..|w| and agrees with every check so far. */
  lemma {:induction false} CandidateMember(m: map<int, seq<int>>, w: seq<bool>, k: nat, x: int)
    requires Checkable(m, w, k)
    ensures x in Candidates(m, w, k) <==> 1 <= x <= |w| && Agrees(m, w, k, x)
  {
    if k == 0 {
      FirstCandidates(m, w, x);
    } else {
      var c := Candidates(m, w, k - 1);
      var l := m[Pow2(k - 1)];
      assert x in c <==> 1 <= x <= |w| && Agrees(m, w, k - 1, x) by {
        CandidateMember(m, w, k - 1, x);
      }
      assert x in Candidates(m, w, k) <==> x in c && (x in l <==> Fails(m, w, k - 1));
    }
  }

  /** Before any check, the candidates are the positions 1..|w|. */
  lemma FirstCandidates(m: map<int, seq<int>>, w: seq<bool>, x: int)
    ensures x in Candidates(m, w, 0) <==> 1 <= x <= |w|
  {
    if 1 <= x <= |w| {
      assert Candidates(m, w, 0)[x - 1] == x;
    }
  }

  /** The candidates stay in ascending order. */
  lemma {:induction false} CandidatesAscending(m: map<int, seq<int>>, w: seq<bool>, k: nat)
    requires Checkable(m, w, k)
    ensures Ascending(Candidates(m, w, k))
  {
    if k > 0 {
      CandidatesAscending(m, w, k - 1);
    }
  }

  /** An ascending list whose only member is i is [i]. */
  lemma AscendingSingleton(c: seq<int>, i: int)
    requires Ascending(c) && forall x :: x in c <==> x == i
    ensures c == [i]
  {
    assert i in c;
    assert c[0] in c;
    if |c| > 1 {
      AscendingDistinct(c, 0, 1);
      assert false;
    }
  }

  /** An ascending list holds no value twice. */
  lemma AscendingDistinct(c: seq<int>, a: nat, b: nat)
    requires Ascending(c) && a < b < |c|
    ensures c[a] != c[b] && c[a] in c && c[b] in c
  {
  }

  /* ---------------- flipping bits ---------------- */

  /** The word with bit i inverted: what a one-bit corruption, or its correction, does. */
  function Flip(w: seq<bool>, i: nat): (r: seq<bool>)
    requires i < |w|
    ensures |r| == |w| && r[i] == !w[i]
    ensures forall a :: 0 <= a < |w| && a != i ==> r[a] == w[a]
  {
    w[i := !w[i]]
  }

  /** Flipping a bit back undoes the flip. */
  lemma FlipTwice(w: seq<bool>, i: nat)
    requires i < |w|
    ensures Flip(Flip(w, i), i) == w
  {
  }

  /** The overall check passes exactly on words of even weight. */
  lemma OverallEvenWeight(w: seq<bool>)
    requires |w| >= 1
    ensures OverallOk(w) <==> !Parity(w)
  {
  }

  /** Any one flipped bit, overall parity bit included, turns the overall check's outcome around. */
  lemma OverallFlip(w: seq<bool>, i: nat)
    requires i < |w|
    ensures OverallOk(Flip(w, i)) == !OverallOk(w)
  {
    OverallEvenWeight(w);
    OverallEvenWeight(Flip(w, i));
    ParityFlip(w, i);
  }

  /**
   * When check j's list holds every position of the word with bit j set,
   * flipping bit i turns check j's outcome around exactly when bit j of i
   * is set.
   */
  lemma FlipFails(m: map<int, seq<int>>, w: seq<bool>, j: nat, limit: int, i: nat)
    requires Pow2(j) in m && m[Pow2(j)] == Covered(j, Pow2(j), limit)
    requires Pow2(j) < |w| <= limit && i < |w|
    ensures Fails(m, Flip(w, i), j) == (Fails(m, w, j) != Bit(i, j))
  {
    var list := m[Pow2(j)];
    CoveredBitsFlip(list, Pow2(j), w, i);
    assert Flip(w, i) == w[i := !w[i]];
    if i == Pow2(j) {
      BitOfPow2(j, j);
    } else if Bit(i, j) {
      BitBelow(i, j);
    }
  }

  /** A cache whose first p levels are the coverage lists for bounds that reach past n. */
  ghost predicate ReachesPast(m: map<int, seq<int>>, limits: seq<int>, p: nat, n: nat)
  {
    p <= |limits| &&
    forall j :: 0 <= j < p ==> Pow2(j) in m && m[Pow2(j)] == Covered(j, Pow2(j), limits[j]) && limits[j] >= n
  }

  /** Under such a cache, flipping bit i turns around exactly the checks j with bit j of i set. */
  lemma FlipOutcomes(m: map<int, seq<int>>, limits: seq<int>, w: seq<bool>, p: nat, i: nat)
    requires ReachesPast(m, limits, p, |w|) && Checkable(m, w, p) && i < |w|
    ensures Checkable(m, Flip(w, i), p)
    ensures forall j :: 0 <= j < p ==> Fails(m, Flip(w, i), j) == (Fails(m, w, j) != Bit(i, j))
  {
    forall j | 0 <= j < p
      ensures Fails(m, Flip(w, i), j) == (Fails(m, w, j) != Bit(i, j))
    {
      FlipFails(m, w, j, limits[j], i);
    }
  }

  /**
   * Under bounds that reach past n and were built in batches, the only
   * position 1..n whose membership in the first p coverage lists matches
   * the set bits of i is i itself. For positions below n this is the bit
   * pattern; the extra candidate n is listed by a check only if every bound
   * lies past it, and then it is ruled out by its own bits.
   */
  lemma OnlyCandidate(limits: seq<int>, n: nat, p: nat, i: nat, x: int)
    requires Batched(limits) && p <= |limits| && forall j :: 0 <= j < p ==> limits[j] >= n
    requires Pow2(p) >= n && forall r :: 0 <= r < p ==> Pow2(r) < n
    requires 1 <= i < n && 1 <= x <= n
    requires forall j :: 0 <= j < p ==> (x in Covered(j, Pow2(j), limits[j]) <==> Bit(i, j))
    ensures x == i
  {
    var j0 := NonzeroBit(i, p);
    if x < n {
      forall j | 0 <= j < p
        ensures Bit(x, j) == Bit(i, j)
      {
        if Bit(x, j) {
          BitBelow(x, j);
        }
      }
      if x != i {
        var d := DifferingBit(x, i, p);
        assert false;
      }
    } else {
      assert n < limits[j0];
      forall j | 0 <= j < p
        ensures n < limits[j] && (Bit(n, j) == Bit(i, j))
      {
        if j != j0 {
          if j < j0 {
            Pow2Monotone(j0, p);
            assert Pow2(j0) < n;
          } else {
            assert Pow2(j) < n;
          }
        }
        if Bit(n, j) {
          BitBelow(n, j);
        }
      }
      if n < Pow2(p) {
        var d := DifferingBit(n, i, p);
        assert false;
      } else {
        BitOfPow2(p, j0);
        assert false;
      }
    }
  }

  /* ---------------- what validation reports ---------------- */

  /** The coverage of the first p levels reaches every position below n. */
  predicate Reaches(limits: seq<int>, n: nat, p: nat)
  {
    p <= |limits| && forall j :: 0 <= j < p ==> limits[j] >= n
  }

  /** An encoded word, untouched, validates with no error: every check and the overall check pass. */
  lemma CleanWordValidates(m: map<int, seq<int>>, payload: seq<bool>, w: seq<bool>)
    requires EncodedBy(m, payload, w)
    ensures |w| >= 1 && Checkable(m, w, ParityBitsDecode(|w|))
    ensures Validate(m, w) == NoError
  {
    DecodeCountOfEncoded(|payload|);
  }

  /**
   * With one bit i >= 1 flipped in a word whose checks all passed, exactly
   * the checks j with bit j of i set fail, and i is the one candidate left.
   */
  lemma SingleCandidate(m: map<int, seq<int>>, limits: seq<int>, w: seq<bool>, p: nat, i: nat)
    requires Batched(limits) && ReachesPast(m, limits, p, |w|) && Checkable(m, w, p)
    requires Pow2(p) >= |w| && forall r :: 0 <= r < p ==> Pow2(r) < |w|
    requires 1 <= i < |w|
    requires forall j :: 0 <= j < p ==> Fails(m, w, j) == Bit(i, j)
    ensures AnyFails(m, w, p) && Candidates(m, w, p) == [i]
  {
    var j0 := NonzeroBit(i, p);
    assert Fails(m, w, j0);
    var c := Candidates(m, w, p);
    forall x
      ensures x in c <==> x == i
    {
      CandidateMember(m, w, p, x);
      AgreesAll(m, w, p, x);
      if x in c {
        OnlyCandidate(limits, |w|, p, i, x);
      }
      if x == i {
        forall j | 0 <= j < p
          ensures i in m[Pow2(j)] <==> Fails(m, w, j)
        {
          if Bit(i, j) {
            BitBelow(i, j);
          }
        }
      }
    }
    CandidatesAscending(m, w, p);
    AscendingSingleton(c, i);
  }

  /**
   * A single flipped bit of a word whose checks all pass is reported at its
   * position when every check's coverage reaches the whole word: bit 0
   * through the overall check alone, any other bit through the checks that
   * cover it.
   */
  lemma FlipReported(m: map<int, seq<int>>, limits: seq<int>, w: seq<bool>, p: nat, i: nat)
    requires Batched(limits) && ReachesPast(m, limits, p, |w|)
    requires |w| >= 1 && p == ParityBitsDecode(|w|)
    requires Checkable(m, w, p) && (forall j :: 0 <= j < p ==> !Fails(m, w, j)) && OverallOk(w)
    requires i < |w|
    ensures Checkable(m, Flip(w, i), p)
    ensures Validate(m, Flip(w, i)) == SingleBit(i)
  {
    FlipOutcomes(m, limits, w, p, i);
    OverallFlip(w, i);
    var w' := Flip(w, i);
    if i == 0 {
      forall j | 0 <= j < p
        ensures !Fails(m, w', j)
      {
        BitZero(j);
      }
      assert !AnyFails(m, w', p);
    } else {
      SingleCandidate(m, limits, w', p, i);
    }
  }

  /**
   * Two distinct flipped bits of a word whose checks all pass are reported
   * as a double error when every check's coverage reaches the whole word:
   * the overall check passes again, and some check sees one flip but not
   * the other.
   */
  lemma TwoFlipsReported(m: map<int, seq<int>>, limits: seq<int>, w: seq<bool>, p: nat, i: nat, k: nat)
    requires ReachesPast(m, limits, p, |w|)
    requires |w| >= 1 && p == ParityBitsDecode(|w|)
    requires Checkable(m, w, p) && (forall j :: 0 <= j < p ==> !Fails(m, w, j)) && OverallOk(w)
    requires i < |w| && k < |w| && i != k
    ensures Checkable(m, Flip(Flip(w, i), k), p)
    ensures Validate(m, Flip(Flip(w, i), k)) == DoubleBit
  {
    var w1 := Flip(w, i);
    var w2 := Flip(w1, k);
    assert Checkable(m, w2, p) && AnyFails(m, w2, p) by {
      FlipOutcomes(m, limits, w, p, i);
      FlipOutcomes(m, limits, w1, p, k);
      var d := DifferingBit(i, k, p);
      assert Fails(m, w2, d);
    }
    assert OverallOk(w2) by {
      OverallFlip(w, i);
      OverallFlip(w1, k);
    }
    // every candidate is a position from 1 up, so the search never yields -1 here
    CandidateMember(m, w2, p, -1);
  }

  /** What an encoded word, checked against the cache of a history, offers the two lemmas above. */
  lemma EncodedReady(batches: seq<nat>, m: map<int, seq<int>>, payload: seq<bool>, w: seq<bool>)
    requires Increasing(batches) && m == CacheOf(LimitsOf(batches), Levels(batches))
    requires EncodedBy(m, payload, w) && Reaches(LimitsOf(batches), |w|, ParityBitsEncode(|payload|))
    ensures Batched(LimitsOf(batches))
    ensures ReachesPast(m, LimitsOf(batches), ParityBitsDecode(|w|), |w|)
    ensures |w| >= 1 && ParityBitsDecode(|w|) == ParityBitsEncode(|payload|)
  {
    DecodeCountOfEncoded(|payload|);
    HistoryBatched(batches);
    CacheShaped(LimitsOf(batches), |LimitsOf(batches)|);
  }

  /**
   * A single flipped bit of an encoded word is reported at its position,
   * provided the cache's coverage reaches every position of the word.
   */
  lemma SingleFlipLocated(batches: seq<nat>, m: map<int, seq<int>>, payload: seq<bool>, w: seq<bool>, i: nat)
    requires Increasing(batches) && m == CacheOf(LimitsOf(batches), Levels(batches))
    requires EncodedBy(m, payload, w) && Reaches(LimitsOf(batches), |w|, ParityBitsEncode(|payload|))
    requires i < |w|
    ensures Checkable(m, Flip(w, i), ParityBitsDecode(|w|))
    ensures Validate(m, Flip(w, i)) == SingleBit(i)
  {
    EncodedReady(batches, m, payload, w);
    FlipReported(m, LimitsOf(batches), w, ParityBitsDecode(|w|), i);
  }

  /** Correcting the reported bit of a single-flipped word and decoding gives the payload back. */
  lemma CorrectThenDecode(batches: seq<nat>, m: map<int, seq<int>>, payload: seq<bool>, w: seq<bool>, i: nat)
    requires Increasing(batches) && m == CacheOf(LimitsOf(batches), Levels(batches))
    requires EncodedBy(m, payload, w) && Reaches(LimitsOf(batches), |w|, ParityBitsEncode(|payload|))
    requires i < |w|
    ensures Checkable(m, Flip(w, i), ParityBitsDecode(|w|))
    ensures Validate(m, Flip(w, i)).SingleBit? && Validate(m, Flip(w, i)).index == i
    ensures DataBits(Flip(Flip(w, i), Validate(m, Flip(w, i)).index)) == payload
  {
    SingleFlipLocated(batches, m, payload, w, i);
    FlipTwice(w, i);
  }

  /**
   * Two distinct flipped bits of an encoded word are reported as a double
   * error, provided the cache's coverage reaches every position of the word.
   */
  lemma DoubleFlipDetected(batches: seq<nat>, m: map<int, seq<int>>, payload: seq<bool>, w: seq<bool>, i: nat, k: nat)
    requires Increasing(batches) && m == CacheOf(LimitsOf(batches), Levels(batches))
    requires EncodedBy(m, payload, w) && Reaches(LimitsOf(batches), |w|, ParityBitsEncode(|payload|))
    requires i < |w| && k < |w| && i != k
    ensures Checkable(m, Flip(Flip(w, i), k), ParityBitsDecode(|w|))
    ensures Validate(m, Flip(Flip(w, i), k)) == DoubleBit
  {
    EncodedReady(batches, m, payload, w);
    TwoFlipsReported(m, LimitsOf(batches), w, ParityBitsDecode(|w|), i, k);
  }

  /** Decoding the text of an encoded word gives back the binary text that was encoded. */
  lemma DecodeOfEncode(m: map<int, seq<int>>, text: string, encoded: string)
    requires IsBinary(text) && EncodedBy(m, BitsOf(text), BitsOf(encoded))
    ensures Text(DataBits(BitsOf(encoded))) == text
  {
    TextOfBitsOf(text);
  }

  /* ---------------- encoding is determined by the cache ---------------- */

  /**
   * A shaped cache leaves encode no choice: the data positions carry the
   * payload, each check reads only data positions besides its own, which
   * fixes the parity bit it stores, and bit 0 is the parity of the rest.
   */
  lemma EncodedUnique(m: map<int, seq<int>>, limits: seq<int>, n: nat, payload: seq<bool>, w1: seq<bool>, w2: seq<bool>)
    requires Shaped(m, limits, n) && ParityBitsEncode(|payload|) <= n
    requires EncodedBy(m, payload, w1) && EncodedBy(m, payload, w2)
    ensures w1 == w2
  {
    var p := ParityBitsEncode(|payload|);
    var len := |w1|;
    ExtractDetermines(w1, w2, len);
    assert forall j :: 0 <= j < p ==> w1[Pow2(j)] == w2[Pow2(j)] by {
      forall j | 0 <= j < p
        ensures w1[Pow2(j)] == w2[Pow2(j)]
      {
        var list := m[Pow2(j)];
        assert list == Covered(j, Pow2(j), limits[j]);
        assert !Fails(m, w1, j) && !Fails(m, w2, j);
        forall a | 0 <= a < |list| && list[a] < len && list[a] != Pow2(j)
          ensures w1[list[a]] == w2[list[a]]
        {
          CoveredData(j, limits[j], list[a]);
        }
        CoveredBitsAgree(list, Pow2(j), w1, w2);
      }
    }
    forall i | 1 <= i < len
      ensures w1[i] == w2[i]
    {
      if IsPow2(i) {
        Pow2OfLog(i);
        if Log2(i) > p {
          Pow2Monotone(p, Log2(i));
        }
        assert Log2(i) < p;
      }
    }
    assert w1[1..] == w2[1..];
  }

  /**
   * Encoding the same payload again on the same coder: the cache already
   * has the levels, so expansion leaves the history alone and the second
   * word equals the first.
   */
  lemma EncodeRepeated(batches: seq<nat>, payload: seq<bool>, w1: seq<bool>, w2: seq<bool>)
    requires Increasing(batches) && ParityBitsEncode(|payload|) <= Levels(batches)
    requires EncodedBy(CacheOf(LimitsOf(batches), Levels(batches)), payload, w1)
    requires EncodedBy(CacheOf(LimitsOf(batches), Levels(batches)), payload, w2)
    ensures Expanded(batches, ParityBitsEncode(|payload|)) == batches
    ensures w1 == w2
  {
    CacheShaped(LimitsOf(batches), Levels(batches));
    EncodedUnique(CacheOf(LimitsOf(batches), Levels(batches)), LimitsOf(batches), Levels(batches), payload, w1, w2);
  }

  /** The payload of the encoding example, as bits. */
  lemma ExampleBits()
    ensures BitsOf("00011000") == [false, false, false, true, true, false, false, false]
  {
  }

  /** The expected word of the encoding example carries 00011000 at its data positions. */
  lemma ExampleData(w: seq<bool>)
    requires w == [true, false, true, false, true, false, false, true, true, true, false, false, false]
    ensures DataBits(w) == [false, false, false, true, true, false, false, false]
  {
    assert ExtractRange(w, 0, 4) == [false];
    assert ExtractRange(w, 0, 6) == [false, false];
    assert ExtractRange(w, 0, 7) == [false, false, false];
    assert ExtractRange(w, 0, 8) == [false, false, false, true];
    assert ExtractRange(w, 0, 10) == [false, false, false, true, true];
    assert ExtractRange(w, 0, 11) == [false, false, false, true, true, false];
    assert ExtractRange(w, 0, 12) == [false, false, false, true, true, false, false];
    assert ExtractRange(w, 0, 13) == [false, false, false, true, true, false, false, false];
  }

  /** The expected word of the encoding example passes the overall check. */
  lemma ExampleOverall(w: seq<bool>)
    requires w == [true, false, true, false, true, false, false, true, true, true, false, false, false]
    ensures OverallOk(w)
  {
    assert Parity([false, true, false, true, false, false, true, true, true, false, false, false]);
    assert w[1..] == [false, true, false, true, false, false, true, true, true, false, false, false];
  }

  /** The scan behind level 0 with bound 15. */
  lemma ExampleScan0()
    ensures CoveredScan(0, 1, 15) == [1, 3, 5, 7, 9, 11, 13]
  {
  }

  /** The scan behind level 1 with bound 15. */
  lemma ExampleScan1()
    ensures CoveredScan(1, 2, 15) == [2, 3, 6, 7, 10, 11, 14]
  {
  }

  /** The scan behind level 2 with bound 15. */
  lemma ExampleScan2()
    ensures CoveredScan(2, 4, 15) == [4, 5, 6, 7, 12, 13, 14]
  {
  }

  /** The scan behind level 3 with bound 15. */
  lemma ExampleScan3()
    ensures CoveredScan(3, 8, 15) == [8, 9, 10, 11, 12, 13, 14]
  {
  }

  /**
   * Level 0 of the encoding example lists 1, 3, 5, 7, 9, 11, 13;
   * on the expected word its check reads 00110, whose parity is the stored bit.
   */
  lemma ExampleLevel0(w: seq<bool>)
    requires |w| == 13 && !w[1] && !w[3] && !w[5] && w[7] && w[9] && !w[11]
    ensures CoveredBits([1, 3, 5, 7, 9, 11, 13], 1, w) == [false, false, true, true, false]
    ensures w[1] == Parity([false, false, true, true, false])
  {
    assert CoveredBits([1, 3, 5, 7, 9, 11, 13], 1, w) == [false, false, true, true, false] by {
      assert CoveredBits([13], 1, w) == [];
      assert CoveredBits([11, 13], 1, w) == [false];
      assert CoveredBits([9, 11, 13], 1, w) == [true, false];
      assert CoveredBits([7, 9, 11, 13], 1, w) == [true, true, false];
      assert CoveredBits([5, 7, 9, 11, 13], 1, w) == [false, true, true, false];
      assert CoveredBits([3, 5, 7, 9, 11, 13], 1, w) == [false, false, true, true, false];
    }
  }

  /**
   * Level 1 of the encoding example lists 2, 3, 6, 7, 10, 11, 14;
   * on the expected word its check reads 00100, whose parity is the stored bit.
   */
  lemma ExampleLevel1(w: seq<bool>)
    requires |w| == 13 && w[2] && !w[3] && !w[6] && w[7] && !w[10] && !w[11]
    ensures CoveredBits([2, 3, 6, 7, 10, 11, 14], 2, w) == [false, false, true, false, false]
    ensures w[2] == Parity([false, false, true, false, false])
  {
    assert CoveredBits([2, 3, 6, 7, 10, 11, 14], 2, w) == [false, false, true, false, false] by {
      assert CoveredBits([14], 2, w) == [];
      assert CoveredBits([11, 14], 2, w) == [false];
      assert CoveredBits([10, 11, 14], 2, w) == [false, false];
      assert CoveredBits([7, 10, 11, 14], 2, w) == [true, false, false];
      assert CoveredBits([6, 7, 10, 11, 14], 2, w) == [false, true, false, false];
      assert CoveredBits([3, 6, 7, 10, 11, 14], 2, w) == [false, false, true, false, false];
    }
  }

  /**
   * Level 2 of the encoding example lists 4, 5, 6, 7, 12, 13, 14;
   * on the expected word its check reads 0010, whose parity is the stored bit.
   */
  lemma ExampleLevel2(w: seq<bool>)
    requires |w| == 13 && w[4] && !w[5] && !w[6] && w[7] && !w[12]
    ensures CoveredBits([4, 5, 6, 7, 12, 13, 14], 4, w) == [false, false, true, false]
    ensures w[4] == Parity([false, false, true, false])
  {
    assert CoveredBits([4, 5, 6, 7, 12, 13, 14], 4, w) == [false, false, true, false] by {
      assert CoveredBits([14], 4, w) == [];
      assert CoveredBits([13, 14], 4, w) == [];
      assert CoveredBits([12, 13, 14], 4, w) == [false];
      assert CoveredBits([7, 12, 13, 14], 4, w) == [true, false];
      assert CoveredBits([6, 7, 12, 13, 14], 4, w) == [false, true, false];
      assert CoveredBits([5, 6, 7, 12, 13, 14], 4, w) == [false, false, true, false];
    }
  }

  /**
   * Level 3 of the encoding example lists 8, 9, 10, 11, 12, 13, 14;
   * on the expected word its check reads 1000, whose parity is the stored bit.
   */
  lemma ExampleLevel3(w: seq<bool>)
    requires |w| == 13 && w[8] && w[9] && !w[10] && !w[11] && !w[12]
    ensures CoveredBits([8, 9, 10, 11, 12, 13, 14], 8, w) == [true, false, false, false]
    ensures w[8] == Parity([true, false, false, false])
  {
    assert CoveredBits([8, 9, 10, 11, 12, 13, 14], 8, w) == [true, false, false, false] by {
      assert CoveredBits([14], 8, w) == [];
      assert CoveredBits([13, 14], 8, w) == [];
      assert CoveredBits([12, 13, 14], 8, w) == [false];
      assert CoveredBits([11, 12, 13, 14], 8, w) == [false, false];
      assert CoveredBits([10, 11, 12, 13, 14], 8, w) == [false, false, false];
      assert CoveredBits([9, 10, 11, 12, 13, 14], 8, w) == [true, false, false, false];
    }
  }

  /** A cache whose four levels have bound 15 holds these four lists. */
  lemma ExampleCache(m: map<int, seq<int>>, limits: seq<int>)
    requires Shaped(m, limits, 4) && limits[0] == 15 && limits[1] == 15 && limits[2] == 15 && limits[3] == 15
    ensures 1 in m && m[1] == [1, 3, 5, 7, 9, 11, 13]
    ensures 2 in m && m[2] == [2, 3, 6, 7, 10, 11, 14]
    ensures 4 in m && m[4] == [4, 5, 6, 7, 12, 13, 14]
    ensures 8 in m && m[8] == [8, 9, 10, 11, 12, 13, 14]
  {
    assert Pow2(1) == 2 && Pow2(2) == 4 && Pow2(3) == 8;
    assert m[Pow2(0)] == Covered(0, Pow2(0), 15) && m[Pow2(1)] == Covered(1, Pow2(1), 15);
    assert m[Pow2(2)] == Covered(2, Pow2(2), 15) && m[Pow2(3)] == Covered(3, Pow2(3), 15);
    ExampleScan0();
    ExampleScan1();
    ExampleScan2();
    ExampleScan3();
  }

  /** Every check passes on the expected word of the encoding example. */
  lemma ExampleChecks(m: map<int, seq<int>>, w: seq<bool>)
    requires w == [true, false, true, false, true, false, false, true, true, true, false, false, false]
    requires 1 in m && m[1] == [1, 3, 5, 7, 9, 11, 13]
    requires 2 in m && m[2] == [2, 3, 6, 7, 10, 11, 14]
    requires 4 in m && m[4] == [4, 5, 6, 7, 12, 13, 14]
    requires 8 in m && m[8] == [8, 9, 10, 11, 12, 13, 14]
    requires Checkable(m, w, 4)
    ensures forall j :: 0 <= j < 4 ==> !Fails(m, w, j)
  {
    forall j | 0 <= j < 4
      ensures !Fails(m, w, j)
    {
      if j == 0 {
        ExampleLevel0(w);
      } else if j == 1 {
        assert Pow2(1) == 2;
        ExampleLevel1(w);
      } else if j == 2 {
        assert Pow2(2) == 4;
        ExampleLevel2(w);
      } else {
        assert Pow2(3) == 8;
        ExampleLevel3(w);
      }
    }
  }

  /** The text of the expected word of the encoding example. */
  lemma ExampleText()
    ensures Text([true, false, true, false, true, false, false, true, true, true, false, false, false]) == "1010100111000"
  {
  }

  /** Under the four levels with bound 15, the expected word encodes 00011000. */
  lemma ExampleEncoded(m: map<int, seq<int>>, w: seq<bool>)
    requires w == [true, false, true, false, true, false, false, true, true, true, false, false, false]
    requires 1 in m && m[1] == [1, 3, 5, 7, 9, 11, 13]
    requires 2 in m && m[2] == [2, 3, 6, 7, 10, 11, 14]
    requires 4 in m && m[4] == [4, 5, 6, 7, 12, 13, 14]
    requires 8 in m && m[8] == [8, 9, 10, 11, 12, 13, 14]
    requires Checkable(m, w, 4)
    ensures EncodedBy(m, BitsOf("00011000"), w)
  {
    assert ParityBitsEncode(8) == 4;
    ExampleBits();
    ExampleData(w);
    ExampleOverall(w);
    ExampleChecks(m, w);
  }

  /**
   * The encoding example: a fresh coder needs four levels for eight payload
   * bits, builds them with bound 15, and encodes 00011000 as 1010100111000.
   * The history is the one the first encode leaves behind.
   */
  lemma EncodeExample(batches: seq<nat>, m: map<int, seq<int>>, w: seq<bool>)
    requires batches == Expanded([], ParityBitsEncode(8)) && Increasing(batches)
    requires m == CacheOf(LimitsOf(batches), Levels(batches))
    requires EncodedBy(m, BitsOf("00011000"), w)
    ensures Text(w) == "1010100111000"
  {
    var expected := [true, false, true, false, true, false, false, true, true, true, false, false, false];
    ExampleFreshCache(batches, m);
    ExampleCache(m, LimitsOf(batches));
    ShapedCheckable(m, LimitsOf(batches), 4, expected, 4);
    ExampleEncoded(m, expected);
    EncodedUnique(m, LimitsOf(batches), 4, BitsOf("00011000"), w, expected);
    ExampleText();
  }

  /** The cache of a fresh coder after encoding eight payload bits: four levels with bound 15. */
  lemma ExampleFreshCache(batches: seq<nat>, m: map<int, seq<int>>)
    requires batches == Expanded([], ParityBitsEncode(8)) && Increasing(batches)
    requires m == CacheOf(LimitsOf(batches), Levels(batches))
    ensures ParityBitsEncode(|BitsOf("00011000")|) <= 4
    ensures Shaped(m, LimitsOf(batches), 4)
    ensures forall j :: 0 <= j < 4 ==> LimitsOf(batches)[j] == 15
  {
    var p := ParityBitsEncode(8);
    assert p == 4 && Pow2(p) == 16;
    FreshCache(p, batches, m);
  }

  /** The decoding example: the data positions 3, 5, 6 and 7 of 00011000 hold 1000. */
  lemma DecodeExample()
    ensures Text(DataBits(BitsOf("00011000"))) == "1000"
  {
    var w := BitsOf("00011000");
    assert DataBits(w) == [true, false, false, false] by {
      assert ExtractRange(w, 0, 3) == [];
      assert ExtractRange(w, 0, 4) == [true];
      assert ExtractRange(w, 0, 5) == [true];
      assert ExtractRange(w, 0, 6) == [true, false];
      assert ExtractRange(w, 0, 7) == [true, false, false];
    }
  }

  /* ---------------- a fresh coder ---------------- */

  /**
   * The first encode on a fresh coder builds its p levels with the bound
   * 2^p - 1, so the coverage reaches the whole word exactly when the word is
   * shorter than 2^p positions, or no levels are needed.
   */
  lemma FreshCoderReach(len: nat, p: nat)
    requires p == ParityBitsEncode(len)
    ensures Increasing(Expanded([], p))
    ensures Reaches(LimitsOf(Expanded([], p)), len + p + 1, p) <==> p == 0 || len + p + 1 < Pow2(p)
  {
    if p > 0 {
      assert Expanded([], p) == [] + [p];
      LimitsStep([], p);
      var limits := LimitsOf([] + [p]);
      assert limits == Repeat(p, Pow2(p) - 1);
      assert limits[0] == Pow2(p) - 1;
    }
  }

  /** A flip at a position no check covers or stores trips only the overall check, and bit 0 is blamed. */
  lemma UncoveredFlip(m: map<int, seq<int>>, w: seq<bool>, p: nat, i: nat)
    requires |w| >= 1 && p == ParityBitsDecode(|w|)
    requires Checkable(m, w, p) && (forall j :: 0 <= j < p ==> !Fails(m, w, j)) && OverallOk(w)
    requires i < |w| && forall j :: 0 <= j < p ==> i != Pow2(j) && i !in m[Pow2(j)]
    ensures Checkable(m, Flip(w, i), p)
    ensures Validate(m, Flip(w, i)) == SingleBit(0)
  {
    var w' := Flip(w, i);
    forall j | 0 <= j < p
      ensures !Fails(m, w', j)
    {
      FailsUpdate(m, w, j, i, !w[i]);
    }
    OverallFlip(w, i);
    assert !AnyFails(m, w', p);
  }

  /** Level j of a cache built to n > j levels is keyed by 2^j and lists the positions its bound allows. */
  lemma CacheLevel(limits: seq<int>, n: nat, j: nat)
    requires j < n <= |limits|
    ensures Pow2(j) in CacheOf(limits, n)
    ensures CacheOf(limits, n)[Pow2(j)] == Covered(j, Pow2(j), limits[j])
  {
    CacheExtends(limits, j + 1, n);
  }

  /**
   * Expanding the cache to t levels only appends: the cache ends with the
   * larger of its old size and t levels, every old list stays as it was,
   * and each new level j lists the positions from 2^j below 2^t - 1 with
   * bit j set.
   */
  lemma ExpansionAppends(batches: seq<nat>, t: nat)
    requires Increasing(batches)
    ensures Increasing(Expanded(batches, t))
    ensures var m := CacheOf(LimitsOf(batches), Levels(batches));
            var m' := CacheOf(LimitsOf(Expanded(batches, t)), Levels(Expanded(batches, t)));
            |m'| == (if |m| < t then t else |m|) &&
            (forall key :: key in m ==> key in m' && m'[key] == m[key]) &&
            (forall j :: |m| <= j < |m'| ==> Pow2(j) in m' && m'[Pow2(j)] == Covered(j, Pow2(j), Pow2(t) - 1))
  {
    var next := Expanded(batches, t);
    NextBatch(batches, t);
    var n := Levels(batches);
    var n' := Levels(next);
    var l' := LimitsOf(next);
    var m := CacheOf(LimitsOf(batches), n);
    var m' := CacheOf(l', n');
    assert |m| == n && |m'| == n' by {
      CacheSize(LimitsOf(batches), n);
      CacheSize(l', n');
    }
    assert forall key :: key in m ==> key in m' && m'[key] == m[key] by {
      CacheExtends(l', n, n');
    }
    assert forall j :: n <= j < n' ==> Pow2(j) in m' && m'[Pow2(j)] == Covered(j, Pow2(j), Pow2(t) - 1) by {
      forall j | n <= j < n'
        ensures Pow2(j) in m' && m'[Pow2(j)] == Covered(j, Pow2(j), Pow2(t) - 1)
      {
        CacheLevel(l', n', j);
      }
    }
  }

  /** The first expansion, to p levels, bounds every level by 2^p - 1. */
  lemma FreshLimits(p: nat)
    requires p >= 1
    ensures Increasing(Expanded([], p))
    ensures LimitsOf(Expanded([], p)) == Repeat(p, Pow2(p) - 1)
  {
    assert Expanded([], p) == [] + [p];
    LimitsStep([], p);
  }

  /**
   * A fresh coder expanded to p levels records one batch; its cache has the
   * shape of p levels that all share the bound 2^p - 1.
   */
  lemma FreshCache(p: nat, batches: seq<nat>, m: map<int, seq<int>>)
    requires p >= 1 && batches == Expanded([], p)
    requires m == CacheOf(LimitsOf(batches), Levels(batches))
    ensures Increasing(batches) && Levels(batches) == p && Shaped(m, LimitsOf(batches), p)
    ensures forall j :: 0 <= j < p ==> LimitsOf(batches)[j] == Pow2(p) - 1
    ensures forall j :: 0 <= j < p ==> Pow2(j) in m && m[Pow2(j)] == Covered(j, Pow2(j), Pow2(p) - 1)
  {
    FreshLimits(p);
    assert batches == [p];
    UniformCache(LimitsOf(batches), p, Pow2(p) - 1);
    CacheShaped(LimitsOf(batches), p);
  }

  /** Levels that share one bound list the positions below that bound. */
  lemma UniformCache(limits: seq<int>, n: nat, b: int)
    requires n <= |limits| && forall j :: 0 <= j < n ==> limits[j] == b
    ensures forall j :: 0 <= j < n ==> Pow2(j) in CacheOf(limits, n) && CacheOf(limits, n)[Pow2(j)] == Covered(j, Pow2(j), b)
  {
    forall j | 0 <= j < n
      ensures Pow2(j) in CacheOf(limits, n) && CacheOf(limits, n)[Pow2(j)] == Covered(j, Pow2(j), b)
    {
      CacheLevel(limits, n, j);
    }
  }

  /**
   * The position the bound 2^p - 1 leaves uncovered. When the word fills
   * 2^p positions exactly (four data bits and three levels, say), a fresh
   * coder builds every level with bound 2^p - 1, so no check covers the
   * last position; flipping that data bit trips only the overall check and
   * validation blames bit 0.
   */
  lemma LastPositionMisreported(m: map<int, seq<int>>, payload: seq<bool>, w: seq<bool>)
    requires m == CacheOf(LimitsOf(Expanded([], ParityBitsEncode(|payload|))), ParityBitsEncode(|payload|))
    requires EncodedBy(m, payload, w)
    requires |w| == Pow2(ParityBitsEncode(|payload|)) && |w| >= 4
    ensures Checkable(m, Flip(w, |w| - 1), ParityBitsDecode(|w|))
    ensures Validate(m, Flip(w, |w| - 1)) == SingleBit(0)
  {
    var p := ParityBitsEncode(|payload|);
    var last := |w| - 1;
    DecodeCountOfEncoded(|payload|);
    assert p >= 2 by {
      assert Pow2(1) == 2;
    }
    FreshLimits(p);
    UniformCache(LimitsOf(Expanded([], p)), p, last);
    assert forall j :: 0 <= j < p ==> Pow2(j) < last by {
      forall j | 0 <= j < p
        ensures Pow2(j) < last
      {
        Pow2Monotone(0, p - 1);
        if j < p - 1 {
          Pow2Monotone(j, p - 1);
        }
      }
    }
    UncoveredFlip(m, w, p, last);
  }
}
