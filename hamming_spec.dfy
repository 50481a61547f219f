/**
 * The value-level meaning of the Hamming coder: the parity of a bit
 * collection, the layout of an encoded word (position 0 is the overall
 * parity bit, powers of two are the indexed parity bits, every other
 * position carries a payload bit), the coverage lists of the parity cache,
 * the indexed parity checks, the narrowing of the candidate positions, and
 * the table that turns the checks into a verdict.
 */
module HammingSpec {
  import opened BitMath

  /* ---------------- parity ---------------- */

  /** The even-parity bit of a collection: true iff it holds an odd number of set bits. */
  function Parity(s: seq<bool>): bool
  {
    if s == [] then false else s[0] != Parity(s[1..])
  }

  lemma {:induction false} ParityConcat(s: seq<bool>, t: seq<bool>)
    ensures Parity(s + t) == (Parity(s) != Parity(t))
  {
    if s == [] {
      assert s + t == t;
    } else {
      assert (s + t)[1..] == s[1..] + t;
      ParityConcat(s[1..], t);
    }
  }

  /** Flipping one bit flips the parity. */
  lemma {:induction false} ParityFlip(s: seq<bool>, i: nat)
    requires i < |s|
    ensures Parity(s[i := !s[i]]) == !Parity(s)
  {
    if i == 0 {
      assert s[i := !s[i]][1..] == s[1..];
    } else {
      assert s[i := !s[i]][1..] == s[1..][i - 1 := !s[i]];
      ParityFlip(s[1..], i - 1);
    }
  }

  /* ---------------- parity-bit counts ---------------- */

  /** The least p >= q with 2^p >= m + p + 1. */
  function EncodeCountFrom(m: nat, q: nat): (p: nat)
    decreases m + 1 - q
    ensures q <= p
    ensures Pow2(p) >= m + p + 1
    ensures forall r :: q <= r < p ==> Pow2(r) < m + r + 1
  {
    if Pow2(q) >= m + q + 1 then q
    else
      Pow2Grows(q);
      var p := EncodeCountFrom(m, q + 1);
      assert forall r :: q + 1 <= r < p ==> Pow2(r) < m + r + 1;
      p
  }

  /** Parity bits needed to encode m payload bits: the least p with 2^p >= m + p + 1. */
  function ParityBitsEncode(m: nat): (p: nat)
    ensures Pow2(p) >= m + p + 1
    ensures forall r :: 0 <= r < p ==> Pow2(r) < m + r + 1
  {
    EncodeCountFrom(m, 0)
  }

  /** The least p >= q with 2^p >= n. */
  function DecodeCountFrom(n: nat, q: nat): (p: nat)
    decreases n - Pow2(q)
    ensures q <= p
    ensures Pow2(p) >= n
    ensures forall r :: q <= r < p ==> Pow2(r) < n
  {
    if Pow2(q) >= n then q else DecodeCountFrom(n, q + 1)
  }

  /** Parity levels a word of length n is checked with: the least p with 2^p >= n. */
  function ParityBitsDecode(n: nat): (p: nat)
    ensures Pow2(p) >= n
    ensures forall r :: 0 <= r < p ==> Pow2(r) < n
  {
    DecodeCountFrom(n, 0)
  }

  /** A word of length m + p + 1 made by encoding is checked with the same p levels. */
  lemma DecodeCountOfEncoded(m: nat)
    ensures ParityBitsDecode(m + ParityBitsEncode(m) + 1) == ParityBitsEncode(m)
  {
    var p := ParityBitsEncode(m);
    var q := ParityBitsDecode(m + p + 1);
    if q < p {
      assert false;
    } else if q > p {
      assert false;
    }
  }

  /* ---------------- layout of an encoded word ---------------- */

  /** Positions that carry payload bits: neither 0 nor a power of two. */
  predicate IsData(i: int)
  {
    i >= 1 && !IsPow2(i)
  }

  /** The bits of w at the data positions lo..hi-1, in increasing order of position. */
  function ExtractRange(w: seq<bool>, lo: nat, hi: nat): seq<bool>
    requires lo <= hi <= |w|
    decreases hi - lo
  {
    if lo == hi then [] else ExtractRange(w, lo, hi - 1) + (if IsData(hi - 1) then [w[hi - 1]] else [])
  }

  /** The payload a word carries: its bits at all data positions, in order. */
  function DataBits(w: seq<bool>): seq<bool>
  {
    ExtractRange(w, 0, |w|)
  }

  lemma {:induction false} ExtractSplit(w: seq<bool>, lo: nat, mid: nat, hi: nat)
    requires lo <= mid <= hi <= |w|
    ensures ExtractRange(w, lo, hi) == ExtractRange(w, lo, mid) + ExtractRange(w, mid, hi)
    decreases hi - mid
  {
    if hi > mid {
      ExtractSplit(w, lo, mid, hi - 1);
    }
  }

  /** Over a stretch of data positions the extracted bits are the stretch itself. */
  lemma {:induction false} ExtractAllData(w: seq<bool>, lo: nat, hi: nat)
    requires lo <= hi <= |w|
    requires forall i :: lo <= i < hi ==> IsData(i)
    ensures ExtractRange(w, lo, hi) == w[lo..hi]
    decreases hi - lo
  {
    if hi > lo {
      ExtractAllData(w, lo, hi - 1);
      assert w[lo..hi] == w[lo..hi - 1] + [w[hi - 1]];
    }
  }

  /** Two words that agree at the data positions of a range extract the same bits there. */
  lemma {:induction false} ExtractAgree(w1: seq<bool>, w2: seq<bool>, lo: nat, hi: nat)
    requires lo <= hi <= |w1| && hi <= |w2|
    requires forall i :: lo <= i < hi && IsData(i) ==> w1[i] == w2[i]
    ensures ExtractRange(w1, lo, hi) == ExtractRange(w2, lo, hi)
    decreases hi - lo
  {
    if hi > lo {
      ExtractAgree(w1, w2, lo, hi - 1);
    }
  }

  /** Two words that extract the same bits from a prefix agree at every data position of it. */
  lemma {:induction false} ExtractDetermines(w1: seq<bool>, w2: seq<bool>, hi: nat)
    requires hi <= |w1| && hi <= |w2|
    requires ExtractRange(w1, 0, hi) == ExtractRange(w2, 0, hi)
    ensures forall i :: 0 <= i < hi && IsData(i) ==> w1[i] == w2[i]
  {
    if hi > 0 {
      var e1 := ExtractRange(w1, 0, hi - 1);
      var e2 := ExtractRange(w2, 0, hi - 1);
      var x1 := if IsData(hi - 1) then [w1[hi - 1]] else [];
      var x2 := if IsData(hi - 1) then [w2[hi - 1]] else [];
      assert e1 + x1 == e2 + x2;
      assert |e1| == |e2|;
      assert e1 == (e1 + x1)[..|e1|];
      assert e2 == (e2 + x2)[..|e2|];
      if IsData(hi - 1) {
        assert w1[hi - 1] == (e1 + x1)[|e1|];
      }
      ExtractDetermines(w1, w2, hi - 1);
    }
  }

  /** Writing a non-data position leaves the payload alone. */
  lemma DataBitsUpdate(w: seq<bool>, i: nat, b: bool)
    requires i < |w| && !IsData(i)
    ensures DataBits(w[i := b]) == DataBits(w)
  {
    ExtractAgree(w[i := b], w, 0, |w|);
  }

  /** The word with a placeholder bit inserted at position i. */
  function InsertAt(bits: seq<bool>, i: nat): (r: seq<bool>)
    requires i <= |bits|
    ensures |r| == |bits| + 1 && r[i] == false
    ensures forall a :: 0 <= a < i ==> r[a] == bits[a]
    ensures forall a :: i < a < |r| ==> r[a] == bits[a - 1]
  {
    bits[..i] + [false] + bits[i..]
  }

  /** The smaller of a position and a length. */
  function Bound(a: nat, n: nat): (c: nat)
    ensures c <= a && c <= n && (c == a || c == n)
  {
    if a <= n then a else n
  }

  /** Inserting at 2^k keeps the placeholders already at the lower parity positions and position 0. */
  lemma PlaceholdersKept(bits: seq<bool>, k: nat)
    requires Pow2(k) <= |bits| && !bits[0]
    requires forall j :: 0 <= j < k ==> Pow2(j) < |bits| && !bits[Pow2(j)]
    ensures var bits' := InsertAt(bits, Pow2(k));
            !bits'[0] && forall j :: 0 <= j <= k ==> Pow2(j) < |bits'| && !bits'[Pow2(j)]
  {
    forall j | 0 <= j < k
      ensures Pow2(j) < Pow2(k)
    {
      Pow2Monotone(j, k);
    }
  }

  /**
   * One step of encode's insertion loop: inserting a placeholder at the
   * parity position 2^k of a word whose positions below 2^k are laid out and
   * whose tail is still raw payload lays out the positions below 2^(k+1)
   * and keeps the payload the word stands for.
   */
  lemma InsertParityPlaceholder(bits: seq<bool>, k: nat, bits': seq<bool>, c: nat)
    requires Pow2(k) <= |bits| && bits' == InsertAt(bits, Pow2(k))
    requires c == Bound(Pow2(k + 1), |bits'|)
    ensures c <= |bits'|
    ensures ExtractRange(bits', 0, c) + bits'[c..] == ExtractRange(bits, 0, Pow2(k)) + bits[Pow2(k)..]
  {
    var pi := Pow2(k);
    assert Pow2(k + 1) == 2 * pi;
    var head := ExtractRange(bits, 0, pi);
    var x := bits[pi..c - 1];
    var y := bits[c - 1..];
    var front := ExtractRange(bits', 0, c);
    var tail := bits'[c..];
    assert front == head + x by {
      InsertedPrefix(bits, k, c);
    }
    assert tail == y by {
      InsertedTail(bits, pi, c);
    }
    assert front + tail == head + bits[pi..] by {
      assert bits[pi..] == x + y;
      assert head + x + y == head + (x + y);
    }
  }

  lemma InsertedTail(bits: seq<bool>, i: nat, c: nat)
    requires i < c <= |bits| + 1
    ensures InsertAt(bits, i)[c..] == bits[c - 1..]
  {
    var r := InsertAt(bits, i);
    assert |r[c..]| == |bits[c - 1..]|;
    forall a | 0 <= a < |r[c..]|
      ensures r[c..][a] == bits[c - 1..][a]
    {
      assert r[c + a] == bits[c + a - 1];
    }
  }

  lemma InsertedPrefix(bits: seq<bool>, k: nat, c: nat)
    requires Pow2(k) <= |bits| && Pow2(k) + 1 <= c <= 2 * Pow2(k) && c <= |bits| + 1
    ensures ExtractRange(InsertAt(bits, Pow2(k)), 0, c) == ExtractRange(bits, 0, Pow2(k)) + bits[Pow2(k)..c - 1]
  {
    var pi := Pow2(k);
    var bits' := InsertAt(bits, pi);
    ExtractSplit(bits', 0, pi, c);
    ExtractSplit(bits', pi, pi + 1, c);
    PowIsPow2(k);
    assert ExtractRange(bits', pi, pi + 1) == [];
    DataAbove(bits', k, c);
    ExtractAgree(bits', bits, 0, pi);
    assert bits'[pi + 1..c] == bits[pi..c - 1];
  }

  /** Above a parity position 2^k and below 2^(k+1) every position is a data position. */
  lemma DataAbove(w: seq<bool>, k: nat, c: nat)
    requires Pow2(k) + 1 <= c <= 2 * Pow2(k) && c <= |w|
    ensures ExtractRange(w, Pow2(k) + 1, c) == w[Pow2(k) + 1..c]
  {
    forall i | Pow2(k) + 1 <= i < c
      ensures IsData(i)
    {
      NotPow2Between(i, k);
    }
    ExtractAllData(w, Pow2(k) + 1, c);
  }

  /* ---------------- coverage lists ---------------- */

  predicate Ascending(s: seq<int>)
  {
    forall a, b :: 0 <= a < b < |s| ==> s[a] < s[b]
  }

  predicate Indices(s: seq<int>)
  {
    forall a :: 0 <= a < |s| ==> s[a] >= 0
  }

  /** The scan behind Covered: index by index from lo up to hi - 1, keeping those with bit j set. */
  function CoveredScan(j: nat, lo: nat, hi: int): seq<int>
    decreases hi - lo
  {
    if hi <= lo then [] else CoveredScan(j, lo, hi - 1) + (if Bit(hi - 1, j) then [hi - 1] else [])
  }

  lemma {:induction false} CoveredScanFacts(j: nat, lo: nat, hi: int)
    decreases hi - lo
    ensures var r := CoveredScan(j, lo, hi);
            (forall a :: 0 <= a < |r| ==> lo <= r[a] < hi) &&
            (forall x :: x in r <==> lo <= x < hi && Bit(x, j)) &&
            Ascending(r) && Indices(r)
  {
    if hi > lo {
      CoveredScanFacts(j, lo, hi - 1);
    }
  }

  /** The positions in [lo, hi) that have bit j set, ascending. */
  function Covered(j: nat, lo: nat, hi: int): (r: seq<int>)
    ensures forall a :: 0 <= a < |r| ==> lo <= r[a] < hi
    ensures forall x :: x in r <==> lo <= x < hi && Bit(x, j)
    ensures Ascending(r) && Indices(r)
  {
    CoveredScanFacts(j, lo, hi);
    CoveredScan(j, lo, hi)
  }

  /** Besides its own parity position, a level lists only data positions. */
  lemma CoveredData(j: nat, hi: int, x: int)
    requires x in Covered(j, Pow2(j), hi) && x != Pow2(j)
    ensures IsData(x)
  {
    if IsPow2(x) {
      Pow2OfLog(x);
      BitOfPow2(Log2(x), j);
      assert false;
    }
  }

  /**
   * The bits one parity position checks: walking its coverage list in
   * order, stop at the first index past the word's end and skip the parity
   * position itself.
   */
  function CoveredBits(list: seq<int>, p: int, w: seq<bool>): seq<bool>
    requires Indices(list)
  {
    if list == [] || |w| <= list[0] then []
    else (if list[0] == p then [] else [w[list[0]]]) + CoveredBits(list[1..], p, w)
  }

  /** Writing a position the list does not reach, or the parity position itself, changes nothing. */
  lemma {:induction false} CoveredBitsUpdate(list: seq<int>, p: int, w: seq<bool>, i: nat, b: bool)
    requires Indices(list) && i < |w|
    requires i !in list || i == p
    ensures CoveredBits(list, p, w[i := b]) == CoveredBits(list, p, w)
  {
    if list != [] && list[0] < |w| {
      CoveredBitsUpdate(list[1..], p, w, i, b);
    }
  }

  /** Two words of one length that agree wherever the list reaches, parity position aside, give the same bits. */
  lemma {:induction false} CoveredBitsAgree(list: seq<int>, p: int, w1: seq<bool>, w2: seq<bool>)
    requires Indices(list) && |w1| == |w2|
    requires forall a :: 0 <= a < |list| && list[a] < |w1| && list[a] != p ==> w1[list[a]] == w2[list[a]]
    ensures CoveredBits(list, p, w1) == CoveredBits(list, p, w2)
  {
    if list != [] && list[0] < |w1| {
      assert forall a :: 0 <= a < |list[1..]| ==> list[1..][a] == list[a + 1];
      CoveredBitsAgree(list[1..], p, w1, w2);
    }
  }

  /** Flipping a bit flips a check's parity exactly when the list covers that bit. */
  lemma {:induction false} CoveredBitsFlip(list: seq<int>, p: int, w: seq<bool>, i: nat)
    requires Indices(list) && Ascending(list) && i < |w|
    ensures Parity(CoveredBits(list, p, w[i := !w[i]])) == (Parity(CoveredBits(list, p, w)) != (i in list && i != p))
  {
    var w' := w[i := !w[i]];
    if list == [] {
    } else if |w| <= list[0] {
      assert i !in list by {
        forall a | 0 <= a < |list| ensures list[a] != i {
          if a > 0 { assert list[0] < list[a]; }
        }
      }
    } else {
      CoveredBitsFlip(list[1..], p, w, i);
      var head := if list[0] == p then [] else [w[list[0]]];
      var head' := if list[0] == p then [] else [w'[list[0]]];
      ParityConcat(head, CoveredBits(list[1..], p, w));
      ParityConcat(head', CoveredBits(list[1..], p, w'));
      if list[0] == i {
        assert i !in list[1..] by {
          forall a | 0 <= a < |list[1..]| ensures list[1..][a] != i {
            assert list[0] < list[a + 1];
          }
        }
      }
      assert i in list <==> list[0] == i || i in list[1..];
    }
  }

  /* ---------------- the indexed parity checks ---------------- */

  /** The cache holds every level below p and the word reaches every parity position 2^j, j < p. */
  predicate Checkable(m: map<int, seq<int>>, w: seq<bool>, p: nat)
  {
    forall j :: 0 <= j < p ==> Pow2(j) in m && Indices(m[Pow2(j)]) && Pow2(j) < |w|
  }

  /** A cache that can check p levels can check fewer. */
  lemma CheckableFewer(m: map<int, seq<int>>, w: seq<bool>, p: nat, k: nat)
    requires Checkable(m, w, p) && k <= p
    ensures Checkable(m, w, k)
  {
  }

  /** Check j fails: the stored bit at 2^j is not the even-parity bit of what it covers. */
  function Fails(m: map<int, seq<int>>, w: seq<bool>, j: nat): bool
    requires Pow2(j) in m && Indices(m[Pow2(j)]) && Pow2(j) < |w|
  {
    w[Pow2(j)] != Parity(CoveredBits(m[Pow2(j)], Pow2(j), w))
  }

  /** Some check below level k fails. */
  predicate AnyFails(m: map<int, seq<int>>, w: seq<bool>, k: nat)
    requires Checkable(m, w, k)
  {
    exists j :: 0 <= j < k && Fails(m, w, j)
  }

  /** Some check below k + 1 fails iff some check below k does or check k does. */
  lemma AnyFailsStep(m: map<int, seq<int>>, w: seq<bool>, k: nat)
    requires Checkable(m, w, k + 1)
    ensures AnyFails(m, w, k + 1) == (AnyFails(m, w, k) || Fails(m, w, k))
  {
    if AnyFails(m, w, k + 1) && !Fails(m, w, k) {
      var j :| 0 <= j < k + 1 && Fails(m, w, j);
      assert j < k;
    }
  }

  /** The candidate list narrowed by the checks below level k, starting from 1..|w| inclusive. */
  function Candidates(m: map<int, seq<int>>, w: seq<bool>, k: nat): seq<int>
    requires Checkable(m, w, k)
  {
    if k == 0 then seq(|w|, i => i + 1)
    else if Fails(m, w, k - 1) then RetainAll(Candidates(m, w, k - 1), m[Pow2(k - 1)])
    else RemoveAll(Candidates(m, w, k - 1), m[Pow2(k - 1)])
  }

  /** Check k narrows the candidates left by the checks below it. */
  lemma CandidatesStep(m: map<int, seq<int>>, w: seq<bool>, k: nat)
    requires Checkable(m, w, k + 1)
    ensures Candidates(m, w, k + 1) ==
              if Fails(m, w, k) then RetainAll(Candidates(m, w, k), m[Pow2(k)])
              else RemoveAll(Candidates(m, w, k), m[Pow2(k)])
  {
  }

  /** The elements of c that are in l, in their order in c. */
  function RetainAll(c: seq<int>, l: seq<int>): (r: seq<int>)
    ensures forall x :: x in r <==> x in c && x in l
    ensures Ascending(c) ==> Ascending(r)
  {
    if c == [] then []
    else
      var tail := RetainAll(c[1..], l);
      AscendingCons(c, tail);
      (if c[0] in l then [c[0]] else []) + tail
  }

  /** The elements of c that are not in l, in their order in c. */
  function RemoveAll(c: seq<int>, l: seq<int>): (r: seq<int>)
    ensures forall x :: x in r <==> x in c && x !in l
    ensures Ascending(c) ==> Ascending(r)
  {
    if c == [] then []
    else
      var tail := RemoveAll(c[1..], l);
      AscendingCons(c, tail);
      (if c[0] !in l then [c[0]] else []) + tail
  }

  /** Keeping the head of an ascending list in front of an ascending selection from its tail keeps it ascending. */
  lemma AscendingCons(c: seq<int>, tail: seq<int>)
    requires c != [] && (Ascending(c[1..]) ==> Ascending(tail))
    requires forall x :: x in tail ==> x in c[1..]
    ensures Ascending(c) ==> Ascending([c[0]] + tail) && Ascending([] + tail)
  {
    if Ascending(c) {
      assert Ascending(c[1..]) by {
        forall a, b | 0 <= a < b < |c[1..]| ensures c[1..][a] < c[1..][b] {
          assert c[1..][a] == c[a + 1] && c[1..][b] == c[b + 1];
        }
      }
      forall x | x in tail ensures c[0] < x {
        var a :| 0 <= a < |c[1..]| && c[1..][a] == x;
        assert c[a + 1] == x;
      }
      var r := [c[0]] + tail;
      forall a, b | 0 <= a < b < |r| ensures r[a] < r[b] {
        if a == 0 {
          assert r[b] in tail;
        } else {
          assert r[a] == tail[a - 1] && r[b] == tail[b - 1];
        }
      }
      assert [] + tail == tail;
    }
  }

  /**
   * The result of the single-error search: -1 when no check fails, the one
   * remaining candidate when exactly one remains, -2 otherwise.
   */
  function Syndrome(m: map<int, seq<int>>, w: seq<bool>, p: nat): int
    requires Checkable(m, w, p)
  {
    if AnyFails(m, w, p) then
      var c := Candidates(m, w, p);
      if |c| == 1 then c[0] else -2
    else -1
  }

  /** The overall check: bit 0 is the even-parity bit of all the others. */
  predicate OverallOk(w: seq<bool>)
    requires |w| >= 1
  {
    w[0] == Parity(w[1..])
  }

  /* ---------------- the verdict ---------------- */

  /**
   * The outcome of validating a word. Validation reports every outcome as a
   * value, a text that is not binary included, so InvalidFormat is one of
   * the verdicts. Encoding and decoding instead either succeed or fail, and
   * their one failure is BinaryCodes.Error.InvalidInputFormat in a Result;
   * the two stand for the same condition on the text.
   */
  datatype Verdict = NoError | SingleBit(index: int) | DoubleBit | InvalidFormat

  /** The decision table over the single-error search result s and the overall check. */
  function Classify(s: int, overall: bool): (v: Verdict)
    ensures v == NoError <==> s == -1 && overall
    ensures v.SingleBit? <==> s != -2 && !overall
    ensures v.SingleBit? ==> v.index == (if s == -1 then 0 else s)
    ensures v.DoubleBit? <==> s == -2 || (s != -1 && overall)
  {
    if s != -1 && s != -2 && !overall then SingleBit(s)
    else if s == -1 && !overall then SingleBit(0)
    else if (s != -1 && overall) || s == -2 then DoubleBit
    else NoError
  }

  /** What validation reports for a word, given the cache it is checked against. */
  function Validate(m: map<int, seq<int>>, w: seq<bool>): Verdict
    requires |w| >= 1 && Checkable(m, w, ParityBitsDecode(|w|))
  {
    Classify(Syndrome(m, w, ParityBitsDecode(|w|)), OverallOk(w))
  }

  /* ---------------- the shape of the cache ---------------- */

  /**
   * The cache holds exactly the levels 0..n-1: level j is keyed by its
   * parity position 2^j and lists the positions in [2^j, limits[j]) that
   * have bit j set.
   */
  ghost predicate Shaped(m: map<int, seq<int>>, limits: seq<int>, n: nat)
  {
    n <= |limits| &&
    (forall key :: key in m ==> IsPow2(key) && key < Pow2(n)) &&
    (forall j :: 0 <= j < n ==> Pow2(j) in m && m[Pow2(j)] == Covered(j, Pow2(j), limits[j]))
  }

  /**
   * Levels are built in batches, each with the bound 2^t - 1 of its target
   * t: two levels share a bound, or the earlier level's bound lies below the
   * later level's parity position.
   */
  ghost predicate Batched(limits: seq<int>)
  {
    (forall j :: 0 <= j < |limits| ==> limits[j] >= 2 * Pow2(j) - 1) &&
    (forall j, k :: 0 <= j < k < |limits| ==> limits[j] == limits[k] || limits[j] < Pow2(k))
  }

  /** Adding level n keeps the cache shaped; its key was not there before. */
  lemma AddLevel(m: map<int, seq<int>>, limits: seq<int>, n: nat)
    requires Shaped(m, limits, n) && n < |limits|
    ensures Pow2(n) !in m
    ensures Shaped(m[Pow2(n) := Covered(n, Pow2(n), limits[n])], limits, n + 1)
  {
    var m' := m[Pow2(n) := Covered(n, Pow2(n), limits[n])];
    Pow2Monotone(n, n + 1);
    assert forall key :: key in m' ==> IsPow2(key) && key < Pow2(n + 1) by {
      PowIsPow2(n);
      forall key | key in m'
        ensures IsPow2(key) && key < Pow2(n + 1)
      {
        if key != Pow2(n) {
          assert key in m;
        }
      }
    }
    assert forall j :: 0 <= j < n + 1 ==> Pow2(j) in m' && m'[Pow2(j)] == Covered(j, Pow2(j), limits[j]) by {
      forall j | 0 <= j < n + 1
        ensures Pow2(j) in m' && m'[Pow2(j)] == Covered(j, Pow2(j), limits[j])
      {
        if j < n {
          Pow2Monotone(j, n);
          assert Pow2(j) in m && m[Pow2(j)] == Covered(j, Pow2(j), limits[j]);
        }
      }
    }
  }

  /**
   * The first n levels of the cache a history of bounds determines: level
   * j, keyed by 2^j, lists the positions in [2^j, limits[j]) with bit j set.
   */
  function CacheOf(limits: seq<int>, n: nat): map<int, seq<int>>
    requires n <= |limits|
  {
    if n == 0 then map[]
    else CacheOf(limits, n - 1)[Pow2(n - 1) := Covered(n - 1, Pow2(n - 1), limits[n - 1])]
  }

  /** The first n levels are n keys, all below 2^n. */
  lemma {:induction false} CacheSize(limits: seq<int>, n: nat)
    requires n <= |limits|
    ensures |CacheOf(limits, n)| == n
    ensures forall key :: key in CacheOf(limits, n) ==> key < Pow2(n)
  {
    if n > 0 {
      CacheSize(limits, n - 1);
      Pow2Monotone(n - 1, n);
      assert Pow2(n - 1) !in CacheOf(limits, n - 1);
    }
  }

  /** The first n levels of a history's cache are shaped by it. */
  lemma {:induction false} CacheShaped(limits: seq<int>, n: nat)
    requires n <= |limits|
    ensures Shaped(CacheOf(limits, n), limits, n)
  {
    if n > 0 {
      CacheShaped(limits, n - 1);
      AddLevel(CacheOf(limits, n - 1), limits, n - 1);
    }
  }

  /** Histories that agree on their first n bounds have the same first n levels. */
  lemma {:induction false} CacheAgree(l1: seq<int>, l2: seq<int>, n: nat)
    requires n <= |l1| && n <= |l2|
    requires forall j :: 0 <= j < n ==> l1[j] == l2[j]
    ensures CacheOf(l1, n) == CacheOf(l2, n)
  {
    if n > 0 {
      CacheAgree(l1, l2, n - 1);
    }
  }

  /** Building more levels keeps every entry already there. */
  lemma {:induction false} CacheExtends(limits: seq<int>, n: nat, n': nat)
    requires n <= n' <= |limits|
    ensures forall key :: key in CacheOf(limits, n) ==>
              key in CacheOf(limits, n') && CacheOf(limits, n')[key] == CacheOf(limits, n)[key]
    decreases n' - n
  {
    if n < n' {
      CacheExtends(limits, n, n' - 1);
      CacheSize(limits, n);
      if n < n' - 1 {
        Pow2Monotone(n, n' - 1);
      }
      assert Pow2(n' - 1) !in CacheOf(limits, n);
    }
  }

  /* ---------------- the history of batches ---------------- */

  /** The bounds a level gets when built for a given target. */
  lemma LevelBounds(j: nat, target: nat)
    requires j < target
    ensures Pow2(j) <= Pow2(target) - 1
    ensures 2 * Pow2(j) - 1 <= Pow2(target) - 1
  {
    if j + 1 < target {
      Pow2Monotone(j + 1, target);
    }
  }

  /** n copies of b. */
  function Repeat(n: nat, b: int): (r: seq<int>)
    ensures |r| == n && forall i :: 0 <= i < n ==> r[i] == b
  {
    if n == 0 then [] else Repeat(n - 1, b) + [b]
  }

  /** An element of a history followed by a run of copies of b. */
  lemma AppendedAt(limits: seq<int>, n: nat, b: int, j: nat)
    requires j < |limits| + n
    ensures (limits + Repeat(n, b))[j] == if j < |limits| then limits[j] else b
  {
  }

  /**
   * A batch for target t appended to a valid bound history (one whose
   * bounds all lie below 2^(number of levels)) keeps it batched, and every
   * bound then lies below 2^t.
   */
  lemma BatchValid(limits: seq<int>, target: nat, l: seq<int>)
    requires Batched(limits) && |limits| < target
    requires forall j :: 0 <= j < |limits| ==> limits[j] < Pow2(|limits|)
    requires l == limits + Repeat(target - |limits|, Pow2(target) - 1)
    ensures Batched(l)
    ensures forall j :: 0 <= j < |l| ==> l[j] < Pow2(target)
  {
    var start := |limits|;
    var b := Pow2(target) - 1;
    Pow2Monotone(start, target);
    assert forall j :: 0 <= j < |l| ==> l[j] >= 2 * Pow2(j) - 1 && l[j] < Pow2(target) by {
      forall j | 0 <= j < |l|
        ensures l[j] >= 2 * Pow2(j) - 1 && l[j] < Pow2(target)
      {
        AppendedAt(limits, target - start, b, j);
        if j >= start {
          LevelBounds(j, target);
        }
      }
    }
    assert forall j, k :: 0 <= j < k < |l| ==> l[j] == l[k] || l[j] < Pow2(k) by {
      forall j, k | 0 <= j < k < |l|
        ensures l[j] == l[k] || l[j] < Pow2(k)
      {
        AppendedAt(limits, target - start, b, j);
        AppendedAt(limits, target - start, b, k);
        if k >= start && j < start {
          if start < k {
            Pow2Monotone(start, k);
          }
        }
      }
    }
  }

  /** The number of levels a history of batches has built: its last target, or 0. */
  function Levels(batches: seq<nat>): nat
  {
    if batches == [] then 0 else batches[|batches| - 1]
  }

  /** Each batch raises the number of levels. */
  predicate Increasing(batches: seq<nat>)
  {
    batches == [] ||
    (Increasing(batches[..|batches| - 1]) && Levels(batches[..|batches| - 1]) < batches[|batches| - 1])
  }

  /**
   * The bound of every level: the batch with target t builds the levels from
   * the previous target up to t - 1, each bounded by 2^t - 1.
   */
  function LimitsOf(batches: seq<nat>): (limits: seq<int>)
    requires Increasing(batches)
    ensures |limits| == Levels(batches)
  {
    if batches == [] then []
    else
      var prev := batches[..|batches| - 1];
      var t := batches[|batches| - 1];
      LimitsOf(prev) + Repeat(t - Levels(prev), Pow2(t) - 1)
  }

  /** One more batch appends its levels. */
  lemma LimitsStep(batches: seq<nat>, target: nat)
    requires Increasing(batches) && Levels(batches) < target
    ensures Increasing(batches + [target]) && Levels(batches + [target]) == target
    ensures LimitsOf(batches + [target]) == LimitsOf(batches) + Repeat(target - Levels(batches), Pow2(target) - 1)
  {
    assert (batches + [target])[..|batches|] == batches;
  }

  /** The history after expanding to a target: one more batch only when the target exceeds the levels built. */
  function Expanded(batches: seq<nat>, target: nat): seq<nat>
  {
    if Levels(batches) < target then batches + [target] else batches
  }

  /**
   * Expanding to a target either records a batch for it (when the history
   * has fewer levels) or leaves the history alone; either way the levels
   * already built keep their bounds and every new level gets 2^target - 1.
   */
  lemma NextBatch(batches: seq<nat>, target: nat)
    requires Increasing(batches)
    ensures var next := Expanded(batches, target);
            Increasing(next) &&
            Levels(next) == (if Levels(batches) < target then target else Levels(batches)) &&
            CacheOf(LimitsOf(next), Levels(batches)) == CacheOf(LimitsOf(batches), Levels(batches)) &&
            forall j :: Levels(batches) <= j < Levels(next) ==> LimitsOf(next)[j] == Pow2(target) - 1
  {
    if Levels(batches) < target {
      LimitsStep(batches, target);
      var l := LimitsOf(batches + [target]);
      forall j | 0 <= j < Levels(batches) + (target - Levels(batches))
        ensures l[j] == if j < Levels(batches) then LimitsOf(batches)[j] else Pow2(target) - 1
      {
        AppendedAt(LimitsOf(batches), target - Levels(batches), Pow2(target) - 1, j);
      }
      CacheAgree(l, LimitsOf(batches), Levels(batches));
    }
  }

  /** Any history of batches is batched, and all its bounds lie below 2^(number of levels). */
  lemma {:induction false} HistoryBatched(batches: seq<nat>)
    requires Increasing(batches)
    ensures Batched(LimitsOf(batches))
    ensures forall j :: 0 <= j < Levels(batches) ==> LimitsOf(batches)[j] < Pow2(Levels(batches))
  {
    if batches != [] {
      var prev := batches[..|batches| - 1];
      var t := batches[|batches| - 1];
      HistoryBatched(prev);
      assert LimitsOf(batches) == LimitsOf(prev) + Repeat(t - |LimitsOf(prev)|, Pow2(t) - 1);
      assert Levels(batches) == t;
      BatchValid(LimitsOf(prev), t, LimitsOf(batches));
    }
  }

  /** Below 2^n, the keys of a cache shaped with n levels are exactly the powers of two. */
  lemma KeysArePowers(m: map<int, seq<int>>, limits: seq<int>, n: nat, i: int)
    requires Shaped(m, limits, n) && 0 <= i < Pow2(n)
    ensures i in m <==> IsPow2(i)
  {
    if IsPow2(i) {
      Pow2OfLog(i);
      if Log2(i) >= n {
        if Log2(i) > n {
          Pow2Monotone(n, Log2(i));
        }
        assert false;
      }
      assert Pow2(Log2(i)) in m;
    }
  }

  /** A shaped cache with at least p levels can check any word whose parity positions below 2^p exist. */
  lemma ShapedCheckable(m: map<int, seq<int>>, limits: seq<int>, n: nat, w: seq<bool>, p: nat)
    requires Shaped(m, limits, n) && p <= n
    requires p == 0 || Pow2(p - 1) < |w|
    ensures Checkable(m, w, p)
  {
    forall j | 0 <= j < p
      ensures Pow2(j) in m && Indices(m[Pow2(j)]) && Pow2(j) < |w|
    {
      if j < p - 1 {
        Pow2Monotone(j, p - 1);
      }
    }
  }

  /** Writing a bit that check j neither covers nor stores leaves check j's outcome alone. */
  lemma FailsUpdate(m: map<int, seq<int>>, w: seq<bool>, j: nat, i: nat, b: bool)
    requires Pow2(j) in m && Indices(m[Pow2(j)]) && Pow2(j) < |w|
    requires i < |w| && i != Pow2(j) && i !in m[Pow2(j)]
    ensures Fails(m, w[i := b], j) == Fails(m, w, j)
  {
    CoveredBitsUpdate(m[Pow2(j)], Pow2(j), w, i, b);
  }

  /**
   * What encode promises about its output w for payload under cache m: the
   * length law, the payload at the data positions in order, every indexed
   * check passing, and the overall check passing.
   */
  predicate EncodedBy(m: map<int, seq<int>>, payload: seq<bool>, w: seq<bool>)
  {
    var p := ParityBitsEncode(|payload|);
    |w| == |payload| + p + 1 &&
    DataBits(w) == payload &&
    Checkable(m, w, p) &&
    (forall j :: 0 <= j < p ==> !Fails(m, w, j)) &&
    OverallOk(w)
  }

  /** Below level n, no level lists a higher parity position. */
  predicate Separated(m: map<int, seq<int>>, n: nat)
  {
    forall j, k :: 0 <= j < k < n && Pow2(j) in m ==> Pow2(k) !in m[Pow2(j)]
  }

  /** In a shaped cache, a lower level never lists a higher parity position. */
  lemma ShapedSeparated(m: map<int, seq<int>>, limits: seq<int>, n: nat)
    requires Shaped(m, limits, n)
    ensures Separated(m, n)
  {
    forall j, k | 0 <= j < k < n && Pow2(j) in m
      ensures Pow2(k) !in m[Pow2(j)]
    {
      assert m[Pow2(j)] == Covered(j, Pow2(j), limits[j]);
      BitOfPow2(k, j);
    }
  }

  /**
   * One step of encode's parity loop: setting the bit at 2^k to the parity
   * of what check k covers makes check k pass and leaves the checks below k
   * alone, since no lower level covers 2^k.
   */
  lemma ParityStep(m: map<int, seq<int>>, n: nat, w: seq<bool>, k: nat, w': seq<bool>)
    requires Checkable(m, w, k + 1) && Separated(m, n) && k < n
    requires forall j :: 0 <= j < k ==> !Fails(m, w, j)
    requires w' == w[Pow2(k) := Parity(CoveredBits(m[Pow2(k)], Pow2(k), w))]
    ensures Checkable(m, w', k + 1)
    ensures forall j :: 0 <= j <= k ==> !Fails(m, w', j)
  {
    assert Checkable(m, w', k + 1);
    forall j | 0 <= j < k
      ensures !Fails(m, w', j)
    {
      Pow2Monotone(j, k);
      FailsUpdate(m, w, j, Pow2(k), w'[Pow2(k)]);
    }
    CoveredBitsUpdate(m[Pow2(k)], Pow2(k), w, Pow2(k), w'[Pow2(k)]);
  }

  /**
   * The last step of encode: with the payload in place and every indexed
   * check passing, setting bit 0 to the parity of the rest yields a word
   * encode promises.
   */
  lemma OverallStep(m: map<int, seq<int>>, limits: seq<int>, n: nat, payload: seq<bool>, w: seq<bool>)
    requires Shaped(m, limits, n) && ParityBitsEncode(|payload|) <= n
    requires |w| == |payload| + ParityBitsEncode(|payload|) + 1 && DataBits(w) == payload
    requires forall j :: 0 <= j < ParityBitsEncode(|payload|) ==> Pow2(j) < |w| && !Fails(m, w, j)
    ensures EncodedBy(m, payload, w[0 := Parity(w[1..])])
  {
    var p := ParityBitsEncode(|payload|);
    var w' := w[0 := Parity(w[1..])];
    forall j | 0 <= j < p
      ensures !Fails(m, w', j)
    {
      FailsUpdate(m, w, j, 0, Parity(w[1..]));
    }
    DataBitsUpdate(w, 0, Parity(w[1..]));
    assert w'[1..] == w[1..];
  }
}
