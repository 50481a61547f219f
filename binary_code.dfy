/**
 * The word being coded: an ordered sequence of bits built from a string of
 * '0'/'1' characters (validated) or from a bit sequence (trusted, copied),
 * turned back into text, measured and handed out. The object never changes
 * after construction, so it is a value here; "copies in" and "copies out"
 * are what value semantics give for free.
 */
module BinaryCodes {

  /** The one way building a code from text can fail. */
  datatype Error = InvalidInputFormat

  datatype Result<T> = Ok(value: T) | Err(error: Error)

  /** Every character is '0' or '1'. */
  predicate IsBinary(s: string)
  {
    forall i :: 0 <= i < |s| ==> s[i] == '0' || s[i] == '1'
  }

  /** The bits a text stands for, one per character, read left to right. */
  function BitsOf(s: string): (bits: seq<bool>)
    ensures |bits| == |s|
    ensures forall i :: 0 <= i < |s| ==> bits[i] == (s[i] == '1')
  {
    if s == [] then [] else BitsOf(s[..|s| - 1]) + [s[|s| - 1] == '1']
  }

  /** The text of a bit sequence, one character per bit. */
  function Text(bits: seq<bool>): (s: string)
    ensures |s| == |bits|
    ensures IsBinary(s)
    ensures forall i :: 0 <= i < |bits| ==> s[i] == (if bits[i] then '1' else '0')
  {
    if bits == [] then [] else Text(bits[..|bits| - 1]) + [if bits[|bits| - 1] then '1' else '0']
  }

  /** Reading back the text of a binary string gives the string itself. */
  lemma TextOfBitsOf(s: string)
    requires IsBinary(s)
    ensures Text(BitsOf(s)) == s
  {
    var t := Text(BitsOf(s));
    assert |t| == |s|;
    forall i | 0 <= i < |s|
      ensures t[i] == s[i]
    {
    }
  }

  /** Reading the text of any bit sequence gives the bits back. */
  lemma BitsOfText(bits: seq<bool>)
    ensures BitsOf(Text(bits)) == bits
  {
    var b := BitsOf(Text(bits));
    assert |b| == |bits|;
    forall i | 0 <= i < |bits|
      ensures b[i] == bits[i]
    {
    }
  }

  /** A code word: its bits in order, position 0 first. */
  datatype BinaryCode = BinaryCode(bits: seq<bool>)
  {
    /** The number of bits, which is also the length of the word's text. */
    function Length(): (n: nat)
      ensures n == |GetBits()| && n == |Text(bits)|
    {
      |bits|
    }

    /** The bits in order; a fresh value the caller may change freely. */
    function GetBits(): (r: seq<bool>)
      ensures |r| == |bits| && forall i :: 0 <= i < |r| ==> r[i] == bits[i]
    {
      bits
    }

    /** Appends one character per bit, as a string builder would. */
    method ToString() returns (s: string)
      ensures s == Text(bits)
      ensures BitsOf(s) == bits
    {
      s := "";
      var i := 0;
      while i < |bits|
        invariant 0 <= i <= |bits|
        invariant s == Text(bits[..i])
      {
        assert bits[..i + 1][..i] == bits[..i];
        s := s + [if bits[i] then '1' else '0'];
        i := i + 1;
      }
      assert bits[..i] == bits;
      BitsOfText(bits);
    }
  }

  /**
   * The trusted collection constructor: any bit sequence is accepted without
   * validation, and the code holds its own copy, so later changes to the
   * caller's sequence do not reach it.
   */
  function FromBits(content: seq<bool>): (c: BinaryCode)
    ensures c.Length() == |content|
    ensures forall i :: 0 <= i < |content| ==> c.GetBits()[i] == content[i]
  {
    BinaryCode(content)
  }

  /** Copying a code's bits out and building a code from them gives the same code. */
  lemma FromGetBits(c: BinaryCode)
    ensures FromBits(c.GetBits()) == c
  {
  }

  /** Scans the text and stops at the first character that is not a binary digit. */
  method ValidateBinary(str: string) returns (ok: bool)
    ensures ok <==> IsBinary(str)
  {
    var i := 0;
    while i < |str|
      invariant 0 <= i <= |str|
      invariant IsBinary(str[..i])
    {
      if str[i] != '0' && str[i] != '1' {
        return false;
      }
      i := i + 1;
    }
    assert str[..i] == str;
    return true;
  }

  /**
   * The string constructor: fails with InvalidInputFormat exactly when some
   * character is not '0' or '1'; otherwise bit i is set iff character i is '1'.
   */
  method FromString(content: string) returns (r: Result<BinaryCode>)
    ensures r.Ok? <==> IsBinary(content)
    ensures r.Ok? ==> r.value.bits == BitsOf(content)
    ensures r.Ok? ==> r.value.Length() == |content|
  {
    var valid := ValidateBinary(content);
    if !valid {
      return Err(InvalidInputFormat);
    }
    var bits: seq<bool> := [];
    var i := 0;
    while i < |content|
      invariant 0 <= i <= |content|
      invariant bits == BitsOf(content[..i])
    {
      assert content[..i + 1][..i] == content[..i];
      bits := bits + [content[i] == '1'];
      i := i + 1;
    }
    assert content[..i] == content;
    return Ok(FromBits(bits));
  }
}
