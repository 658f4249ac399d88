/**
 * The hex-to-alphabet encoder. JavaScript strings are sequences of UTF-16
 * code units, and `split('')`, `charCodeAt` and `String.fromCharCode` all
 * work on code units, so this module does too.
 */
module HexToAlpha {

  import opened Strings

  /** A UTF-16 code unit. */
  type CodeUnit = n: int | 0 <= n < 0x1_0000

  /** The code unit of the default offset character `'j'`. */
  const DefaultOffset: seq<CodeUnit> := [0x6A]

  /** `parseInt(c, 16)` on a one-unit string: the digit's value, or NaN (`None`). */
  function HexValue(c: CodeUnit): (v: Option<nat>)
    ensures v.Some? ==> v.value < 16
  {
    if 0x30 <= c <= 0x39 then Some(c - 0x30)
    else if 0x61 <= c <= 0x66 then Some(c - 0x61 + 10)
    else if 0x41 <= c <= 0x46 then Some(c - 0x41 + 10)
    else None
  }

  predicate IsHexDigit(c: CodeUnit)
  {
    HexValue(c).Some?
  }

  predicate IsLowerHexDigit(c: CodeUnit)
  {
    0x30 <= c <= 0x39 || 0x61 <= c <= 0x66
  }

  /** `offsetChar.charCodeAt(0)`: NaN (`None`) for the empty string. */
  function OffsetCode(offsetChar: seq<CodeUnit>): Option<nat>
  {
    if |offsetChar| == 0 then None else Some(offsetChar[0])
  }

  /**
   * `String.fromCharCode(parseInt(d, 16) + offset)`: the sum is reduced
   * modulo 2^16, and NaN (a non-hex digit or an empty offset) gives unit 0.
   */
  function EncodeDigit(d: CodeUnit, offset: Option<nat>): CodeUnit
  {
    match (HexValue(d), offset)
    case (Some(v), Some(o)) => Wrap(v + o)
    case _ => 0
  }

  /** `ToUint16` of a non-negative sum. */
  function Wrap(n: nat): (r: CodeUnit)
    ensures n < 0x1_0000 ==> r == n
    ensures 0x1_0000 <= n < 0x2_0000 ==> r == n - 0x1_0000
  {
    n % 0x1_0000
  }

  /** Distinct digit values under one offset give distinct units. */
  lemma EncodeDigitInjective(d: CodeUnit, e: CodeUnit, offset: Option<nat>)
    requires IsHexDigit(d) && IsHexDigit(e) && offset.Some? && offset.value < 0x1_0000
    requires EncodeDigit(d, offset) == EncodeDigit(e, offset)
    ensures HexValue(d) == HexValue(e)
  {
  }

  /** The default export: one output unit per input unit, left to right. */
  function Encode(hexString: seq<CodeUnit>, offsetChar: seq<CodeUnit>): (r: seq<CodeUnit>)
    ensures |r| == |hexString|
  {
    if |hexString| == 0 then []
    else Encode(hexString[..|hexString| - 1], offsetChar)
         + [EncodeDigit(hexString[|hexString| - 1], OffsetCode(offsetChar))]
  }

  /** The output has one unit per input unit, and unit k encodes input unit k. */
  lemma {:induction false} EncodePointwise(hexString: seq<CodeUnit>, offsetChar: seq<CodeUnit>)
    ensures |Encode(hexString, offsetChar)| == |hexString|
    ensures forall k :: 0 <= k < |hexString| ==>
      Encode(hexString, offsetChar)[k] == EncodeDigit(hexString[k], OffsetCode(offsetChar))
    decreases |hexString|
  {
    if |hexString| > 0 {
      EncodePointwise(hexString[..|hexString| - 1], offsetChar);
    }
  }

  /** The empty string encodes to the empty string. */
  lemma EncodeEmpty(offsetChar: seq<CodeUnit>)
    ensures Encode([], offsetChar) == []
  {
  }

  /** Encoding distributes over concatenation. */
  lemma EncodeConcat(a: seq<CodeUnit>, b: seq<CodeUnit>, offsetChar: seq<CodeUnit>)
    ensures Encode(a + b, offsetChar) == Encode(a, offsetChar) + Encode(b, offsetChar)
  {
    EncodePointwise(a + b, offsetChar);
    EncodePointwise(a, offsetChar);
    EncodePointwise(b, offsetChar);
  }

  /** With the default offset `'j'`, every hex digit becomes one of the letters `j`..`y`. */
  lemma DefaultIsAlphabetic(hexString: seq<CodeUnit>)
    requires forall k :: 0 <= k < |hexString| ==> IsHexDigit(hexString[k])
    ensures forall k :: 0 <= k < |hexString| ==>
      0x6A <= Encode(hexString, DefaultOffset)[k] <= 0x79
  {
    EncodePointwise(hexString, DefaultOffset);
    forall k | 0 <= k < |hexString|
      ensures 0x6A <= Encode(hexString, DefaultOffset)[k] <= 0x79
    {
      assert Encode(hexString, DefaultOffset)[k] == EncodeDigit(hexString[k], Some(0x6A));
    }
  }

  /** With the default offset, `"0"` becomes `"j"` and `"f"` becomes `"y"`. */
  lemma DefaultExamples()
    ensures Encode(['0' as CodeUnit], DefaultOffset) == ['j' as CodeUnit]
    ensures Encode(['f' as CodeUnit], DefaultOffset) == ['y' as CodeUnit]
  {
    EncodePointwise(['0' as CodeUnit], DefaultOffset);
    EncodePointwise(['f' as CodeUnit], DefaultOffset);
  }

  /** On lower-case hex input, two inputs of equal length with equal encodings are equal. */
  lemma EncodeInjective(a: seq<CodeUnit>, b: seq<CodeUnit>, offsetChar: seq<CodeUnit>)
    requires |offsetChar| > 0 && |a| == |b|
    requires forall k :: 0 <= k < |a| ==> IsLowerHexDigit(a[k]) && IsLowerHexDigit(b[k])
    requires Encode(a, offsetChar) == Encode(b, offsetChar)
    ensures a == b
  {
    EncodePointwise(a, offsetChar);
    EncodePointwise(b, offsetChar);
    forall k | 0 <= k < |a| ensures a[k] == b[k] {
      assert Encode(a, offsetChar)[k] == Encode(b, offsetChar)[k];
      EncodeDigitInjective(a[k], b[k], OffsetCode(offsetChar));
    }
  }
}
