/**
  The UTF-8 encoder the test data generator uses to turn one Unicode code
  point into the bytes of a `std::string`, following the table of section 3
  of RFC 3629:

    0000 0000-0000 007F | 0xxxxxxx
    0000 0080-0000 07FF | 110xxxxx 10xxxxxx
    0000 0800-0000 FFFF | 1110xxxx 10xxxxxx 10xxxxxx
    0001 0000-0010 FFFF | 11110xxx 10xxxxxx 10xxxxxx 10xxxxxx

  The encoder does not reject the surrogate range D800-DFFF, and a code
  point above 10FFFF encodes to the empty string.
 */
module Utf8 {

  /** `static_cast<char>`: keeps the low eight bits. */
  function Char(x: bv32): bv8
  {
    (x & 0xFF) as bv8
  }

  /** The number of bytes RFC 3629 assigns to a code point; 0 when it has none. */
  function EncodedLength(codePoint: bv32): nat
  {
    if codePoint <= 0x7F then 1
    else if codePoint <= 0x7FF then 2
    else if codePoint <= 0xFFFF then 3
    else if codePoint <= 0x10FFFF then 4
    else 0
  }

  /** A trailing byte `10xxxxxx`, that is, one in 0x80-0xBF. */
  predicate IsContinuation(b: bv8)
  {
    b & 0xC0 == 0x80
  }

  /** The marker bits that open an `n`-byte sequence. */
  predicate IsLeadOf(b: bv8, n: nat)
  {
    match n
    case 1 => b & 0x80 == 0x00
    case 2 => b & 0xE0 == 0xC0
    case 3 => b & 0xF0 == 0xE0
    case 4 => b & 0xF8 == 0xF0
    case _ => false
  }

  /** The `x` bits of a whole sequence, read back in order (RFC 3629, section 3). */
  function PayloadBits(b: seq<bv8>): bv32
  {
    match |b|
    case 1 => b[0] as bv32
    case 2 => ((b[0] & 0x1F) as bv32 << 6) | (b[1] & 0x3F) as bv32
    case 3 => ((b[0] & 0x0F) as bv32 << 12) | ((b[1] & 0x3F) as bv32 << 6) | (b[2] & 0x3F) as bv32
    case 4 =>
      ((b[0] & 0x07) as bv32 << 18) | ((b[1] & 0x3F) as bv32 << 12)
      | ((b[2] & 0x3F) as bv32 << 6) | (b[3] & 0x3F) as bv32
    case _ => 0
  }

  /** `code_point_to_utf8`. */
  function CodePointToUtf8(codePoint: bv32): (r: seq<bv8>)
    ensures |r| == EncodedLength(codePoint)
    ensures r == [] <==> codePoint > 0x10FFFF
  {
    if codePoint <= 0x7F then
      [Char(codePoint)]
    else if codePoint <= 0x7FF then
      [Char((codePoint >> 6) | 0xC0),
       Char((codePoint & 0x3F) | 0x80)]
    else if codePoint <= 0xFFFF then
      [Char((codePoint >> 12) | 0xE0),
       Char(((codePoint >> 6) & 0x3F) | 0x80),
       Char((codePoint & 0x3F) | 0x80)]
    else if codePoint <= 0x10FFFF then
      [Char((codePoint >> 18) | 0xF0),
       Char(((codePoint >> 12) & 0x3F) | 0x80),
       Char(((codePoint >> 6) & 0x3F) | 0x80),
       Char((codePoint & 0x3F) | 0x80)]
    else
      []
  }

  /**
    The encoding has the shape of the RFC 3629 table: a lead byte marking
    the length, then only continuation bytes, each in 0x80-0xBF.
   */
  lemma EncodingShape(codePoint: bv32)
    requires codePoint <= 0x10FFFF
    ensures IsLeadOf(CodePointToUtf8(codePoint)[0], |CodePointToUtf8(codePoint)|)
    ensures forall i :: 1 <= i < |CodePointToUtf8(codePoint)| ==>
      IsContinuation(CodePointToUtf8(codePoint)[i]) && 0x80 <= CodePointToUtf8(codePoint)[i] <= 0xBF
  {
  }

  /** Concatenating the payload bits of the encoding gives back the code point. */
  lemma PayloadRoundTrip(codePoint: bv32)
    requires codePoint <= 0x10FFFF
    ensures PayloadBits(CodePointToUtf8(codePoint)) == codePoint
  {
    if codePoint <= 0x7F {
    } else if codePoint <= 0x7FF {
      PayloadRoundTripTwo(codePoint);
    } else if codePoint <= 0xFFFF {
      PayloadRoundTripThree(codePoint);
    } else {
      PayloadRoundTripFour(codePoint);
    }
  }

  lemma PayloadRoundTripTwo(codePoint: bv32)
    requires 0x80 <= codePoint <= 0x7FF
    ensures PayloadBits(CodePointToUtf8(codePoint)) == codePoint
  {
    LeadPayload(codePoint >> 6, 0xC0, 0x1F);
    ContinuationPayload(codePoint);
    Reassemble(codePoint);
  }

  lemma PayloadRoundTripThree(codePoint: bv32)
    requires 0x800 <= codePoint <= 0xFFFF
    ensures PayloadBits(CodePointToUtf8(codePoint)) == codePoint
  {
    LeadPayload(codePoint >> 12, 0xE0, 0x0F);
    ContinuationPayload(codePoint >> 6);
    ContinuationPayload(codePoint);
    Reassemble(codePoint);
  }

  lemma PayloadRoundTripFour(codePoint: bv32)
    requires 0x10000 <= codePoint <= 0x10FFFF
    ensures PayloadBits(CodePointToUtf8(codePoint)) == codePoint
  {
    LeadPayload(codePoint >> 18, 0xF0, 0x07);
    ContinuationPayload(codePoint >> 12);
    ContinuationPayload(codePoint >> 6);
    ContinuationPayload(codePoint);
    Reassemble(codePoint);
  }

  /** A lead byte carries the high bits it was built from. */
  lemma LeadPayload(high: bv32, marker: bv32, mask: bv32)
    requires (marker == 0xC0 && mask == 0x1F) || (marker == 0xE0 && mask == 0x0F) || (marker == 0xF0 && mask == 0x07)
    requires high <= mask
    ensures (Char(high | marker) & mask as bv8) as bv32 == high
  {
  }

  /** A continuation byte carries the low six bits it was built from. */
  lemma ContinuationPayload(x: bv32)
    ensures (Char((x & 0x3F) | 0x80) & 0x3F) as bv32 == x & 0x3F
  {
  }

  /** Six-bit groups put back in place give the number they were cut from. */
  lemma Reassemble(x: bv32)
    ensures ((x >> 6) << 6) | (x & 0x3F) == x
    ensures x <= 0xFFFF ==> ((x >> 12) << 12) | (((x >> 6) & 0x3F) << 6) | (x & 0x3F) == x
    ensures x <= 0x1FFFFF ==>
      ((x >> 18) << 18) | (((x >> 12) & 0x3F) << 12) | (((x >> 6) & 0x3F) << 6) | (x & 0x3F) == x
  {
  }

  /** An ASCII code point is its own single byte. */
  lemma AsciiIsItself(codePoint: bv32)
    requires codePoint <= 0x7F
    ensures CodePointToUtf8(codePoint) == [codePoint as bv8]
  {
  }

  /** Surrogates are encoded like any other 3-byte code point, with lead byte 0xED. */
  lemma SurrogatesNotRejected(codePoint: bv32)
    requires 0xD800 <= codePoint <= 0xDFFF
    ensures |CodePointToUtf8(codePoint)| == 3
    ensures CodePointToUtf8(codePoint)[0] == 0xED
  {
  }

  /** Two code points share an encoding only if they are equal. */
  lemma EncodingInjective(a: bv32, b: bv32)
    requires a <= 0x10FFFF && b <= 0x10FFFF
    requires CodePointToUtf8(a) == CodePointToUtf8(b)
    ensures a == b
  {
    PayloadRoundTrip(a);
    PayloadRoundTrip(b);
  }
}
