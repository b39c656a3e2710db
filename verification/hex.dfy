/** The `hex` crate: `hex::encode` (lower-case, two characters per byte) and
    `hex::decode`, which works on the UTF-8 bytes of its input (either case,
    even byte length, reporting the first byte that is not a hex digit). */
module Hex {
  import opened Wrappers
  import opened Bytes
  import Text

  predicate IsHexDigit(c: char) {
    ('0' <= c <= '9') || ('a' <= c <= 'f') || ('A' <= c <= 'F')
  }

  predicate IsLowerHexDigit(c: char) {
    ('0' <= c <= '9') || ('a' <= c <= 'f')
  }

  predicate AllHex(s: string) {
    forall i :: 0 <= i < |s| ==> IsHexDigit(s[i])
  }

  function DigitValue(c: char): (v: nat)
    requires IsHexDigit(c)
    ensures v < 16
  {
    if '0' <= c <= '9' then (c as int) - ('0' as int)
    else if 'a' <= c <= 'f' then (c as int) - ('a' as int) + 10
    else (c as int) - ('A' as int) + 10
  }

  function LowerDigit(v: nat): (c: char)
    requires v < 16
    ensures IsLowerHexDigit(c) && IsHexDigit(c)
    ensures DigitValue(c) == v
  {
    if v < 10 then (('0' as int) + v) as char else (('a' as int) + v - 10) as char
  }

  /** The bytes `val` accepts: ASCII '0'-'9', 'a'-'f' and 'A'-'F'. */
  predicate IsHexByte(b: byte) {
    (0x30 <= b <= 0x39) || (0x61 <= b <= 0x66) || (0x41 <= b <= 0x46)
  }

  predicate AllHexBytes(b: seq<byte>) {
    forall i :: 0 <= i < |b| ==> IsHexByte(b[i])
  }

  /** `val`: the value of a hex-digit byte. */
  function ByteValue(b: byte): (v: nat)
    requires IsHexByte(b)
    ensures v < 16
    ensures v == DigitValue(b as char)
  {
    if b <= 0x39 then b - 0x30 else if b >= 0x61 then b - 0x61 + 10 else b - 0x41 + 10
  }

  /** `hex::FromHexError`. The source's `c` is the offending byte cast to a
      `char`; the model keeps the byte. */
  datatype HexError = OddLength | InvalidHexCharacter(b: byte, index: nat)

  /** The bytes whose `char` is not printable in Rust's sense, so that `{:?}`
      shows them as `\u{..}`: the C0 controls, DEL through NBSP, and the soft
      hyphen. */
  predicate IsUnprintableByte(b: byte) {
    b < 0x20 || (0x7F <= b <= 0xA0) || b == 0xAD
  }

  /** Lower-case hexadecimal without leading zeros, as in `\u{..}`. */
  function ShortHex(b: byte): (t: string)
    ensures 1 <= |t| <= 2 && forall i :: 0 <= i < |t| ==> IsLowerHexDigit(t[i])
    ensures |t| == 1 <==> b < 16
  {
    if b < 16 then [LowerDigit(b)] else [LowerDigit(b / 16), LowerDigit(b % 16)]
  }

  /** `char::escape_debug` of `b as char`, the text `{:?}` puts between quotes. */
  function EscapeDebug(b: byte): (t: string)
    ensures |t| >= 1
    ensures !IsUnprintableByte(b) && b != 0x5C && b != 0x27 ==> t == [b as char]
    ensures IsUnprintableByte(b) || b == 0x5C || b == 0x27 ==> t[0] == '\\' && |t| >= 2
    ensures IsUnprintableByte(b) && b != 0 && b != 0x09 && b != 0x0A && b != 0x0D ==>
      t == "\\u{" + ShortHex(b) + "}"
  {
    if b == 0 then "\\0"
    else if b == 0x09 then "\\t"
    else if b == 0x0A then "\\n"
    else if b == 0x0D then "\\r"
    else if b == 0x5C then "\\\\"
    else if b == 0x27 then "\\'"
    else if IsUnprintableByte(b) then "\\u{" + ShortHex(b) + "}"
    else [b as char]
  }

  /** The `Display` text of a `FromHexError`. */
  function ErrorText(e: HexError): string {
    match e
    case OddLength => "Odd number of digits"
    case InvalidHexCharacter(b, index) =>
      "Invalid character '" + EscapeDebug(b) + "' at position " + Text.NatToString(index)
  }

  /** How `{:?}` shows a few bytes: ASCII letters as themselves, controls and
      the quote escaped, and a Latin-1 letter from a UTF-8 lead byte as that
      letter. */
  lemma EscapeDebugExamples()
    ensures EscapeDebug('g' as int) == "g"
    ensures EscapeDebug(0xC3) == "Ã"
    ensures EscapeDebug(0x7F) == "\\u{7f}"
    ensures EscapeDebug(0x01) == "\\u{1}"
    ensures EscapeDebug(0x27) == "\\'"
    ensures EscapeDebug(0x0A) == "\\n"
  {
  }

  /** `hex::encode`. */
  function Encode(b: seq<byte>): (s: string)
    ensures |s| == 2 * |b|
    ensures forall i :: 0 <= i < |s| ==> IsLowerHexDigit(s[i])
    ensures forall k :: 0 <= k < |b| ==>
      s[2 * k] == LowerDigit(b[k] / 16) && s[2 * k + 1] == LowerDigit(b[k] % 16)
  {
    seq(2 * |b|, i requires 0 <= i < 2 * |b| =>
      if i % 2 == 0 then LowerDigit(b[i / 2] / 16) else LowerDigit(b[i / 2] % 16))
  }

  /** Decodes `b` two bytes at a time; `offset` is the position of `b[0]`
      in the whole input, for error reporting. */
  function DecodePairs(b: seq<byte>, offset: nat): (r: Result<seq<byte>, HexError>)
    requires |b| % 2 == 0
    decreases |b|
  {
    if |b| == 0 then Success([])
    else if !IsHexByte(b[0]) then Failure(InvalidHexCharacter(b[0], offset))
    else if !IsHexByte(b[1]) then Failure(InvalidHexCharacter(b[1], offset + 1))
    else
      match DecodePairs(b[2..], offset + 2)
      case Success(rest) => Success([16 * ByteValue(b[0]) + ByteValue(b[1])] + rest)
      case Failure(e) => Failure(e)
  }

  /** What `DecodePairs` computes: the bytes of an all-hex input, or the first
      byte that is not a hex digit. */
  lemma {:induction false} DecodePairsSpec(b: seq<byte>, offset: nat)
    requires |b| % 2 == 0
    ensures DecodePairs(b, offset).Success? <==> AllHexBytes(b)
    ensures DecodePairs(b, offset).Success? ==>
      && |DecodePairs(b, offset).value| == |b| / 2
      && forall k :: 0 <= k < |b| / 2 ==>
           DecodePairs(b, offset).value[k] == 16 * ByteValue(b[2 * k]) + ByteValue(b[2 * k + 1])
    ensures DecodePairs(b, offset).Failure? ==>
      && DecodePairs(b, offset).error.InvalidHexCharacter?
      && offset <= DecodePairs(b, offset).error.index < offset + |b|
      && b[DecodePairs(b, offset).error.index - offset] == DecodePairs(b, offset).error.b
      && !IsHexByte(DecodePairs(b, offset).error.b)
      && AllHexBytes(b[..DecodePairs(b, offset).error.index - offset])
    decreases |b|
  {
    var r := DecodePairs(b, offset);
    if |b| == 0 {
    } else if !IsHexByte(b[0]) {
      assert b[..0] == [];
    } else if !IsHexByte(b[1]) {
      assert AllHexBytes(b[..1]);
    } else {
      var tail := b[2..];
      DecodePairsSpec(tail, offset + 2);
      assert forall i :: 2 <= i < |b| ==> b[i] == tail[i - 2];
      var t := DecodePairs(tail, offset + 2);
      if t.Success? {
        assert AllHexBytes(b);
        forall k | 1 <= k < |b| / 2
          ensures r.value[k] == 16 * ByteValue(b[2 * k]) + ByteValue(b[2 * k + 1])
        {
          assert r.value[k] == t.value[k - 1];
          assert b[2 * k] == tail[2 * (k - 1)] && b[2 * k + 1] == tail[2 * (k - 1) + 1];
        }
      } else {
        var j := t.error.index - offset;
        assert b[j] == tail[j - 2];
        assert b[..j] == b[..2] + tail[..j - 2];
        assert AllHexBytes(b[..2]);
      }
    }
  }

  /** `hex::decode` on bytes: an odd length is reported before any bad byte. */
  function DecodeBytes(b: seq<byte>): (r: Result<seq<byte>, HexError>)
    ensures r.Success? <==> |b| % 2 == 0 && AllHexBytes(b)
    ensures r.Success? ==> |r.value| == |b| / 2
    ensures r.Success? ==> forall k :: 0 <= k < |b| / 2 ==>
      r.value[k] == 16 * ByteValue(b[2 * k]) + ByteValue(b[2 * k + 1])
    ensures r.Failure? && r.error.OddLength? <==> |b| % 2 != 0
    ensures r.Failure? && r.error.InvalidHexCharacter? ==>
      && r.error.index < |b| && b[r.error.index] == r.error.b && !IsHexByte(r.error.b)
      && AllHexBytes(b[..r.error.index])
  {
    if |b| % 2 != 0 then Failure(OddLength)
    else
      DecodePairsSpec(b, 0);
      DecodePairs(b, 0)
  }

  /** The UTF-8 bytes of a string are all hex digits exactly when the string
      is all hex digits; then byte i is character i. */
  lemma Utf8HexIsAsciiHex(s: string)
    ensures AllHexBytes(Utf8(s)) <==> AllHex(s)
    ensures AllHex(s) ==> |Utf8(s)| == |s| && forall i :: 0 <= i < |s| ==> Utf8(s)[i] == s[i] as int
  {
    var u := Utf8(s);
    if AllHexBytes(u) {
      LowBytesMeanAscii(s);
    }
    if AllHex(s) || AllHexBytes(u) {
      assert IsAscii(s) by {
        if AllHex(s) {
          forall i | 0 <= i < |s| ensures (s[i] as int) < 0x80 { assert IsHexDigit(s[i]); }
        }
      }
      Utf8OfAscii(s);
      forall i | 0 <= i < |s| ensures IsHexDigit(s[i]) <==> IsHexByte(u[i]) {
        assert u[i] == s[i] as int;
      }
    }
  }

  /** `hex::decode(s)`: the string's UTF-8 bytes are decoded. Success and the
      decoded bytes depend on the characters alone; failures are reported
      at byte positions. */
  function Decode(s: string): (r: Result<seq<byte>, HexError>)
    ensures r.Success? <==> |s| % 2 == 0 && AllHex(s)
    ensures r.Success? ==> |r.value| == |s| / 2
    ensures r.Success? ==> forall k :: 0 <= k < |s| / 2 ==>
      r.value[k] == 16 * DigitValue(s[2 * k]) + DigitValue(s[2 * k + 1])
    ensures r.Failure? && r.error.OddLength? <==> |Utf8(s)| % 2 != 0
    ensures r.Failure? && r.error.InvalidHexCharacter? ==>
      && r.error.index < |Utf8(s)| && Utf8(s)[r.error.index] == r.error.b && !IsHexByte(r.error.b)
      && AllHexBytes(Utf8(s)[..r.error.index])
  {
    Utf8HexIsAsciiHex(s);
    DecodeBytes(Utf8(s))
  }

  /** On ASCII text byte positions are character positions: an odd length is
      reported first, then the first character that is not a hex digit. */
  lemma DecodeAscii(s: string)
    requires IsAscii(s)
    ensures |s| % 2 != 0 ==> Decode(s) == Failure(OddLength)
    ensures Decode(s).Failure? && Decode(s).error.InvalidHexCharacter? ==>
      && Decode(s).error.index < |s|
      && s[Decode(s).error.index] as int == Decode(s).error.b
      && !IsHexDigit(s[Decode(s).error.index])
      && AllHex(s[..Decode(s).error.index])
  {
    Utf8OfAscii(s);
    var r := Decode(s);
    if r.Failure? && r.error.InvalidHexCharacter? {
      var j := r.error.index;
      forall i | 0 <= i < j ensures IsHexDigit(s[..j][i]) {
        assert Utf8(s)[..j][i] == s[i] as int;
      }
    }
  }

  /** Two characters can be three bytes: "é0" is an odd-length input. */
  lemma NonAsciiLengthCountsBytes()
    ensures |"é0"| == 2 && Decode("é0") == Failure(OddLength)
  {
    assert Utf8("é0") == Utf8Char('é') + Utf8("0");
    assert Utf8("0") == [0x30] + Utf8("");
  }

  /** Decoding inverts encoding. */
  lemma DecodeEncode(b: seq<byte>)
    ensures Decode(Encode(b)) == Success(b)
  {
    var s := Encode(b);
    assert AllHex(s) by {
      forall i | 0 <= i < |s| ensures IsHexDigit(s[i]) {
        assert IsLowerHexDigit(s[i]);
      }
    }
    var r := Decode(s);
    assert r.Success? && |r.value| == |b|;
    forall k | 0 <= k < |b|
      ensures r.value[k] == b[k]
    {
      var hi, lo := s[2 * k], s[2 * k + 1];
      assert hi == LowerDigit(b[k] / 16) && lo == LowerDigit(b[k] % 16);
      assert r.value[k] == 16 * DigitValue(hi) + DigitValue(lo);
      DigitPairValue(b[k]);
    }
    assert r.value == b;
  }

  /** A byte's two lower-case digits read back as the byte. */
  lemma DigitPairValue(v: byte)
    ensures 16 * DigitValue(LowerDigit(v / 16)) + DigitValue(LowerDigit(v % 16)) == v
  {
  }

  /** Encoded text never begins with "0x", since 'x' is no hex digit. */
  lemma EncodeHasNo0x(b: seq<byte>)
    ensures !Text.StartsWith(Encode(b), "0x")
  {
    var s := Encode(b);
    if |b| > 0 {
      assert IsLowerHexDigit(s[1]);
      assert s[..2][1] == s[1] != 'x';
    }
  }
}
