/** Bytes, fixed-width digests and 4-byte selectors. Hash functions are not
    modelled: callers receive them as parameters of type `StringHasher`. */
module Bytes {

  type byte = x: int | 0 <= x < 256

  /** A 32-byte hash output (BLAKE3 or Keccak-256). */
  type Digest = d: seq<byte> | |d| == 32 witness seq(32, i => 0)

  /** A 4-byte function selector. */
  type Selector = s: seq<byte> | |s| == 4 witness [0, 0, 0, 0]

  /** The selector `[0; 4]` given to constructors, fallbacks and receives. */
  const ZeroSelector: Selector := [0, 0, 0, 0]

  /** A hash over the UTF-8 bytes of a string, left uninterpreted. */
  type StringHasher = string -> Digest

  /** The UTF-8 encoding of one character (a Unicode scalar value): one
      byte below U+0080, otherwise a lead byte and continuation bytes, all
      of them 0x80 or above. */
  function Utf8Char(c: char): (b: seq<byte>)
    ensures 1 <= |b| <= 4
    ensures (c as int) < 0x80 ==> b == [c as int]
    ensures (c as int) >= 0x80 ==> forall i :: 0 <= i < |b| ==> b[i] >= 0x80
  {
    var n := c as int;
    if n < 0x80 then [n]
    else if n < 0x800 then [0xC0 + n / 0x40, 0x80 + n % 0x40]
    else if n < 0x1_0000 then [0xE0 + n / 0x1000, 0x80 + (n / 0x40) % 0x40, 0x80 + n % 0x40]
    else [0xF0 + n / 0x4_0000, 0x80 + (n / 0x1000) % 0x40, 0x80 + (n / 0x40) % 0x40, 0x80 + n % 0x40]
  }

  /** The UTF-8 bytes of a string, as `str::as_bytes` gives them. */
  function Utf8(s: string): (b: seq<byte>)
    ensures |b| >= |s|
    decreases |s|
  {
    if |s| == 0 then [] else Utf8Char(s[0]) + Utf8(s[1..])
  }

  predicate IsAscii(s: string) {
    forall i :: 0 <= i < |s| ==> (s[i] as int) < 0x80
  }

  /** An ASCII string is its own UTF-8 encoding, byte for character. */
  lemma {:induction false} Utf8OfAscii(s: string)
    requires IsAscii(s)
    ensures |Utf8(s)| == |s|
    ensures forall i :: 0 <= i < |s| ==> Utf8(s)[i] == s[i] as int
    decreases |s|
  {
    if |s| > 0 {
      Utf8OfAscii(s[1..]);
      assert Utf8(s) == [s[0] as int] + Utf8(s[1..]);
      forall i | 1 <= i < |s| ensures Utf8(s)[i] == s[i] as int {
        assert Utf8(s)[i] == Utf8(s[1..])[i - 1];
      }
    }
  }

  /** A string whose encoding has only bytes below 0x80 is ASCII. */
  lemma {:induction false} LowBytesMeanAscii(s: string)
    requires forall i :: 0 <= i < |Utf8(s)| ==> Utf8(s)[i] < 0x80
    ensures IsAscii(s)
    decreases |s|
  {
    if |s| > 0 {
      var head := Utf8Char(s[0]);
      assert Utf8(s) == head + Utf8(s[1..]);
      assert Utf8(s)[0] == head[0];
      forall i | 0 <= i < |Utf8(s[1..])| ensures Utf8(s[1..])[i] < 0x80 {
        assert Utf8(s[1..])[i] == Utf8(s)[|head| + i];
      }
      LowBytesMeanAscii(s[1..]);
      forall i | 1 <= i < |s| ensures (s[i] as int) < 0x80 {
        assert s[i] == s[1..][i - 1];
      }
    }
  }

  /** The first four bytes of a digest: section "Function Selector" of the
      Solidity Contract ABI Specification. */
  function SelectorOf(d: Digest): (s: Selector)
    ensures forall i :: 0 <= i < 4 ==> s[i] == d[i]
  {
    d[..4]
  }
}
