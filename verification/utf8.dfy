// UTF-8 as `TextEncoder` and `TextDecoder` implement it (the UTF-8 encoder
// and decoder of the WHATWG Encoding Standard, section 9.1), and the
// UTF-16 length JavaScript reports for a string.

module Utf8 {
  import opened Binary

  const REPLACEMENT: char := '\U{FFFD}'
  const BOM: char := '\U{FEFF}'

  // ---------------------------------------------------------------------
  // Encoder

  /** The UTF-8 bytes of one scalar value. */
  function EncodeChar(c: char): (bs: seq<byte>)
    ensures 1 <= |bs| <= 4
    ensures |bs| == 1 <==> c as int < 0x80
  {
    var cp := c as int;
    if cp < 0x80 then [cp as byte]
    else if cp < 0x800 then [(0xC0 + cp / 0x40) as byte, (0x80 + cp % 0x40) as byte]
    else if cp < 0x1_0000 then
      [(0xE0 + cp / 0x1000) as byte, (0x80 + cp / 0x40 % 0x40) as byte, (0x80 + cp % 0x40) as byte]
    else
      [(0xF0 + cp / 0x4_0000) as byte, (0x80 + cp / 0x1000 % 0x40) as byte,
       (0x80 + cp / 0x40 % 0x40) as byte, (0x80 + cp % 0x40) as byte]
  }

  /** `new TextEncoder().encode(s)` */
  function Encode(s: string): (bs: seq<byte>)
    ensures |bs| >= |s|
    ensures IsAscii(s) ==> |bs| == |s| && forall i :: 0 <= i < |s| ==> bs[i] as int == s[i] as int
  {
    if |s| == 0 then [] else EncodeChar(s[0]) + Encode(s[1..])
  }

  /** `BinaryWriter.writeString(str)`: the UTF-8 bytes of the string, appended. */
  function WriteString(w: Writer, str: string): (w': Writer)
    ensures |w'.data| == |w.data| + |Encode(str)|
    ensures w'.data[..|w.data|] == w.data
    ensures forall j :: |w.data| <= j < |w'.data| ==> w'.data[j] == Encode(str)[j - |w.data|] as int
  {
    WriteBytes(w, ToNumbers(Encode(str)))
  }

  /** `Array.from(bytes)`: the bytes as plain numbers. */
  function ToNumbers(bs: seq<byte>): (ns: seq<int>)
    ensures |ns| == |bs|
    ensures forall i :: 0 <= i < |bs| ==> ns[i] == bs[i] as int
  {
    seq(|bs|, i requires 0 <= i < |bs| => bs[i] as int)
  }

  // ---------------------------------------------------------------------
  // Decoder

  /** How many continuation bytes a lead byte announces: 0 for ASCII, 1 to 3
      for the lead bytes C2..DF, E0..EF and F0..F4, and -1 for a byte that
      cannot start a sequence. */
  function Needed(b0: byte): (n: int)
    ensures -1 <= n <= 3
    ensures n == 0 <==> b0 < 0x80
  {
    if b0 < 0x80 then 0
    else if 0xC2 <= b0 <= 0xDF then 1
    else if 0xE0 <= b0 <= 0xEF then 2
    else if 0xF0 <= b0 <= 0xF4 then 3
    else -1
  }

  /** The bounds the first continuation byte must lie in: narrower after
      E0, ED, F0 and F4, which rules out overlong forms, surrogates and
      values beyond U+10FFFF. */
  function Lower(b0: byte): int {
    if b0 == 0xE0 then 0xA0 else if b0 == 0xF0 then 0x90 else 0x80
  }

  function Upper(b0: byte): int {
    if b0 == 0xED then 0x9F else if b0 == 0xF4 then 0x8F else 0xBF
  }

  predicate IsContinuation(b: byte) {
    0x80 <= b <= 0xBF
  }

  /** How many of the `need` continuation bytes after the lead byte the
      decoder accepts before it meets a byte out of bounds or the end. */
  function Accepted(bs: seq<byte>, need: nat): (k: nat)
    requires |bs| >= 1 && need <= 3
    ensures k <= need && k < |bs|
    ensures forall j :: 1 <= j <= k ==> IsContinuation(bs[j])
  {
    if need == 0 || |bs| < 2 || !(Lower(bs[0]) <= bs[1] as int <= Upper(bs[0])) then 0
    else if need == 1 || |bs| < 3 || !IsContinuation(bs[2]) then 1
    else if need == 2 || |bs| < 4 || !IsContinuation(bs[3]) then 2
    else 3
  }

  predicate IsScalar(cp: int) {
    0 <= cp < 0xD800 || 0xE000 <= cp < 0x11_0000
  }

  /** The scalar value a complete, well-formed sequence spells. */
  function Scalar(bs: seq<byte>, need: nat): (cp: int)
    requires 1 <= need <= 3 && |bs| >= 1 && Needed(bs[0]) == need && Accepted(bs, need) == need
    ensures IsScalar(cp)
    ensures need == 1 ==> 0x80 <= cp < 0x800
    ensures need == 2 ==> 0x800 <= cp < 0x1_0000
    ensures need == 3 ==> 0x1_0000 <= cp < 0x11_0000
  {
    var b1 := bs[1] as int - 0x80;
    if need == 1 then (bs[0] as int - 0xC0) * 0x40 + b1
    else if need == 2 then (bs[0] as int - 0xE0) * 0x1000 + b1 * 0x40 + (bs[2] as int - 0x80)
    else (bs[0] as int - 0xF0) * 0x4_0000 + b1 * 0x1000 + (bs[2] as int - 0x80) * 0x40 + (bs[3] as int - 0x80)
  }

  /** The UTF-8 decoder in replacement mode: each maximal ill-formed
      subsequence becomes one U+FFFD, and the byte that broke a sequence is
      decoded afresh. */
  function DecodeStream(bs: seq<byte>): (s: string)
    ensures |s| <= |bs|
    ensures AsciiBytes(bs) ==> |s| == |bs| && forall i :: 0 <= i < |bs| ==> s[i] as int == bs[i] as int
    decreases |bs|
  {
    if |bs| == 0 then ""
    else
      var need := Needed(bs[0]);
      if need == 0 then
        var rest := DecodeStream(bs[1..]);
        assert AsciiBytes(bs) ==> AsciiBytes(bs[1..]) by {
          if AsciiBytes(bs) {
            forall i | 0 <= i < |bs| - 1 ensures bs[1..][i] < 0x80 {
              assert bs[1..][i] == bs[i + 1];
            }
          }
        }
        [bs[0] as int as char] + rest
      else
        assert !AsciiBytes(bs) by { assert bs[0] >= 0x80; }
        if need < 0 then [REPLACEMENT] + DecodeStream(bs[1..])
        else
          var k := Accepted(bs, need);
          if k == need then [Scalar(bs, need) as char] + DecodeStream(bs[need + 1..])
          else [REPLACEMENT] + DecodeStream(bs[k + 1..])
  }

  /** `new TextDecoder().decode(bs)`: the default decoder is UTF-8, not
      fatal, and drops a leading byte order mark. */
  function Decode(bs: seq<byte>): (s: string)
    ensures |s| <= |bs|
    ensures AsciiBytes(bs) ==> |s| == |bs| && forall i :: 0 <= i < |bs| ==> s[i] as int == bs[i] as int
  {
    var t := DecodeStream(bs);
    if |t| > 0 && t[0] == BOM then t[1..] else t
  }

  // ---------------------------------------------------------------------
  // UTF-16 length

  /** The UTF-16 code units of one scalar value. */
  function Units(c: char): (n: nat)
    ensures n == 1 || n == 2
  {
    if c as int < 0x1_0000 then 1 else 2
  }

  /** `s.length` in JavaScript: UTF-16 code units, two for every scalar
      value beyond the Basic Multilingual Plane. */
  function JsLength(s: string): (n: nat)
    ensures |s| <= n <= 2 * |s|
  {
    if |s| == 0 then 0 else Units(s[0]) + JsLength(s[1..])
  }

  predicate AsciiBytes(bs: seq<byte>) {
    forall i :: 0 <= i < |bs| ==> bs[i] < 0x80
  }

  predicate IsAscii(s: string) {
    forall i :: 0 <= i < |s| ==> s[i] as int < 0x80
  }

  // ---------------------------------------------------------------------
  // Properties

  /** Every scalar value encodes to at least as many bytes as it has UTF-16
      code units, and to exactly as many only when it is ASCII. */
  lemma EncodeCharVersusUnits(c: char)
    ensures |EncodeChar(c)| >= Units(c)
    ensures |EncodeChar(c)| == Units(c) <==> c as int < 0x80
  {
  }

  /** The byte length of the encoding equals the JavaScript length exactly
      when the string is ASCII. */
  lemma {:induction false} EncodeLengthVersusJsLength(s: string)
    ensures |Encode(s)| >= JsLength(s)
    ensures |Encode(s)| == JsLength(s) <==> IsAscii(s)
  {
    if |s| > 0 {
      EncodeLengthVersusJsLength(s[1..]);
      EncodeCharVersusUnits(s[0]);
      if IsAscii(s) {
        assert IsAscii(s[1..]) by {
          forall i | 0 <= i < |s| - 1 ensures s[1..][i] as int < 0x80 {
            assert s[1..][i] == s[i + 1];
          }
        }
      } else if IsAscii(s[1..]) {
        assert s[0] as int >= 0x80 by {
          forall i | 1 <= i < |s| ensures s[i] as int < 0x80 {
            assert s[i] == s[1..][i - 1];
          }
        }
      }
    }
  }

  /** An ASCII string encodes to one byte per character. */
  lemma {:induction false} AsciiEncodeLength(s: string)
    requires IsAscii(s)
    ensures |Encode(s)| == |s|
  {
    if |s| > 0 {
      assert IsAscii(s[1..]) by {
        forall i | 0 <= i < |s| - 1 ensures s[1..][i] as int < 0x80 {
          assert s[1..][i] == s[i + 1];
        }
      }
      AsciiEncodeLength(s[1..]);
    }
  }

  lemma {:induction false} EncodeAppend(a: string, b: string)
    ensures Encode(a + b) == Encode(a) + Encode(b)
  {
    if |a| == 0 {
      assert a + b == b;
    } else {
      assert (a + b)[1..] == a[1..] + b;
      EncodeAppend(a[1..], b);
    }
  }

  lemma DecodeAscii(c: char, rest: seq<byte>)
    requires c as int < 0x80
    ensures DecodeStream(EncodeChar(c) + rest) == [c] + DecodeStream(rest)
  {
    var bs := EncodeChar(c) + rest;
    assert bs[1..] == rest;
  }

  lemma DecodeTwo(c: char, rest: seq<byte>)
    requires 0x80 <= c as int < 0x800
    ensures DecodeStream(EncodeChar(c) + rest) == [c] + DecodeStream(rest)
  {
    var bs := EncodeChar(c) + rest;
    var cp := c as int;
    assert bs[0] as int == 0xC0 + cp / 0x40 && bs[1] as int == 0x80 + cp % 0x40;
    assert Needed(bs[0]) == 1;
    assert Accepted(bs, 1) == 1;
    assert Scalar(bs, 1) == cp;
    assert bs[2..] == rest;
  }

  lemma DecodeThree(c: char, rest: seq<byte>)
    requires 0x800 <= c as int < 0x1_0000
    ensures DecodeStream(EncodeChar(c) + rest) == [c] + DecodeStream(rest)
  {
    var bs := EncodeChar(c) + rest;
    var cp := c as int;
    assert bs[0] as int == 0xE0 + cp / 0x1000;
    assert bs[1] as int == 0x80 + cp / 0x40 % 0x40;
    assert bs[2] as int == 0x80 + cp % 0x40;
    assert Needed(bs[0]) == 2;
    assert Accepted(bs, 2) == 2;
    assert Scalar(bs, 2) == cp;
    assert bs[3..] == rest;
  }

  lemma DecodeFour(c: char, rest: seq<byte>)
    requires 0x1_0000 <= c as int
    ensures DecodeStream(EncodeChar(c) + rest) == [c] + DecodeStream(rest)
  {
    var bs := EncodeChar(c) + rest;
    var cp := c as int;
    assert Needed(bs[0]) == 3 && Accepted(bs, 3) == 3 && Scalar(bs, 3) == cp by {
      assert bs[0] as int == 0xF0 + cp / 0x4_0000;
      assert bs[1] as int == 0x80 + cp / 0x1000 % 0x40;
      assert bs[2] as int == 0x80 + cp / 0x40 % 0x40;
      assert bs[3] as int == 0x80 + cp % 0x40;
      FourGroups(cp);
    }
    assert bs[4..] == rest;
  }

  /** The four bit groups a four-byte sequence carries, and the bounds the
      first two satisfy. */
  lemma FourGroups(cp: int)
    requires 0x1_0000 <= cp < 0x11_0000
    ensures cp / 0x4_0000 * 0x4_0000 + cp / 0x1000 % 0x40 * 0x1000 + cp / 0x40 % 0x40 * 0x40 + cp % 0x40 == cp
    ensures cp / 0x4_0000 <= 4
    ensures cp / 0x4_0000 == 0 ==> cp / 0x1000 % 0x40 >= 0x10
    ensures cp / 0x4_0000 == 4 ==> cp / 0x1000 % 0x40 < 0x10
  {
    var q := cp / 0x1000;
    var r := cp / 0x40;
    assert q == cp / 0x4_0000 * 0x40 + q % 0x40;
    assert r == q * 0x40 + r % 0x40;
    assert cp == r * 0x40 + cp % 0x40;
  }

  /** Decoding the encoding of one scalar value gives it back and leaves the
      following bytes to be decoded on their own. */
  lemma DecodeEncodeChar(c: char, rest: seq<byte>)
    ensures DecodeStream(EncodeChar(c) + rest) == [c] + DecodeStream(rest)
  {
    if c as int < 0x80 {
      DecodeAscii(c, rest);
    } else if c as int < 0x800 {
      DecodeTwo(c, rest);
    } else if c as int < 0x1_0000 {
      DecodeThree(c, rest);
    } else {
      DecodeFour(c, rest);
    }
  }

  /** The decoder inverts the encoder on every string. */
  lemma {:induction false} DecodeStreamEncode(s: string)
    ensures DecodeStream(Encode(s)) == s
  {
    if |s| > 0 {
      DecodeEncodeChar(s[0], Encode(s[1..]));
      DecodeStreamEncode(s[1..]);
    }
  }

  /** `TextDecoder` inverts `TextEncoder` except for a leading byte order
      mark, which it drops. */
  lemma DecodeEncode(s: string)
    ensures |s| > 0 && s[0] == BOM ==> Decode(Encode(s)) == s[1..]
    ensures !(|s| > 0 && s[0] == BOM) ==> Decode(Encode(s)) == s
  {
    DecodeStreamEncode(s);
  }

  /** A truncated sequence decodes to a single replacement character. */
  lemma TruncatedSequence()
    ensures Decode([0xC3]) == [REPLACEMENT]
    ensures Decode([0xE2, 0x82]) == [REPLACEMENT]
  {
    var a: seq<byte> := [0xC3];
    assert Accepted(a, 1) == 0;
    assert DecodeStream(a[1..]) == "";
    var b: seq<byte> := [0xE2, 0x82];
    assert Accepted(b, 2) == 1;
    assert DecodeStream(b[2..]) == "";
  }

  /** A byte that breaks a sequence is decoded afresh: C3 followed by `A`
      gives U+FFFD then `A`, not one replacement for both. */
  lemma BrokenSequenceRestoresByte()
    ensures Decode([0xC3, 0x41]) == [REPLACEMENT, 'A']
  {
    var a: seq<byte> := [0xC3, 0x41];
    assert Accepted(a, 1) == 0;
    assert a[1..] == [0x41];
    var t: seq<byte> := [0x41];
    assert DecodeStream(t) == ['A'] by {
      assert t[1..] == [];
    }
  }
}
