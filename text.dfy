/**
 * The text encoders of Node's `Buffer.from`, on Dafny strings (sequences of
 * Unicode scalar values). JavaScript strings are sequences of UTF-16 code
 * units: `s.length` counts code units, so a character outside the Basic
 * Multilingual Plane counts twice.
 */
module Text {
  import opened Bytes

  predicate IsAscii(s: string) {
    forall i | 0 <= i < |s| :: s[i] as int < 0x80
  }

  /** UTF-8 bytes of one scalar value. */
  function Utf8Char(c: char): (r: seq<Byte>)
    ensures 1 <= |r| <= 4
    ensures |r| == 1 <==> c as int < 0x80
  {
    var v := c as int;
    if v < 0x80 then [v]
    else if v < 0x800 then [0xC0 + v / 0x40, 0x80 + v % 0x40]
    else if v < 0x1_0000 then [0xE0 + v / 0x1000, 0x80 + (v / 0x40) % 0x40, 0x80 + v % 0x40]
    else [0xF0 + v / 0x4_0000, 0x80 + (v / 0x1000) % 0x40, 0x80 + (v / 0x40) % 0x40, 0x80 + v % 0x40]
  }

  /** `Buffer.from(s, "utf-8")`. */
  function Utf8(s: string): seq<Byte>
  {
    if s == [] then [] else Utf8Char(s[0]) + Utf8(s[1..])
  }

  /** UTF-16 code units of one scalar value: itself, or a surrogate pair. */
  function CodeUnitsOf(c: char): (r: seq<U16>)
    ensures |r| == (if c as int < 0x1_0000 then 1 else 2)
  {
    var v := c as int;
    if v < 0x1_0000 then [v]
    else [0xD800 + (v - 0x1_0000) / 0x400, 0xDC00 + (v - 0x1_0000) % 0x400]
  }

  /** The code units of a JavaScript string; `s.length` is their number. */
  function CodeUnits(s: string): seq<U16>
  {
    if s == [] then [] else CodeUnitsOf(s[0]) + CodeUnits(s[1..])
  }

  /** Code units written low byte first. */
  function UnitsLE(u: seq<U16>): (r: seq<Byte>)
    ensures |r| == 2 * |u|
  {
    if u == [] then [] else LE16(u[0]) + UnitsLE(u[1..])
  }

  /** Code units written high byte first: UTF-16BE (section 3 of RFC 2781). */
  function UnitsBE(u: seq<U16>): (r: seq<Byte>)
    ensures |r| == 2 * |u|
  {
    if u == [] then [] else BE16(u[0]) + UnitsBE(u[1..])
  }

  /** Unit i sits at bytes 2i (its high byte) and 2i + 1 (its low byte) of the UTF-16BE bytes. */
  lemma {:induction false} UnitsBEIndex(u: seq<U16>, i: int)
    requires 0 <= i < |u|
    ensures UnitsBE(u)[2 * i] == u[i] / 0x100 && UnitsBE(u)[2 * i + 1] == u[i] % 0x100
  {
    if i > 0 {
      UnitsBEIndex(u[1..], i - 1);
    }
  }

  /** `Buffer.from(s, "utf16le")`. */
  function Utf16LE(s: string): seq<Byte> { UnitsLE(CodeUnits(s)) }

  /** The UTF-16BE encoding of `s`. */
  function Utf16BE(s: string): seq<Byte> { UnitsBE(CodeUnits(s)) }

  /**
   * `buf.toString("utf16le")` as the code units of the resulting JavaScript
   * string: bytes paired low first; a trailing odd byte is dropped.
   */
  function UnitsFromLE(b: seq<Byte>): (r: seq<U16>)
    ensures |r| == |b| / 2
  {
    if |b| < 2 then [] else [ReadLE16(b[0], b[1])] + UnitsFromLE(b[2..])
  }

  /** Decoding UTF-16LE bytes gives back the code units that were written. */
  lemma {:induction false} UnitsLERoundTrip(u: seq<U16>)
    ensures UnitsFromLE(UnitsLE(u)) == u
  {
    if u != [] {
      var b := UnitsLE(u);
      assert b[..2] == LE16(u[0]) && b[2..] == UnitsLE(u[1..]);
      UShortRoundTrip(u[0]);
      UnitsLERoundTrip(u[1..]);
    }
  }

  /** For ASCII text, UTF-8 is one byte per character and the code-unit count equals the byte count. */
  lemma {:induction false} AsciiEncodings(s: string)
    requires IsAscii(s)
    ensures |CodeUnits(s)| == |Utf8(s)| == |s|
    ensures forall i | 0 <= i < |s| :: Utf8(s)[i] == s[i] as int
  {
    if s != [] {
      assert IsAscii(s[1..]) by {
        forall i | 0 <= i < |s[1..]| ensures s[1..][i] as int < 0x80 {
          assert s[1..][i] == s[i + 1];
        }
      }
      AsciiEncodings(s[1..]);
    }
  }

  /** An ASCII string has one code unit per character. */
  lemma AsciiUnitCount(s: string)
    requires IsAscii(s)
    ensures |CodeUnits(s)| == |s|
  {
    AsciiEncodings(s);
  }

  /** A scalar value never takes more UTF-16 code units than UTF-8 bytes. */
  lemma {:induction false} UnitsAtMostUtf8(s: string)
    ensures |CodeUnits(s)| <= |Utf8(s)|
  {
    if s != [] {
      assert |CodeUnitsOf(s[0])| <= |Utf8Char(s[0])|;
      UnitsAtMostUtf8(s[1..]);
    }
  }

  /** A string with a character outside ASCII has fewer code units than UTF-8 bytes. */
  lemma {:induction false} NonAsciiLonger(s: string)
    requires !IsAscii(s)
    ensures |CodeUnits(s)| < |Utf8(s)|
  {
    assert s == [s[0]] + s[1..];
    if s[0] as int < 0x80 {
      assert !IsAscii(s[1..]) by {
        var i :| 0 <= i < |s| && s[i] as int >= 0x80;
        assert s[1..][i - 1] == s[i];
      }
      NonAsciiLonger(s[1..]);
    } else {
      assert |CodeUnitsOf(s[0])| < |Utf8Char(s[0])|;
      UnitsAtMostUtf8(s[1..]);
    }
  }

  /** The code-unit count equals the UTF-8 length exactly for ASCII strings. */
  lemma CountsAgreeIffAscii(s: string)
    ensures |CodeUnits(s)| == |Utf8(s)| <==> IsAscii(s)
  {
    if IsAscii(s) {
      AsciiEncodings(s);
    } else {
      NonAsciiLonger(s);
    }
  }

  /** An instance: "é" is one code unit and two UTF-8 bytes. */
  lemma NonAsciiCountsDiffer()
    ensures |CodeUnits("é")| == 1 && Utf8("é") == [0xC3, 0xA9]
  {
  }
}
