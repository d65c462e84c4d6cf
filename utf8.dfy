/**
 * UTF-8, the byte form `OsStr::as_encoded_bytes` gives for an `OsString`
 * made from a `String`.
 */
module Utf8 {
  import opened Wrappers
  import opened Bytes

  predicate IsContinuation(b: byte) {
    0x80 <= b < 0xC0
  }

  /** The one to four bytes of a Unicode scalar value. */
  function EncodeChar(c: char): (r: seq<byte>)
    ensures 1 <= |r| <= 4
    ensures (c as int < 0x80) <==> |r| == 1
  {
    var cp := c as int;
    if cp < 0x80 then [cp]
    else if cp < 0x800 then [0xC0 + cp / 0x40, 0x80 + cp % 0x40]
    else if cp < 0x1_0000 then [0xE0 + cp / 0x1000, 0x80 + (cp / 0x40) % 0x40, 0x80 + cp % 0x40]
    else [0xF0 + cp / 0x4_0000, 0x80 + (cp / 0x1000) % 0x40, 0x80 + (cp / 0x40) % 0x40, 0x80 + cp % 0x40]
  }

  /** The encoding of a string: at least one and at most four bytes per character. */
  function Encode(s: string): (r: seq<byte>)
    ensures |s| <= |r| <= 4 * |s|
  {
    if s == [] then [] else EncodeChar(s[0]) + Encode(s[1..])
  }

  /** The value of a continuation byte: its low six bits. */
  function Low6(b: byte): nat
    requires IsContinuation(b)
  {
    b as int - 0x80
  }

  /**
   * The first character of `b` and its width in bytes; rejects stray
   * continuation bytes, overlong forms, surrogates and values past U+10FFFF.
   */
  function DecodeChar(b: seq<byte>): (r: Option<(char, nat)>)
    requires |b| >= 1
    ensures r.Some? ==> 1 <= r.value.1 <= |b| && r.value.1 <= 4
  {
    var b0: int := b[0];
    if b0 < 0x80 then Some((b0 as char, 1))
    else if 0xC0 <= b0 < 0xE0 && |b| >= 2 && IsContinuation(b[1]) then
      var cp := (b0 - 0xC0) * 0x40 + Low6(b[1]);
      if cp < 0x80 then None else Some((cp as char, 2))
    else if 0xE0 <= b0 < 0xF0 && |b| >= 3 && IsContinuation(b[1]) && IsContinuation(b[2]) then
      var cp := (b0 - 0xE0) * 0x1000 + Low6(b[1]) * 0x40 + Low6(b[2]);
      if cp < 0x800 || 0xD800 <= cp < 0xE000 then None else Some((cp as char, 3))
    else if 0xF0 <= b0 < 0xF8 && |b| >= 4 && IsContinuation(b[1]) && IsContinuation(b[2]) && IsContinuation(b[3]) then
      var cp := (b0 - 0xF0) * 0x4_0000 + Low6(b[1]) * 0x1000 + Low6(b[2]) * 0x40 + Low6(b[3]);
      if cp < 0x1_0000 || cp >= 0x11_0000 then None else Some((cp as char, 4))
    else None
  }

  /** The string a byte sequence encodes, if it is valid UTF-8. */
  function Decode(b: seq<byte>): Option<string>
    decreases |b|
  {
    if b == [] then Some([])
    else match DecodeChar(b)
      case None => None
      case Some((c, w)) =>
        match Decode(b[w..])
        case None => None
        case Some(rest) => Some([c] + rest)
  }

  lemma SplitTwo(cp: nat)
    requires cp < 0x800
    ensures (cp / 0x40) * 0x40 + cp % 0x40 == cp
  {
  }

  lemma SplitThree(cp: nat)
    requires cp < 0x1_0000
    ensures cp / 0x1000 < 16
    ensures (cp / 0x1000) * 0x1000 + ((cp / 0x40) % 0x40) * 0x40 + cp % 0x40 == cp
  {
    var q := cp / 0x40;
    assert q * 0x40 + cp % 0x40 == cp;
    assert (q / 0x40) * 0x40 + q % 0x40 == q;
    assert q / 0x40 == cp / 0x1000;
  }

  lemma SplitFour(cp: nat)
    requires cp < 0x11_0000
    ensures cp / 0x4_0000 < 5
    ensures (cp / 0x4_0000) * 0x4_0000 + ((cp / 0x1000) % 0x40) * 0x1000
      + ((cp / 0x40) % 0x40) * 0x40 + cp % 0x40 == cp
  {
    var q := cp / 0x40;
    var q2 := q / 0x40;
    assert q * 0x40 + cp % 0x40 == cp;
    assert q2 * 0x40 + q % 0x40 == q;
    assert (q2 / 0x40) * 0x40 + q2 % 0x40 == q2;
    assert q2 == cp / 0x1000;
    assert q2 / 0x40 == cp / 0x4_0000;
  }

  lemma DecodeEncodeChar(c: char, t: seq<byte>)
    ensures DecodeChar(EncodeChar(c) + t) == Some((c, |EncodeChar(c)|))
  {
    var e := EncodeChar(c) + t;
    var cp := c as int;
    if cp < 0x80 {
    } else if cp < 0x800 {
      assert e[0] == 0xC0 + cp / 0x40 && e[1] == 0x80 + cp % 0x40;
      SplitTwo(cp);
    } else if cp < 0x1_0000 {
      assert e[0] == 0xE0 + cp / 0x1000 && e[1] == 0x80 + (cp / 0x40) % 0x40 && e[2] == 0x80 + cp % 0x40;
      SplitThree(cp);
    } else {
      assert e[0] == 0xF0 + cp / 0x4_0000;
      assert e[1] == 0x80 + (cp / 0x1000) % 0x40;
      assert e[2] == 0x80 + (cp / 0x40) % 0x40 && e[3] == 0x80 + cp % 0x40;
      SplitFour(cp);
    }
  }

  /** Decoding the encoding of a string gives back that string. */
  lemma {:induction false} DecodeEncode(s: string)
    ensures Decode(Encode(s)) == Some(s)
  {
    if s != [] {
      var head := EncodeChar(s[0]);
      var e := Encode(s);
      DecodeEncodeChar(s[0], Encode(s[1..]));
      assert e[|head|..] == Encode(s[1..]);
      DecodeEncode(s[1..]);
      assert s == [s[0]] + s[1..];
    }
  }
}
