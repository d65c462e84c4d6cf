/**
 * The pseudorandom generators behind each trial: the stdin payload, the
 * extra arguments and the hexadecimal suffix of the artifact names.
 *
 * The random source is a class whose one primitive draws a value from an
 * inclusive range. Its ghost `trace` lists every value drawn so far, in
 * order, so each generator can state exactly which draws it consumed and
 * how its result was built from them. Nothing about the distribution of
 * the draws is modelled.
 */
module Generate {
  import opened Wrappers
  import opened Bytes
  import opened Digits
  import opened NumberRanges
  import Utf8

  /** `rand::distr::uniform::Error`: for integers only an empty range is refused. */
  datatype DistrError = EmptyRange

  /** A stand-in for `rand::rng()`: a seeded generator with a record of its draws. */
  class Rng {
    var state: nat
    ghost var trace: seq<nat>

    constructor (seed: nat)
      ensures trace == []
    {
      state := seed;
      trace := [];
    }

    /** One sample of `Uniform::new_inclusive(lo, hi)`. */
    method SampleInclusive(lo: nat, hi: nat) returns (x: nat)
      requires lo <= hi
      modifies this
      ensures lo <= x <= hi
      ensures trace == old(trace) + [x]
    {
      state := (state * 6364136223846793005 + 1442695040888963407) % TWO_TO_64;
      x := lo + state % (hi - lo + 1);
      trace := trace + [x];
    }

    /** One sample of `Uniform::new(lo, hi)`, the half-open range. */
    method SampleBelow(lo: nat, hi: nat) returns (x: nat)
      requires lo < hi
      modifies this
      ensures lo <= x < hi
      ensures trace == old(trace) + [x]
    {
      x := SampleInclusive(lo, hi - 1);
    }

    /** `RngCore::fill_bytes`: every byte of `buf` is overwritten by a draw. */
    method FillBytes(buf: array<byte>)
      modifies this, buf
      ensures trace == old(trace) + buf[..]
    {
      var i := 0;
      while i < buf.Length
        invariant 0 <= i <= buf.Length
        invariant trace == old(trace) + buf[..i]
      {
        var b := SampleInclusive(0, 255);
        buf[i] := b;
        assert buf[..i + 1] == buf[..i] + [b];
        i := i + 1;
      }
      assert buf[..i] == buf[..];
    }

    /** `StandardUniform` for `char`: the scalar value a draw in the gap-shifted range stands for. */
    method SampleChar() returns (c: char)
      modifies this
      ensures trace == old(trace) + [DrawOfChar(c)]
    {
      var n := SampleBelow(SURROGATE_GAP, 0x11_0000);
      c := CharOfDraw(n);
      DrawOfCharOfDraw(n);
    }
  }

  /** The number of surrogate code points, U+D800 to U+DFFF. */
  const SURROGATE_GAP: nat := 0xDFFF - 0xD800 + 1

  /**
   * rand's mapping for `char`: a draw in `[0x800, 0x110000)` at or below
   * 0xDFFF is moved down by the gap, which skips the surrogates.
   */
  function CharOfDraw(n: nat): char
    requires SURROGATE_GAP <= n < 0x11_0000
  {
    if n <= 0xDFFF then (n - SURROGATE_GAP) as char else n as char
  }

  /** The one draw that `CharOfDraw` maps to `c`. */
  function DrawOfChar(c: char): (n: nat)
    ensures SURROGATE_GAP <= n < 0x11_0000
    ensures CharOfDraw(n) == c
  {
    if (c as int) < 0xD800 then c as int + SURROGATE_GAP else c as int
  }

  lemma DrawOfCharOfDraw(n: nat)
    requires SURROGATE_GAP <= n < 0x11_0000
    ensures DrawOfChar(CharOfDraw(n)) == n
  {
  }

  /** The draws behind a generated string, one per character. */
  function CharDraws(s: string): (d: seq<nat>)
    ensures |d| == |s|
  {
    if s == [] then [] else CharDraws(s[..|s| - 1]) + [DrawOfChar(s[|s| - 1])]
  }

  predicate IsHexDigit(c: char) {
    '0' <= c <= '9' || 'a' <= c <= 'f'
  }

  /** The nibbles behind a generated hexadecimal string, one per character. */
  function Nibbles(s: string): (d: seq<nat>)
    requires forall i :: 0 <= i < |s| ==> IsHexDigit(s[i])
    ensures |d| == |s|
    ensures forall i :: 0 <= i < |s| ==> d[i] < 16 && FromDigit(d[i], 16) == Some(s[i])
  {
    if s == [] then []
    else
      var c := s[|s| - 1];
      assert IsHexDigit(c);
      var d := ToDigit(c, 16).value;
      ToDigitThenFromDigit(c, 16);
      Nibbles(s[..|s| - 1]) + [d]
  }

  /** The draws behind generated arguments: per argument its length, then its characters. */
  function ArgDraws(texts: seq<string>): seq<nat> {
    if texts == [] then []
    else
      var last := texts[|texts| - 1];
      ArgDraws(texts[..|texts| - 1]) + [|last|] + CharDraws(last)
  }

  /** `n_from_range`: one draw within the range; an empty range fails without drawing. */
  method NFromRange(rng: Rng, range: NumberRange) returns (r: Result<nat, DistrError>)
    modifies rng
    ensures r.Ok? <==> range.Valid()
    ensures r.Ok? ==> range.start <= r.value <= range.end
    ensures r.Ok? ==> rng.trace == old(rng.trace) + [r.value]
    ensures r.Err? ==> rng.trace == old(rng.trace)
  {
    if range.start <= range.end {
      var n := rng.SampleInclusive(range.start, range.end);
      r := Ok(n);
    } else {
      r := Err(EmptyRange);
    }
  }

  /** `bytes`: a zeroed buffer of `n` bytes, then filled in place from the source. */
  method RandomBytes(rng: Rng, n: nat) returns (buf: array<byte>)
    modifies rng
    ensures fresh(buf) && buf.Length == n
    ensures rng.trace == old(rng.trace) + buf[..]
  {
    buf := new byte[n](_ => 0);
    rng.FillBytes(buf);
  }

  /** `stdin`: a payload whose length is drawn from the range and whose bytes are the following draws. */
  method Stdin(rng: Rng, range: NumberRange) returns (r: Result<seq<byte>, DistrError>)
    modifies rng
    ensures r.Ok? <==> range.Valid()
    ensures r.Ok? ==> range.start <= |r.value| <= range.end
    ensures r.Ok? ==> rng.trace == old(rng.trace) + [|r.value|] + r.value
    ensures r.Err? ==> rng.trace == old(rng.trace)
  {
    var n := NFromRange(rng, range);
    match n
    case Err(e) =>
      r := Err(e);
    case Ok(count) =>
      var buf := RandomBytes(rng, count);
      r := Ok(buf[..]);
  }

  /** `hex_string`: `len` nibbles drawn from `[0, 16)`, each written by `char::from_digit(_, 16)`. */
  method HexString(rng: Rng, len: nat) returns (s: string)
    modifies rng
    ensures |s| == len
    ensures forall i :: 0 <= i < |s| ==> IsHexDigit(s[i])
    ensures rng.trace == old(rng.trace) + Nibbles(s)
  {
    s := "";
    while |s| < len
      invariant |s| <= len
      invariant forall i :: 0 <= i < |s| ==> IsHexDigit(s[i])
      invariant rng.trace == old(rng.trace) + Nibbles(s)
    {
      var nibble := rng.SampleBelow(0, 16);
      var c := FromDigit(nibble, 16).value;
      FromDigitThenToDigit(nibble, 16);
      assert (s + [c])[..|s|] == s;
      s := s + [c];
    }
  }

  /** `string`: `n` characters, each one draw. */
  method RandomString(rng: Rng, n: nat) returns (s: string)
    modifies rng
    ensures |s| == n
    ensures rng.trace == old(rng.trace) + CharDraws(s)
  {
    s := "";
    while |s| < n
      invariant |s| <= n
      invariant rng.trace == old(rng.trace) + CharDraws(s)
    {
      var c := rng.SampleChar();
      assert (s + [c])[..|s|] == s;
      s := s + [c];
    }
  }

  /** `os_string`: a generated string as the bytes of the `OsString` made from it. */
  method RandomOsString(rng: Rng, n: nat) returns (arg: seq<byte>, ghost text: string)
    modifies rng
    ensures |text| == n && arg == Utf8.Encode(text)
    ensures rng.trace == old(rng.trace) + CharDraws(text)
  {
    var s := RandomString(rng, n);
    arg, text := Utf8.Encode(s), s;
  }

  /**
   * `extra_args`: the number of arguments is drawn from the range, then for
   * each argument a length in `[0, max_len]` and that many characters.
   */
  method ExtraArgs(rng: Rng, range: NumberRange, maxLen: nat)
    returns (r: Result<seq<seq<byte>>, DistrError>, ghost texts: seq<string>)
    requires maxLen >= 1
    modifies rng
    ensures r.Ok? <==> range.Valid()
    ensures r.Ok? ==> range.start <= |r.value| <= range.end && |texts| == |r.value|
    ensures r.Ok? ==> forall i :: 0 <= i < |texts| ==> |texts[i]| <= maxLen && r.value[i] == Utf8.Encode(texts[i])
    ensures r.Ok? ==> rng.trace == old(rng.trace) + [|r.value|] + ArgDraws(texts)
    ensures r.Err? ==> rng.trace == old(rng.trace)
  {
    texts := [];
    var n := NFromRange(rng, range);
    match n
    case Err(e) =>
      r := Err(e);
    case Ok(count) =>
      var args;
      args, texts := ArgsOfLengthsUpTo(rng, count, maxLen);
      r := Ok(args);
  }

  /** The iterator `(0..n_args).map(...)`: per argument a length in `[0, max_len]`, then its text. */
  method ArgsOfLengthsUpTo(rng: Rng, count: nat, maxLen: nat)
    returns (args: seq<seq<byte>>, ghost texts: seq<string>)
    modifies rng
    ensures |args| == count && |texts| == count
    ensures forall i :: 0 <= i < count ==> |texts[i]| <= maxLen && args[i] == Utf8.Encode(texts[i])
    ensures rng.trace == old(rng.trace) + ArgDraws(texts)
  {
    args, texts := [], [];
    while |args| < count
      invariant |args| <= count
      invariant EncodedTexts(args, texts, maxLen)
      invariant rng.trace == old(rng.trace) + ArgDraws(texts)
    {
      ghost var before := rng.trace;
      var len := rng.SampleInclusive(0, maxLen);
      var arg, text := RandomOsString(rng, len);
      assert rng.trace == before + [|text|] + CharDraws(text);
      ArgDrawsSnoc(texts, text);
      EncodedTextsSnoc(args, texts, maxLen, arg, text);
      args, texts := args + [arg], texts + [text];
    }
  }

  /** Each argument is the UTF-8 form of its text, which has at most `maxLen` characters. */
  predicate EncodedTexts(args: seq<seq<byte>>, texts: seq<string>, maxLen: nat) {
    |args| == |texts| &&
    forall i :: 0 <= i < |texts| ==> |texts[i]| <= maxLen && args[i] == Utf8.Encode(texts[i])
  }

  lemma EncodedTextsSnoc(args: seq<seq<byte>>, texts: seq<string>, maxLen: nat, arg: seq<byte>, text: string)
    requires EncodedTexts(args, texts, maxLen)
    requires |text| <= maxLen && arg == Utf8.Encode(text)
    ensures EncodedTexts(args + [arg], texts + [text], maxLen)
  {
  }

  lemma ArgDrawsSnoc(texts: seq<string>, t: string)
    ensures ArgDraws(texts + [t]) == ArgDraws(texts) + [|t|] + CharDraws(t)
  {
    assert (texts + [t])[..|texts|] == texts;
  }

  /** Decoding a generated argument gives back the text it was made from. */
  lemma GeneratedArgsAreText(args: seq<seq<byte>>, texts: seq<string>)
    requires |args| == |texts|
    requires forall i :: 0 <= i < |texts| ==> args[i] == Utf8.Encode(texts[i])
    ensures forall i :: 0 <= i < |args| ==> Utf8.Decode(args[i]) == Some(texts[i])
    ensures forall i :: 0 <= i < |args| ==> |texts[i]| <= |args[i]| <= 4 * |texts[i]|
  {
    forall i | 0 <= i < |args| ensures Utf8.Decode(args[i]) == Some(texts[i]) {
      Utf8.DecodeEncode(texts[i]);
    }
  }
}
