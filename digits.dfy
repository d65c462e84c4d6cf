/**
 * The parts of Rust's standard library that the fuzzer's text handling
 * relies on: `char::to_digit`, `char::from_digit`, the decimal `Display`
 * of `usize` and `usize::from_str` (for a 64-bit `usize`).
 */
module Digits {
  import opened Wrappers

  /** `usize::MAX` on a 64-bit target. */
  const USIZE_MAX: nat := 0xFFFF_FFFF_FFFF_FFFF

  /** `char::from_digit(num, radix)`: lower-case letters above nine. */
  function FromDigit(num: nat, radix: nat): (r: Option<char>)
    requires 2 <= radix <= 36
    ensures r.Some? <==> num < radix
    ensures r.Some? && num < 10 ==> '0' <= r.value <= '9'
    ensures r.Some? && num >= 10 ==> 'a' <= r.value <= 'z'
  {
    if num < radix then
      if num < 10 then Some(('0' as int + num) as char)
      else Some(('a' as int + num - 10) as char)
    else None
  }

  /** `char::to_digit(c, radix)`: letters of either case count above nine. */
  function ToDigit(c: char, radix: nat): (r: Option<nat>)
    requires 2 <= radix <= 36
    ensures r.Some? ==> r.value < radix
    ensures '0' <= c <= '9' ==> r == if c as int - '0' as int < radix then Some(c as int - '0' as int) else None
    ensures 'a' <= c <= 'z' ==> r == if c as int - 'a' as int + 10 < radix then Some(c as int - 'a' as int + 10) else None
    ensures 'A' <= c <= 'Z' ==> r == if c as int - 'A' as int + 10 < radix then Some(c as int - 'A' as int + 10) else None
    ensures !('0' <= c <= '9' || 'a' <= c <= 'z' || 'A' <= c <= 'Z') ==> r.None?
  {
    var d :=
      if '0' <= c <= '9' then c as int - '0' as int
      else if radix > 10 && 'a' <= c <= 'z' then c as int - 'a' as int + 10
      else if radix > 10 && 'A' <= c <= 'Z' then c as int - 'A' as int + 10
      else 36;
    if d < radix then Some(d) else None
  }

  /** `to_digit` reads back what `from_digit` writes. */
  lemma FromDigitThenToDigit(num: nat, radix: nat)
    requires 2 <= radix <= 36 && num < radix
    ensures FromDigit(num, radix).Some?
    ensures ToDigit(FromDigit(num, radix).value, radix) == Some(num)
  {
  }

  /** `from_digit` writes back any digit `to_digit` accepts, up to letter case. */
  lemma ToDigitThenFromDigit(c: char, radix: nat)
    requires 2 <= radix <= 36 && ToDigit(c, radix).Some?
    requires !('A' <= c <= 'Z')
    ensures FromDigit(ToDigit(c, radix).value, radix) == Some(c)
  {
  }

  predicate IsDecimalDigit(c: char) {
    '0' <= c <= '9'
  }

  predicate AllDecimal(s: string) {
    forall i :: 0 <= i < |s| ==> IsDecimalDigit(s[i])
  }

  function DigitValue(c: char): (d: nat)
    requires IsDecimalDigit(c)
    ensures d < 10
  {
    c as int - '0' as int
  }

  function DigitChar(d: nat): (c: char)
    requires d < 10
    ensures IsDecimalDigit(c) && DigitValue(c) == d
  {
    ('0' as int + d) as char
  }

  function Pow10(k: nat): (p: nat)
    ensures p >= 1
  {
    if k == 0 then 1 else 10 * Pow10(k - 1)
  }

  /** The number a string of decimal digits denotes, most significant first. */
  function DecimalValue(s: string): nat
    requires AllDecimal(s)
  {
    if s == [] then 0 else DigitValue(s[0]) * Pow10(|s| - 1) + DecimalValue(s[1..])
  }

  /** `Display` for `usize`: shortest decimal form, no sign, no leading zero. */
  function ShowNat(n: nat): (s: string)
    ensures |s| >= 1 && AllDecimal(s)
    ensures s[0] == '0' ==> n == 0 && s == "0"
  {
    if n < 10 then [DigitChar(n)] else ShowNat(n / 10) + [DigitChar(n % 10)]
  }

  lemma {:induction false} DecimalValueSnoc(s: string, c: char)
    requires AllDecimal(s) && IsDecimalDigit(c)
    ensures AllDecimal(s + [c])
    ensures DecimalValue(s + [c]) == DecimalValue(s) * 10 + DigitValue(c)
  {
    if s != [] {
      var t := s + [c];
      assert t[0] == s[0] && t[1..] == s[1..] + [c];
      DecimalValueSnoc(s[1..], c);
      var d, p := DigitValue(s[0]), Pow10(|s| - 1);
      assert Pow10(|t| - 1) == 10 * p;
      assert DecimalValue(t) == d * (10 * p) + DecimalValue(s[1..] + [c]);
      assert DecimalValue(s) == d * p + DecimalValue(s[1..]);
      ShiftDigit(d, p, DecimalValue(s[1..]));
    }
  }

  lemma ShiftDigit(d: nat, p: nat, rest: nat)
    ensures (d * p + rest) * 10 == d * (10 * p) + rest * 10
  {
  }

  /** Reading the printed form of `n` as decimal digits gives back `n`. */
  lemma {:induction false} ShowNatValue(n: nat)
    ensures DecimalValue(ShowNat(n)) == n
  {
    if n >= 10 {
      ShowNatValue(n / 10);
      DecimalValueSnoc(ShowNat(n / 10), DigitChar(n % 10));
    }
  }

  /** The kinds of `core::num::ParseIntError` an unsigned parse can give. */
  datatype IntErrorKind = Empty | InvalidDigit | PosOverflow

  /** `ParseIntError`'s `Display`, which `to_string` returns. */
  function Describe(kind: IntErrorKind): string {
    match kind
    case Empty => "cannot parse integer from empty string"
    case InvalidDigit => "invalid digit found in string"
    case PosOverflow => "number too large to fit in target type"
  }

  /**
   * The digit loop of `usize::from_str_radix(_, 10)`: left to right, each
   * character is first checked as a digit, then the running value is
   * multiplied by ten and the digit added, failing on overflow.
   */
  function Accumulate(s: string, acc: nat): (r: Result<nat, IntErrorKind>)
    requires acc <= USIZE_MAX
    ensures r.Ok? ==> acc <= r.value <= USIZE_MAX
    ensures r.Err? ==> r.error != Empty
    decreases |s|
  {
    if s == [] then Ok(acc)
    else match ToDigit(s[0], 10)
      case None => Err(InvalidDigit)
      case Some(d) =>
        if acc * 10 + d > USIZE_MAX then Err(PosOverflow) else Accumulate(s[1..], acc * 10 + d)
  }

  /** `usize::from_str`: an optional leading `+`, then at least one digit. */
  function ParseUsize(s: string): (r: Result<nat, IntErrorKind>)
    ensures r.Ok? ==> r.value <= USIZE_MAX
    ensures r == Err(Empty) <==> s == []
  {
    if |s| == 0 then Err(Empty)
    else if |s| == 1 && (s[0] == '+' || s[0] == '-') then Err(InvalidDigit)
    else if s[0] == '+' then Accumulate(s[1..], 0)
    else Accumulate(s, 0)
  }

  /** The digit loop succeeds exactly on digit strings whose value fits. */
  lemma {:induction false} AccumulateComplete(s: string, acc: nat)
    requires acc <= USIZE_MAX && AllDecimal(s)
    requires acc * Pow10(|s|) + DecimalValue(s) <= USIZE_MAX
    ensures Accumulate(s, acc) == Ok(acc * Pow10(|s|) + DecimalValue(s))
  {
    if s != [] {
      var d, p := DigitValue(s[0]), Pow10(|s| - 1);
      var acc' := acc * 10 + d;
      assert ToDigit(s[0], 10) == Some(d);
      StepValue(acc, d, p, DecimalValue(s[1..]));
      assert acc' <= USIZE_MAX;
      assert Accumulate(s, acc) == Accumulate(s[1..], acc');
      AccumulateComplete(s[1..], acc');
    }
  }

  /** One digit of the loop: the running value times ten plus the digit. */
  lemma StepValue(acc: nat, d: nat, p: nat, rest: nat)
    requires p >= 1
    ensures acc * (10 * p) + (d * p + rest) == (acc * 10 + d) * p + rest
    ensures acc * 10 + d <= (acc * 10 + d) * p + rest
  {
    DistributeStep(acc, d, p);
  }

  lemma {:induction false} AccumulateSound(s: string, acc: nat)
    requires acc <= USIZE_MAX && Accumulate(s, acc).Ok?
    ensures AllDecimal(s)
    ensures Accumulate(s, acc).value == acc * Pow10(|s|) + DecimalValue(s)
  {
    if s != [] {
      var d := ToDigit(s[0], 10).value;
      var acc' := acc * 10 + d;
      assert acc' <= USIZE_MAX && Accumulate(s, acc) == Accumulate(s[1..], acc');
      AccumulateSound(s[1..], acc');
      assert AllDecimal(s) by {
        forall i | 0 <= i < |s| ensures IsDecimalDigit(s[i]) {
          if i > 0 { assert s[i] == s[1..][i - 1]; }
        }
      }
      var p := Pow10(|s| - 1);
      assert DigitValue(s[0]) == d;
      assert DecimalValue(s) == d * p + DecimalValue(s[1..]);
      DistributeStep(acc, d, p);
    }
  }

  lemma DistributeStep(acc: nat, d: nat, p: nat)
    ensures (acc * 10 + d) * p == acc * (10 * p) + d * p
  {
  }

  /** A digit string, after an optional leading `+`, is what `from_str` accepts. */
  predicate Unsigned(s: string, digits: string) {
    && |digits| >= 1 && AllDecimal(digits)
    && (s == digits || s == ['+'] + digits)
  }

  /** `usize::from_str` succeeds exactly on an optionally `+`-signed digit string that fits. */
  lemma ParseUsizeOk(s: string)
    ensures ParseUsize(s).Ok? ==>
      var digits := if s[0] == '+' then s[1..] else s;
      Unsigned(s, digits) && ParseUsize(s).value == DecimalValue(digits)
    ensures forall digits :: Unsigned(s, digits) && DecimalValue(digits) <= USIZE_MAX ==>
      ParseUsize(s) == Ok(DecimalValue(digits))
  {
    if ParseUsize(s).Ok? {
      var digits := if s[0] == '+' then s[1..] else s;
      AccumulateSound(digits, 0);
      if s[0] == '+' { assert s == ['+'] + digits; }
    }
    forall digits | Unsigned(s, digits) && DecimalValue(digits) <= USIZE_MAX
      ensures ParseUsize(s) == Ok(DecimalValue(digits))
    {
      AccumulateComplete(digits, 0);
      if s != digits { assert s[1..] == digits; }
    }
  }

  /** `from_str` reads back what `Display` prints, for every `usize`. */
  lemma ParseShowNat(n: nat)
    requires n <= USIZE_MAX
    ensures ParseUsize(ShowNat(n)) == Ok(n)
  {
    var s := ShowNat(n);
    ShowNatValue(n);
    AccumulateComplete(s, 0);
    assert s[0] != '+' && s[0] != '-';
  }
}
