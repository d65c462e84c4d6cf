/**
 * `NumberRange<usize>`: an inclusive range of naturals that the command
 * line reads as `N` or `A..=B` and prints back in the same form.
 */
module NumberRanges {
  import opened Wrappers
  import opened Digits

  /**
   * The fields are private in the source, so every range a caller can hold
   * comes from `New`, `FromValue`, `Default` or `Parse`, and all of them
   * are `Valid`.
   */
  datatype NumberRange = NumberRange(start: nat, end: nat) {
    predicate Valid() {
      start <= end
    }
  }

  /** `NumberRange::new`: a range exactly when `end >= start`. */
  function New(start: nat, end: nat): (r: Option<NumberRange>)
    ensures r.Some? <==> end >= start
    ensures r.Some? ==> r.value.Valid() && r.value.start == start && r.value.end == end
  {
    if end >= start then Some(NumberRange(start, end)) else None
  }

  /** `From<T>`: the one-value range `[value, value]`. */
  function FromValue(value: nat): (r: NumberRange)
    ensures r.Valid() && r.start == value && r.end == value
  {
    NumberRange(value, value)
  }

  /** `Default`: the zero-width range at `usize::default()`, which is zero. */
  function Default(): (r: NumberRange)
    ensures r.Valid() && r.start == r.end == 0
  {
    FromValue(0)
  }

  /** `parse_value`: the value parser's error is turned into its message. */
  function ParseValue(s: string): (r: Result<nat, string>)
    ensures r.Ok? <==> ParseUsize(s).Ok?
    ensures r.Ok? ==> r.value == ParseUsize(s).value
    ensures r.Err? ==> r.error == Describe(ParseUsize(s).error)
  {
    match ParseUsize(s)
    case Ok(v) => Ok(v)
    case Err(e) => Err(Describe(e))
  }

  const Separator: string := "..="

  const BackwardsMessage: string := "Cannot construct a backwards range"

  /** The separator `..=` occurs in `s` at index `i`. */
  predicate SeparatorAt(s: string, i: nat) {
    i + 3 <= |s| && s[i] == '.' && s[i + 1] == '.' && s[i + 2] == '='
  }

  /** The first occurrence of the separator at or after index `i`. */
  function FindFrom(s: string, i: nat): (r: Option<nat>)
    requires i <= |s|
    ensures r.Some? ==> i <= r.value && SeparatorAt(s, r.value)
    ensures r.Some? ==> forall j :: i <= j < r.value ==> !SeparatorAt(s, j)
    ensures r.None? ==> forall j :: i <= j ==> !SeparatorAt(s, j)
    decreases |s| - i
  {
    if i + 3 > |s| then None
    else if SeparatorAt(s, i) then Some(i)
    else FindFrom(s, i + 1)
  }

  /** `str::split_once("..=")`: the text before and after the first separator. */
  function SplitOnce(s: string): (r: Option<(string, string)>)
    ensures r.None? <==> forall j :: 0 <= j ==> !SeparatorAt(s, j)
    ensures r.Some? ==> exists i: nat ::
      && SeparatorAt(s, i) && (forall j :: 0 <= j < i ==> !SeparatorAt(s, j))
      && r.value.0 == s[..i] && r.value.1 == s[i + 3..]
  {
    match FindFrom(s, 0)
    case None => None
    case Some(i) => Some((s[..i], s[i + 3..]))
  }

  /** `FromStr::from_str`. */
  function Parse(s: string): (r: Result<NumberRange, string>)
    ensures r.Ok? ==> r.value.Valid() && r.value.end <= USIZE_MAX
  {
    match SplitOnce(s)
    case Some((a, b)) =>
      var start :- ParseValue(a);
      var end :- ParseValue(b);
      New(start, end).OkOr(BackwardsMessage)
    case None =>
      match ParseValue(s)
      case Ok(v) => Ok(FromValue(v))
      case Err(e) => Err(e)
  }

  /** `Display::fmt`: the start value, followed by the separator and the end value when they differ. */
  function Format(r: NumberRange): (s: string)
    ensures |s| >= |ShowNat(r.start)| && s[..|ShowNat(r.start)|] == ShowNat(r.start)
    ensures (r.start == r.end) <==> s == ShowNat(r.start)
  {
    if r.start == r.end then ShowNat(r.start) else ShowNat(r.start) + Separator + ShowNat(r.end)
  }

  /** Text without the separator is one value: a one-value range, or that value's error. */
  lemma ParseWithoutSeparator(s: string)
    requires forall j :: 0 <= j ==> !SeparatorAt(s, j)
    ensures ParseValue(s).Ok? ==> Parse(s) == Ok(FromValue(ParseValue(s).value))
    ensures ParseValue(s).Err? ==> Parse(s) == Err(ParseValue(s).error)
  {
  }

  /**
   * Text split at its first separator into `a` and `b`: an endpoint error
   * is passed on unchanged (the start's first), a backwards pair fails with
   * `BackwardsMessage`, and otherwise the range is `[a, b]`.
   */
  lemma ParseWithSeparator(s: string, a: string, b: string)
    requires SplitOnce(s) == Some((a, b))
    ensures ParseValue(a).Err? ==> Parse(s) == Err(ParseValue(a).error)
    ensures ParseValue(a).Ok? && ParseValue(b).Err? ==> Parse(s) == Err(ParseValue(b).error)
    ensures ParseValue(a).Ok? && ParseValue(b).Ok? ==>
      var start, end := ParseValue(a).value, ParseValue(b).value;
      Parse(s) == if start <= end then Ok(NumberRange(start, end)) else Err(BackwardsMessage)
  {
  }

  /** The printed form of a value never contains the separator. */
  lemma {:induction false} DigitsHaveNoSeparator(s: string, t: string, i: nat)
    requires AllDecimal(s)
    requires i < |s|
    ensures !SeparatorAt(s + t, i)
  {
    assert (s + t)[i] == s[i];
  }

  /** In digits followed by the separator, the first separator is right after the digits. */
  lemma {:induction false} FindAfterDigits(d: string, t: string, i: nat)
    requires AllDecimal(d) && i <= |d|
    ensures FindFrom(d + Separator + t, i) == Some(|d|)
    decreases |d| - i
  {
    var s := d + Separator + t;
    assert s == d + (Separator + t);
    if i < |d| {
      DigitsHaveNoSeparator(d, Separator + t, i);
      FindAfterDigits(d, t, i + 1);
    } else {
      assert s[i] == '.' && s[i + 1] == '.' && s[i + 2] == '=';
    }
  }

  /** Parsing the printed form of any range gives back that range. */
  lemma FormatThenParse(r: NumberRange)
    requires r.Valid() && r.end <= USIZE_MAX
    ensures Parse(Format(r)) == Ok(r)
  {
    var a, b := ShowNat(r.start), ShowNat(r.end);
    ParseShowNat(r.start);
    ParseShowNat(r.end);
    if r.start == r.end {
      forall j | 0 <= j ensures !SeparatorAt(a, j) {
        if j < |a| { DigitsHaveNoSeparator(a, [], j); assert a + [] == a; }
      }
    } else {
      var s := a + Separator + b;
      FindAfterDigits(a, b, 0);
      assert s[..|a|] == a;
      assert s[|a| + 3..] == b;
      assert SplitOnce(s) == Some((a, b));
    }
  }

  /**
   * The printed form: the start alone for a one-value range, otherwise
   * start, separator, end; it holds a separator exactly when the
   * endpoints differ.
   */
  lemma FormatShape(r: NumberRange)
    ensures r.start == r.end ==> Format(r) == ShowNat(r.start)
    ensures r.start != r.end ==> Format(r) == ShowNat(r.start) + "..=" + ShowNat(r.end)
    ensures (r.start != r.end) <==> exists j: nat :: SeparatorAt(Format(r), j)
  {
    var a := ShowNat(r.start);
    if r.start == r.end {
      forall j: nat ensures !SeparatorAt(a, j) {
        if j < |a| { DigitsHaveNoSeparator(a, [], j); assert a + [] == a; }
      }
    } else {
      FindAfterDigits(a, ShowNat(r.end), 0);
    }
  }

  /** clap's `default_value_t` prints the default and parses it back. */
  lemma DefaultRoundTrip()
    ensures Format(Default()) == "0"
    ensures Parse(Format(Default())) == Ok(Default())
  {
    FormatThenParse(Default());
  }

  lemma ParseSingleExample()
    ensures Parse("5") == Ok(NumberRange(5, 5))
  {
    FormatThenParse(NumberRange(5, 5));
  }

  lemma ParseRangeExample()
    ensures Parse("3..=7") == Ok(NumberRange(3, 7))
  {
    FormatThenParse(NumberRange(3, 7));
  }

  lemma ParseBackwardsExample()
    ensures Parse("7..=3") == Err(BackwardsMessage)
  {
    var s := "7" + Separator + "3";
    assert s == "7..=3";
    FindAfterDigits("7", "3", 0);
    assert s[..1] == "7" && s[4..] == "3";
    assert SplitOnce(s) == Some(("7", "3"));
    ParseShowNat(7);
    ParseShowNat(3);
  }

  lemma ParseInvalidExamples()
    ensures Parse("abc") == Err("invalid digit found in string")
    ensures Parse("") == Err("cannot parse integer from empty string")
  {
    assert FindFrom("abc", 0) == None;
  }
}
