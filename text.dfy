/**
 * The pieces of Rust's standard text handling that the timer relies on:
 * `{}` and `{:02}` formatting of unsigned integers, `str::split` on one
 * character, `str::trim`, and `str::parse::<u64>`.
 */
module Text {
  import opened Wrappers

  /** Largest value of Rust's `u64`. */
  const U64_MAX: nat := 0xFFFF_FFFF_FFFF_FFFF

  predicate IsDigit(c: char) {
    '0' <= c <= '9'
  }

  predicate AllDigits(s: string) {
    forall i | 0 <= i < |s| :: IsDigit(s[i])
  }

  function DigitValue(c: char): nat
    requires IsDigit(c)
  {
    c as int - '0' as int
  }

  function DigitChar(d: nat): (c: char)
    requires d < 10
    ensures IsDigit(c) && DigitValue(c) == d
  {
    ('0' as int + d) as char
  }

  /** Value of a string of decimal digits, most significant digit first. */
  function DigitsValue(s: string): nat
    requires AllDigits(s)
  {
    if |s| == 0 then 0 else DigitsValue(s[..|s| - 1]) * 10 + DigitValue(s[|s| - 1])
  }

  /** Rust's `{}` for an unsigned integer: its decimal digits, without a leading zero. */
  function Decimal(n: nat): (s: string)
    ensures 1 <= |s| && AllDigits(s) && DigitsValue(s) == n
    ensures s[0] == '0' ==> n == 0 && |s| == 1
  {
    if n < 10 then [DigitChar(n)]
    else
      var s := Decimal(n / 10) + [DigitChar(n % 10)];
      assert s[..|s| - 1] == Decimal(n / 10);
      s
  }

  /** Rust's `{:02}`: the decimal digits, padded with a leading zero to width two. */
  function Pad2(n: nat): (s: string)
    ensures 2 <= |s| && AllDigits(s) && DigitsValue(s) == n
    ensures n < 100 ==> |s| == 2
  {
    if n < 10 then
      var s := ['0'] + Decimal(n);
      assert s[..1] == ['0'];
      s
    else
      assert n < 100 ==> |Decimal(n / 10)| == 1;
      Decimal(n)
  }

  /** Rust's `char::is_whitespace`: the characters with the Unicode White_Space property. */
  predicate IsWhitespace(c: char) {
    || '\t' <= c <= '\r'
    || c == ' '
    || c == '\U{85}'
    || c == '\U{A0}'
    || c == '\U{1680}'
    || '\U{2000}' <= c <= '\U{200A}'
    || c == '\U{2028}'
    || c == '\U{2029}'
    || c == '\U{202F}'
    || c == '\U{205F}'
    || c == '\U{3000}'
  }

  /** Rust's `str::trim_start`: drops leading whitespace. */
  function TrimStart(s: string): string {
    if |s| > 0 && IsWhitespace(s[0]) then TrimStart(s[1..]) else s
  }

  /** Rust's `str::trim_end`: drops trailing whitespace. */
  function TrimEnd(s: string): string {
    if |s| > 0 && IsWhitespace(s[|s| - 1]) then TrimEnd(s[..|s| - 1]) else s
  }

  /**
   * `trim_start` keeps a suffix, everything it drops is whitespace, and what it
   * keeps does not start with whitespace.
   */
  lemma {:induction false} TrimStartKeepsSuffix(s: string)
    ensures |TrimStart(s)| <= |s| && TrimStart(s) == s[|s| - |TrimStart(s)|..]
    ensures forall i | 0 <= i < |s| - |TrimStart(s)| :: IsWhitespace(s[i])
    ensures TrimStart(s) == [] || !IsWhitespace(TrimStart(s)[0])
  {
    if |s| > 0 && IsWhitespace(s[0]) {
      TrimStartKeepsSuffix(s[1..]);
    }
  }

  /**
   * `trim_end` keeps a prefix, everything it drops is whitespace, and what it
   * keeps does not end with whitespace.
   */
  lemma {:induction false} TrimEndKeepsPrefix(s: string)
    ensures |TrimEnd(s)| <= |s| && TrimEnd(s) == s[..|TrimEnd(s)|]
    ensures forall i | |TrimEnd(s)| <= i < |s| :: IsWhitespace(s[i])
    ensures TrimEnd(s) == [] || !IsWhitespace(TrimEnd(s)[|TrimEnd(s)| - 1])
  {
    if |s| > 0 && IsWhitespace(s[|s| - 1]) {
      TrimEndKeepsPrefix(s[..|s| - 1]);
    }
  }

  /** Rust's `str::trim`. */
  function Trim(s: string): string {
    TrimEnd(TrimStart(s))
  }

  /** A string with no whitespace at either end is its own trim. */
  lemma TrimUnchanged(s: string)
    requires s == [] || (!IsWhitespace(s[0]) && !IsWhitespace(s[|s| - 1]))
    ensures Trim(s) == s
  {
  }

  /** The pieces joined back with the separator between them. */
  function Join(parts: seq<string>, sep: char): string
    requires |parts| >= 1
  {
    if |parts| == 1 then parts[0] else parts[0] + [sep] + Join(parts[1..], sep)
  }

  /**
   * Rust's `str::split` on one character, collected: the maximal runs without the
   * separator, in order. There is always at least one piece (`""` gives `[""]`).
   */
  function Split(s: string, sep: char): (parts: seq<string>)
    ensures |parts| >= 1
    ensures forall i | 0 <= i < |parts| :: sep !in parts[i]
    ensures Join(parts, sep) == s
  {
    if |s| == 0 then [""]
    else
      var rest := Split(s[1..], sep);
      if s[0] == sep then
        var parts := [""] + rest;
        assert parts[1..] == rest;
        assert s == [sep] + s[1..];
        parts
      else
        var parts := [[s[0]] + rest[0]] + rest[1..];
        assert |rest| > 1 ==> parts[1..] == rest[1..];
        assert s == [s[0]] + s[1..];
        parts
  }

  /** Splitting after a separator-free prefix peels that prefix off as the first piece. */
  lemma {:induction false} SplitPrefix(a: string, sep: char, b: string)
    requires sep !in a
    ensures Split(a + [sep] + b, sep) == [a] + Split(b, sep)
  {
    if a != [] {
      assert (a + [sep] + b)[1..] == a[1..] + [sep] + b;
      SplitPrefix(a[1..], sep, b);
      assert [a[0]] + a[1..] == a;
    } else {
      assert ([] + [sep] + b)[1..] == b;
    }
  }

  /** A string without the separator is a single piece. */
  lemma {:induction false} SplitWhole(a: string, sep: char)
    requires sep !in a
    ensures Split(a, sep) == [a]
  {
    if a != [] {
      SplitWhole(a[1..], sep);
      assert [a[0]] + a[1..] == a;
    }
  }

  /** Two separator-free pieces joined by the separator split back into those pieces. */
  lemma SplitTwo(a: string, b: string, sep: char)
    requires sep !in a && sep !in b
    ensures Split(a + [sep] + b, sep) == [a, b]
  {
    SplitPrefix(a, sep, b);
    SplitWhole(b, sep);
  }

  /** Three separator-free pieces joined by the separator split back into those pieces. */
  lemma SplitThree(a: string, b: string, c: string, sep: char)
    requires sep !in a && sep !in b && sep !in c
    ensures Split(a + [sep] + b + [sep] + c, sep) == [a, b, c]
  {
    assert a + [sep] + b + [sep] + c == a + [sep] + (b + [sep] + c);
    SplitPrefix(a, sep, b + [sep] + c);
    SplitTwo(b, c, sep);
  }

  /** A string of digits holds no character that is not a digit. */
  lemma DigitsExclude(s: string, c: char)
    requires AllDigits(s) && !IsDigit(c)
    ensures c !in s
  {
  }

  /**
   * The digit loop of Rust's `u64` parser, most significant digit first: every
   * character must be a digit, and the running value must stay within `u64`.
   */
  function AccumulateDigits(s: string): Option<nat> {
    if |s| == 0 then Some(0)
    else
      match AccumulateDigits(s[..|s| - 1])
      case None => None
      case Some(v) =>
        if !IsDigit(s[|s| - 1]) || v * 10 + DigitValue(s[|s| - 1]) > U64_MAX then None
        else Some(v * 10 + DigitValue(s[|s| - 1]))
  }

  /** The digit loop succeeds exactly on all-digit strings whose value fits, with that value. */
  lemma {:induction false} AccumulateDigitsValue(s: string)
    ensures AccumulateDigits(s) ==
      if AllDigits(s) && DigitsValue(s) <= U64_MAX then Some(DigitsValue(s)) else None
  {
    if |s| > 0 {
      var p := s[..|s| - 1];
      AccumulateDigitsValue(p);
      if AllDigits(s) {
        assert AllDigits(p);
      } else if AllDigits(p) {
        assert !IsDigit(s[|s| - 1]);
      }
    }
  }

  /**
   * Rust's `str::parse::<u64>`: an optional leading `+`, then one or more ASCII
   * digits whose value fits in a `u64`. A lone sign, a `-`, an empty string, any
   * other character or an overflowing value is an error.
   */
  function ParseU64(s: string): Option<nat> {
    var digits := if |s| > 0 && s[0] == '+' then s[1..] else s;
    if |digits| == 0 then None else AccumulateDigits(digits)
  }

  /** A parsed value fits in a `u64` and is the value of the digits after the optional sign. */
  lemma ParseU64Value(s: string)
    ensures ParseU64(s).Some? <==>
      var digits := if |s| > 0 && s[0] == '+' then s[1..] else s;
      |digits| > 0 && AllDigits(digits) && DigitsValue(digits) <= U64_MAX
    ensures ParseU64(s).Some? ==>
      var digits := if |s| > 0 && s[0] == '+' then s[1..] else s;
      ParseU64(s).value == DigitsValue(digits) <= U64_MAX
  {
    var digits := if |s| > 0 && s[0] == '+' then s[1..] else s;
    AccumulateDigitsValue(digits);
  }

  /** Parsing reads back what `{}` printed, and also what `{:02}` printed. */
  lemma ParseDecimal(n: nat)
    requires n <= U64_MAX
    ensures ParseU64(Decimal(n)) == Some(n)
    ensures ParseU64(Pad2(n)) == Some(n)
    ensures Trim(Decimal(n)) == Decimal(n) && Trim(Pad2(n)) == Pad2(n)
  {
    var d, p := Decimal(n), Pad2(n);
    assert IsDigit(d[0]) && IsDigit(d[|d| - 1]);
    assert IsDigit(p[0]) && IsDigit(p[|p| - 1]);
    TrimUnchanged(d);
    TrimUnchanged(p);
    AccumulateDigitsValue(d);
    AccumulateDigitsValue(p);
  }

  /** A leading `+` is accepted and does not change the value. */
  lemma ParsePlusSign(n: nat)
    requires n <= U64_MAX
    ensures ParseU64(['+'] + Decimal(n)) == Some(n)
  {
    assert (['+'] + Decimal(n))[1..] == Decimal(n);
    AccumulateDigitsValue(Decimal(n));
  }
}
