/**
 * Decimal text of unsigned 64-bit integers, as the backend uses it: `format!("{}", id)`
 * writes the ETag and `str::parse::<u64>` reads the id out of the URL.
 */
module Decimal {
  import opened Types

  predicate IsDigit(c: char)
  {
    '0' <= c <= '9'
  }

  predicate AllDigits(s: string)
  {
    forall i :: 0 <= i < |s| ==> IsDigit(s[i])
  }

  function DigitValue(c: char): nat
    requires IsDigit(c)
  {
    c as int - '0' as int
  }

  function DigitChar(d: nat): (c: char)
    requires d < 10
    ensures IsDigit(c) && DigitValue(c) == d
  {
    ('0' as int + d) as char
  }

  /** The number a string of decimal digits denotes (most significant digit first). */
  function Value(s: string): nat
    requires AllDigits(s)
    decreases |s|
  {
    if s == [] then 0 else Value(s[..|s| - 1]) * 10 + DigitValue(s[|s| - 1])
  }

  /** `k` zero digits. */
  function Zeros(k: nat): (z: string)
    ensures |z| == k && AllDigits(z)
  {
    seq(k, _ => '0')
  }

  /** The shortest decimal text of `n`, as Rust's `Display` for integers writes it. */
  function Format(n: nat): (s: string)
    ensures AllDigits(s) && Value(s) == n
    ensures |s| > 0 && (n > 0 ==> s[0] != '0')
    ensures n < 10 <==> |s| == 1
  {
    if n < 10 then
      [DigitChar(n)]
    else
      var p := Format(n / 10);
      var s := p + [DigitChar(n % 10)];
      assert s[..|s| - 1] == p;
      s
  }

  /** The text after an optional leading `+`: the only sign an unsigned parse accepts. */
  function Unsigned(s: string): string
  {
    if |s| > 0 && s[0] == '+' then s[1..] else s
  }

  /**
   * `str::parse::<u64>`: an optional `+`, then one or more decimal digits whose value
   * fits in 64 bits. Empty text, a lone `+`, a `-`, any other character and overflow
   * are all parse errors.
   */
  function ParseU64(s: string): Option<U64>
  {
    var digits := Unsigned(s);
    if digits == [] || !AllDigits(digits) then None
    else if Value(digits) <= U64_MAX then Some(Value(digits))
    else None
  }

  lemma {:induction false} ValueOfZeros(k: nat)
    ensures Value(Zeros(k)) == 0
  {
    if k > 0 {
      assert Zeros(k)[..k - 1] == Zeros(k - 1);
      ValueOfZeros(k - 1);
    }
  }

  lemma {:induction false} ValueZeroIsZeros(d: string)
    requires AllDigits(d) && Value(d) == 0
    ensures d == Zeros(|d|)
  {
    if d != [] {
      var p := d[..|d| - 1];
      assert Value(p) == 0 && d[|d| - 1] == '0' by {
        assert Value(d) == Value(p) * 10 + DigitValue(d[|d| - 1]);
      }
      ValueZeroIsZeros(p);
      assert d == Zeros(|p|) + ['0'];
    }
  }

  /** Leading zeros do not change the value of a digit string. */
  lemma {:induction false} ValueIgnoresLeadingZeros(k: nat, d: string)
    requires AllDigits(d)
    ensures AllDigits(Zeros(k) + d) && Value(Zeros(k) + d) == Value(d)
  {
    if d == [] {
      assert Zeros(k) + d == Zeros(k);
      ValueOfZeros(k);
    } else {
      var p := d[..|d| - 1];
      var s := Zeros(k) + d;
      assert s[..|s| - 1] == Zeros(k) + p;
      ValueIgnoresLeadingZeros(k, p);
    }
  }

  /**
   * Every non-empty digit string is the canonical text of its value preceded by zeros:
   * the text `ParseU64` accepts for `n` is `Format(n)` up to leading zeros.
   */
  lemma {:induction false} DigitsAreZerosThenFormat(d: string)
    requires AllDigits(d) && d != []
    ensures |Format(Value(d))| <= |d|
    ensures d == Zeros(|d| - |Format(Value(d))|) + Format(Value(d))
  {
    var p := d[..|d| - 1];
    var last := d[|d| - 1];
    assert d == p + [last];
    if p == [] {
      assert d == [last];
      assert Format(Value(d)) == [DigitChar(DigitValue(last))];
    } else if Value(p) == 0 {
      ValueZeroIsZeros(p);
      assert Value(d) == DigitValue(last);
      assert Format(Value(d)) == [last];
    } else {
      DigitsAreZerosThenFormat(p);
      var n := Value(d);
      assert n / 10 == Value(p) && n % 10 == DigitValue(last);
      assert Format(n) == Format(Value(p)) + [last];
    }
  }

  /** Parsing the text `Format` writes gives the number back, with or without a `+`. */
  lemma ParseFormat(n: U64)
    ensures ParseU64(Format(n)) == Some(n)
    ensures ParseU64("+" + Format(n)) == Some(n)
  {
    assert Unsigned("+" + Format(n)) == Format(n);
  }

  /** Distinct numbers have distinct decimal texts. */
  lemma FormatInjective(a: nat, b: nat)
    requires Format(a) == Format(b)
    ensures a == b
  {
  }

  /**
   * A successful parse accepted exactly an optional `+`, some leading zeros and the
   * canonical text of the result, and nothing else.
   */
  lemma ParseSuccessIsCanonical(s: string, n: U64)
    requires ParseU64(s) == Some(n)
    ensures Unsigned(s) == s || s == "+" + Unsigned(s)
    ensures |Format(n)| <= |Unsigned(s)|
    ensures Unsigned(s) == Zeros(|Unsigned(s)| - |Format(n)|) + Format(n)
  {
    DigitsAreZerosThenFormat(Unsigned(s));
  }

  /** Numbers beyond 64 bits are rejected even when their text is well formed. */
  lemma ParseRejectsOverflow(n: nat)
    requires n > U64_MAX
    ensures ParseU64(Format(n)) == None
    ensures ParseU64("+" + Format(n)) == None
  {
    assert Unsigned("+" + Format(n)) == Format(n);
  }

  /** A character other than a digit after the optional `+` makes the parse fail. */
  lemma ParseRejectsNonDigit(s: string, i: nat)
    requires i < |Unsigned(s)| && !IsDigit(Unsigned(s)[i])
    ensures ParseU64(s) == None
  {
  }

  /** Inputs the parse accepts: a plain number, a plus sign, leading zeros. */
  lemma ParseAcceptsExamples()
    ensures ParseU64("5") == Some(5)
    ensures ParseU64("+7") == Some(7)
    ensures ParseU64("007") == Some(7)
  {
    assert Format(5) == "5";
    ParseFormat(5);
    assert Format(7) == "7";
    ParseFormat(7);
    ValueIgnoresLeadingZeros(2, "7");
    assert Zeros(2) + "7" == "007";
  }

  /** Inputs the parse rejects: nothing, a lone sign, a minus sign, other characters. */
  lemma ParseRejectsExamples()
    ensures ParseU64("") == None
    ensures ParseU64("+") == None
    ensures ParseU64("-5") == None
    ensures ParseU64("12abc") == None
    ensures ParseU64("5?x=1") == None
  {
    ParseRejectsNonDigit("-5", 0);
    ParseRejectsNonDigit("12abc", 2);
    ParseRejectsNonDigit("5?x=1", 1);
  }
}
