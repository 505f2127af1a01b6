/** 32-bit signed integers and their decimal text, as Rust's `i32` and
    `str::parse::<i32>` treat them. */
module Decimal {
  import opened Wrappers

  const I32Min: int := -0x8000_0000
  const I32Max: int := 0x7fff_ffff

  /** Rust's `i32`. */
  type Int32 = x: int | I32Min <= x <= I32Max

  predicate IsDigit(c: char) {
    '0' <= c <= '9'
  }

  predicate AllDigits(s: string) {
    forall i :: 0 <= i < |s| ==> IsDigit(s[i])
  }

  function DigitValue(c: char): (d: nat)
    requires IsDigit(c)
    ensures d < 10
  {
    c as int - '0' as int
  }

  function DigitChar(d: nat): (c: char)
    requires d < 10
    ensures IsDigit(c) && DigitValue(c) == d
  {
    ('0' as int + d) as char
  }

  /** The number denoted by a run of decimal digits, most significant first. */
  function DigitsValue(s: string): nat
    requires AllDigits(s)
    decreases |s|
  {
    if |s| == 0 then 0 else 10 * DigitsValue(s[..|s| - 1]) + DigitValue(s[|s| - 1])
  }

  /** The shortest decimal digits of `n`. */
  function NatDigits(n: nat): (r: string)
    ensures |r| > 0 && AllDigits(r)
    decreases n
  {
    if n < 10 then [DigitChar(n)] else NatDigits(n / 10) + [DigitChar(n % 10)]
  }

  /** The decimal text of `n`, with a leading '-' when negative (Rust's
      `i32::to_string`, and the way the kernel prints the capacity entry). */
  function RenderI32(n: Int32): (r: string)
    ensures |r| > 0 && IsDigit(r[|r| - 1])
  {
    if n < 0 then "-" + NatDigits(-(n as int)) else NatDigits(n)
  }

  /** `str::parse::<i32>`: an optional '+' or '-' followed by at least one
      decimal digit and nothing else, whose value fits in 32 bits. */
  function ParseI32(s: string): (r: Option<Int32>)
    ensures |s| == 0 ==> r.None?
    ensures s == "+" || s == "-" ==> r.None?
    ensures r.Some? ==> AllDigits(s[1..]) && (IsDigit(s[0]) || s[0] == '+' || s[0] == '-')
    ensures r.Some? && r.value < 0 ==> s[0] == '-'
    ensures |s| > 0 && AllDigits(s) && DigitsValue(s) <= I32Max ==> r == Some(DigitsValue(s))
    ensures |s| > 1 && s[0] == '-' && AllDigits(s[1..]) && DigitsValue(s[1..]) <= I32Max + 1 ==>
      r == Some(-(DigitsValue(s[1..]) as int))
  {
    if |s| == 0 then None
    else
      var digits := if s[0] == '-' || s[0] == '+' then s[1..] else s;
      if |digits| == 0 || !AllDigits(digits) then None
      else
        var magnitude: int := DigitsValue(digits);
        var v: int := if s[0] == '-' then -magnitude else magnitude;
        if I32Min <= v <= I32Max then Some(v) else None
  }

  lemma {:induction false} DigitsValueOfNatDigits(n: nat)
    ensures DigitsValue(NatDigits(n)) == n
    decreases n
  {
    if n >= 10 {
      var x := NatDigits(n / 10);
      var s := x + [DigitChar(n % 10)];
      assert s[..|s| - 1] == x;
      DigitsValueOfNatDigits(n / 10);
    }
  }

  /** Parsing the rendered text of any `i32` gives it back. */
  lemma ParseRenderRoundTrip(n: Int32)
    ensures ParseI32(RenderI32(n)) == Some(n)
  {
    var s := RenderI32(n);
    if n < 0 {
      var m: nat := -(n as int);
      assert s == "-" + NatDigits(m);
      assert s[0] == '-' && s[1..] == NatDigits(m);
      DigitsValueOfNatDigits(m);
    } else {
      assert s == NatDigits(n);
      assert IsDigit(s[0]);
      DigitsValueOfNatDigits(n);
    }
  }

  /** Any digit run, leading zeros allowed, after no sign, '+' or '-',
      parses to its signed value when that fits in 32 bits and is rejected
      otherwise. */
  lemma ParseSignedDigits(sign: string, d: string)
    requires sign == "" || sign == "+" || sign == "-"
    requires |d| > 0 && AllDigits(d)
    ensures var v := if sign == "-" then -(DigitsValue(d) as int) else DigitsValue(d) as int;
      ParseI32(sign + d) == if I32Min <= v <= I32Max then Some(v) else None
  {
    var s := sign + d;
    if sign == "" {
      assert s == d;
      assert IsDigit(s[0]) && s[0] != '-' && s[0] != '+';
    } else if sign == "+" {
      assert s[0] == '+' && s[1..] == d;
    } else {
      assert s[0] == '-' && s[1..] == d;
    }
  }

  /** Values outside the `i32` range are rejected rather than wrapped: a
      magnitude above 2147483647 without '-', or above 2147483648 after it. */
  lemma ParseRejectsOverflow(d: string)
    requires |d| > 0 && AllDigits(d)
    ensures DigitsValue(d) > I32Max ==> ParseI32(d) == None && ParseI32("+" + d) == None
    ensures DigitsValue(d) > I32Max + 1 ==> ParseI32("-" + d) == None
  {
    ParseSignedDigits("", d);
    assert "" + d == d;
    ParseSignedDigits("+", d);
    ParseSignedDigits("-", d);
  }

  /** A character other than a digit, or a sign anywhere but first, is rejected. */
  lemma ParseRejectsForeignCharacter(s: string, i: int)
    requires 0 <= i < |s| && !IsDigit(s[i])
    requires i > 0 || (s[i] != '+' && s[i] != '-')
    ensures ParseI32(s) == None
  {
  }
}
