/**
 * Unsigned 64-bit generation numbers: Rust's `str::parse::<u64>`, decimal
 * formatting with `{}` and `u64::checked_ilog10`.
 */
module Numbers {
  import opened Wrappers

  const U64_MAX: int := 0xFFFF_FFFF_FFFF_FFFF

  type u64 = x: int | 0 <= x <= U64_MAX

  predicate IsDigit(c: char)
  {
    '0' <= c <= '9'
  }

  predicate AllDigits(s: string)
  {
    forall i :: 0 <= i < |s| ==> IsDigit(s[i])
  }

  function DigitValue(c: char): nat
    requires IsDigit(c)
  {
    (c as int) - ('0' as int)
  }

  function DigitChar(d: nat): (c: char)
    requires d < 10
    ensures IsDigit(c) && DigitValue(c) == d
  {
    ('0' as int + d) as char
  }

  /** The number a string of decimal digits denotes (most significant digit first). */
  function Value(s: string): nat
    requires AllDigits(s)
  {
    if s == [] then 0 else 10 * Value(s[..|s| - 1]) + DigitValue(s[|s| - 1])
  }

  /**
   * Rust's `str::parse::<u64>`: one optional leading '+', then one or more
   * ASCII digits whose value fits in 64 bits.  A '-' is never accepted by an
   * unsigned parse; a lone '+' and the empty string are rejected.
   */
  function ParseU64(s: string): (r: Option<u64>)
    ensures r.Some? ==> s != []
    ensures r.Some? ==>
      var digits := if s[0] == '+' then s[1..] else s;
      digits != [] && AllDigits(digits) && r.value == Value(digits)
    ensures s != [] && AllDigits(s) && Value(s) <= U64_MAX ==> r == Some(Value(s))
    ensures |s| > 1 && s[0] == '+' && AllDigits(s[1..]) && Value(s[1..]) <= U64_MAX ==> r == Some(Value(s[1..]))
    ensures r.Some? ==> '-' !in s && '/' !in s
  {
    var digits := if |s| > 0 && s[0] == '+' then s[1..] else s;
    if digits != [] && AllDigits(digits) && Value(digits) <= U64_MAX then
      assert s[0] == '+' || s[0] == digits[0];
      assert forall i :: 1 <= i < |s| ==> s[i] in digits;
      Some(Value(digits))
    else
      None
  }

  /** `format!("{}", n)`: the shortest decimal spelling of `n`. */
  function Decimal(n: nat): (r: string)
    ensures |r| >= 1 && AllDigits(r)
    ensures r[0] != '+'
  {
    if n < 10 then [DigitChar(n)] else Decimal(n / 10) + [DigitChar(n % 10)]
  }

  /** Reading back a decimal spelling gives the number it spells. */
  lemma {:induction false} ValueOfDecimal(n: nat)
    ensures Value(Decimal(n)) == n
  {
    if n >= 10 {
      var d := Decimal(n);
      assert d[..|d| - 1] == Decimal(n / 10);
      ValueOfDecimal(n / 10);
    }
  }

  /** Parsing is the inverse of formatting on every u64, with or without a leading '+'. */
  lemma ParseDecimal(n: u64)
    ensures ParseU64(Decimal(n)) == Some(n)
    ensures ParseU64("+" + Decimal(n)) == Some(n)
  {
    ValueOfDecimal(n);
    assert ("+" + Decimal(n))[1..] == Decimal(n);
  }

  /** A spelling of a number beyond 2^64 - 1 is rejected, not wrapped. */
  lemma ParseRejectsOverflow(n: nat)
    requires n > U64_MAX
    ensures ParseU64(Decimal(n)) == None
  {
    ValueOfDecimal(n);
  }

  /** Leading zeros are accepted and do not change the value. */
  lemma {:induction false} ValueLeadingZero(s: string)
    requires AllDigits(s)
    ensures AllDigits("0" + s) && Value("0" + s) == Value(s)
  {
    if s != [] {
      assert ("0" + s)[..|s|] == "0" + s[..|s| - 1];
      ValueLeadingZero(s[..|s| - 1]);
    }
  }

  lemma ParseLeadingZero(s: string)
    requires s != [] && AllDigits(s)
    ensures ParseU64("0" + s) == ParseU64(s)
  {
    ValueLeadingZero(s);
  }

  /** `n.checked_ilog10()` for a positive `n`: the floor of its base-10 logarithm. */
  function ILog10(n: nat): nat
    requires n >= 1
  {
    if n < 10 then 0 else 1 + ILog10(n / 10)
  }

  /** The decimal spelling of a positive number has `1 + ilog10` digits. */
  lemma {:induction false} DecimalLength(n: nat)
    requires n >= 1
    ensures |Decimal(n)| == 1 + ILog10(n)
  {
    if n >= 10 {
      DecimalLength(n / 10);
    }
  }

  /** A smaller number never needs more digits. */
  lemma {:induction false} DecimalLengthMonotonic(a: nat, b: nat)
    requires a <= b
    ensures |Decimal(a)| <= |Decimal(b)|
  {
    if a >= 10 {
      DecimalLengthMonotonic(a / 10, b / 10);
    }
  }

  /** `format!("{: >w$}", s)`: `s` right-aligned in a field of at least `w` characters. */
  function PadLeft(s: string, w: nat): (r: string)
    ensures |r| == if |s| < w then w else |s|
    ensures forall i :: 0 <= i < |r| - |s| ==> r[i] == ' '
    ensures r[|r| - |s|..] == s
  {
    if |s| < w then seq(w - |s|, _ => ' ') + s else s
  }
}
