/** Fixed-width integer arithmetic of C# (`int`, `long`, `uint`) and the
    decimal rendering (`ToString()`) and parsing (`TryParse`) of integers
    with the invariant number format. */
module Numbers {
  import opened Wrappers

  const TWO_32: int := 0x1_0000_0000
  const TWO_63: int := 0x8000_0000_0000_0000
  const TWO_64: int := 0x1_0000_0000_0000_0000

  predicate IsInt32(x: int) { -TWO_32 / 2 <= x < TWO_32 / 2 }
  predicate IsInt64(x: int) { -TWO_63 <= x < TWO_63 }
  predicate IsUInt32(x: int) { 0 <= x < TWO_32 }

  /** The `int` that unchecked 32-bit arithmetic produces for the exact value `x`. */
  function Wrap32(x: int): (r: int)
    ensures IsInt32(r)
    ensures (r - x) % TWO_32 == 0
    ensures IsInt32(x) ==> r == x
  {
    (x + TWO_32 / 2) % TWO_32 - TWO_32 / 2
  }

  /** The `long` that unchecked 64-bit arithmetic produces for the exact value `x`. */
  function Wrap64(x: int): (r: int)
    ensures IsInt64(r)
    ensures (r - x) % TWO_64 == 0
    ensures IsInt64(x) ==> r == x
  {
    (x + TWO_63) % TWO_64 - TWO_63
  }

  /** Two `long`s that agree modulo 2^64 are the same `long`. */
  lemma SameLong(x: int, y: int)
    requires IsInt64(x) && IsInt64(y) && (x - y) % TWO_64 == 0
    ensures x == y
  {
    var d := x - y;
    assert -TWO_64 < d < TWO_64;
    assert d == (d / TWO_64) * TWO_64;
  }

  /** Wrapping before an addition does not change the wrapped sum. */
  lemma Wrap64Add(a: int, n: int)
    ensures Wrap64(Wrap64(a) + n) == Wrap64(a + n)
  {
    var w := Wrap64(a);
    var lhs := Wrap64(w + n);
    var rhs := Wrap64(a + n);
    assert (w - a) % TWO_64 == 0;
    assert (lhs - (w + n)) % TWO_64 == 0;
    assert (rhs - (a + n)) % TWO_64 == 0;
    assert lhs - rhs == (lhs - (w + n)) + (w - a) - (rhs - (a + n));
    SameLong(lhs, rhs);
  }

  /** C#'s integer division by a positive divisor, which truncates toward zero. */
  function TruncDiv(a: int, b: int): (q: int)
    requires b > 0
    ensures a >= 0 ==> q == a / b
    ensures a < 0 ==> q == -((-a) / b)
  {
    if a >= 0 then a / b else -((-a) / b)
  }

  predicate IsDigit(c: char) { '0' <= c <= '9' }

  predicate AllDigits(s: string) { forall k :: 0 <= k < |s| ==> IsDigit(s[k]) }

  function DigitChar(d: nat): (c: char)
    requires d < 10
    ensures IsDigit(c)
  {
    ('0' as int + d) as char
  }

  function DigitValue(c: char): (d: nat)
    requires IsDigit(c)
    ensures d < 10
  {
    c as int - '0' as int
  }

  /** The value of a string of decimal digits, most significant first. */
  function DigitsValue(s: string): nat
    requires AllDigits(s)
  {
    if s == [] then 0 else DigitsValue(s[..|s| - 1]) * 10 + DigitValue(s[|s| - 1])
  }

  /** `n.ToString()` for a non-negative integer: its shortest decimal form. */
  function NatToString(n: nat): (r: string)
    ensures |r| >= 1 && AllDigits(r)
    ensures |r| > 1 ==> r[0] != '0'
  {
    if n < 10 then [DigitChar(n)] else NatToString(n / 10) + [DigitChar(n % 10)]
  }

  /** `i.ToString()` for any integer: a minus sign before the magnitude. */
  function IntToString(i: int): (r: string)
    ensures i >= 0 ==> r == NatToString(i)
    ensures i < 0 ==> r == "-" + NatToString(-i)
  {
    if i >= 0 then NatToString(i) else "-" + NatToString(-i)
  }

  /** Rendering in decimal and reading the digits back gives the number. */
  lemma {:induction false} DigitsValueOfNatToString(n: nat)
    ensures DigitsValue(NatToString(n)) == n
  {
    var r := NatToString(n);
    if n >= 10 {
      DigitsValueOfNatToString(n / 10);
      assert r[..|r| - 1] == NatToString(n / 10);
    }
  }

  /** Two numbers with the same decimal rendering are equal. */
  lemma NatToStringInjective(m: nat, n: nat)
    requires NatToString(m) == NatToString(n)
    ensures m == n
  {
    DigitsValueOfNatToString(m);
    DigitsValueOfNatToString(n);
  }

  /** The white space `NumberStyles.Integer` allows around a number. */
  predicate IsNumberWhite(c: char) { c == ' ' || ('\t' <= c <= '\r') }

  function TrimNumberWhiteStart(s: string): (r: string)
    ensures r == [] || !IsNumberWhite(r[0])
    ensures (s == [] || !IsNumberWhite(s[0])) ==> r == s
  {
    if s != [] && IsNumberWhite(s[0]) then TrimNumberWhiteStart(s[1..]) else s
  }

  function TrimNumberWhiteEnd(s: string): (r: string)
    ensures r == [] || !IsNumberWhite(r[|r| - 1])
    ensures (s == [] || !IsNumberWhite(s[|s| - 1])) ==> r == s
  {
    if s != [] && IsNumberWhite(s[|s| - 1]) then TrimNumberWhiteEnd(s[..|s| - 1]) else s
  }

  /** The integer `s` denotes under `NumberStyles.Integer` (leading and
      trailing white space, an optional `+` or `-`, then decimal digits),
      before any range check; `None` when `s` is not of that form. */
  function ParseInteger(s: string): Option<int>
  {
    var t := TrimNumberWhiteEnd(TrimNumberWhiteStart(s));
    if t == [] then None
    else if t[0] == '-' || t[0] == '+' then
      var d := t[1..];
      if d != [] && AllDigits(d) then
        var magnitude: int := DigitsValue(d);
        Some(if t[0] == '-' then -magnitude else magnitude)
      else None
    else if AllDigits(t) then Some(DigitsValue(t))
    else None
  }

  /** `uint.TryParse(s, out v)`: `Some(v)` on success, `None` on failure. */
  function TryParseUInt32(s: string): (r: Option<int>)
    ensures r.Some? ==> IsUInt32(r.value)
  {
    match ParseInteger(s)
    case Some(v) => if IsUInt32(v) then Some(v) else None
    case None => None
  }

  /** `long.TryParse(s, out v)`: `Some(v)` on success, `None` on failure. */
  function TryParseInt64(s: string): (r: Option<int>)
    ensures r.Some? ==> IsInt64(r.value)
  {
    match ParseInteger(s)
    case Some(v) => if IsInt64(v) then Some(v) else None
    case None => None
  }

  /** Parsing reads back what `ToString()` rendered. */
  lemma ParseIntegerOfNatToString(n: nat)
    ensures ParseInteger(NatToString(n)) == Some(n)
  {
    var r := NatToString(n);
    assert !IsNumberWhite(r[0]) && !IsNumberWhite(r[|r| - 1]);
    assert TrimNumberWhiteEnd(TrimNumberWhiteStart(r)) == r;
    DigitsValueOfNatToString(n);
  }

  lemma TryParseUInt32OfNatToString(n: nat)
    requires IsUInt32(n)
    ensures TryParseUInt32(NatToString(n)) == Some(n)
  {
    ParseIntegerOfNatToString(n);
  }

  lemma TryParseInt64OfIntToString(i: int)
    requires IsInt64(i)
    ensures TryParseInt64(IntToString(i)) == Some(i)
  {
    if i >= 0 {
      ParseIntegerOfNatToString(i);
    } else {
      var r := IntToString(i);
      var d := NatToString(-i);
      assert r[0] == '-' && r[1..] == d;
      assert !IsNumberWhite(r[0]) && !IsNumberWhite(r[|r| - 1]);
      assert TrimNumberWhiteEnd(TrimNumberWhiteStart(r)) == r;
      DigitsValueOfNatToString(-i);
    }
  }
}
