/** Small shared vocabulary of the models. */
module Common {

  datatype Option<+T> = None | Some(value: T) {
    function GetOr(default: T): T {
      if None? then default else value
    }
  }

  function Max(a: int, b: int): (m: int)
    ensures m == a || m == b
    ensures m >= a && m >= b
  {
    if a >= b then a else b
  }

  function Min(a: int, b: int): (m: int)
    ensures m == a || m == b
    ensures m <= a && m <= b
  {
    if a <= b then a else b
  }

  type Byte = b: int | 0 <= b < 256
  type Bytes = seq<Byte>

  /** White space in JavaScript: what `trim` removes and `\s` matches. */
  predicate IsSpace(u: int) {
    0x09 <= u <= 0x0d || u == 0x20 || u == 0xa0 || u == 0x1680 || 0x2000 <= u <= 0x200a
    || u == 0x2028 || u == 0x2029 || u == 0x202f || u == 0x205f || u == 0x3000 || u == 0xfeff
  }

  // ---------------------------------------------------------------- arithmetic

  function Pow2(n: nat): (p: nat)
    ensures p > 0
  {
    if n == 0 then 1 else 2 * Pow2(n - 1)
  }

  lemma Commutes(a: int, b: int)
    ensures a * b == b * a
  {
  }

  lemma AtLeast(d: int, e: int)
    requires d > 0
    ensures e >= 1 ==> d * e >= d
  {
  }

  lemma QuotientRemainder(x: nat, d: nat)
    requires d > 0
    ensures x == (x / d) * d + x % d && 0 <= x % d < d && 0 <= x / d <= x
  {
    var q := x / d;
    assert x == d * q + x % d;
    AtLeast(d, -q);
    Grows(d, q);
  }

  lemma Grows(d: int, e: int)
    requires d > 0
    ensures e >= 0 ==> d * e >= e
  {
  }

  /** Quotient and remainder are determined by the division equation. */
  lemma QuotientUnique(x: int, d: int, q: int, r: int)
    requires d > 0 && x == d * q + r && 0 <= r < d
    ensures x / d == q && x % d == r
  {
    var e := x / d - q;
    assert d * e == d * (x / d) - d * q == r - x % d;
    assert d * (-e) == x % d - r;
    AtLeast(d, e);
    AtLeast(d, -e);
  }

  // ---------------------------------------------------------------- decimal numerals

  predicate IsDecimalDigit(c: char) { '0' <= c <= '9' }

  function DecimalValue(s: string): nat
    requires forall i :: 0 <= i < |s| ==> IsDecimalDigit(s[i])
  {
    if s == "" then 0
    else
      assert IsDecimalDigit(s[|s| - 1]);
      10 * DecimalValue(s[..|s| - 1]) + (s[|s| - 1] as int - '0' as int)
  }

  /** `String(n)`. */
  function Decimal(n: nat): (s: string)
    ensures s != "" && forall i :: 0 <= i < |s| ==> IsDecimalDigit(s[i])
  {
    (if n < 10 then "" else Decimal(n / 10)) + [('0' as int + n % 10) as char]
  }

  lemma {:induction false} DecimalRoundTrip(n: nat)
    ensures DecimalValue(Decimal(n)) == n
    ensures n > 0 ==> Decimal(n)[0] != '0'
    ensures n < 10 ==> |Decimal(n)| == 1
    ensures 10 <= n < 100 ==> |Decimal(n)| == 2
    ensures 100 <= n < 1000 ==> |Decimal(n)| == 3
  {
    var s := Decimal(n);
    if n >= 10 {
      DecimalRoundTrip(n / 10);
      assert s[..|s| - 1] == Decimal(n / 10);
    } else {
      assert s[..0] == "";
    }
  }
}
