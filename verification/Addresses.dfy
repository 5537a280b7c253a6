/** Parsing of IP address literals (apps/worker/src/security/network.ts). */
module Addresses {
  import opened Common

  // ---------------------------------------------------------------- splitting and joining

  predicate Has(s: string, c: char) { exists i :: 0 <= i < |s| && s[i] == c }

  function LastIndexOf(s: string, c: char): (r: int)
    ensures -1 <= r < |s|
    ensures r == -1 <==> !Has(s, c)
    ensures r >= 0 ==> s[r] == c && forall i :: r < i < |s| ==> s[i] != c
  {
    if s == "" then -1
    else if s[|s| - 1] == c then |s| - 1
    else
      var r := LastIndexOf(s[..|s| - 1], c);
      assert Has(s, c) ==> Has(s[..|s| - 1], c);
      r
  }

  /** `s.split(sep)`. */
  function Split(s: string, sep: char): (parts: seq<string>)
    ensures parts != []
  {
    var i := LastIndexOf(s, sep);
    if i < 0 then [s] else Split(s[..i], sep) + [s[i + 1..]]
  }

  function Join(parts: seq<string>, sep: char): string {
    if parts == [] then ""
    else if |parts| == 1 then parts[0]
    else Join(parts[..|parts| - 1], sep) + [sep] + parts[|parts| - 1]
  }

  lemma SplitAppend(a: string, b: string, sep: char)
    requires !Has(b, sep)
    ensures Split(a + [sep] + b, sep) == Split(a, sep) + [b]
  {
    var s := a + [sep] + b;
    var i := LastIndexOf(s, sep);
    assert s[|a|] == sep;
    assert forall k :: |a| < k < |s| ==> s[k] == b[k - |a| - 1];
    assert i == |a| && s[..i] == a && s[i + 1..] == b;
  }

  lemma {:induction false} SplitJoin(parts: seq<string>, sep: char)
    requires parts != [] && forall k :: 0 <= k < |parts| ==> !Has(parts[k], sep)
    ensures Split(Join(parts, sep), sep) == parts
  {
    if |parts| > 1 {
      SplitJoin(parts[..|parts| - 1], sep);
      SplitAppend(Join(parts[..|parts| - 1], sep), parts[|parts| - 1], sep);
    }
  }

  lemma {:induction false} JoinSplit(s: string, sep: char)
    ensures Join(Split(s, sep), sep) == s
    ensures forall k :: 0 <= k < |Split(s, sep)| ==> !Has(Split(s, sep)[k], sep)
    decreases |s|
  {
    var i := LastIndexOf(s, sep);
    if i >= 0 {
      JoinSplit(s[..i], sep);
      var parts := Split(s[..i], sep) + [s[i + 1..]];
      assert parts[..|parts| - 1] == Split(s[..i], sep);
      assert s == s[..i] + [sep] + s[i + 1..];
    }
  }

  // ---------------------------------------------------------------- IPv4

  /** `0|[1-9]\d{0,2}`. */
  predicate IsOctetText(s: string) {
    1 <= |s| <= 3 && (forall i :: 0 <= i < |s| ==> IsDecimalDigit(s[i])) && (s[0] == '0' ==> |s| == 1)
  }

  lemma OctetRoundTrip(n: Byte)
    ensures IsOctetText(Decimal(n)) && DecimalValue(Decimal(n)) == n
  {
    DecimalRoundTrip(n);
  }

  lemma {:induction false} OctetTextUnique(s: string)
    requires s != "" && (forall i :: 0 <= i < |s| ==> IsDecimalDigit(s[i])) && (s[0] == '0' ==> |s| == 1)
    ensures s == Decimal(DecimalValue(s))
    ensures s[0] != '0' ==> DecimalValue(s) > 0
  {
    hide Decimal, DecimalValue;
    var t, c := s[..|s| - 1], s[|s| - 1];
    assert s == t + [c];
    LastDigitValue(s);
    DigitAppended(DecimalValue(t), c);
    if t != "" {
      assert t[0] == s[0];
      OctetTextUnique(t);
    }
  }

  lemma LastDigitValue(s: string)
    requires s != "" && forall i :: 0 <= i < |s| ==> IsDecimalDigit(s[i])
    ensures var t, c := s[..|s| - 1], s[|s| - 1];
            IsDecimalDigit(c) && DecimalValue(s) == 10 * DecimalValue(t) + (c as int - '0' as int) && (t == "" ==> DecimalValue(t) == 0)
  {
    assert IsDecimalDigit(s[|s| - 1]);
  }

  lemma DigitAppended(v: nat, c: char)
    requires IsDecimalDigit(c)
    ensures var d := c as int - '0' as int;
            Decimal(10 * v + d) == (if v == 0 then "" else Decimal(v)) + [c]
  {
    var d := c as int - '0' as int;
    var n := 10 * v + d;
    assert n / 10 == v && n % 10 == d;
    assert ('0' as int + d) as char == c;
  }

  /** `parseIpv4`: the regular expression, split at its dots, and the bound on each octet. */
  function ParseIpv4(s: string): (r: Option<Bytes>)
    ensures r.Some? ==> |r.value| == 4
  {
    var p := Split(s, '.');
    if |p| != 4 || exists k :: 0 <= k < 4 && !IsOctetText(p[k]) then None
    else if exists k :: 0 <= k < 4 && DecimalValue(p[k]) > 255 then None
    else Some([DecimalValue(p[0]), DecimalValue(p[1]), DecimalValue(p[2]), DecimalValue(p[3])])
  }

  function PrintIpv4(b: Bytes): string
    requires |b| == 4
  {
    Decimal(b[0]) + "." + Decimal(b[1]) + "." + Decimal(b[2]) + "." + Decimal(b[3])
  }

  lemma JoinFour(a: string, b: string, c: string, d: string, sep: char)
    ensures Join([a, b, c, d], sep) == a + [sep] + b + [sep] + c + [sep] + d
  {
    assert [a, b, c, d][..3] == [a, b, c] && [a, b, c][..2] == [a, b] && [a, b][..1] == [a];
    assert Join([a, b], sep) == a + [sep] + b;
    assert Join([a, b, c], sep) == a + [sep] + b + [sep] + c;
  }

  /** Each address has exactly one accepted dotted-quad text: the printed one. */
  lemma Ipv4Exact(s: string, b: Bytes)
    requires |b| == 4
    ensures ParseIpv4(s) == Some(b) <==> s == PrintIpv4(b)
  {
    hide Decimal, DecimalValue, Split, Join, IsOctetText;
    var q := seq(4, k requires 0 <= k < 4 => Decimal(b[k]));
    assert q == [Decimal(b[0]), Decimal(b[1]), Decimal(b[2]), Decimal(b[3])];
    JoinFour(q[0], q[1], q[2], q[3], '.');
    SplitJoin(q, '.');
    forall k | 0 <= k < 4 ensures IsOctetText(q[k]) && DecimalValue(q[k]) == b[k] { OctetRoundTrip(b[k]); }
    assert b == [b[0], b[1], b[2], b[3]];
    assert Join(q, '.') == PrintIpv4(b);
    if s == PrintIpv4(b) {
      assert Split(s, '.') == q && !exists k :: 0 <= k < 4 && !IsOctetText(q[k]);
      assert [DecimalValue(q[0]), DecimalValue(q[1]), DecimalValue(q[2]), DecimalValue(q[3])] == b;
    }
    if ParseIpv4(s) == Some(b) {
      var p := Split(s, '.');
      forall k | 0 <= k < 4 ensures p[k] == q[k] {
        assert IsOctetText(p[k]);
        OctetIsDecimal(p[k]);
      }
      assert p == q;
      JoinSplit(s, '.');
    }
  }

  lemma OctetIsDecimal(s: string)
    requires IsOctetText(s)
    ensures s == Decimal(DecimalValue(s))
  {
    OctetTextUnique(s);
  }
}
