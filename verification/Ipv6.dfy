/** `parseIpv6` (apps/worker/src/security/network.ts) against the text forms of section 2.2 of
  RFC 4291. */
module Ipv6 {
  import opened Common
  import opened Addresses

  // ---------------------------------------------------------------- hexadecimal groups

  predicate IsHex(c: char) { '0' <= c <= '9' || 'a' <= c <= 'f' }

  /** `[0-9a-f]{1,4}`. */
  predicate IsHextet(s: string) { 1 <= |s| <= 4 && forall i :: 0 <= i < |s| ==> IsHex(s[i]) }

  predicate AreHextets(parts: seq<string>) { forall k :: 0 <= k < |parts| ==> IsHextet(parts[k]) }

  function HexDigit(c: char): (v: nat)
    requires IsHex(c)
    ensures v < 16
  {
    if c <= '9' then c as int - '0' as int else c as int - 'a' as int + 10
  }

  /** `Number.parseInt(part, 16)`. */
  function HexValue(s: string): nat
    requires forall i :: 0 <= i < |s| ==> IsHex(s[i])
  {
    if s == "" then 0
    else
      assert IsHex(s[|s| - 1]);
      16 * HexValue(s[..|s| - 1]) + HexDigit(s[|s| - 1])
  }

  lemma HextetValue(s: string)
    requires IsHextet(s)
    ensures HexValue(s) < 0x1_0000
  {
    HexBound(s);
    assert Pow16(4) == 0x1_0000;
    assert Pow16(1) == 0x10 && Pow16(2) == 0x100 && Pow16(3) == 0x1000;
  }

  function Pow16(n: nat): nat { if n == 0 then 1 else 16 * Pow16(n - 1) }

  lemma {:induction false} HexBound(s: string)
    requires forall i :: 0 <= i < |s| ==> IsHex(s[i])
    ensures HexValue(s) < Pow16(|s|)
  {
    if s != "" {
      assert IsHex(s[|s| - 1]);
      HexBound(s[..|s| - 1]);
    }
  }

  type Group = g: int | 0 <= g < 0x1_0000

  function GroupOf(s: string): Group
    requires IsHextet(s)
  {
    HextetValue(s);
    HexValue(s)
  }

  function GroupsOf(parts: seq<string>): (r: seq<Group>)
    requires AreHextets(parts)
    ensures |r| == |parts| && forall k :: 0 <= k < |r| ==> IsHextet(parts[k]) && r[k] == GroupOf(parts[k])
  {
    seq(|parts|, k requires 0 <= k < |parts| => assert IsHextet(parts[k]); GroupOf(parts[k]))
  }

  /** `n.toString(16)`. */
  function Hex(n: nat): (s: string)
    ensures s != "" && forall i :: 0 <= i < |s| ==> IsHex(s[i])
  {
    (if n < 16 then "" else Hex(n / 16)) + [if n % 16 < 10 then ('0' as int + n % 16) as char else ('a' as int + n % 16 - 10) as char]
  }

  lemma {:induction false} HexRoundTrip(n: nat)
    ensures HexValue(Hex(n)) == n
    ensures n < Pow16(|Hex(n)|) && (n > 0 ==> Pow16(|Hex(n)| - 1) <= n)
  {
    var s := Hex(n);
    if n >= 16 {
      HexRoundTrip(n / 16);
      assert s[..|s| - 1] == Hex(n / 16);
    } else {
      assert s[..0] == "";
    }
  }

  lemma HexHextet(n: Group)
    ensures IsHextet(Hex(n)) && GroupOf(Hex(n)) == n
  {
    HexRoundTrip(n);
    if |Hex(n)| > 4 { Pow16Grows(4, |Hex(n)| - 1); }
    assert Pow16(4) == 0x1_0000;
  }

  lemma {:induction false} Pow16Grows(m: nat, n: nat)
    requires m <= n
    ensures Pow16(m) <= Pow16(n)
  {
    if m < n { Pow16Grows(m, n - 1); }
  }

  /** The 16 bytes of an address: each group in network order. */
  function AddressBytes(groups: seq<Group>): (r: Bytes)
    ensures |r| == 2 * |groups|
    ensures forall k :: 0 <= k < |groups| ==> r[2 * k] == groups[k] / 256 && r[2 * k + 1] == groups[k] % 256
  {
    if groups == [] then []
    else
      var g := groups[|groups| - 1];
      AddressBytes(groups[..|groups| - 1]) + [g / 256, g % 256]
  }

  // ---------------------------------------------------------------- the text forms

  /** A way to write an address: groups before and after an optional `::`, and an optional dotted quad
      that stands for the last two groups. */
  datatype Spelling = Spelling(head: seq<string>, compressed: bool, tail: seq<string>, quad: Option<Bytes>)

  function GroupCount(sp: Spelling): nat { |sp.head| + |sp.tail| + if sp.quad.Some? then 2 else 0 }

  /** Section 2.2 of RFC 4291: eight groups, or fewer with one `::` for one or more groups of zeros. */
  predicate Legal(sp: Spelling) {
    && AreHextets(sp.head) && AreHextets(sp.tail)
    && (sp.quad.Some? ==> |sp.quad.value| == 4)
    && if sp.compressed then GroupCount(sp) <= 7 else sp.tail == [] && GroupCount(sp) == 8
  }

  function QuadGroups(q: Bytes): (r: seq<Group>)
    requires |q| == 4
    ensures |r| == 2
  {
    [(q[0] as int) * 256 + q[1] as int, (q[2] as int) * 256 + q[3] as int]
  }

  function ZeroGroups(n: nat): (r: seq<Group>)
    ensures |r| == n && forall k :: 0 <= k < n ==> r[k] == 0
  {
    seq(n, _ => 0)
  }

  /** The address a spelling denotes. */
  function Denoted(sp: Spelling): (r: seq<Group>)
    requires Legal(sp)
    ensures |r| == 8
  {
    GroupsOf(sp.head) + ZeroGroups(8 - GroupCount(sp)) + GroupsOf(sp.tail) + if sp.quad.Some? then QuadGroups(sp.quad.value) else []
  }

  function Render(sp: Spelling): string
    requires sp.quad.Some? ==> |sp.quad.value| == 4
  {
    var last := if sp.quad.Some? then [PrintIpv4(sp.quad.value)] else [];
    if sp.compressed then Join(sp.head, ':') + "::" + Join(sp.tail + last, ':')
    else Join(sp.head + last, ':')
  }

  // ---------------------------------------------------------------- the parser

  function Lower(c: char): char { if 'A' <= c <= 'Z' then (c as int + 32) as char else c }

  function LowerCase(s: string): (r: string)
    ensures |r| == |s| && forall i :: 0 <= i < |s| ==> r[i] == Lower(s[i])
  {
    seq(|s|, i requires 0 <= i < |s| => Lower(s[i]))
  }

  predicate IsAddressChar(c: char) { IsHex(c) || c == ':' || c == '.' }

  /** The lower-cased text without its optional brackets. */
  function Unbracketed(value: string): string {
    var input := LowerCase(value);
    if |input| >= 2 && input[0] == '[' && input[|input| - 1] == ']' then input[1..|input| - 1] else input
  }

  predicate DoubleAt(s: string, i: int) { 0 <= i && i + 1 < |s| && s[i] == ':' && s[i + 1] == ':' }

  function FirstDouble(s: string, from: nat): (r: Option<nat>)
    ensures r.Some? ==> from <= r.value && DoubleAt(s, r.value) && forall i :: from <= i < r.value ==> !DoubleAt(s, i)
    ensures r.None? ==> forall i :: from <= i ==> !DoubleAt(s, i)
    decreases |s| - from
  {
    if from + 1 >= |s| then None
    else if DoubleAt(s, from) then Some(from)
    else FirstDouble(s, from + 1)
  }

  /** Number of matches of `::`. */
  function CountDouble(s: string, from: nat): nat
    decreases |s| - from
  {
    var k := FirstDouble(s, from);
    if k.None? then 0 else 1 + CountDouble(s, k.value + 2)
  }

  function SplitGroups(text: string): seq<string> { if text == "" then [] else Split(text, ':') }

  /** The part of the parser after the dotted quad has been replaced. */
  function ParseGroups(input: string): (r: Option<seq<Group>>)
    ensures r.Some? ==> |r.value| == 8
  {
    if CountDouble(input, 0) > 1 then None
    else
      var k := FirstDouble(input, 0);
      var left := SplitGroups(if k.Some? then input[..k.value] else input);
      var right := if k.Some? then SplitGroups(input[k.value + 2..]) else [];
      if !AreHextets(left) || !AreHextets(right) then None
      else
        var missing := 8 - |left| - |right|;
        if (k.None? && missing != 0) || (k.Some? && missing < 1) then None
        else Some(GroupsOf(left) + ZeroGroups(missing) + GroupsOf(right))
  }

  /** The dotted quad at the end becomes two groups. */
  function ReplaceQuad(input: string): Option<string> {
    if !Has(input, '.') then Some(input)
    else
      var lastColon := LastIndexOf(input, ':');
      if lastColon < 0 then None
      else
        var q := ParseIpv4(input[lastColon + 1..]);
        if q.None? then None
        else Some(input[..lastColon] + ":" + Hex(QuadGroups(q.value)[0]) + ":" + Hex(QuadGroups(q.value)[1]))
  }

  function ParseIpv6(value: string): (r: Option<Bytes>)
    ensures r.Some? ==> |r.value| == 16
  {
    var input := Unbracketed(value);
    if input == "" || exists i :: 0 <= i < |input| && !IsAddressChar(input[i]) then None
    else
      var replaced := ReplaceQuad(input);
      if replaced.None? then None
      else
        var groups := ParseGroups(replaced.value);
        if groups.None? then None else Some(AddressBytes(groups.value))
  }

  /** The parser as a program: the text is rewritten, then split and turned into bytes. */
  method ParseAddress(value: string) returns (r: Option<Bytes>)
    ensures r == ParseIpv6(value)
  {
    hide Unbracketed, IsAddressChar, ReplaceQuad, ParseGroups, AddressBytes;
    var input := Unbracketed(value);
    if input == "" || exists i :: 0 <= i < |input| && !IsAddressChar(input[i]) { return None; }
    var replaced := ReplaceQuad(input);
    if replaced.None? { return None; }
    input := replaced.value;
    var groups := ParseGroups(input);
    if groups.None? { return None; }
    var result := FillBytes(groups.value);
    return Some(result);
  }

  /** The loop that fills the result array. */
  method FillBytes(groups: seq<Group>) returns (bytes: Bytes)
    requires |groups| == 8
    ensures bytes == AddressBytes(groups)
  {
    hide AddressBytes;
    var result := new Byte[16](_ => 0);
    for index := 0 to 8
      invariant forall k :: 0 <= k < index ==> result[2 * k] == groups[k] / 256 && result[2 * k + 1] == groups[k] % 256
    {
      result[index * 2] := groups[index] / 256;
      result[index * 2 + 1] := groups[index] % 256;
    }
    bytes := result[..];
    var expected := AddressBytes(groups);
    forall i | 0 <= i < 16 ensures bytes[i] == expected[i] {
      assert i == 2 * (i / 2) || i == 2 * (i / 2) + 1;
      assert bytes[2 * (i / 2)] == groups[i / 2] / 256 && bytes[2 * (i / 2) + 1] == groups[i / 2] % 256;
    }
  }

  // ---------------------------------------------------------------- shapes of rendered texts

  lemma JoinAppend(parts: seq<string>, x: string, sep: char)
    requires parts != []
    ensures Join(parts + [x], sep) == Join(parts, sep) + [sep] + x
  {
    assert (parts + [x])[..|parts|] == parts;
  }

  predicate IsGroupChar(c: char) { IsHex(c) || c == ':' }

  /** Joined hextets start and end with a digit and contain no `::`. */
  lemma {:induction false} JoinShape(parts: seq<string>)
    requires AreHextets(parts) && parts != []
    ensures var s := Join(parts, ':');
            && s != "" && IsHex(s[0]) && IsHex(s[|s| - 1])
            && (forall i :: !DoubleAt(s, i))
            && (forall i :: 0 <= i < |s| ==> IsGroupChar(s[i]))
  {
    var last := parts[|parts| - 1];
    assert IsHextet(last);
    if |parts| > 1 {
      JoinShape(parts[..|parts| - 1]);
      var t := Join(parts[..|parts| - 1], ':');
      var s := Join(parts, ':');
      assert s == t + ":" + last;
      forall i ensures !DoubleAt(s, i) {
        assert !DoubleAt(t, i);
      }
    }
  }

  lemma HextetsPlain(parts: seq<string>)
    requires AreHextets(parts)
    ensures forall k :: 0 <= k < |parts| ==> !Has(parts[k], ':')
  {
    forall k | 0 <= k < |parts| ensures !Has(parts[k], ':') { assert IsHextet(parts[k]); }
  }

  lemma GroupsText(parts: seq<string>)
    requires AreHextets(parts)
    ensures SplitGroups(Join(parts, ':')) == parts
    ensures var s := Join(parts, ':');
            && (forall i :: !DoubleAt(s, i)) && (forall i :: 0 <= i < |s| ==> IsGroupChar(s[i]))
            && (s != "" ==> IsHex(s[0]) && IsHex(s[|s| - 1])) && (s == "" <==> parts == [])
  {
    if parts != [] {
      HextetsPlain(parts);
      SplitJoin(parts, ':');
      JoinShape(parts);
    }
  }

  lemma TextGroups(s: string)
    ensures Join(SplitGroups(s), ':') == s
  {
    if s != "" { JoinSplit(s, ':'); }
  }

  /** Two texts without `::` around one `::`: the parser finds exactly that one. */
  lemma OneDouble(left: string, right: string)
    requires (forall i :: !DoubleAt(left, i)) && (forall i :: !DoubleAt(right, i))
    requires left != "" ==> left[|left| - 1] != ':'
    requires right != "" ==> right[0] != ':'
    ensures var s := left + "::" + right;
            && FirstDouble(s, 0) == Some(|left|) && CountDouble(s, 0) == 1
            && s[..|left|] == left && s[|left| + 2..] == right
  {
    var s := left + "::" + right;
    assert DoubleAt(s, |left|);
    forall i | i < |left| ensures !DoubleAt(s, i) { assert !DoubleAt(left, i); }
    forall i | |left| + 2 <= i ensures !DoubleAt(s, i) { assert !DoubleAt(right, i - |left| - 2); }
    assert FirstDouble(s, |left| + 2) == None;
  }

  // ---------------------------------------------------------------- texts without a dotted quad

  /** Every legal spelling in groups parses to the address it denotes. */
  lemma GroupsAccepted(sp: Spelling)
    requires Legal(sp) && sp.quad.None?
    ensures ParseGroups(Render(sp)) == Some(Denoted(sp))
  {
    hide Join, Split, FirstDouble, CountDouble, IsHextet, DoubleAt, GroupsOf, AreHextets, SplitGroups;
    GroupsText(sp.head);
    GroupsText(sp.tail);
    DenotedInGroups(sp);
    assert sp.tail + [] == sp.tail && sp.head + [] == sp.head;
    if sp.compressed {
      OneDouble(Join(sp.head, ':'), Join(sp.tail, ':'));
    } else {
      assert GroupsOf(sp.tail) == [];
      NoDouble(Render(sp));
      assert SplitGroups(Render(sp)) == sp.head;
    }
  }

  lemma DenotedInGroups(sp: Spelling)
    requires Legal(sp) && sp.quad.None?
    ensures Denoted(sp) == GroupsOf(sp.head) + ZeroGroups(8 - |sp.head| - |sp.tail|) + GroupsOf(sp.tail)
  {
  }

  lemma NoDouble(s: string)
    requires forall i :: !DoubleAt(s, i)
    ensures FirstDouble(s, 0) == None && CountDouble(s, 0) == 0
  {
  }

  /** The spelling the parser has read. */
  function ReadGroups(input: string): (sp: Spelling)
    ensures sp.quad.None? && (!sp.compressed ==> sp.tail == [])
  {
    var k := FirstDouble(input, 0);
    if k.None? then Spelling(SplitGroups(input), false, [], None)
    else Spelling(SplitGroups(input[..k.value]), true, SplitGroups(input[k.value + 2..]), None)
  }

  lemma GroupsRead(input: string)
    requires ParseGroups(input).Some?
    ensures var sp := ReadGroups(input); Legal(sp) && Render(sp) == input && Some(Denoted(sp)) == ParseGroups(input)
  {
    hide Join, Split, CountDouble, IsHextet, GroupsOf, SplitGroups;
    var k := FirstDouble(input, 0);
    var sp := ReadGroups(input);
    assert sp.tail + [] == sp.tail && sp.head + [] == sp.head;
    TextGroups(if k.Some? then input[..k.value] else input);
    DenotedInGroups(sp);
    if k.Some? {
      TextGroups(input[k.value + 2..]);
      assert input == input[..k.value] + "::" + input[k.value + 2..];
    }
  }

  // ---------------------------------------------------------------- texts with a dotted quad

  /** The spelling after the quad has been replaced by two groups. */
  function WithGroups(sp: Spelling): Spelling
    requires sp.quad.Some? && |sp.quad.value| == 4
  {
    var h := [Hex(QuadGroups(sp.quad.value)[0]), Hex(QuadGroups(sp.quad.value)[1])];
    if sp.compressed then sp.(tail := sp.tail + h, quad := None) else sp.(head := sp.head + h, quad := None)
  }

  lemma GroupsOfAppend(parts: seq<string>, q: Bytes)
    requires AreHextets(parts) && |q| == 4
    ensures var h := [Hex(QuadGroups(q)[0]), Hex(QuadGroups(q)[1])];
            AreHextets(parts + h) && GroupsOf(parts + h) == GroupsOf(parts) + QuadGroups(q)
  {
    HexHextet(QuadGroups(q)[0]);
    HexHextet(QuadGroups(q)[1]);
    hide IsHextet, GroupOf, Hex;
    var h := [Hex(QuadGroups(q)[0]), Hex(QuadGroups(q)[1])];
    forall k | 0 <= k < |parts + h| ensures IsHextet((parts + h)[k]) {}
  }

  lemma SameAddress(sp: Spelling)
    requires Legal(sp) && sp.quad.Some?
    ensures Legal(WithGroups(sp)) && Denoted(WithGroups(sp)) == Denoted(sp)
  {
    hide IsHextet, GroupsOf, Hex, QuadGroups, AreHextets, ZeroGroups;
    GroupsOfAppend(sp.head, sp.quad.value);
    GroupsOfAppend(sp.tail, sp.quad.value);
    var q := QuadGroups(sp.quad.value);
    var zeros := ZeroGroups(8 - GroupCount(sp));
    DenotedInGroups(WithGroups(sp));
    if sp.compressed {
      assert GroupsOf(sp.head) + zeros + (GroupsOf(sp.tail) + q) == GroupsOf(sp.head) + zeros + GroupsOf(sp.tail) + q;
    } else {
      assert zeros == [] && GroupsOf(sp.tail) == [];
      assert GroupsOf(sp.head) + q == GroupsOf(sp.head) + zeros + GroupsOf(sp.tail) + q;
    }
  }

  /** The text up to the last colon, which stands before the quad. */
  function BeforeQuad(sp: Spelling): string {
    if !sp.compressed then Join(sp.head, ':')
    else Join(sp.head, ':') + if sp.tail == [] then ":" else "::" + Join(sp.tail, ':')
  }

  lemma JoinTwo(parts: seq<string>, a: string, b: string)
    ensures Join(parts + [a, b], ':') == (if parts == [] then "" else Join(parts, ':') + ":") + a + ":" + b
  {
    assert parts + [a, b] == parts + [a] + [b];
    JoinAppend(parts + [a], b, ':');
    if parts != [] { JoinAppend(parts, a, ':'); } else { assert parts + [a] == [a]; }
  }

  lemma RenderQuad(sp: Spelling)
    requires Legal(sp) && sp.quad.Some?
    ensures Render(sp) == BeforeQuad(sp) + ":" + PrintIpv4(sp.quad.value)
    ensures Render(WithGroups(sp)) == BeforeQuad(sp) + ":" + Hex(QuadGroups(sp.quad.value)[0]) + ":" + Hex(QuadGroups(sp.quad.value)[1])
  {
    hide Join, Hex, QuadGroups, PrintIpv4, AreHextets;
    var parts := if sp.compressed then sp.tail else sp.head;
    var q := PrintIpv4(sp.quad.value);
    var a, b := Hex(QuadGroups(sp.quad.value)[0]), Hex(QuadGroups(sp.quad.value)[1]);
    JoinTwo(parts, a, b);
    if parts != [] { JoinAppend(parts, q, ':'); } else { JoinOne(q); }
    assert WithGroups(sp).tail + [] == WithGroups(sp).tail && WithGroups(sp).head + [] == WithGroups(sp).head;
    if sp.compressed {
      assert Render(WithGroups(sp)) == Join(sp.head, ':') + "::" + Join(sp.tail + [a, b], ':');
    }
  }

  lemma JoinOne(x: string)
    ensures Join([] + [x], ':') == x
  {
    assert [] + [x] == [x];
  }

  lemma QuadText(q: Bytes)
    requires |q| == 4
    ensures !Has(PrintIpv4(q), ':') && Has(PrintIpv4(q), '.')
    ensures forall i :: 0 <= i < |PrintIpv4(q)| ==> IsAddressChar(PrintIpv4(q)[i])
  {
    hide Decimal;
    var s := PrintIpv4(q);
    assert s[|Decimal(q[0])|] == '.';
    assert forall c :: IsDecimalDigit(c) ==> IsHex(c) && c != ':';
  }

  /** Replacing the quad of a legal text gives the legal text in groups. */
  lemma QuadReplaced(sp: Spelling)
    requires Legal(sp) && sp.quad.Some?
    ensures ReplaceQuad(Render(sp)) == Some(Render(WithGroups(sp)))
  {
    hide Join, Hex, QuadGroups, PrintIpv4, ParseIpv4, AreHextets, Render, BeforeQuad;
    var q := sp.quad.value;
    RenderQuad(sp);
    QuadText(q);
    Ipv4Exact(PrintIpv4(q), q);
    var s := Render(sp);
    var i := |BeforeQuad(sp)|;
    assert s[i] == ':' && s[i + 1..] == PrintIpv4(q) && s[..i] == BeforeQuad(sp);
    assert forall k :: i < k < |s| ==> s[k] == PrintIpv4(q)[k - i - 1];
    assert LastIndexOf(s, ':') == i;
    assert Has(s, '.') by {
      var k :| 0 <= k < |PrintIpv4(q)| && PrintIpv4(q)[k] == '.';
      assert s[i + 1 + k] == '.';
    }
  }

  /** The spelling with a quad that the parser has read: its last two groups were the quad. */
  function ReadQuad(input: string, q: Bytes): Spelling
    requires ReadGroups(input).compressed ==> |ReadGroups(input).tail| >= 2
    requires !ReadGroups(input).compressed ==> |ReadGroups(input).head| >= 2
  {
    var sp := ReadGroups(input);
    if sp.compressed then sp.(tail := sp.tail[..|sp.tail| - 2], quad := Some(q))
    else sp.(head := sp.head[..|sp.head| - 2], quad := Some(q))
  }

  /** Where a text that ends in two groups has its `::`, and what follows it. */
  lemma DoubleBeforeGroups(p: string, a: string, b: string, k: nat)
    requires IsHextet(a) && IsHextet(b) && DoubleAt(p + ":" + a + ":" + b, k)
    ensures k + 1 <= |p|
    ensures (p + ":" + a + ":" + b)[..k] == p[..k]
    ensures k + 1 == |p| ==> p == p[..k] + ":" && (p + ":" + a + ":" + b)[k + 2..] == a + ":" + b
    ensures k + 1 < |p| ==> p == p[..k] + "::" + p[k + 2..] && (p + ":" + a + ":" + b)[k + 2..] == p[k + 2..] + ":" + a + ":" + b
  {
    var s := p + ":" + a + ":" + b;
    assert s[|p| + 1] == a[0] && s[|p| + 2 + |a|] == b[0];
    assert forall i :: |p| < i < |p| + 1 + |a| ==> s[i] == a[i - |p| - 1];
    assert forall i :: |p| + 1 + |a| < i < |s| ==> s[i] == b[i - |p| - |a| - 2];
  }

  lemma SplitTwo(p: string, a: string, b: string)
    requires IsHextet(a) && IsHextet(b)
    ensures Split(p + ":" + a + ":" + b, ':') == Split(p, ':') + [a, b]
    ensures Split(a + ":" + b, ':') == [a, b]
  {
    HextetsPlain([a, b]);
    assert !Has([a, b][0], ':') && !Has([a, b][1], ':');
    SplitAppend(p, a, ':');
    SplitAppend(p + ":" + a, b, ':');
    SplitAppend(a, b, ':');
    assert Split(a, ':') == [a];
    assert Split(p, ':') + [a] + [b] == Split(p, ':') + [a, b];
    assert [a] + [b] == [a, b];
  }

  /** The last two groups read from a text that ends in two groups are those. */
  lemma LastGroupsRead(p: string, a: string, b: string)
    requires IsHextet(a) && IsHextet(b)
    ensures var sp := ReadGroups(p + ":" + a + ":" + b);
            var parts := if sp.compressed then sp.tail else sp.head;
            |parts| >= 2 && parts[|parts| - 2..] == [a, b]
  {
    hide Join, Split, CountDouble, IsHextet;
    var input := p + ":" + a + ":" + b;
    var k := FirstDouble(input, 0);
    if k.None? {
      SplitTwo(p, a, b);
    } else {
      DoubleBeforeGroups(p, a, b, k.value);
      SplitTwo(if k.value + 1 < |p| then p[k.value + 2..] else "", a, b);
    }
  }

  lemma Unquoted(sp: Spelling)
    requires sp.quad.Some? && |sp.quad.value| == 4 && (!sp.compressed ==> sp.tail == []) && Legal(WithGroups(sp))
    ensures Legal(sp)
  {
    var g := WithGroups(sp);
    assert forall k :: 0 <= k < |sp.head| ==> sp.head[k] == g.head[k];
    assert forall k :: 0 <= k < |sp.tail| ==> sp.tail[k] == g.tail[k];
  }

  /** A text with a quad that the parser accepts is a legal spelling. */
  lemma QuadRead(p: string, q: Bytes) returns (sp: Spelling)
    requires |q| == 4
    requires ParseGroups(p + ":" + Hex(QuadGroups(q)[0]) + ":" + Hex(QuadGroups(q)[1])).Some?
    ensures Legal(sp) && Render(sp) == p + ":" + PrintIpv4(q)
    ensures ParseGroups(p + ":" + Hex(QuadGroups(q)[0]) + ":" + Hex(QuadGroups(q)[1])) == Some(Denoted(sp))
  {
    hide Join, Split, CountDouble, IsHextet, GroupsOf, Hex, QuadGroups, PrintIpv4, ParseGroups, Denoted, BeforeQuad, ReadGroups, Render;
    var a, b := Hex(QuadGroups(q)[0]), Hex(QuadGroups(q)[1]);
    var input := p + ":" + a + ":" + b;
    HexHextet(QuadGroups(q)[0]);
    HexHextet(QuadGroups(q)[1]);
    GroupsRead(input);
    LastGroupsRead(p, a, b);
    sp := ReadQuad(input, q);
    var read := ReadGroups(input);
    assert WithGroups(sp) == read by {
      if read.compressed {
        assert read.tail == read.tail[..|read.tail| - 2] + read.tail[|read.tail| - 2..];
      } else {
        assert read.head == read.head[..|read.head| - 2] + read.head[|read.head| - 2..];
      }
    }
    Unquoted(sp);
    SameAddress(sp);
    RenderQuad(sp);
    var suffix := ":" + a + ":" + b;
    assert input == p + suffix && input == BeforeQuad(sp) + suffix;
    SuffixCancels(p, BeforeQuad(sp), suffix);
  }

  lemma SuffixCancels(x: string, y: string, s: string)
    requires x + s == y + s
    ensures x == y
  {
    assert |x| == |y|;
    assert x == (x + s)[..|x|] == (y + s)[..|y|] == y;
  }

  // ---------------------------------------------------------------- main result

  lemma GroupChars(sp: Spelling)
    requires Legal(sp) && sp.quad.None?
    ensures Render(sp) != "" && forall i :: 0 <= i < |Render(sp)| ==> IsGroupChar(Render(sp)[i])
  {
    hide Join, IsHextet, AreHextets, DoubleAt, IsHex;
    GroupsText(sp.head);
    GroupsText(sp.tail);
    assert sp.tail + [] == sp.tail && sp.head + [] == sp.head;
  }

  lemma LegalChars(sp: Spelling)
    requires Legal(sp)
    ensures Render(sp) != "" && forall i :: 0 <= i < |Render(sp)| ==> IsAddressChar(Render(sp)[i])
    ensures sp.quad.None? ==> !Has(Render(sp), '.')
  {
    hide Render, AreHextets, PrintIpv4, Hex, QuadGroups, BeforeQuad;
    if sp.quad.None? {
      GroupChars(sp);
      assert !IsHex('.');
    } else {
      SameAddress(sp);
      RenderQuad(sp);
      QuadText(sp.quad.value);
      GroupChars(WithGroups(sp));
      var before := BeforeQuad(sp);
      forall i | 0 <= i < |Render(sp)| ensures IsAddressChar(Render(sp)[i]) {
        if i < |before| {
          assert Render(sp)[i] == Render(WithGroups(sp))[i];
        } else if i > |before| {
          assert Render(sp)[i] == PrintIpv4(sp.quad.value)[i - |before| - 1];
        }
      }
    }
  }

  /** `parseIpv6` accepts exactly the text forms of RFC 4291, in optional brackets and either case, and
      every legal spelling of an address yields the bytes of that address. */
  lemma ParseIpv6Exact(value: string, bytes: Bytes)
    ensures ParseIpv6(value) == Some(bytes) <==>
            exists sp :: Legal(sp) && Render(sp) == Unbracketed(value) && AddressBytes(Denoted(sp)) == bytes
  {
    if sp :| Legal(sp) && Render(sp) == Unbracketed(value) && AddressBytes(Denoted(sp)) == bytes {
      SpellingParsed(value, sp);
    }
    if ParseIpv6(value) == Some(bytes) {
      var sp := SpellingRead(value);
    }
  }

  lemma SpellingParsed(value: string, sp: Spelling)
    requires Legal(sp) && Render(sp) == Unbracketed(value)
    ensures ParseIpv6(value) == Some(AddressBytes(Denoted(sp)))
  {
    hide Render, Unbracketed, ParseGroups, AddressBytes, Denoted, IsHextet, AreHextets, IsAddressChar;
    LegalChars(sp);
    if sp.quad.Some? {
      QuadReplaced(sp);
      SameAddress(sp);
      GroupsAccepted(WithGroups(sp));
    } else {
      GroupsAccepted(sp);
    }
  }

  lemma SpellingRead(value: string) returns (sp: Spelling)
    requires ParseIpv6(value).Some?
    ensures Legal(sp) && Render(sp) == Unbracketed(value) && ParseIpv6(value) == Some(AddressBytes(Denoted(sp)))
  {
    hide Render, Unbracketed, ParseGroups, AddressBytes, Denoted, Legal, IsAddressChar, ParseIpv4, Hex;
    var input := Unbracketed(value);
    if !Has(input, '.') {
      sp := ReadGroups(input);
      GroupsRead(input);
    } else {
      var i := LastIndexOf(input, ':');
      var q := ParseIpv4(input[i + 1..]).value;
      Ipv4Exact(input[i + 1..], q);
      sp := QuadRead(input[..i], q);
      assert input == input[..i] + ":" + input[i + 1..];
    }
  }
}
