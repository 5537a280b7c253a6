/** What an address text means byte by byte, and how an embedded IPv4 address is classified
  (apps/worker/src/security/network.ts). */
module AddressTexts {
  import opened Common
  import opened Addresses
  import opened Ipv6
  import opened ReservedRanges

  // ---------------------------------------------------------------- bytes of a spelling

  lemma {:induction false} BytesConcat(a: seq<Group>, b: seq<Group>)
    ensures AddressBytes(a + b) == AddressBytes(a) + AddressBytes(b)
  {
    if b == [] {
      assert a + b == a;
    } else {
      var front, last := b[..|b| - 1], b[|b| - 1];
      assert (a + b)[..|a + b| - 1] == a + front;
      BytesConcat(a, front);
    }
  }

  /** The two groups of a dotted quad are its four bytes, in their order. */
  lemma QuadBytes(q: Bytes)
    requires |q| == 4
    ensures AddressBytes(QuadGroups(q)) == q
  {
    var g := QuadGroups(q);
    var r := AddressBytes(g);
    hide AddressBytes;
    assert r[2 * 0] == g[0] / 256 && r[2 * 0 + 1] == g[0] % 256 && r[2 * 1] == g[1] / 256 && r[2 * 1 + 1] == g[1] % 256;
  }

  /** A dotted quad at the end of a legal spelling is the last four bytes of the address. */
  lemma QuadIsTail(sp: Spelling)
    requires Legal(sp) && sp.quad.Some?
    ensures AddressBytes(Denoted(sp))[12..] == sp.quad.value
  {
    var q := QuadGroups(sp.quad.value);
    var front := Denoted(sp)[..6];
    assert Denoted(sp) == front + q;
    hide Denoted, Legal, AddressBytes, QuadGroups;
    BytesConcat(front, q);
    QuadBytes(sp.quad.value);
  }

  /** Group k of the head is bytes 2k and 2k + 1, group k from the end likewise, and what `::` stands for
      is zero. */
  lemma GroupBytes(sp: Spelling, k: nat)
    requires Legal(sp) && sp.quad.None? && k < 8
    ensures var high, low := AddressBytes(Denoted(sp))[2 * k], AddressBytes(Denoted(sp))[2 * k + 1];
            var g := high as int * 256 + low as int;
            if k < |sp.head| then IsHextet(sp.head[k]) && g == HexValue(sp.head[k])
            else if k < 8 - |sp.tail| then g == 0
            else IsHextet(sp.tail[k - (8 - |sp.tail|)]) && g == HexValue(sp.tail[k - (8 - |sp.tail|)])
  {
    hide HexValue, IsHextet, AddressBytes, ZeroGroups;
    DenotedInGroups(sp);
    if k < |sp.head| {
      assert Denoted(sp)[k] == GroupsOf(sp.head)[k];
    } else if k < 8 - |sp.tail| {
      assert Denoted(sp)[k] == ZeroGroups(8 - |sp.head| - |sp.tail|)[k - |sp.head|];
    } else {
      assert Denoted(sp)[k] == GroupsOf(sp.tail)[k - (8 - |sp.tail|)];
    }
  }

  // ---------------------------------------------------------------- letter case and brackets

  lemma AddressCharsAreLower(s: string)
    requires s != "" && forall i :: 0 <= i < |s| ==> IsAddressChar(s[i])
    ensures LowerCase(s) == s && Unbracketed(s) == s && Unbracketed("[" + s + "]") == s
  {
    assert s[0] != '[';
    AlreadyLower(s);
    var b := "[" + s + "]";
    forall i | 0 <= i < |b| ensures Lower(b[i]) == b[i] {
      if 0 < i < |b| - 1 { assert b[i] == s[i - 1]; }
    }
    AlreadyLower(b);
    assert b[1..|b| - 1] == s;
  }

  lemma AlreadyLower(s: string)
    requires forall i :: 0 <= i < |s| ==> Lower(s[i]) == s[i]
    ensures LowerCase(s) == s
  {
    assert forall i :: 0 <= i < |s| ==> LowerCase(s)[i] == s[i];
  }

  /** Every legal spelling parses to its address as it is, in brackets, and in any letter case. */
  lemma LegalTextParsed(sp: Spelling)
    requires Legal(sp)
    ensures ParseIpv6(Render(sp)) == Some(AddressBytes(Denoted(sp)))
    ensures ParseIpv6("[" + Render(sp) + "]") == Some(AddressBytes(Denoted(sp)))
    ensures forall text :: SameLetters(text, Render(sp)) ==> ParseIpv6(text) == Some(AddressBytes(Denoted(sp)))
  {
    hide ParseIpv6, Render, AddressBytes, Denoted, IsAddressChar, Unbracketed, LowerCase, AreHextets, GroupCount;
    LegalChars(sp);
    AddressCharsAreLower(Render(sp));
    SpellingParsed(Render(sp), sp);
    SpellingParsed("[" + Render(sp) + "]", sp);
    forall text | SameLetters(text, Render(sp)) ensures ParseIpv6(text) == Some(AddressBytes(Denoted(sp))) {
      CaseIgnored(text, Render(sp));
      SpellingParsed(text, sp);
    }
  }

  /** Some hexadecimal digits of s are written as capitals. */
  predicate SameLetters(text: string, s: string) {
    |text| == |s| && forall i :: 0 <= i < |s| ==> text[i] == s[i] || ('a' <= s[i] <= 'f' && text[i] as int == s[i] as int - 32)
  }

  lemma CaseIgnored(text: string, s: string)
    requires SameLetters(text, s) && LowerCase(s) == s
    ensures Unbracketed(text) == Unbracketed(s)
  {
    forall i | 0 <= i < |s| ensures Lower(text[i]) == s[i] { assert LowerCase(s)[i] == s[i]; }
    assert LowerCase(text) == s;
  }

  /** The parser carries a dotted quad to the last four bytes unchanged. */
  lemma QuadParsed(value: string, sp: Spelling)
    requires Legal(sp) && sp.quad.Some? && Unbracketed(value) == Render(sp)
    ensures ParseIpv6(value).Some? && ParseIpv6(value).value[12..] == sp.quad.value
  {
    hide ParseIpv6, Render, AddressBytes, Denoted, Unbracketed, AreHextets, GroupCount;
    SpellingParsed(value, sp);
    QuadIsTail(sp);
  }

  // ---------------------------------------------------------------- IPv4 addresses inside IPv6 ones

  /** `::ffff:a.b.c.d` is the IPv4-mapped address of the quad. */
  function Mapped(q: Bytes): Spelling { Spelling([], true, ["ffff"], Some(q)) }

  lemma MappedText(q: Bytes)
    requires |q| == 4
    ensures Legal(Mapped(q)) && Render(Mapped(q)) == "::ffff:" + PrintIpv4(q)
    ensures AddressBytes(Denoted(Mapped(q))) == MAPPED + q
  {
    hide GroupOf, PrintIpv4, IsHextet, AddressBytes;
    var sp := Mapped(q);
    LargestGroup();
    assert Join(["ffff"] + [PrintIpv4(q)], ':') == "ffff" + ":" + PrintIpv4(q) by { JoinAppend(["ffff"], PrintIpv4(q), ':'); }
    assert Render(sp) == "::ffff:" + PrintIpv4(q);
    assert Denoted(sp) == [0, 0, 0, 0, 0, 0xffff] + QuadGroups(q);
    BytesConcat([0, 0, 0, 0, 0, 0xffff], QuadGroups(q));
    QuadBytes(q);
    MappedPrefix();
  }

  lemma LargestGroup()
    ensures IsHextet("ffff") && GroupOf("ffff") == 0xffff
  {
    var s := "ffff";
    assert s[..3] == "fff" && s[..2] == "ff" && s[..1] == "f";
    assert HexValue("f") == 15 && HexValue("ff") == 255 && HexValue("fff") == 4095;
  }

  lemma MappedPrefix()
    ensures AddressBytes([0, 0, 0, 0, 0, 0xffff]) == MAPPED
  {
    var g: seq<Group> := [0, 0, 0, 0, 0, 0xffff];
    var r := AddressBytes(g);
    hide AddressBytes;
    forall i | 0 <= i < 12 ensures r[i] == MAPPED[i] {
      var k := i / 2;
      assert i == 2 * k || i == 2 * k + 1;
      assert r[2 * k] == g[k] / 256 && r[2 * k + 1] == g[k] % 256;
    }
  }

  /** An IPv4-mapped address is reserved exactly when the IPv4 address it embeds is. */
  lemma MappedClassified(q: Bytes)
    requires |q| == 4
    ensures ParseIpv6("::ffff:" + PrintIpv4(q)) == Some(MAPPED + q)
    ensures IsReservedIpv6(MAPPED + q) <==> IsReservedIpv4(q)
  {
    hide ParseIpv6, Render, AddressBytes, Denoted, PrintIpv4, IsReservedIpv6, IsReservedIpv4, AreHextets, GroupCount;
    MappedText(q);
    LegalTextParsed(Mapped(q));
    MappedReserved(MAPPED + q);
    assert (MAPPED + q)[12..16] == q;
  }

  lemma MappedReserved(b: Bytes)
    requires |b| == 16 && b[..12] == MAPPED
    ensures IsReservedIpv6(b) <==> IsReservedIpv4(b[12..16])
  {
    SmallPowers();
    hide Pow2, IsReservedIpv4;
    assert forall i :: 0 <= i < 12 ==> b[i] == b[..12][i] == MAPPED[i];
    assert b[10] == 0xff && b[..15][10] == 0xff;
    assert HasPrefix(b, MAPPED, 96);
  }
}
