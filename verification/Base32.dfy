/** Base32 and HOTP (apps/worker/src/auth/totp.ts).

  The encoder and decoder shift their accumulator as a 32-bit integer, so it overflows on every
  input longer than four bytes; the reference below works on the plain bit string. */
module Base32 {
  import opened Common

  type Bits = seq<bool>

  const ALPHABET := "ABCDEFGHIJKLMNOPQRSTUVWXYZ234567"

  // ---------------------------------------------------------------- 32-bit arithmetic

  /** A 32-bit JavaScript integer, read as unsigned. */
  type Word = w: int | 0 <= w < 0x1_0000_0000

  /** `value << k | low`, where low < 2^k fills the bits shifted in. */
  function ShiftIn(value: Word, k: nat, low: nat): Word
    requires low < Pow2(k)
  {
    (value * Pow2(k) + low) % 0x1_0000_0000
  }

  /** `value >>> k`. */
  function ShiftOut(value: Word, k: nat): (w: Word)
  {
    DivBound(value, k);
    value / Pow2(k)
  }

  lemma DivBound(value: Word, k: nat)
    ensures 0 <= value / Pow2(k) <= value
  {
    hide Pow2;
    QuotientRemainder(value, Pow2(k));
  }

  // ---------------------------------------------------------------- bit strings

  /** The n low bits of v, most significant first. */
  function BitsOf(v: nat, n: nat): (r: Bits)
    ensures |r| == n
  {
    if n == 0 then [] else BitsOf(v / 2, n - 1) + [v % 2 == 1]
  }

  /** The number written by the bits. */
  function ValueOf(bits: Bits): (v: nat)
    ensures v < Pow2(|bits|)
  {
    if bits == [] then 0 else 2 * ValueOf(bits[..|bits| - 1]) + if bits[|bits| - 1] then 1 else 0
  }

  lemma {:induction false} BitsOfValue(bits: Bits)
    ensures BitsOf(ValueOf(bits), |bits|) == bits
  {
    if bits != [] { BitsOfValue(bits[..|bits| - 1]); }
  }

  lemma {:induction false} ValueOfBits(v: nat, n: nat)
    requires v < Pow2(n)
    ensures ValueOf(BitsOf(v, n)) == v
  {
    if n > 0 {
      ValueOfBits(v / 2, n - 1);
      assert BitsOf(v, n)[..n - 1] == BitsOf(v / 2, n - 1);
    }
  }

  function ByteBits(bytes: Bytes): (r: Bits)
    ensures |r| == 8 * |bytes|
  {
    if bytes == [] then [] else ByteBits(bytes[..|bytes| - 1]) + BitsOf(bytes[|bytes| - 1], 8)
  }

  // ---------------------------------------------------------------- the alphabet

  predicate IsDigit(c: char) { 'A' <= c <= 'Z' || '2' <= c <= '7' }

  predicate InAlphabet(s: string) { forall i :: 0 <= i < |s| ==> IsDigit(s[i]) }

  /** The value of a digit, -1 for any other character. */
  function IndexOf(c: char): (r: int)
    ensures -1 <= r < 32
    ensures r == -1 <==> !IsDigit(c)
  {
    if 'A' <= c <= 'Z' then c as int - 'A' as int
    else if '2' <= c <= '7' then 26 + c as int - '2' as int
    else -1
  }

  function Digit(v: nat): (c: char)
    requires v < 32
    ensures IsDigit(c) && IndexOf(c) == v
  {
    if v < 26 then ('A' as int + v) as char else ('2' as int + v - 26) as char
  }

  /** Digit v is character v of the alphabet. */
  lemma AlphabetAt(v: nat)
    requires v < 32
    ensures ALPHABET[v] == Digit(v)
  {
  }

  lemma DigitOfIndex(c: char)
    requires IsDigit(c)
    ensures Digit(IndexOf(c)) == c
  {
  }

  /** `BASE32_ALPHABET.indexOf`: the first position of the character, -1 when it does not occur. */
  lemma IndexOfExact(c: char)
    ensures IndexOf(c) == -1 <==> c !in ALPHABET
    ensures IndexOf(c) != -1 ==> ALPHABET[IndexOf(c)] == c && forall v :: 0 <= v < IndexOf(c) ==> ALPHABET[v] != c
  {
    forall v | 0 <= v < 32 ensures ALPHABET[v] == Digit(v) { AlphabetAt(v); }
    if IsDigit(c) { DigitOfIndex(c); }
  }

  function CharBits(s: string): (r: Bits)
    requires InAlphabet(s)
    ensures |r| == 5 * |s|
  {
    if s == "" then [] else CharBits(s[..|s| - 1]) + BitsOf(IndexOf(s[|s| - 1]), 5)
  }

  function Zeros(n: nat): (r: Bits)
    ensures |r| == n
    ensures forall i :: 0 <= i < n ==> !r[i]
  {
    seq(n, _ => false)
  }

  lemma ZerosSplit(p: nat, q: nat)
    ensures Zeros(p + q) == Zeros(p) + Zeros(q)
  {
  }

  function Value5(bits: Bits): (v: nat)
    requires |bits| == 5
    ensures v < 32 && BitsOf(v, 5) == bits
  {
    BitsOfValue(bits);
    assert Pow2(5) == 32;
    ValueOf(bits)
  }

  function Value8(bits: Bits): (v: Byte)
    requires |bits| == 8
    ensures BitsOf(v, 8) == bits
  {
    BitsOfValue(bits);
    assert Pow2(8) == 256;
    ValueOf(bits)
  }

  /** The zeros that complete the last group of five. */
  function Padding(n: nat): (p: nat)
    ensures p < 5 && (n + p) % 5 == 0
  {
    (5 - n % 5) % 5
  }

  /** The bits in groups of five, the last group filled with zeros: RFC 4648, section 6, unpadded. */
  function Encoded(bits: Bits): (s: string)
    ensures InAlphabet(s)
  {
    if bits == [] then ""
    else Encoded(bits[..|bits| - LastGroup(bits)]) + [Digit(Value5(bits[|bits| - LastGroup(bits)..] + Zeros(5 - LastGroup(bits))))]
  }

  function LastGroup(bits: Bits): (n: nat)
    requires bits != []
    ensures 1 <= n <= 5 && n <= |bits| && (|bits| - n) % 5 == 0
  {
    if |bits| % 5 == 0 then 5 else |bits| % 5
  }

  lemma {:induction false} EncodedBits(bits: Bits)
    ensures CharBits(Encoded(bits)) == bits + Zeros(Padding(|bits|))
  {
    hide Digit, IndexOf, IsDigit, BitsOf, CharBits, Value5, Zeros, Encoded, LastGroup;
    if bits == [] {
      EmptyBits(0);
      assert Encoded(bits) == "" by { LastEncoded(bits); }
    } else {
      var n := LastGroup(bits);
      var front, group := bits[..|bits| - n], bits[|bits| - n..] + Zeros(5 - n);
      EncodedBits(front);
      LastEncoded(bits);
      assert Padding(|front|) == 0 && Padding(|bits|) == 5 - n;
      AppendChar(Encoded(front), Value5(group));
      assert bits + Zeros(5 - n) == front + group;
      assert front + Zeros(0) == front;
    }
  }

  lemma LastEncoded(bits: Bits)
    ensures if bits == [] then Encoded(bits) == ""
            else
              var n := LastGroup(bits);
              Encoded(bits) == Encoded(bits[..|bits| - n]) + [Digit(Value5(bits[|bits| - n..] + Zeros(5 - n)))]
  {
    hide Digit, IndexOf, IsDigit, BitsOf, CharBits, Value5, Zeros, LastGroup;
  }

  lemma AppendChar(s: string, v: nat)
    requires InAlphabet(s) && v < 32
    ensures InAlphabet(s + [Digit(v)]) && CharBits(s + [Digit(v)]) == CharBits(s) + BitsOf(v, 5)
  {
    hide Digit, IndexOf, IsDigit, BitsOf;
    assert (s + [Digit(v)])[..|s|] == s;
  }

  function Encode(bytes: Bytes): string { Encoded(ByteBits(bytes)) }

  /** The bits that make whole octets, and those left over. */
  function Whole(bits: Bits): (r: Bits)
    ensures |r| % 8 == 0
  {
    QuotientRemainder(|bits|, 8);
    assert |bits| - |bits| % 8 == 8 * (|bits| / 8);
    bits[..|bits| - |bits| % 8]
  }

  function Leftover(bits: Bits): (r: Bits)
    ensures |r| == |bits| % 8 < 8
    ensures Whole(bits) + r == bits
  {
    bits[|bits| - |bits| % 8..]
  }

  function Octets(bits: Bits): (r: Bytes)
    requires |bits| % 8 == 0
    ensures ByteBits(r) == bits
  {
    if bits == [] then []
    else
      var r := Octets(bits[..|bits| - 8]) + [Value8(bits[|bits| - 8..])];
      assert r[..|r| - 1] == Octets(bits[..|bits| - 8]);
      r
  }

  datatype Error = Invalid | NonCanonical
  datatype Decoded = Ok(bytes: Bytes) | Err(error: Error)

  function Decode(clean: string): Decoded {
    hide IsDigit, IndexOf, BitsOf, Octets, CharBits, Whole, Leftover;
    if clean == "" || !InAlphabet(clean) then Err(Invalid)
    else
      var bits := CharBits(clean);
      if Leftover(bits) == Zeros(|bits| % 8) then Ok(Octets(Whole(bits))) else Err(NonCanonical)
  }

  // ---------------------------------------------------------------- bits moved by the shifts

  lemma Doubled(v: nat, p: nat, low: nat)
    ensures var w := v * (2 * p) + low;
            w / 2 == v * p + low / 2 && w % 2 == low % 2
  {
    var x := v * p;
    assert v * (2 * p) == 2 * x;
  }

  lemma {:induction false} BitsShifted(v: nat, k: nat, low: nat, n: nat)
    requires low < Pow2(k)
    ensures BitsOf(v * Pow2(k) + low, n + k) == BitsOf(v, n) + BitsOf(low, k)
  {
    if k > 0 {
      var p := Pow2(k - 1);
      assert Pow2(k) == 2 * p;
      hide Pow2;
      Doubled(v, p, low);
      BitsShifted(v, k - 1, low / 2, n);
    }
  }

  lemma {:induction false} BitsOfRemainder(v: nat, m: nat, n: nat)
    requires n <= m
    ensures BitsOf(v % Pow2(m), n) == BitsOf(v, n)
  {
    if n > 0 {
      HalfRemainder(v, m);
      BitsOfRemainder(v / 2, m - 1, n - 1);
    }
  }

  lemma HalfRemainder(v: nat, m: nat)
    requires m > 0
    ensures (v % Pow2(m)) / 2 == (v / 2) % Pow2(m - 1) && (v % Pow2(m)) % 2 == v % 2
  {
    HalfRemainderOf(v, Pow2(m), Pow2(m - 1));
  }

  lemma HalfRemainderOf(v: nat, d: nat, p: nat)
    requires p > 0 && d == 2 * p
    ensures (v % d) / 2 == (v / 2) % p && v % d % 2 == v % 2
  {
    QuotientRemainder(v, d);
    HalfOf(v, d, p, v / d, v % d);
  }

  lemma HalfOf(v: nat, d: nat, p: nat, q: nat, r: nat)
    requires d == 2 * p && r < d && v == q * d + r
    ensures v / 2 % p == r / 2 && v % 2 == r % 2
  {
    Doubled(q, p, r);
    Commutes(q, p);
    QuotientUnique(v / 2, p, q, r / 2);
  }

  /** Shifting in is appending bits, whatever is lost at the top. */
  lemma ShiftInBits(value: Word, k: nat, low: nat, n: nat)
    requires low < Pow2(k) && n + k <= 32
    ensures BitsOf(ShiftIn(value, k, low), n + k) == BitsOf(value, n) + BitsOf(low, k)
  {
    assert Pow2(32) == 0x1_0000_0000 by { Pow2Of32(); }
    BitsOfRemainder(value * Pow2(k) + low, 32, n + k);
    BitsShifted(value, k, low, n);
  }

  lemma Pow2Of32()
    ensures Pow2(32) == 0x1_0000_0000
  {
    assert Pow2(8) == 0x100;
    assert Pow2(16) == 0x1_0000;
    assert Pow2(24) == 0x100_0000;
  }

  /** Shifting out is splitting bits. */
  lemma ShiftOutBits(value: Word, k: nat, n: nat)
    ensures BitsOf(value, n + k) == BitsOf(ShiftOut(value, k), n) + BitsOf(value, k)
  {
    hide BitsOf, Pow2;
    var p := Pow2(k);
    assert value == (value / p) * p + value % p;
    BitsShifted(value / p, k, value % p, n);
    BitsOfRemainder(value, k, k);
  }

  lemma MaskBits(v: nat, n: nat)
    ensures BitsOf(v % Pow2(n), n) == BitsOf(v, n)
  {
    BitsOfRemainder(v, n, n);
  }

  lemma {:induction false} ZeroBits(n: nat)
    ensures BitsOf(0, n) == Zeros(n)
  {
    if n > 0 { ZeroBits(n - 1); }
  }

  lemma ZeroBitsIff(v: nat, n: nat)
    ensures BitsOf(v, n) == Zeros(n) <==> v % Pow2(n) == 0
  {
    MaskBits(v, n);
    ValueOfBits(v % Pow2(n), n);
    ZeroBits(n);
    ValueOfBits(0, n);
  }

  lemma LastChar(s: string)
    requires s != "" && InAlphabet(s)
    ensures InAlphabet(s[..|s| - 1]) && IsDigit(s[|s| - 1])
    ensures CharBits(s) == CharBits(s[..|s| - 1]) + BitsOf(IndexOf(s[|s| - 1]), 5)
  {
    hide IndexOf, IsDigit, BitsOf;
  }

  lemma {:induction false} CharsInjective(s: string, t: string)
    requires InAlphabet(s) && InAlphabet(t) && CharBits(s) == CharBits(t)
    ensures s == t
  {
    hide Digit, IndexOf, IsDigit, BitsOf, CharBits, Pow2;
    if s != "" {
      LastChar(s);
      LastChar(t);
      var a, b := IndexOf(s[|s| - 1]), IndexOf(t[|t| - 1]);
      SameSplit(CharBits(s[..|s| - 1]), BitsOf(a, 5), CharBits(t[..|t| - 1]), BitsOf(b, 5));
      CharsInjective(s[..|s| - 1], t[..|t| - 1]);
      ByteFits(0);
      ValueOfBits(a, 5);
      ValueOfBits(b, 5);
      DigitOfIndex(s[|s| - 1]);
      DigitOfIndex(t[|t| - 1]);
    }
  }

  lemma {:induction false} BytesInjective(a: Bytes, b: Bytes)
    requires ByteBits(a) == ByteBits(b)
    ensures a == b
  {
    hide BitsOf;
    if a != [] {
      var x, y := a[|a| - 1], b[|b| - 1];
      SameSplit(ByteBits(a[..|a| - 1]), BitsOf(x, 8), ByteBits(b[..|b| - 1]), BitsOf(y, 8));
      BytesInjective(a[..|a| - 1], b[..|b| - 1]);
      ByteFits(x);
      ByteFits(y);
      ValueOfBits(x, 8);
      ValueOfBits(y, 8);
    }
  }

  // ---------------------------------------------------------------- the loops

  lemma AppendByte(bytes: Bytes, i: nat)
    requires i < |bytes|
    ensures ByteBits(bytes[..i + 1]) == ByteBits(bytes[..i]) + BitsOf(bytes[i], 8)
  {
    assert bytes[..i + 1][..i] == bytes[..i];
  }

  /** `base32Encode`. */
  method Base32Encode(bytes: Bytes) returns (output: string)
    ensures output == Encode(bytes)
  {
    hide BitsOf, CharBits, ByteBits, Encoded, ShiftIn, ShiftOut, Pow2, Digit, IndexOf, IsDigit;
    var bits := 0;
    var value: Word := 0;
    output := "";
    EmptyBits(value);
    assert bytes[..0] == [];
    for i := 0 to |bytes|
      invariant 0 <= bits < 5 && InAlphabet(output)
      invariant CharBits(output) + BitsOf(value, bits) == ByteBits(bytes[..i])
    {
      AppendByte(bytes, i);
      ByteFits(bytes[i]);
      ShiftInBits(value, 8, bytes[i], bits);
      value := ShiftIn(value, 8, bytes[i]);
      bits := bits + 8;
      while bits >= 5
        invariant 0 <= bits < 13 && InAlphabet(output)
        invariant CharBits(output) + BitsOf(value, bits) == ByteBits(bytes[..i + 1])
      {
        PopFive(value, bits, output);
        AlphabetAt(ShiftOut(value, bits - 5) % 32);
        output := output + [ALPHABET[ShiftOut(value, bits - 5) % 32]];
        bits := bits - 5;
      }
    }
    assert bytes[..|bytes|] == bytes;
    Flushed(bytes, output, value, bits);
    if bits > 0 {
      AlphabetAt(ShiftIn(value, 5 - bits, 0) % 32);
      output := output + [ALPHABET[ShiftIn(value, 5 - bits, 0) % 32]];
    }
  }

  /** What the last step makes of the output. */
  lemma Flushed(bytes: Bytes, output: string, value: Word, bits: nat)
    requires bits < 5 && InAlphabet(output) && CharBits(output) + BitsOf(value, bits) == ByteBits(bytes)
    ensures bits > 0 ==> 0 < Pow2(5 - bits)
    ensures Encode(bytes) == if bits > 0 then output + [Digit(ShiftIn(value, 5 - bits, 0) % 32)] else output
  {
    hide BitsOf, CharBits, ByteBits, Encoded, ShiftIn, Pow2, Digit, IndexOf, IsDigit, Zeros;
    EncodedBits(ByteBits(bytes));
    assert 5 * |output| + bits == 8 * |bytes|;
    if bits > 0 {
      PopLast(value, bits, output);
      CharsInjective(output + [Digit(ShiftIn(value, 5 - bits, 0) % 32)], Encode(bytes));
    } else {
      EmptyBits(value);
      CharsInjective(output, Encode(bytes));
    }
  }

  /** The five top bits of the accumulator leave as a digit. */
  lemma PopFive(value: Word, bits: nat, output: string)
    requires bits >= 5 && InAlphabet(output)
    ensures var s := output + [Digit(ShiftOut(value, bits - 5) % 32)];
            InAlphabet(s) && CharBits(s) + BitsOf(value, bits - 5) == CharBits(output) + BitsOf(value, bits)
  {
    hide BitsOf, CharBits, ShiftOut, Pow2, Digit, IndexOf, IsDigit;
    var v := ShiftOut(value, bits - 5);
    ShiftOutBits(value, bits - 5, 5);
    LowFive(v);
    AppendChar(output, v % 32);
    assert CharBits(output) + BitsOf(v, 5) + BitsOf(value, bits - 5) == CharBits(output) + (BitsOf(v, 5) + BitsOf(value, bits - 5));
  }

  /** The last bits leave as a digit filled with zeros. */
  lemma PopLast(value: Word, bits: nat, output: string)
    requires 0 < bits < 5 && InAlphabet(output)
    ensures 0 < Pow2(5 - bits)
    ensures var s := output + [Digit(ShiftIn(value, 5 - bits, 0) % 32)];
            InAlphabet(s) && CharBits(s) == CharBits(output) + BitsOf(value, bits) + Zeros(5 - bits)
  {
    hide BitsOf, CharBits, ShiftIn, Pow2, Digit, IndexOf, IsDigit;
    var v := ShiftIn(value, 5 - bits, 0);
    ShiftInBits(value, 5 - bits, 0, bits);
    ZeroBits(5 - bits);
    LowFive(v);
    AppendChar(output, v % 32);
  }

  /** The eight top bits of the accumulator leave as a byte. */
  lemma PopEight(value: Word, bits: nat, output: Bytes)
    requires bits >= 8
    ensures ByteBits(output + [ShiftOut(value, bits - 8) % 256]) + BitsOf(value, bits - 8) == ByteBits(output) + BitsOf(value, bits)
  {
    hide BitsOf, ShiftOut, Pow2;
    var v := ShiftOut(value, bits - 8);
    ShiftOutBits(value, bits - 8, 8);
    LowEight(v);
    assert (output + [v % 256])[..|output|] == output;
  }

  lemma EmptyBits(value: nat)
    ensures BitsOf(value, 0) == [] && CharBits("") == [] && ByteBits([]) == []
  {
  }

  lemma ByteFits(b: Byte)
    ensures b < Pow2(8) && forall k: nat :: 0 < Pow2(k)
    ensures Pow2(5) == 32
  {
    assert Pow2(8) == 256 && Pow2(5) == 32;
  }

  lemma LowFive(v: nat)
    ensures BitsOf(v % 32, 5) == BitsOf(v, 5)
  {
    assert Pow2(5) == 32;
    MaskBits(v, 5);
  }

  lemma LowEight(v: nat)
    ensures BitsOf(v % 256, 8) == BitsOf(v, 8)
  {
    assert Pow2(8) == 256;
    MaskBits(v, 8);
  }

  lemma AppendIndex(s: string, i: nat)
    requires i < |s| && InAlphabet(s[..i]) && IsDigit(s[i])
    ensures InAlphabet(s[..i + 1]) && CharBits(s[..i + 1]) == CharBits(s[..i]) + BitsOf(IndexOf(s[i]), 5)
  {
    hide Digit, IndexOf, IsDigit, BitsOf, CharBits;
    DigitOfIndex(s[i]);
    assert s[..i + 1] == s[..i] + [Digit(IndexOf(s[i]))];
    AppendChar(s[..i], IndexOf(s[i]));
  }

  /** `base32Decode` on the cleaned text. */
  method Base32Decode(clean: string) returns (r: Decoded)
    ensures r == Decode(clean)
  {
    hide BitsOf, CharBits, ByteBits, Octets, ShiftIn, ShiftOut, Pow2, Digit, IndexOf, IsDigit;
    if clean == "" { return Err(Invalid); }
    var bits := 0;
    var value: Word := 0;
    var output: Bytes := [];
    EmptyBits(value);
    assert clean[..0] == "";
    for i := 0 to |clean|
      invariant 0 <= bits < 8 && InAlphabet(clean[..i])
      invariant ByteBits(output) + BitsOf(value, bits) == CharBits(clean[..i])
    {
      var index := IndexOf(clean[i]);
      if index < 0 { return Err(Invalid); }
      AppendIndex(clean, i);
      ByteFits(0);
      ShiftInBits(value, 5, index, bits);
      value := ShiftIn(value, 5, index);
      bits := bits + 5;
      if bits >= 8 {
        PopEight(value, bits, output);
        output := output + [ShiftOut(value, bits - 8) % 256];
        bits := bits - 8;
      }
    }
    assert clean[..|clean|] == clean;
    DecodedBits(clean, output, value, bits);
    if bits > 0 && value % Pow2(bits) != 0 { return Err(NonCanonical); }
    return Ok(output);
  }

  lemma DecodedBits(clean: string, output: Bytes, value: Word, bits: nat)
    requires clean != "" && InAlphabet(clean) && bits < 8
    requires ByteBits(output) + BitsOf(value, bits) == CharBits(clean)
    ensures Decode(clean) == if bits > 0 && value % Pow2(bits) != 0 then Err(NonCanonical) else Ok(output)
  {
    hide BitsOf, CharBits, ByteBits, Octets, Pow2, Digit, IndexOf, IsDigit;
    var all := CharBits(clean);
    assert |all| == 8 * |output| + bits && |all| % 8 == bits;
    assert Whole(all) == ByteBits(output) && Leftover(all) == BitsOf(value, bits);
    ZeroBitsIff(value, bits);
    BytesInjective(Octets(Whole(all)), output);
  }

  // ---------------------------------------------------------------- round trips

  /** Decoding undoes encoding, for every non-empty input and only for those. */
  lemma DecodeEncode(bytes: Bytes)
    ensures Decode(Encode(bytes)) == if bytes == [] then Err(Invalid) else Ok(bytes)
  {
    hide BitsOf, CharBits, ByteBits, Octets, Encode, Digit, IndexOf, IsDigit, Zeros, Padding;
    var bits, p := ByteBits(bytes), Padding(8 * |bytes|);
    EncodeKnown(bytes);
    EmptyBits(0);
    if bytes == [] { EncodeNothing(); }
    var all := CharBits(Encode(bytes));
    EightsAway(|bytes|, p);
    assert |all| == 8 * |bytes| + p && |all| % 8 == p;
    assert Whole(all) == bits && Leftover(all) == Zeros(p);
    BytesInjective(Octets(bits), bytes);
  }

  lemma FirstDigit()
    ensures Digit(0) == 'A'
  {
  }

  lemma SpareBits(n: nat)
    ensures (5 * n) % 8 >= 5 <==> n % 8 in {1, 3, 6}
  {
    var k, r := n / 8, n % 8;
    assert 5 * n == 8 * (5 * k) + 5 * r;
    assert (5 * n) % 8 == (5 * r) % 8;
  }

  /** Encoding undoes decoding of every accepted text, up to one final 'A' exactly when the length
      leaves a whole group of spare bits. */
  lemma EncodeDecode(s: string)
    requires Decode(s).Ok?
    ensures if |s| % 8 in {1, 3, 6} then s == Encode(Decode(s).bytes) + "A" else s == Encode(Decode(s).bytes)
  {
    hide BitsOf, Octets, Encoded, CharBits, Digit, IndexOf, IsDigit, Zeros, Whole, Leftover;
    var whole, left := Whole(CharBits(s)), |CharBits(s)| % 8;
    var e := Encode(Decode(s).bytes);
    assert CharBits(s) == whole + Zeros(left);
    var p := Padding(|whole|);
    EncodedBits(whole);
    SpareBits(|s|);
    SparePadding(|whole|, left, |s|);
    if left < 5 {
      CharsInjective(e, s);
    } else {
      SpareGroup(s, whole, p);
      CharsInjective(e, s[..|s| - 1]);
    }
  }

  lemma SparePadding(whole: nat, left: nat, n: nat)
    requires whole + left == 5 * n && left < 8
    ensures Padding(whole) == if left < 5 then left else left - 5
  {
  }

  /** Five spare zero bits are a final 'A'. */
  lemma SpareGroup(s: string, whole: Bits, p: nat)
    requires s != "" && InAlphabet(s) && CharBits(s) == whole + Zeros(p + 5)
    ensures CharBits(s[..|s| - 1]) == whole + Zeros(p) && s == s[..|s| - 1] + "A"
  {
    hide *;
    var c := s[|s| - 1];
    LastChar(s);
    ZerosSplit(p, 5);
    assert whole + Zeros(p + 5) == whole + Zeros(p) + Zeros(5);
    SameSplit(CharBits(s[..|s| - 1]), BitsOf(IndexOf(c), 5), whole + Zeros(p), Zeros(5));
    LastDigit(IndexOf(c));
    DigitOfIndex(c);
  }

  lemma SameSplit<T>(a: seq<T>, b: seq<T>, c: seq<T>, d: seq<T>)
    requires a + b == c + d && |b| == |d|
    ensures a == c && b == d
  {
    assert a == (a + b)[..|a|] && c == (c + d)[..|c|];
    assert b == (a + b)[|a|..] && d == (c + d)[|c|..];
  }

  lemma LastDigit(c: nat)
    requires c < 32 && BitsOf(c, 5) == Zeros(5)
    ensures Digit(c) == 'A'
  {
    hide IndexOf, BitsOf, Zeros, IsDigit, Digit, Pow2;
    ZeroBitsIff(c, 5);
    ByteFits(0);
    FirstDigit();
  }

  /** A text with a character outside the alphabet, or none at all, is invalid; one whose spare bits are
      not all zero is not canonical. */
  lemma ErrorsExact(s: string)
    ensures Decode(s) == Err(Invalid) <==> s == "" || exists i :: 0 <= i < |s| && s[i] !in ALPHABET
    ensures Decode(s) == Err(NonCanonical) <==> s != "" && InAlphabet(s) && exists k :: |CharBits(s)| - |CharBits(s)| % 8 <= k < |CharBits(s)| && CharBits(s)[k]
  {
    hide IsDigit, IndexOf, BitsOf, Octets, CharBits;
    forall i | 0 <= i < |s| ensures s[i] in ALPHABET <==> IsDigit(s[i]) { IndexOfExact(s[i]); }
    if InAlphabet(s) {
      var bits := CharBits(s);
      var n := |bits| - |bits| % 8;
      assert forall k :: n <= k < |bits| ==> bits[k] == Leftover(bits)[k - n];
      if Leftover(bits) != Zeros(|bits| % 8) {
        var k :| 0 <= k < |bits| % 8 && Leftover(bits)[k] != Zeros(|bits| % 8)[k];
        assert bits[n + k];
      }
    }
  }

  lemma SpareAccepted(bytes: Bytes)
    requires var n := |Encode(bytes)| + 1; n % 8 in {1, 3, 6}
    ensures Decode(Encode(bytes) + "A") == Ok(bytes)
  {
    var e := Encode(bytes);
    var s := e + "A";
    hide BitsOf, Octets, Encoded, CharBits, Digit, IndexOf, IsDigit, Zeros, Padding, Encode, ByteBits;
    EncodeKnown(bytes);
    var p := Padding(8 * |bytes|);
    FirstDigit();
    AppendChar(e, 0);
    ZeroBits(5);
    ZerosSplit(p, 5);
    SpareBits(|s|);
    var all := CharBits(s);
    assert all == ByteBits(bytes) + Zeros(p + 5);
    SpareLength(|bytes|, p, |s|);
    assert Whole(all) == ByteBits(bytes) && Leftover(all) == Zeros(p + 5);
    BytesInjective(Octets(ByteBits(bytes)), bytes);
  }

  lemma EncodeKnown(bytes: Bytes)
    ensures InAlphabet(Encode(bytes)) && CharBits(Encode(bytes)) == ByteBits(bytes) + Zeros(Padding(8 * |bytes|))
  {
    hide Encoded, CharBits, Zeros, Padding;
    EncodedBits(ByteBits(bytes));
  }

  lemma SpareLength(bytes: nat, p: nat, n: nat)
    requires 5 * n == 8 * bytes + p + 5 && p < 5 && (5 * n) % 8 >= 5
    ensures (8 * bytes + p + 5) % 8 == p + 5
  {
    EightsAway(bytes, p + 5);
  }

  lemma EightsAway(n: nat, r: nat)
    ensures (8 * n + r) % 8 == r % 8
  {
  }

  /** The accepted texts are exactly the encodings of some bytes, and those with one redundant final 'A'
      whose length leaves a whole group of spare bits. */
  lemma AcceptedIff(s: string)
    ensures Decode(s).Ok? <==>
            s != "" && exists bytes :: s == Encode(bytes) || (s == Encode(bytes) + "A" && |s| % 8 in {1, 3, 6})
  {
    hide Decode, Encode;
    if Decode(s).Ok? {
      EncodeDecode(s);
      ErrorsExact(s);
      var bytes := Decode(s).bytes;
      assert s == Encode(bytes) || (s == Encode(bytes) + "A" && |s| % 8 in {1, 3, 6});
    }
    forall bytes | s != "" && s == Encode(bytes) ensures Decode(s).Ok? {
      DecodeEncode(bytes);
      if bytes == [] { EncodeNothing(); }
    }
    forall bytes | s == Encode(bytes) + "A" && |s| % 8 in {1, 3, 6} ensures Decode(s).Ok? { SpareAccepted(bytes); }
  }

  lemma EncodeNothing()
    ensures Encode([]) == ""
  {
  }
}
