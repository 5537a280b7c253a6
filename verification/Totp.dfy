/** One-time codes (apps/worker/src/auth/totp.ts) over the decoder of Base32. */
module Totp {
  import opened Common
  import opened Base32

  // ---------------------------------------------------------------- cleaning a secret

  function StripEquals(s: string): string {
    if s != "" && s[|s| - 1] == '=' then StripEquals(s[..|s| - 1]) else s
  }

  function RemoveSpaces(s: string): string {
    if s == "" then "" else RemoveSpaces(s[..|s| - 1]) + if IsSpace(s[|s| - 1] as int) then "" else [s[|s| - 1]]
  }

  function UpperCase(s: string, upper: char -> string): string {
    if s == "" then "" else UpperCase(s[..|s| - 1], upper) + upper(s[|s| - 1])
  }

  /** `base32Decode`; `upper` is the upper-casing of one character. */
  function DecodeSecret(secret: string, upper: char -> string): Decoded {
    Decode(UpperCase(RemoveSpaces(StripEquals(secret)), upper))
  }

  lemma DigitsArePlain(c: char)
    requires IsDigit(c)
    ensures c != '=' && !IsSpace(c as int)
  {
  }

  lemma {:induction false} CleanKeepsDigits(s: string, upper: char -> string)
    requires InAlphabet(s) && forall c :: IsDigit(c) ==> upper(c) == [c]
    ensures StripEquals(s) == s && RemoveSpaces(s) == s && UpperCase(s, upper) == s
  {
    hide IsDigit, IsSpace;
    if s != "" {
      var front, c := s[..|s| - 1], s[|s| - 1];
      assert s == front + [c] && IsDigit(c);
      CleanKeepsDigits(front, upper);
      DigitsArePlain(c);
    }
  }

  /** The secret handed out decodes to the bytes it was made of. */
  lemma SecretRoundTrip(bytes: Bytes, upper: char -> string)
    requires forall c :: IsDigit(c) ==> upper(c) == [c]
    ensures DecodeSecret(Encode(bytes), upper) == if bytes == [] then Err(Invalid) else Ok(bytes)
  {
    CleanKeepsDigits(Encode(bytes), upper);
    DecodeEncode(bytes);
  }

  lemma {:induction false} SpacesConcat(a: string, b: string)
    ensures RemoveSpaces(a + b) == RemoveSpaces(a) + RemoveSpaces(b)
  {
    if b == "" {
      assert a + b == a;
    } else {
      assert (a + b)[..|a + b| - 1] == a + b[..|b| - 1];
      SpacesConcat(a, b[..|b| - 1]);
    }
  }

  lemma {:induction false} UpperConcat(a: string, b: string, upper: char -> string)
    ensures UpperCase(a + b, upper) == UpperCase(a, upper) + UpperCase(b, upper)
  {
    if b == "" {
      assert a + b == a;
    } else {
      assert (a + b)[..|a + b| - 1] == a + b[..|b| - 1];
      UpperConcat(a, b[..|b| - 1], upper);
    }
  }

  /** Padding at the end of a secret is ignored, however much there is. */
  lemma PaddingIgnored(s: string, upper: char -> string)
    ensures DecodeSecret(s + "=", upper) == DecodeSecret(s, upper)
  {
    assert (s + "=")[..|s|] == s;
  }

  lemma {:induction false} StripKeepsFront(a: string, b: string)
    requires StripEquals(b) != ""
    ensures StripEquals(a + b) == a + StripEquals(b)
  {
    assert (a + b)[|a + b| - 1] == b[|b| - 1];
    if b[|b| - 1] == '=' {
      assert (a + b)[..|a + b| - 1] == a + b[..|b| - 1];
      StripKeepsFront(a, b[..|b| - 1]);
    }
  }

  /** White space anywhere before the last character that is not padding is ignored. */
  lemma SpaceIgnored(a: string, space: char, b: string, upper: char -> string)
    requires IsSpace(space as int) && StripEquals(b) != ""
    ensures DecodeSecret(a + [space] + b, upper) == DecodeSecret(a + b, upper)
  {
    hide Decode, StripEquals, RemoveSpaces, UpperCase, IsSpace;
    var c := StripEquals(b);
    StripKeepsFront(a + [space], b);
    StripKeepsFront(a, b);
    SpacesConcat(a + [space], c);
    SpacesConcat(a, c);
    SpacesConcat(a, [space]);
    OneSpace(space);
    assert RemoveSpaces(a) + "" + RemoveSpaces(c) == RemoveSpaces(a) + RemoveSpaces(c);
  }

  lemma OneSpace(c: char)
    ensures RemoveSpaces([c]) == if IsSpace(c as int) then "" else [c]
  {
    assert [c][..0] == "";
    assert RemoveSpaces("") == "";
  }

  lemma OneUpper(c: char, upper: char -> string)
    ensures UpperCase([c], upper) == upper(c)
  {
    assert [c][..0] == "";
    assert UpperCase("", upper) == "";
  }

  /** The case of a letter is ignored. */
  lemma CaseIgnored(a: string, c: char, d: char, b: string, upper: char -> string)
    requires upper(c) == upper(d) && c != '=' && d != '=' && !IsSpace(c as int) && !IsSpace(d as int)
    ensures DecodeSecret(a + [c] + b, upper) == DecodeSecret(a + [d] + b, upper)
  {
    hide Decode, RemoveSpaces, UpperCase, IsSpace, StripEquals;
    StripAfter(a, c, b);
    StripAfter(a, d, b);
    var e := StripEquals(b);
    CleanAround(a, c, e, upper);
    CleanAround(a, d, e, upper);
  }

  lemma CleanAround(a: string, c: char, b: string, upper: char -> string)
    requires !IsSpace(c as int)
    ensures UpperCase(RemoveSpaces(a + [c] + b), upper) == UpperCase(RemoveSpaces(a), upper) + upper(c) + UpperCase(RemoveSpaces(b), upper)
  {
    hide RemoveSpaces, UpperCase, IsSpace;
    SpacesConcat(a + [c], b);
    SpacesConcat(a, [c]);
    OneSpace(c);
    UpperConcat(RemoveSpaces(a) + [c], RemoveSpaces(b), upper);
    UpperConcat(RemoveSpaces(a), [c], upper);
    OneUpper(c, upper);
  }

  lemma {:induction false} StripAfter(a: string, c: char, b: string)
    requires c != '='
    ensures StripEquals(a + [c] + b) == a + [c] + StripEquals(b)
  {
    var s := a + [c] + b;
    if b == "" {
      assert s == a + [c] && s[|s| - 1] == c;
    } else {
      assert s[|s| - 1] == b[|b| - 1];
      if b[|b| - 1] == '=' {
        assert s[..|s| - 1] == a + [c] + b[..|b| - 1];
        StripAfter(a, c, b[..|b| - 1]);
      }
    }
  }

  // ---------------------------------------------------------------- HOTP

  const MAX_SAFE_INTEGER := 0x1f_ffff_ffff_ffff

  function BigEndian(bytes: Bytes): nat {
    if bytes == [] then 0 else 256 * BigEndian(bytes[..|bytes| - 1]) + bytes[|bytes| - 1] as int
  }

  /** `DataView.setUint32(at, value, false)`. */
  method SetUint32(view: array<Byte>, at: nat, value: nat)
    requires at + 4 <= view.Length
    modifies view
    ensures view[..at] == old(view[..at]) && view[at + 4..] == old(view[at + 4..])
    ensures BigEndian(view[at..at + 4]) == value % 0x1_0000_0000
  {
    hide BigEndian;
    var word := value % 0x1_0000_0000;
    WordBytes(word);
    view[at] := word / 0x100_0000;
    view[at + 1] := word / 0x1_0000 % 256;
    view[at + 2] := word / 0x100 % 256;
    view[at + 3] := word % 256;
    BigEndian4(view[at..at + 4]);
  }

  lemma WordBytes(word: nat)
    requires word < 0x1_0000_0000
    ensures word / 0x100_0000 < 256
    ensures word == 0x100_0000 * (word / 0x100_0000) + 0x1_0000 * (word / 0x1_0000 % 256) + 0x100 * (word / 0x100 % 256) + word % 256
  {
    var q := word / 0x100;
    var r := q / 0x100;
    assert word / 0x1_0000 == r && word / 0x100_0000 == r / 0x100;
  }

  lemma BigEndian4(b: Bytes)
    requires |b| == 4
    ensures BigEndian(b) == 0x100_0000 * (b[0] as int) + 0x1_0000 * (b[1] as int) + 0x100 * (b[2] as int) + b[3] as int
  {
    assert b == [] + [b[0]] + [b[1]] + [b[2]] + [b[3]];
    assert BigEndian([]) == 0;
    hide BigEndian;
    BigEndianAppend([], b[0]);
    BigEndianAppend([] + [b[0]], b[1]);
    BigEndianAppend([] + [b[0]] + [b[1]], b[2]);
    BigEndianAppend([] + [b[0]] + [b[1]] + [b[2]], b[3]);
  }

  lemma BigEndianConcat4(a: Bytes, b: Bytes)
    requires |b| == 4
    ensures BigEndian(a + b) == 0x1_0000_0000 * BigEndian(a) + BigEndian(b)
  {
    hide BigEndian;
    BigEndian4(b);
    BigEndianAppend(a, b[0]);
    BigEndianAppend(a + [b[0]], b[1]);
    BigEndianAppend(a + [b[0]] + [b[1]], b[2]);
    BigEndianAppend(a + [b[0]] + [b[1]] + [b[2]], b[3]);
    assert a + b == a + [b[0]] + [b[1]] + [b[2]] + [b[3]];
  }

  lemma BigEndianAppend(a: Bytes, x: Byte)
    ensures BigEndian(a + [x]) == 256 * BigEndian(a) + x as int
  {
    assert (a + [x])[..|a|] == a;
  }

  /** The message authenticated for a counter: its 64-bit big-endian form. */
  method PackCounter(counter: nat) returns (buffer: Bytes)
    requires counter <= MAX_SAFE_INTEGER
    ensures |buffer| == 8 && BigEndian(buffer) == counter
  {
    hide BigEndian;
    var view := new Byte[8](_ => 0);
    SetUint32(view, 0, counter / 0x1_0000_0000);
    SetUint32(view, 4, counter % 0x1_0000_0000);
    buffer := view[..];
    assert view[..4] == view[0..4] && view[4..] == view[4..8] && buffer == view[..4] + view[4..];
    BigEndianConcat4(view[..4], view[4..]);
  }

  /** The decimal digits of n, at least `digits` of them. */
  function Padded(n: nat, digits: nat): (s: string)
    requires n < Pow10(digits)
    ensures |s| == digits && (forall i :: 0 <= i < digits ==> IsDecimalDigit(s[i])) && DecimalValue(s) == n
  {
    if digits == 0 then ""
    else
      var s := Padded(n / 10, digits - 1) + [('0' as int + n % 10) as char];
      assert s[..|s| - 1] == Padded(n / 10, digits - 1);
      s
  }

  function Pow10(n: nat): (p: nat)
    ensures p > 0
  {
    if n == 0 then 1 else 10 * Pow10(n - 1)
  }

  /** The 31 bits taken from four bytes: `(a & 0x7f) << 24 | b << 16 | c << 8 | d`. */
  function Binary(a: int, b: int, c: int, d: int): int {
    a % 128 * 0x100_0000 + b * 0x1_0000 + c * 0x100 + d
  }

  lemma BinaryIsLow31(s: Bytes)
    requires |s| == 4
    ensures Binary(s[0], s[1], s[2], s[3]) == BigEndian(s) % 0x8000_0000
  {
    BigEndian4(s);
    var a: int := s[0];
    var q, r := a / 128, a % 128;
    assert BigEndian(s) == Binary(s[0], s[1], s[2], s[3]) + 0x8000_0000 * q;
    assert 0 <= Binary(s[0], s[1], s[2], s[3]) < 0x8000_0000;
  }

  /** Dynamic truncation (RFC 4226, section 5.3) of an HMAC-SHA-1 signature: the code is the last
      `digits` decimal digits of 31 bits of the signature. */
  function Truncate(signature: Bytes, digits: nat): (code: string)
    requires |signature| == 20
    ensures var offset := signature[19] % 16;
            && |code| == digits && (forall i :: 0 <= i < digits ==> IsDecimalDigit(code[i]))
            && DecimalValue(code) == BigEndian(signature[offset..offset + 4]) % 0x8000_0000 % Pow10(digits)
  {
    var offset := signature[19] % 16;
    BinaryIsLow31(signature[offset..offset + 4]);
    var binary := Binary(signature[offset], signature[offset + 1], signature[offset + 2], signature[offset + 3]);
    assert binary == BigEndian(signature[offset..offset + 4]) % 0x8000_0000;
    Padded(binary % Pow10(digits), digits)
  }

  // ---------------------------------------------------------------- the window

  datatype Verdict = Yes | No | Throws

  predicate IsSixDigits(code: string) { |code| == 6 && forall i :: 0 <= i < 6 ==> IsDecimalDigit(code[i]) }

  /** `verifyTotp`; `hotp` is the code of a decoded secret at a counter.  A code is accepted exactly when
      it belongs to one of the 2 * window + 1 counters around the current one. */
  method VerifyTotp(code: string, secret: string, upper: char -> string, hotp: (Bytes, nat) -> string, counter: nat, window: int)
    returns (r: Verdict)
    ensures r == Throws <==> secret != "" && IsSixDigits(code) && 0 <= window <= 5 && DecodeSecret(secret, upper).Err?
    ensures r == Yes <==>
            && secret != "" && IsSixDigits(code) && 0 <= window <= 5 && DecodeSecret(secret, upper).Ok?
            && exists c :: 0 <= c && counter - window <= c <= counter + window && hotp(DecodeSecret(secret, upper).bytes, c) == code
  {
    hide DecodeSecret;
    if code == "" || secret == "" || !IsSixDigits(code) { return No; }
    if window < 0 || window > 5 { return No; }
    var offset := -window;
    while offset <= window
      invariant -window <= offset <= window + 1
      invariant offset > 0 ==> DecodeSecret(secret, upper).Ok?
      invariant DecodeSecret(secret, upper).Ok? ==>
                  forall c :: 0 <= c && counter - window <= c < counter + offset ==> hotp(DecodeSecret(secret, upper).bytes, c) != code
      decreases window - offset
    {
      if counter + offset >= 0 {
        var key := DecodeSecret(secret, upper);
        if key.Err? { return Throws; }
        if hotp(key.bytes, counter + offset) == code { return Yes; }
      }
      offset := offset + 1;
    }
    return No;
  }
}
