/**
 * Base64 as the code uses it: `btoa` over a string of Latin-1 characters (section 4 of RFC 4648,
 * with padding) and `atob`, the forgiving-base64 decoder of the WHATWG Infra standard.
 */
module Base64 {
  import opened Results

  /** An octet, the element type of a Uint8Array. */
  type uint8 = x: int | 0 <= x < 256

  // ---------------------------------------------------------------------------------------------
  // The alphabet (Table 1 of RFC 4648)

  predicate IsBase64Char(c: char) {
    ('A' <= c <= 'Z') || ('a' <= c <= 'z') || ('0' <= c <= '9') || c == '+' || c == '/'
  }

  /** The character that encodes the 6-bit value `v`. */
  function Digit(v: int): (c: char)
    requires 0 <= v < 64
    ensures IsBase64Char(c)
  {
    if v < 26 then ('A' as int + v) as char
    else if v < 52 then ('a' as int + (v - 26)) as char
    else if v < 62 then ('0' as int + (v - 52)) as char
    else if v == 62 then '+'
    else '/'
  }

  /** The 6-bit value an alphabet character stands for. */
  function Value(c: char): (v: int)
    requires IsBase64Char(c)
    ensures 0 <= v < 64
  {
    if 'A' <= c <= 'Z' then c as int - 'A' as int
    else if 'a' <= c <= 'z' then c as int - 'a' as int + 26
    else if '0' <= c <= '9' then c as int - '0' as int + 52
    else if c == '+' then 62
    else 63
  }

  lemma ValueOfDigit(v: int)
    requires 0 <= v < 64
    ensures Value(Digit(v)) == v
  {
  }

  lemma DigitOfValue(c: char)
    requires IsBase64Char(c)
    ensures Digit(Value(c)) == c
  {
  }

  /** Digit and Value are inverse bijections between 0..63 and the alphabet. */
  lemma AlphabetIsBijection()
    ensures forall v :: 0 <= v < 64 ==> Value(Digit(v)) == v
    ensures forall c :: IsBase64Char(c) ==> Digit(Value(c)) == c
  {
    forall v | 0 <= v < 64 ensures Value(Digit(v)) == v { ValueOfDigit(v); }
    forall c | IsBase64Char(c) ensures Digit(Value(c)) == c { DigitOfValue(c); }
  }

  // ---------------------------------------------------------------------------------------------
  // Latin-1 strings: String.fromCharCode over octets, and charCodeAt stored into a Uint8Array

  /** `String.fromCharCode(...bytes)`: one character per octet, with that octet as its code. */
  function Latin1(b: seq<uint8>): (s: string)
    ensures |s| == |b|
    ensures forall i :: 0 <= i < |b| ==> s[i] as int == b[i]
  {
    seq(|b|, i requires 0 <= i < |b| => b[i] as char)
  }

  /** `charCodeAt` of every character, stored into a Uint8Array (which keeps the code modulo 256). */
  function Codes(s: string): (b: seq<uint8>)
    ensures |b| == |s|
    ensures forall i :: 0 <= i < |s| ==> b[i] == (s[i] as int) % 256
  {
    seq(|s|, i requires 0 <= i < |s| => (s[i] as int) % 256)
  }

  predicate IsLatin1(s: string) {
    forall i :: 0 <= i < |s| ==> s[i] as int < 256
  }

  lemma CodesOfLatin1(b: seq<uint8>)
    ensures Codes(Latin1(b)) == b
  {
  }

  // ---------------------------------------------------------------------------------------------
  // Encoding (section 4 of RFC 4648)

  /** A 6-bit group value. */
  type sextet = x: int | 0 <= x < 64

  /**
   * The 6-bit groups of `b`: four per full group of three octets; a final group of one or two
   * octets gives two or three sextets, the bits past the end of the input being zero.
   */
  function SextetValues(b: seq<uint8>): (v: seq<sextet>)
    ensures |v| % 4 == (if |b| % 3 == 0 then 0 else |b| % 3 + 1)
    ensures |v| / 4 == |b| / 3
    ensures |b| % 3 == 1 ==> v[|v| - 1] % 16 == 0
    ensures |b| % 3 == 2 ==> v[|v| - 1] % 4 == 0
  {
    if |b| == 0 then []
    else if |b| == 1 then [Sextet0(b[0]), Sextet1(b[0], 0)]
    else if |b| == 2 then [Sextet0(b[0]), Sextet1(b[0], b[1]), Sextet2(b[1], 0)]
    else
      var rest := SextetValues(b[3..]);
      var v := [Sextet0(b[0]), Sextet1(b[0], b[1]), Sextet2(b[1], b[2]), Sextet3(b[2])] + rest;
      assert |rest| > 0 ==> v[|v| - 1] == rest[|rest| - 1];
      v
  }

  // The four sextets of a group of three octets x, y, z (bits xxxxxxxx yyyyyyyy zzzzzzzz).
  function Sextet0(x: uint8): sextet { x as int / 4 }
  function Sextet1(x: uint8, y: uint8): (s: sextet)
    ensures y == 0 ==> s % 16 == 0
  {
    x as int % 4 * 16 + y as int / 16
  }
  function Sextet2(y: uint8, z: uint8): (s: sextet)
    ensures z == 0 ==> s % 4 == 0
  {
    y as int % 16 * 4 + z as int / 64
  }
  function Sextet3(z: uint8): sextet { z as int % 64 }

  /**
   * The sextets carry the bits of the octets in order: the four sextets of the group at `k` spell
   * the 24 bits of octets 3k, 3k + 1 and 3k + 2, most significant first.
   */
  lemma {:induction false} SextetValuesCarryBits(b: seq<uint8>, k: nat)
    requires 3 * k + 3 <= |b|
    ensures var v := SextetValues(b);
      v[4 * k] as int * 262144 + v[4 * k + 1] as int * 4096 + v[4 * k + 2] as int * 64 + v[4 * k + 3] as int
      == b[3 * k] as int * 65536 + b[3 * k + 1] as int * 256 + b[3 * k + 2] as int
  {
    var v := SextetValues(b);
    if k == 0 {
      assert v[..4] == [Sextet0(b[0]), Sextet1(b[0], b[1]), Sextet2(b[1], b[2]), Sextet3(b[2])];
    } else {
      var rest := SextetValues(b[3..]);
      assert v == v[..4] + rest;
      SextetValuesCarryBits(b[3..], k - 1);
      assert v[4 * k] == rest[4 * (k - 1)] && v[4 * k + 1] == rest[4 * (k - 1) + 1];
      assert v[4 * k + 2] == rest[4 * (k - 1) + 2] && v[4 * k + 3] == rest[4 * (k - 1) + 3];
    }
  }

  /**
   * A final group of one octet is spelled by 6 + 2 bits of two sextets, and one of two octets by
   * 6 + 6 + 4 bits of three; the bits past the end are zero.
   */
  lemma {:induction false} SextetValuesFinalBits(b: seq<uint8>)
    ensures var v := SextetValues(b);
      |b| % 3 == 1 ==> v[|v| - 2] as int * 64 + v[|v| - 1] as int == b[|b| - 1] as int * 16
    ensures var v := SextetValues(b);
      |b| % 3 == 2 ==>
        v[|v| - 3] as int * 4096 + v[|v| - 2] as int * 64 + v[|v| - 1] as int
        == (b[|b| - 2] as int * 256 + b[|b| - 1] as int) * 4
  {
    if |b| == 1 {
      assert SextetValues(b) == [Sextet0(b[0]), Sextet1(b[0], 0)];
      OneOctetBits(b[0]);
    } else if |b| == 2 {
      assert SextetValues(b) == [Sextet0(b[0]), Sextet1(b[0], b[1]), Sextet2(b[1], 0)];
      TwoOctetBits(b[0], b[1]);
    } else if |b| > 3 {
      var v, rest := SextetValues(b), SextetValues(b[3..]);
      assert v == v[..4] + rest;
      SextetValuesFinalBits(b[3..]);
      if |b| % 3 != 0 {
        assert v[|v| - 1] == rest[|rest| - 1] && v[|v| - 2] == rest[|rest| - 2];
        assert |b| % 3 == 2 ==> v[|v| - 3] == rest[|rest| - 3];
        assert b[|b| - 1] == b[3..][|b[3..]| - 1];
        assert |b| % 3 == 2 ==> b[|b| - 2] == b[3..][|b[3..]| - 2];
      }
    }
  }

  lemma OneOctetBits(x: uint8)
    ensures Sextet0(x) as int * 64 + Sextet1(x, 0) as int == x as int * 16
  {
  }

  lemma TwoOctetBits(x: uint8, y: uint8)
    ensures Sextet0(x) as int * 4096 + Sextet1(x, y) as int * 64 + Sextet2(y, 0) as int
         == (x as int * 256 + y as int) * 4
  {
  }

  /** The encoding without its padding: the alphabet characters of the sextets of `b`. */
  function Sextets(b: seq<uint8>): (s: string)
    ensures |s| == |SextetValues(b)|
    ensures forall i :: 0 <= i < |s| ==> IsBase64Char(s[i])
  {
    var v := SextetValues(b);
    seq(|v|, i requires 0 <= i < |v| => Digit(v[i]))
  }

  /** The `=` characters that complete the last quantum of an encoding of `n` octets. */
  function Padding(n: nat): string {
    if n % 3 == 1 then "==" else if n % 3 == 2 then "=" else ""
  }

  /** The base64 encoding of `b` with padding, as RFC 4648 section 4 defines it. */
  function Encode(b: seq<uint8>): (s: string)
    ensures |s| == 4 * ((|b| + 2) / 3)
    ensures forall i :: 0 <= i < |s| ==> IsBase64Char(s[i]) || s[i] == '='
    ensures |s| == 0 <==> |b| == 0
  {
    Sextets(b) + Padding(|b|)
  }

  /**
   * `btoa`: throws InvalidCharacterError when some character is above U+00FF, and otherwise
   * encodes the string's character codes as octets.
   */
  function Btoa(s: string): (r: Result<string>)
    ensures r.Failure? <==> !IsLatin1(s)
    ensures r.Failure? ==> r.error == InvalidCharacterError
  {
    if IsLatin1(s) then Success(Encode(Codes(s))) else Failure(InvalidCharacterError)
  }

  /** `btoa(String.fromCharCode(...b))` is exactly the RFC 4648 encoding of `b`. */
  lemma BtoaOfLatin1(b: seq<uint8>)
    ensures Btoa(Latin1(b)) == Success(Encode(b))
  {
    CodesOfLatin1(b);
  }

  // ---------------------------------------------------------------------------------------------
  // Decoding (forgiving-base64 decode of the WHATWG Infra standard, used by atob)

  /** The ASCII whitespace that forgiving-base64 removes first: TAB, LF, FF, CR and SPACE. */
  predicate IsAsciiWhitespace(c: char) {
    c == '\t' || c == '\n' || c == '\U{C}' || c == '\r' || c == ' '
  }

  function StripAsciiWhitespace(s: string): (r: string)
    ensures |r| <= |s|
    ensures forall i :: 0 <= i < |r| ==> !IsAsciiWhitespace(r[i])
    ensures forall c :: c in r <==> c in s && !IsAsciiWhitespace(c)
    ensures (forall i :: 0 <= i < |s| ==> !IsAsciiWhitespace(s[i])) ==> r == s
  {
    if s == [] then []
    else if IsAsciiWhitespace(s[0]) then StripAsciiWhitespace(s[1..])
    else [s[0]] + StripAsciiWhitespace(s[1..])
  }

  /** The ASCII whitespace removal distributes over concatenation, so it keeps the other characters in order. */
  lemma {:induction false} StripAsciiWhitespaceAppend(a: string, b: string)
    ensures StripAsciiWhitespace(a + b) == StripAsciiWhitespace(a) + StripAsciiWhitespace(b)
  {
    if a == [] {
      assert a + b == b;
    } else {
      assert (a + b)[1..] == a[1..] + b;
      StripAsciiWhitespaceAppend(a[1..], b);
    }
  }

  /** When the length is a multiple of four, one or two trailing `=` are dropped. */
  function StripPadding(d: string): (r: string)
    ensures r <= d && |d| - 2 <= |r|
    ensures forall i :: |r| <= i < |d| ==> d[i] == '='
    ensures |r| < |d| <==> |d| % 4 == 0 && |d| >= 1 && d[|d| - 1] == '='
    ensures |r| == |d| - 2 <==> |d| % 4 == 0 && |d| >= 2 && d[|d| - 2] == '=' && d[|d| - 1] == '='
  {
    if |d| % 4 == 0 && |d| >= 2 && d[|d| - 2] == '=' && d[|d| - 1] == '=' then d[..|d| - 2]
    else if |d| % 4 == 0 && |d| >= 1 && d[|d| - 1] == '=' then d[..|d| - 1]
    else d
  }

  predicate AllBase64(d: string) {
    forall i :: 0 <= i < |d| ==> IsBase64Char(d[i])
  }

  // The three octets of a group of four sextets p, q, r, s (bits pppppp qqqqqq rrrrrr ssssss).
  function Octet0(p: sextet, q: sextet): uint8 { p as int * 4 + q as int / 16 }
  function Octet1(q: sextet, r: sextet): uint8 { q as int % 16 * 16 + r as int / 4 }
  function Octet2(r: sextet, s: sextet): uint8 { r as int % 4 * 64 + s as int }

  /**
   * The octets of a run of sextets: 24 bits per four sextets; two or three final sextets give one
   * or two octets, their leftover low bits being discarded.
   */
  function DecodeValues(v: seq<sextet>): (b: seq<uint8>)
    requires |v| % 4 != 1
    ensures |b| % 3 == (if |v| % 4 == 0 then 0 else |v| % 4 - 1)
    ensures |b| / 3 == |v| / 4
  {
    if |v| == 0 then []
    else if |v| == 2 then [Octet0(v[0], v[1])]
    else if |v| == 3 then [Octet0(v[0], v[1]), Octet1(v[1], v[2])]
    else
      var rest := DecodeValues(v[4..]);
      LengthStep(|v| - 4, |rest|);
      [Octet0(v[0], v[1]), Octet1(v[1], v[2]), Octet2(v[2], v[3])] + rest
  }

  /** Four more sextets and three more octets leave the remainders alone and add one to the quotients. */
  lemma LengthStep(n: nat, m: nat)
    ensures (n + 4) % 4 == n % 4 && (n + 4) / 4 == n / 4 + 1
    ensures (m + 3) % 3 == m % 3 && (m + 3) / 3 == m / 3 + 1
  {
  }

  /** The sextet values of a run of alphabet characters. */
  function Values(d: string): (v: seq<sextet>)
    requires AllBase64(d)
    ensures |v| == |d|
  {
    seq(|d|, i requires 0 <= i < |d| && IsBase64Char(d[i]) => Value(d[i]))
  }

  /** The octets of an unpadded run of alphabet characters. */
  function DecodeSextets(d: string): (b: seq<uint8>)
    requires AllBase64(d)
    requires |d| % 4 != 1
  {
    DecodeValues(Values(d))
  }

  /**
   * `atob`: forgiving-base64 decode, with failure thrown as InvalidCharacterError. The result is a
   * string whose characters are the decoded octets.
   */
  function Atob(s: string): (r: Result<string>)
    ensures r.Success? ==> IsLatin1(r.value)
    ensures r.Failure? ==> r.error == InvalidCharacterError
  {
    var d := StripPadding(StripAsciiWhitespace(s));
    if |d| % 4 == 1 then Failure(InvalidCharacterError)
    else if !AllBase64(d) then Failure(InvalidCharacterError)
    else Success(Latin1(DecodeSextets(d)))
  }

  /**
   * `Uint8Array.from(atob(s), c => c.charCodeAt(0))`: the decoded octets of `s`, one per character
   * of the decoded string and with that character's code.
   */
  function Base64ToBytes(s: string): (r: Result<seq<uint8>>)
    ensures r.Success? <==> Atob(s).Success?
    ensures r.Success? ==> Latin1(r.value) == Atob(s).value
  {
    var decoded := Atob(s);
    if decoded.Failure? then Failure(decoded.error)
    else
      LatinOfCodes(decoded.value);
      Success(Codes(decoded.value))
  }

  lemma LatinOfCodes(s: string)
    requires IsLatin1(s)
    ensures Latin1(Codes(s)) == s
  {
  }

  /** `btoa(String.fromCharCode(...b))`: the base64 text of octets `b`. */
  function BytesToBase64(b: seq<uint8>): (r: Result<string>)
    ensures r == Success(Encode(b))
  {
    BtoaOfLatin1(b);
    Btoa(Latin1(b))
  }

  // ---------------------------------------------------------------------------------------------
  // Round trip

  /** The sextets of one group of octets x, y, z decode back to x, y, z. */
  lemma GroupRoundTrip(x: uint8, y: uint8, z: uint8)
    ensures Octet0(Sextet0(x), Sextet1(x, y)) == x
    ensures Octet1(Sextet1(x, y), Sextet2(y, z)) == y
    ensures Octet2(Sextet2(y, z), Sextet3(z)) == z
  {
  }

  /** Decoding the sextets of `b` gives `b` back. */
  lemma {:induction false} DecodeValuesOfSextetValues(b: seq<uint8>)
    ensures DecodeValues(SextetValues(b)) == b
  {
    if |b| == 1 {
      assert b == [b[0]];
      FinalGroupOfOne(b[0]);
    } else if |b| == 2 {
      assert b == [b[0], b[1]];
      FinalGroupOfTwo(b[0], b[1]);
    } else if |b| >= 3 {
      assert b == [b[0], b[1], b[2]] + b[3..];
      GroupStep(b[0], b[1], b[2], b[3..]);
      DecodeValuesOfSextetValues(b[3..]);
    }
  }

  /** A final single octet decodes back from its two sextets. */
  lemma FinalGroupOfOne(x: uint8)
    ensures DecodeValues(SextetValues([x])) == [x]
  {
    assert SextetValues([x]) == [Sextet0(x), Sextet1(x, 0)];
    GroupRoundTrip(x, 0, 0);
  }

  /** A final pair of octets decodes back from its three sextets. */
  lemma FinalGroupOfTwo(x: uint8, y: uint8)
    ensures DecodeValues(SextetValues([x, y])) == [x, y]
  {
    assert SextetValues([x, y]) == [Sextet0(x), Sextet1(x, y), Sextet2(y, 0)];
    GroupRoundTrip(x, y, 0);
  }

  /** A leading group of three octets decodes back from its four sextets. */
  lemma GroupStep(x: uint8, y: uint8, z: uint8, tail: seq<uint8>)
    ensures DecodeValues(SextetValues([x, y, z] + tail)) == [x, y, z] + DecodeValues(SextetValues(tail))
  {
    var b := [x, y, z] + tail;
    assert b[3..] == tail;
    var v, rest := SextetValues(b), SextetValues(tail);
    assert v == [Sextet0(x), Sextet1(x, y), Sextet2(y, z), Sextet3(z)] + rest;
    assert v[4..] == rest;
    GroupRoundTrip(x, y, z);
  }

  lemma ValuesOfSextets(b: seq<uint8>)
    ensures Values(Sextets(b)) == SextetValues(b)
  {
    var v := SextetValues(b);
    forall i | 0 <= i < |v| ensures Values(Sextets(b))[i] == v[i] {
      ValueOfDigit(v[i]);
    }
  }

  lemma DecodeSextetsOfSextets(b: seq<uint8>)
    ensures DecodeSextets(Sextets(b)) == b
  {
    ValuesOfSextets(b);
    DecodeValuesOfSextetValues(b);
  }

  /** Removing the padding of an encoding leaves the unpadded sextets. */
  lemma StripPaddingOfEncode(b: seq<uint8>)
    ensures StripPadding(Encode(b)) == Sextets(b)
  {
    var s := Sextets(b);
    assert Encode(b) == s + Padding(|b|);
    assert AllBase64(s);
    if |b| % 3 == 1 {
      StripTwo(s);
    } else if |b| % 3 == 2 {
      StripOne(s);
    } else {
      StripNone(s);
    }
  }

  lemma StripTwo(s: string)
    requires |s| % 4 == 2 && AllBase64(s)
    ensures StripPadding(s + "==") == s
  {
    var d := s + "==";
    assert d[..|d| - 2] == s;
  }

  lemma StripOne(s: string)
    requires |s| % 4 == 3 && AllBase64(s)
    ensures StripPadding(s + "=") == s
  {
    var d := s + "=";
    assert d[|d| - 2] == s[|s| - 1];
    assert d[..|d| - 1] == s;
  }

  lemma StripNone(s: string)
    requires |s| % 4 == 0 && AllBase64(s)
    ensures StripPadding(s + "") == s
  {
    assert s + "" == s;
    assert |s| > 0 ==> IsBase64Char(s[|s| - 1]);
  }

  /** `atob` inverts `btoa`: decoding the encoding of `b` gives the characters of `b` back. */
  lemma AtobOfEncode(b: seq<uint8>)
    ensures Atob(Encode(b)) == Success(Latin1(b))
  {
    var e := Encode(b);
    assert forall i :: 0 <= i < |e| ==> !IsAsciiWhitespace(e[i]);
    assert StripAsciiWhitespace(e) == e;
    StripPaddingOfEncode(b);
    DecodeSextetsOfSextets(b);
  }

  /** The signature and ciphertext codec: decoding the base64 of any octets gives them back. */
  lemma BytesRoundTrip(b: seq<uint8>)
    ensures BytesToBase64(b).Success?
    ensures Base64ToBytes(BytesToBase64(b).value) == Success(b)
  {
    AtobOfEncode(b);
    CodesOfLatin1(b);
  }

  /** Empty text decodes to no octets. */
  lemma Base64ToBytesOfEmpty()
    ensures Base64ToBytes("") == Success([])
  {
    assert StripAsciiWhitespace("") == "";
    assert StripPadding("") == "";
  }

  /** A character outside the alphabet, other than ASCII whitespace and `=`, makes `atob` fail. */
  lemma AtobRejectsForeignChar(s: string, i: nat)
    requires i < |s|
    requires !IsBase64Char(s[i]) && !IsAsciiWhitespace(s[i]) && s[i] != '='
    ensures Atob(s).Failure?
  {
    StripKeeps(s, i);
    var w := StripAsciiWhitespace(s);
    var j :| 0 <= j < |w| && w[j] == s[i];
    var d := StripPadding(w);
    assert j < |d| && d[j] == s[i];
  }

  /** The '-' of a marker left in the text is outside the alphabet, so decoding fails. */
  lemma Base64ToBytesRejectsDash(s: string)
    requires '-' in s
    ensures Base64ToBytes(s).Failure?
  {
    var i :| 0 <= i < |s| && s[i] == '-';
    AtobRejectsForeignChar(s, i);
  }

  /** A character that is not ASCII whitespace survives the whitespace removal of `atob`. */
  lemma {:induction false} StripKeeps(s: string, i: nat)
    requires i < |s| && !IsAsciiWhitespace(s[i])
    ensures exists j :: 0 <= j < |StripAsciiWhitespace(s)| && StripAsciiWhitespace(s)[j] == s[i]
  {
    if i == 0 {
      assert StripAsciiWhitespace(s)[0] == s[0];
    } else {
      StripKeeps(s[1..], i - 1);
      var t := StripAsciiWhitespace(s[1..]);
      var j :| 0 <= j < |t| && t[j] == s[1..][i - 1];
      if IsAsciiWhitespace(s[0]) {
        assert StripAsciiWhitespace(s)[j] == s[i];
      } else {
        assert StripAsciiWhitespace(s)[j + 1] == s[i];
      }
    }
  }
}
