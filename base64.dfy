/** base64_encode as RFC 4648 section 4 defines it: the standard alphabet
    A-Z a-z 0-9 + /, each 3-byte group written as four 6-bit digits, and a last
    group of one or two bytes padded with "==" or "=". A decoder is the partner
    that the encoding is proved against. PHP strings are byte strings, so every
    character of an input is below 256. */
module Base64 {
  import opened Php

  predicate IsByte(c: char) { c as int < 256 }

  predicate IsBytes(s: string) { forall i | 0 <= i < |s| :: IsByte(s[i]) }

  /** The digit for the 6-bit value n (RFC 4648 section 4, Table 1). */
  function Letter(n: int): (c: char)
    requires 0 <= n < 64
  {
    if n < 26 then ('A' as int + n) as char
    else if n < 52 then ('a' as int + (n - 26)) as char
    else if n < 62 then ('0' as int + (n - 52)) as char
    else if n == 62 then '+'
    else '/'
  }

  /** The 6-bit value of an alphabet digit, or None for any other character. */
  function Sextet(c: char): (r: Option<int>)
    ensures r.Some? ==> 0 <= r.value < 64 && Letter(r.value) == c
  {
    if 'A' <= c <= 'Z' then Some(c as int - 'A' as int)
    else if 'a' <= c <= 'z' then Some(c as int - 'a' as int + 26)
    else if '0' <= c <= '9' then Some(c as int - '0' as int + 52)
    else if c == '+' then Some(62)
    else if c == '/' then Some(63)
    else None
  }

  predicate InAlphabet(c: char) { Sextet(c).Some? }

  lemma SextetOfLetter(n: int)
    requires 0 <= n < 64
    ensures Sextet(Letter(n)) == Some(n)
  {
  }

  /** Four digits for three bytes. */
  function Quad(b0: int, b1: int, b2: int): (r: string)
    requires 0 <= b0 < 256 && 0 <= b1 < 256 && 0 <= b2 < 256
  {
    [Letter(b0 / 4), Letter((b0 % 4) * 16 + b1 / 16), Letter((b1 % 16) * 4 + b2 / 64), Letter(b2 % 64)]
  }

  /** base64_encode(s). */
  function Encode(s: string): (r: string)
    requires IsBytes(s)
    decreases |s|
  {
    if |s| == 0 then ""
    else if |s| == 1 then
      var b0 := s[0] as int;
      [Letter(b0 / 4), Letter((b0 % 4) * 16), '=', '=']
    else if |s| == 2 then
      var b0, b1 := s[0] as int, s[1] as int;
      [Letter(b0 / 4), Letter((b0 % 4) * 16 + b1 / 16), Letter((b1 % 16) * 4), '=']
    else
      Quad(s[0] as int, s[1] as int, s[2] as int) + Encode(s[3..])
  }

  /** The bytes of one group of four digits, the last two of which may be padding
      when `last` holds; None when a digit is outside the alphabet. */
  function DecodeQuad(q: string, last: bool): (r: Option<string>)
    requires |q| == 4
  {
    var v0, v1, v2, v3 := Sextet(q[0]), Sextet(q[1]), Sextet(q[2]), Sextet(q[3]);
    if v0.None? || v1.None? then None
    else
      var b0 := (v0.value * 4 + v1.value / 16) as char;
      if last && q[2] == '=' && q[3] == '=' then Some([b0])
      else if v2.None? then None
      else
        var b1 := ((v1.value % 16) * 16 + v2.value / 4) as char;
        if last && q[3] == '=' then Some([b0, b1])
        else if v3.None? then None
        else Some([b0, b1, ((v2.value % 4) * 64 + v3.value) as char])
  }

  /** The inverse of Encode: groups of four digits, padding only in the last one. */
  function Decode(t: string): (r: Option<string>)
    decreases |t|
  {
    if |t| == 0 then Some("")
    else if |t| < 4 then None
    else
      match DecodeQuad(t[..4], |t| == 4)
      case None => None
      case Some(b) =>
        match Decode(t[4..])
        case None => None
        case Some(rest) => Some(b + rest)
  }

  /** Every character of an encoding is an alphabet digit or the pad '='. */
  lemma {:induction false} EncodeAlphabet(s: string)
    requires IsBytes(s)
    ensures forall i | 0 <= i < |Encode(s)| :: InAlphabet(Encode(s)[i]) || Encode(s)[i] == '='
  {
    if |s| >= 3 {
      EncodeAlphabet(s[3..]);
      var q := Quad(s[0] as int, s[1] as int, s[2] as int);
      forall i | 0 <= i < 4 ensures InAlphabet(q[i]) { LetterInAlphabet(s, i); }
    } else if |s| > 0 {
      SextetOfLetter(s[0] as int / 4);
      SextetOfLetter((s[0] as int % 4) * 16 + (if |s| == 2 then s[1] as int / 16 else 0));
      if |s| == 2 {
        SextetOfLetter((s[1] as int % 16) * 4);
      }
    }
  }

  lemma LetterInAlphabet(s: string, i: int)
    requires IsBytes(s) && |s| >= 3 && 0 <= i < 4
    ensures InAlphabet(Quad(s[0] as int, s[1] as int, s[2] as int)[i])
  {
    var b0, b1, b2 := s[0] as int, s[1] as int, s[2] as int;
    assert IsByte(s[0]) && IsByte(s[1]) && IsByte(s[2]);
    SextetOfLetter(b0 / 4);
    SextetOfLetter((b0 % 4) * 16 + b1 / 16);
    SextetOfLetter((b1 % 16) * 4 + b2 / 64);
    SextetOfLetter(b2 % 64);
  }

  /** The encoding is 4 * ceil(n / 3) characters long. */
  lemma {:induction false} EncodeLength(s: string)
    requires IsBytes(s)
    ensures |Encode(s)| == 4 * ((|s| + 2) / 3)
  {
    if |s| >= 3 {
      EncodeLength(s[3..]);
      EncodeCons(s);
      GroupCount(|s|);
    }
  }

  lemma GroupCount(n: int)
    requires n >= 3
    ensures (n + 2) / 3 == (n - 3 + 2) / 3 + 1
  {
  }

  /** Padding appears only at the end: an '=' is followed by nothing but '='. */
  lemma {:induction false} PaddingAtEnd(s: string)
    requires IsBytes(s)
    ensures forall i, j | 0 <= i < j < |Encode(s)| && Encode(s)[i] == '=' :: Encode(s)[j] == '='
  {
    if |s| >= 3 {
      PaddingAtEnd(s[3..]);
      var q := Quad(s[0] as int, s[1] as int, s[2] as int);
      forall i | 0 <= i < 4 ensures q[i] != '=' { LetterInAlphabet(s, i); }
      assert Encode(s) == q + Encode(s[3..]);
    }
  }

  lemma QuadRoundTrip(b0: int, b1: int, b2: int, last: bool)
    requires 0 <= b0 < 256 && 0 <= b1 < 256 && 0 <= b2 < 256
    ensures DecodeQuad(Quad(b0, b1, b2), last) == Some([b0 as char, b1 as char, b2 as char])
  {
    var u0, u1, u2, u3 := b0 / 4, (b0 % 4) * 16 + b1 / 16, (b1 % 16) * 4 + b2 / 64, b2 % 64;
    QuadDigits(b0, b1, b2);
    assert u0 * 4 + u1 / 16 == b0 && (u1 % 16) * 16 + u2 / 4 == b1 && (u2 % 4) * 64 + u3 == b2 by {
      QuadArithmetic(b0, b1, b2);
    }
  }

  /** The four digits of a group decode to their 6-bit values. */
  lemma QuadDigits(b0: int, b1: int, b2: int)
    requires 0 <= b0 < 256 && 0 <= b1 < 256 && 0 <= b2 < 256
    ensures var q := Quad(b0, b1, b2);
            && Sextet(q[0]) == Some(b0 / 4)
            && Sextet(q[1]) == Some((b0 % 4) * 16 + b1 / 16)
            && Sextet(q[2]) == Some((b1 % 16) * 4 + b2 / 64)
            && Sextet(q[3]) == Some(b2 % 64)
            && q[2] != '=' && q[3] != '='
  {
    SplitByte(b0, 4);
    SplitByte(b1, 16);
    SplitByte(b2, 64);
    SextetOfLetter(b0 / 4);
    SextetOfLetter((b0 % 4) * 16 + b1 / 16);
    SextetOfLetter((b1 % 16) * 4 + b2 / 64);
    SextetOfLetter(b2 % 64);
  }

  /** The bytes are put back together from the digits' values. */
  lemma QuadArithmetic(b0: int, b1: int, b2: int)
    requires 0 <= b0 < 256 && 0 <= b1 < 256 && 0 <= b2 < 256
    ensures var u0, u1, u2, u3 := b0 / 4, (b0 % 4) * 16 + b1 / 16, (b1 % 16) * 4 + b2 / 64, b2 % 64;
            u0 * 4 + u1 / 16 == b0 && (u1 % 16) * 16 + u2 / 4 == b1 && (u2 % 4) * 64 + u3 == b2
  {
    SplitByte(b0, 4);
    SplitByte(b1, 16);
    SplitByte(b2, 64);
    Pack(b0 % 4, b1 / 16, 16);
    Pack(b1 % 16, b2 / 64, 4);
  }


  /** A byte split at a power of two and put back together. */
  lemma SplitByte(b: int, m: int)
    requires 0 <= b < 256 && (m == 4 || m == 16 || m == 64)
    ensures (b / m) * m + b % m == b
    ensures 0 <= b % m < m && 0 <= b / m < 256 / m
  {
  }

  /** A digit pair packed with a base and taken apart again. */
  lemma Pack(hi: int, lo: int, m: int)
    requires 0 <= hi && 0 <= lo < m && (m == 4 || m == 16 || m == 64)
    ensures (hi * m + lo) / m == hi && (hi * m + lo) % m == lo
  {
    if m == 4 {
    } else if m == 16 {
    } else {
    }
  }

  /** Decoding an encoding gives back the input. */
  lemma {:induction false} RoundTrip(s: string)
    requires IsBytes(s)
    ensures Decode(Encode(s)) == Some(s)
  {
    if |s| >= 3 {
      RoundTrip(s[3..]);
      GroupRoundTrip(s);
    } else if |s| == 2 {
      assert IsByte(s[0]) && IsByte(s[1]);
      PairRoundTrip(s[0] as int, s[1] as int);
      LastGroup(Encode(s));
      assert [s[0], s[1]] == s;
    } else if |s| == 1 {
      assert IsByte(s[0]);
      SingleRoundTrip(s[0] as int);
      LastGroup(Encode(s));
      assert [s[0]] == s;
    }
  }

  /** One full group in front of an encoding that decodes. */
  lemma GroupRoundTrip(s: string)
    requires IsBytes(s) && |s| >= 3
    requires Decode(Encode(s[3..])) == Some(s[3..])
    ensures Decode(Encode(s)) == Some(s)
  {
    assert IsByte(s[0]) && IsByte(s[1]) && IsByte(s[2]);
    var b0, b1, b2 := s[0] as int, s[1] as int, s[2] as int;
    var rest := Encode(s[3..]);
    var q := Quad(b0, b1, b2);
    EncodeCons(s);
    QuadRoundTrip(b0, b1, b2, rest == []);
    FirstThree(s);
    DecodeCons(q, rest, s[..3], s[3..]);
    assert s[..3] + s[3..] == s;
  }

  lemma FirstThree(s: string)
    requires |s| >= 3
    ensures [(s[0] as int) as char, (s[1] as int) as char, (s[2] as int) as char] == s[..3]
  {
  }

  lemma EncodeCons(s: string)
    requires IsBytes(s) && |s| >= 3
    ensures Encode(s) == Quad(s[0] as int, s[1] as int, s[2] as int) + Encode(s[3..])
  {
  }

  lemma DecodeCons(q: string, rest: string, b: string, r: string)
    requires |q| == 4 && DecodeQuad(q, rest == []) == Some(b) && Decode(rest) == Some(r)
    ensures Decode(q + rest) == Some(b + r)
  {
    var t := q + rest;
    assert t[..4] == q && t[4..] == rest;
  }

  lemma LastGroup(t: string)
    requires |t| == 4
    ensures Decode(t) == (match DecodeQuad(t, true) case None => None case Some(b) => Some(b))
  {
    assert t[..4] == t && t[4..] == [];
    match DecodeQuad(t, true)
    case None =>
    case Some(b) => assert b + "" == b;
  }

  lemma PairRoundTrip(b0: int, b1: int)
    requires 0 <= b0 < 256 && 0 <= b1 < 256
    ensures DecodeQuad([Letter(b0 / 4), Letter((b0 % 4) * 16 + b1 / 16), Letter((b1 % 16) * 4), '='], true)
            == Some([b0 as char, b1 as char])
  {
    var u0, u1, u2 := b0 / 4, (b0 % 4) * 16 + b1 / 16, (b1 % 16) * 4;
    SextetOfLetter(u0);
    SextetOfLetter(u1);
    SextetOfLetter(u2);
    SplitByte(b0, 4);
    SplitByte(b1, 16);
    Pack(b0 % 4, b1 / 16, 16);
    Pack(b1 % 16, 0, 4);
    assert u0 * 4 + u1 / 16 == b0;
    assert (u1 % 16) * 16 + u2 / 4 == b1;
  }

  lemma SingleRoundTrip(b0: int)
    requires 0 <= b0 < 256
    ensures DecodeQuad([Letter(b0 / 4), Letter((b0 % 4) * 16), '=', '='], true) == Some([b0 as char])
  {
    SextetOfLetter(b0 / 4);
    SextetOfLetter((b0 % 4) * 16);
    SplitByte(b0, 4);
    Pack(b0 % 4, 0, 16);
    assert (b0 / 4) * 4 + ((b0 % 4) * 16) / 16 == b0;
  }

  /** RFC 4648 section 10 test vectors. */
  lemma TestVectors()
    ensures Encode("f") == "Zg=="
    ensures Encode("fo") == "Zm8="
    ensures Encode("foo") == "Zm9v"
  {
  }
}
