/** What escaped text and well-formed UTF-8 are, said piece by piece and by code points. */
module Escapes {
  import opened Common
  import opened Text
  import opened Percent

  const DIGITS: string := "0123456789abcdef"

  /** The character stands for the digit, in either case. */
  predicate Stands(c: char, v: nat) { v < 16 && LowerChar(c) == DIGITS[v] }

  /** The piece is the byte itself, or an escape: two digits, or a plus sign and one. */
  ghost predicate Writes(p: string, c: char) {
    || (p == [c] && c != '%')
    || (|p| == 3 && p[0] == '%' && c as int < 256
        && (Stands(p[1], c as int / 16) || (p[1] == '+' && c as int < 16)) && Stands(p[2], c as int % 16))
  }

  function Flat(ps: seq<string>): string { if ps == [] then [] else ps[0] + Flat(ps[1..]) }

  ghost predicate AllWrite(ps: seq<string>, r: string) {
    |ps| == |r| && forall i :: 0 <= i < |r| ==> Writes(ps[i], r[i])
  }

  lemma HexStands(c: char, v: nat)
    requires v < 16
    ensures HexValue(c) == Some(v) <==> Stands(c, v)
  {
    assert forall n: nat :: n < 10 ==> DIGITS[n] == (n + '0' as int) as char;
    assert DIGITS[10] == 'a' && DIGITS[11] == 'b' && DIGITS[12] == 'c' && DIGITS[13] == 'd';
    assert DIGITS[14] == 'e' && DIGITS[15] == 'f';
  }

  /** An escape is read exactly as it is written. */
  lemma EscapeStands(a: char, b: char, c: char)
    ensures ParseByte(a, b).Some? && ParseByte(a, b).value as char == c <==> Writes(['%', a, b], c)
  {
    hide Stands, HexValue;
    forall v: nat | v < 16
      ensures (HexValue(a) == Some(v) <==> Stands(a, v)) && (HexValue(b) == Some(v) <==> Stands(b, v))
    {
      HexStands(a, v);
      HexStands(b, v);
    }
    PlusIsNoDigit();
    if HexValue(a).Some? { assert Stands(a, HexValue(a).value); }
    if HexValue(b).Some? { assert Stands(b, HexValue(b).value); }
  }

  lemma PlusIsNoDigit()
    ensures HexValue('+') == None
  {}

  /** A text decodes to bytes exactly when it is written from pieces that each stand for one of them. */
  lemma {:induction false} DecodedIsWritten(s: string) returns (ps: seq<string>)
    requires Decoded(s).Some?
    ensures Flat(ps) == s && AllWrite(ps, Decoded(s).value)
    decreases |s|
  {
    hide ParseByte, Writes;
    if s == [] {
      ps := [];
    } else {
      var n := if s[0] == '%' then 3 else 1;
      var rest := DecodedIsWritten(s[n..]);
      var c := Decoded(s).value[0];
      assert Decoded(s).value == [c] + Decoded(s[n..]).value;
      assert Writes(s[..n], c) by {
        if n == 3 {
          EscapeStands(s[1], s[2], c);
          assert s[..3] == ['%', s[1], s[2]];
        } else {
          PlainWrites(s[..1], c);
        }
      }
      ps := [s[..n]] + rest;
      assert ps[1..] == rest && s == s[..n] + s[n..];
    }
  }

  lemma PlainWrites(p: string, c: char)
    requires p == [c] && c != '%'
    ensures Writes(p, c)
  {}

  lemma {:induction false} WrittenIsDecoded(ps: seq<string>, r: string)
    requires AllWrite(ps, r)
    ensures Decoded(Flat(ps)) == Some(r)
    decreases |r|
  {
    hide ParseByte;
    if r == [] {
    } else {
      var p, c, s := ps[0], r[0], Flat(ps);
      WrittenIsDecoded(ps[1..], r[1..]);
      assert Writes(p, c);
      assert s[|p|..] == Flat(ps[1..]) && s[..|p|] == p;
      assert r == [c] + r[1..];
      if p == [c] && c != '%' {
        assert s[0] == c;
      } else {
        assert s[0] == p[0] && s[1] == p[1] && s[2] == p[2] && p == [p[0], p[1], p[2]];
        EscapeStands(p[1], p[2], c);
      }
    }
  }

  lemma DecodedExactly(s: string, r: string)
    ensures Decoded(s) == Some(r) <==> exists ps :: Flat(ps) == s && AllWrite(ps, r)
  {
    hide Decoded, Flat, AllWrite;
    if Decoded(s) == Some(r) {
      var ps := DecodedIsWritten(s);
    }
    if ps :| Flat(ps) == s && AllWrite(ps, r) {
      WrittenIsDecoded(ps, r);
    }
  }

  /** Encoding writes every unreserved byte as itself and every other as an escape in upper case. */
  ghost predicate Canonical(p: string, c: char) {
    Writes(p, c) && if Unreserved(c) then p == [c] else |p| == 3 && p[1] !in "+abcdef" && p[2] !in "abcdef"
  }

  lemma {:induction false} FlatAppend(ps: seq<string>, p: string)
    ensures Flat(ps + [p]) == Flat(ps) + p
  {
    if ps == [] {
      assert [p][1..] == [] && Flat([p]) == p;
    } else {
      FlatAppend(ps[1..], p);
      assert (ps + [p])[1..] == ps[1..] + [p];
    }
  }

  lemma ByteIsCanonical(c: char)
    requires c as int < 256
    ensures Canonical(EncodeByte(c), c)
  {
    if !Unreserved(c) {
      var hi, lo := c as int / 16, c as int % 16;
      HexRoundTrip(hi);
      HexRoundTrip(lo);
      HexStands(HexDigit(hi), hi);
      HexStands(HexDigit(lo), lo);
    }
  }

  lemma {:induction false} EncodedIsCanonical(s: string) returns (ps: seq<string>)
    requires IsBytes(s)
    ensures |ps| == |s| && Flat(ps) == Encoded(s) && forall i :: 0 <= i < |s| ==> Canonical(ps[i], s[i])
    decreases |s|
  {
    hide Canonical, EncodeByte, Flat;
    if s == [] {
      ps := [];
      NoPieces();
    } else {
      var c := s[|s| - 1];
      var rest := EncodedIsCanonical(s[..|s| - 1]);
      ps := rest + [EncodeByte(c)];
      ByteIsCanonical(c);
      FlatAppend(rest, EncodeByte(c));
    }
  }

  lemma NoPieces()
    ensures Flat([]) == []
  {}

  // ----- UTF-8 by code points

  predicate Scalar(c: nat) { c < 0xD800 || 0xE000 <= c <= 0x10FFFF }

  function Byte(v: nat): char
    requires v < 256
  {
    v as char
  }

  /** The code point as UTF-8 (section 3 of RFC 3629). */
  function Utf8(c: nat): (r: string)
    requires Scalar(c)
    ensures 1 <= |r| <= 4
  {
    if c < 0x80 then [Byte(c)]
    else if c < 0x800 then [Byte(0xC0 + c / 64), Byte(0x80 + c % 64)]
    else if c < 0x10000 then [Byte(0xE0 + c / 4096), Byte(0x80 + c / 64 % 64), Byte(0x80 + c % 64)]
    else [Byte(0xF0 + c / 262144), Byte(0x80 + c / 4096 % 64), Byte(0x80 + c / 64 % 64), Byte(0x80 + c % 64)]
  }

  function AllUtf8(cs: seq<nat>): string
    requires forall i :: 0 <= i < |cs| ==> Scalar(cs[i])
  {
    if cs == [] then [] else Utf8(cs[0]) + AllUtf8(cs[1..])
  }

  /** The code point in front. */
  function Front(s: string): nat
    requires CharLength(s) > 0
  {
    var n := CharLength(s);
    if n == 1 then s[0] as int
    else if n == 2 then (s[0] as int - 0xC0) * 64 + (s[1] as int - 0x80)
    else if n == 3 then (s[0] as int - 0xE0) * 4096 + (s[1] as int - 0x80) * 64 + (s[2] as int - 0x80)
    else (s[0] as int - 0xF0) * 262144 + (s[1] as int - 0x80) * 4096 + (s[2] as int - 0x80) * 64
         + (s[3] as int - 0x80)
  }

  lemma LastDigit(a: nat, d: nat)
    requires d < 64
    ensures (a * 64 + d) / 64 == a && (a * 64 + d) % 64 == d
  {}

  lemma HighPart(a: nat, r: nat)
    ensures r < 4096 ==> (a * 4096 + r) / 4096 == a
    ensures r < 262144 ==> (a * 262144 + r) / 262144 == a
  {}

  lemma ThreeDigits(a: nat, c: nat, d: nat)
    requires c < 64 && d < 64
    ensures var n := a * 4096 + c * 64 + d; n / 4096 == a && n / 64 % 64 == c && n % 64 == d
  {
    HighPart(a, c * 64 + d);
    LastDigit(a * 64 + c, d);
    LastDigit(a, c);
    assert (a * 64 + c) * 64 + d == a * 4096 + c * 64 + d;
  }

  lemma FourDigits(a: nat, b: nat, c: nat, d: nat)
    requires b < 64 && c < 64 && d < 64
    ensures var n := a * 262144 + b * 4096 + c * 64 + d;
      n / 262144 == a && n / 4096 % 64 == b && n / 64 % 64 == c && n % 64 == d
  {
    var n := a * 262144 + b * 4096 + c * 64 + d;
    HighPart(a, b * 4096 + c * 64 + d);
    ThreeDigits(a * 64 + b, c, d);
    LastDigit(a, b);
    assert (a * 64 + b) * 4096 + c * 64 + d == n;
  }

  lemma FrontOfTwo(s: string)
    requires CharLength(s) == 2
    ensures Scalar(Front(s)) && s[..2] == Utf8(Front(s))
  {
    LastDigit(s[0] as int - 0xC0, s[1] as int - 0x80);
  }

  lemma FrontOfThree(s: string)
    requires CharLength(s) == 3
    ensures Scalar(Front(s)) && s[..3] == Utf8(Front(s))
  {
    ThreeDigits(s[0] as int - 0xE0, s[1] as int - 0x80, s[2] as int - 0x80);
  }

  lemma FrontOfFour(s: string)
    requires CharLength(s) == 4
    ensures Scalar(Front(s)) && s[..4] == Utf8(Front(s))
  {
    FourDigits(s[0] as int - 0xF0, s[1] as int - 0x80, s[2] as int - 0x80, s[3] as int - 0x80);
  }

  lemma FrontIsUtf8(s: string)
    requires CharLength(s) > 0
    ensures Scalar(Front(s)) && s[..CharLength(s)] == Utf8(Front(s))
  {
    if CharLength(s) == 2 {
      FrontOfTwo(s);
    } else if CharLength(s) == 3 {
      FrontOfThree(s);
    } else if CharLength(s) == 4 {
      FrontOfFour(s);
    }
  }

  lemma Utf8IsFront(c: nat, t: string)
    requires Scalar(c)
    ensures CharLength(Utf8(c) + t) == |Utf8(c)|
  {
    var u, s := Utf8(c), Utf8(c) + t;
    assert s[0] == u[0];
    if c >= 0x80 { assert s[1] == u[1]; }
    if c >= 0x800 { assert s[2] == u[2]; }
    if c >= 0x10000 { assert s[3] == u[3]; }
  }

  lemma {:induction false} ValidIsUtf8(s: string) returns (cs: seq<nat>)
    requires ValidUtf8(s)
    ensures (forall i :: 0 <= i < |cs| ==> Scalar(cs[i])) && AllUtf8(cs) == s
    decreases |s|
  {
    hide CharLength, Scalar, Utf8;
    if s == [] {
      cs := [];
    } else {
      var n := CharLength(s);
      FrontIsUtf8(s);
      var rest := ValidIsUtf8(s[n..]);
      cs := [Front(s)] + rest;
      assert cs[1..] == rest && s == s[..n] + s[n..];
    }
  }

  lemma {:induction false} Utf8IsValid(cs: seq<nat>)
    requires forall i :: 0 <= i < |cs| ==> Scalar(cs[i])
    ensures ValidUtf8(AllUtf8(cs))
    decreases |cs|
  {
    hide CharLength, Scalar, Utf8;
    if cs == [] {
    } else {
      Utf8IsValid(cs[1..]);
      Utf8IsFront(cs[0], AllUtf8(cs[1..]));
      var s, n := AllUtf8(cs), |Utf8(cs[0])|;
      assert s[n..] == AllUtf8(cs[1..]);
    }
  }

  /** A byte string is well-formed exactly when it is the UTF-8 of some code points that are no surrogates. */
  lemma ValidExactly(s: string)
    ensures ValidUtf8(s) <==> exists cs :: (forall i :: 0 <= i < |cs| ==> Scalar(cs[i])) && AllUtf8(cs) == s
  {
    hide ValidUtf8, AllUtf8, Scalar;
    if ValidUtf8(s) {
      var cs := ValidIsUtf8(s);
    }
    if cs: seq<nat> :| (forall i :: 0 <= i < |cs| ==> Scalar(cs[i])) && AllUtf8(cs) == s {
      Utf8IsValid(cs);
    }
  }
}
