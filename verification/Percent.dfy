/** Percent encoding (sections 2.1 and 2.3 of RFC 3986) over byte strings: one character per byte. */
module Percent {
  import opened Common

  predicate IsBytes(s: string) { forall i :: 0 <= i < |s| ==> s[i] as int < 256 }

  predicate Alphanumeric(c: char) { 'a' <= c <= 'z' || 'A' <= c <= 'Z' || '0' <= c <= '9' }

  predicate Unreserved(c: char) { Alphanumeric(c) || c in {'-', '_', '.', '~'} }

  function HexDigit(v: nat): char
    requires v < 16
  {
    if v < 10 then (v + '0' as int) as char else (v - 10 + 'A' as int) as char
  }

  function HexValue(c: char): (r: Option<nat>)
    ensures r.Some? ==> r.value < 16
  {
    if '0' <= c <= '9' then Some(c as int - '0' as int)
    else if 'a' <= c <= 'f' then Some(c as int - 'a' as int + 10)
    else if 'A' <= c <= 'F' then Some(c as int - 'A' as int + 10)
    else None
  }

  /** Two characters as a hexadecimal byte; the number parser also takes a plus sign and one digit. */
  function ParseByte(a: char, b: char): (r: Option<nat>)
    ensures r.Some? ==> r.value < 256
  {
    if a == '+' then HexValue(b)
    else if HexValue(a).None? || HexValue(b).None? then None
    else Some(16 * HexValue(a).value + HexValue(b).value)
  }

  function EncodeByte(c: char): string
    requires c as int < 256
  {
    if Unreserved(c) then [c] else ['%', HexDigit(c as int / 16), HexDigit(c as int % 16)]
  }

  function Encoded(s: string): string
    requires IsBytes(s)
  {
    if s == [] then [] else Encoded(s[..|s| - 1]) + EncodeByte(s[|s| - 1])
  }

  method PercentEncode(s: string) returns (r: string)
    requires IsBytes(s)
    ensures r == Encoded(s)
  {
    r := [];
    for i := 0 to |s|
      invariant r == Encoded(s[..i])
    {
      assert s[..i + 1][..i] == s[..i] && s[..i + 1][i] == s[i];
      r := r + EncodeByte(s[i]);
    }
    assert s[..|s|] == s;
  }

  /** The bytes behind an encoded text; None when an escape is cut short or not hexadecimal. */
  function Decoded(s: string): Option<string> {
    if s == [] then Some([])
    else if s[0] == '%' then
      if |s| < 3 || ParseByte(s[1], s[2]).None? then None
      else
        Prepend([ParseByte(s[1], s[2]).value as char], Decoded(s[3..]))
    else Prepend([s[0]], Decoded(s[1..]))
  }

  function Prepend(s: string, o: Option<string>): Option<string> {
    if o.None? then None else Some(s + o.value)
  }

  lemma PrependTwice(a: string, b: string, o: Option<string>)
    ensures Prepend(a, Prepend(b, o)) == Prepend(a + b, o)
    ensures Prepend([], o) == o
  {
    if o.Some? { assert a + (b + o.value) == (a + b) + o.value && [] + o.value == o.value; }
  }

  // ----- UTF-8

  predicate Between(s: string, i: nat, lo: int, hi: int) { i < |s| && lo <= s[i] as int <= hi }

  predicate Continues(s: string, i: nat) { Between(s, i, 0x80, 0xBF) }

  /** Length of the well-formed UTF-8 character at the start, or zero. */
  function CharLength(s: string): (n: nat)
    ensures n <= 4 && n <= |s|
  {
    if Between(s, 0, 0x00, 0x7F) then 1
    else if Between(s, 0, 0xC2, 0xDF) && Continues(s, 1) then 2
    else if Between(s, 0, 0xE0, 0xE0) && Between(s, 1, 0xA0, 0xBF) && Continues(s, 2) then 3
    else if Between(s, 0, 0xE1, 0xEC) && Continues(s, 1) && Continues(s, 2) then 3
    else if Between(s, 0, 0xED, 0xED) && Between(s, 1, 0x80, 0x9F) && Continues(s, 2) then 3
    else if Between(s, 0, 0xEE, 0xEF) && Continues(s, 1) && Continues(s, 2) then 3
    else if Between(s, 0, 0xF0, 0xF0) && Between(s, 1, 0x90, 0xBF) && Continues(s, 2) && Continues(s, 3) then 4
    else if Between(s, 0, 0xF1, 0xF3) && Continues(s, 1) && Continues(s, 2) && Continues(s, 3) then 4
    else if Between(s, 0, 0xF4, 0xF4) && Between(s, 1, 0x80, 0x8F) && Continues(s, 2) && Continues(s, 3) then 4
    else 0
  }

  predicate ValidUtf8(s: string) {
    s == [] || (CharLength(s) > 0 && ValidUtf8(s[CharLength(s)..]))
  }

  function Decode(s: string): Option<string> {
    var r := Decoded(s);
    if r.Some? && ValidUtf8(r.value) then r else None
  }

  method PercentDecode(s: string) returns (r: Option<string>)
    ensures r == Decode(s)
  {
    var out := "";
    var i := 0;
    assert s[0..] == s;
    PrependTwice([], [], Decoded(s));
    while i < |s|
      invariant 0 <= i <= |s|
      invariant Decoded(s) == Prepend(out, Decoded(s[i..]))
    {
      if s[i] == '%' {
        if |s| < i + 3 || ParseByte(s[i + 1], s[i + 2]).None? {
          return None;
        }
        assert s[i..][3..] == s[i + 3..];
        PrependTwice(out, [ParseByte(s[i + 1], s[i + 2]).value as char], Decoded(s[i + 3..]));
        out := out + [ParseByte(s[i + 1], s[i + 2]).value as char];
        i := i + 3;
      } else {
        assert s[i..][1..] == s[i + 1..];
        PrependTwice(out, [s[i]], Decoded(s[i + 1..]));
        out := out + [s[i]];
        i := i + 1;
      }
    }
    assert s[i..] == [] && out + [] == out;
    r := if ValidUtf8(out) then Some(out) else None;
  }

  // ----- decoding undoes encoding

  lemma HexRoundTrip(v: nat)
    requires v < 16
    ensures HexValue(HexDigit(v)) == Some(v) && HexDigit(v) != '+'
  {}

  lemma DecodeByte(c: char, t: string)
    requires c as int < 256
    ensures Decoded(EncodeByte(c) + t) == Prepend([c], Decoded(t))
  {
    var s := EncodeByte(c) + t;
    if Unreserved(c) {
      assert s[1..] == t;
    } else {
      HexRoundTrip(c as int / 16);
      HexRoundTrip(c as int % 16);
      assert s[3..] == t;
    }
  }

  /** Encoded text in front of any other decodes to the text, then the rest. */
  lemma {:induction false} DecodeEncoded(s: string, t: string)
    requires IsBytes(s)
    ensures Decoded(Encoded(s) + t) == Prepend(s, Decoded(t))
    decreases |s|
  {
    if s == [] {
      assert Encoded(s) + t == t;
      PrependTwice([], [], Decoded(t));
    } else {
      var init, c := s[..|s| - 1], s[|s| - 1];
      assert Encoded(s) + t == Encoded(init) + (EncodeByte(c) + t);
      DecodeByte(c, t);
      DecodeEncoded(init, EncodeByte(c) + t);
      PrependTwice(init, [c], Decoded(t));
      assert init + [c] == s;
    }
  }

  /** Decoding undoes encoding for every string. */
  lemma RoundTrip(s: string)
    requires IsBytes(s) && ValidUtf8(s)
    ensures Decode(Encoded(s)) == Some(s)
  {
    DecodeEncoded(s, []);
    assert Encoded(s) + [] == Encoded(s) && s + [] == s;
  }

  /** Encoded text holds only unreserved characters and percent signs. */
  lemma {:induction false} EncodedAlphabet(s: string)
    requires IsBytes(s)
    ensures forall i :: 0 <= i < |Encoded(s)| ==> Unreserved(Encoded(s)[i]) || Encoded(s)[i] == '%'
    ensures s != [] ==> Encoded(s) != []
    ensures s != [] ==> Encoded(s)[|Encoded(s)| - 1] != '%'
    decreases |s|
  {
    if s == [] {
    } else {
      EncodedAlphabet(s[..|s| - 1]);
      var c := s[|s| - 1];
      var e := EncodeByte(c);
      if !Unreserved(c) { HexIsAlphanumeric(c as int / 16); HexIsAlphanumeric(c as int % 16); }
      assert forall i :: 0 <= i < |e| ==> Unreserved(e[i]) || e[i] == '%';
    }
  }

  lemma HexIsAlphanumeric(v: nat)
    requires v < 16
    ensures Alphanumeric(HexDigit(v))
  {}
}
