/** The regular expression a domain pattern is compiled to, against label-by-label matching. */
module GlobRegex {
  import opened Common
  import opened Text
  import opened Glob
  import opened HostGlob

  /** The characters the escaping puts a backslash in front of. */
  predicate IsMeta(c: char) { c in "\\.+*?()|[]{}^$#&-~" }

  function Escape(p: string): string {
    if p == [] then [] else (if IsMeta(p[0]) then ['\\', p[0]] else [p[0]]) + Escape(p[1..])
  }

  const NOT_DOTS := "[^.]*"

  /** Every escaped star, from the left, becomes a repetition of anything but a dot. */
  function ReplaceStars(s: string): string
    decreases |s|
  {
    if |s| < 2 then s
    else if s[0] == '\\' && s[1] == '*' then NOT_DOTS + ReplaceStars(s[2..])
    else [s[0]] + ReplaceStars(s[1..])
  }

  /** The text between the anchors. */
  function RegexText(p: string): string { ReplaceStars(Escape(p)) }

  // ----- what the text means

  datatype Token = Literal(c: char) | NotDots

  function Prepend(t: Token, rest: Option<seq<Token>>): Option<seq<Token>> {
    if rest.None? then None else Some([t] + rest.value)
  }

  /** Reads the part of the regular expression syntax that occurs here; None for anything else. */
  function Tokens(re: string): Option<seq<Token>>
    decreases |re|
  {
    if re == [] then Some([])
    else if re[0] == '\\' then
      if |re| >= 2 && IsMeta(re[1]) then Prepend(Literal(re[1]), Tokens(re[2..])) else None
    else if |re| >= 5 && re[..5] == NOT_DOTS then Prepend(NotDots, Tokens(re[5..]))
    else if IsMeta(re[0]) then None
    else Prepend(Literal(re[0]), Tokens(re[1..]))
  }

  /** The tokens one after the other are the whole host. */
  ghost predicate TokensMatch(t: seq<Token>, h: string)
    decreases |t|
  {
    if t == [] then h == []
    else if t[0].NotDots? then exists k :: 0 <= k <= |h| && '.' !in h[..k] && TokensMatch(t[1..], h[k..])
    else h != [] && t[0].c == h[0] && TokensMatch(t[1..], h[1..])
  }

  /** The compiled pattern, anchored at both ends. */
  ghost predicate RegexMatch(p: string, h: string) {
    var t := Tokens(RegexText(p));
    t.Some? && TokensMatch(t.value, h)
  }

  // ----- the text reads back as the pattern

  function TokenOf(c: char): Token { if c == '*' then NotDots else Literal(c) }

  function TokensOf(p: string): seq<Token> { seq(|p|, i requires 0 <= i < |p| => TokenOf(p[i])) }

  lemma EscapeHead(p: string)
    ensures Escape(p) == [] || Escape(p)[0] != '*'
  {}

  /** The replacement never takes a backslash that belongs to another character. */
  lemma TextStep(p: string)
    requires p != []
    ensures RegexText(p) ==
      (if p[0] == '*' then NOT_DOTS else if IsMeta(p[0]) then ['\\', p[0]] else [p[0]]) + RegexText(p[1..])
  {
    hide IsMeta, Escape, ReplaceStars;
    var c, e := p[0], Escape(p[1..]);
    EscapeHead(p[1..]);
    EscapeStep(p);
    StarIsMeta();
    if c == '*' {
      ReplaceStar(e);
    } else if IsMeta(c) {
      ReplaceMeta(c, e);
    } else {
      ReplaceOther(c, e);
    }
  }

  lemma EscapeStep(p: string)
    requires p != []
    ensures Escape(p) == (if IsMeta(p[0]) then ['\\', p[0]] else [p[0]]) + Escape(p[1..])
  {}

  lemma ReplaceMeta(c: char, e: string)
    requires c != '*' && (e == [] || e[0] != '*')
    ensures ReplaceStars(['\\', c] + e) == ['\\', c] + ReplaceStars(e)
  {
    hide ReplaceStars;
    assert ['\\', c] + e == ['\\'] + ([c] + e);
    ReplaceOther('\\', [c] + e);
    ReplaceOther(c, e);
  }

  lemma ReplaceStar(e: string)
    ensures ReplaceStars(['\\', '*'] + e) == NOT_DOTS + ReplaceStars(e)
  {
    assert (['\\', '*'] + e)[2..] == e;
  }

  lemma StarIsMeta()
    ensures IsMeta('*') && IsMeta('\\')
  {}

  lemma ReplaceOther(c: char, e: string)
    requires e == [] || e[0] != '*'
    ensures ReplaceStars([c] + e) == [c] + ReplaceStars(e)
  {
    assert ([c] + e)[1..] == e;
  }

  lemma TokensStep(c: char, rest: string)
    ensures var text := if c == '*' then NOT_DOTS else if IsMeta(c) then ['\\', c] else [c];
      Tokens(text + rest) == Prepend(TokenOf(c), Tokens(rest))
  {
    StarIsMeta();
    if c == '*' {
      var text := NOT_DOTS + rest;
      assert text[0] == '[' && text[..5] == NOT_DOTS && text[5..] == rest;
    } else if IsMeta(c) {
      hide IsMeta;
      var text := ['\\', c] + rest;
      assert text[0] == '\\' && text[1] == c && text[2..] == rest;
    } else {
      var text := [c] + rest;
      assert text[0] == c && c != '[' && text[1..] == rest;
      assert |text| >= 5 ==> text[..5][0] == c;
    }
  }

  /** Escaping and replacing gives a text that reads back as the pattern, star by star. */
  lemma {:induction false} TextReadsBack(p: string)
    ensures Tokens(RegexText(p)) == Some(TokensOf(p))
    decreases |p|
  {
    if p == [] {
      assert RegexText(p) == [];
    } else {
      TextReadsBack(p[1..]);
      TextStep(p);
      hide Tokens, RegexText;
      TokensStep(p[0], RegexText(p[1..]));
      assert TokensOf(p) == [TokenOf(p[0])] + TokensOf(p[1..]);
    }
  }

  lemma {:induction false} TokensAreHost(p: string, h: string)
    requires IsLower(p) && IsLower(h)
    ensures HostMatch(p, h) <==> TokensMatch(TokensOf(p), h)
    decreases |p|
  {
    if p == [] {
      assert TokensOf(p) == [];
    } else {
      assert TokensOf(p)[1..] == TokensOf(p[1..]);
      assert IsLower(p[1..]);
      if p[0] == '*' {
        forall k | 0 <= k <= |h| ensures HostMatch(p[1..], h[k..]) <==> TokensMatch(TokensOf(p[1..]), h[k..]) {
          assert IsLower(h[k..]);
          TokensAreHost(p[1..], h[k..]);
        }
      } else if h != [] {
        assert IsLower(h[1..]);
        TokensAreHost(p[1..], h[1..]);
      }
    }
  }

  /** On lower-case hosts the compiled pattern matches exactly what label-by-label matching does. */
  lemma LowerCaseAgrees(p: string, h: string)
    requires IsLower(p) && IsLower(h)
    ensures HostMatch(p, h) <==> RegexMatch(p, h)
  {
    TextReadsBack(p);
    TokensAreHost(p, h);
  }
}
