/** Wildcard domain patterns: the greedy label matcher and the label-by-label host matcher. */
module Glob {
  import opened Common
  import opened Text

  // ----- what a pattern means

  /** Equal when ASCII case is ignored. */
  predicate EqChar(a: char, b: char) { LowerChar(a) == LowerChar(b) }

  predicate EqText(a: string, b: string) {
    |a| == |b| && forall i :: 0 <= i < |a| ==> EqChar(a[i], b[i])
  }

  /** The pattern with its stars replaced, first to last, by `fillers`. */
  function Fill(p: string, fillers: seq<string>): string {
    if p == [] then []
    else if p[0] != '*' then [p[0]] + Fill(p[1..], fillers)
    else if fillers == [] then Fill(p[1..], [])
    else fillers[0] + Fill(p[1..], fillers[1..])
  }

  function Stars(p: string): nat {
    if p == [] then 0 else (if p[0] == '*' then 1 else 0) + Stars(p[1..])
  }

  /** Each star can be replaced by some text to give the label, but for case. */
  ghost predicate Substitutable(p: string, l: string) {
    exists fillers: seq<string> :: |fillers| == Stars(p) && Lower(Fill(p, fillers)) == Lower(l)
  }

  /** The same, one character at a time. */
  ghost predicate Match(p: string, l: string)
    decreases |p|
  {
    if p == [] then l == []
    else if p[0] == '*' then exists k :: 0 <= k <= |l| && Match(p[1..], l[k..])
    else l != [] && EqChar(p[0], l[0]) && Match(p[1..], l[1..])
  }

  lemma {:induction false} MatchIsSubstitution(p: string, l: string)
    ensures Match(p, l) <==> Substitutable(p, l)
    decreases |p|
  {
    if Match(p, l) {
      var fillers := Fillers(p, l);
      EqTextIsLower(Fill(p, fillers), l);
    }
    if Substitutable(p, l) {
      var fillers: seq<string> :| |fillers| == Stars(p) && Lower(Fill(p, fillers)) == Lower(l);
      EqTextIsLower(Fill(p, fillers), l);
      FilledMatches(p, fillers, l);
    }
  }

  lemma EqTextIsLower(a: string, b: string)
    ensures EqText(a, b) <==> Lower(a) == Lower(b)
  {
    if Lower(a) == Lower(b) {
      assert |Lower(a)| == |Lower(b)|;
      assert forall i :: 0 <= i < |a| ==> Lower(a)[i] == LowerChar(a[i]) && Lower(b)[i] == LowerChar(b[i]);
    }
  }

  lemma {:induction false} Fillers(p: string, l: string) returns (fillers: seq<string>)
    requires Match(p, l)
    ensures |fillers| == Stars(p) && EqText(Fill(p, fillers), l)
    decreases |p|
  {
    if p == [] {
      fillers := [];
    } else if p[0] == '*' {
      var k :| 0 <= k <= |l| && Match(p[1..], l[k..]);
      var rest := Fillers(p[1..], l[k..]);
      fillers := [l[..k]] + rest;
      assert fillers[1..] == rest;
      assert l == l[..k] + l[k..];
    } else {
      fillers := Fillers(p[1..], l[1..]);
      assert l == [l[0]] + l[1..];
    }
  }

  lemma {:induction false} FilledMatches(p: string, fillers: seq<string>, l: string)
    requires |fillers| == Stars(p) && EqText(Fill(p, fillers), l)
    ensures Match(p, l)
    decreases |p|
  {
    if p == [] {
    } else if p[0] == '*' {
      var k := |fillers[0]|;
      var rest := Fill(p[1..], fillers[1..]);
      assert Fill(p, fillers) == fillers[0] + rest;
      assert forall i :: 0 <= i < |rest| ==> rest[i] == Fill(p, fillers)[k + i];
      FilledMatches(p[1..], fillers[1..], l[k..]);
    } else {
      var rest := Fill(p[1..], fillers);
      assert Fill(p, fillers) == [p[0]] + rest;
      assert forall i :: 0 <= i < |rest| ==> rest[i] == Fill(p, fillers)[1 + i];
      assert Fill(p, fillers)[0] == p[0];
      FilledMatches(p[1..], fillers, l[1..]);
    }
  }

  // ----- the greedy matcher

  /** A stretch of pattern without stars matches exactly a text of its length. */
  lemma {:induction false} SegmentMatch(seg: string, rest: string, l: string)
    requires '*' !in seg
    ensures Match(seg + rest, l) <==> |seg| <= |l| && EqText(seg, l[..|seg|]) && Match(rest, l[|seg|..])
    decreases |seg|
  {
    if seg == [] {
      assert seg + rest == rest && l[0..] == l;
    } else {
      assert (seg + rest)[0] == seg[0] && (seg + rest)[1..] == seg[1..] + rest;
      if l != [] {
        SegmentMatch(seg[1..], rest, l[1..]);
        if |seg| <= |l| {
          assert l[1..][|seg| - 1..] == l[|seg|..];
          assert l[1..][..|seg| - 1] == l[1..|seg|];
          EqTextCons(seg, l[..|seg|]);
        }
      }
    }
  }

  lemma EqTextCons(a: string, b: string)
    requires |a| == |b| > 0
    ensures EqText(a, b) <==> EqChar(a[0], b[0]) && EqText(a[1..], b[1..])
  {
    if EqChar(a[0], b[0]) && EqText(a[1..], b[1..]) {
      forall i | 0 <= i < |a| ensures EqChar(a[i], b[i]) {
        if i > 0 { assert EqChar(a[1..][i - 1], b[1..][i - 1]); }
      }
    }
  }

  /** A pattern that starts with a star matches whatever it matches further on. */
  lemma StarAbsorbs(p: string, l: string, k: nat)
    requires p != [] && p[0] == '*' && k <= |l| && Match(p, l[k..])
    ensures Match(p, l)
  {
    var m :| 0 <= m <= |l[k..]| && Match(p[1..], l[k..][m..]);
    assert l[k..][m..] == l[k + m..];
  }

  lemma {:induction false} OnlyStars(p: string)
    ensures Match(p, []) <==> forall i :: 0 <= i < |p| ==> p[i] == '*'
    decreases |p|
  {
    if p == [] {
    } else {
      OnlyStars(p[1..]);
      StarsLeft(p, 1);
      if p[0] == '*' {
        var nothing: string := [];
        assert nothing[0..] == nothing;
        assert Match(p, []) <==> Match(p[1..], []);
      }
    }
  }

  /**
  What a remembered star stands for: after it, `seg` (without stars) has matched the text from
  `sl` to `l`. Trying the star further on is the only alternative.
  */
  lemma StarTail(p: string, text: string, sp: nat, sl: nat, at: nat, l: nat)
    requires sp < at <= |p| && p[sp] == '*' && '*' !in p[sp + 1..at]
    requires sl <= l <= |text| && at - (sp + 1) == l - sl && EqText(p[sp + 1..at], text[sl..l])
    ensures Match(p[at..], text[l..]) ==> Match(p[sp..], text[sl..])
    ensures Match(p[sp..], text[sl..]) ==>
      Match(p[at..], text[l..]) || (sl < |text| && Match(p[sp..], text[sl + 1..]))
    ensures Match(p[sp..], text[sl..]) ==> exists k :: l <= k <= |text| && Match(p[at..], text[k..])
  {
    var seg, rest := p[sp + 1..at], p[at..];
    assert p[sp..][1..] == seg + rest;
    SegmentMatch(seg, rest, text[sl..]);
    assert text[sl..][..|seg|] == text[sl..l] && text[sl..][|seg|..] == text[l..];
    if Match(rest, text[l..]) {
      assert text[sl..][0..] == text[sl..];
      assert Match(p[sp..][1..], text[sl..][0..]);
    }
    if Match(p[sp..], text[sl..]) {
      var k :| 0 <= k <= |text[sl..]| && Match(seg + rest, text[sl..][k..]);
      SegmentMatch(seg, rest, text[sl..][k..]);
      assert text[sl..][k..][|seg|..] == text[l + k..];
      if k == 0 {
        assert text[sl..][0..] == text[sl..];
      } else {
        assert text[sl + 1..][k - 1..] == text[sl..][k..];
        assert Match(p[sp..][1..], text[sl + 1..][k - 1..]);
      }
    }
  }

  /** Each star first takes nothing; on a mismatch the latest one takes a character more. */
  method LabelMatches(pattern: string, text: string) returns (r: bool)
    ensures r <==> Match(pattern, text)
  {
    hide Match, EqText, EqChar;
    NothingIsEqual();
    var p, l := 0, 0;
    var star: Option<(nat, nat)> := None;
    assert pattern[0..] == pattern && text[0..] == text;
    while l < |text|
      invariant 0 <= p <= |pattern| && 0 <= l <= |text|
      invariant star.None? ==> (Match(pattern, text) <==> Match(pattern[p..], text[l..]))
      invariant star.Some? ==> var (sp, sl) := star.value;
        && sp < p && pattern[sp] == '*' && '*' !in pattern[sp + 1..p]
        && sl <= l && p - (sp + 1) == l - sl && EqText(pattern[sp + 1..p], text[sl..l])
        && (Match(pattern, text) <==> Match(pattern[sp..], text[sl..]))
      decreases if star.None? then |text| + 1 else |text| - star.value.1, |pattern| - p
    {
      if star.Some? { StarTail(pattern, text, star.value.0, star.value.1, p, l); }
      if p < |pattern| && pattern[p] == '*' {
        StarCommits(pattern, text, p, l);
        assert pattern[p + 1..p + 1] == [] && text[l..l] == [];
        star := Some((p, l));
        p := p + 1;
      } else if p < |pattern| && EqChar(pattern[p], text[l]) {
        Advance(pattern, text, p, l);
        if star.Some? { ExtendSegment(pattern, text, star.value.0, star.value.1, p, l); }
        p, l := p + 1, l + 1;
      } else if star.Some? {
        var (sp, sl) := star.value;
        Mismatch(pattern, text, p, l);
        if Match(pattern[sp..], text[sl + 1..]) {
          assert text[sl..][1..] == text[sl + 1..];
          StarAbsorbs(pattern[sp..], text[sl..], 1);
        }
        assert pattern[sp + 1..sp + 1] == [] && text[sl + 1..sl + 1] == [];
        p, l := sp + 1, sl + 1;
        star := Some((sp, sl + 1));
      } else {
        Mismatch(pattern, text, p, l);
        return false;
      }
    }
    if star.Some? { StarTail(pattern, text, star.value.0, star.value.1, p, l); }
    assert text[l..] == [];
    OnlyStars(pattern[p..]);
    StarsLeft(pattern, p);
    r := forall i :: p <= i < |pattern| ==> pattern[i] == '*';
  }

  lemma StarsLeft(pattern: string, p: nat)
    requires p <= |pattern|
    ensures (forall i :: p <= i < |pattern| ==> pattern[i] == '*') <==>
            forall i :: 0 <= i < |pattern[p..]| ==> pattern[p..][i] == '*'
  {
    if forall i :: 0 <= i < |pattern[p..]| ==> pattern[p..][i] == '*' {
      forall i | p <= i < |pattern| ensures pattern[i] == '*' { assert pattern[p..][i - p] == '*'; }
    }
  }

  lemma NothingIsEqual()
    ensures EqText([], [])
  {}

  /** A star further on in the label implies the star here. */
  lemma StarCommits(pattern: string, text: string, p: nat, l: nat)
    requires p < |pattern| && pattern[p] == '*' && l <= |text|
    ensures forall k :: l <= k <= |text| && Match(pattern[p..], text[k..]) ==> Match(pattern[p..], text[l..])
  {
    forall k | l <= k <= |text| && Match(pattern[p..], text[k..]) ensures Match(pattern[p..], text[l..]) {
      assert text[l..][k - l..] == text[k..];
      StarAbsorbs(pattern[p..], text[l..], k - l);
    }
  }

  lemma Advance(pattern: string, text: string, p: nat, l: nat)
    requires p < |pattern| && pattern[p] != '*' && l < |text| && EqChar(pattern[p], text[l])
    ensures Match(pattern[p..], text[l..]) <==> Match(pattern[p + 1..], text[l + 1..])
  {
    assert pattern[p..][1..] == pattern[p + 1..] && text[l..][1..] == text[l + 1..];
  }

  lemma ExtendSegment(pattern: string, text: string, sp: nat, sl: nat, p: nat, l: nat)
    requires sp < p < |pattern| && sl <= l < |text| && pattern[p] != '*' && EqChar(pattern[p], text[l])
    requires '*' !in pattern[sp + 1..p] && p - (sp + 1) == l - sl && EqText(pattern[sp + 1..p], text[sl..l])
    ensures '*' !in pattern[sp + 1..p + 1] && EqText(pattern[sp + 1..p + 1], text[sl..l + 1])
  {
    assert pattern[sp + 1..p + 1] == pattern[sp + 1..p] + [pattern[p]];
    assert text[sl..l + 1] == text[sl..l] + [text[l]];
  }

  lemma Mismatch(pattern: string, text: string, p: nat, l: nat)
    requires p <= |pattern| && l < |text|
    requires p < |pattern| ==> pattern[p] != '*' && !EqChar(pattern[p], text[l])
    ensures !Match(pattern[p..], text[l..])
  {}
}
