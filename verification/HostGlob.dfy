/** Whole-host patterns: label-by-label matching, and the fixed labels a pattern ends with. */
module HostGlob {
  import opened Common
  import opened Text
  import opened Glob

  /** Position of the first dot, or the length. */
  function FirstDot(s: string): (d: nat)
    ensures d <= |s| && '.' !in s[..d] && (d < |s| ==> s[d] == '.')
  {
    IndexOf(s, '.')
  }

  /** The parts between dots. */
  function Labels(s: string): (r: seq<string>)
    ensures r != []
  {
    Split(s, '.')
  }

  ghost predicate LabelsMatch(parts: seq<string>, labels: seq<string>) {
    |parts| == |labels| && forall i :: 0 <= i < |parts| ==> Match(parts[i], labels[i])
  }

  /** Matching that ignores labels, except that what a star takes has no dot. */
  ghost predicate HostMatch(p: string, h: string)
    decreases |p|
  {
    if p == [] then h == []
    else if p[0] == '*' then exists k :: 0 <= k <= |h| && '.' !in h[..k] && HostMatch(p[1..], h[k..])
    else h != [] && EqChar(p[0], h[0]) && HostMatch(p[1..], h[1..])
  }

  // ----- label by label is the whole host

  lemma DotAlone(c: char)
    ensures EqChar('.', c) <==> c == '.'
    ensures EqChar(c, '.') <==> c == '.'
  {}

  lemma FirstDotShift(h: string, k: nat)
    requires k <= FirstDot(h)
    ensures FirstDot(h[k..]) == FirstDot(h) - k
  {
    var d, e := FirstDot(h), FirstDot(h[k..]);
    assert forall i :: 0 <= i < d ==> h[i] == h[..d][i];
    assert forall i :: 0 <= i < e ==> h[k + i] == h[k..][..e][i];
  }

  /** A pattern without dots matches exactly the hosts without dots that its label matches. */
  lemma {:induction false} LastLabel(part: string, h: string)
    requires '.' !in part
    ensures HostMatch(part, h) <==> '.' !in h && Match(part, h)
    decreases |part|
  {
    if part == [] {
    } else if part[0] == '*' {
      forall k | 0 <= k <= |h|
        ensures '.' !in h[..k] && HostMatch(part[1..], h[k..]) <==> '.' !in h && Match(part[1..], h[k..])
      {
        LastLabel(part[1..], h[k..]);
        assert h == h[..k] + h[k..];
      }
    } else if h != [] {
      LastLabel(part[1..], h[1..]);
      DotAlone(part[0]);
      assert h == [h[0]] + h[1..];
    }
  }

  lemma {:induction false} FirstLabel(part: string, rest: string, h: string)
    requires '.' !in part
    ensures var d := FirstDot(h);
      HostMatch(part + ['.'] + rest, h) <==> d < |h| && Match(part, h[..d]) && HostMatch(rest, h[d + 1..])
    decreases |part|, 1
  {
    hide FirstDot;
    var whole, d := part + ['.'] + rest, FirstDot(h);
    if part == [] {
      assert whole == ['.'] + rest && whole[1..] == rest;
      if h != [] { DotAlone(h[0]); }
    } else {
      assert whole[0] == part[0] && whole[1..] == part[1..] + ['.'] + rest;
      if part[0] == '*' {
        StarLabel(part, rest, h);
      } else if h != [] {
        DotAlone(part[0]);
        FirstLabel(part[1..], rest, h[1..]);
        if h[0] != '.' {
          FirstDotShift(h, 1);
          assert h[1..][d - 1..] == h[d..];
          if d < |h| { assert h[1..][..d - 1] == h[..d][1..] && h[1..][d..] == h[d + 1..]; }
        }
      }
    }
  }

  lemma {:induction false} StarLabel(part: string, rest: string, h: string)
    requires part != [] && part[0] == '*' && '.' !in part
    ensures var d := FirstDot(h);
      HostMatch(part + ['.'] + rest, h) <==> d < |h| && Match(part, h[..d]) && HostMatch(rest, h[d + 1..])
    decreases |part|, 0
  {
    var whole, tail, d := part + ['.'] + rest, part[1..] + ['.'] + rest, FirstDot(h);
    assert whole[0] == '*' && whole[1..] == tail;
    forall k | 0 <= k <= |h|
      ensures '.' !in h[..k] && HostMatch(tail, h[k..]) <==>
              k <= d < |h| && Match(part[1..], h[..d][k..]) && HostMatch(rest, h[d + 1..])
    {
      StarTaking(part[1..], rest, h, k);
    }
    StarSteps(part, h[..d]);
    HostStarSteps(whole, h);
    hide Match, HostMatch, FirstDot;
    if k :| 0 <= k <= |h| && '.' !in h[..k] && HostMatch(tail, h[k..]) {
      assert k <= d;
    }
    if d < |h| && HostMatch(rest, h[d + 1..]) {
      if k :| 0 <= k <= d && Match(part[1..], h[..d][k..]) {
        assert '.' !in h[..k] && HostMatch(tail, h[k..]);
      }
    }
  }

  lemma StarSteps(p: string, h: string)
    requires p != [] && p[0] == '*'
    ensures Match(p, h) <==> exists k :: 0 <= k <= |h| && Match(p[1..], h[k..])
  {}

  lemma HostStarSteps(p: string, h: string)
    requires p != [] && p[0] == '*'
    ensures HostMatch(p, h) <==> exists k :: 0 <= k <= |h| && '.' !in h[..k] && HostMatch(p[1..], h[k..])
  {}

  /** A star that takes the first `k` bytes leaves the rest of its label to the rest of the pattern. */
  lemma {:induction false} StarTaking(part: string, rest: string, h: string, k: nat)
    requires '.' !in part && k <= |h|
    ensures var d := FirstDot(h);
      '.' !in h[..k] && HostMatch(part + ['.'] + rest, h[k..]) <==>
      k <= d < |h| && Match(part, h[..d][k..]) && HostMatch(rest, h[d + 1..])
    decreases |part|, 2
  {
    hide Match, HostMatch;
    var d := FirstDot(h);
    FirstLabel(part, rest, h[k..]);
    DotFree(h, k);
    if k <= d {
      FirstDotShift(h, k);
      if d < |h| { assert h[k..][..d - k] == h[..d][k..] && h[k..][d - k + 1..] == h[d + 1..]; }
    }
  }

  lemma DotFree(h: string, k: nat)
    requires k <= |h|
    ensures '.' !in h[..k] <==> k <= FirstDot(h)
  {
    var d := FirstDot(h);
    if k <= d {
      assert h[..k] == h[..d][..k];
    } else {
      assert h[..k][d] == '.';
    }
  }

  lemma SingleMatch(part: string, labels: seq<string>)
    ensures LabelsMatch([part], labels) <==> |labels| == 1 && Match(part, labels[0])
  {
    hide Match;
    if LabelsMatch([part], labels) { assert Match([part][0], labels[0]); }
  }

  lemma LabelsStep(s: string)
    ensures var d := FirstDot(s); Labels(s) == if d == |s| then [s] else [s[..d]] + Labels(s[d + 1..])
  {
    hide FirstDot;
  }

  /** Label-by-label matching is whole-host matching in which a star never spans a dot. */
  lemma {:induction false} LabelsAreHost(p: string, h: string)
    ensures LabelsMatch(Labels(p), Labels(h)) <==> HostMatch(p, h)
    decreases |p|
  {
    hide FirstDot, Labels, LabelsMatch, HostMatch, Match;
    var d, e := FirstDot(p), FirstDot(h);
    LabelsStep(p);
    LabelsStep(h);
    if d == |p| {
      assert p[..d] == p && h[..|h|] == h;
      LastLabel(p, h);
      DotFree(h, |h|);
      SingleMatch(p, Labels(h));
    } else {
      var part, rest := p[..d], p[d + 1..];
      assert p == part + ['.'] + rest;
      FirstLabel(part, rest, h);
      if e < |h| {
        LabelsAreHost(rest, h[e + 1..]);
        ConsMatch(part, Labels(rest), h[..e], Labels(h[e + 1..]));
      } else {
        LongerMatch(part, Labels(rest), h);
      }
    }
  }

  lemma LongerMatch(part: string, parts: seq<string>, h: string)
    requires parts != []
    ensures !LabelsMatch([part] + parts, [h])
  {}

  lemma ConsMatch(part: string, parts: seq<string>, first: string, labels: seq<string>)
    ensures LabelsMatch([part] + parts, [first] + labels) <==> Match(part, first) && LabelsMatch(parts, labels)
  {
    var ps, ls := [part] + parts, [first] + labels;
    if LabelsMatch(ps, ls) {
      assert Match(ps[0], ls[0]);
      forall i | 0 <= i < |parts| ensures Match(parts[i], labels[i]) { assert Match(ps[i + 1], ls[i + 1]); }
    }
  }

  /** Splits both into labels and pairs them up. */
  method GlobMatches(pattern: string, host: string) returns (r: bool)
    ensures r <==> HostMatch(pattern, host)
  {
    LabelsAreHost(pattern, host);
    var parts, labels := Labels(pattern), Labels(host);
    hide Labels, HostMatch, Match;
    var i := 0;
    while i < |parts|
      invariant 0 <= i <= |parts| && i <= |labels|
      invariant forall j :: 0 <= j < i ==> Match(parts[j], labels[j])
    {
      if i == |labels| {
        return false;
      }
      var same := LabelMatches(parts[i], labels[i]);
      if !same {
        return false;
      }
      i := i + 1;
    }
    r := i == |labels|;
  }

  // ----- suffixes

  /** The host, then what follows each of its dots. */
  function Suffixes(h: string): (r: seq<string>)
    ensures r != [] && r[0] == h
    decreases |h|
  {
    var d := FirstDot(h);
    if d == |h| then [h] else [h] + Suffixes(h[d + 1..])
  }

  ghost predicate EndsAfterDot(h: string, s: string) {
    |s| < |h| && h[|h| - |s| - 1] == '.' && h[|h| - |s|..] == s
  }

  lemma NoDotNoEnd(h: string, s: string)
    ensures EndsAfterDot(h, s) ==> FirstDot(h) <= |h| - |s| - 1
  {
    if EndsAfterDot(h, s) {
      var at := |h| - |s| - 1;
      assert h[..at + 1][at] == '.';
      DotFree(h, at + 1);
    }
  }

  lemma EndsAfterFirstDot(h: string, s: string)
    requires FirstDot(h) < |h|
    ensures var rest := h[FirstDot(h) + 1..]; EndsAfterDot(h, s) <==> s == rest || EndsAfterDot(rest, s)
  {
    var d := FirstDot(h);
    var rest := h[d + 1..];
    NoDotNoEnd(h, s);
    hide FirstDot;
    if |s| < |rest| {
      assert h[|h| - |s|..] == rest[|rest| - |s|..];
      assert h[|h| - |s| - 1] == rest[|rest| - |s| - 1];
    }
  }

  /** What follows a dot is exactly what the proper suffixes list. */
  lemma {:induction false} ProperSuffixes(h: string, s: string)
    ensures s in Suffixes(h)[1..] <==> EndsAfterDot(h, s)
    decreases |h|
  {
    var d := FirstDot(h);
    NoDotNoEnd(h, s);
    if d < |h| {
      var rest := h[d + 1..];
      ProperSuffixes(rest, s);
      EndsAfterFirstDot(h, s);
      assert Suffixes(h)[1..] == Suffixes(rest);
      assert Suffixes(rest) == [rest] + Suffixes(rest)[1..];
    }
  }

  /** Position of the last star, or -1. */
  function LastStar(p: string): (i: int)
    ensures -1 <= i < |p| && (i >= 0 ==> p[i] == '*') && forall j :: i < j < |p| ==> p[j] != '*'
  {
    if p == [] then -1
    else if p[|p| - 1] == '*' then |p| - 1
    else LastStar(p[..|p| - 1])
  }

  /** What follows the first dot past the last star: the part of the host a pattern fixes. */
  function FixedSuffix(p: string): Option<string> {
    var star := LastStar(p);
    if star < 0 then None
    else
      var d := FirstDot(p[star..]);
      if star + d == |p| then None else Some(p[star + d + 1..])
  }

  lemma {:induction false} PrefixSplits(a: string, b: string, h: string)
    requires HostMatch(a + b, h)
    ensures exists k :: 0 <= k <= |h| && HostMatch(b, h[k..])
    decreases |a|
  {
    if a == [] {
      assert a + b == b && h[0..] == h;
    } else {
      assert (a + b)[1..] == a[1..] + b;
      if a[0] == '*' {
        var k :| 0 <= k <= |h| && HostMatch((a + b)[1..], h[k..]);
        PrefixSplits(a[1..], b, h[k..]);
        var m :| 0 <= m <= |h[k..]| && HostMatch(b, h[k..][m..]);
        assert h[k..][m..] == h[k + m..];
      } else {
        PrefixSplits(a[1..], b, h[1..]);
        var m :| 0 <= m <= |h[1..]| && HostMatch(b, h[1..][m..]);
        assert h[1..][m..] == h[1 + m..];
      }
    }
  }

  lemma {:induction false} StarFreeIsEqual(p: string, h: string)
    requires '*' !in p && IsLower(p) && IsLower(h) && HostMatch(p, h)
    ensures p == h
    decreases |p|
  {
    if p == [] {
    } else {
      assert IsLower(p[1..]) && IsLower(h[1..]);
      StarFreeIsEqual(p[1..], h[1..]);
      assert p == [p[0]] + p[1..] && h == [h[0]] + h[1..];
    }
  }

  lemma FixedSuffixShape(p: string) returns (dot: nat)
    requires FixedSuffix(p).Some?
    ensures dot < |p| && p[dot] == '.' && p[dot + 1..] == FixedSuffix(p).value && '*' !in p[dot..]
  {
    var star := LastStar(p);
    dot := star + FirstDot(p[star..]);
    var tail := p[dot..];
    assert forall j :: 0 <= j < |tail| ==> tail[j] == p[dot + j];
  }

  /** A host that matches a pattern ends, after a dot, with the pattern's fixed labels. */
  lemma FixedSuffixIsSuffix(p: string, h: string)
    requires IsLower(p) && IsLower(h) && HostMatch(p, h) && FixedSuffix(p).Some?
    ensures FixedSuffix(p).value in Suffixes(h)[1..]
  {
    hide FixedSuffix, LastStar, HostMatch, Suffixes;
    var dot := FixedSuffixShape(p);
    var tail := p[dot..];
    assert tail[0] == '.' && tail[1..] == p[dot + 1..];
    assert p == p[..dot] + tail;
    PrefixSplits(p[..dot], tail, h);
    var k :| 0 <= k <= |h| && HostMatch(tail, h[k..]);
    assert IsLower(tail) && IsLower(h[k..]);
    StarFreeIsEqual(tail, h[k..]);
    assert EndsAfterDot(h, tail[1..]) by { assert h[k + 1..] == h[k..][1..]; }
    ProperSuffixes(h, tail[1..]);
  }
}
