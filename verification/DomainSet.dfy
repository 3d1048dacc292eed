/** Packed domain conditions: hashed names, an index of wildcard patterns, keywords and regexes. */
module DomainSet {
  import opened Common
  import opened Text
  import opened Glob
  import opened HostGlob

  /** The conditions as they were added. */
  datatype Listing = Listing(exact: seq<string>, suffix: seq<string>, subdomain: seq<string>, globs: seq<string>,
                             keywords: seq<string>, regex: seq<string -> bool>)

  /** A pattern under the hash of its fixed labels, with its number of labels. */
  datatype Anchor = Anchor(hash: int, labels: nat, pattern: string)

  /** `hash` is the process-wide keyed hash; nothing is assumed about it. */
  datatype Packed = Packed(hash: string -> int, exact: seq<int>, suffix: seq<int>, subdomain: seq<int>,
                           anchored: seq<Anchor>, loose: seq<string>, keywords: seq<string>, regex: seq<string -> bool>)

  predicate KeywordAt(h: string, k: string, i: nat) { i + |k| <= |h| && h[i..i + |k|] == k }

  predicate HasKeyword(h: string, k: string) {
    exists i :: 0 <= i <= |h| && KeywordAt(h, k, i)
  }

  // ----- what each condition means on its own

  predicate MatchesSuffix(d: string, h: string) {
    h == d || (|d| < |h| && h[|h| - |d|..] == d && h[|h| - |d| - 1] == '.')
  }

  predicate MatchesSubdomain(d: string, h: string) {
    |d| + 1 < |h| && h[|h| - |d|..] == d && h[|h| - |d| - 1] == '.'
  }

  /** The reference: some condition matches, tried one by one. */
  ghost predicate Reference(l: Listing, h: string) {
    || h in l.exact
    || (exists d :: d in l.suffix && MatchesSuffix(d, h))
    || (exists d :: d in l.subdomain && MatchesSubdomain(d, h))
    || (exists p :: p in l.globs && HostMatch(p, h))
    || (exists k :: k in l.keywords && HasKeyword(h, k))
    || (exists i :: 0 <= i < |l.regex| && l.regex[i](h))
  }

  // ----- packing

  ghost predicate Ascending(s: seq<int>) { forall i, j :: 0 <= i < j < |s| ==> s[i] < s[j] }

  ghost predicate HashesOf(s: seq<int>, names: seq<string>, hash: string -> int) {
    && Ascending(s)
    && (forall d :: d in names ==> hash(d) in s)
    && (forall x :: x in s ==> exists d :: d in names && hash(d) == x)
  }

  ghost predicate ByHash(s: seq<Anchor>) { forall i, j :: 0 <= i < j < |s| ==> s[i].hash <= s[j].hash }

  ghost predicate IsAnchor(a: Anchor, hash: string -> int) {
    var s := FixedSuffix(a.pattern);
    s.Some? && a.hash == hash(s.value) && a.labels == |Labels(a.pattern)|
  }

  /** Every pattern with fixed labels is in the index, and nothing else is. */
  ghost predicate AnchorsOf(anchored: seq<Anchor>, globs: seq<string>, hash: string -> int) {
    && ByHash(anchored)
    && (forall a :: a in anchored ==> a.pattern in globs && IsAnchor(a, hash))
    && (forall p :: p in globs && FixedSuffix(p).Some? ==>
          Anchor(hash(FixedSuffix(p).value), |Labels(p)|, p) in anchored)
  }

  ghost predicate LooseOf(loose: seq<string>, globs: seq<string>) {
    forall p :: p in loose <==> p in globs && FixedSuffix(p).None?
  }

  ghost predicate Indexed(s: Packed, globs: seq<string>) {
    AnchorsOf(s.anchored, globs, s.hash) && LooseOf(s.loose, globs)
  }

  ghost predicate Built(l: Listing, s: Packed) {
    && HashesOf(s.exact, l.exact, s.hash) && HashesOf(s.suffix, l.suffix, s.hash)
    && HashesOf(s.subdomain, l.subdomain, s.hash)
    && Indexed(s, l.globs) && s.keywords == l.keywords && s.regex == l.regex
  }

  /** Inserts `x` into an ascending list, once. */
  method InsertOnce(s: seq<int>, x: int) returns (r: seq<int>)
    requires Ascending(s)
    ensures Ascending(r) && forall y :: y in r <==> y in s || y == x
  {
    var i := 0;
    while i < |s| && s[i] < x
      invariant 0 <= i <= |s| && forall j :: 0 <= j < i ==> s[j] < x
    {
      i := i + 1;
    }
    if i < |s| && s[i] == x {
      return s;
    }
    r := s[..i] + [x] + s[i..];
    InsertedMembers(s, i, x);
  }

  /** Hashes of the names, sorted and without duplicates. */
  method HashList(names: seq<string>, hash: string -> int) returns (s: seq<int>)
    ensures HashesOf(s, names, hash)
  {
    s := [];
    for n := 0 to |names|
      invariant HashesOf(s, names[..n], hash)
    {
      assert names[..n + 1] == names[..n] + [names[n]];
      s := InsertOnce(s, hash(names[n]));
      assert names[n] in names[..n + 1];
    }
    assert names[..|names|] == names;
  }

  method InsertAnchor(s: seq<Anchor>, a: Anchor) returns (r: seq<Anchor>)
    requires ByHash(s)
    ensures ByHash(r) && forall b :: b in r <==> b in s || b == a
  {
    if a in s {
      return s;
    }
    var i := 0;
    while i < |s| && s[i].hash < a.hash
      invariant 0 <= i <= |s| && forall j :: 0 <= j < i ==> s[j].hash < a.hash
    {
      i := i + 1;
    }
    r := s[..i] + [a] + s[i..];
    InsertedMembers(s, i, a);
  }

  lemma AnchorAdded(old_: seq<Anchor>, anchored: seq<Anchor>, globs: seq<string>, p: string, hash: string -> int)
    requires AnchorsOf(old_, globs, hash) && ByHash(anchored) && FixedSuffix(p).Some?
    requires forall b :: b in anchored <==> b in old_ || b == Anchor(hash(FixedSuffix(p).value), |Labels(p)|, p)
    ensures AnchorsOf(anchored, globs + [p], hash)
  {
    hide FixedSuffix, Labels;
  }

  lemma AnchorsStay(anchored: seq<Anchor>, globs: seq<string>, p: string, hash: string -> int)
    requires AnchorsOf(anchored, globs, hash) && FixedSuffix(p).None?
    ensures AnchorsOf(anchored, globs + [p], hash)
  {
    hide FixedSuffix, Labels;
  }

  /** Splits the patterns into those indexed by their fixed labels and those tried for every host. */
  method IndexGlobs(globs: seq<string>, hash: string -> int) returns (anchored: seq<Anchor>, loose: seq<string>)
    ensures AnchorsOf(anchored, globs, hash) && LooseOf(loose, globs)
  {
    anchored, loose := [], [];
    for n := 0 to |globs|
      invariant AnchorsOf(anchored, globs[..n], hash) && ByHash(anchored) && LooseOf(loose, globs[..n])
    {
      hide FixedSuffix, Labels, AnchorsOf, ByHash;
      var p := globs[n];
      assert globs[..n + 1] == globs[..n] + [p];
      var s := FixedSuffix(p);
      if s.Some? {
        var longer := InsertAnchor(anchored, Anchor(hash(s.value), |Labels(p)|, p));
        AnchorAdded(anchored, longer, globs[..n], p, hash);
        anchored := longer;
      } else {
        AnchorsStay(anchored, globs[..n], p, hash);
        if p !in loose {
          loose := loose + [p];
        }
      }
    }
    assert globs[..|globs|] == globs;
  }

  method Build(l: Listing, hash: string -> int) returns (s: Packed)
    ensures Built(l, s) && s.hash == hash
  {
    var exact := HashList(l.exact, hash);
    var suffix := HashList(l.suffix, hash);
    var subdomain := HashList(l.subdomain, hash);
    var anchored, loose := IndexGlobs(l.globs, hash);
    s := Packed(hash, exact, suffix, subdomain, anchored, loose, l.keywords, l.regex);
  }

  // ----- lookup

  method Contains(s: seq<int>, x: int) returns (r: bool)
    requires Ascending(s)
    ensures r <==> x in s
  {
    var lo, hi := 0, |s|;
    while lo < hi
      invariant 0 <= lo <= hi <= |s|
      invariant forall i :: 0 <= i < lo ==> s[i] < x
      invariant forall i :: hi <= i < |s| ==> s[i] > x
    {
      var mid := (lo + hi) / 2;
      if s[mid] == x {
        return true;
      } else if s[mid] < x {
        lo := mid + 1;
      } else {
        hi := mid;
      }
    }
    r := false;
  }

  /** Some indexed pattern under `hash`, with that many labels, matches the host. */
  ghost predicate AnchorHit(s: seq<Anchor>, hash: int, labels: nat, h: string) {
    exists i :: 0 <= i < |s| && s[i].hash == hash && s[i].labels == labels && HostMatch(s[i].pattern, h)
  }

  method AnchoredAt(s: seq<Anchor>, hash: int, labels: nat, h: string) returns (r: bool)
    requires ByHash(s)
    ensures r <==> AnchorHit(s, hash, labels, h)
  {
    var lo, hi := 0, |s|;
    while lo < hi
      invariant 0 <= lo <= hi <= |s|
      invariant forall i :: 0 <= i < lo ==> s[i].hash < hash
      invariant forall i :: hi <= i < |s| ==> s[i].hash >= hash
    {
      var mid := (lo + hi) / 2;
      if s[mid].hash < hash {
        lo := mid + 1;
      } else {
        hi := mid;
      }
    }
    while lo < |s| && s[lo].hash == hash
      invariant 0 <= lo <= |s| && forall i :: lo <= i < |s| ==> s[i].hash >= hash
      invariant forall i :: 0 <= i < lo ==> !(s[i].hash == hash && s[i].labels == labels && HostMatch(s[i].pattern, h))
    {
      if s[lo].labels == labels {
        var same := GlobMatches(s[lo].pattern, h);
        if same {
          return true;
        }
      }
      lo := lo + 1;
    }
    r := false;
  }

  /** A list or the pattern index is hit at the `i`th label suffix of the host. */
  ghost predicate HitAt(s: Packed, h: string, i: nat)
    requires i < |Suffixes(h)|
  {
    var x := s.hash(Suffixes(h)[i]);
    || (i == 0 && x in s.exact)
    || x in s.suffix
    || (i > 0 && x in s.subdomain)
    || (i > 0 && AnchorHit(s.anchored, x, |Labels(h)|, h))
  }

  ghost predicate PackedMatches(s: Packed, h: string) {
    || (exists i :: 0 <= i < |Suffixes(h)| && HitAt(s, h, i))
    || (exists p :: p in s.loose && HostMatch(p, h))
    || (exists k :: k in s.keywords && HasKeyword(h, k))
    || (exists i :: 0 <= i < |s.regex| && s.regex[i](h))
  }

  lemma SuffixStep(h: string, n: nat)
    requires n < |Suffixes(h)|
    ensures Suffixes(Suffixes(h)[n]) == Suffixes(h)[n..]
    decreases n
  {
    if n > 0 {
      var rest := h[FirstDot(h) + 1..];
      SuffixStep(rest, n - 1);
      assert Suffixes(h)[n..] == Suffixes(rest)[n - 1..];
    }
  }

  /** The host is the first label suffix; the next one follows the first dot, until there is none. */
  lemma NextSuffix(h: string, n: nat)
    requires n < |Suffixes(h)|
    ensures Suffixes(h)[0] == h
    ensures var rest := Suffixes(h)[n]; var d := FirstDot(rest);
      && (d == |rest| ==> |Suffixes(h)| == n + 1)
      && (d < |rest| ==> n + 1 < |Suffixes(h)| && Suffixes(h)[n + 1] == rest[d + 1..])
  {
    SuffixStep(h, n);
    var rest := Suffixes(h)[n];
    assert FirstDot(rest) < |rest| ==> |Suffixes(rest)| > 1 && Suffixes(h)[n..][1] == Suffixes(h)[n + 1];
  }

  lemma NothingListed(s: Packed, h: string)
    requires s.exact == [] && s.suffix == [] && s.subdomain == [] && s.anchored == []
    ensures forall i :: 0 <= i < |Suffixes(h)| ==> !HitAt(s, h, i)
  {}

  /** Goes through the label suffixes, hashing each once and looking the hash up everywhere. */
  method AnyHit(s: Packed, h: string) returns (r: bool)
    requires Ascending(s.exact) && Ascending(s.suffix) && Ascending(s.subdomain) && ByHash(s.anchored)
    ensures r <==> exists i :: 0 <= i < |Suffixes(h)| && HitAt(s, h, i)
  {
    hide HitAt, Suffixes, Labels;
    var lists := s.exact != [] || s.suffix != [] || s.subdomain != [];
    var globs := s.anchored != [];
    if !lists && !globs {
      NothingListed(s, h);
      return false;
    }
    var labels := if globs then |Labels(h)| else 0;
    var rest, first := h, true;
    ghost var n := 0;
    NextSuffix(h, 0);
    while true
      invariant n < |Suffixes(h)| && rest == Suffixes(h)[n] && (first <==> n == 0)
      invariant forall i :: 0 <= i < n ==> !HitAt(s, h, i)
      decreases |rest|
    {
      r := HitHere(s, h, rest, first, lists, globs, labels, n);
      if r {
        return;
      }
      NextSuffix(h, n);
      var d := FirstDot(rest);
      if d == |rest| {
        break;
      }
      rest, first, n := rest[d + 1..], false, n + 1;
    }
  }

  /** The lookup: the lists and the pattern index, then what is tried for every host. */
  method Matches(s: Packed, h: string) returns (r: bool)
    requires Ascending(s.exact) && Ascending(s.suffix) && Ascending(s.subdomain) && ByHash(s.anchored)
    ensures r <==> PackedMatches(s, h)
  {
    hide HostMatch, HitAt, Suffixes, HasKeyword;
    r := AnyHit(s, h);
    if !r {
      r := AnyGlob(s.loose, h);
    }
    r := r || (exists k :: k in s.keywords && HasKeyword(h, k))
         || (exists i :: 0 <= i < |s.regex| && s.regex[i](h));
  }

  method HitHere(s: Packed, h: string, rest: string, first: bool, lists: bool, globs: bool, labels: nat, ghost n: nat)
    returns (r: bool)
    requires Ascending(s.exact) && Ascending(s.suffix) && Ascending(s.subdomain) && ByHash(s.anchored)
    requires n < |Suffixes(h)| && rest == Suffixes(h)[n] && (first <==> n == 0)
    requires lists <==> s.exact != [] || s.suffix != [] || s.subdomain != []
    requires (globs <==> s.anchored != []) && (globs ==> labels == |Labels(h)|)
    ensures r <==> HitAt(s, h, n)
  {
    hide HostMatch, Labels, Suffixes;
    var x := s.hash(rest);
    if lists {
      var e, f, g := false, false, false;
      if first { e := Contains(s.exact, x); }
      f := Contains(s.suffix, x);
      if !first { g := Contains(s.subdomain, x); }
      if e || f || g {
        return true;
      }
    }
    r := false;
    if globs && !first {
      r := AnchoredAt(s.anchored, x, labels, h);
    }
  }

  method AnyGlob(patterns: seq<string>, h: string) returns (r: bool)
    ensures r <==> exists p :: p in patterns && HostMatch(p, h)
  {
    for i := 0 to |patterns|
      invariant forall j :: 0 <= j < i ==> !HostMatch(patterns[j], h)
    {
      var same := GlobMatches(patterns[i], h);
      if same {
        return true;
      }
    }
    r := false;
  }

  // ----- the packed set against the reference

  lemma SuffixIsListed(d: string, h: string)
    ensures MatchesSuffix(d, h) <==> d in Suffixes(h)
    ensures d in Suffixes(h)[1..] <==> MatchesSubdomain(d, h) || h == ['.'] + d
  {
    ProperSuffixes(h, d);
    assert EndsAfterDot(h, d) && |d| + 1 == |h| ==> h == ['.'] + d;
    assert Suffixes(h) == [h] + Suffixes(h)[1..];
  }

  lemma MatchCountsLabels(p: string, h: string)
    requires HostMatch(p, h)
    ensures |Labels(p)| == |Labels(h)|
  {
    LabelsAreHost(p, h);
  }

  /** The pattern index answers like trying every pattern, whatever the hash. */
  lemma GlobIndexExact(l: Listing, s: Packed, h: string)
    requires Indexed(s, l.globs) && IsLower(h) && forall p :: p in l.globs ==> IsLower(p)
    ensures (exists p :: p in l.globs && HostMatch(p, h)) <==>
      || (exists p :: p in s.loose && HostMatch(p, h))
      || (exists i :: 0 < i < |Suffixes(h)| && AnchorHit(s.anchored, s.hash(Suffixes(h)[i]), |Labels(h)|, h))
  {
    hide HostMatch, Labels, FixedSuffix, IsLower;
    if p :| p in l.globs && HostMatch(p, h) {
      if FixedSuffix(p).Some? {
        FixedSuffixIsSuffix(p, h);
        MatchCountsLabels(p, h);
        var suffixes := Suffixes(h);
        var i :| 0 <= i < |suffixes[1..]| && suffixes[1..][i] == FixedSuffix(p).value;
        assert suffixes[i + 1] == FixedSuffix(p).value;
        var a := Anchor(s.hash(FixedSuffix(p).value), |Labels(p)|, p);
        var j :| 0 <= j < |s.anchored| && s.anchored[j] == a;
        assert AnchorHit(s.anchored, s.hash(suffixes[i + 1]), |Labels(h)|, h);
      }
    }
    if i :| 0 < i < |Suffixes(h)| && AnchorHit(s.anchored, s.hash(Suffixes(h)[i]), |Labels(h)|, h) {
      var x := s.hash(Suffixes(h)[i]);
      var j :| 0 <= j < |s.anchored| && s.anchored[j].hash == x && s.anchored[j].labels == |Labels(h)|
               && HostMatch(s.anchored[j].pattern, h);
      assert s.anchored[j] in s.anchored;
    }
  }

  /** The `i`th label suffix has the hash of a different name, listed where that suffix is looked up. */
  ghost predicate CollidesAt(l: Listing, hash: string -> int, h: string, i: nat, d: string)
    requires i < |Suffixes(h)|
  {
    && hash(Suffixes(h)[i]) == hash(d) && Suffixes(h)[i] != d
    && ((i == 0 && d in l.exact) || d in l.suffix || (i > 0 && d in l.subdomain))
  }

  ghost predicate Collides(l: Listing, hash: string -> int, h: string) {
    exists i, d :: 0 <= i < |Suffixes(h)| && CollidesAt(l, hash, h, i, d)
  }

  /** A dot and then a listed subdomain name: nothing precedes the dot, yet the lookup drops it like a label. */
  ghost predicate OnlyADot(l: Listing, h: string) { exists d :: d in l.subdomain && h == ['.'] + d }

  /** The packed lists never miss a name, whatever the hash. */
  lemma NeverMisses(l: Listing, s: Packed, h: string)
    requires Built(l, s)
    ensures h in l.exact || (exists d :: d in l.suffix && MatchesSuffix(d, h))
            || (exists d :: d in l.subdomain && MatchesSubdomain(d, h)) || OnlyADot(l, h) ==>
            exists i :: 0 <= i < |Suffixes(h)| && HitAt(s, h, i)
  {
    hide AnchorHit, Labels;
    if h in l.exact { assert HitAt(s, h, 0); }
    if d :| d in l.suffix && MatchesSuffix(d, h) {
      SuffixIsListed(d, h);
      var i :| 0 <= i < |Suffixes(h)| && Suffixes(h)[i] == d;
      assert HitAt(s, h, i);
    }
    if d :| d in l.subdomain && (MatchesSubdomain(d, h) || h == ['.'] + d) {
      SuffixIsListed(d, h);
      var i :| 0 <= i < |Suffixes(h)[1..]| && Suffixes(h)[1..][i] == d;
      assert HitAt(s, h, i + 1);
    }
  }

  /** A hit in the lists is a reference match, a lone dot, or a collision. */
  lemma HitIsReference(l: Listing, s: Packed, h: string, i: nat)
    requires Built(l, s) && i < |Suffixes(h)| && HitAt(s, h, i)
    requires !(i > 0 && AnchorHit(s.anchored, s.hash(Suffixes(h)[i]), |Labels(h)|, h))
    ensures h in l.exact || (exists d :: d in l.suffix && MatchesSuffix(d, h))
            || (exists d :: d in l.subdomain && MatchesSubdomain(d, h)) || OnlyADot(l, h) || Collides(l, s.hash, h)
  {
    hide AnchorHit, Labels;
    var t := Suffixes(h)[i];
    var x := s.hash(t);
    SuffixIsListed(t, h);
    if i == 0 && x in s.exact {
      var d :| d in l.exact && s.hash(d) == x;
      assert t == d || CollidesAt(l, s.hash, h, i, d);
    } else if x in s.suffix {
      var d :| d in l.suffix && s.hash(d) == x;
      assert t == d || CollidesAt(l, s.hash, h, i, d);
    } else {
      var d :| d in l.subdomain && s.hash(d) == x;
      assert t == d || CollidesAt(l, s.hash, h, i, d);
      assert Suffixes(h)[1..][i - 1] == t;
    }
  }

  lemma CollisionIsHit(l: Listing, s: Packed, h: string)
    requires Built(l, s) && Collides(l, s.hash, h)
    ensures exists i :: 0 <= i < |Suffixes(h)| && HitAt(s, h, i)
  {
    hide AnchorHit, Labels, Suffixes, Indexed;
    var i, d :| 0 <= i < |Suffixes(h)| && CollidesAt(l, s.hash, h, i, d);
    assert HitAt(s, h, i);
  }

  /**
  For every lower-case host, the packed set matches exactly when some condition does, the host is
  a dot before a listed subdomain name, or a label suffix collides with a listed name.
  */
  lemma PackedIsReference(l: Listing, s: Packed, h: string)
    requires Built(l, s) && IsLower(h) && forall p :: p in l.globs ==> IsLower(p)
    ensures PackedMatches(s, h) <==> Reference(l, h) || OnlyADot(l, h) || Collides(l, s.hash, h)
  {
    hide HostMatch, Labels, HasKeyword, MatchesSuffix, MatchesSubdomain, Suffixes, HashesOf, AnchorHit;
    hide IsLower, Indexed, Collides, OnlyADot;
    GlobIndexExact(l, s, h);
    NeverMisses(l, s, h);
    if i :| 0 < i < |Suffixes(h)| && AnchorHit(s.anchored, s.hash(Suffixes(h)[i]), |Labels(h)|, h) {
      assert HitAt(s, h, i);
    }
    if Collides(l, s.hash, h) { CollisionIsHit(l, s, h); }
    forall i | 0 <= i < |Suffixes(h)| && HitAt(s, h, i)
      ensures Reference(l, h) || OnlyADot(l, h) || Collides(l, s.hash, h)
    {
      if !(i > 0 && AnchorHit(s.anchored, s.hash(Suffixes(h)[i]), |Labels(h)|, h)) {
        HitIsReference(l, s, h, i);
      }
    }
  }

  /** A collision does cause a match no condition gives: under a constant hash one listed name matches every host. */
  lemma CollisionMatches(d: string, h: string)
    requires d != h
    ensures var l, s := Listing([d], [], [], [], [], []), Packed(_ => 0, [0], [], [], [], [], [], []);
      Built(l, s) && PackedMatches(s, h) && !Reference(l, h)
  {
    hide Suffixes, Labels, HostMatch, FixedSuffix;
    var l, s := Listing([d], [], [], [], [], []), Packed(_ => 0, [0], [], [], [], [], [], []);
    assert d in l.exact;
    assert HitAt(s, h, 0);
  }

  /** So does a lone dot: the packed set takes a dot before a listed subdomain name, the reference does not. */
  lemma LoneDotMatches(d: string, s: Packed)
    requires Built(Listing([], [], [d], [], [], []), s)
    ensures PackedMatches(s, ['.'] + d) && !Reference(Listing([], [], [d], [], [], []), ['.'] + d)
  {
    hide Suffixes, Labels, HostMatch, FixedSuffix, AnchorHit;
    var l := Listing([], [], [d], [], [], []);
    assert d in l.subdomain;
    NeverMisses(l, s, ['.'] + d);
  }
}
