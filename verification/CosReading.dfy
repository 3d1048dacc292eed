/** Which URLs name an object, and which targets are valid, said without reading or splitting them. */
module CosReading {
  import opened Common
  import opened Text
  import opened Percent
  import opened CosUrl
  import opened Escapes

  // ----- white space around the URL

  /** The code points of white space. */
  predicate IsSpacePoint(c: nat) {
    || 9 <= c <= 13 || c == 0x20 || c == 0x85 || c == 0xA0 || c == 0x1680 || 0x2000 <= c <= 0x200A
    || c == 0x2028 || c == 0x2029 || c == 0x202F || c == 0x205F || c == 0x3000
  }

  lemma SpacePoint(c: nat)
    requires IsSpacePoint(c)
    ensures IsSpace(Utf8(c))
  {}

  /** A byte string is one white space character exactly when it is the UTF-8 of such a code point. */
  lemma SpaceExactly(w: string)
    ensures IsSpace(w) <==> exists c :: IsSpacePoint(c) && Utf8(c) == w
  {
    if IsSpace(w) {
      var b := seq(|w|, i requires 0 <= i < |w| => w[i] as int);
      var c := if |w| == 1 then b[0] else if |w| == 2 then b[1]
               else (b[0] - 0xE0) * 4096 + (b[1] - 0x80) * 64 + b[2] - 0x80;
      assert IsSpacePoint(c);
      assert Utf8(c) == w;
    }
    if c :| IsSpacePoint(c) && Utf8(c) == w { SpacePoint(c); }
  }

  /** White space characters one after the other. */
  predicate Blank(w: string)
    decreases |w|
  {
    w == [] || exists k :: 0 < k <= |w| && IsSpace(w[..k]) && Blank(w[k..])
  }

  lemma {:induction false} BlankJoins(a: string, b: string)
    requires Blank(a) && Blank(b)
    ensures Blank(a + b)
    decreases |a|
  {
    hide IsSpace;
    if a == [] {
      assert a + b == b;
    } else {
      var k :| 0 < k <= |a| && IsSpace(a[..k]) && Blank(a[k..]);
      BlankJoins(a[k..], b);
      assert (a + b)[..k] == a[..k] && (a + b)[k..] == a[k..] + b;
    }
  }

  lemma SpaceIsBlank(w: string)
    requires IsSpace(w)
    ensures Blank(w)
  {
    assert w[..|w|] == w && w[|w|..] == [];
  }

  lemma SpaceFound(s: string)
    ensures SpaceAtStart(s) > 0 ==> Blank(s[..SpaceAtStart(s)])
    ensures SpaceAtEnd(s) > 0 ==> Blank(s[|s| - SpaceAtEnd(s)..])
  {
    hide IsSpace, Blank;
    if SpaceAtStart(s) > 0 { SpaceIsBlank(s[..SpaceAtStart(s)]); }
    if SpaceAtEnd(s) > 0 { SpaceIsBlank(s[|s| - SpaceAtEnd(s)..]); }
  }

  lemma {:induction false} TrimmedStart(s: string) returns (w: string)
    ensures Blank(w) && s == w + TrimStart(s) && SpaceAtStart(TrimStart(s)) == 0
    decreases |s|
  {
    hide SpaceAtStart, Blank;
    var n := SpaceAtStart(s);
    if n == 0 {
      w := [];
      NoneIsBlank();
    } else {
      var rest := TrimmedStart(s[n..]);
      w := s[..n] + rest;
      SpaceFound(s);
      BlankJoins(s[..n], rest);
      assert s == s[..n] + s[n..];
    }
  }

  lemma NoneIsBlank()
    ensures Blank([])
  {}

  lemma {:induction false} TrimmedRight(s: string) returns (w: string)
    ensures Blank(w) && s == TrimRight(s) + w && SpaceAtEnd(TrimRight(s)) == 0
    decreases |s|
  {
    hide SpaceAtEnd, Blank;
    var n := SpaceAtEnd(s);
    if n == 0 {
      w := [];
      NoneIsBlank();
    } else {
      var m := |s| - n;
      var rest := TrimmedRight(s[..m]);
      w := rest + s[m..];
      SpaceFound(s);
      BlankJoins(rest, s[m..]);
      assert s == s[..m] + s[m..];
    }
  }

  lemma SpaceStays(s: string, w: string, k: nat)
    requires SpaceBehind(s, k)
    ensures SpaceBehind(w + s, k)
  {
    hide IsSpace;
    assert (w + s)[|w + s| - k..] == s[|s| - k..];
  }

  lemma EndStays(s: string, w: string)
    requires SpaceAtEnd(w + s) == 0
    ensures SpaceAtEnd(s) == 0
  {
    hide SpaceBehind;
    if SpaceBehind(s, 1) { SpaceStays(s, w, 1); }
    if SpaceBehind(s, 2) { SpaceStays(s, w, 2); }
    if SpaceBehind(s, 3) { SpaceStays(s, w, 3); }
  }

  /** Trimming takes white space off both ends, all of it and nothing else. */
  lemma TrimmedExactly(s: string) returns (front: string, back: string)
    ensures var core := TrimStart(TrimRight(s));
      && s == front + core + back && Blank(front) && Blank(back)
      && SpaceAtStart(core) == 0 && SpaceAtEnd(core) == 0
  {
    hide SpaceAtStart, SpaceAtEnd, Blank, TrimStart, TrimRight;
    back := TrimmedRight(s);
    front := TrimmedStart(TrimRight(s));
    EndStays(TrimStart(TrimRight(s)), front);
  }

  // ----- the parts of the URL

  /** The trimmed URL as its parts: a host in any case, the encoded key, and a query or fragment. */
  ghost predicate Spells(core: string, t: CosTarget, host: string, path: string, query: string) {
    && core == "https://" + host + "/" + path + query
    && Lower(host) == Host(t) && Decode(path) == Some(t.key)
    && '?' !in path && '#' !in path && (query == [] || query[0] == '?' || query[0] == '#')
  }

  lemma {:induction false} FirstIs(a: string, c: char, b: string)
    requires c !in a && (b == [] || b[0] == c)
    ensures IndexOf(a + b, c) == |a|
  {
    if b == [] {
      assert a + b == a;
      IndexOfNone(a, c);
    } else {
      assert a + b == a + [c] + b[1..];
      IndexOfAt(a, c, b[1..]);
    }
  }

  /** Cutting at the first question mark or hash gives the part before the query back. */
  lemma QueryIsCut(path: string, query: string)
    requires '?' !in path && '#' !in path && (query == [] || query[0] == '?' || query[0] == '#')
    ensures var all := path + query; all[..Min(IndexOf(all, '?'), IndexOf(all, '#'))] == path
  {
    hide IndexOf;
    var all := path + query;
    assert forall i :: 0 <= i < |path| ==> all[i] == path[i];
    if query == [] || query[0] == '?' {
      FirstIs(path, '?', query);
      assert |path| <= IndexOf(all, '#');
    } else {
      FirstIs(path, '#', query);
      assert |path| <= IndexOf(all, '?');
    }
    assert all[..|path|] == path;
  }

  lemma HostSpelled(host: string, base: string, cos: nat, t: CosTarget)
    requires StripSuffix(Lower(host), ".myqcloud.com") == Some(base) && OccursAt(base, ".cos.", cos)
    requires t.bucket == base[..cos] && t.region == base[cos + 5..]
    ensures Lower(host) == Host(t)
  {
    hide Lower;
    var h := Lower(host);
    assert h == h[..|h| - 13] + h[|h| - 13..];
    assert base == base[..cos] + base[cos..cos + 5] + base[cos + 5..];
  }

  lemma CutBefore(all: string)
    ensures var n := Min(IndexOf(all, '?'), IndexOf(all, '#'));
      '?' !in all[..n] && '#' !in all[..n] && (n == |all| || all[n] == '?' || all[n] == '#')
  {
    var a, b := IndexOf(all, '?'), IndexOf(all, '#');
    hide IndexOf;
    var n := Min(a, b);
    assert forall i :: 0 <= i < n ==> all[..n][i] == all[..a][i] && all[..n][i] == all[..b][i];
  }

  lemma PartsSpelled(host: string, all: string, t: CosTarget)
    requires FromParts(host, all) == Some(t)
    ensures Validate(t) && Lower(host) == Host(t)
    ensures Decode(all[..Min(IndexOf(all, '?'), IndexOf(all, '#'))]) == Some(t.key)
  {
    hide Lower, Host, Find, StripSuffix, IndexOf, Decode, Validate, OccursAt;
    var base := StripSuffix(Lower(host), ".myqcloud.com").value;
    HostSpelled(host, base, Find(base, ".cos.", 0).value, t);
  }

  lemma PrefixBack(core: string)
    requires "https://" <= core
    ensures core == "https://" + core[8..]
  {}

  lemma Rejoined(core: string, rest: string, host: string, path: string, query: string)
    requires core == "https://" + rest && rest == host + "/" + (path + query)
    ensures core == "https://" + host + "/" + path + query
  {}

  lemma RestSpelled(core: string, rest: string, slash: nat, t: CosTarget)
    requires core == "https://" + rest && slash < |rest| && rest[slash] == '/'
    requires FromParts(rest[..slash], rest[slash + 1..]) == Some(t)
    ensures Validate(t) && exists host, path, query :: Spells(core, t, host, path, query)
  {
    hide IndexOf, FromParts, Validate, Lower, Host, Decode;
    var host, all := rest[..slash], rest[slash + 1..];
    PartsSpelled(host, all, t);
    CutBefore(all);
    var n := Min(IndexOf(all, '?'), IndexOf(all, '#'));
    var path, query := all[..n], all[n..];
    assert all == path + query;
    assert rest == host + "/" + (path + query);
    Rejoined(core, rest, host, path, query);
    assert Spells(core, t, host, path, query);
  }

  lemma ReadIsSpelled(url: string, t: CosTarget)
    requires FromUrl(url) == Some(t)
    ensures Validate(t) && exists host, path, query :: Spells(TrimStart(TrimRight(url)), t, host, path, query)
  {
    hide TrimStart, TrimRight, IndexOf, FromParts, Validate, Spells;
    var core := TrimStart(TrimRight(url));
    PrefixBack(core);
    RestSpelled(core, core[8..], IndexOf(core[8..], '/'), t);
  }

  lemma NoSlash(host: string, t: CosTarget)
    requires Validate(t) && Lower(host) == Host(t)
    ensures '/' !in host
  {
    hide Host, Lower;
    HostReads(t);
    forall i | 0 <= i < |host| ensures host[i] != '/' {
      assert Lower(host)[i] == LowerChar(host[i]);
    }
  }

  lemma PartsAreRead(t: CosTarget, host: string, path: string, query: string)
    requires Validate(t) && Lower(host) == Host(t) && Decode(path) == Some(t.key)
    requires '?' !in path && '#' !in path && (query == [] || query[0] == '?' || query[0] == '#')
    ensures FromParts(host, path + query) == Some(t)
  {
    QueryIsCut(path, query);
    HostReads(t);
    FindCos(t.bucket, t.region);
    hide IndexOf, Lower, Host, Decode, Find, StripSuffix, IsLabel, IsKey;
    var base := t.bucket + ".cos." + t.region;
    assert base[..|t.bucket|] == t.bucket && base[|t.bucket| + 5..] == t.region;
  }

  lemma SpelledIsRead(url: string, t: CosTarget, host: string, path: string, query: string)
    requires Validate(t) && Spells(TrimStart(TrimRight(url)), t, host, path, query)
    ensures FromUrl(url) == Some(t)
  {
    hide TrimStart, TrimRight, IndexOf, Lower, Host, Decode, FromParts, Validate, StripPrefix;
    var core := TrimStart(TrimRight(url));
    var rest := host + ['/'] + (path + query);
    assert core == "https://" + rest;
    PrefixReads(core, rest);
    NoSlash(host, t);
    IndexOfAt(host, '/', path + query);
    assert rest[..|host|] == host && rest[|host| + 1..] == path + query;
    PartsAreRead(t, host, path, query);
  }

  /** A URL names a target exactly when the target is valid and the URL, trimmed, spells it. */
  lemma ReadsExactly(url: string, t: CosTarget)
    ensures FromUrl(url) == Some(t) <==>
      Validate(t) && exists host, path, query :: Spells(TrimStart(TrimRight(url)), t, host, path, query)
  {
    hide TrimStart, TrimRight, FromUrl, Validate, Spells;
    if FromUrl(url) == Some(t) { ReadIsSpelled(url, t); }
    if Validate(t) {
      if host, path, query :| Spells(TrimStart(TrimRight(url)), t, host, path, query) {
        SpelledIsRead(url, t, host, path, query);
      }
    }
  }

  // ----- valid targets

  predicate Digit(c: char) { '0' <= c <= '9' }

  lemma {:induction false} LastDash(s: string)
    ensures var r := AfterLastDash(s);
      && (r.None? ==> '-' !in s)
      && (r.Some? ==> '-' !in r.value && |r.value| < |s| && s == s[..|s| - |r.value| - 1] + ['-'] + r.value)
  {
    if s == [] {
    } else {
      LastDash(s[..|s| - 1]);
      assert s == s[..|s| - 1] + [s[|s| - 1]];
    }
  }

  lemma {:induction false} AfterDash(name: string, id: string)
    requires '-' !in id
    ensures AfterLastDash(name + ['-'] + id) == Some(id)
    decreases |id|
  {
    var s := name + ['-'] + id;
    if id == [] {
    } else {
      var shorter := id[..|id| - 1];
      AfterDash(name, shorter);
      assert s[..|s| - 1] == name + ['-'] + shorter && shorter + [s[|s| - 1]] == id;
    }
  }

  ghost predicate IsNamed(s: string, name: string, id: string) {
    && s == name + ['-'] + id && name != [] && name[0] != '-' && id != []
    && (forall i :: 0 <= i < |name| ==> LabelChar(name[i])) && (forall i :: 0 <= i < |id| ==> Digit(id[i]))
  }

  /** A bucket is a name of lower-case letters, digits and inner dashes, a dash, and a number. */
  lemma BucketExactly(s: string)
    ensures IsBucket(s) <==> exists name, id :: IsNamed(s, name, id)
  {
    if IsBucket(s) {
      LastDash(s);
      var id := AfterLastDash(s).value;
      var name := s[..|s| - |id| - 1];
      assert forall i :: 0 <= i < |name| ==> s[i] == name[i];
      assert s[|name|] == '-';
      assert IsNamed(s, name, id);
    }
    if name, id :| IsNamed(s, name, id) {
      AfterDash(name, id);
      assert s[|s| - 1] == id[|id| - 1];
      hide AfterLastDash;
    }
  }

  /** The text from `i` to `j` is what stands between two slashes, or a slash and an end. */
  ghost predicate IsSegment(s: string, i: nat, j: nat) {
    && i <= j <= |s| && (i == 0 || s[i - 1] == '/') && (j == |s| || s[j] == '/')
    && forall k :: i <= k < j ==> s[k] != '/'
  }

  lemma NoneBefore(s: string)
    ensures forall k :: 0 <= k < IndexOf(s, '/') ==> s[k] != '/'
  {
    var n := IndexOf(s, '/');
    hide IndexOf;
    assert forall k :: 0 <= k < n ==> s[..n][k] == s[k];
  }

  lemma SplitMembers(s: string, x: string)
    ensures var n := IndexOf(s, '/');
      x in Split(s, '/') <==> x == s[..n] || (n < |s| && x in Split(s[n + 1..], '/'))
  {
    SplitAtSlash(s);
    hide IndexOf, Split;
    assert s[..|s|] == s;
  }

  lemma UnshiftedSegment(s: string, n: nat, i: nat, j: nat)
    requires n < i && IsSegment(s, i, j)
    ensures IsSegment(s[n + 1..], i - n - 1, j - n - 1) && s[n + 1..][i - n - 1..j - n - 1] == s[i..j]
  {
    var rest := s[n + 1..];
    assert forall k :: 0 <= k < |rest| ==> rest[k] == s[k + n + 1];
    assert rest[i - n - 1..j - n - 1] == s[i..j];
  }

  lemma FirstSegment(s: string, j: nat)
    requires IsSegment(s, 0, j)
    ensures j == IndexOf(s, '/') && s[0..j] == s[..j]
  {
    NoneBefore(s);
    hide IndexOf;
  }

  lemma LaterSegment(s: string, i: nat, j: nat)
    requires IsSegment(s, i, j) && i > 0
    ensures IndexOf(s, '/') < i <= j <= |s|
  {
    NoneBefore(s);
    hide IndexOf;
    assert s[i - 1] == '/';
  }

  lemma {:induction false} SegmentIsPart(s: string, i: nat, j: nat)
    requires IsSegment(s, i, j)
    ensures s[i..j] in Split(s, '/')
    decreases |s|
  {
    hide Split, IndexOf, IsSegment;
    if i == 0 {
      FirstSegment(s, j);
      SplitMembers(s, s[0..j]);
    } else {
      LaterSegment(s, i, j);
      var n := IndexOf(s, '/');
      UnshiftedSegment(s, n, i, j);
      SplitMembers(s, s[i..j]);
      SegmentIsPart(s[n + 1..], i - n - 1, j - n - 1);
    }
  }

  lemma ShiftedSegment(s: string, n: nat, a: nat, b: nat)
    requires n < |s| && s[n] == '/' && IsSegment(s[n + 1..], a, b)
    ensures IsSegment(s, a + n + 1, b + n + 1) && s[a + n + 1..b + n + 1] == s[n + 1..][a..b]
  {
    var rest := s[n + 1..];
    assert forall k :: 0 <= k < |rest| ==> rest[k] == s[k + n + 1];
    assert forall k :: n < k < |s| ==> s[k] == rest[k - n - 1];
    assert s[a + n + 1..b + n + 1] == rest[a..b];
  }

  lemma {:induction false} PartIsSegment(s: string, x: string) returns (i: nat, j: nat)
    requires x in Split(s, '/')
    ensures IsSegment(s, i, j) && s[i..j] == x
    decreases |s|
  {
    hide Split, IndexOf;
    var n := IndexOf(s, '/');
    NoneBefore(s);
    SplitMembers(s, x);
    if x == s[..n] {
      i, j := 0, n;
      assert s[0..n] == s[..n];
    } else {
      var a, b := PartIsSegment(s[n + 1..], x);
      i, j := a + n + 1, b + n + 1;
      ShiftedSegment(s, n, a, b);
    }
  }

  /** A key has no control characters and no segment that is empty, a dot or two dots. */
  lemma KeyExactly(s: string)
    ensures IsKey(s) <==>
      && (forall i: nat, j: nat :: IsSegment(s, i, j) ==> s[i..j] != "" && s[i..j] != "." && s[i..j] != "..")
      && (forall i :: 0 <= i < |s| ==> !ControlAt(s, i))
  {
    hide ControlAt;
    if IsKey(s) {
      forall i: nat, j: nat | IsSegment(s, i, j) ensures s[i..j] != "" && s[i..j] != "." && s[i..j] != ".." {
        SegmentIsPart(s, i, j);
      }
    }
    if forall i: nat, j: nat :: IsSegment(s, i, j) ==> s[i..j] != "" && s[i..j] != "." && s[i..j] != ".." {
      forall n | 0 <= n < |Split(s, '/')| ensures Split(s, '/')[n] !in {"", ".", ".."} {
        var i, j := PartIsSegment(s, Split(s, '/')[n]);
      }
      hide Split;
      assert s[0..0] == "" && s[|s|..|s|] == "";
      assert !IsSegment(s, 0, 0) && !IsSegment(s, |s|, |s|);
    }
  }
}
