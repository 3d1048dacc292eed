/** Targets in Tencent Cloud COS: validation, the object URL, and reading a target back from a URL. */
module CosUrl {
  import opened Common
  import opened Text
  import opened Percent

  /** Rust strings: bytes of valid UTF-8. */
  datatype CosTarget = CosTarget(bucket: string, region: string, key: string) {
    ghost predicate IsText() {
      IsBytes(bucket) && IsBytes(region) && IsBytes(key) && ValidUtf8(key)
    }
  }

  // ----- text helpers

  predicate OccursAt(s: string, t: string, i: nat) { i + |t| <= |s| && s[i..i + |t|] == t }

  /** Position of the first `t` from `i` on, or None. */
  function Find(s: string, t: string, i: nat): (r: Option<nat>)
    ensures r.Some? ==> OccursAt(s, t, r.value)
    decreases |s| + 1 - i
  {
    if i > |s| then None else if OccursAt(s, t, i) then Some(i) else Find(s, t, i + 1)
  }

  function StripPrefix(s: string, p: string): Option<string> {
    if p <= s then Some(s[|p|..]) else None
  }

  function StripSuffix(s: string, p: string): Option<string> {
    if |p| <= |s| && s[|s| - |p|..] == p then Some(s[..|s| - |p|]) else None
  }

  predicate Starts(s: string, a: int, b: int) { |s| >= 2 && s[0] as int == a && s[1] as int == b }

  /** One white space character with a code point above 127, as UTF-8. */
  predicate IsWideSpace(s: string) {
    || (|s| == 2 && (Starts(s, 0xC2, 0x85) || Starts(s, 0xC2, 0xA0)))
    || (|s| == 3 && Starts(s, 0xE1, 0x9A) && s[2] as int == 0x80)
    || (|s| == 3 && Starts(s, 0xE2, 0x80) && (0x80 <= s[2] as int <= 0x8A || s[2] as int in {0xA8, 0xA9, 0xAF}))
    || (|s| == 3 && Starts(s, 0xE2, 0x81) && s[2] as int == 0x9F)
    || (|s| == 3 && Starts(s, 0xE3, 0x80) && s[2] as int == 0x80)
  }

  predicate IsSpace(s: string) {
    (|s| == 1 && (s[0] == ' ' || 9 <= s[0] as int <= 13)) || IsWideSpace(s)
  }

  predicate SpaceInFront(s: string, k: nat) { k <= |s| && IsSpace(s[..k]) }

  predicate SpaceBehind(s: string, k: nat) { k <= |s| && IsSpace(s[|s| - k..]) }

  /** Length of the white space character at the start, or zero. */
  function SpaceAtStart(s: string): (n: nat)
    ensures n <= |s|
  {
    if SpaceInFront(s, 1) then 1 else if SpaceInFront(s, 2) then 2 else if SpaceInFront(s, 3) then 3 else 0
  }

  function SpaceAtEnd(s: string): (n: nat)
    ensures n <= |s|
  {
    if SpaceBehind(s, 1) then 1 else if SpaceBehind(s, 2) then 2 else if SpaceBehind(s, 3) then 3 else 0
  }

  function TrimStart(s: string): string
    decreases |s|
  {
    if SpaceAtStart(s) == 0 then s else TrimStart(s[SpaceAtStart(s)..])
  }

  function TrimRight(s: string): string
    decreases |s|
  {
    if SpaceAtEnd(s) == 0 then s else TrimRight(s[..|s| - SpaceAtEnd(s)])
  }

  // ----- validation

  predicate LabelChar(c: char) { 'a' <= c <= 'z' || '0' <= c <= '9' || c == '-' }

  predicate IsLabel(s: string) {
    && s != [] && s[0] != '-' && s[|s| - 1] != '-'
    && forall i :: 0 <= i < |s| ==> LabelChar(s[i])
  }

  /** What follows the last dash, if there is one. */
  function AfterLastDash(s: string): Option<string> {
    if s == [] then None
    else if s[|s| - 1] == '-' then Some([])
    else
      var r := AfterLastDash(s[..|s| - 1]);
      if r.None? then None else Some(r.value + [s[|s| - 1]])
  }

  predicate IsBucket(s: string) {
    var id := AfterLastDash(s);
    IsLabel(s) && id.Some? && forall i :: 0 <= i < |id.value| ==> '0' <= id.value[i] <= '9'
  }

  /** Control characters U+0000 to U+001F, U+007F and U+0080 to U+009F, as UTF-8. */
  predicate ControlAt(s: string, i: nat)
    requires i < |s|
  {
    s[i] as int < 32 || s[i] as int == 127 || (s[i] as int == 0xC2 && Between(s, i + 1, 0x80, 0x9F))
  }

  predicate IsKey(s: string) {
    && s != [] && s[0] != '/' && s[|s| - 1] != '/'
    && (forall i :: 0 <= i < |Split(s, '/')| ==> Split(s, '/')[i] !in {"", ".", ".."})
    && (forall i :: 0 <= i < |s| ==> !ControlAt(s, i))
  }

  predicate Validate(t: CosTarget) { IsBucket(t.bucket) && IsLabel(t.region) && IsKey(t.key) }

  // ----- printing and reading

  function Host(t: CosTarget): string { t.bucket + ".cos." + t.region + ".myqcloud.com" }

  function EncodedPath(parts: seq<string>): string
    requires forall i :: 0 <= i < |parts| ==> IsBytes(parts[i])
  {
    if parts == [] then [] else "/" + Encoded(parts[0]) + EncodedPath(parts[1..])
  }

  function Url(t: CosTarget): string
    requires t.IsText()
  {
    SplitBytes(t.key);
    "https://" + Host(t) + EncodedPath(Split(t.key, '/'))
  }

  function FromUrl(url: string): Option<CosTarget> {
    var rest := StripPrefix(TrimStart(TrimRight(url)), "https://");
    if rest.None? then None
    else
      var slash := IndexOf(rest.value, '/');
      if slash == |rest.value| then None
      else FromParts(rest.value[..slash], rest.value[slash + 1..])
  }

  /** Reads bucket and region off a host and the key off the path after the first slash. */
  function FromParts(host: string, path: string): Option<CosTarget> {
    var base := StripSuffix(Lower(host), ".myqcloud.com");
    if base.None? then None
    else
      var cos := Find(base.value, ".cos.", 0);
      if cos.None? then None
      else
        var key := Decode(path[..Min(IndexOf(path, '?'), IndexOf(path, '#'))]);
        if key.None? then None
        else
          var t := CosTarget(base.value[..cos.value], base.value[cos.value + 5..], key.value);
          if Validate(t) then Some(t) else None
  }

  lemma {:induction false} SplitBytes(s: string)
    requires IsBytes(s)
    ensures forall i :: 0 <= i < |Split(s, '/')| ==> IsBytes(Split(s, '/')[i])
    decreases |s|
  {
    var i := IndexOf(s, '/');
    if i < |s| {
      assert IsBytes(s[..i]) && IsBytes(s[i + 1..]);
      SplitBytes(s[i + 1..]);
    }
  }

  // ----- the path

  /** The key with every byte but the slash encoded. */
  function PathText(key: string): string
    requires IsBytes(key)
  {
    if key == [] then []
    else if key[0] == '/' then "/" + PathText(key[1..])
    else EncodeByte(key[0]) + PathText(key[1..])
  }

  lemma BytesSplit(s: string, i: nat)
    requires IsBytes(s) && i <= |s|
    ensures IsBytes(s[..i]) && IsBytes(s[i..])
  {}

  lemma {:induction false} EncodedFront(s: string)
    requires IsBytes(s) && s != []
    ensures IsBytes(s[1..]) && Encoded(s) == EncodeByte(s[0]) + Encoded(s[1..])
    decreases |s|
  {
    BytesSplit(s, 1);
    BytesSplit(s, |s| - 1);
    hide EncodeByte, IsBytes;
    if |s| == 1 {
      assert s[..0] == [] && s[1..] == [];
    } else {
      var init, tail := s[..|s| - 1], s[1..];
      EncodedFront(init);
      assert init[1..] == tail[..|tail| - 1] && tail[|tail| - 1] == s[|s| - 1];
      assert Encoded(tail) == Encoded(init[1..]) + EncodeByte(s[|s| - 1]);
    }
  }

  lemma {:induction false} PathOfSegment(seg: string, rest: string)
    requires IsBytes(seg) && IsBytes(rest) && '/' !in seg
    ensures IsBytes(seg + rest) && PathText(seg + rest) == Encoded(seg) + PathText(rest)
    decreases |seg|
  {
    hide EncodeByte, IsBytes, Encoded, PathText;
    BytesJoin(seg, rest);
    var all := seg + rest;
    if seg == [] {
      assert all == rest;
      EncodedNone();
    } else {
      EncodedFront(seg);
      PathOfSegment(seg[1..], rest);
      assert all[1..] == seg[1..] + rest && all[0] == seg[0];
      PathTextStep(all);
      assert PathText(all) == EncodeByte(seg[0]) + (Encoded(seg[1..]) + PathText(rest));
    }
  }

  lemma BytesJoin(a: string, b: string)
    requires IsBytes(a) && IsBytes(b)
    ensures IsBytes(a + b)
  {}

  lemma EncodedNone()
    ensures Encoded([]) == []
  {}

  lemma SplitAtSlash(key: string)
    ensures var i := IndexOf(key, '/');
      Split(key, '/') == if i == |key| then [key] else [key[..i]] + Split(key[i + 1..], '/')
  {
    hide IndexOf;
  }

  /** Encoding segment by segment is encoding everything but the slashes. */
  lemma {:induction false} PathIsEncoded(key: string)
    requires IsBytes(key)
    ensures forall i :: 0 <= i < |Split(key, '/')| ==> IsBytes(Split(key, '/')[i])
    ensures EncodedPath(Split(key, '/')) == "/" + PathText(key)
    decreases |key|
  {
    hide IndexOf, Split, EncodeByte, Encoded, IsBytes;
    SplitBytes(key);
    SplitAtSlash(key);
    var i := IndexOf(key, '/');
    if i == |key| {
      assert key[..i] == key && key[i..] == [] && [key][1..] == [];
      BytesSplit(key, i);
      PathOfSegment(key, []);
      assert key + [] == key;
    } else {
      var seg, rest := key[..i], key[i + 1..];
      BytesSplit(key, i);
      BytesSplit(key, i + 1);
      PathIsEncoded(rest);
      assert key[i..] == "/" + rest;
      assert key == seg + key[i..];
      PathOfSegment(seg, key[i..]);
      assert Split(key, '/')[1..] == Split(rest, '/');
      PathSteps(Split(key, '/'), rest);
    }
  }

  lemma PathSteps(parts: seq<string>, rest: string)
    requires parts != [] && (forall i :: 0 <= i < |parts| ==> IsBytes(parts[i])) && IsBytes(rest) && IsBytes("/" + rest)
    requires EncodedPath(parts[1..]) == "/" + PathText(rest)
    ensures EncodedPath(parts) == "/" + (Encoded(parts[0]) + PathText("/" + rest))
  {
    hide EncodeByte, Encoded, IsBytes, PathText, EncodedPath;
    SlashText(rest);
    EncodedPathFront(parts);
    Regroup("/", Encoded(parts[0]), PathText("/" + rest));
  }

  lemma Regroup(a: string, b: string, c: string)
    ensures a + b + c == a + (b + c)
  {}

  lemma EncodedPathFront(parts: seq<string>)
    requires parts != [] && forall i :: 0 <= i < |parts| ==> IsBytes(parts[i])
    ensures EncodedPath(parts) == "/" + Encoded(parts[0]) + EncodedPath(parts[1..])
  {}

  lemma SlashText(rest: string)
    requires IsBytes(rest) && IsBytes("/" + rest)
    ensures PathText("/" + rest) == "/" + PathText(rest)
  {
    hide EncodeByte, IsBytes;
    assert ("/" + rest)[1..] == rest;
  }

  lemma {:induction false} PathDecodes(key: string)
    requires IsBytes(key)
    ensures Decoded(PathText(key)) == Some(key)
    decreases |key|
  {
    if key == [] {
    } else {
      PathDecodes(key[1..]);
      if key[0] == '/' {
        assert PathText(key)[1..] == PathText(key[1..]);
      } else {
        DecodeByte(key[0], PathText(key[1..]));
      }
      assert key == [key[0]] + key[1..];
    }
  }

  predicate PathChar(c: char) { Unreserved(c) || c == '%' || c == '/' }

  lemma {:induction false} PathAlphabet(key: string)
    requires IsBytes(key)
    ensures forall i :: 0 <= i < |PathText(key)| ==> PathChar(PathText(key)[i])
    ensures key != [] ==> PathText(key) != [] && PathText(key)[|PathText(key)| - 1] != '%'
    decreases |key|
  {
    hide EncodeByte, PathChar, IsBytes, PathText;
    PathTextStep(key);
    if key == [] {
    } else {
      BytesSplit(key, 1);
      PathAlphabet(key[1..]);
      PathTextStep(key[1..]);
      SlashIsPathChar();
      if key[0] != '/' { ByteAlphabet(key); }
      var front, rest := if key[0] == '/' then "/" else EncodeByte(key[0]), PathText(key[1..]);
      assert PathText(key) == front + rest && front != [] && front[|front| - 1] != '%';
      assert rest == [] ==> front + rest == front;
    }
  }

  lemma SlashIsPathChar()
    ensures PathChar('/')
  {}

  lemma PathTextStep(s: string)
    requires IsBytes(s)
    ensures s == [] ==> PathText(s) == []
    ensures s != [] ==> IsBytes(s[1..])
    ensures s != [] ==> PathText(s) == (if s[0] == '/' then "/" else EncodeByte(s[0])) + PathText(s[1..])
  {
    hide EncodeByte;
  }

  lemma ByteAlphabet(s: string)
    requires IsBytes(s) && s != []
    ensures var e := EncodeByte(s[0]); e != [] && e[|e| - 1] != '%' && forall i :: 0 <= i < |e| ==> PathChar(e[i])
  {
    HexIsAlphanumeric(s[0] as int % 16);
    HexIsAlphanumeric(s[0] as int / 16);
  }

  /** The path of a key that does not end with a slash ends with an unreserved character. */
  lemma {:induction false} PathEnd(key: string)
    requires IsBytes(key) && key != [] && key[|key| - 1] != '/'
    ensures PathText(key) != [] && Unreserved(PathText(key)[|PathText(key)| - 1])
    decreases |key|
  {
    if |key| == 1 {
      var c := key[0];
      HexIsAlphanumeric(c as int % 16);
      assert PathText(key[1..]) == [];
    } else {
      PathEnd(key[1..]);
    }
  }

  // ----- the parts of the URL

  lemma {:induction false} IndexOfAt(a: string, c: char, b: string)
    requires c !in a
    ensures IndexOf(a + [c] + b, c) == |a|
    decreases |a|
  {
    if a == [] {
    } else {
      assert (a + [c] + b)[1..] == a[1..] + [c] + b;
      IndexOfAt(a[1..], c, b);
    }
  }

  lemma IndexOfNone(s: string, c: char)
    requires c !in s
    ensures IndexOf(s, c) == |s|
  {}

  lemma {:induction false} FindAt(s: string, t: string, i: nat, at: nat)
    requires i <= at && OccursAt(s, t, at) && forall j :: i <= j < at ==> !OccursAt(s, t, j)
    ensures Find(s, t, i) == Some(at)
    decreases at - i
  {
    if i < at { FindAt(s, t, i + 1, at); }
  }

  /** The bucket ends at the first `.cos.`: labels have no dots. */
  lemma FindCos(bucket: string, region: string)
    requires IsLabel(bucket)
    ensures Find(bucket + ".cos." + region, ".cos.", 0) == Some(|bucket|)
  {
    var base := bucket + ".cos." + region;
    assert base[|bucket|..|bucket| + 5] == ".cos.";
    forall j: nat | j < |bucket| ensures !OccursAt(base, ".cos.", j) {
      assert LabelChar(bucket[j]) && base[j] == bucket[j];
      assert j + 5 <= |base| ==> base[j..j + 5][0] == base[j];
    }
    FindAt(base, ".cos.", 0, |bucket|);
  }

  predicate HostChar(c: char) { LabelChar(c) || c == '.' }

  lemma HostChars(t: CosTarget)
    requires IsLabel(t.bucket) && IsLabel(t.region)
    ensures forall i :: 0 <= i < |Host(t)| ==> HostChar(Host(t)[i])
  {
    assert forall i :: 0 <= i < 5 ==> HostChar(".cos."[i]);
    assert forall i :: 0 <= i < 13 ==> HostChar(".myqcloud.com"[i]);
  }

  lemma HostReads(t: CosTarget)
    requires IsLabel(t.bucket) && IsLabel(t.region)
    ensures '/' !in Host(t) && Lower(Host(t)) == Host(t)
    ensures StripSuffix(Host(t), ".myqcloud.com") == Some(t.bucket + ".cos." + t.region)
  {
    HostChars(t);
    var h, base := Host(t), t.bucket + ".cos." + t.region;
    assert h == base + ".myqcloud.com";
    assert h[|h| - 13..] == ".myqcloud.com" && h[..|h| - 13] == base;
    hide Host;
    forall i | 0 <= i < |h| ensures LowerChar(h[i]) == h[i] {
      assert HostChar(h[i]);
    }
    assert Lower(h) == h;
  }

  lemma SpaceEnds(w: string)
    requires IsSpace(w)
    ensures w != [] && (w[0] as int <= 32 || w[0] as int >= 128)
    ensures w[|w| - 1] as int <= 32 || w[|w| - 1] as int >= 128
  {}

  predicate Printable(c: char) { 32 < c as int < 128 }

  lemma NotSpace(w: string)
    requires w != [] && (Printable(w[0]) || Printable(w[|w| - 1]))
    ensures !IsSpace(w)
  {
    if IsSpace(w) { SpaceEnds(w); }
  }

  lemma FrontNotSpace(s: string, k: nat)
    requires s != [] && Printable(s[0]) && 1 <= k
    ensures !SpaceInFront(s, k)
  {
    hide IsSpace, Printable;
    if k <= |s| { NotSpace(s[..k]); }
  }

  lemma BackNotSpace(s: string, k: nat)
    requires s != [] && Printable(s[|s| - 1]) && 1 <= k
    ensures !SpaceBehind(s, k)
  {
    hide IsSpace, Printable;
    if k <= |s| {
      assert s[|s| - k..][k - 1] == s[|s| - 1];
      NotSpace(s[|s| - k..]);
    }
  }

  /** A text that begins and ends with printable ASCII has nothing to trim. */
  lemma NothingToTrim(s: string)
    requires s != [] && Printable(s[0]) && Printable(s[|s| - 1])
    ensures TrimRight(s) == s && TrimStart(s) == s
  {
    hide SpaceInFront, SpaceBehind, Printable;
    forall k: nat | 1 <= k ensures !SpaceInFront(s, k) && !SpaceBehind(s, k) {
      FrontNotSpace(s, k);
      BackNotSpace(s, k);
    }
  }

  lemma UrlShape(t: CosTarget)
    requires t.IsText()
    ensures Url(t) == "https://" + (Host(t) + ['/'] + PathText(t.key))
  {
    PathIsEncoded(t.key);
    hide Host, PathText, EncodedPath, Split;
    assert Url(t) == "https://" + Host(t) + ("/" + PathText(t.key));
  }

  lemma NoQuery(path: string)
    requires forall i :: 0 <= i < |path| ==> PathChar(path[i])
    ensures '?' !in path && '#' !in path
  {}

  lemma PathReads(key: string)
    requires IsBytes(key) && ValidUtf8(key)
    ensures var path := PathText(key);
      Decode(path[..Min(IndexOf(path, '?'), IndexOf(path, '#'))]) == Some(key)
  {
    hide PathText, IndexOf, Decoded, ValidUtf8, PathChar, IsBytes;
    var path := PathText(key);
    PathAlphabet(key);
    PathDecodes(key);
    NoQuery(path);
    IndexOfNone(path, '?');
    IndexOfNone(path, '#');
    assert path[..|path|] == path;
  }

  lemma PartsRead(t: CosTarget)
    requires t.IsText() && Validate(t)
    ensures FromParts(Host(t), PathText(t.key)) == Some(t)
  {
    hide Host, PathText, Find, Decode, IndexOf, Lower, IsLabel, IsKey, StripSuffix;
    HostReads(t);
    FindCos(t.bucket, t.region);
    PathReads(t.key);
    var base := t.bucket + ".cos." + t.region;
    assert base[..|t.bucket|] == t.bucket && base[|t.bucket| + 5..] == t.region;
  }

  /** Reading the URL of a valid target gives the target back. */
  lemma UrlRoundTrip(t: CosTarget)
    requires t.IsText() && Validate(t)
    ensures FromUrl(Url(t)) == Some(t)
  {
    hide Host, PathText, Url, FromParts, IndexOf, Lower, Validate, TrimRight, TrimStart, StripPrefix;
    hide IsBytes, ValidUtf8;
    UrlEnds(t);
    PartsRead(t);
    UrlShape(t);
    var host, path := Host(t), PathText(t.key);
    var rest := host + ['/'] + path;
    UrlReads(Url(t), rest);
    IndexOfAt(host, '/', path);
    assert rest[..|host|] == host && rest[|host| + 1..] == path;
  }

  lemma UrlReads(url: string, rest: string)
    requires url == "https://" + rest && rest != [] && Printable(rest[|rest| - 1])
    ensures StripPrefix(TrimStart(TrimRight(url)), "https://") == Some(rest)
  {
    hide TrimRight, TrimStart;
    assert url[0] == 'h' && url[|url| - 1] == rest[|rest| - 1];
    NothingToTrim(url);
    PrefixReads(url, rest);
  }

  lemma PrefixReads(url: string, rest: string)
    requires url == "https://" + rest
    ensures StripPrefix(url, "https://") == Some(rest)
  {
    assert url[8..] == rest;
  }

  lemma UrlEnds(t: CosTarget)
    requires t.IsText() && Validate(t)
    ensures PathText(t.key) != [] && '/' !in Host(t)
    ensures Printable(PathText(t.key)[|PathText(t.key)| - 1])
  {
    PathEnd(t.key);
    HostReads(t);
  }

  // ----- what is read is text

  lemma {:induction false} DecodedBytes(s: string)
    requires IsBytes(s)
    ensures Decoded(s).Some? ==> IsBytes(Decoded(s).value)
    decreases |s|
  {
    if s != [] && s[0] == '%' && |s| >= 3 {
      DecodedBytes(s[3..]);
    } else if s != [] {
      DecodedBytes(s[1..]);
    }
  }

  lemma {:induction false} TrimRightBytes(s: string)
    requires IsBytes(s)
    ensures IsBytes(TrimRight(s))
    decreases |s|
  {
    hide SpaceAtEnd, IsBytes;
    var n := SpaceAtEnd(s);
    if n == 0 {
    } else {
      BytesSplit(s, |s| - n);
      TrimRightBytes(s[..|s| - n]);
    }
  }

  lemma {:induction false} TrimBytes(s: string)
    requires IsBytes(s)
    ensures IsBytes(TrimStart(s))
    decreases |s|
  {
    hide SpaceAtStart, IsBytes;
    var n := SpaceAtStart(s);
    if n == 0 {
    } else {
      BytesSplit(s, n);
      TrimBytes(s[n..]);
    }
  }

  lemma LabelBytes(s: string)
    requires IsLabel(s)
    ensures IsBytes(s)
  {
    forall i | 0 <= i < |s| ensures s[i] as int < 256 { assert LabelChar(s[i]); }
  }

  /** Whatever URL a target is read from, it is valid text, and its own URL reads back to it. */
  lemma ReadIsCanonical(url: string)
    requires IsBytes(url) && FromUrl(url).Some?
    ensures var t := FromUrl(url).value; Validate(t) && t.IsText() && FromUrl(Url(t)) == Some(t)
  {
    var t := FromUrl(url).value;
    ReadIsText(url);
    hide FromUrl, Validate;
    UrlRoundTrip(t);
  }

  lemma PartsAreText(host: string, path: string)
    requires IsBytes(path) && FromParts(host, path).Some?
    ensures var t := FromParts(host, path).value; Validate(t) && t.IsText()
  {
    hide IndexOf, Find, Lower, Decoded, ValidUtf8, IsKey, IsLabel, StripSuffix;
    var t := FromParts(host, path).value;
    var n := Min(IndexOf(path, '?'), IndexOf(path, '#'));
    BytesSplit(path, n);
    DecodedBytes(path[..n]);
    LabelBytes(t.bucket);
    LabelBytes(t.region);
  }

  lemma ReadIsText(url: string)
    requires IsBytes(url) && FromUrl(url).Some?
    ensures var t := FromUrl(url).value; Validate(t) && t.IsText()
  {
    hide IndexOf, TrimStart, TrimRight, FromParts, IsBytes, Validate, ValidUtf8;
    TrimRightBytes(url);
    TrimBytes(TrimRight(url));
    var trimmed := TrimStart(TrimRight(url));
    BytesSplit(trimmed, 8);
    var rest := trimmed[8..];
    var slash := IndexOf(rest, '/');
    BytesSplit(rest, slash + 1);
    PartsAreText(rest[..slash], rest[slash + 1..]);
  }
}
