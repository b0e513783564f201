/** The media-store adapter: how a content URL is turned back into the
    store's public id, which delete request that id leads to, and the
    options an upload is sent with. The remote upload and destroy calls
    themselves are outside the model. */
module Cloudinary {
  import opened Common

  const MAX_VIDEO_DURATION_SECONDS := 60
  const FOLDER_PATH := "ardu_media"

  // ---------------------------------------------------------------------
  // Character classes of java.util.regex (no UNICODE_CHARACTER_CLASS)
  // ---------------------------------------------------------------------

  /** \d */
  predicate IsDigit(c: char) { '0' <= c <= '9' }

  /** [a-zA-Z] */
  predicate IsLetter(c: char) { ('a' <= c <= 'z') || ('A' <= c <= 'Z') }

  /** \w */
  predicate IsWordChar(c: char) { IsLetter(c) || IsDigit(c) || c == '_' }

  /** The characters that `.` does not match and before which `$` may match. */
  predicate IsLineTerminator(c: char)
  {
    c == '\n' || c == '\r' || c == '\U{0085}' || c == '\U{2028}' || c == '\U{2029}'
  }

  /** The end of the longest run of characters satisfying p from i on. */
  function SpanEnd(s: string, i: nat, p: char -> bool): (e: nat)
    requires i <= |s|
    ensures i <= e <= |s|
    ensures forall k :: i <= k < e ==> p(s[k])
    ensures e < |s| ==> !p(s[e])
    decreases |s| - i
  {
    if i < |s| && p(s[i]) then SpanEnd(s, i + 1, p) else i
  }

  // ---------------------------------------------------------------------
  // The pattern  /v\d+/[a-zA-Z]+/(.+?)(?:\.\w+)?$  under Matcher.find()
  // ---------------------------------------------------------------------

  /** `/v\d+/[a-zA-Z]+/` occupies s[i..a+1]: the digits end at d, the letters at a. */
  predicate VersionedPrefixAt(s: string, i: int, d: int, a: int)
  {
    0 <= i && i + 2 < d < a < |s|
    && s[i] == '/' && s[i + 1] == 'v'
    && (forall t :: i + 2 <= t < d ==> IsDigit(s[t]))
    && s[d] == '/'
    && d + 1 < a
    && (forall t :: d + 1 <= t < a ==> IsLetter(s[t]))
    && s[a] == '/'
  }

  /** Java's `$` without MULTILINE: at the very end, or before one final
      line terminator (a final "\r\n" counts as one). */
  predicate EndAnchorAt(s: string, k: int)
  {
    k == |s|
    || (0 <= k && k == |s| - 1 && ((s[k] == '\n' && !(k > 0 && s[k - 1] == '\r')) || (s[k] != '\n' && IsLineTerminator(s[k]))))
    || (0 <= k && k == |s| - 2 && s[k] == '\r' && s[k + 1] == '\n')
  }

  /** `\.\w+$` matches at k. A shorter word run cannot help: `$` never holds before a word character. */
  predicate ExtensionThenEndAt(s: string, k: int)
  {
    0 <= k < |s| && s[k] == '.' && var e := SpanEnd(s, k + 1, IsWordChar); e > k + 1 && EndAnchorAt(s, e)
  }

  /** The group s[j..k] can be followed by the optional extension and the end. */
  predicate GroupEndsAt(s: string, j: int, k: int)
  {
    0 <= j < k <= |s|
    && (forall t :: j <= t < k ==> !IsLineTerminator(s[t]))
    && (ExtensionThenEndAt(s, k) || EndAnchorAt(s, k))
  }

  /** s[j..k] is the shortest group that works, as the reluctant `(.+?)` takes it. */
  predicate ShortestGroup(s: string, j: int, k: int)
  {
    GroupEndsAt(s, j, k) && forall k' :: j < k' < k ==> !GroupEndsAt(s, j, k')
  }

  /** The match starting at i: the prefix up to the slash at a, then the group s[a+1..k]. */
  ghost predicate MatchSpan(s: string, i: int, d: int, a: int, k: int)
  {
    VersionedPrefixAt(s, i, d, a) && ShortestGroup(s, a + 1, k)
  }

  /** Where the group starts when the versioned prefix matches at i. */
  function GroupStart(s: string, i: nat): (r: Option<nat>)
    ensures r.Some? ==> exists d, a :: VersionedPrefixAt(s, i, d, a) && r.value == a + 1
  {
    if i + 1 < |s| && s[i] == '/' && s[i + 1] == 'v' then
      var d := SpanEnd(s, i + 2, IsDigit);
      if d > i + 2 && d < |s| && s[d] == '/' then
        var a := SpanEnd(s, d + 1, IsLetter);
        if a > d + 1 && a < |s| && s[a] == '/' then
          assert VersionedPrefixAt(s, i, d, a);
          Some(a + 1)
        else None
      else None
    else None
  }

  /** The digits and the letters are matched greedily, so the prefix at i
      has only one possible shape. */
  lemma GroupStartComplete(s: string, i: nat, d: int, a: int)
    requires VersionedPrefixAt(s, i, d, a)
    ensures GroupStart(s, i) == Some(a + 1)
  {
    var d' := SpanEnd(s, i + 2, IsDigit);
    var a' := SpanEnd(s, d + 1, IsLetter);
  }

  /** The reluctant group: the least end k' >= k that works, extending one character at a time. */
  function LazyGroupEnd(s: string, j: nat, k: nat): (r: Option<nat>)
    requires j < k <= |s|
    ensures r.Some? ==> k <= r.value <= |s|
    decreases |s| - k
  {
    if IsLineTerminator(s[k - 1]) then None
    else if ExtensionThenEndAt(s, k) || EndAnchorAt(s, k) then Some(k)
    else if k < |s| then LazyGroupEnd(s, j, k + 1)
    else None
  }

  /** The end LazyGroupEnd finds is the least one that works from k on. */
  lemma {:induction false} LazyGroupEndSpec(s: string, j: nat, k: nat)
    requires j < k <= |s|
    requires forall t :: j <= t < k - 1 ==> !IsLineTerminator(s[t])
    ensures var r := LazyGroupEnd(s, j, k);
      && (r.Some? ==> GroupEndsAt(s, j, r.value))
      && (r.Some? ==> forall k' :: k <= k' < r.value ==> !GroupEndsAt(s, j, k'))
      && (r.None? ==> forall k' :: k <= k' <= |s| ==> !GroupEndsAt(s, j, k'))
    decreases |s| - k
  {
    if !IsLineTerminator(s[k - 1]) && !(ExtensionThenEndAt(s, k) || EndAnchorAt(s, k)) && k < |s| {
      LazyGroupEndSpec(s, j, k + 1);
    }
  }

  /** The group captured by a match starting at i, if there is one. */
  function MatchAt(s: string, i: nat): (r: Option<string>)
    ensures r.Some? ==> GroupStart(s, i).Some?
  {
    match GroupStart(s, i)
    case None => None
    case Some(j) =>
      if j < |s| then
        match LazyGroupEnd(s, j, j + 1)
        case Some(k) => Some(s[j..k])
        case None => None
      else None
  }

  /** MatchAt is sound for the pattern: what it captures is a match. */
  lemma MatchAtSound(s: string, i: nat)
    requires MatchAt(s, i).Some?
    ensures exists d, a, k :: MatchSpan(s, i, d, a, k) && MatchAt(s, i).value == s[a + 1..k]
  {
    var j := GroupStart(s, i).value;
    var d, a :| VersionedPrefixAt(s, i, d, a) && j == a + 1;
    LazyGroupEndSpec(s, j, j + 1);
    var k := LazyGroupEnd(s, j, j + 1).value;
    assert MatchSpan(s, i, d, a, k);
  }

  /** MatchAt is complete for the pattern: every match is the one it captures. */
  lemma MatchAtComplete(s: string, i: nat, d: int, a: int, k: int)
    requires MatchSpan(s, i, d, a, k)
    ensures MatchAt(s, i) == Some(s[a + 1..k])
  {
    GroupStartComplete(s, i, d, a);
    LazyGroupEndSpec(s, a + 1, a + 2);
    var g := LazyGroupEnd(s, a + 1, a + 2);
    assert g == Some(k);
  }

  /** Matcher.find() from position i: the leftmost start that matches wins. */
  function FindFrom(s: string, i: nat): (r: Option<string>)
    requires i <= |s|
    decreases |s| - i
  {
    var m := MatchAt(s, i);
    if m.Some? then m
    else if i < |s| then FindFrom(s, i + 1)
    else None
  }

  /** What find() returns is the group of the leftmost start from i on that matches. */
  lemma {:induction false} FindFromLeftmost(s: string, i: nat) returns (p: nat)
    requires i <= |s| && FindFrom(s, i).Some?
    ensures i <= p <= |s| && MatchAt(s, p) == FindFrom(s, i)
    ensures forall q :: i <= q < p ==> MatchAt(s, q).None?
    decreases |s| - i
  {
    if MatchAt(s, i).Some? {
      p := i;
    } else {
      p := FindFromLeftmost(s, i + 1);
    }
  }

  /** find() finds nothing only when no start from i on matches. */
  lemma {:induction false} FindFromNone(s: string, i: nat, p: nat)
    requires i <= p <= |s| && FindFrom(s, i).None?
    ensures MatchAt(s, p).None?
    decreases |s| - i
  {
    if i < p {
      FindFromNone(s, i + 1, p);
    }
  }

  /** One start that does not match is skipped. */
  lemma FindFromStep(s: string, i: nat)
    requires i < |s| && MatchAt(s, i).None?
    ensures FindFrom(s, i) == FindFrom(s, i + 1)
  {
  }

  /** Starts that do not match are skipped. */
  lemma {:induction false} FindFromSkips(s: string, i: nat, p: nat)
    requires i <= p <= |s|
    requires forall q :: i <= q < p ==> MatchAt(s, q).None?
    ensures FindFrom(s, i) == FindFrom(s, p)
    decreases p - i
  {
    if i < p {
      FindFromStep(s, i);
      FindFromSkips(s, i + 1, p);
    }
  }

  /** String.lastIndexOf(char): -1 when absent. */
  function LastIndexOf(s: string, c: char): (r: int)
    ensures -1 <= r < |s|
    ensures r == -1 <==> c !in s
    ensures r >= 0 ==> s[r] == c && c !in s[r + 1..]
  {
    if s == [] then -1
    else if s[|s| - 1] == c then |s| - 1
    else
      var r := LastIndexOf(s[..|s| - 1], c);
      assert s[r + 1..] == s[..|s| - 1][r + 1..] + [s[|s| - 1]];
      r
  }

  /** The text before the last '.', or all of it when there is none. */
  function DropLastDotSegment(s: string): (r: string)
    ensures |r| <= |s| && r == s[..|r|]
    ensures '.' !in s ==> r == s
    ensures '.' in s ==> exists t :: s == r + "." + t && '.' !in t
  {
    var dot := LastIndexOf(s, '.');
    if dot == -1 then s
    else
      assert s == s[..dot] + "." + s[dot + 1..];
      s[..dot]
  }

  /** extractPublicIdFromUrl: the first match's group with its last '.'-segment
      removed; null for a null or empty URL and when nothing matches. */
  function ExtractPublicIdFromUrl(url: Option<string>): (r: Option<string>)
    ensures url.None? || url == Some("") ==> r.None?
  {
    if url.None? || IsEmpty(url.value) then None
    else
      match FindFrom(url.value, 0)
      case None => None
      case Some(group) => Some(DropLastDotSegment(group))
  }

  /** The match at i is the leftmost one in s. */
  ghost predicate FirstMatch(s: string, i: int, d: int, a: int, k: int)
  {
    MatchSpan(s, i, d, a, k) && forall q, d', a', k' :: 0 <= q < i ==> !MatchSpan(s, q, d', a', k')
  }

  /** A public id is the leftmost match's group less its last '.'-segment. */
  lemma ExtractPublicIdSound(url: string)
    requires ExtractPublicIdFromUrl(Some(url)).Some?
    ensures exists i, d, a, k :: FirstMatch(url, i, d, a, k) && ExtractPublicIdFromUrl(Some(url)).value == DropLastDotSegment(url[a + 1..k])
  {
    var p := FindFromLeftmost(url, 0);
    MatchAtSound(url, p);
    var d, a, k :| MatchSpan(url, p, d, a, k) && MatchAt(url, p).value == url[a + 1..k];
    forall q, d', a', k' | 0 <= q < p
      ensures !MatchSpan(url, q, d', a', k')
    {
      if MatchSpan(url, q, d', a', k') {
        MatchAtComplete(url, q, d', a', k');
      }
    }
    assert FirstMatch(url, p, d, a, k);
  }

  /** A non-empty URL in which the pattern matches somewhere gives a public id. */
  lemma ExtractPublicIdComplete(url: string, i: int, d: int, a: int, k: int)
    requires url != "" && MatchSpan(url, i, d, a, k)
    ensures ExtractPublicIdFromUrl(Some(url)).Some?
  {
    MatchAtComplete(url, i, d, a, k);
    if FindFrom(url, 0).None? {
      FindFromNone(url, 0, i);
    }
  }

  // ---------------------------------------------------------------------
  // What the extraction gives for the URLs the store hands out
  // ---------------------------------------------------------------------

  /** No "/v" followed by a digit anywhere in s. */
  predicate NoVersionMarker(s: string)
  {
    forall q :: 0 <= q && q + 2 < |s| ==> !(s[q] == '/' && s[q + 1] == 'v' && IsDigit(s[q + 2]))
  }

  /** prefix + "/v" + version + "/" + folder + "/" + name + "." + ext */
  function UploadUrl(prefix: string, version: string, folder: string, name: string, ext: string): string
  {
    prefix + "/v" + version + "/" + folder + "/" + name + "." + ext
  }

  /** The shape of the store's delivery URLs: a host part without a version
      marker, then a version, a letters-only folder, a name and an extension. */
  predicate WellFormedUpload(prefix: string, version: string, folder: string, name: string, ext: string)
  {
    NoVersionMarker(prefix)
    && |version| > 0 && (forall t :: 0 <= t < |version| ==> IsDigit(version[t]))
    && |folder| > 0 && (forall t :: 0 <= t < |folder| ==> IsLetter(folder[t]))
    && |name| > 0 && (forall t :: 0 <= t < |name| ==> !IsLineTerminator(name[t]))
    && |ext| > 0 && (forall t :: 0 <= t < |ext| ==> IsWordChar(ext[t]))
  }

  /** No start inside the host part can match. */
  lemma NoMatchInPrefix(prefix: string, s: string, q: nat)
    requires NoVersionMarker(prefix)
    requires |prefix| + 2 <= |s| && s[..|prefix| + 2] == prefix + "/v"
    requires q < |prefix|
    ensures GroupStart(s, q).None?
  {
    NoMatchInPrefixChars(prefix, s, q);
    NoMarkerNoMatch(s, q);
  }

  /** The host part followed by "/v" has no marker. */
  lemma NoMatchInPrefixChars(prefix: string, s: string, q: nat)
    requires NoVersionMarker(prefix)
    requires |prefix| + 2 <= |s| && s[..|prefix| + 2] == prefix + "/v"
    requires q < |prefix|
    ensures !MarkerAt(s, q)
  {
    assert !(s[q] == '/' && s[q + 1] == 'v' && IsDigit(s[q + 2])) by {
      if q + 2 < |prefix| {
        assert s[q] == prefix[q] && s[q + 1] == prefix[q + 1] && s[q + 2] == prefix[q + 2];
      } else if q + 2 == |prefix| {
        assert s[q + 2] == '/';
      } else {
        assert s[q + 1] == '/';
      }
    }
  }

  /** When s[j..e] holds no line terminator and is followed by '.' and only
      word characters, the reluctant group is s[j..e]: it cannot stop earlier
      because `$` is still at least three characters away. */
  lemma GroupBeforeExtension(s: string, j: nat, e: nat)
    requires j < e && e + 1 < |s| && s[e] == '.'
    requires forall t :: j <= t < e ==> !IsLineTerminator(s[t])
    requires forall t :: e < t < |s| ==> IsWordChar(s[t])
    ensures LazyGroupEnd(s, j, j + 1) == Some(e)
  {
    forall k' | j < k' < e
      ensures !GroupEndsAt(s, j, k')
    {
      if s[k'] == '.' {
        var w := SpanEnd(s, k' + 1, IsWordChar);
        assert w <= e;
      }
    }
    assert SpanEnd(s, e + 1, IsWordChar) == |s|;
    assert GroupEndsAt(s, j, e);
    LazyGroupEndSpec(s, j, j + 1);
  }

  /** The host part, "/v" and the digits of the version. */
  lemma UploadUrlVersion(prefix: string, version: string, folder: string, name: string, ext: string)
    requires WellFormedUpload(prefix, version, folder, name, ext)
    ensures var s := UploadUrl(prefix, version, folder, name, ext);
      var d := |prefix| + 2 + |version|;
      && d < |s|
      && s[..|prefix| + 2] == prefix + "/v"
      && (forall t :: |prefix| + 2 <= t < d ==> IsDigit(s[t]))
      && s[d] == '/'
  {
    var s := UploadUrl(prefix, version, folder, name, ext);
    var head := prefix + "/v" + version;
    assert s[..|head|] == head;
    assert s[|head|] == '/';
    forall t | |prefix| + 2 <= t < |head|
      ensures IsDigit(s[t])
    {
      assert s[t] == head[t] == version[t - |prefix| - 2];
    }
    assert s[..|prefix| + 2] == head[..|prefix| + 2] == prefix + "/v";
  }

  /** The letters of the folder and the slash after it. */
  lemma UploadUrlFolder(prefix: string, version: string, folder: string, name: string, ext: string)
    requires WellFormedUpload(prefix, version, folder, name, ext)
    ensures var s := UploadUrl(prefix, version, folder, name, ext);
      var d := |prefix| + 2 + |version|;
      var a := d + 1 + |folder|;
      && a < |s|
      && (forall t :: d + 1 <= t < a ==> IsLetter(s[t]))
      && s[a] == '/'
  {
    var s := UploadUrl(prefix, version, folder, name, ext);
    var head := prefix + "/v" + version + "/";
    var upTo := head + folder;
    assert s[..|upTo| + 1] == upTo + "/";
    forall t | |head| <= t < |upTo|
      ensures IsLetter(s[t])
    {
      assert s[t] == (upTo + "/")[t] == folder[t - |head|];
    }
  }

  /** The name, the '.' and the extension up to the end. */
  lemma UploadUrlTail(prefix: string, version: string, folder: string, name: string, ext: string)
    requires WellFormedUpload(prefix, version, folder, name, ext)
    ensures var s := UploadUrl(prefix, version, folder, name, ext);
      var a := |prefix| + 2 + |version| + 1 + |folder|;
      var e := a + 1 + |name|;
      && |s| == e + 1 + |ext|
      && s[a + 1..e] == name
      && s[e] == '.'
      && (forall t :: e < t < |s| ==> IsWordChar(s[t]))
  {
    var s := UploadUrl(prefix, version, folder, name, ext);
    var head := prefix + "/v" + version + "/" + folder + "/";
    var dotted := head + name + ".";
    assert s == dotted + ext;
    forall t | |dotted| <= t < |s|
      ensures IsWordChar(s[t])
    {
      assert s[t] == ext[t - |dotted|];
    }
    assert s[..|dotted|] == dotted;
    assert dotted[|head|..|head| + |name|] == name;
  }

  /** Where the parts of a well-formed upload URL sit. */
  lemma UploadUrlLayout(prefix: string, version: string, folder: string, name: string, ext: string)
    requires WellFormedUpload(prefix, version, folder, name, ext)
    ensures var s := UploadUrl(prefix, version, folder, name, ext);
      var i := |prefix|;
      var d := i + 2 + |version|;
      var a := d + 1 + |folder|;
      var e := a + 1 + |name|;
      && |s| == e + 1 + |ext|
      && s[..i + 2] == prefix + "/v"
      && VersionedPrefixAt(s, i, d, a)
      && s[a + 1..e] == name
      && s[e] == '.'
      && (forall t :: e < t < |s| ==> IsWordChar(s[t]))
  {
    UploadUrlVersion(prefix, version, folder, name, ext);
    UploadUrlFolder(prefix, version, folder, name, ext);
    UploadUrlTail(prefix, version, folder, name, ext);
    var s := UploadUrl(prefix, version, folder, name, ext);
    var i := |prefix|;
    assert s[i] == (prefix + "/v")[i] && s[i + 1] == (prefix + "/v")[i + 1];
  }

  /** A versioned prefix followed by a name free of line terminators, a '.'
      and an extension of word characters up to the end: the match at the
      prefix captures exactly the name. */
  lemma MatchAtName(s: string, i: nat, d: int, a: int, e: int)
    requires VersionedPrefixAt(s, i, d, a)
    requires a + 1 < e && e + 1 < |s| && s[e] == '.'
    requires forall t :: a + 1 <= t < e ==> !IsLineTerminator(s[t])
    requires forall t :: e < t < |s| ==> IsWordChar(s[t])
    ensures MatchAt(s, i) == Some(s[a + 1..e])
  {
    GroupStartComplete(s, i, d, a);
    GroupBeforeExtension(s, a + 1, e);
  }

  /** find() on a string whose first version marker starts the versioned
      prefix at i, followed by a name, a '.' and an extension up to the end,
      captures exactly the name. */
  lemma FindVersionedName(s: string, prefix: string, d: int, a: int, e: int, name: string)
    requires NoVersionMarker(prefix)
    requires |prefix| + 2 <= |s| && s[..|prefix| + 2] == prefix + "/v"
    requires VersionedPrefixAt(s, |prefix|, d, a)
    requires a + 1 < e && e + 1 < |s| && s[e] == '.' && s[a + 1..e] == name
    requires forall t :: 0 <= t < |name| ==> !IsLineTerminator(name[t])
    requires forall t :: e < t < |s| ==> IsWordChar(s[t])
    ensures FindFrom(s, 0) == Some(name)
  {
    forall t | a + 1 <= t < e
      ensures !IsLineTerminator(s[t])
    {
      assert s[t] == name[t - a - 1];
    }
    MatchAtName(s, |prefix|, d, a, e);
    forall q | 0 <= q < |prefix|
      ensures MatchAt(s, q).None?
    {
      NoMatchInPrefix(prefix, s, q);
    }
    FindFromSkips(s, 0, |prefix|);
  }

  /** For a well-formed upload URL the captured group is exactly the name. */
  lemma UploadUrlGroup(prefix: string, version: string, folder: string, name: string, ext: string)
    requires WellFormedUpload(prefix, version, folder, name, ext)
    ensures FindFrom(UploadUrl(prefix, version, folder, name, ext), 0) == Some(name)
  {
    var d := |prefix| + 2 + |version|;
    var a := d + 1 + |folder|;
    UploadUrlLayout(prefix, version, folder, name, ext);
    FindVersionedName(UploadUrl(prefix, version, folder, name, ext), prefix, d, a, a + 1 + |name|, name);
  }

  /** A well-formed upload URL whose name has no dot gives back that name:
      the folder is not part of the result. */
  lemma UploadUrlYieldsName(prefix: string, version: string, folder: string, name: string, ext: string)
    requires WellFormedUpload(prefix, version, folder, name, ext)
    requires '.' !in name
    ensures ExtractPublicIdFromUrl(Some(UploadUrl(prefix, version, folder, name, ext))) == Some(name)
  {
    UploadUrlGroup(prefix, version, folder, name, ext);
  }

  /** "/v" followed by a digit at q: where a version segment can begin. */
  predicate MarkerAt(s: string, q: int)
  {
    0 <= q && q + 2 < |s| && s[q] == '/' && s[q + 1] == 'v' && IsDigit(s[q + 2])
  }

  /** Without the marker no match starts at q. */
  lemma NoMarkerNoMatch(s: string, q: nat)
    requires !MarkerAt(s, q)
    ensures MatchAt(s, q).None?
  {
    if q + 1 < |s| && s[q] == '/' && s[q + 1] == 'v' {
      var d := SpanEnd(s, q + 2, IsDigit);
      assert d == q + 2;
    }
  }

  /** prefix + "/v" + version + "/" + folder + "_" + rest */
  function UnderscoreUrl(prefix: string, version: string, folder: string, rest: string): string
  {
    prefix + "/v" + version + "/" + folder + "_" + rest
  }

  /** Such a URL carries the marker only at the end of its prefix. */
  lemma UnderscoreUrlMarker(prefix: string, version: string, folder: string, rest: string, q: int)
    requires NoVersionMarker(prefix) && NoVersionMarker(rest)
    requires |version| > 0 && (forall t :: 0 <= t < |version| ==> IsDigit(version[t]))
    requires forall t :: 0 <= t < |folder| ==> IsLetter(folder[t])
    requires 0 <= q && q != |prefix|
    ensures !MarkerAt(UnderscoreUrl(prefix, version, folder, rest), q)
  {
    var s := UnderscoreUrl(prefix, version, folder, rest);
    var i := |prefix|;
    var d0 := i + 2 + |version|;
    var u := d0 + 1 + |folder|;
    assert |s| == u + 1 + |rest|;
    if q + 2 < |s| {
      if q < i {
        NoMatchInPrefixChars(prefix, s, q);
      } else if q < d0 {
        assert s[q] == (if q == i + 1 then 'v' else version[q - i - 2]);
      } else if q == d0 {
        assert s[q + 2] == (if q + 2 < u then folder[q + 1 - d0] else if q + 2 == u then '_' else rest[q + 1 - u]);
      } else if q < u {
        assert s[q] == folder[q - d0 - 1];
      } else if q == u {
        assert s[q] == '_';
      } else {
        assert s[q] == rest[q - u - 1] && s[q + 1] == rest[q - u] && s[q + 2] == rest[q - u + 1];
      }
    }
  }

  /** "/v", digits and "/" at i, then letters running into a '_': the
      letters-only segment cannot end with the '/' it needs, so nothing
      matches at i. */
  lemma LettersStopAtUnderscore(s: string, i: nat, d: nat, u: nat)
    requires i + 2 < d < u < |s|
    requires s[i] == '/' && s[i + 1] == 'v' && s[d] == '/' && s[u] == '_'
    requires forall t :: i + 2 <= t < d ==> IsDigit(s[t])
    requires forall t :: d + 1 <= t < u ==> IsLetter(s[t])
    ensures MatchAt(s, i).None?
  {
    assert SpanEnd(s, i + 2, IsDigit) == d;
    assert SpanEnd(s, d + 1, IsLetter) == u;
  }

  /** Where the parts of such a URL sit. */
  lemma UnderscoreUrlLayout(prefix: string, version: string, folder: string, rest: string)
    requires forall t :: 0 <= t < |version| ==> IsDigit(version[t])
    requires forall t :: 0 <= t < |folder| ==> IsLetter(folder[t])
    ensures var s := UnderscoreUrl(prefix, version, folder, rest);
      var i := |prefix|;
      var d := i + 2 + |version|;
      var u := d + 1 + |folder|;
      && |s| == u + 1 + |rest|
      && s[i] == '/' && s[i + 1] == 'v' && s[d] == '/' && s[u] == '_'
      && (forall t :: i + 2 <= t < d ==> IsDigit(s[t]))
      && (forall t :: d + 1 <= t < u ==> IsLetter(s[t]))
  {
    var s := UnderscoreUrl(prefix, version, folder, rest);
    var head := prefix + "/v" + version;
    var upTo := head + "/" + folder;
    assert s == upTo + "_" + rest;
    assert s[..|upTo| + 1] == upTo + "_";
    forall t | |prefix| + 2 <= t < |head|
      ensures IsDigit(s[t])
    {
      assert s[t] == head[t] == version[t - |prefix| - 2];
    }
    forall t | |head| + 1 <= t < |upTo|
      ensures IsLetter(s[t])
    {
      assert s[t] == upTo[t] == folder[t - |head| - 1];
    }
    assert s[|prefix|] == head[|prefix|] && s[|prefix| + 1] == head[|prefix| + 1];
    assert s[|head|] == upTo[|head|];
  }

  /** A URL whose only version marker is followed by a folder holding '_'
      (the store's own folder "ardu_media" is one) gives no public id: the
      letters-only segment of the pattern stops at the '_'. */
  lemma UnderscoreFolderYieldsNoId(prefix: string, version: string, folder: string, rest: string)
    requires NoVersionMarker(prefix) && NoVersionMarker(rest)
    requires |version| > 0 && (forall t :: 0 <= t < |version| ==> IsDigit(version[t]))
    requires forall t :: 0 <= t < |folder| ==> IsLetter(folder[t])
    ensures ExtractPublicIdFromUrl(Some(UnderscoreUrl(prefix, version, folder, rest))).None?
  {
    var s := UnderscoreUrl(prefix, version, folder, rest);
    var i := |prefix|;
    var d := i + 2 + |version|;
    forall q | 0 <= q <= |s|
      ensures MatchAt(s, q).None?
    {
      if q == i {
        UnderscoreUrlLayout(prefix, version, folder, rest);
        LettersStopAtUnderscore(s, i, d, d + 1 + |folder|);
      } else {
        UnderscoreUrlMarker(prefix, version, folder, rest, q);
        NoMarkerNoMatch(s, q);
      }
    }
    FindFromSkips(s, 0, |s|);
  }

  /** Delivery URLs in the store's own folder FOLDER_PATH ("ardu_media") give
      no public id, whatever the name, so deleteFile never destroys them. */
  lemma StoreFolderYieldsNoId(host: string, version: string, name: string)
    requires NoVersionMarker(host) && NoVersionMarker("/" + name)
    requires |version| > 0 && (forall t :: 0 <= t < |version| ==> IsDigit(version[t]))
    ensures ExtractPublicIdFromUrl(Some(host + "/v" + version + "/" + FOLDER_PATH + "/" + name)).None?
  {
    var rest := "media/" + name;
    assert NoVersionMarker(rest) by {
      forall q | 0 <= q && q + 2 < |rest|
        ensures !(rest[q] == '/' && rest[q + 1] == 'v' && IsDigit(rest[q + 2]))
      {
        if q >= 5 {
          assert rest[q] == ("/" + name)[q - 5] && rest[q + 1] == ("/" + name)[q - 4] && rest[q + 2] == ("/" + name)[q - 3];
        } else {
          assert rest[q] == "media"[q];
        }
      }
    }
    assert forall t :: 0 <= t < |"ardu"| ==> IsLetter("ardu"[t]);
    UnderscoreFolderYieldsNoId(host, version, "ardu", rest);
    assert UnderscoreUrl(host, version, "ardu", rest) == host + "/v" + version + "/" + FOLDER_PATH + "/" + name;
  }

  /** The last '.' of stem + "." + tail, when tail has none, is the one in between. */
  lemma LastDotBetween(stem: string, tail: string)
    requires '.' !in tail
    ensures LastIndexOf(stem + "." + tail, '.') == |stem|
  {
    var s := stem + "." + tail;
    var r := LastIndexOf(s, '.');
    assert s[|stem|] == '.';
    assert s[|stem| + 1..] == tail;
  }

  /** The extension is removed twice: a name that itself holds a dot loses
      its last dot-segment as well. */
  lemma DottedNameLosesLastSegment(prefix: string, version: string, folder: string, stem: string, tail: string, ext: string)
    requires WellFormedUpload(prefix, version, folder, stem + "." + tail, ext)
    requires '.' !in tail
    ensures ExtractPublicIdFromUrl(Some(UploadUrl(prefix, version, folder, stem + "." + tail, ext))) == Some(stem)
  {
    var name := stem + "." + tail;
    UploadUrlGroup(prefix, version, folder, name, ext);
    LastDotBetween(stem, tail);
    assert name[..|stem|] == stem;
  }

  /** So a result can still contain a dot. */
  lemma ResultMayContainDot()
    ensures ExtractPublicIdFromUrl(Some("/v1/f/x.y.z.jpg")) == Some("x.y")
  {
    assert "/v1/f/x.y.z.jpg" == UploadUrl("", "1", "f", "x.y" + "." + "z", "jpg");
    DottedNameLosesLastSegment("", "1", "f", "x.y", "z", "jpg");
  }

  // ---------------------------------------------------------------------
  // deleteFile and the upload options
  // ---------------------------------------------------------------------

  /** The destroy request deleteFile sends to the store. */
  datatype DestroyCall = DestroyCall(publicId: string, resourceType: string)

  /** deleteFile: the destroy request it makes, if any. It never fails: a
      missing public id means no request, and a failing request is only logged. */
  function DeleteFile(contentUrl: Option<string>): (r: Option<DestroyCall>)
    ensures r.None? <==> ExtractPublicIdFromUrl(contentUrl).None?
    ensures r.Some? ==> r.value.publicId == ExtractPublicIdFromUrl(contentUrl).value
    ensures r.Some? ==> (r.value.resourceType == "video" <==> Contains(r.value.publicId, "/video/"))
    ensures r.Some? ==> r.value.resourceType in {"video", "image"}
  {
    match ExtractPublicIdFromUrl(contentUrl)
    case None => None
    case Some(publicId) =>
      Some(DestroyCall(publicId, if Contains(publicId, "/video/") then "video" else "image"))
  }

  /** The public id of a well-formed upload never holds "/video/" when the
      name has no '/', so such assets are always destroyed as images, even
      videos delivered under ".../video/upload/...". */
  lemma UploadsAreDestroyedAsImages(prefix: string, version: string, folder: string, name: string, ext: string)
    requires WellFormedUpload(prefix, version, folder, name, ext)
    requires '/' !in name
    ensures DeleteFile(Some(UploadUrl(prefix, version, folder, name, ext))).Some?
    ensures DeleteFile(Some(UploadUrl(prefix, version, folder, name, ext))).value.resourceType == "image"
  {
    UploadUrlGroup(prefix, version, folder, name, ext);
    var id := DropLastDotSegment(name);
    forall k | 0 <= k <= |id|
      ensures !OccursAt(id, "/video/", k)
    {
      if k + 7 <= |id| {
        assert id[k] == name[k];
        assert id[k..k + 7][0] == id[k];
      }
    }
  }

  /** One value of the upload options map. */
  datatype Transformation = Transformation(videoCodec: string, duration: string)
  datatype UploadOption = Text(text: string) | Transform(transformation: Transformation)

  /** "lte:" + MAX_VIDEO_DURATION_SECONDS */
  const DURATION_LIMIT := "lte:60"

  /** The options uploadAndProcessFile fills before the remote upload. */
  method UploadOptions(mimeType: Option<string>) returns (options: map<string, UploadOption>)
    ensures "resource_type" in options && options["resource_type"] == Text("auto")
    ensures "folder" in options && options["folder"] == Text(FOLDER_PATH)
    ensures "transformation" in options <==> mimeType.Some? && StartsWith(mimeType.value, "video/")
    ensures "transformation" in options ==> options["transformation"] == Transform(Transformation("auto", DURATION_LIMIT))
    ensures options.Keys <= {"resource_type", "folder", "transformation"}
  {
    options := map[];
    options := options["resource_type" := Text("auto")];
    options := options["folder" := Text(FOLDER_PATH)];
    if mimeType.Some? && StartsWith(mimeType.value, "video/") {
      options := options["transformation" := Transform(Transformation("auto", DURATION_LIMIT))];
    }
  }
}
