/** `construct_url`: make sure the server URL ends with `/`, then resolve the
    endpoint against it as a relative reference (section 5.2 of RFC 3986,
    with the path merge of section 5.2.3), as `urllib.parse.urljoin` does.
    Only the references the program builds are modelled: an http or https
    base without query, fragment, empty or dot segments, and an endpoint
    that is a plain relative path. */
module UrlJoin {
  import opened Wrappers

  predicate EndsWithSlash(s: string)
  {
    |s| > 0 && s[|s| - 1] == '/'
  }

  /** `if not server_url.endswith('/'): server_url += '/'` */
  function EnsureTrailingSlash(s: string): (r: string)
    ensures EndsWithSlash(r)
    ensures EndsWithSlash(s) ==> r == s
    ensures !EndsWithSlash(s) ==> r == s + "/"
  {
    if EndsWithSlash(s) then s else s + "/"
  }

  /** An empty segment, `//`, starts at position i of s. */
  predicate DoubleSlashAt(s: string, i: int)
    requires 0 <= i < |s| - 1
  {
    s[i] == '/' && s[i + 1] == '/'
  }

  predicate NoDoubleSlash(s: string)
  {
    forall i :: 0 <= i < |s| - 1 ==> !DoubleSlashAt(s, i)
  }

  /** A `.` or `..` segment starts at position i of s. */
  predicate DotSegmentAt(s: string, i: int)
    requires 0 <= i < |s|
  {
    && s[i] == '.'
    && (i == 0 || s[i - 1] == '/')
    && (i + 1 == |s| || s[i + 1] == '/' || (s[i + 1] == '.' && (i + 2 == |s| || s[i + 2] == '/')))
  }

  predicate NoDotSegments(s: string)
  {
    forall i :: 0 <= i < |s| ==> !DotSegmentAt(s, i)
  }

  /** Printable ASCII that neither ends the path (`?`, `#`), starts path
      parameters (`;`) nor opens an IPv6 literal. */
  predicate PlainChar(c: char)
  {
    ' ' < c < '\U{7f}' && c != '?' && c != '#' && c != ';' && c != '[' && c != ']'
  }

  predicate HasPrefix(s: string, p: string)
  {
    |p| <= |s| && s[..|p|] == p
  }

  /** Length of the `scheme://` that starts a base URL, 0 when it is neither
      http nor https. */
  function SchemeLength(b: string): (k: nat)
    ensures k <= |b|
  {
    if HasPrefix(b, "https://") then 8 else if HasPrefix(b, "http://") then 7 else 0
  }

  /** An http(s) base URL: a non-empty authority, then a path without empty
      or dot segments, without query or fragment. */
  predicate SimpleBase(b: string)
  {
    && SchemeLength(b) > 0
    && var rest := b[SchemeLength(b)..];
    && |rest| > 0 && rest[0] != '/'
    && NoDoubleSlash(rest) && NoDotSegments(rest)
    && forall i :: 0 <= i < |rest| ==> PlainChar(rest[i])
  }

  /** A relative-path reference: no scheme, no leading `/`, no empty or dot
      segments, no query or fragment. */
  predicate SimpleEndpoint(e: string)
  {
    && (|e| == 0 || e[0] != '/')
    && NoDoubleSlash(e) && NoDotSegments(e)
    && forall i :: 0 <= i < |e| ==> PlainChar(e[i]) && e[i] != ':'
  }

  /** Position of the right-most `/` in p, if any. */
  function LastSlash(p: string): (r: Option<nat>)
    ensures r.Some? ==> r.value < |p| && p[r.value] == '/'
    ensures r.Some? ==> forall j :: r.value < j < |p| ==> p[j] != '/'
    ensures r.None? ==> forall j :: 0 <= j < |p| ==> p[j] != '/'
  {
    if p == [] then None
    else if p[|p| - 1] == '/' then Some(|p| - 1)
    else LastSlash(p[..|p| - 1])
  }

  /** Position of the left-most `/` in s. */
  function FirstSlash(s: string): (i: nat)
    requires EndsWithSlash(s)
    ensures i < |s| && s[i] == '/'
    ensures forall j :: 0 <= j < i ==> s[j] != '/'
  {
    if s[0] == '/' then 0 else 1 + FirstSlash(s[1..])
  }

  /** The path merge of section 5.2.3 of RFC 3986 for a base URI that has an
      authority: the reference replaces everything after the base path's
      right-most `/`. */
  function Merge(basePath: string, ref: string): (r: string)
    ensures |ref| <= |r| && r[|r| - |ref|..] == ref
    ensures basePath == [] ==> r == "/" + ref
    ensures basePath != [] ==>
      var dir := r[..|r| - |ref|];
      && HasPrefix(basePath, dir)
      && (dir == [] || EndsWithSlash(dir))
      && forall j :: |dir| <= j < |basePath| ==> basePath[j] != '/'
    ensures EndsWithSlash(basePath) ==> r == basePath + ref
  {
    if basePath == [] then "/" + ref
    else
      match LastSlash(basePath)
      case None => ref
      case Some(i) => basePath[..i + 1] + ref
  }

  /** Extending a URL leaves its scheme where it was. */
  lemma ExtensionKeepsScheme(b: string, t: string)
    requires SchemeLength(b) > 0 && HasPrefix(t, b)
    ensures SchemeLength(t) == SchemeLength(b)
  {
    var k := SchemeLength(b);
    assert t[..k] == b[..k];
    if k == 7 {
      assert t[4] == b[4] == ':';
    }
  }

  /** Appending the slash leaves the scheme where it was. */
  lemma SlashKeepsScheme(b: string)
    requires 0 < SchemeLength(b) < |b|
    ensures SchemeLength(EnsureTrailingSlash(b)) == SchemeLength(b)
    ensures EndsWithSlash(EnsureTrailingSlash(b)[SchemeLength(b)..])
  {
    ExtensionKeepsScheme(b, EnsureTrailingSlash(b));
  }

  lemma Resplit(base: string, k: nat, a: nat, e: string)
    requires k <= |base| && a <= |base| - k
    ensures base[..k] + base[k..][..a] + (base[k..][a..] + e) == base + e
  {
    var rest := base[k..];
    assert rest[..a] + rest[a..] == rest;
    assert base[..k] + rest == base;
  }

  /** `construct_url(server_url, endpoint)`: `urljoin` of the endpoint with the
      slash-terminated server URL. The target keeps the base's scheme and
      authority and takes the merged path; an empty endpoint gives the base. */
  function ConstructUrl(serverUrl: string, endpoint: string): (url: string)
    requires SimpleBase(serverUrl) && SimpleEndpoint(endpoint)
    ensures url == EnsureTrailingSlash(serverUrl) + endpoint
  {
    var base := EnsureTrailingSlash(serverUrl);
    SlashKeepsScheme(serverUrl);
    var k := SchemeLength(base);
    var rest := base[k..];
    var a := FirstSlash(rest);
    Resplit(base, k, a, endpoint);
    if endpoint == [] then base
    else base[..k] + rest[..a] + Merge(rest[a..], endpoint)
  }

  /** A simple base stays simple once the slash is appended. */
  lemma SlashKeepsSimpleBase(b: string)
    requires SimpleBase(b)
    ensures SimpleBase(EnsureTrailingSlash(b))
  {
    if !EndsWithSlash(b) {
      var k := SchemeLength(b);
      var c := b + "/";
      SlashKeepsScheme(b);
      var rest, rest' := b[k..], c[k..];
      assert rest' == rest + "/";
      forall i | 0 <= i < |rest'| - 1
        ensures !DoubleSlashAt(rest', i)
      {
        if i < |rest| - 1 {
          assert !DoubleSlashAt(rest, i);
        }
      }
      forall i | 0 <= i < |rest'|
        ensures !DotSegmentAt(rest', i)
      {
        if i < |rest| {
          assert !DotSegmentAt(rest, i);
        }
      }
    }
  }

  /** Normalising the server URL first changes nothing: `construct_url` of a
      slash-terminated base equals `construct_url` of the bare one. */
  lemma ConstructUrlIdempotent(serverUrl: string, endpoint: string)
    requires SimpleBase(serverUrl) && SimpleEndpoint(endpoint)
    ensures SimpleBase(EnsureTrailingSlash(serverUrl))
    ensures ConstructUrl(EnsureTrailingSlash(serverUrl), endpoint) == ConstructUrl(serverUrl, endpoint)
  {
    SlashKeepsSimpleBase(serverUrl);
  }

  lemma DropOfConcat(a: string, b: string, k: nat)
    requires k <= |a|
    ensures (a + b)[k..] == a[k..] + b
    ensures (a + b)[..|a|] == a
  {
  }

  lemma NoDoubleSlashJoin(p: string, e: string)
    requires NoDoubleSlash(p) && NoDoubleSlash(e) && (|e| == 0 || e[0] != '/')
    ensures NoDoubleSlash(p + e)
  {
    var t := p + e;
    forall i | 0 <= i < |t| - 1
      ensures !DoubleSlashAt(t, i)
    {
      if i < |p| - 1 {
        assert !DoubleSlashAt(p, i);
      } else if i >= |p| {
        assert !DoubleSlashAt(e, i - |p|);
      }
    }
  }

  lemma SeamShape(serverUrl: string, endpoint: string)
    requires SimpleBase(serverUrl) && SimpleEndpoint(endpoint)
    ensures var url := ConstructUrl(serverUrl, endpoint);
      && HasPrefix(url, serverUrl)
      && (EndsWithSlash(serverUrl) ==> url == serverUrl + endpoint)
      && (!EndsWithSlash(serverUrl) ==> url == serverUrl + "/" + endpoint)
  {
    var tail := if EndsWithSlash(serverUrl) then endpoint else "/" + endpoint;
    assert EnsureTrailingSlash(serverUrl) + endpoint == serverUrl + tail;
    DropOfConcat(serverUrl, tail, 0);
  }

  lemma SeamNoDoubleSlash(serverUrl: string, endpoint: string)
    requires SimpleBase(serverUrl) && SimpleEndpoint(endpoint)
    ensures NoDoubleSlash(ConstructUrl(serverUrl, endpoint)[SchemeLength(serverUrl)..])
  {
    var k := SchemeLength(serverUrl);
    SlashKeepsSimpleBase(serverUrl);
    SlashKeepsScheme(serverUrl);
    var base := EnsureTrailingSlash(serverUrl);
    DropOfConcat(base, endpoint, k);
    NoDoubleSlashJoin(base[k..], endpoint);
  }

  /** The server URL is kept as written, at most one `/` follows it, and the
      result has no empty path segment: exactly one `/` separates the server
      URL from the endpoint. */
  lemma ConstructUrlSeam(serverUrl: string, endpoint: string)
    requires SimpleBase(serverUrl) && SimpleEndpoint(endpoint)
    ensures var url := ConstructUrl(serverUrl, endpoint);
      && HasPrefix(url, serverUrl)
      && (EndsWithSlash(serverUrl) ==> url == serverUrl + endpoint)
      && (!EndsWithSlash(serverUrl) ==> url == serverUrl + "/" + endpoint)
      && SchemeLength(url) == SchemeLength(serverUrl)
      && NoDoubleSlash(url[SchemeLength(serverUrl)..])
  {
    SeamShape(serverUrl, endpoint);
    ExtensionKeepsScheme(serverUrl, ConstructUrl(serverUrl, endpoint));
    SeamNoDoubleSlash(serverUrl, endpoint);
  }

  /** A non-empty simple endpoint stays simple with a `/` appended. */
  lemma SlashKeepsSimpleEndpoint(e: string)
    requires SimpleEndpoint(e) && e != [] && !EndsWithSlash(e)
    ensures SimpleEndpoint(e + "/")
  {
    var t := e + "/";
    forall i | 0 <= i < |t| - 1
      ensures !DoubleSlashAt(t, i)
    {
      if i < |e| - 1 {
        assert !DoubleSlashAt(e, i);
      }
    }
    forall i | 0 <= i < |t|
      ensures !DotSegmentAt(t, i)
    {
      if i < |e| {
        assert !DotSegmentAt(e, i);
      }
    }
  }

  /** Two simple endpoints joined after a `/` make a simple endpoint. */
  lemma JoinSimpleEndpoints(a: string, b: string)
    requires SimpleEndpoint(a) && EndsWithSlash(a) && SimpleEndpoint(b)
    ensures SimpleEndpoint(a + b)
  {
    var t := a + b;
    NoDoubleSlashJoin(a, b);
    forall i | 0 <= i < |t|
      ensures !DotSegmentAt(t, i)
    {
      if i < |a| {
        assert !DotSegmentAt(a, i);
      } else {
        assert !DotSegmentAt(b, i - |a|);
      }
    }
  }

  /** One path segment: non-empty, without `/`, neither `.` nor `..`. */
  predicate Segment(s: string)
  {
    && s != [] && s != "." && s != ".."
    && forall i :: 0 <= i < |s| ==> PlainChar(s[i]) && s[i] != '/' && s[i] != ':'
  }

  lemma SegmentIsSimple(s: string)
    requires Segment(s)
    ensures SimpleEndpoint(s) && !EndsWithSlash(s)
  {
  }

  /** A simple endpoint, then `/`, then a simple path. */
  lemma AppendPath(a: string, s: string)
    requires a != [] && SimpleEndpoint(a) && !EndsWithSlash(a)
    requires s != [] && SimpleEndpoint(s) && !EndsWithSlash(s)
    ensures SimpleEndpoint(a + "/" + s) && !EndsWithSlash(a + "/" + s)
  {
    SlashKeepsSimpleEndpoint(a);
    JoinSimpleEndpoints(a + "/", s);
  }

  /** A simple endpoint, then `/`, then one more segment. */
  lemma AppendSegment(a: string, s: string)
    requires a != [] && SimpleEndpoint(a) && !EndsWithSlash(a) && Segment(s)
    ensures SimpleEndpoint(a + "/" + s) && !EndsWithSlash(a + "/" + s)
  {
    SegmentIsSimple(s);
    AppendPath(a, s);
  }

  /** `https://` followed by a non-empty simple path is a simple base. */
  lemma HttpsBase(rest: string)
    requires rest != [] && SimpleEndpoint(rest)
    ensures SimpleBase("https://" + rest)
    ensures EndsWithSlash("https://" + rest) == EndsWithSlash(rest)
  {
    var b := "https://" + rest;
    assert b[..8] == "https://";
    DropOfConcat("https://", rest, 8);
  }
}
