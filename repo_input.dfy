/**
 * parse_repository_input in repo_cite: `owner/repo`, or an http(s) URL
 * whose path (section 3.3 of RFC 3986, as urllib.parse.urlparse splits it)
 * starts with the owner and the repository name.
 */
module RepoInput {
  import opened Common

  /** The ValueError the parser raises. */
  datatype ParseError =
    | InvalidUrl      // "Invalid GitHub URL format"
    | InvalidFormat   // "Invalid repository format"
    | InvalidIPv6     // urlparse rejects a netloc with an unmatched bracket

  datatype Parsed = Parsed(owner: string, repoName: string) | Failed(error: ParseError)

  // -----------------------------------------------------------------------
  // urllib.parse.urlparse, for URLs that start with http:// or https://

  predicate IsUnsafe(c: char) {
    c == '\t' || c == '\r' || c == '\n'
  }

  /** urlsplit first deletes every tab, carriage return and line feed. */
  function RemoveUnsafe(s: string): (r: string)
    ensures |r| <= |s|
    ensures forall i :: 0 <= i < |r| ==> !IsUnsafe(r[i])
  {
    if s == [] then []
    else (if IsUnsafe(s[0]) then [] else [s[0]]) + RemoveUnsafe(s[1..])
  }

  lemma {:induction false} RemoveUnsafeNone(s: string)
    requires forall i :: 0 <= i < |s| ==> !IsUnsafe(s[i])
    ensures RemoveUnsafe(s) == s
  {
    if s != [] {
      RemoveUnsafeNone(s[1..]);
      assert [s[0]] + s[1..] == s;
    }
  }

  predicate EndsNetloc(c: char) {
    c == '/' || c == '?' || c == '#'
  }

  /** Where the authority ends: the first `/`, `?` or `#`, or the end. */
  function NetlocEnd(s: string): (i: nat)
    ensures i <= |s|
    ensures forall j :: 0 <= j < i ==> !EndsNetloc(s[j])
    ensures i < |s| ==> EndsNetloc(s[i])
  {
    if s == [] || EndsNetloc(s[0]) then 0 else 1 + NetlocEnd(s[1..])
  }

  /** `s[:s.find(c)]`, or s when c does not occur. */
  function Before(s: string, c: char): (r: string)
    ensures c !in r
  {
    s[..IndexOf(s, c)]
  }

  /**
   * urlparse's _splitparams, applied when the path holds a `;`: the path
   * ends at the first `;` of its last segment.
   */
  function SplitParams(path: string): string {
    if '/' in path then
      var start := AfterLast(path, '/') - 1;
      var i := start + IndexOf(path[start..], ';');
      path[..i]
    else
      path[..IndexOf(path, ';')]
  }

  predicate IsUrl(s: string) {
    StartsWith(s, "http://") || StartsWith(s, "https://")
  }

  /** The scheme survives the deletion of tabs and line breaks. */
  lemma RemoveUnsafeKeepsScheme(url: string)
    requires IsUrl(url)
    ensures IsUrl(RemoveUnsafe(url))
    ensures StartsWith(url, "http://") <==> StartsWith(RemoveUnsafe(url), "http://")
  {
    var n := if StartsWith(url, "http://") then 7 else 8;
    RemoveUnsafePrefix(url, n);
    if !StartsWith(url, "http://") {
      assert url[..8][..7] != "http://";
      assert RemoveUnsafe(url)[..8][..7] == RemoveUnsafe(url)[..7];
    }
  }

  lemma RemoveUnsafePrefix(url: string, n: nat)
    requires n <= |url| && forall i :: 0 <= i < n ==> !IsUnsafe(url[i])
    ensures |RemoveUnsafe(url)| >= n && RemoveUnsafe(url)[..n] == url[..n]
    decreases n
  {
    if n > 0 {
      RemoveUnsafePrefix(url[1..], n - 1);
      assert RemoveUnsafe(url) == [url[0]] + RemoveUnsafe(url[1..]);
    }
  }

  /**
   * urlsplit and urlparse on a URL without tabs or line breaks whose
   * scheme is http or https: the text after `scheme:` opens with `//`, the
   * authority runs to the first `/`, `?` or `#`, the fragment and then the
   * query are cut off, and params are cut from the path.  None when the
   * authority holds an unmatched bracket (ValueError).
   */
  function PathOf(u: string): Option<string>
    requires IsUrl(u)
  {
    var rest := if StartsWith(u, "http://") then u[5..] else u[6..];
    var netEnd := 2 + NetlocEnd(rest[2..]);
    var netloc := rest[2..netEnd];
    if ('[' in netloc) != (']' in netloc) then None
    else
      var path := Before(Before(rest[netEnd..], '#'), '?');
      Some(if ';' in path then SplitParams(path) else path)
  }

  /** The `path` component urlparse finds in an http or https URL. */
  function UrlPath(url: string): Option<string>
    requires IsUrl(url)
  {
    RemoveUnsafeKeepsScheme(url);
    PathOf(RemoveUnsafe(url))
  }

  // -----------------------------------------------------------------------
  // parse_repository_input

  /**
   * parse_repository_input: a URL yields the first two segments of its
   * path once the path is stripped of `/`; other input is split at its
   * first `/`.
   */
  function ParseRepositoryInput(input: string): Parsed {
    var s := Strip(input);
    if IsUrl(s) then ParseUrlInput(s) else ParseSlashInput(s)
  }

  /** The URL branch: the first two segments of the path stripped of `/`. */
  function ParseUrlInput(s: string): Parsed
    requires IsUrl(s)
  {
    match UrlPath(s)
    case None => Failed(InvalidIPv6)
    case Some(path) =>
      var parts := Split(StripChar(path, '/'), '/');
      if |parts| >= 2 then Parsed(parts[0], parts[1]) else Failed(InvalidUrl)
  }

  /** The `owner/repo` branch: split at the first `/`. */
  function ParseSlashInput(s: string): Parsed {
    if '/' !in s then Failed(InvalidFormat)
    else
      var i := IndexOf(s, '/');
      Parsed(s[..i], s[i + 1..])
  }

  /**
   * Input that is not an http(s) URL fails exactly when it has no `/`;
   * otherwise it is split at its first `/`, so the repository name may
   * itself hold `/`.
   */
  lemma ParseNonUrl(input: string)
    requires !IsUrl(Strip(input))
    ensures var r := ParseRepositoryInput(input);
      && (r.Failed? <==> '/' !in Strip(input))
      && (r.Failed? ==> r.error == InvalidFormat)
      && (r.Parsed? ==> '/' !in r.owner && Strip(input) == r.owner + "/" + r.repoName)
  {
    assert ParseRepositoryInput(input) == ParseSlashInput(Strip(input));
    SlashInputSplits(Strip(input));
  }

  lemma SlashInputSplits(s: string)
    ensures var r := ParseSlashInput(s);
      && (r.Failed? <==> '/' !in s)
      && (r.Failed? ==> r.error == InvalidFormat)
      && (r.Parsed? ==> '/' !in r.owner && s == r.owner + "/" + r.repoName)
  {
    if '/' in s {
      var i := IndexOf(s, '/');
      assert s == s[..i] + "/" + s[i + 1..];
    }
  }

  /**
   * A URL fails only as a URL (too few path segments or a bad authority);
   * when it parses, neither part holds a `/`.
   */
  lemma ParseUrl(input: string)
    requires IsUrl(Strip(input))
    ensures var r := ParseRepositoryInput(input);
      && (r.Failed? ==> r.error != InvalidFormat)
      && (r.Parsed? ==> '/' !in r.owner && '/' !in r.repoName)
  {
    var s := Strip(input);
    assert ParseRepositoryInput(input) == ParseUrlInput(s);
    if UrlPath(s).Some? {
      SplitJoin(StripChar(UrlPath(s).value, '/'), '/');
    }
  }

  // -----------------------------------------------------------------------
  // A repository URL as GitHub writes it parses back to its owner and name.

  /** A path segment that passes through urlparse and the split untouched. */
  predicate PlainSegment(s: string) {
    && s != []
    && forall i :: 0 <= i < |s| ==> !EndsNetloc(s[i]) && s[i] != ';' && !IsUnsafe(s[i])
  }

  /** An authority without brackets or path delimiters. */
  predicate PlainHost(s: string) {
    forall i :: 0 <= i < |s| ==> !EndsNetloc(s[i]) && s[i] != '[' && s[i] != ']' && !IsUnsafe(s[i])
  }

  /** What may follow the repository name: nothing, or a path, query or fragment. */
  predicate PlainRest(s: string) {
    && (s == [] || EndsNetloc(s[0]))
    && forall i :: 0 <= i < |s| ==> s[i] != ';' && !IsUnsafe(s[i])
  }

  function RepoUrl(scheme: string, host: string, owner: string, repoName: string, rest: string): string {
    scheme + "://" + host + "/" + owner + "/" + repoName + rest
  }

  lemma RepoUrlIsUrl(scheme: string, host: string, owner: string, repoName: string, rest: string)
    requires scheme == "http" || scheme == "https"
    ensures IsUrl(RepoUrl(scheme, host, owner, repoName, rest))
  {
    var u := RepoUrl(scheme, host, owner, repoName, rest);
    if scheme == "http" {
      assert u[..7] == "http://";
    } else {
      assert u[..8] == "https://";
    }
  }

  predicate Safe(s: string) {
    forall i :: 0 <= i < |s| ==> !IsUnsafe(s[i])
  }

  lemma SafeConcat(a: string, b: string)
    requires Safe(a) && Safe(b)
    ensures Safe(a + b)
  {
    forall i | 0 <= i < |a + b| ensures !IsUnsafe((a + b)[i]) {
      if i >= |a| {
        assert (a + b)[i] == b[i - |a|];
      }
    }
  }

  /** The path urlparse finds after a plain authority. */
  lemma PathOfParts(scheme: string, host: string, tail: string)
    requires scheme == "http" || scheme == "https"
    requires PlainHost(host) && tail != [] && tail[0] == '/'
    requires IsUrl(scheme + "://" + host + tail)
    ensures var p := Before(Before(tail, '#'), '?');
      PathOf(scheme + "://" + host + tail) == Some(if ';' in p then SplitParams(p) else p)
  {
    var u := scheme + "://" + host + tail;
    var rst := "//" + host + tail;
    assert u == scheme + ":" + rst;
    assert StartsWith(u, "http://") <==> scheme == "http" by {
      if scheme == "https" {
        assert u[4] == 's';
      }
    }
    assert u[|scheme| + 1..] == rst;
    assert rst[2..] == host + tail;
    NetlocOfHost(host, tail);
    assert rst[2..2 + |host|] == host;
    assert rst[2 + |host|..] == tail;
  }

  /** The path urlparse finds in such a URL: the owner, the name and the path part of the rest. */
  lemma RepoUrlPath(scheme: string, host: string, owner: string, repoName: string, rest: string)
    requires scheme == "http" || scheme == "https"
    requires PlainHost(host) && PlainSegment(owner) && PlainSegment(repoName) && PlainRest(rest)
    ensures IsUrl(RepoUrl(scheme, host, owner, repoName, rest))
    ensures UrlPath(RepoUrl(scheme, host, owner, repoName, rest)) == Some("/" + owner + "/" + repoName + Before(Before(rest, '#'), '?'))
  {
    RepoUrlIsUrl(scheme, host, owner, repoName, rest);
    var url := RepoUrl(scheme, host, owner, repoName, rest);
    var tail := "/" + owner + "/" + repoName + rest;
    assert url == scheme + "://" + host + tail;
    RepoUrlSafe(scheme, host, owner, repoName, rest);
    RemoveUnsafeNone(url);
    PathOfParts(scheme, host, tail);
    PathOfTail(owner, repoName, rest);
  }

  lemma RepoUrlSafe(scheme: string, host: string, owner: string, repoName: string, rest: string)
    requires scheme == "http" || scheme == "https"
    requires PlainHost(host) && PlainSegment(owner) && PlainSegment(repoName) && PlainRest(rest)
    ensures Safe(RepoUrl(scheme, host, owner, repoName, rest))
  {
    var tail := "/" + owner + "/" + repoName + rest;
    assert RepoUrl(scheme, host, owner, repoName, rest) == scheme + "://" + host + tail;
    assert Safe(scheme + "://") by {
      if scheme == "http" { assert scheme + "://" == "http://"; } else { assert scheme + "://" == "https://"; }
    }
    assert Safe(host) && Safe(owner) && Safe(repoName) && Safe(rest) && Safe("/");
    SafeConcat("/", owner);
    SafeConcat("/" + owner, "/");
    SafeConcat("/" + owner + "/", repoName);
    SafeConcat("/" + owner + "/" + repoName, rest);
    SafeConcat(scheme + "://", host);
    SafeConcat(scheme + "://" + host, tail);
  }

  lemma NetlocOfHost(host: string, tail: string)
    requires forall i :: 0 <= i < |host| ==> !EndsNetloc(host[i])
    requires tail != [] && tail[0] == '/'
    ensures NetlocEnd(host + tail) == |host|
    decreases |host|
  {
    if host != [] {
      assert (host + tail)[1..] == host[1..] + tail;
      NetlocOfHost(host[1..], tail);
    }
  }

  lemma PathOfTail(owner: string, repoName: string, rest: string)
    requires PlainSegment(owner) && PlainSegment(repoName) && PlainRest(rest)
    ensures var path := Before(Before("/" + owner + "/" + repoName + rest, '#'), '?');
      && path == "/" + owner + "/" + repoName + Before(Before(rest, '#'), '?')
      && ';' !in path
  {
    var head := "/" + owner + "/" + repoName;
    assert '#' !in head && '?' !in head && ';' !in head;
    BeforeAppend(head, rest, '#');
    BeforeAppend(head, Before(rest, '#'), '?');
    var r := Before(Before(rest, '#'), '?');
    assert r == rest[..|r|];
  }

  lemma BeforeAppend(a: string, b: string, c: char)
    requires c !in a
    ensures Before(a + b, c) == a + Before(b, c)
    ensures |Before(b, c)| <= |b| && Before(b, c) == b[..|Before(b, c)|]
  {
    var i := IndexOf(a + b, c);
    var j := IndexOf(b, c);
    if j < |b| {
      assert (a + b)[|a| + j] == c;
      assert (a + b)[..|a| + j] == a + b[..j];
    } else {
      assert a + b == (a + b)[..|a| + j];
    }
    assert (a + b)[..|a| + j] == a + b[..j];
  }

  /**
   * A URL built from a scheme, a plain host, the owner, the repository
   * name and an optional path, query or fragment parses back to the owner
   * and the repository name.
   */
  lemma ParseRepoUrl(scheme: string, host: string, owner: string, repoName: string, rest: string)
    requires scheme == "http" || scheme == "https"
    requires PlainHost(host) && PlainSegment(owner) && PlainSegment(repoName) && PlainRest(rest)
    requires !IsSpace(RepoUrl(scheme, host, owner, repoName, rest)[|RepoUrl(scheme, host, owner, repoName, rest)| - 1])
    ensures ParseRepositoryInput(RepoUrl(scheme, host, owner, repoName, rest)) == Parsed(owner, repoName)
  {
    var url := RepoUrl(scheme, host, owner, repoName, rest);
    assert url[0] == 'h';
    StripLeftNoSpace(url);
    StripRightNoSpace(url);
    assert Strip(url) == url;
    RepoUrlPath(scheme, host, owner, repoName, rest);
    var x := Before(Before(rest, '#'), '?');
    PathOfTail(owner, repoName, rest);
    PathSegments(owner, repoName, x);
  }

  /** rstrip(c) of p + x keeps all of p when p does not end with c. */
  lemma RStripAfter(p: string, x: string, c: char)
    requires p != [] && p[|p| - 1] != c
    ensures |RStripChar(p + x, c)| >= |p|
    ensures RStripChar(p + x, c) == p + x[..|RStripChar(p + x, c)| - |p|]
  {
    var r := RStripChar(p + x, c);
    assert (p + x)[|p| - 1] == p[|p| - 1];
    assert r == (p + x)[..|r|];
    assert (p + x)[..|r|] == p + x[..|r| - |p|];
  }

  lemma SplitTwo(owner: string, repoName: string, y: string)
    requires '/' !in owner && '/' !in repoName
    requires y == [] || y[0] == '/'
    ensures var parts := Split(owner + "/" + repoName + y, '/');
      |parts| >= 2 && parts[0] == owner && parts[1] == repoName
  {
    assert owner + "/" + repoName + y == owner + ['/'] + (repoName + y);
    SplitAround(owner, '/', repoName + y);
    if y == [] {
      assert repoName + y == repoName;
      SplitNoSeparator(repoName, '/');
    } else {
      assert repoName + y == repoName + ['/'] + y[1..];
      SplitAround(repoName, '/', y[1..]);
    }
  }

  /** Stripping `/` from the path removes its leading `/` and some trailing ones after the name. */
  lemma StripPath(owner: string, repoName: string, x: string) returns (y: string)
    requires PlainSegment(owner) && PlainSegment(repoName)
    requires x == [] || x[0] == '/'
    ensures StripChar("/" + owner + "/" + repoName + x, '/') == owner + "/" + repoName + y
    ensures y == [] || y[0] == '/'
  {
    var p := owner + "/" + repoName;
    LStripPath(owner, repoName, x);
    assert p[|p| - 1] == repoName[|repoName| - 1];
    RStripAfter(p, x, '/');
    y := x[..|RStripChar(p + x, '/')| - |p|];
  }

  lemma LStripPath(owner: string, repoName: string, x: string)
    requires owner != [] && owner[0] != '/'
    ensures LStripChar("/" + owner + "/" + repoName + x, '/') == owner + "/" + repoName + x
  {
    var p := owner + "/" + repoName;
    var path := "/" + owner + "/" + repoName + x;
    assert path == "/" + (p + x);
    assert path[1] == owner[0];
    LStripOne(path, '/');
    assert path[1..] == p + x;
  }

  lemma PathSegments(owner: string, repoName: string, x: string)
    requires PlainSegment(owner) && PlainSegment(repoName)
    requires x == [] || x[0] == '/'
    ensures var parts := Split(StripChar("/" + owner + "/" + repoName + x, '/'), '/');
      |parts| >= 2 && parts[0] == owner && parts[1] == repoName
  {
    var y := StripPath(owner, repoName, x);
    assert '/' !in owner && '/' !in repoName;
    SplitTwo(owner, repoName, y);
  }

  /** `owner/repo` input splits at its first `/`. */
  lemma ParseOwnerSlashRepo(owner: string, repoName: string)
    requires '/' !in owner
    requires owner != [] && !IsSpace(owner[0])
    requires !IsUrl(owner + "/" + repoName)
    requires repoName == [] || !IsSpace(repoName[|repoName| - 1])
    ensures ParseRepositoryInput(owner + "/" + repoName) == Parsed(owner, repoName)
  {
    var s := owner + "/" + repoName;
    StripLeftNoSpace(s);
    StripRightNoSpace(s);
    assert Strip(s) == s;
    assert ParseRepositoryInput(s) == ParseSlashInput(s);
    SlashAfterOwner(owner, repoName);
  }

  /** The first `/` of `owner/repo` is the one after the owner. */
  lemma SlashAfterOwner(owner: string, repoName: string)
    requires '/' !in owner
    ensures ParseSlashInput(owner + "/" + repoName) == Parsed(owner, repoName)
  {
    var s := owner + "/" + repoName;
    assert s[|owner|] == '/';
    assert IndexOf(s, '/') == |owner| by {
      assert s[..|owner|] == owner;
    }
    assert s[..|owner|] == owner;
    assert s[|owner| + 1..] == repoName;
  }
}
