/** `urllib.parse.urlparse` (CPython 3.11 and later): the generic syntax of section 3
    of RFC 3986, split into scheme, network location, path, parameters, query and
    fragment. */
module UrlParse {
  import opened Wrappers
  import opened Text

  datatype ParseResult = ParseResult(
    scheme: string, netloc: string, path: string, params: string, query: string, fragment: string)

  /** The C0 controls and space that `urlsplit` strips from the front of a URL. */
  predicate IsC0OrSpace(c: char) { c as int <= 0x20 }

  /** Tab, carriage return and line feed, which `urlsplit` deletes everywhere. */
  predicate IsUnsafeUrlChar(c: char) { c == '\t' || c == '\r' || c == '\n' }

  predicate IsSchemeChar(c: char)
  {
    ('A' <= c <= 'Z') || ('a' <= c <= 'z') || ('0' <= c <= '9') || c == '+' || c == '-' || c == '.'
  }

  function LStripC0(s: string): (r: string)
    ensures |r| <= |s| && r == s[|s| - |r|..]
    ensures r != [] ==> !IsC0OrSpace(r[0])
  {
    if s != [] && IsC0OrSpace(s[0]) then LStripC0(s[1..]) else s
  }

  function RemoveUnsafe(s: string): (r: string)
    ensures forall i :: 0 <= i < |r| ==> !IsUnsafeUrlChar(r[i])
  {
    if s == [] then []
    else if IsUnsafeUrlChar(s[0]) then RemoveUnsafe(s[1..])
    else [s[0]] + RemoveUnsafe(s[1..])
  }

  predicate AllSchemeChars(s: string)
  {
    forall i :: 0 <= i < |s| ==> IsSchemeChar(s[i])
  }

  /** The scheme and the rest: a scheme is taken only when the first `:` has at
      least one character before it, the first is an ASCII letter and all are
      scheme characters. */
  function SplitScheme(url: string): (string, string)
  {
    var i := FindChar(url, ':');
    if i > 0 && (('A' <= url[0] <= 'Z') || ('a' <= url[0] <= 'z')) && AllSchemeChars(url[..i]) then
      (Lower(url[..i]), url[i + 1..])
    else ([], url)
  }

  /** `_splitnetloc(url, 2)`: the authority ends at the first `/`, `?` or `#`. */
  function NetlocLength(s: string): (n: nat)
    ensures n <= |s|
    ensures forall i :: 0 <= i < n ==> s[i] !in "/?#"
    ensures n < |s| ==> s[n] in "/?#"
  {
    if s == [] || s[0] in "/?#" then 0 else 1 + NetlocLength(s[1..])
  }

  /** `s.split(c, 1)` when `c in s`: the text before and after the first `c`. */
  function SplitOnce(s: string, c: char): (r: (string, string))
    requires c in s
    ensures s == r.0 + [c] + r.1 && c !in r.0
  {
    var i := FindChar(s, c);
    assert s == s[..i] + [c] + s[i + 1..];
    (s[..i], s[i + 1..])
  }

  /** The schemes whose paths may carry `;` parameters. */
  const UsesParams: seq<string> :=
    ["", "ftp", "hdl", "prospero", "http", "imap", "https", "shttp", "rtsp", "rtsps",
     "rtspu", "sip", "sips", "mms", "sftp", "tel"]

  /** `_splitparams`: parameters start at the first `;` of the last path segment
      (or of the whole path when it has no `/`). */
  function SplitParams(path: string): (string, string)
    requires ';' in path
  {
    if '/' in path then
      var j := RFindChar(path, '/');
      var k := FindChar(path[j..], ';');
      if k < 0 then (path, []) else (path[..j + k], path[j + k + 1..])
    else
      var k := FindChar(path, ';');
      (path[..k], path[k + 1..])
  }

  /** `urlparse(url)`; `None` when it raises `ValueError` for a network location
      with an unmatched square bracket. The URL is first cleaned: leading C0
      controls and spaces are stripped and tabs and newlines are deleted. */
  function Parse(url0: string): Option<ParseResult>
  {
    ParseClean(RemoveUnsafe(LStripC0(url0)))
  }

  /** The splitting that `urlparse` does on a cleaned URL. */
  function ParseClean(url1: string): Option<ParseResult>
  {
    var (scheme, url2) := SplitScheme(url1);
    var (netloc, url3) := SplitNetloc(url2);
    if ('[' in netloc) != (']' in netloc) then None
    else
      var (url4, fragment) := SplitFragment(url3);
      var (path0, query) := SplitQuery(url4);
      var (path, params) := if scheme in UsesParams && ';' in path0 then SplitParams(path0) else (path0, []);
      Some(ParseResult(scheme, netloc, path, params, query, fragment))
  }

  /** The network location, present when the rest starts with `//`, and what
      follows it. */
  function SplitNetloc(url2: string): (string, string)
  {
    if StartsWith(url2, "//") then
      var n := NetlocLength(url2[2..]);
      (url2[2..][..n], url2[2..][n..])
    else ([], url2)
  }

  /** `url.split('#', 1)` when there is a `#`. */
  function SplitFragment(url3: string): (string, string)
  {
    if '#' in url3 then SplitOnce(url3, '#') else (url3, [])
  }

  /** `url.split('?', 1)` when there is a `?`. */
  function SplitQuery(url4: string): (string, string)
  {
    if '?' in url4 then SplitOnce(url4, '?') else (url4, [])
  }

  // ------------------------------------------------ facts about `Parse`

  lemma {:induction false} RemoveUnsafeAppend(a: string, b: string)
    ensures RemoveUnsafe(a + b) == RemoveUnsafe(a) + RemoveUnsafe(b)
  {
    if a == [] {
      assert a + b == b;
    } else {
      assert (a + b)[0] == a[0] && (a + b)[1..] == a[1..] + b;
      RemoveUnsafeAppend(a[1..], b);
    }
  }

  lemma {:induction false} RemoveUnsafeKeeps(s: string)
    requires forall i :: 0 <= i < |s| ==> !IsUnsafeUrlChar(s[i])
    ensures RemoveUnsafe(s) == s
  {
    if s != [] {
      RemoveUnsafeKeeps(s[1..]);
    }
  }

  lemma {:induction false} NetlocLengthAppend(a: string, b: string)
    requires forall i :: 0 <= i < |a| ==> a[i] !in "/?#"
    requires b != [] && b[0] == '/'
    ensures NetlocLength(a + b) == |a|
  {
    if a == [] {
      assert a + b == b;
    } else {
      assert (a + b)[1..] == a[1..] + b;
      NetlocLengthAppend(a[1..], b);
    }
  }

  /** Splitting off a fragment and then a query leaves `w` when what follows `w`
      is empty or starts a query or a fragment. */
  lemma PathBeforeQuery(w: string, t: string)
    requires '#' !in w && '?' !in w
    requires t == [] || t[0] == '?' || t[0] == '#'
    ensures SplitQuery(SplitFragment(w + t).0).0 == w
  {
    var s := w + t;
    var u := if '#' in s then SplitOnce(s, '#').0 else s;
    var t' := if '#' in s then t[..FindChar(t, '#')] else t;
    if '#' in s {
      FindCharAfter(w, t, '#');
      assert u == w + t';
    }
    assert t' == [] || t'[0] == '?';
    if t' == [] {
      assert u == w;
    } else {
      assert u[|w|] == '?';
      FindCharAfter(w, t', '?');
      assert SplitOnce(u, '?').0 == u[..|w|];
      assert u[..|w|] == w;
    }
  }

  /** Cleaning a URL that starts with a printable character and whose only
      tabs and newlines are in its tail touches only the tail. */
  lemma CleanUrl(head: string, tail: string)
    requires head != [] && !IsC0OrSpace(head[0])
    requires forall i :: 0 <= i < |head| ==> !IsUnsafeUrlChar(head[i])
    requires tail == [] || tail[0] == '?' || tail[0] == '#'
    ensures RemoveUnsafe(LStripC0(head + tail)) == head + RemoveUnsafe(tail)
    ensures var t' := RemoveUnsafe(tail); t' == [] || t'[0] == '?' || t'[0] == '#'
  {
    assert (head + tail)[0] == head[0];
    RemoveUnsafeAppend(head, tail);
    RemoveUnsafeKeeps(head);
    if tail != [] {
      assert tail == [tail[0]] + tail[1..];
      RemoveUnsafeAppend([tail[0]], tail[1..]);
    }
  }

  lemma HttpsScheme(url1: string)
    requires StartsWith(url1, "https:")
    ensures SplitScheme(url1) == ("https", url1[6..])
  {
    assert url1 == "https:" + url1[6..];
    FindCharPrefix("https:", url1[6..], ':');
    assert url1[..5] == "https";
    assert AllSchemeChars("https");
    assert Lower("https") == "https";
  }

  /** The network location of `//<host><rest>` is the host when `rest` starts a path. */
  lemma NetlocOfAuthority(url2: string, host: string, rest: string)
    requires url2 == "//" + host + rest
    requires forall i :: 0 <= i < |host| ==> host[i] !in "/?#"
    requires rest != [] && rest[0] == '/'
    ensures SplitNetloc(url2) == (host, rest)
  {
    assert StartsWith(url2, "//");
    assert url2[2..] == host + rest;
    NetlocLengthAppend(host, rest);
    assert url2[2..][..|host|] == host;
    assert url2[2..][|host|..] == rest;
  }

  /** The split of a cleaned `https://<host><path><tail>`. */
  lemma ParseCleanHttps(url1: string, host: string, path: string, tail: string)
    requires url1 == "https://" + host + path + tail
    requires forall i :: 0 <= i < |host| ==> host[i] !in "/?#[]\t\r\n"
    requires path != [] && path[0] == '/'
    requires forall i :: 0 <= i < |path| ==> path[i] !in "?#;\t\r\n"
    requires tail == [] || tail[0] == '?' || tail[0] == '#'
    ensures ParseClean(url1).Some?
    ensures ParseClean(url1).value.netloc == host
    ensures ParseClean(url1).value.path == path
  {
    assert url1 == "https:" + ("//" + host + (path + tail));
    HttpsScheme(url1);
    assert url1[6..] == "//" + host + (path + tail);
    NetlocOfAuthority(url1[6..], host, path + tail);
    assert '[' !in host && ']' !in host;
    assert '#' !in path && '?' !in path && ';' !in path;
    PathBeforeQuery(path, tail);
  }

  /** `urlparse` of `https://<host><path><tail>`, for a host without delimiters,
      a path starting with `/` that holds no `#`, `?` or `;`, and a tail that is
      empty or starts a query or a fragment. */
  lemma ParseHttpsUrl(url0: string, host: string, path: string, tail: string)
    requires url0 == "https://" + host + path + tail
    requires forall i :: 0 <= i < |host| ==> host[i] !in "/?#[]\t\r\n"
    requires path != [] && path[0] == '/'
    requires forall i :: 0 <= i < |path| ==> path[i] !in "?#;\t\r\n"
    requires tail == [] || tail[0] == '?' || tail[0] == '#'
    ensures Parse(url0).Some?
    ensures Parse(url0).value.netloc == host
    ensures Parse(url0).value.path == path
  {
    var head := "https://" + host + path;
    assert url0 == head + tail;
    HttpsHeadSafe(host, path);
    CleanUrl(head, tail);
    var t' := RemoveUnsafe(tail);
    var url1 := "https://" + host + path + t';
    assert Parse(url0) == ParseClean(url1);
    ParseCleanHttps(url1, host, path, t');
  }

  lemma HttpsHeadSafe(host: string, path: string)
    requires forall i :: 0 <= i < |host| ==> !IsUnsafeUrlChar(host[i])
    requires forall i :: 0 <= i < |path| ==> !IsUnsafeUrlChar(path[i])
    ensures var head := "https://" + host + path;
      head[0] == 'h' && forall i :: 0 <= i < |head| ==> !IsUnsafeUrlChar(head[i])
  {
    var head := "https://" + host + path;
    forall i | 0 <= i < |head|
      ensures !IsUnsafeUrlChar(head[i])
    {
      if i >= 8 + |host| {
        assert head[i] == path[i - 8 - |host|];
      } else if i >= 8 {
        assert head[i] == host[i - 8];
      }
    }
  }
}
