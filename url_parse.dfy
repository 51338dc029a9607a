/**
 * The part of Python's `urllib.parse.urlparse` the extractor reads: the
 * scheme and the network location (`netloc`). This is a simplified statement
 * of the library's splitting rule, not its full behaviour:
 *   - the scheme is the text before the first ':' when that text is non-empty,
 *     starts with an ASCII letter and consists only of letters, digits, '+',
 *     '-' and '.'; it is lower-cased. Otherwise there is no scheme.
 *   - the netloc exists only when the text after the scheme starts with "//";
 *     it runs from there up to the next '/', '?' or '#', or to the end.
 */
module UrlParse {
  import opened Wrappers
  import opened StringOps

  predicate IsSchemeChar(c: char) {
    IsAsciiLetter(c) || IsAsciiDigit(c) || c == '+' || c == '-' || c == '.'
  }

  /** Index of the first `c` in `s`, if any. */
  function IndexOf(s: string, c: char): (r: Option<nat>)
    ensures r.None? <==> c !in s
    ensures r.Some? ==> r.value < |s| && s[r.value] == c && c !in s[..r.value]
  {
    if s == [] then None
    else if s[0] == c then Some(0)
    else match IndexOf(s[1..], c)
      case None => None
      case Some(i) => Some(i + 1)
  }

  /** Index of the first character of `s` that is one of '/', '?', '#', or `|s|`. */
  function NetlocEnd(s: string): (n: nat)
    ensures n <= |s|
    ensures forall k :: 0 <= k < n ==> s[k] !in "/?#"
    ensures n < |s| ==> s[n] in "/?#"
  {
    if s == [] || s[0] in "/?#" then 0 else 1 + NetlocEnd(s[1..])
  }

  /** Whether `s` (the text before the first ':') is accepted as a scheme. */
  predicate ValidScheme(s: string) {
    s != [] && IsAsciiLetter(s[0]) && forall k :: 0 <= k < |s| ==> IsSchemeChar(s[k])
  }

  /** Splits off the scheme: (lower-cased scheme, remainder after ':'), or ("", url). */
  function SplitScheme(url: string): (r: (string, string))
  {
    match IndexOf(url, ':')
    case Some(i) =>
      if ValidScheme(url[..i]) then (Lower(url[..i]), url[i + 1..]) else ("", url)
    case None => ("", url)
  }

  /** `urlparse(url).scheme`. */
  function Scheme(url: string): string {
    SplitScheme(url).0
  }

  /** `urlparse(url).netloc`. */
  function Netloc(url: string): string {
    var rest := SplitScheme(url).1;
    if StartsWith(rest, "//") then rest[2..2 + NetlocEnd(rest[2..])] else ""
  }

  // ---------------------------------------------------------------------------
  // Properties of the splitting rule
  // ---------------------------------------------------------------------------

  /** A valid scheme followed by ':' is split off, lower-cased, from what follows. */
  lemma SplitSchemeAssembled(scheme: string, after: string)
    requires ValidScheme(scheme)
    ensures SplitScheme(scheme + ":" + after) == (Lower(scheme), after)
  {
    assert ':' !in scheme;
    var url := scheme + ":" + after;
    IndexOfAppend(scheme, ":" + after, ':');
    assert url == scheme + (":" + after);
    assert url[..|scheme|] == scheme;
    assert url[|scheme| + 1..] == after;
  }

  /**
   * Parsing recovers the parts a URL was assembled from: for a valid scheme
   * written in lower case, a host free of '/', '?' and '#', and a tail that
   * is empty or starts with one of them, the scheme and the host come back.
   */
  lemma ParseAssembled(scheme: string, host: string, tail: string)
    requires ValidScheme(scheme) && Lower(scheme) == scheme
    requires forall k :: 0 <= k < |host| ==> host[k] !in "/?#"
    requires tail == [] || tail[0] in "/?#"
    ensures Scheme(scheme + "://" + host + tail) == scheme
    ensures Netloc(scheme + "://" + host + tail) == host
  {
    var after := "//" + host + tail;
    Reassociate(scheme, host, tail);
    SplitSchemeAssembled(scheme, after);
    NetlocOfAuthority(host, tail);
  }

  lemma Reassociate(scheme: string, host: string, tail: string)
    ensures scheme + "://" + host + tail == scheme + ":" + ("//" + host + tail)
  {
  }

  /** After the scheme's ':', "//" then the host then a tail starting a path, query or fragment. */
  lemma NetlocOfAuthority(host: string, tail: string)
    requires forall k :: 0 <= k < |host| ==> host[k] !in "/?#"
    requires tail == [] || tail[0] in "/?#"
    ensures var rest := "//" + host + tail;
      StartsWith(rest, "//") && rest[2..2 + NetlocEnd(rest[2..])] == host
  {
    var rest := "//" + host + tail;
    assert rest[2..] == host + tail;
    NetlocEndAppend(host, tail);
    assert (host + tail)[..|host|] == host;
  }

  lemma {:induction false} IndexOfAppend(a: string, b: string, c: char)
    requires c !in a && c in b
    ensures IndexOf(a + b, c) == Some(|a| + IndexOf(b, c).value)
  {
    if a != [] {
      assert (a + b)[1..] == a[1..] + b;
      IndexOfAppend(a[1..], b, c);
    } else {
      assert a + b == b;
    }
  }

  lemma {:induction false} NetlocEndAppend(host: string, tail: string)
    requires forall k :: 0 <= k < |host| ==> host[k] !in "/?#"
    requires tail == [] || tail[0] in "/?#"
    ensures NetlocEnd(host + tail) == |host|
  {
    if host == [] {
      assert host + tail == tail;
    } else {
      assert (host + tail)[1..] == host[1..] + tail;
      NetlocEndAppend(host[1..], tail);
    }
  }

  /** Without "//" anywhere in the URL there is no netloc. */
  lemma NoDoubleSlashNoNetloc(url: string)
    requires !Contains(url, "//")
    ensures Netloc(url) == ""
  {
    var rest := SplitScheme(url).1;
    if StartsWith(rest, "//") {
      var off := |url| - |rest|;
      assert url[off..] == rest;
      assert url[off..off + 2] == "//";
      ContainsAt(url, "//", off);
    }
  }
}
