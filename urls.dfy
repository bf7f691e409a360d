/** The scheme part of `urllib.parse.urlparse(url)`, as Python 3.11's `urlsplit`
    computes it, followed by `.lower()` (`DataSource.url_scheme`), and the
    `ValueError` `urlsplit` raises for a network location with an unbalanced
    bracket. */
module Urls {
  import opened PyStr

  /** The characters `urlsplit` strips from the front of a URL (C0 controls and space). */
  predicate IsC0OrSpace(c: char) { c as int <= 0x20 }

  /** The characters `urlsplit` deletes wherever they occur. */
  predicate IsUnsafe(c: char) { c == '\t' || c == '\r' || c == '\n' }

  /** `urllib.parse.scheme_chars` */
  predicate IsSchemeChar(c: char)
  {
    IsAsciiLetter(c) || '0' <= c <= '9' || c == '+' || c == '-' || c == '.'
  }

  function LStripC0(s: string): (r: string)
    ensures r == [] || !IsC0OrSpace(r[0])
    ensures |r| <= |s| && r == s[|s| - |r|..]
  {
    if s != [] && IsC0OrSpace(s[0]) then LStripC0(s[1..]) else s
  }

  function RemoveUnsafe(s: string): (r: string)
    ensures forall j :: 0 <= j < |r| ==> !IsUnsafe(r[j])
    ensures forall j :: 0 <= j < |r| ==> r[j] in s
  {
    if s == [] then [] else (if IsUnsafe(s[0]) then [] else [s[0]]) + RemoveUnsafe(s[1..])
  }

  /** The index of the first `:` in `s`, or -1. */
  function IndexOfColon(s: string): (i: int)
    ensures -1 <= i < |s|
    ensures i >= 0 ==> s[i] == ':' && forall j :: 0 <= j < i ==> s[j] != ':'
    ensures i < 0 ==> forall j :: 0 <= j < |s| ==> s[j] != ':'
  {
    if s == [] then -1
    else if s[0] == ':' then 0
    else
      var j := IndexOfColon(s[1..]);
      if j < 0 then -1 else j + 1
  }

  predicate IsScheme(s: string)
  {
    s != [] && IsAsciiLetter(s[0]) && forall j :: 0 <= j < |s| ==> IsSchemeChar(s[j])
  }

  /** The URL as `urlsplit` scans it: leading C0 controls and spaces
      stripped, tabs and line breaks removed. */
  function Cleaned(url: string): (u: string)
    ensures forall j :: 0 <= j < |u| ==> u[j] in url
  {
    var s := LStripC0(url);
    assert forall j :: 0 <= j < |s| ==> s[j] == url[|url| - |s| + j];
    RemoveUnsafe(s)
  }

  /** The index of the first `/`, `?` or `#` of `s` at or after `k`, or `|s|`:
      where `_splitnetloc` ends the network location. */
  function NetlocEnd(s: string, k: nat): (e: nat)
    requires k <= |s|
    ensures k <= e <= |s|
    ensures forall j :: k <= j < e ==> s[j] != '/' && s[j] != '?' && s[j] != '#'
    ensures e < |s| ==> s[e] == '/' || s[e] == '?' || s[e] == '#'
    decreases |s| - k
  {
    if k == |s| then k
    else if s[k] == '/' || s[k] == '?' || s[k] == '#' then k
    else NetlocEnd(s, k + 1)
  }

  /** The network location of what follows the scheme, when it starts with `//`. */
  function Netloc(rest: string): (netloc: string)
    requires StartsWith(rest, "//")
    ensures forall j :: 0 <= j < |netloc| ==> netloc[j] in rest
    ensures forall j :: 0 <= j < |netloc| ==> netloc[j] != '/' && netloc[j] != '?' && netloc[j] != '#'
  {
    rest[2..NetlocEnd(rest, 2)]
  }

  /** `urlsplit` raises `ValueError("Invalid IPv6 URL")` when the network
      location holds a `[` and no `]`, or a `]` and no `[`. */
  predicate UnbalancedNetloc(rest: string)
  {
    StartsWith(rest, "//") && (('[' in Netloc(rest)) != (']' in Netloc(rest)))
  }

  /** What `urlparse(url).scheme.lower()` yields: the scheme, or the
      `ValueError` `urlsplit` raises. */
  datatype SchemeResult = Scheme(value: string) | InvalidUrl

  /** `urlparse(url).scheme.lower()`: the text before the first `:` when it is a
      scheme (a letter, then letters, digits, `+`, `-` or `.`), lower-cased,
      otherwise the empty string; a `ValueError` when what follows the scheme
      starts with `//` and its network location has an unbalanced bracket. */
  function UrlScheme(url: string): (r: SchemeResult)
    ensures r.Scheme? ==> forall j :: 0 <= j < |r.value| ==> IsSchemeChar(r.value[j]) && !IsAsciiUpper(r.value[j])
    ensures r.InvalidUrl? ==> '[' in url || ']' in url
  {
    var u := Cleaned(url);
    var i := IndexOfColon(u);
    var hasScheme := i > 0 && IsScheme(u[..i]);
    var rest := if hasScheme then u[i + 1..] else u;
    if UnbalancedNetloc(rest) then
      assert '[' in Netloc(rest) || ']' in Netloc(rest);
      InvalidUrl
    else if hasScheme then
      LowerKeepsSchemeChars(u[..i]);
      Scheme(Lower(u[..i]))
    else Scheme("")
  }

  lemma LowerKeepsSchemeChars(s: string)
    requires forall j :: 0 <= j < |s| ==> IsSchemeChar(s[j])
    ensures forall j :: 0 <= j < |Lower(s)| ==> IsSchemeChar(Lower(s)[j]) && !IsAsciiUpper(Lower(s)[j])
  {
  }

  lemma RemoveUnsafeAppend(a: string, b: string)
    ensures RemoveUnsafe(a + b) == RemoveUnsafe(a) + RemoveUnsafe(b)
  {
    if a == [] {
      assert a + b == b;
    } else {
      assert (a + b)[1..] == a[1..] + b;
      assert (a + b)[0] == a[0];
      RemoveUnsafeAppend(a[1..], b);
    }
  }

  lemma {:induction false} RemoveUnsafeKeepsSafe(s: string)
    requires forall j :: 0 <= j < |s| ==> !IsUnsafe(s[j])
    ensures RemoveUnsafe(s) == s
  {
    if s != [] {
      RemoveUnsafeKeepsSafe(s[1..]);
      assert s == [s[0]] + s[1..];
    }
  }

  lemma RemoveUnsafeAddsNoColon(s: string)
    requires forall j :: 0 <= j < |s| ==> s[j] != ':'
    ensures forall j :: 0 <= j < |RemoveUnsafe(s)| ==> RemoveUnsafe(s)[j] != ':'
  {
    if s != [] {
      RemoveUnsafeAddsNoColon(s[1..]);
    }
  }

  /** Stripping and removing leave a `scheme:rest` URL starting as it did. */
  lemma CleanedComposedUrl(scheme: string, rest: string)
    requires IsScheme(scheme)
    ensures RemoveUnsafe(LStripC0(scheme + ":" + rest)) == scheme + ":" + RemoveUnsafe(rest)
  {
    var url := scheme + ":" + rest;
    assert url[0] == scheme[0];
    assert LStripC0(url) == url;
    RemoveUnsafeAppend(scheme + ":", rest);
    RemoveUnsafeAppend(scheme, ":");
    RemoveUnsafeKeepsSafe(scheme);
  }

  /** The first colon of `scheme:tail` is the one after the scheme. */
  lemma ColonAfterScheme(scheme: string, tail: string)
    requires IsScheme(scheme)
    ensures IndexOfColon(scheme + ":" + tail) == |scheme|
    ensures (scheme + ":" + tail)[..|scheme|] == scheme
  {
    var u := scheme + ":" + tail;
    assert u[|scheme|] == ':';
    assert forall j :: 0 <= j < |scheme| ==> u[j] == scheme[j];
    var i := IndexOfColon(u);
    assert !(i < |scheme|) && !(i > |scheme|);
  }

  /** A URL written `scheme:rest` has that scheme, lower-cased, unless `rest`
      starts a network location with an unbalanced bracket, which raises. */
  lemma {:induction false} SchemeOfComposedUrl(scheme: string, rest: string)
    requires IsScheme(scheme)
    ensures UrlScheme(scheme + ":" + rest)
            == if UnbalancedNetloc(RemoveUnsafe(rest)) then InvalidUrl else Scheme(Lower(scheme))
  {
    CleanedComposedUrl(scheme, rest);
    var u := scheme + ":" + RemoveUnsafe(rest);
    ColonAfterScheme(scheme, RemoveUnsafe(rest));
    assert u[|scheme| + 1..] == RemoveUnsafe(rest);
  }

  /** A URL without any `:` (a plain path) has the empty scheme, unless it
      starts a network location with an unbalanced bracket, which raises. */
  lemma NoColonNoScheme(url: string)
    requires forall j :: 0 <= j < |url| ==> url[j] != ':'
    ensures UrlScheme(url) == if UnbalancedNetloc(Cleaned(url)) then InvalidUrl else Scheme("")
  {
    var s := LStripC0(url);
    assert forall j :: 0 <= j < |s| ==> s[j] == url[|url| - |s| + j];
    RemoveUnsafeAddsNoColon(s);
  }

  /** Text with no `]`, no delimiter of the network location, no colon and
      nothing `urlsplit` removes. */
  predicate PlainHost(h: string)
  {
    forall j :: 0 <= j < |h| ==>
      h[j] != ']' && h[j] != '/' && h[j] != '?' && h[j] != '#' && h[j] != ':' && !IsUnsafe(h[j])
  }

  lemma {:induction false} NetlocEndNone(s: string, k: nat)
    requires k <= |s|
    requires forall j :: k <= j < |s| ==> s[j] != '/' && s[j] != '?' && s[j] != '#'
    ensures NetlocEnd(s, k) == |s|
    decreases |s| - k
  {
    if k < |s| {
      NetlocEndNone(s, k + 1);
    }
  }

  lemma NetlocOfUnclosed(h: string)
    requires PlainHost(h)
    ensures StartsWith("//[" + h, "//") && Netloc("//[" + h) == "[" + h
    ensures UnbalancedNetloc("//[" + h)
    ensures forall j :: 0 <= j < |"//[" + h| ==> ("//[" + h)[j] != ':' && !IsUnsafe(("//[" + h)[j])
  {
    var s := "//[" + h;
    assert s[..2] == "//";
    NetlocEndNone(s, 2);
    assert s[2..] == "[" + h;
    assert ("[" + h)[0] == '[';
    assert ']' !in "[" + h by {
      forall j | 0 <= j < |"[" + h| ensures ("[" + h)[j] != ']' {
        if j > 0 { assert ("[" + h)[j] == h[j - 1]; }
      }
    }
  }

  /** An opening bracket that is never closed makes `urlparse` raise, with
      the `file` scheme or without one: `file://[x` and `//[x` both raise. */
  lemma UnclosedBracketRaises(h: string)
    requires PlainHost(h)
    ensures UrlScheme("file://[" + h) == InvalidUrl
    ensures UrlScheme("//[" + h) == InvalidUrl
  {
    assert IsScheme("file");
    assert "file" + "://[" == "file://[";
    SchemeUrlWithUnclosedBracket("file", h);
    BarePathWithUnclosedBracket(h);
  }

  /** With any scheme, an unclosed bracket after `//` makes `urlparse` raise. */
  lemma SchemeUrlWithUnclosedBracket(scheme: string, h: string)
    requires IsScheme(scheme) && PlainHost(h)
    ensures UrlScheme(scheme + "://[" + h) == InvalidUrl
  {
    var rest := "//[" + h;
    NetlocOfUnclosed(h);
    RemoveUnsafeKeepsSafe(rest);
    assert scheme + "://[" + h == scheme + ":" + rest;
    SchemeOfComposedUrl(scheme, rest);
  }

  lemma BarePathWithUnclosedBracket(h: string)
    requires PlainHost(h)
    ensures UrlScheme("//[" + h) == InvalidUrl
  {
    var rest := "//[" + h;
    NetlocOfUnclosed(h);
    CleanedUnchanged(rest);
    NoColonNoScheme(rest);
  }

  /** A URL without leading controls, spaces, tabs or line breaks is scanned as it is. */
  lemma CleanedUnchanged(url: string)
    requires url != [] && !IsC0OrSpace(url[0])
    requires forall j :: 0 <= j < |url| ==> !IsUnsafe(url[j])
    ensures Cleaned(url) == url
  {
    RemoveUnsafeKeepsSafe(url);
  }
}
