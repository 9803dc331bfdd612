/**
  The dispatch key of an episode URL: the last two dot-separated labels of the
  URL's network location ("spinitron.com" for
  "https://sub.spinitron.com/WZBC/pl/50067/7DayWknd").
 */
module Retrieval {
  import opened Text

  // ---------------------------------------------------------------------------
  // The network location, as urllib.parse.urlsplit finds it
  // ---------------------------------------------------------------------------

  /** The characters a URL scheme may contain: ASCII letters, digits, '+', '-' and '.'. */
  predicate IsSchemeChar(c: char) {
    'a' <= c <= 'z' || 'A' <= c <= 'Z' || '0' <= c <= '9' || c == '+' || c == '-' || c == '.'
  }

  /** A scheme: an ASCII letter followed by scheme characters. */
  predicate IsScheme(s: string) {
    |s| > 0 && ('a' <= s[0] <= 'z' || 'A' <= s[0] <= 'Z')
    && forall i :: 0 <= i < |s| ==> IsSchemeChar(s[i])
  }

  predicate IsDelimiter(c: char) {
    c == '/' || c == '?' || c == '#'
  }

  /** The length of the colon-free prefix of `s`, which is `|s|` when `s` has no ':'. */
  function ColonIndex(s: string): (i: nat)
    ensures i <= |s|
    ensures forall k :: 0 <= k < i ==> s[k] != ':'
    ensures i < |s| ==> s[i] == ':'
  {
    if s == [] || s[0] == ':' then 0 else 1 + ColonIndex(s[1..])
  }

  /** What is left once a scheme and its ':' are removed: the whole URL when it has no scheme. */
  function AfterScheme(url: string): (rest: string)
    ensures |rest| <= |url| && rest == url[|url| - |rest|..]
  {
    var i := ColonIndex(url);
    if 0 < i < |url| && IsScheme(url[..i]) then url[i + 1..] else url
  }

  /** The text of `s` up to its first '/', '?' or '#'. */
  function UpToDelimiter(s: string): (r: string)
    ensures |r| <= |s| && r == s[..|r|]
    ensures forall k :: 0 <= k < |r| ==> !IsDelimiter(r[k])
    ensures |r| < |s| ==> IsDelimiter(s[|r|])
  {
    if s == [] || IsDelimiter(s[0]) then [] else [s[0]] + UpToDelimiter(s[1..])
  }

  /** `urlsplit(url).netloc`: after the scheme, a "//" and the text up to the next '/', '?' or '#'. */
  function Netloc(url: string): (r: string)
    ensures forall k :: 0 <= k < |r| ==> !IsDelimiter(r[k])
  {
    var rest := AfterScheme(url);
    if |rest| >= 2 && rest[..2] == "//" then UpToDelimiter(rest[2..]) else ""
  }

  // ---------------------------------------------------------------------------
  // Labels: str.split('.'), [-2:], '.'.join
  // ---------------------------------------------------------------------------

  /** The longest prefix of `s` without `sep`. */
  function Piece(s: string, sep: char): (p: string)
    ensures |p| <= |s| && p == s[..|p|]
    ensures sep !in p
    ensures |p| < |s| ==> s[|p|] == sep
  {
    if s == [] || s[0] == sep then [] else [s[0]] + Piece(s[1..], sep)
  }

  /** `s.split(sep)`: the pieces between the separators; joining them back with `sep` gives `s`. */
  function Split(s: string, sep: char): (parts: seq<string>)
    ensures |parts| >= 1
    ensures forall k :: 0 <= k < |parts| ==> sep !in parts[k]
    ensures Join([sep], parts) == s
    decreases |s|
  {
    var p := Piece(s, sep);
    if |p| == |s| then [s]
    else
      var rest := Split(s[|p| + 1..], sep);
      assert s == p + [sep] + s[|p| + 1..];
      [p] + rest
  }

  /** `parts[-2:]`. */
  function LastTwo<T>(parts: seq<T>): seq<T> {
    if |parts| <= 2 then parts else parts[|parts| - 2..]
  }

  /** True when `s` has at most one '.'. */
  predicate AtMostOneDot(s: string) {
    forall i, j :: 0 <= i < j < |s| && s[i] == '.' ==> s[j] != '.'
  }

  /**
    `'.'.join(host.split('.')[-2:])`: the part of `host` after its
    second-to-last '.', or all of `host` when it has at most one '.'.
   */
  function LastTwoLabels(host: string): (r: string)
    ensures |r| <= |host| && r == host[|host| - |r|..]
    ensures AtMostOneDot(r)
    ensures r == host || ('.' in r && host[|host| - |r| - 1] == '.')
  {
    var parts := Split(host, '.');
    LastTwoLabelsShape(host, parts);
    Join(".", LastTwo(parts))
  }

  lemma LastTwoLabelsShape(host: string, parts: seq<string>)
    requires |parts| >= 1 && forall k :: 0 <= k < |parts| ==> '.' !in parts[k]
    requires Join(['.'], parts) == host
    ensures var r := Join(".", LastTwo(parts));
      |r| <= |host| && r == host[|host| - |r|..] && AtMostOneDot(r)
      && (r == host || ('.' in r && host[|host| - |r| - 1] == '.'))
  {
    assert ['.'] == ".";
    var n := |parts|;
    if n <= 2 {
      OneOrTwoLabels(parts);
    } else {
      var front, back := parts[..n - 2], parts[n - 2..];
      assert parts == front + back;
      JoinAppend(".", front, back);
      OneOrTwoLabels(back);
      var r := Join(".", back);
      assert r == back[0] + "." + back[1];
      assert r[|back[0]|] == '.';
    }
  }

  /** One or two dot-free labels joined by '.' hold at most one '.'. */
  lemma OneOrTwoLabels(parts: seq<string>)
    requires 1 <= |parts| <= 2 && forall k :: 0 <= k < |parts| ==> '.' !in parts[k]
    ensures AtMostOneDot(Join(".", parts))
  {
    if |parts| == 2 {
      var a, b := parts[0], parts[1];
      var s := Join(".", parts);
      assert parts[1..] == [b];
      assert s == a + "." + b;
      assert forall k :: 0 <= k < |a| ==> s[k] == a[k];
      assert forall k :: |a| < k < |s| ==> s[k] == b[k - |a| - 1];
    }
  }

  /** Joining two non-empty lists is joining their joins. */
  lemma {:induction false} JoinAppend(sep: string, a: seq<string>, b: seq<string>)
    requires a != [] && b != []
    ensures Join(sep, a + b) == Join(sep, a) + sep + Join(sep, b)
  {
    if |a| > 1 {
      assert (a + b)[1..] == a[1..] + b;
      JoinAppend(sep, a[1..], b);
    } else {
      assert (a + b)[1..] == b;
    }
  }

  // ---------------------------------------------------------------------------
  // parse_domain
  // ---------------------------------------------------------------------------

  /**
    `parse_domain(url)`: the last two labels of the network location; a URL
    without one is read again with "http://" in front.
   */
  function ParseDomain(url: string): (r: string)
    ensures AtMostOneDot(r)
    ensures forall k :: 0 <= k < |r| ==> !IsDelimiter(r[k])
  {
    var netloc := if Netloc(url) != "" then Netloc(url) else Netloc("http://" + url);
    LastTwoLabels(netloc)
  }
  // ---------------------------------------------------------------------------
  // What parse_domain promises
  // ---------------------------------------------------------------------------

  /** A colon-free prefix followed by ':' ends where that ':' is. */
  lemma ColonIndexOf(p: string, t: string)
    requires ':' !in p
    ensures ColonIndex(p + ":" + t) == |p|
  {
    var s := p + ":" + t;
    assert forall k :: 0 <= k < |p| ==> s[k] == p[k];
    assert s[|p|] == ':';
  }

  /** A delimiter-free prefix followed by a delimiter (or nothing) is read up to that delimiter. */
  lemma {:induction false} UpToDelimiterOf(host: string, rest: string)
    requires forall k :: 0 <= k < |host| ==> !IsDelimiter(host[k])
    requires rest == [] || IsDelimiter(rest[0])
    ensures UpToDelimiter(host + rest) == host
  {
    if host != [] {
      assert (host + rest)[1..] == host[1..] + rest;
      UpToDelimiterOf(host[1..], rest);
    }
  }

  /**
    With a scheme, the network location is the text between "://" and the
    first '/', '?' or '#' after it: the path, query and fragment do not count.
   */
  lemma NetlocWithScheme(scheme: string, host: string, rest: string)
    requires IsScheme(scheme)
    requires forall k :: 0 <= k < |host| ==> !IsDelimiter(host[k])
    requires rest == [] || IsDelimiter(rest[0])
    ensures Netloc(scheme + "://" + host + rest) == host
  {
    var after := "//" + (host + rest);
    SchemeSplit(scheme, host, rest);
    AfterSchemeOf(scheme, after);
    NetlocAfter(scheme + "://" + host + rest, host + rest);
    UpToDelimiterOf(host, rest);
  }

  lemma SchemeSplit(scheme: string, host: string, rest: string)
    ensures scheme + "://" + host + rest == scheme + ":" + ("//" + (host + rest))
  {
  }

  /** When "//" follows the scheme, the network location is read from what comes after it. */
  lemma NetlocAfter(url: string, s: string)
    requires AfterScheme(url) == "//" + s
    ensures Netloc(url) == UpToDelimiter(s)
  {
    assert ("//" + s)[..2] == "//" && ("//" + s)[2..] == s;
  }

  /** A scheme and its ':' are removed. */
  lemma AfterSchemeOf(scheme: string, after: string)
    requires IsScheme(scheme)
    ensures AfterScheme(scheme + ":" + after) == after
  {
    var url := scheme + ":" + after;
    assert ':' !in scheme by {
      assert forall k :: 0 <= k < |scheme| ==> IsSchemeChar(scheme[k]);
    }
    ColonIndexOf(scheme, after);
    assert url[..|scheme|] == scheme;
    assert url[|scheme| + 1..] == after;
  }

  /** Text without '/' has no network location. */
  lemma NetlocWithoutSlash(s: string)
    requires '/' !in s
    ensures Netloc(s) == ""
  {
    var rest := AfterScheme(s);
    if |rest| >= 2 {
      assert rest[0] == s[|s| - |rest|];
    }
  }

  /**
    A URL with a scheme yields the last two labels of its host, whatever
    path, query or fragment follows.
   */
  lemma ParseDomainWithScheme(scheme: string, host: string, rest: string)
    requires IsScheme(scheme) && host != ""
    requires forall k :: 0 <= k < |host| ==> !IsDelimiter(host[k])
    requires rest == [] || IsDelimiter(rest[0])
    ensures ParseDomain(scheme + "://" + host + rest) == LastTwoLabels(host)
  {
    NetlocWithScheme(scheme, host, rest);
  }

  /** A host with no ':' followed by a path, query or fragment has no network location. */
  lemma NetlocWithoutScheme(host: string, rest: string)
    requires host != ""
    requires forall k :: 0 <= k < |host| ==> !IsDelimiter(host[k]) && host[k] != ':'
    requires rest == [] || IsDelimiter(rest[0])
    ensures Netloc(host + rest) == ""
  {
    var url := host + rest;
    var i := ColonIndex(url);
    assert forall k :: 0 <= k < |host| ==> url[k] == host[k];
    assert i >= |host|;
    if i > |host| {
      assert !IsSchemeChar(url[..i][|host|]);
    }
    assert AfterScheme(url) == url;
  }

  /**
    A URL without a scheme yields the last two labels of its host, whatever
    path, query or fragment follows the host.
   */
  lemma ParseDomainWithoutScheme(host: string, rest: string)
    requires host != ""
    requires forall k :: 0 <= k < |host| ==> !IsDelimiter(host[k]) && host[k] != ':'
    requires rest == [] || IsDelimiter(rest[0])
    ensures ParseDomain(host + rest) == LastTwoLabels(host)
  {
    NetlocWithoutScheme(host, rest);
    NetlocWithHttp(host, rest);
    ParseDomainReparsed(host + rest);
  }

  /** With "http://" in front, the host is the network location. */
  lemma NetlocWithHttp(host: string, rest: string)
    requires forall k :: 0 <= k < |host| ==> !IsDelimiter(host[k])
    requires rest == [] || IsDelimiter(rest[0])
    ensures Netloc("http://" + (host + rest)) == host
  {
    HttpPrefix(host, rest);
    NetlocWithScheme("http", host, rest);
  }

  /**
    A URL in which no network location is found, but which starts with a
    non-empty host, gives the same domain as the same URL with "http://" in
    front: a port or userinfo in that host is kept either way.
   */
  lemma ParseDomainSchemeDefault(url: string)
    requires Netloc(url) == "" && UpToDelimiter(url) != ""
    ensures ParseDomain(url) == ParseDomain("http://" + url)
  {
    var h := UpToDelimiter(url);
    var rest := url[|h|..];
    UpToDelimiterSplit(url);
    NetlocWithHttp(h, rest);
    ParseDomainReparsed(url);
    ParseDomainOfNetloc("http://" + url);
  }

  /** The text up to the first delimiter, followed by the rest, which starts with that delimiter. */
  lemma UpToDelimiterSplit(s: string)
    ensures var h := UpToDelimiter(s);
      s == h + s[|h|..] && (s[|h|..] == [] || IsDelimiter(s[|h|..][0]))
  {
  }

  /** A URL with a network location is not read again. */
  lemma ParseDomainOfNetloc(url: string)
    requires Netloc(url) != ""
    ensures ParseDomain(url) == LastTwoLabels(Netloc(url))
  {
  }

  /** A scheme-less URL whose host has no ':' gives the same domain as the same URL with "http://" in front. */
  lemma ParseDomainSchemeDefaultOfHost(host: string, rest: string)
    requires host != ""
    requires forall k :: 0 <= k < |host| ==> !IsDelimiter(host[k]) && host[k] != ':'
    requires rest == [] || IsDelimiter(rest[0])
    ensures ParseDomain(host + rest) == ParseDomain("http://" + (host + rest))
  {
    NetlocWithoutScheme(host, rest);
    UpToDelimiterOf(host, rest);
    ParseDomainSchemeDefault(host + rest);
  }

  lemma HttpPrefix(host: string, rest: string)
    ensures IsScheme("http")
    ensures "http://" + (host + rest) == "http" + "://" + host + rest
  {
  }

  lemma ParseDomainReparsed(url: string)
    requires Netloc(url) == ""
    ensures ParseDomain(url) == LastTwoLabels(Netloc("http://" + url))
  {
  }

  /** Text without '/', '?' or '#' is taken as a host: the result is its last two labels. */
  lemma ParseDomainOfHost(s: string)
    requires forall k :: 0 <= k < |s| ==> !IsDelimiter(s[k])
    ensures ParseDomain(s) == LastTwoLabels(s)
  {
    NetlocWithoutSlash(s);
    assert s + [] == s;
    NetlocWithHttp(s, []);
    ParseDomainReparsed(s);
  }

  /** A bare host of one or two labels comes back unchanged. */
  lemma ParseDomainOfPlainHost(s: string)
    requires forall k :: 0 <= k < |s| ==> !IsDelimiter(s[k])
    requires AtMostOneDot(s)
    ensures ParseDomain(s) == s
  {
    ParseDomainOfHost(s);
  }

  /** Applying parse_domain to its own result changes nothing. */
  lemma ParseDomainIdempotent(url: string)
    ensures ParseDomain(ParseDomain(url)) == ParseDomain(url)
  {
    ParseDomainOfPlainHost(ParseDomain(url));
  }

  /** A separator-free prefix followed by the separator is the first piece. */
  lemma PieceOf(a: string, sep: char, b: string)
    requires sep !in a
    ensures Piece(a + [sep] + b, sep) == a
  {
    var s := a + [sep] + b;
    assert forall k :: 0 <= k < |a| ==> s[k] == a[k];
    assert s[|a|] == sep;
  }

  /** Splitting at one separator: the pieces on either side, nothing joined across it. */
  lemma {:induction false} SplitAround(a: string, sep: char, b: string)
    ensures Split(a + [sep] + b, sep) == Split(a, sep) + Split(b, sep)
    decreases |a|
  {
    var s := a + [sep] + b;
    var p := Piece(a, sep);
    if |p| == |a| {
      assert p == a;
      PieceOf(a, sep, b);
      assert s[|a| + 1..] == b;
    } else {
      var tail := a[|p| + 1..];
      assert a == p + [sep] + tail;
      assert s == p + [sep] + (tail + [sep] + b);
      PieceOf(p, sep, tail + [sep] + b);
      assert s[|p| + 1..] == tail + [sep] + b;
      SplitAround(tail, sep, b);
    }
  }

  /** A host of exactly two labels splits into them. */
  lemma SplitTwoLabels(name: string, tld: string)
    requires '.' !in name && '.' !in tld
    ensures Split(name + "." + tld, '.') == [name, tld]
  {
    SplitAround(name, '.', tld);
    assert Piece(name, '.') == name;
    assert Piece(tld, '.') == tld;
  }

  /** A two-label host is kept whole. */
  lemma KeepsTwoLabels(name: string, tld: string)
    requires '.' !in name && '.' !in tld
    ensures LastTwoLabels(name + "." + tld) == name + "." + tld
  {
    SplitTwoLabels(name, tld);
    assert [name, tld][1..] == [tld];
  }

  /** Subdomains are stripped: whatever stands before the last two labels is dropped. */
  lemma StripsSubdomains(sub: string, name: string, tld: string)
    requires '.' !in name && '.' !in tld
    ensures LastTwoLabels(sub + "." + name + "." + tld) == name + "." + tld
  {
    var host := sub + "." + name + "." + tld;
    assert host == sub + ['.'] + (name + "." + tld);
    SplitAround(sub, '.', name + "." + tld);
    SplitTwoLabels(name, tld);
    var parts := Split(sub, '.') + [name, tld];
    assert LastTwo(parts) == [name, tld];
    assert [name, tld][1..] == [tld];
  }

  /** Text without the separator is one piece. */
  lemma SplitOfPiece(p: string, sep: char)
    requires sep !in p
    ensures Split(p, sep) == [p]
  {
  }

  /** `sep.join` is undone by `split(sep)` when no part holds the separator. */
  lemma {:induction false} SplitJoin(parts: seq<string>, sep: char)
    requires parts != []
    requires forall k :: 0 <= k < |parts| ==> sep !in parts[k]
    ensures Split(Join([sep], parts), sep) == parts
  {
    SplitOfPiece(parts[0], sep);
    if |parts| > 1 {
      SplitAround(parts[0], sep, Join([sep], parts[1..]));
      SplitJoin(parts[1..], sep);
    }
  }
}
