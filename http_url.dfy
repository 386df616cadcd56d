/**
 * `new URL(s)` for the two schemes the extractor accepts, `http` and `https`,
 * following the basic URL parser of the WHATWG URL Standard (section 4.4)
 * as far as it decides two things: whether the text is a URL at all (a
 * failure is the TypeError `new URL` throws) and which query it has.
 */
module HttpUrl {
  import opened Wrappers
  import Utf8
  import FormUrlEncoded

  datatype Url = Url(host: string, port: Option<nat>, query: Option<string>)

  /** C0 controls and space, removed from both ends of the input. */
  predicate IsC0ControlOrSpace(c: char)
  {
    c as int <= 0x20
  }

  predicate IsTabOrNewline(c: char)
  {
    c == '\t' || c == '\n' || c == '\r'
  }

  function StripC0ControlOrSpace(s: string): (r: string)
    ensures |r| <= |s|
    ensures r == [] || (!IsC0ControlOrSpace(r[0]) && !IsC0ControlOrSpace(r[|r| - 1]))
    decreases |s|
  {
    if s == [] then []
    else if IsC0ControlOrSpace(s[0]) then StripC0ControlOrSpace(s[1..])
    else if IsC0ControlOrSpace(s[|s| - 1]) then StripC0ControlOrSpace(s[..|s| - 1])
    else s
  }

  function RemoveTabOrNewline(s: string): (r: string)
    ensures |r| <= |s|
    ensures forall i | 0 <= i < |r| :: !IsTabOrNewline(r[i])
  {
    if s == [] then []
    else (if IsTabOrNewline(s[0]) then [] else [s[0]]) + RemoveTabOrNewline(s[1..])
  }

  /** The input as the parser reads it. */
  function Prepared(s: string): string
  {
    RemoveTabOrNewline(StripC0ControlOrSpace(s))
  }

  /** The index of the first character of `s` in `stops`, or `|s|`. */
  function Find(s: string, stops: set<char>): (i: nat)
    ensures i <= |s| && (i < |s| ==> s[i] in stops)
    ensures forall j | 0 <= j < i :: s[j] !in stops
  {
    if s == [] || s[0] in stops then 0 else 1 + Find(s[1..], stops)
  }

  /** The part of `s` after its last `c`, or all of `s`. */
  function AfterLast(s: string, c: char): (r: string)
    ensures |r| <= |s| && c !in r
    decreases |s|
  {
    if s == [] then []
    else if s[|s| - 1] == c then []
    else AfterLast(s[..|s| - 1], c) + [s[|s| - 1]]
  }

  /** Code points a domain may not contain, after its percent-decoding. */
  predicate IsForbiddenDomainCodePoint(c: char)
  {
    || c as int <= 0x20 || c as int == 0x7F
    || c in {'#', '%', '/', ':', '<', '>', '?', '@', '[', '\\', ']', '^', '|'}
  }

  predicate IsAsciiDigit(c: char)
  {
    '0' <= c <= '9'
  }

  function DigitsValue(s: string): nat
    requires forall i | 0 <= i < |s| :: IsAsciiDigit(s[i])
    decreases |s|
  {
    if s == [] then 0
    else
      assert IsAsciiDigit(s[|s| - 1]);
      DigitsValue(s[..|s| - 1]) * 10 + (s[|s| - 1] as int - '0' as int)
  }

  /** The host parser for a special URL: percent-decode, decode UTF-8, and
      refuse forbidden domain code points. */
  function ParseHost(h: string): (r: Option<string>)
    ensures r.Some? ==> forall i | 0 <= i < |r.value| :: !IsForbiddenDomainCodePoint(r.value[i])
  {
    var domain := Utf8.DecodeLossy(FormUrlEncoded.PercentDecode(Utf8.EncodeString(h)));
    if exists i | 0 <= i < |domain| :: IsForbiddenDomainCodePoint(domain[i]) then None else Some(domain)
  }

  /** The port a special scheme implies: 443 for `https`, 80 for `http`. */
  function DefaultPort(secure: bool): nat
  {
    if secure then 443 else 80
  }

  /** The port the parser records: the scheme's default port is recorded as no port. */
  function EffectivePort(secure: bool, port: Option<nat>): (r: Option<nat>)
    ensures r.Some? ==> port == r && r.value != DefaultPort(secure)
    ensures port.Some? && port.value != DefaultPort(secure) ==> r == port
  {
    if port == Some(DefaultPort(secure)) then None else port
  }

  /** The port state: digits only; empty for no port; at most 65535. */
  function ParsePort(p: string): (r: Result<Option<nat>, ()>)
    ensures r.Ok? && r.value.Some? ==> r.value.value <= 65535
  {
    if p == [] then Ok(None)
    else if !(forall i | 0 <= i < |p| :: IsAsciiDigit(p[i])) then Err(())
    else if DigitsValue(p) > 65535 then Err(())
    else Ok(Some(DigitsValue(p)))
  }

  function SkipSlashes(s: string): (r: string)
    ensures |r| <= |s| && r == s[|s| - |r|..]
  {
    if s != [] && (s[0] == '/' || s[0] == '\\') then SkipSlashes(s[1..]) else s
  }

  const AuthorityEnd: set<char> := {'/', '\\', '?', '#'}

  /** The query of what follows the authority: the text after the first `?`
      that comes before the first `#`. */
  function QueryOf(rest: string): (q: Option<string>)
    ensures q.Some? ==> '#' !in q.value
  {
    var beforeFragment := rest[..Find(rest, {'#'})];
    var i := Find(beforeFragment, {'?'});
    if i < |beforeFragment| then Some(beforeFragment[i + 1..]) else None
  }

  /** The length of the scheme and its colon, `http:` or `https:`; 0 for any other scheme. */
  function SchemeLength(p: string): (n: nat)
    ensures n <= |p|
  {
    if |p| >= 5 && p[..5] == "http:" then 5 else if |p| >= 6 && p[..6] == "https:" then 6 else 0
  }

  /** The authority state: user information up to the last `@` is dropped,
      and what remains is a non-empty host and an optional port. */
  function ParseAuthority(authority: string): (r: Option<(string, Option<nat>)>)
    ensures r.Some? ==> r.value.0 != []
    ensures r.Some? ==> forall i | 0 <= i < |r.value.0| :: !IsForbiddenDomainCodePoint(r.value.0[i])
    ensures r.Some? && r.value.1.Some? ==> r.value.1.value <= 65535
  {
    var hostAndPort := AfterLast(authority, '@');
    if '@' in authority && hostAndPort == [] then None
    else
      var colon := Find(hostAndPort, {':'});
      var hostText := hostAndPort[..colon];
      var portText := if colon < |hostAndPort| then hostAndPort[colon + 1..] else [];
      if hostText == [] then None
      else match (ParseHost(hostText), ParsePort(portText))
        case (Some(host), Ok(port)) => if host == [] then None else Some((host, port))
        case _ => None
  }

  /** `new URL(s)` when `s` has scheme `http` or `https`; `None` is failure. */
  function ParseHttpUrl(s: string): (r: Option<Url>)
    ensures r.Some? ==> r.value.host != []
    ensures r.Some? ==> forall i | 0 <= i < |r.value.host| :: !IsForbiddenDomainCodePoint(r.value.host[i])
    ensures r.Some? && r.value.port.Some? ==> r.value.port.value <= 65535
    ensures r.Some? && r.value.query.Some? ==> '#' !in r.value.query.value
  {
    var p := Prepared(s);
    var schemeEnd := SchemeLength(p);
    if schemeEnd == 0 then None
    else
      var afterSlashes := SkipSlashes(p[schemeEnd..]);
      var authorityLength := Find(afterSlashes, AuthorityEnd);
      match ParseAuthority(afterSlashes[..authorityLength])
      case None => None
      case Some((host, port)) => Some(Url(host, EffectivePort(schemeEnd == 6, port), QueryOf(afterSlashes[authorityLength..])))
  }

  // ---------------------------------------------------------------------
  // URLs as a provider writes them

  /** Printable ASCII other than `#`: what a query may hold as it is. */
  predicate IsPlainQueryChar(c: char)
  {
    0x21 <= c as int <= 0x7E && c != '#'
  }

  predicate IsPlainPathChar(c: char)
  {
    IsPlainQueryChar(c) && c != '?'
  }

  /** The characters of an ASCII domain name. */
  predicate IsPlainHostChar(c: char)
  {
    ('a' <= c <= 'z') || ('A' <= c <= 'Z') || ('0' <= c <= '9') || c == '-' || c == '.'
  }

  /** What an authority written from a plain host and a port holds. */
  predicate IsAuthorityChar(c: char)
  {
    IsPlainHostChar(c) || c == ':'
  }

  /** A host, a port of at most 65535, a path and a query as plain text. */
  predicate IsPlainUrl(host: string, port: Option<nat>, path: string, query: Option<string>)
  {
    && host != [] && (forall i | 0 <= i < |host| :: IsPlainHostChar(host[i]))
    && (port.Some? ==> port.value <= 65535)
    && (path == [] || path[0] == '/') && (forall i | 0 <= i < |path| :: IsPlainPathChar(path[i]))
    && (query.Some? ==> forall i | 0 <= i < |query.value| :: IsPlainQueryChar(query.value[i]))
  }

  function SchemePrefix(secure: bool): string
  {
    if secure then "https://" else "http://"
  }

  function QuerySuffix(query: Option<string>): string
  {
    if query.Some? then "?" + query.value else []
  }

  function DigitChar(d: nat): (c: char)
    requires d < 10
    ensures IsAsciiDigit(c) && c as int - '0' as int == d
  {
    ('0' as int + d) as char
  }

  /** The decimal numeral of `n`, without leading zeros. */
  function DecimalText(n: nat): (s: string)
    ensures s != [] && forall i | 0 <= i < |s| :: IsAsciiDigit(s[i])
  {
    if n < 10 then [DigitChar(n)] else DecimalText(n / 10) + [DigitChar(n % 10)]
  }

  function PortSuffix(port: Option<nat>): string
  {
    if port.Some? then ":" + DecimalText(port.value) else []
  }

  function Authority(host: string, port: Option<nat>): string
  {
    host + PortSuffix(port)
  }

  /** `http[s]://host[:port]/path?query`, with no user information or fragment. */
  function UrlText(secure: bool, host: string, port: Option<nat>, path: string, query: Option<string>): string
  {
    SchemePrefix(secure) + Authority(host, port) + path + QuerySuffix(query)
  }

  /** The numeral of a number is read back as that number. */
  lemma {:induction false} DecimalTextValue(n: nat)
    ensures DigitsValue(DecimalText(n)) == n
  {
    if n >= 10 {
      var s := DecimalText(n);
      DecimalTextValue(n / 10);
      assert s[..|s| - 1] == DecimalText(n / 10);
    }
  }

  /** An authority written from a plain host and a port holds host characters and colons only. */
  lemma AuthorityChars(host: string, port: Option<nat>)
    requires forall i | 0 <= i < |host| :: IsPlainHostChar(host[i])
    ensures var a := Authority(host, port); forall i | 0 <= i < |a| :: IsAuthorityChar(a[i])
  {
    var a := Authority(host, port);
    forall i | 0 <= i < |a| ensures IsAuthorityChar(a[i]) {
      if i < |host| {
        assert a[i] == host[i];
      } else if i > |host| {
        assert a[i] == DecimalText(port.value)[i - |host| - 1];
      }
    }
  }

  /** The port text of a plain authority is parsed back to its port. */
  lemma ParsePortText(port: Option<nat>)
    requires port.Some? ==> port.value <= 65535
    ensures ParsePort(if port.Some? then DecimalText(port.value) else []) == Ok(port)
  {
    if port.Some? {
      DecimalTextValue(port.value);
    }
  }

  lemma {:induction false} RemoveNoTabOrNewline(s: string)
    requires forall i | 0 <= i < |s| :: !IsTabOrNewline(s[i])
    ensures RemoveTabOrNewline(s) == s
  {
    if s != [] {
      RemoveNoTabOrNewline(s[1..]);
      assert s == [s[0]] + s[1..];
    }
  }

  lemma {:induction false} FindAfter(a: string, b: string, stops: set<char>)
    requires forall i | 0 <= i < |a| :: a[i] !in stops
    requires b == [] || b[0] in stops
    ensures Find(a + b, stops) == |a|
  {
    if a != [] {
      assert (a + b)[1..] == a[1..] + b;
      FindAfter(a[1..], b, stops);
    } else {
      assert a + b == b;
    }
  }

  lemma {:induction false} AfterLastAbsent(s: string, c: char)
    requires c !in s
    ensures AfterLast(s, c) == s
  {
    if s != [] {
      AfterLastAbsent(s[..|s| - 1], c);
      assert s == s[..|s| - 1] + [s[|s| - 1]];
    }
  }

  /** A plain host is its own host. */
  lemma ParsePlainHost(h: string)
    requires forall i | 0 <= i < |h| :: IsPlainHostChar(h[i])
    ensures ParseHost(h) == Some(h)
  {
    Utf8.EncodeAsciiString(h);
    var bs := Utf8.EncodeString(h);
    assert FormUrlEncoded.PercentSign !in bs by {
      forall i | 0 <= i < |bs| ensures bs[i] != FormUrlEncoded.PercentSign {
        assert IsPlainHostChar(h[i]);
      }
    }
    Utf8.DecodeLossyEncodeString(h);
    assert forall i | 0 <= i < |h| :: !IsForbiddenDomainCodePoint(h[i]) by {
      forall i | 0 <= i < |h| ensures !IsForbiddenDomainCodePoint(h[i]) {
        assert IsPlainHostChar(h[i]);
      }
    }
  }

  lemma QueryOfPlain(path: string, query: Option<string>)
    requires forall i | 0 <= i < |path| :: IsPlainPathChar(path[i])
    requires query.Some? ==> forall i | 0 <= i < |query.value| :: IsPlainQueryChar(query.value[i])
    ensures QueryOf(path + QuerySuffix(query)) == query
  {
    var rest := path + QuerySuffix(query);
    var suffix := QuerySuffix(query);
    assert forall i | 0 <= i < |rest| :: rest[i] !in {'#'} by {
      forall i | 0 <= i < |rest| ensures rest[i] !in {'#'} {
        if i < |path| {
          assert rest[i] == path[i];
        } else if i > |path| {
          assert rest[i] == query.value[i - |path| - 1];
        }
      }
    }
    FindAfter(rest, [], {'#'});
    assert rest + [] == rest;
    assert rest[..Find(rest, {'#'})] == rest;
    assert suffix == [] || suffix[0] == '?';
    FindAfter(path, suffix, {'?'});
    if query.Some? {
      assert rest[|path| + 1..] == query.value;
    }
  }

  /** What follows the authority of a plain URL is printable and starts with its end. */
  lemma PlainRest(path: string, query: Option<string>)
    requires (path == [] || path[0] == '/') && forall i | 0 <= i < |path| :: IsPlainPathChar(path[i])
    requires query.Some? ==> forall i | 0 <= i < |query.value| :: IsPlainQueryChar(query.value[i])
    ensures var rest := path + QuerySuffix(query);
      IsPrintable(rest) && (rest == [] || rest[0] in AuthorityEnd)
  {
    var rest := path + QuerySuffix(query);
    forall i | 0 <= i < |rest| ensures 0x21 <= rest[i] as int <= 0x7E {
      if i < |path| {
        assert rest[i] == path[i];
      } else if i > |path| {
        assert rest[i] == query.value[i - |path| - 1];
      }
    }
  }

  /** A plain URL is printable ASCII throughout. */
  lemma PlainUrlPrintable(secure: bool, host: string, port: Option<nat>, path: string, query: Option<string>)
    requires IsPlainUrl(host, None, path, query)
    ensures IsPrintable(UrlText(secure, host, port, path, query))
  {
    var a := Authority(host, port);
    var rest := path + QuerySuffix(query);
    assert IsPrintable(a) by {
      AuthorityChars(host, port);
      forall i | 0 <= i < |a| ensures 0x21 <= a[i] as int <= 0x7E {
        assert IsAuthorityChar(a[i]);
      }
    }
    assert IsPrintable(rest) by { PlainRest(path, query); }
    PrintableConcat(a, rest);
    SchemePrefixPrintable(secure);
    PrintableConcat(SchemePrefix(secure), a + rest);
    UrlTextParts(secure, host, port, path, query);
  }

  lemma PlainUrlPrepared(secure: bool, host: string, port: Option<nat>, path: string, query: Option<string>)
    requires IsPlainUrl(host, None, path, query)
    ensures Prepared(UrlText(secure, host, port, path, query)) == UrlText(secure, host, port, path, query)
  {
    var s := UrlText(secure, host, port, path, query);
    PlainUrlPrintable(secure, host, port, path, query);
    PreparedPrintable(s);
  }

  /** The scheme of a plain URL is recognised. */
  lemma PlainUrlScheme(secure: bool, tail: string)
    ensures var s := SchemePrefix(secure) + tail;
      && SchemeLength(s) == (if secure then 6 else 5)
      && s[SchemeLength(s)..] == "//" + tail
  {
    var s := SchemePrefix(secure) + tail;
    if secure {
      assert s[..6] == "https:";
      assert s[4] == 's';
      assert s[6..] == "//" + tail;
    } else {
      assert s[..5] == "http:";
      assert s[5..] == "//" + tail;
    }
  }

  /** The two slashes after the scheme are skipped. */
  lemma SkipTwoSlashes(tail: string)
    requires tail != [] && tail[0] != '/' && tail[0] != '\\'
    ensures SkipSlashes("//" + tail) == tail
  {
    assert SkipSlashes(tail) == tail;
    assert ("/" + tail)[0] == '/' && ("/" + tail)[1..] == tail;
    assert SkipSlashes("/" + tail) == tail;
    assert ("//" + tail)[0] == '/' && ("//" + tail)[1..] == "/" + tail;
  }

  /** The authority of a plain URL ends where its path or query begins. */
  lemma PlainAuthorityEnd(host: string, port: Option<nat>, rest: string)
    requires forall i | 0 <= i < |host| :: IsPlainHostChar(host[i])
    requires rest == [] || rest[0] in AuthorityEnd
    ensures var a := Authority(host, port); var n := Find(a + rest, AuthorityEnd);
      && n == |a| && (a + rest)[..n] == a && (a + rest)[n..] == rest
  {
    var a := Authority(host, port);
    AuthorityChars(host, port);
    assert forall i | 0 <= i < |a| :: a[i] !in AuthorityEnd by {
      forall i | 0 <= i < |a| ensures a[i] !in AuthorityEnd {
        assert IsAuthorityChar(a[i]);
      }
    }
    FindAfter(a, rest, AuthorityEnd);
    assert (a + rest)[..|a|] == a && (a + rest)[|a|..] == rest;
  }

  /** The colon of a plain authority separates its host from its port text. */
  lemma PlainAuthorityColon(host: string, port: Option<nat>)
    requires forall i | 0 <= i < |host| :: IsPlainHostChar(host[i])
    ensures var a := Authority(host, port); var colon := Find(a, {':'});
      && colon == |host| && a[..colon] == host
      && (if colon < |a| then a[colon + 1..] else []) == (if port.Some? then DecimalText(port.value) else [])
  {
    var a := Authority(host, port);
    var suffix := PortSuffix(port);
    assert forall i | 0 <= i < |host| :: host[i] !in {':'} by {
      forall i | 0 <= i < |host| ensures host[i] !in {':'} {
        assert IsPlainHostChar(host[i]);
      }
    }
    assert suffix == [] || suffix[0] in {':'};
    FindAfter(host, suffix, {':'});
    assert a[..|host|] == host;
  }

  /** The authority state on an authority with no `@`, split at its first colon. */
  lemma AuthorityWithoutUser(authority: string, host: string, portText: string, port: Option<nat>)
    requires '@' !in authority && host != []
    requires Find(authority, {':'}) == |host| && authority[..|host|] == host
    requires portText == (if |host| < |authority| then authority[|host| + 1..] else [])
    requires ParseHost(host) == Some(host) && ParsePort(portText) == Ok(port)
    ensures ParseAuthority(authority) == Some((host, port))
  {
    AfterLastAbsent(authority, '@');
  }

  /** The authority of a plain URL is its host and port, without user information. */
  lemma PlainAuthority(host: string, port: Option<nat>)
    requires host != [] && forall i | 0 <= i < |host| :: IsPlainHostChar(host[i])
    requires port.Some? ==> port.value <= 65535
    ensures ParseAuthority(Authority(host, port)) == Some((host, port))
  {
    var a := Authority(host, port);
    var portText := if port.Some? then DecimalText(port.value) else [];
    assert '@' !in a by {
      AuthorityChars(host, port);
      forall i | 0 <= i < |a| ensures a[i] != '@' {
        assert IsAuthorityChar(a[i]);
      }
    }
    assert Find(a, {':'}) == |host| && a[..|host|] == host
      && portText == (if |host| < |a| then a[|host| + 1..] else []) by {
      PlainAuthorityColon(host, port);
    }
    assert ParsePort(portText) == Ok(port) by { ParsePortText(port); }
    assert ParseHost(host) == Some(host) by { ParsePlainHost(host); }
    AuthorityWithoutUser(a, host, portText, port);
  }

  /** The stages of `ParseHttpUrl`, taken one at a time. */
  lemma ParseHttpUrlStages(
    s: string, secure: bool, tail: string, authority: string, host: string, port: Option<nat>,
    rest: string, query: Option<string>)
    requires Prepared(s) == s && SchemeLength(s) == (if secure then 6 else 5) && SkipSlashes(s[SchemeLength(s)..]) == tail
    requires Find(tail, AuthorityEnd) == |authority| && tail[..|authority|] == authority && tail[|authority|..] == rest
    requires ParseAuthority(authority) == Some((host, port)) && QueryOf(rest) == query
    ensures ParseHttpUrl(s) == Some(Url(host, EffectivePort(secure, port), query))
  {
  }

  lemma UrlTextParts(secure: bool, host: string, port: Option<nat>, path: string, query: Option<string>)
    ensures UrlText(secure, host, port, path, query) == SchemePrefix(secure) + (Authority(host, port) + (path + QuerySuffix(query)))
  {
  }

  lemma PlainUrlAuthorityStart(secure: bool, host: string, port: Option<nat>, path: string, query: Option<string>)
    requires IsPlainUrl(host, None, path, query)
    ensures var s := UrlText(secure, host, port, path, query);
      && SchemeLength(s) == (if secure then 6 else 5)
      && SkipSlashes(s[SchemeLength(s)..]) == Authority(host, port) + (path + QuerySuffix(query))
  {
    var s := UrlText(secure, host, port, path, query);
    var tail := Authority(host, port) + (path + QuerySuffix(query));
    assert s == SchemePrefix(secure) + tail by { UrlTextParts(secure, host, port, path, query); }
    assert SchemeLength(s) == (if secure then 6 else 5) && s[SchemeLength(s)..] == "//" + tail by {
      PlainUrlScheme(secure, tail);
    }
    assert tail != [] && tail[0] != '/' && tail[0] != '\\' by {
      assert tail[0] == host[0] && IsPlainHostChar(host[0]);
    }
    assert SkipSlashes("//" + tail) == tail by { SkipTwoSlashes(tail); }
  }

  /** A URL written from a plain host, port, path and query parses back to
      that host and query, and to that port unless it is the scheme's
      default port. */
  lemma ParsePlainUrl(secure: bool, host: string, port: Option<nat>, path: string, query: Option<string>)
    requires IsPlainUrl(host, port, path, query)
    ensures ParseHttpUrl(UrlText(secure, host, port, path, query)) == Some(Url(host, EffectivePort(secure, port), query))
  {
    var a := Authority(host, port);
    var rest := path + QuerySuffix(query);
    var s := UrlText(secure, host, port, path, query);
    assert Prepared(s) == s by {
      PlainUrlPrepared(secure, host, port, path, query);
    }
    assert SchemeLength(s) == (if secure then 6 else 5) && SkipSlashes(s[SchemeLength(s)..]) == a + rest by {
      PlainUrlAuthorityStart(secure, host, port, path, query);
    }
    assert && Find(a + rest, AuthorityEnd) == |a| && (a + rest)[..|a|] == a
           && (a + rest)[|a|..] == rest by {
      PlainAuthorityEnd(host, port, rest);
    }
    assert ParseAuthority(a) == Some((host, port)) by {
      PlainAuthority(host, port);
    }
    assert QueryOf(rest) == query by {
      QueryOfPlain(path, query);
    }
    ParseHttpUrlStages(s, secure, a + rest, a, host, port, rest, query);
  }

  /** Printable ASCII other than space. */
  predicate IsPrintable(s: string)
  {
    forall i | 0 <= i < |s| :: 0x21 <= s[i] as int <= 0x7E
  }

  lemma PrintableConcat(a: string, b: string)
    requires IsPrintable(a) && IsPrintable(b)
    ensures IsPrintable(a + b)
  {
    forall i | 0 <= i < |a + b| ensures 0x21 <= (a + b)[i] as int <= 0x7E {
      if i < |a| {
        assert (a + b)[i] == a[i];
      } else {
        assert (a + b)[i] == b[i - |a|];
      }
    }
  }

  lemma PreparedPrintable(s: string)
    requires IsPrintable(s)
    ensures Prepared(s) == s
  {
    assert StripC0ControlOrSpace(s) == s;
    RemoveNoTabOrNewline(s);
  }

  /** A text whose authority the authority state refuses is not a URL. */
  lemma RejectedAuthority(s: string, tail: string, authority: string)
    requires Prepared(s) == s && SchemeLength(s) != 0 && SkipSlashes(s[SchemeLength(s)..]) == tail
    requires Find(tail, AuthorityEnd) == |authority| && tail[..|authority|] == authority
    requires ParseAuthority(authority) == None
    ensures ParseHttpUrl(s) == None
  {
  }

  /** The authority state refuses a port above 65535. */
  lemma LargePortAuthority(host: string, n: nat)
    requires forall i | 0 <= i < |host| :: IsPlainHostChar(host[i])
    requires n > 65535
    ensures ParseAuthority(Authority(host, Some(n))) == None
  {
    var a := Authority(host, Some(n));
    assert '@' !in a by {
      AuthorityChars(host, Some(n));
      forall i | 0 <= i < |a| ensures a[i] != '@' {
        assert IsAuthorityChar(a[i]);
      }
    }
    AfterLastAbsent(a, '@');
    var colon := Find(a, {':'});
    var portText := if colon < |a| then a[colon + 1..] else [];
    assert colon == |host| && a[..colon] == host && portText == DecimalText(n) by {
      PlainAuthorityColon(host, Some(n));
    }
    assert ParsePort(portText).Err? by { DecimalTextValue(n); }
  }

  /** A port above 65535 makes a plain URL fail to parse. */
  lemma LargePortRejected(secure: bool, host: string, n: nat, path: string, query: Option<string>)
    requires IsPlainUrl(host, None, path, query) && n > 65535
    ensures ParseHttpUrl(UrlText(secure, host, Some(n), path, query)) == None
  {
    var a := Authority(host, Some(n));
    var rest := path + QuerySuffix(query);
    var s := UrlText(secure, host, Some(n), path, query);
    assert Prepared(s) == s by {
      PlainUrlPrepared(secure, host, Some(n), path, query);
    }
    assert SchemeLength(s) == (if secure then 6 else 5) && SkipSlashes(s[SchemeLength(s)..]) == a + rest by {
      PlainUrlAuthorityStart(secure, host, Some(n), path, query);
    }
    assert Find(a + rest, AuthorityEnd) == |a| && (a + rest)[..|a|] == a by {
      PlainAuthorityEnd(host, Some(n), rest);
    }
    assert ParseAuthority(a) == None by {
      LargePortAuthority(host, n);
    }
    RejectedAuthority(s, a + rest, a);
  }

  lemma SchemePrefixPrintable(secure: bool)
    ensures IsPrintable(SchemePrefix(secure))
  {
    var p := SchemePrefix(secure);
    forall i | 0 <= i < |p| ensures 0x21 <= p[i] as int <= 0x7E {
      if secure {
        assert p == "https://";
      } else {
        assert p == "http://";
      }
    }
  }

  /** A printable text after a scheme is read as it is. */
  lemma SchemeTextPrepared(secure: bool, tail: string)
    requires IsPrintable(tail)
    ensures Prepared(SchemePrefix(secure) + tail) == SchemePrefix(secure) + tail
  {
    var p := SchemePrefix(secure);
    SchemePrefixPrintable(secure);
    PrintableConcat(p, tail);
    PreparedPrintable(p + tail);
  }

  /** After a scheme and its two slashes, the authority starts. */
  lemma SchemeThenAuthority(secure: bool, tail: string)
    requires tail == [] || (tail[0] != '/' && tail[0] != '\\')
    ensures var s := SchemePrefix(secure) + tail;
      SchemeLength(s) == (if secure then 6 else 5) && SkipSlashes(s[SchemeLength(s)..]) == tail
  {
    PlainUrlScheme(secure, tail);
    if tail == [] {
      assert SkipSlashes("/") == [];
      assert "//"[1..] == "/";
      assert "//" + tail == "//";
    } else {
      SkipTwoSlashes(tail);
    }
  }

  /** No host at all: `http://` followed by nothing or by a query is not a URL. */
  lemma EmptyHostRejected(secure: bool, query: Option<string>)
    requires query.Some? ==> forall i | 0 <= i < |query.value| :: IsPlainQueryChar(query.value[i])
    ensures ParseHttpUrl(SchemePrefix(secure) + QuerySuffix(query)) == None
  {
    var tail := QuerySuffix(query);
    var s := SchemePrefix(secure) + tail;
    assert IsPrintable(tail) by {
      if query.Some? {
        forall i | 0 <= i < |tail| ensures 0x21 <= tail[i] as int <= 0x7E {
          if i > 0 {
            assert tail[i] == query.value[i - 1];
          }
        }
      }
    }
    assert Prepared(s) == s by { SchemeTextPrepared(secure, tail); }
    assert SchemeLength(s) != 0 && SkipSlashes(s[SchemeLength(s)..]) == tail by {
      SchemeThenAuthority(secure, tail);
    }
    assert Find(tail, AuthorityEnd) == 0 && tail[..0] == [];
    RejectedAuthority(s, tail, []);
  }

  /** An authority of user information alone: the host after the `@` is empty. */
  lemma UserOnlyAuthority(user: string)
    requires forall i | 0 <= i < |user| :: IsPlainHostChar(user[i])
    ensures var a := user + "@";
      && IsPrintable(a) && (forall i | 0 <= i < |a| :: a[i] !in AuthorityEnd)
      && ParseAuthority(a) == None
  {
    var a := user + "@";
    forall i | 0 <= i < |a| ensures 0x21 <= a[i] as int <= 0x7E && a[i] !in AuthorityEnd {
      if i < |user| {
        assert a[i] == user[i] && IsPlainHostChar(user[i]);
      }
    }
    assert a[|a| - 1] == '@';
  }

  /** User information followed by no host: `http://user@` and then a path
      or a query is not a URL. */
  lemma EmptyHostAfterUserRejected(secure: bool, user: string, path: string, query: Option<string>)
    requires forall i | 0 <= i < |user| :: IsPlainHostChar(user[i])
    requires IsPlainUrl("h", None, path, query)
    ensures ParseHttpUrl(SchemePrefix(secure) + ((user + "@") + (path + QuerySuffix(query)))) == None
  {
    var a := user + "@";
    var rest := path + QuerySuffix(query);
    var tail := a + rest;
    var s := SchemePrefix(secure) + tail;
    assert IsPrintable(a) && (forall i | 0 <= i < |a| :: a[i] !in AuthorityEnd) && ParseAuthority(a) == None by {
      UserOnlyAuthority(user);
    }
    assert IsPrintable(rest) && (rest == [] || rest[0] in AuthorityEnd) by { PlainRest(path, query); }
    assert Prepared(s) == s by {
      PrintableConcat(a, rest);
      SchemeTextPrepared(secure, tail);
    }
    assert SchemeLength(s) != 0 && SkipSlashes(s[SchemeLength(s)..]) == tail by {
      assert tail[0] == a[0];
      SchemeThenAuthority(secure, tail);
    }
    assert Find(tail, AuthorityEnd) == |a| && tail[..|a|] == a by {
      FindAfter(a, rest, AuthorityEnd);
    }
    RejectedAuthority(s, tail, a);
  }
}
