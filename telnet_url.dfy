/** Deep-link parsing of `telnet://` URLs: the argument is trimmed, a blank argument is
    refused, a missing scheme is added, and the host and optional port are taken from the
    URL parser's result. The URL parser itself (a WHATWG URL Standard implementation) is
    not part of this model: it is a parameter of type `UrlParser`. */
module TelnetUrl {

  datatype Option<T> = None | Some(value: T)

  /** An unsigned 16-bit integer, the type of a URL port. */
  newtype u16 = x: int | 0 <= x < 0x1_0000

  /** What the program reads from a successfully parsed URL: its host (absent when the
      URL has no authority) and its explicit port. */
  datatype ParsedUrl = ParsedUrl(host: Option<string>, port: Option<u16>)

  /** A URL parser: `None` when the text is not a valid URL. */
  type UrlParser = string -> Option<ParsedUrl>

  /** A request to open one telnet session. */
  datatype TelnetLaunchRequest = TelnetLaunchRequest(host: string, port: Option<u16>, displayLabel: Option<string>)

  /** The scheme prefix every normalised deep link carries. */
  const Scheme: string := "telnet://"

  // ---------------------------------------------------------------------------
  // Trimming
  // ---------------------------------------------------------------------------

  /** Unicode's White_Space property, the set of characters trimming removes. Within
      ASCII these are the space and the control characters tab to carriage return; every
      other one lies between U+0085 and U+3000. */
  predicate IsWhitespace(c: char)
    ensures c as int < 0x80 ==> (IsWhitespace(c) <==> c == ' ' || '\t' <= c <= '\r')
    ensures c as int >= 0x80 && IsWhitespace(c) ==> 0x85 <= c as int <= 0x3000
  {
    var n := c as int;
    (0x09 <= n <= 0x0D) || n == 0x20 || n == 0x85 || n == 0xA0 || n == 0x1680 ||
    (0x2000 <= n <= 0x200A) || n == 0x2028 || n == 0x2029 || n == 0x202F ||
    n == 0x205F || n == 0x3000
  }

  predicate AllWhitespace(s: string) {
    forall k :: 0 <= k < |s| ==> IsWhitespace(s[k])
  }

  /** `s` has no whitespace at either end. */
  predicate IsTrimmed(s: string) {
    s != [] ==> !IsWhitespace(s[0]) && !IsWhitespace(s[|s| - 1])
  }

  /** Removes leading whitespace (see TrimStartSpec for the full characterisation). */
  function TrimStart(s: string): (r: string)
    ensures |r| <= |s|
    ensures r != [] ==> !IsWhitespace(r[0])
    decreases |s|
  {
    if s != [] && IsWhitespace(s[0]) then TrimStart(s[1..]) else s
  }

  /** TrimStart yields the longest suffix of `s` that does not start with whitespace:
      everything it drops is whitespace. */
  lemma {:induction false} TrimStartSpec(s: string)
    ensures TrimStart(s) == s[|s| - |TrimStart(s)|..]
    ensures forall k :: 0 <= k < |s| - |TrimStart(s)| ==> IsWhitespace(s[k])
    ensures TrimStart(s) != [] ==> !IsWhitespace(TrimStart(s)[0])
    decreases |s|
  {
    if s != [] && IsWhitespace(s[0]) {
      TrimStartSpec(s[1..]);
      assert s[1..][|s| - 1 - |TrimStart(s)|..] == s[|s| - |TrimStart(s)|..];
    }
  }

  /** Removes trailing whitespace (see TrimEndSpec for the full characterisation). */
  function TrimEnd(s: string): (r: string)
    ensures |r| <= |s|
    ensures r != [] ==> !IsWhitespace(r[|r| - 1])
    decreases |s|
  {
    if s != [] && IsWhitespace(s[|s| - 1]) then TrimEnd(s[..|s| - 1]) else s
  }

  /** TrimEnd yields the longest prefix of `s` that does not end with whitespace:
      everything it drops is whitespace. */
  lemma {:induction false} TrimEndSpec(s: string)
    ensures TrimEnd(s) == s[..|TrimEnd(s)|]
    ensures forall k :: |TrimEnd(s)| <= k < |s| ==> IsWhitespace(s[k])
    ensures TrimEnd(s) != [] ==> !IsWhitespace(TrimEnd(s)[|TrimEnd(s)| - 1])
    decreases |s|
  {
    if s != [] && IsWhitespace(s[|s| - 1]) {
      TrimEndSpec(s[..|s| - 1]);
      assert s[..|s| - 1][..|TrimEnd(s)|] == s[..|TrimEnd(s)|];
    }
  }

  /** `r` is the slice of `s` starting at `i`, with only whitespace before and after it. */
  predicate IsSliceInWhitespace(s: string, i: int, r: string) {
    0 <= i <= |s| - |r| && s[i..i + |r|] == r &&
    (forall k :: 0 <= k < i ==> IsWhitespace(s[k])) &&
    (forall k :: i + |r| <= k < |s| ==> IsWhitespace(s[k]))
  }

  /** Removes whitespace at both ends (see TrimSpec for the full characterisation). */
  function Trim(s: string): (r: string)
    ensures |r| <= |s|
    ensures IsTrimmed(r)
  {
    var t := TrimStart(s);
    TrimEndSpec(t);
    TrimEnd(t)
  }

  /** Trim yields a slice of `s` with only whitespace around it and no whitespace at its
      ends; it is empty exactly when `s` is blank. */
  lemma TrimSpec(s: string)
    ensures IsTrimmed(Trim(s))
    ensures Trim(s) == [] <==> AllWhitespace(s)
    ensures exists i :: IsSliceInWhitespace(s, i, Trim(s))
  {
    var t := TrimStart(s);
    var r := TrimEnd(t);
    var i := |s| - |t|;
    TrimStartSpec(s);
    TrimEndSpec(t);
    assert IsSliceInWhitespace(s, i, r) by {
      assert s[i..i + |r|] == t[..|r|];
      forall k | i + |r| <= k < |s| ensures IsWhitespace(s[k]) {
        assert s[k] == t[k - i];
      }
    }
    if r != [] {
      assert s[i] == r[0];
      assert t[0] == r[0];
    }
  }

  /** A string without whitespace at its ends is its own trimming. */
  lemma TrimmedIsFixed(s: string)
    requires IsTrimmed(s)
    ensures Trim(s) == s
  {
  }

  /** Trimming twice is trimming once. */
  lemma TrimIdempotent(s: string)
    ensures Trim(Trim(s)) == Trim(s)
  {
  }

  /** Leading whitespace added in front of `s` is removed by TrimStart. */
  lemma {:induction false} TrimStartSkipsPadding(a: string, s: string)
    requires AllWhitespace(a)
    ensures TrimStart(a + s) == TrimStart(s)
    decreases |a|
  {
    if a != [] {
      assert (a + s)[0] == a[0] && IsWhitespace(a[0]);
      assert (a + s)[1..] == a[1..] + s;
      TrimStartSkipsPadding(a[1..], s);
    } else {
      assert a + s == s;
    }
  }

  /** Trailing whitespace added after `s` is removed by TrimEnd. */
  lemma {:induction false} TrimEndSkipsPadding(s: string, b: string)
    requires AllWhitespace(b)
    ensures TrimEnd(s + b) == TrimEnd(s)
    decreases |b|
  {
    if b != [] {
      assert (s + b)[|s + b| - 1] == b[|b| - 1] && IsWhitespace(b[|b| - 1]);
      assert (s + b)[..|s + b| - 1] == s + b[..|b| - 1];
      TrimEndSkipsPadding(s, b[..|b| - 1]);
    } else {
      assert s + b == s;
    }
  }

  /** When `s` is not blank, text after it does not change where TrimStart stops. */
  lemma {:induction false} TrimStartAppend(s: string, b: string)
    requires !AllWhitespace(s)
    ensures TrimStart(s + b) == TrimStart(s) + b
    decreases |s|
  {
    if IsWhitespace(s[0]) {
      assert (s + b)[1..] == s[1..] + b;
      TrimStartAppend(s[1..], b);
    }
  }

  /** A blank string loses everything to TrimStart. */
  lemma AllWhitespaceTrimsToEmpty(s: string)
    requires AllWhitespace(s)
    ensures TrimStart(s) == []
  {
  }

  /** Whitespace around an argument does not change its trimming. */
  lemma TrimIgnoresPadding(a: string, s: string, b: string)
    requires AllWhitespace(a) && AllWhitespace(b)
    ensures Trim(a + s + b) == Trim(s)
  {
    assert a + s + b == a + (s + b);
    TrimStartSkipsPadding(a, s + b);
    if AllWhitespace(s) {
      assert AllWhitespace(s + b);
      AllWhitespaceTrimsToEmpty(s);
      AllWhitespaceTrimsToEmpty(s + b);
    } else {
      TrimStartAppend(s, b);
      TrimEndSkipsPadding(TrimStart(s), b);
    }
  }

  // ---------------------------------------------------------------------------
  // Scheme coercion
  // ---------------------------------------------------------------------------

  /** ASCII lower-casing of one character. */
  function LowerAscii(c: char): (r: char)
    ensures 'A' <= c <= 'Z' ==> r as int == c as int - 'A' as int + 'a' as int
    ensures !('A' <= c <= 'Z') ==> r == c
  {
    if 'A' <= c <= 'Z' then (c as int - 'A' as int + 'a' as int) as char else c
  }

  /** `s` starts with `telnet://`, in any letter case: an ASCII case-insensitive test of
      its first nine characters. Such a string never starts with whitespace; `telnet://`
      and `TELNET://` both qualify. */
  predicate HasTelnetScheme(s: string)
    ensures HasTelnetScheme(s) ==> |s| >= |Scheme| && s[6..9] == "://" && !IsWhitespace(s[0])
    ensures |s| >= |Scheme| && (s[..|Scheme|] == Scheme || s[..|Scheme|] == "TELNET://") ==> HasTelnetScheme(s)
  {
    |s| >= |Scheme| && forall k :: 0 <= k < |Scheme| ==> LowerAscii(s[k]) == Scheme[k]
  }

  /** The string `parse_telnet_url` hands to the URL parser: `None` for a blank argument,
      otherwise the trimmed argument, with `telnet://` put in front when it does not already
      start with that scheme in any letter case. */
  function Normalize(url: string): (r: Option<string>)
    ensures r == None <==> AllWhitespace(url)
    ensures r.Some? ==> HasTelnetScheme(r.value) && IsTrimmed(r.value)
    ensures r.Some? && HasTelnetScheme(Trim(url)) ==> r.value == Trim(url)
    ensures r.Some? && !HasTelnetScheme(Trim(url)) ==> r.value == Scheme + Trim(url)
  {
    TrimSpec(url);
    var work := Trim(url);
    if work == [] then None
    else if HasTelnetScheme(work) then Some(work)
    else
      SchemePrefixed(work);
      Some(Scheme + work)
  }

  /** Putting `telnet://` in front of a non-empty trimmed string gives a trimmed string
      that carries the scheme. */
  lemma SchemePrefixed(work: string)
    requires work != [] && IsTrimmed(work)
    ensures HasTelnetScheme(Scheme + work) && IsTrimmed(Scheme + work)
  {
  }

  /** Normalising an already normalised string leaves it unchanged. */
  lemma NormalizeIdempotent(url: string)
    requires Normalize(url).Some?
    ensures Normalize(Normalize(url).value) == Normalize(url)
  {
  }

  /** Surrounding whitespace never changes the normalised form. */
  lemma NormalizeIgnoresPadding(a: string, url: string, b: string)
    requires AllWhitespace(a) && AllWhitespace(b)
    ensures Normalize(a + url + b) == Normalize(url)
  {
    TrimIgnoresPadding(a, url, b);
  }

  /** A scheme-less argument and the same argument written with `telnet://` normalise
      to the same string. */
  lemma NormalizeAddsScheme(host: string)
    requires IsTrimmed(host) && host != [] && !HasTelnetScheme(host)
    ensures Normalize(host) == Normalize(Scheme + host) == Some(Scheme + host)
  {
  }

  // ---------------------------------------------------------------------------
  // parse_telnet_url
  // ---------------------------------------------------------------------------

  /** Parses a deep-link argument into a launch request. There is no request when the
      argument is blank, when the URL parser refuses the normalised string, or when the
      parsed URL has no host; otherwise the request carries the parsed host and port and
      no label. */
  function ParseTelnetUrl(parse: UrlParser, url: string): (r: Option<TelnetLaunchRequest>)
    ensures AllWhitespace(url) ==> r == None
    ensures !AllWhitespace(url) ==>
      var parsed := parse(Normalize(url).value);
      (r == None <==> parsed == None || parsed.value.host == None) &&
      (r.Some? ==> Some(r.value.host) == parsed.value.host &&
                   r.value.port == parsed.value.port &&
                   r.value.displayLabel == None)
  {
    match Normalize(url)
    case None => None
    case Some(work) =>
      match parse(work)
      case None => None
      case Some(parsed) =>
        match parsed.host
        case None => None
        case Some(host) => Some(TelnetLaunchRequest(host, parsed.port, None))
  }

  /** Whitespace around an argument does not change the request it yields. */
  lemma ParseIgnoresPadding(parse: UrlParser, a: string, url: string, b: string)
    requires AllWhitespace(a) && AllWhitespace(b)
    ensures ParseTelnetUrl(parse, a + url + b) == ParseTelnetUrl(parse, url)
  {
    NormalizeIgnoresPadding(a, url, b);
  }

  /** `host:port` and `telnet://host:port` yield the same request. */
  lemma ParseSchemeOptional(parse: UrlParser, host: string)
    requires IsTrimmed(host) && host != [] && !HasTelnetScheme(host)
    ensures ParseTelnetUrl(parse, host) == ParseTelnetUrl(parse, Scheme + host)
  {
  }
}
