/**
 * What `is_valid_url` promises, stated about the recognizer of module
 * UrlValidator: which strings it accepts by construction, which it always
 * rejects, and which characters an accepted string can contain.
 */
module UrlProperties {
  import opened Chars
  import opened Split
  import opened UrlGrammar
  import opened UrlValidator

  /** Host, port and tail put one after the other form what may follow a scheme. */
  lemma AfterSchemeParts(host: string, port: string, tail: string)
    requires IsHost(host) && IsPort(port) && IsTail(tail)
    ensures IsAfterScheme(host + port + tail)
  {
    var r := host + port + tail;
    var j, k := |host|, |host| + |port|;
    assert r[..j] == host;
    assert r[j..k] == port;
    assert r[k..] == tail;
    assert 0 <= j <= k <= |r| && IsHost(r[..j]) && IsPort(r[j..k]) && IsTail(r[k..]);
  }

  lemma MatchesOf(scheme: string, rest: string)
    requires IsScheme(scheme) && IsAfterScheme(rest)
    ensures Matches(scheme + rest)
  {
    var s := scheme + rest;
    assert s[..|scheme|] == scheme && s[|scheme|..] == rest;
    assert 0 <= |scheme| <= |s| && IsScheme(s[..|scheme|]) && IsAfterScheme(s[|scheme|..]);
  }

  lemma RegroupUrl(scheme: string, host: string, port: string, tail: string)
    ensures scheme + host + port + tail == scheme + (host + port + tail)
  {
  }

  /** Any scheme, host, port and tail put one after the other form an accepted URL. */
  lemma AcceptsParts(scheme: string, host: string, port: string, tail: string)
    requires IsScheme(scheme) && IsHost(host) && IsPort(port) && IsTail(tail)
    ensures IsValidUrl(scheme + host + port + tail)
  {
    AfterSchemeParts(host, port, tail);
    MatchesOf(scheme, host + port + tail);
    RegroupUrl(scheme, host, port, tail);
  }

  /** A URL cut into a scheme, a host, a port and a tail is accepted. */
  lemma SuffixCuts(url: string, i: int, j: int, k: int)
    requires 0 <= i <= j <= k <= |url|
    ensures url[i..][..j - i] == url[i..j]
    ensures url[i..][j - i..k - i] == url[j..k]
    ensures url[i..][k - i..] == url[k..]
  {
  }

  lemma MatchesCuts(url: string, i: int, j: int, k: int)
    requires 0 <= i <= j <= k <= |url|
    requires IsScheme(url[..i]) && IsHost(url[i..j]) && IsPort(url[j..k]) && IsTail(url[k..])
    ensures Matches(url)
  {
    var r := url[i..];
    SuffixCuts(url, i, j, k);
    assert 0 <= j - i <= k - i <= |r| && IsHost(r[..j - i]) && IsPort(r[j - i..k - i]) && IsTail(r[k - i..]);
    assert 0 <= i <= |url| && IsScheme(url[..i]) && IsAfterScheme(url[i..]);
  }

  lemma AcceptsCuts(url: string, i: int, j: int, k: int)
    requires 0 <= i <= j <= k <= |url|
    requires IsScheme(url[..i]) && IsHost(url[i..j]) && IsPort(url[j..k]) && IsTail(url[k..])
    ensures IsValidUrl(url)
  {
    MatchesCuts(url, i, j, k);
  }

  /** The part of an accepted `url` that the pattern matched: all of it, or all but a final newline. */
  ghost function MatchedPart(url: string): (s: string)
    requires Accepts(url)
    ensures Matches(s)
    ensures s == url || (url == s + "\n")
  {
    if Matches(url) then url
    else
      assert url == url[..|url| - 1] + "\n";
      url[..|url| - 1]
  }

  // ---------------------------------------------------------------------
  // Schemes

  /** An accepted URL starts with `http://`, `https://`, `ftp://` or `ftps://`, in any case. */
  lemma AcceptedStartsWithScheme(url: string)
    ensures IsValidUrl(url) ==>
      || HasPrefixIgnoringCase(url, "http://")
      || HasPrefixIgnoringCase(url, "https://")
      || HasPrefixIgnoringCase(url, "ftp://")
      || HasPrefixIgnoringCase(url, "ftps://")
  {
    if IsValidUrl(url) {
      var s := MatchedPart(url);
      MatchedHostStart(s);
      var n := SchemeLength(s);
      assert url[..n] == s[..n];
      SchemePrefix(url, n);
    }
  }

  /** A scheme at the start of `url` is one of the four prefixes. */
  lemma SchemePrefix(url: string, n: int)
    requires 0 <= n <= |url| && IsScheme(url[..n])
    ensures
      || HasPrefixIgnoringCase(url, "http://")
      || HasPrefixIgnoringCase(url, "https://")
      || HasPrefixIgnoringCase(url, "ftp://")
      || HasPrefixIgnoringCase(url, "ftps://")
  {
  }

  /** A string that does not start with `h` or `f`, in either case, is rejected. */
  lemma RejectsWithoutScheme(url: string)
    requires |url| == 0 || (ToLower(url[0]) != 'h' && ToLower(url[0]) != 'f')
    ensures !IsValidUrl(url)
  {
    AcceptedStartsWithScheme(url);
    if 1 <= |url| {
      assert !HasPrefixIgnoringCase(url, "http://") by {
        assert 7 <= |url| ==> ToLower(url[..7][0]) != ToLower("http://"[0]);
      }
      assert !HasPrefixIgnoringCase(url, "https://") by {
        assert 8 <= |url| ==> ToLower(url[..8][0]) != ToLower("https://"[0]);
      }
      assert !HasPrefixIgnoringCase(url, "ftp://") by {
        assert 6 <= |url| ==> ToLower(url[..6][0]) != ToLower("ftp://"[0]);
      }
      assert !HasPrefixIgnoringCase(url, "ftps://") by {
        assert 7 <= |url| ==> ToLower(url[..7][0]) != ToLower("ftps://"[0]);
      }
    }
  }

  lemma RejectsOtherSchemes(url: string)
    requires url == "" || url == "example.com" || url == "mailto:someone@example.com" || url == "sftp://example.com"
    ensures !IsValidUrl(url)
  {
    RejectsWithoutScheme(url);
  }

  /** The scheme is matched without regard to case. */
  lemma UpperCaseCuts(url: string)
    requires url == "HtTpS://LOCALHOST"
    ensures IsScheme(url[..8]) && IsHost(url[8..|url|])
  {
    assert IsScheme(url[..8]);
    assert IsLocalhost(url[8..|url|]);
  }

  lemma SchemeIgnoresCase(url: string)
    requires url == "HtTpS://LOCALHOST"
    ensures IsValidUrl(url)
  {
    UpperCaseCuts(url);
    AcceptsCuts(url, 8, |url|, |url|);
  }

  // ---------------------------------------------------------------------
  // Hosts

  /** A host is never empty, and starts with a letter, a digit, `[` or `:`. */
  lemma HostFirstChar(h: string)
    requires IsHost(h)
    ensures 1 <= |h| && (IsAlnum(h[0]) || h[0] == '[' || h[0] == ':')
  {
    if IsDomain(h) {
      var labels: seq<string>, top: string, dot: string :|
        && |labels| >= 1
        && (forall m :: 0 <= m < |labels| ==> IsLabel(labels[m]))
        && IsTopLabel(top)
        && (dot == "" || dot == ".")
        && h == Dotted(labels) + top + dot;
      assert IsLabel(labels[0]);
      assert h[0] == labels[0][0];
    } else if IsLocalhost(h) {
      assert ToLower(h[0]) == "localhost"[0];
    } else if IsIPv4(h) {
      var a: string, b: string, c: string, d: string :|
        && IsDigitGroup(a) && IsDigitGroup(b) && IsDigitGroup(c) && IsDigitGroup(d)
        && h == a + "." + b + "." + c + "." + d;
      assert h[0] == a[0];
    } else {
      var open: string, x: string, y: string, close: string :|
        && (open == "" || open == "[")
        && All(x, IsHexDigit)
        && 1 <= |y| && All(y, IsHexOrColon)
        && (close == "" || close == "]")
        && h == open + x + ":" + y + close;
      if open == "" && x != "" {
        assert h[0] == x[0];
      }
    }
  }

  /** In a full match, the scheme is the one `SchemeLength` finds, and a host character follows it. */
  lemma MatchedHostStart(s: string)
    requires Matches(s)
    ensures var n := SchemeLength(s);
      && IsScheme(s[..n]) && n < |s|
      && (IsAlnum(s[n]) || s[n] == '[' || s[n] == ':')
  {
    var i :| 0 <= i <= |s| && IsScheme(s[..i]) && IsAfterScheme(s[i..]);
    var r := s[i..];
    var j, k :| 0 <= j <= k <= |r| && IsHost(r[..j]) && IsPort(r[j..k]) && IsTail(r[k..]);
    HostFirstChar(r[..j]);
    assert s[i] == r[..j][0];
  }

  /** Right after `://` an accepted URL has a letter, a digit, `[` or `:`: never a hyphen, a dot or nothing. */
  lemma AcceptedHostStart(url: string)
    ensures IsValidUrl(url) ==>
      && SchemeLength(url) < |url|
      && (IsAlnum(url[SchemeLength(url)]) || url[SchemeLength(url)] == '[' || url[SchemeLength(url)] == ':')
  {
    if IsValidUrl(url) {
      var s := MatchedPart(url);
      MatchedHostStart(s);
      var n := SchemeLength(s);
      assert url[..n] == s[..n];
      assert url[n] == s[n];
    }
  }

  /** A host cannot be missing, and cannot start with a hyphen, a dot or a slash. */
  lemma RejectsBadHostStart(scheme: string, rest: string)
    requires IsScheme(scheme)
    requires rest == [] || rest[0] == '-' || rest[0] == '.' || rest[0] == '/'
    ensures !IsValidUrl(scheme + rest)
  {
    var url := scheme + rest;
    assert url[..|scheme|] == scheme;
    assert SchemeLength(url) == |scheme|;
    AcceptedHostStart(url);
    if rest != [] {
      assert url[|scheme|] == rest[0];
    }
  }

  /** A single word without a dot or colon is a host only when it is `localhost`. */
  lemma WordIsNotHost(w: string)
    requires 1 <= |w| && All(w, IsAlnumOrHyphen) && !IsLocalhost(w)
    ensures !MatchHost(w)
  {
    assert forall t :: 0 <= t < |w| ==> w[t] != '.' && w[t] != ':' && w[t] != '[' && w[t] != ']' by {
      forall t | 0 <= t < |w| ensures w[t] != '.' && w[t] != ':' && w[t] != '[' && w[t] != ']' {
        assert IsAlnumOrHyphen(w[t]);
      }
    }
    assert DropFinalDot(w) == w;
    assert JoinSep([w], '.') == w;
    SplitOnJoinSep([w], '.');
    assert DropCloseBracket(DropOpenBracket(w)) == w;
    assert IndexOf(w, ':') == |w|;
  }

  lemma WordHasNoSeparator(w: string)
    requires All(w, IsAlnumOrHyphen)
    ensures All(w[..|w|], IsHostChar)
    ensures LastIndexOf(w, ':') == -1
  {
    forall t | 0 <= t < |w| ensures IsHostChar(w[t]) && w[t] != ':' {
      assert IsAlnumOrHyphen(w[t]);
    }
    assert w[..|w|] == w;
  }

  lemma WordIsNotAfterScheme(w: string)
    requires 1 <= |w| && All(w, IsAlnumOrHyphen) && !IsLocalhost(w)
    ensures !MatchAfterScheme(w)
  {
    WordIsNotHost(w);
    WordHasNoSeparator(w);
    TailStartAt(w, |w|);
    assert w[..|w|] == w;
  }

  lemma SchemeThenWord(scheme: string, w: string)
    requires IsScheme(scheme)
    requires 1 <= |w| && All(w, IsAlnumOrHyphen) && !IsLocalhost(w)
    ensures !MatchUrl(scheme + w)
  {
    var url := scheme + w;
    assert url[..|scheme|] == scheme && url[|scheme|..] == w;
    assert SchemeLength(url) == |scheme|;
    WordIsNotAfterScheme(w);
  }

  /** Without a final newline, a string is accepted only when the whole of it matches. */
  lemma RejectsWithoutMatch(url: string)
    requires |url| == 0 || url[|url| - 1] != '\n'
    requires !MatchUrl(url)
    ensures !IsValidUrl(url)
  {
  }

  /**
   * At least one dotted label must come before the final label: a scheme
   * followed by one word is rejected, except for `localhost`.
   */
  lemma RejectsSingleWordHost(scheme: string, w: string)
    requires IsScheme(scheme)
    requires 1 <= |w| && All(w, IsAlnumOrHyphen) && !IsLocalhost(w)
    ensures !IsValidUrl(scheme + w)
  {
    SchemeThenWord(scheme, w);
    var url := scheme + w;
    assert url[|url| - 1] == w[|w| - 1];
    assert IsAlnumOrHyphen(w[|w| - 1]);
    RejectsWithoutMatch(url);
  }

  lemma RejectsExampleWithoutDot(url: string)
    requires url == "http://example"
    ensures !IsValidUrl(url)
  {
    assert IsScheme(url[..7]);
    assert All(url[7..], IsAlnumOrHyphen);
    assert url == url[..7] + url[7..];
    RejectsSingleWordHost(url[..7], url[7..]);
  }

  lemma IPv4Host(a: string, b: string, c: string, d: string)
    requires IsDigitGroup(a) && IsDigitGroup(b) && IsDigitGroup(c) && IsDigitGroup(d)
    ensures IsHost(a + "." + b + "." + c + "." + d)
  {
    assert IsIPv4(a + "." + b + "." + c + "." + d);
  }

  /** A dotted quad of four groups of one to three digits is a host, with no range check. */
  lemma AcceptsDottedQuad(scheme: string, a: string, b: string, c: string, d: string)
    requires IsScheme(scheme)
    requires IsDigitGroup(a) && IsDigitGroup(b) && IsDigitGroup(c) && IsDigitGroup(d)
    ensures IsValidUrl(scheme + (a + "." + b + "." + c + "." + d))
  {
    IPv4Host(a, b, c, d);
    AcceptsParts(scheme, a + "." + b + "." + c + "." + d, "", "");
    assert scheme + (a + "." + b + "." + c + "." + d) + "" + "" == scheme + (a + "." + b + "." + c + "." + d);
  }

  lemma CutAt(s: string, a: int, b: int, d: int)
    requires 0 <= a <= b < d <= |s|
    ensures s[a..d] == s[a..b] + [s[b]] + s[b + 1..d]
  {
  }

  lemma RegroupQuad(a: string, b: string, c: string, d: string)
    ensures a + "." + (b + "." + (c + "." + d)) == a + "." + b + "." + c + "." + d
  {
  }

  /** Cutting at three dots, and putting the pieces back with dots between them. */
  lemma CutAtDots(s: string, start: int, i: int, j: int, k: int, end: int)
    requires 0 <= start < i < j < k < end <= |s|
    requires s[i] == '.' && s[j] == '.' && s[k] == '.'
    ensures s[start..end] == s[start..i] + "." + s[i + 1..j] + "." + s[j + 1..k] + "." + s[k + 1..end]
  {
    CutAt(s, start, i, end);
    CutAt(s, i + 1, j, end);
    CutAt(s, j + 1, k, end);
    assert [s[i]] == "." && [s[j]] == "." && [s[k]] == ".";
    RegroupQuad(s[start..i], s[i + 1..j], s[j + 1..k], s[k + 1..end]);
  }

  /** Four digit groups between three given dots form a host. */
  lemma DottedQuadAt(s: string, start: int, i: int, j: int, k: int, end: int)
    requires 0 <= start < i < j < k < end <= |s|
    requires s[i] == '.' && s[j] == '.' && s[k] == '.'
    requires IsDigitGroup(s[start..i]) && IsDigitGroup(s[i + 1..j]) && IsDigitGroup(s[j + 1..k]) && IsDigitGroup(s[k + 1..end])
    ensures IsIPv4(s[start..end])
  {
    CutAtDots(s, start, i, j, k, end);
    var a, b, c, d := s[start..i], s[i + 1..j], s[j + 1..k], s[k + 1..end];
    assert IsDigitGroup(a) && IsDigitGroup(b) && IsDigitGroup(c) && IsDigitGroup(d) && s[start..end] == a + "." + b + "." + c + "." + d;
  }

  lemma OutOfRangeQuadCuts(url: string)
    requires url == "http://999.999.999.999"
    ensures IsScheme(url[..7]) && IsHost(url[7..|url|])
  {
    assert IsDigitGroup(url[7..10]) && IsDigitGroup(url[11..14]);
    assert IsDigitGroup(url[15..18]) && IsDigitGroup(url[19..22]);
    DottedQuadAt(url, 7, 10, 14, 18, 22);
    assert url[7..|url|] == url[7..22];
    assert IsScheme(url[..7]);
  }

  lemma AcceptsOutOfRangeQuad(url: string)
    requires url == "http://999.999.999.999"
    ensures IsValidUrl(url)
  {
    OutOfRangeQuadCuts(url);
    AcceptsCuts(url, 7, |url|, |url|);
  }

  lemma LocalhostCuts(url: string)
    requires url == "ftp://localhost:21/pub"
    ensures IsScheme(url[..6]) && IsLocalhost(url[6..15]) && IsPort(url[15..18]) && IsTail(url[18..])
  {
    assert IsScheme(url[..6]);
    assert IsLocalhost(url[6..15]);
  }

  lemma AcceptsLocalhost(url: string)
    requires url == "ftp://localhost:21/pub"
    ensures IsValidUrl(url)
  {
    LocalhostCuts(url);
    AcceptsCuts(url, 6, 15, 18);
  }

  lemma DomainHost(labels: seq<string>, top: string, dot: string)
    requires |labels| >= 1 && forall m :: 0 <= m < |labels| ==> IsLabel(labels[m])
    requires IsTopLabel(top) && (dot == "" || dot == ".")
    ensures IsHost(Dotted(labels) + top + dot)
  {
    assert IsDomain(Dotted(labels) + top + dot);
  }

  lemma ExampleComHost(h: string)
    requires h == "example.com"
    ensures IsHost(h)
  {
    var word, top := h[..7], h[8..];
    assert Dotted([word]) == word + "." + Dotted([]);
    assert h == Dotted([word]) + top + "";
    assert IsAlnum(word[0]) && IsAlnum(word[6]) && All(word, IsAlnumOrHyphen);
    LabelShape(word);
    assert IsTopLabel(top);
    DomainHost([word], top, "");
  }

  lemma DomainCuts(url: string)
    requires url == "https://example.com/page"
    ensures IsScheme(url[..8]) && IsHost(url[8..19]) && IsTail(url[19..])
  {
    ExampleComHost(url[8..19]);
    assert IsScheme(url[..8]);
  }

  lemma AcceptsDomain(url: string)
    requires url == "https://example.com/page"
    ensures IsValidUrl(url)
  {
    DomainCuts(url);
    AcceptsCuts(url, 8, 19, 19);
  }

  lemma IPv6Host(open: string, x: string, y: string, close: string)
    requires open == "" || open == "["
    requires All(x, IsHexDigit) && 1 <= |y| && All(y, IsHexOrColon)
    requires close == "" || close == "]"
    ensures IsHost(open + x + ":" + y + close)
  {
    assert IsIPv6(open + x + ":" + y + close);
  }

  /** The brackets around an IPv6-like host are optional and need not be balanced. */
  lemma LooseIPv6Cuts(url: string)
    requires url == "http://[::1"
    ensures IsScheme(url[..7]) && IsHost(url[7..|url|])
  {
    var y := url[9..];
    assert url[7..|url|] == "[" + "" + ":" + y + "";
    assert All(y, IsHexOrColon);
    IPv6Host("[", "", y, "");
    assert IsScheme(url[..7]);
  }

  lemma AcceptsLooseIPv6(url: string)
    requires url == "http://[::1"
    ensures IsValidUrl(url)
  {
    LooseIPv6Cuts(url);
    AcceptsCuts(url, 7, |url|, |url|);
  }

  /** A host and port made of a colon and digits match the IPv6 alternative, whatever the port. */
  lemma ColonHostCuts(url: string)
    requires url == "http://a:80"
    ensures IsScheme(url[..7]) && IsHost(url[7..|url|])
  {
    var x, y := url[7..8], url[9..];
    assert url[7..|url|] == "" + x + ":" + y + "";
    assert All(x, IsHexDigit);
    assert All(y, IsHexOrColon);
    IPv6Host("", x, y, "");
    assert IsScheme(url[..7]);
  }

  lemma AcceptsColonHost(url: string)
    requires url == "http://a:80"
    ensures IsValidUrl(url)
  {
    ColonHostCuts(url);
    AcceptsCuts(url, 7, |url|, |url|);
  }

  // ---------------------------------------------------------------------
  // White space and the end of the string

  lemma SchemeHasNoSpace(x: string)
    requires IsScheme(x)
    ensures All(x, IsNonSpace)
  {
    var lit :=
      if EqualsIgnoringCase(x, "http://") then "http://"
      else if EqualsIgnoringCase(x, "https://") then "https://"
      else if EqualsIgnoringCase(x, "ftp://") then "ftp://"
      else "ftps://";
    assert EqualsIgnoringCase(x, lit);
    assert All(lit, IsNonSpace);
    forall t | 0 <= t < |x| ensures IsNonSpace(x[t]) {
      assert ToLower(x[t]) == ToLower(lit[t]);
      assert IsNonSpace(lit[t]);
    }
  }

  lemma HostCharsAreNotSpace(x: string)
    requires All(x, IsHostChar)
    ensures All(x, IsNonSpace)
  {
    forall t | 0 <= t < |x| ensures IsNonSpace(x[t]) {
      assert IsHostChar(x[t]);
    }
  }

  lemma TailHasNoSpace(t: string)
    requires IsTail(t)
    ensures All(t, IsNonSpace)
  {
    if 2 <= |t| {
      forall n | 1 <= n < |t| ensures IsNonSpace(t[n]) {
        assert t[n] == t[1..][n - 1];
        assert IsNonSpace(t[1..][n - 1]);
      }
    }
  }

  lemma AfterSchemeHasNoSpace(r: string)
    requires IsAfterScheme(r)
    ensures All(r, IsNonSpace)
  {
    var j, k :| 0 <= j <= k <= |r| && IsHost(r[..j]) && IsPort(r[j..k]) && IsTail(r[k..]);
    HostChars(r[..j]);
    HostCharsAreNotSpace(r[..j]);
    PortChars(r[j..k]);
    HostCharsAreNotSpace(r[j..k]);
    assert r[..k][..j] == r[..j] && r[..k][j..] == r[j..k];
    AllSplit(r[..k], j, IsNonSpace);
    TailHasNoSpace(r[k..]);
    AllSplit(r, k, IsNonSpace);
  }

  lemma MatchedHasNoSpace(s: string)
    requires Matches(s)
    ensures All(s, IsNonSpace)
  {
    var i :| 0 <= i <= |s| && IsScheme(s[..i]) && IsAfterScheme(s[i..]);
    SchemeHasNoSpace(s[..i]);
    AfterSchemeHasNoSpace(s[i..]);
    AllSplit(s, i, IsNonSpace);
  }

  /**
   * An accepted URL contains no white space, except one newline at the very
   * end, which `$` lets through.
   */
  lemma AcceptedHasNoSpace(url: string)
    ensures IsValidUrl(url) ==>
      forall t :: 0 <= t < |url| && IsSpace(url[t]) ==> t == |url| - 1 && url[t] == '\n'
  {
    if IsValidUrl(url) {
      var s := MatchedPart(url);
      MatchedHasNoSpace(s);
      forall t | 0 <= t < |s| ensures !IsSpace(url[t]) {
        assert url[t] == s[t];
        assert IsNonSpace(s[t]);
      }
    }
  }

  /** White space before the last character, in the tail or anywhere else, rejects a string. */
  lemma RejectsSpaceInTail(url: string, t: int)
    requires 0 <= t < |url| - 1 && IsSpace(url[t])
    ensures !IsValidUrl(url)
  {
    AcceptedHasNoSpace(url);
  }

  /** A last character that is white space other than a newline rejects a string. */
  lemma RejectsFinalSpace(url: string)
    requires 1 <= |url| && IsSpace(url[|url| - 1]) && url[|url| - 1] != '\n'
    ensures !IsValidUrl(url)
  {
    AcceptedHasNoSpace(url);
  }

  lemma RejectsSpaceExamples()
    ensures !IsValidUrl("http://example.com/a b")
    ensures !IsValidUrl("http://example.com/\t")
    ensures !IsValidUrl("http://example.com\n\n")
  {
    RejectsSpaceInTail("http://example.com/a b", 20);
    RejectsFinalSpace("http://example.com/\t");
    RejectsSpaceInTail("http://example.com\n\n", 18);
  }

  /** One newline may follow an accepted URL that does not already end with one. */
  lemma AcceptsTrailingNewline(url: string)
    requires IsValidUrl(url)
    requires |url| == 0 || url[|url| - 1] != '\n'
    ensures IsValidUrl(url + "\n")
  {
    assert Matches(url);
    assert (url + "\n")[..|url|] == url;
  }

  lemma AcceptsDomainWithNewline(url: string)
    requires url == "https://example.com/page\n"
    ensures IsValidUrl(url)
  {
    var line := url[..|url| - 1];
    AcceptsDomain(line);
    AcceptsTrailingNewline(line);
    assert url == line + "\n";
  }
}
