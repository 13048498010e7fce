/**
 * The grammar of the URL pattern in `is_valid_url`, stated as "a
 * decomposition into these parts exists". Each predicate follows one
 * piece of the regular expression
 *
 *   ^(?:http|ftp)s?://
 *    (?: (?:LABEL\.)+(?:[A-Z]{2,6}\.?|[A-Z0-9-]{2,}\.?)
 *      | localhost
 *      | \d{1,3}\.\d{1,3}\.\d{1,3}\.\d{1,3}
 *      | \[?[A-F0-9]*:[A-F0-9:]+\]? )
 *    (?::\d+)?
 *    (?:/?|[/?]\S+)$
 *
 * compiled with IGNORECASE, where LABEL is
 * `[A-Z0-9](?:[A-Z0-9-]{0,61}[A-Z0-9])?`. A backtracking matcher
 * accepts exactly when some such decomposition exists, so these are the
 * meaning of the pattern; the recognizer in module UrlValidator is proved
 * equal to them.
 */
module UrlGrammar {
  import opened Chars

  /** `(?:http|ftp)s?://` */
  predicate IsScheme(x: string) {
    || EqualsIgnoringCase(x, "http://")
    || EqualsIgnoringCase(x, "https://")
    || EqualsIgnoringCase(x, "ftp://")
    || EqualsIgnoringCase(x, "ftps://")
  }

  /** `[A-Z0-9](?:[A-Z0-9-]{0,61}[A-Z0-9])?`: one label of a domain name. */
  predicate IsLabel(l: string) {
    || (|l| == 1 && IsAlnum(l[0]))
    || (&& 2 <= |l| <= 63
        && IsAlnum(l[0])
        && All(l[1..|l| - 1], IsAlnumOrHyphen)
        && IsAlnum(l[|l| - 1]))
  }

  /** `[A-Z]{2,6}|[A-Z0-9-]{2,}`: the last label of a domain name. */
  predicate IsTopLabel(t: string) {
    || (2 <= |t| <= 6 && All(t, IsLetter))
    || (2 <= |t| && All(t, IsAlnumOrHyphen))
  }

  /** `(?:LABEL\.)+` once the labels are chosen: each label followed by a dot. */
  function Dotted(labels: seq<string>): string
    decreases |labels|
  {
    if labels == [] then "" else labels[0] + "." + Dotted(labels[1..])
  }

  /** `(?:LABEL\.)+(?:[A-Z]{2,6}\.?|[A-Z0-9-]{2,}\.?)` */
  ghost predicate IsDomain(h: string) {
    exists labels: seq<string>, top: string, dot: string ::
      && |labels| >= 1
      && (forall m :: 0 <= m < |labels| ==> IsLabel(labels[m]))
      && IsTopLabel(top)
      && (dot == "" || dot == ".")
      && h == Dotted(labels) + top + dot
  }

  /** `localhost` */
  predicate IsLocalhost(h: string) {
    EqualsIgnoringCase(h, "localhost")
  }

  /** `\d{1,3}` */
  predicate IsDigitGroup(g: string) {
    1 <= |g| <= 3 && All(g, IsDigit)
  }

  /** `\d{1,3}\.\d{1,3}\.\d{1,3}\.\d{1,3}`, with no check that a group is at most 255. */
  ghost predicate IsIPv4(h: string) {
    exists a: string, b: string, c: string, d: string ::
      && IsDigitGroup(a) && IsDigitGroup(b) && IsDigitGroup(c) && IsDigitGroup(d)
      && h == a + "." + b + "." + c + "." + d
  }

  /** `\[?[A-F0-9]*:[A-F0-9:]+\]?`: the two brackets are optional independently. */
  ghost predicate IsIPv6(h: string) {
    exists open: string, x: string, y: string, close: string ::
      && (open == "" || open == "[")
      && All(x, IsHexDigit)
      && 1 <= |y| && All(y, IsHexOrColon)
      && (close == "" || close == "]")
      && h == open + x + ":" + y + close
  }

  /** The host alternatives. */
  ghost predicate IsHost(h: string) {
    IsDomain(h) || IsLocalhost(h) || IsIPv4(h) || IsIPv6(h)
  }

  /** `(?::\d+)?` */
  predicate IsPort(p: string) {
    p == "" || (2 <= |p| && p[0] == ':' && All(p[1..], IsDigit))
  }

  /** `(?:/?|[/?]\S+)`: nothing, a lone slash, or a slash or question mark and then non-space. */
  predicate IsTail(t: string) {
    || t == ""
    || t == "/"
    || (2 <= |t| && (t[0] == '/' || t[0] == '?') && All(t[1..], IsNonSpace))
  }

  /** Host, port and tail, one after the other. */
  ghost predicate IsAfterScheme(r: string) {
    exists j, k :: 0 <= j <= k <= |r| && IsHost(r[..j]) && IsPort(r[j..k]) && IsTail(r[k..])
  }

  /** The whole pattern matches the whole of `s`. */
  ghost predicate Matches(s: string) {
    exists i :: 0 <= i <= |s| && IsScheme(s[..i]) && IsAfterScheme(s[i..])
  }

  /**
   * `re.match` with the pattern succeeds: without MULTILINE, `$` matches at
   * the end and also just before a newline that ends the string.
   */
  ghost predicate Accepts(url: string) {
    || Matches(url)
    || (1 <= |url| && url[|url| - 1] == '\n' && Matches(url[..|url| - 1]))
  }
}
