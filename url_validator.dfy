/**
 * `is_valid_url` as a deterministic recognizer, proved equal to the
 * grammar of module UrlGrammar. The recognizer never guesses: the tail
 * starts at the first `/` or `?`, the port at the last `:`, and the
 * labels of a domain name and the groups of a dotted quad are the pieces
 * between dots.
 */
module UrlValidator {
  import opened Chars
  import opened Split
  import opened UrlGrammar

  // ---------------------------------------------------------------------
  // Scheme

  /** `s` starts with the literal `t`, ignoring case. */
  predicate HasPrefixIgnoringCase(s: string, t: string) {
    |t| <= |s| && EqualsIgnoringCase(s[..|t|], t)
  }

  /**
   * What tells the four schemes apart: the length, the first letter, and
   * what follows `http` or `ftp`.
   */
  lemma SchemeSignature(x: string)
    requires IsScheme(x)
    ensures
      || (|x| == 7 && ToLower(x[0]) == 'h' && x[4] == ':')
      || (|x| == 8 && ToLower(x[0]) == 'h' && ToLower(x[4]) == 's')
      || (|x| == 6 && ToLower(x[0]) == 'f' && x[3] == ':')
      || (|x| == 7 && ToLower(x[0]) == 'f' && ToLower(x[3]) == 's')
  {
    if EqualsIgnoringCase(x, "http://") {
      assert ToLower(x[0]) == ToLower("http://"[0]) && ToLower(x[4]) == ToLower("http://"[4]);
    } else if EqualsIgnoringCase(x, "https://") {
      assert ToLower(x[0]) == ToLower("https://"[0]) && ToLower(x[4]) == ToLower("https://"[4]);
    } else if EqualsIgnoringCase(x, "ftp://") {
      assert ToLower(x[0]) == ToLower("ftp://"[0]) && ToLower(x[3]) == ToLower("ftp://"[3]);
    } else {
      assert ToLower(x[0]) == ToLower("ftps://"[0]) && ToLower(x[3]) == ToLower("ftps://"[3]);
    }
  }

  /** Length of the scheme and `://` that `s` starts with, or 0 when it starts with none. */
  function SchemeLength(s: string): (n: nat)
    ensures n <= |s|
    ensures n != 0 ==> IsScheme(s[..n])
    ensures forall i :: 0 <= i <= |s| && IsScheme(s[..i]) ==> i == n
  {
    var n :=
      if HasPrefixIgnoringCase(s, "http://") then 7
      else if HasPrefixIgnoringCase(s, "https://") then 8
      else if HasPrefixIgnoringCase(s, "ftp://") then 6
      else if HasPrefixIgnoringCase(s, "ftps://") then 7
      else 0;
    assert forall i :: 0 <= i <= |s| && IsScheme(s[..i]) ==> i == n by {
      forall i | 0 <= i <= |s| && IsScheme(s[..i]) ensures i == n {
        SchemeSignature(s[..i]);
        if n != 0 {
          SchemeSignature(s[..n]);
        }
      }
    }
    n
  }

  // ---------------------------------------------------------------------
  // Domain names

  /** `h` without the optional dot that may end a domain name. */
  function DropFinalDot(h: string): string {
    if 1 <= |h| && h[|h| - 1] == '.' then h[..|h| - 1] else h
  }

  /** The domain alternative: at least two dot-separated pieces, all labels but the last. */
  function MatchDomain(h: string): bool {
    DomainPieces(SplitOn(DropFinalDot(h), '.'))
  }

  /** At least two pieces: labels, then a final label. */
  predicate DomainPieces(parts: seq<string>) {
    && 2 <= |parts|
    && (forall m :: 0 <= m < |parts| - 1 ==> IsLabel(parts[m]))
    && IsTopLabel(parts[|parts| - 1])
  }

  /** A label is 1 to 63 letters, digits and hyphens that starts and ends with a letter or digit. */
  lemma LabelShape(l: string)
    ensures IsLabel(l) <==>
      && 1 <= |l| <= 63
      && IsAlnum(l[0]) && IsAlnum(l[|l| - 1])
      && All(l, IsAlnumOrHyphen)
  {
    if 2 <= |l| {
      if IsLabel(l) {
        forall t | 0 <= t < |l| ensures IsAlnumOrHyphen(l[t]) {
          if 0 < t < |l| - 1 {
            assert l[t] == l[1..|l| - 1][t - 1];
            assert IsAlnumOrHyphen(l[1..|l| - 1][t - 1]);
          }
        }
      }
      if All(l, IsAlnumOrHyphen) {
        AllSlice(l, 1, |l| - 1, IsAlnumOrHyphen);
      }
    }
  }

  lemma TopLabelShape(t: string)
    requires IsTopLabel(t)
    ensures 2 <= |t| && All(t, IsAlnumOrHyphen) && '.' !in t
  {
    forall i | 0 <= i < |t| ensures t[i] != '.' {
      assert IsAlnumOrHyphen(t[i]);
    }
  }

  /** Following each label by a dot and then the last label is joining them all with dots. */
  lemma {:induction false} DottedJoinSep(labels: seq<string>, top: string)
    ensures Dotted(labels) + top == JoinSep(labels + [top], '.')
    decreases |labels|
  {
    if labels != [] {
      DottedJoinSep(labels[1..], top);
      assert (labels + [top])[1..] == labels[1..] + [top];
    }
  }

  lemma {:induction false} DottedAll(labels: seq<string>, p: char -> bool)
    requires p('.')
    requires forall m :: 0 <= m < |labels| ==> All(labels[m], p)
    ensures All(Dotted(labels), p)
    decreases |labels|
  {
    if labels != [] {
      DottedAll(labels[1..], p);
      AllAppend(labels[0], ".", p);
      AllAppend(labels[0] + ".", Dotted(labels[1..]), p);
    }
  }

  lemma MatchDomainSound(h: string)
    requires MatchDomain(h)
    ensures IsDomain(h)
  {
    var body := DropFinalDot(h);
    var parts := SplitOn(body, '.');
    var labels := parts[..|parts| - 1];
    var top := parts[|parts| - 1];
    var dot := if body == h then "" else ".";
    assert parts == labels + [top];
    DottedJoinSep(labels, top);
    assert h == Dotted(labels) + top + dot;
    assert forall m :: 0 <= m < |labels| ==> IsLabel(labels[m]);
  }

  lemma DropFinalDotAppend(body: string, dot: string)
    requires 1 <= |body| && body[|body| - 1] != '.'
    requires dot == "" || dot == "."
    ensures DropFinalDot(body + dot) == body
  {
    if dot == "" {
      assert body + dot == body;
    } else {
      assert (body + dot)[..|body|] == body;
    }
  }

  lemma LabelHasNoDot(l: string)
    requires IsLabel(l)
    ensures '.' !in l
  {
    LabelShape(l);
    forall t | 0 <= t < |l| ensures l[t] != '.' {
      assert IsAlnumOrHyphen(l[t]);
    }
  }

  lemma PiecesHaveNoDot(labels: seq<string>, top: string)
    requires forall m :: 0 <= m < |labels| ==> IsLabel(labels[m])
    requires IsTopLabel(top)
    ensures forall m :: 0 <= m < |labels + [top]| ==> '.' !in (labels + [top])[m]
  {
    forall m | 0 <= m < |labels + [top]| ensures '.' !in (labels + [top])[m] {
      if m < |labels| {
        LabelHasNoDot(labels[m]);
      }
    }
  }

  /** Without its optional final dot, a domain name is its labels joined by dots. */
  lemma DomainBody(labels: seq<string>, top: string, dot: string)
    requires 2 <= |top| && '.' !in top
    requires dot == "" || dot == "."
    ensures DropFinalDot(Dotted(labels) + top + dot) == JoinSep(labels + [top], '.')
  {
    var joined := Dotted(labels) + top;
    assert joined[|joined| - 1] == top[|top| - 1];
    DropFinalDotAppend(joined, dot);
    DottedJoinSep(labels, top);
  }

  lemma LabelsThenTop(labels: seq<string>, top: string)
    requires |labels| >= 1
    requires forall m :: 0 <= m < |labels| ==> IsLabel(labels[m])
    requires IsTopLabel(top)
    ensures DomainPieces(labels + [top])
  {
    forall m | 0 <= m < |labels| ensures IsLabel((labels + [top])[m]) {
      assert (labels + [top])[m] == labels[m];
    }
  }

  lemma MatchDomainComplete(labels: seq<string>, top: string, dot: string)
    requires |labels| >= 1
    requires forall m :: 0 <= m < |labels| ==> IsLabel(labels[m])
    requires IsTopLabel(top)
    requires dot == "" || dot == "."
    ensures MatchDomain(Dotted(labels) + top + dot)
  {
    TopLabelShape(top);
    PiecesHaveNoDot(labels, top);
    DomainBody(labels, top, dot);
    SplitOnJoinSep(labels + [top], '.');
    LabelsThenTop(labels, top);
  }

  lemma MatchDomainCorrect(h: string)
    ensures MatchDomain(h) <==> IsDomain(h)
  {
    if MatchDomain(h) {
      MatchDomainSound(h);
    }
    if IsDomain(h) {
      var labels: seq<string>, top: string, dot: string :|
        && |labels| >= 1
        && (forall m :: 0 <= m < |labels| ==> IsLabel(labels[m]))
        && IsTopLabel(top)
        && (dot == "" || dot == ".")
        && h == Dotted(labels) + top + dot;
      MatchDomainComplete(labels, top, dot);
    }
  }

  // ---------------------------------------------------------------------
  // Dotted quads

  /** The dotted-quad alternative: exactly four dot-separated groups of one to three digits. */
  function MatchIPv4(h: string): bool {
    var parts := SplitOn(h, '.');
    |parts| == 4 && forall m :: 0 <= m < 4 ==> IsDigitGroup(parts[m])
  }

  lemma JoinSepFour(a: string, b: string, c: string, d: string)
    ensures JoinSep([a, b, c, d], '.') == a + "." + b + "." + c + "." + d
  {
    assert [a, b, c, d][1..] == [b, c, d];
    assert [b, c, d][1..] == [c, d];
    assert [c, d][1..] == [d];
    assert JoinSep([c, d], '.') == c + "." + d;
    assert JoinSep([b, c, d], '.') == b + "." + (c + "." + d);
  }

  lemma MatchIPv4Correct(h: string)
    ensures MatchIPv4(h) <==> IsIPv4(h)
  {
    var parts := SplitOn(h, '.');
    if MatchIPv4(h) {
      JoinSepFour(parts[0], parts[1], parts[2], parts[3]);
      assert parts == [parts[0], parts[1], parts[2], parts[3]];
      assert IsDigitGroup(parts[0]) && IsDigitGroup(parts[1]);
      assert IsDigitGroup(parts[2]) && IsDigitGroup(parts[3]);
    }
    if IsIPv4(h) {
      var a: string, b: string, c: string, d: string :|
        && IsDigitGroup(a) && IsDigitGroup(b) && IsDigitGroup(c) && IsDigitGroup(d)
        && h == a + "." + b + "." + c + "." + d;
      JoinSepFour(a, b, c, d);
      var groups := [a, b, c, d];
      assert forall m :: 0 <= m < 4 ==> IsDigitGroup(groups[m]);
      SplitOnJoinSep(groups, '.');
    }
  }

  // ---------------------------------------------------------------------
  // IPv6-like hosts

  function DropOpenBracket(h: string): string {
    if 1 <= |h| && h[0] == '[' then h[1..] else h
  }

  function DropCloseBracket(h: string): string {
    if 1 <= |h| && h[|h| - 1] == ']' then h[..|h| - 1] else h
  }

  /**
   * The IPv6 alternative: without its optional brackets, only hex digits
   * and colons, with a colon that is not the last character.
   */
  function MatchIPv6(h: string): bool {
    var x := DropCloseBracket(DropOpenBracket(h));
    IndexOf(x, ':') + 1 < |x| && All(x, IsHexOrColon)
  }

  lemma DropOpenBracketSplit(h: string)
    ensures h == (if 1 <= |h| && h[0] == '[' then "[" else "") + DropOpenBracket(h)
  {
    if 1 <= |h| && h[0] == '[' {
      assert h == [h[0]] + h[1..];
    }
  }

  lemma DropCloseBracketSplit(h: string)
    ensures h == DropCloseBracket(h) + (if 1 <= |h| && h[|h| - 1] == ']' then "]" else "")
  {
    if 1 <= |h| && h[|h| - 1] == ']' {
      assert h == h[..|h| - 1] + [h[|h| - 1]];
    }
  }

  /** Hex digits and colons with a colon before the end split at their first colon. */
  lemma SplitAtFirstColon(z: string)
    requires IndexOf(z, ':') + 1 < |z| && All(z, IsHexOrColon)
    ensures var c := IndexOf(z, ':');
      && All(z[..c], IsHexDigit)
      && 1 <= |z[c + 1..]| && All(z[c + 1..], IsHexOrColon)
      && z == z[..c] + ":" + z[c + 1..]
  {
    var c := IndexOf(z, ':');
    var x, y := z[..c], z[c + 1..];
    forall t | 0 <= t < |x| ensures IsHexDigit(x[t]) {
      assert x[t] == z[t] && z[t] != ':';
      assert IsHexOrColon(z[t]);
    }
    forall t | 0 <= t < |y| ensures IsHexOrColon(y[t]) {
      assert y[t] == z[c + 1 + t];
      assert IsHexOrColon(z[c + 1 + t]);
    }
    assert z == x + [z[c]] + y;
  }

  lemma IPv6Witness(open: string, x: string, y: string, close: string)
    requires open == "" || open == "["
    requires All(x, IsHexDigit)
    requires 1 <= |y| && All(y, IsHexOrColon)
    requires close == "" || close == "]"
    ensures IsIPv6(open + (x + ":" + y) + close)
  {
    assert open + (x + ":" + y) + close == open + x + ":" + y + close;
  }

  lemma MatchIPv6Sound(h: string)
    requires MatchIPv6(h)
    ensures IsIPv6(h)
  {
    var inner := DropOpenBracket(h);
    var z := DropCloseBracket(inner);
    var c := IndexOf(z, ':');
    DropOpenBracketSplit(h);
    DropCloseBracketSplit(inner);
    SplitAtFirstColon(z);
    var open := if 1 <= |h| && h[0] == '[' then "[" else "";
    var close := if 1 <= |inner| && inner[|inner| - 1] == ']' then "]" else "";
    IPv6Witness(open, z[..c], z[c + 1..], close);
  }

  /** The optional brackets come off again when what they enclose is not itself a bracket. */
  lemma BracketsDropped(open: string, z: string, close: string)
    requires open == "" || open == "["
    requires close == "" || close == "]"
    requires 1 <= |z| && z[0] != '[' && z[|z| - 1] != ']'
    ensures DropCloseBracket(DropOpenBracket(open + z + close)) == z
  {
    assert open + z + close == open + (z + close);
    assert DropOpenBracket(open + (z + close)) == z + close by {
      if open == "" {
        assert (z + close)[0] == z[0];
      } else {
        assert (open + (z + close))[1..] == z + close;
      }
    }
    if close == "" {
      assert z + close == z;
    } else {
      assert (z + close)[..|z|] == z;
    }
  }

  /** Hex digits, a colon, and hex digits and colons: the first colon is the one in between. */
  lemma JoinAtColon(x: string, y: string)
    requires All(x, IsHexDigit)
    requires 1 <= |y| && All(y, IsHexOrColon)
    ensures var z := x + ":" + y;
      && IndexOf(z, ':') + 1 < |z| && All(z, IsHexOrColon)
      && z[0] != '[' && z[|z| - 1] != ']'
  {
    var z := x + ":" + y;
    assert z[|z| - 1] == y[|y| - 1];
    assert IsHexOrColon(y[|y| - 1]);
    if x != "" {
      assert z[0] == x[0];
      assert IsHexDigit(x[0]);
    }
    forall t | 0 <= t < |x| ensures z[t] == x[t] && z[t] != ':' {
      assert IsHexDigit(x[t]);
    }
    assert z[|x|] == ':';
    forall t | 0 <= t < |z| ensures IsHexOrColon(z[t]) {
      if t < |x| {
        assert IsHexDigit(x[t]);
      } else if |x| < t {
        assert z[t] == y[t - |x| - 1];
        assert IsHexOrColon(y[t - |x| - 1]);
      }
    }
  }

  lemma RegroupIPv6(open: string, x: string, y: string, close: string)
    ensures open + x + ":" + y + close == open + (x + ":" + y) + close
  {
  }

  lemma MatchIPv6Complete(open: string, x: string, y: string, close: string)
    requires open == "" || open == "["
    requires All(x, IsHexDigit)
    requires 1 <= |y| && All(y, IsHexOrColon)
    requires close == "" || close == "]"
    ensures MatchIPv6(open + x + ":" + y + close)
  {
    var z := x + ":" + y;
    JoinAtColon(x, y);
    BracketsDropped(open, z, close);
    RegroupIPv6(open, x, y, close);
  }

  lemma MatchIPv6Correct(h: string)
    ensures MatchIPv6(h) <==> IsIPv6(h)
  {
    if MatchIPv6(h) {
      MatchIPv6Sound(h);
    }
    if IsIPv6(h) {
      var open: string, x: string, y: string, close: string :|
        && (open == "" || open == "[")
        && All(x, IsHexDigit)
        && 1 <= |y| && All(y, IsHexOrColon)
        && (close == "" || close == "]")
        && h == open + x + ":" + y + close;
      MatchIPv6Complete(open, x, y, close);
    }
  }

  // ---------------------------------------------------------------------
  // Hosts, ports and tails

  function MatchHost(h: string): bool {
    MatchDomain(h) || IsLocalhost(h) || MatchIPv4(h) || MatchIPv6(h)
  }

  lemma MatchHostCorrect(h: string)
    ensures MatchHost(h) <==> IsHost(h)
  {
    MatchDomainCorrect(h);
    MatchIPv4Correct(h);
    MatchIPv6Correct(h);
  }

  /** The characters a host or a port can be made of. */
  predicate IsHostChar(c: char) {
    IsAlnum(c) || c == '-' || c == '.' || c == ':' || c == '[' || c == ']'
  }

  lemma DomainChars(labels: seq<string>, top: string, dot: string)
    requires forall m :: 0 <= m < |labels| ==> IsLabel(labels[m])
    requires IsTopLabel(top) && (dot == "" || dot == ".")
    ensures All(Dotted(labels) + top + dot, IsHostChar)
  {
    forall m | 0 <= m < |labels| ensures All(labels[m], IsHostChar) {
      LabelShape(labels[m]);
    }
    DottedAll(labels, IsHostChar);
    AllAppend(Dotted(labels), top, IsHostChar);
    AllAppend(Dotted(labels) + top, dot, IsHostChar);
  }

  lemma IPv4Chars(a: string, b: string, c: string, d: string)
    requires IsDigitGroup(a) && IsDigitGroup(b) && IsDigitGroup(c) && IsDigitGroup(d)
    ensures All(a + "." + b + "." + c + "." + d, IsHostChar)
  {
    JoinSepFour(a, b, c, d);
    JoinSepAll([a, b, c, d], '.', IsHostChar);
  }

  lemma IPv6Chars(open: string, x: string, y: string, close: string)
    requires open == "" || open == "["
    requires All(x, IsHexDigit) && All(y, IsHexOrColon)
    requires close == "" || close == "]"
    ensures All(open + x + ":" + y + close, IsHostChar)
  {
    AllAppend(open, x, IsHostChar);
    AllAppend(open + x, ":", IsHostChar);
    AllAppend(open + x + ":", y, IsHostChar);
    AllAppend(open + x + ":" + y, close, IsHostChar);
  }

  lemma HostChars(h: string)
    requires IsHost(h)
    ensures All(h, IsHostChar)
  {
    if IsDomain(h) {
      var labels: seq<string>, top: string, dot: string :|
        && |labels| >= 1
        && (forall m :: 0 <= m < |labels| ==> IsLabel(labels[m]))
        && IsTopLabel(top)
        && (dot == "" || dot == ".")
        && h == Dotted(labels) + top + dot;
      DomainChars(labels, top, dot);
    } else if IsLocalhost(h) {
      forall t | 0 <= t < |h| ensures IsHostChar(h[t]) {
        assert ToLower(h[t]) == "localhost"[t];
      }
    } else if IsIPv4(h) {
      var a: string, b: string, c: string, d: string :|
        && IsDigitGroup(a) && IsDigitGroup(b) && IsDigitGroup(c) && IsDigitGroup(d)
        && h == a + "." + b + "." + c + "." + d;
      IPv4Chars(a, b, c, d);
    } else {
      var open: string, x: string, y: string, close: string :|
        && (open == "" || open == "[")
        && All(x, IsHexDigit)
        && 1 <= |y| && All(y, IsHexOrColon)
        && (close == "" || close == "]")
        && h == open + x + ":" + y + close;
      IPv6Chars(open, x, y, close);
    }
  }

  /** Host, then port: some split exists. */
  ghost predicate IsHostPort(p: string) {
    exists j :: 0 <= j <= |p| && IsHost(p[..j]) && IsPort(p[j..])
  }

  /** A port can only start at the last colon, so that is the one split to try besides "no port". */
  function MatchHostPort(p: string): bool {
    || MatchHost(p)
    || (var c := LastIndexOf(p, ':'); 0 <= c && IsPort(p[c..]) && MatchHost(p[..c]))
  }

  lemma MatchHostPortSound(p: string)
    requires MatchHostPort(p)
    ensures IsHostPort(p)
  {
    if MatchHost(p) {
      MatchHostCorrect(p);
      assert p[..|p|] == p && p[|p|..] == "";
      assert 0 <= |p| <= |p| && IsHost(p[..|p|]) && IsPort(p[|p|..]);
    } else {
      var c := LastIndexOf(p, ':');
      MatchHostCorrect(p[..c]);
      assert 0 <= c <= |p| && IsHost(p[..c]) && IsPort(p[c..]);
    }
  }

  /** A port holds a single colon, its first character: so it starts at the last colon. */
  lemma PortStartsAtLastColon(p: string, j: int)
    requires 0 <= j < |p| && IsPort(p[j..])
    ensures LastIndexOf(p, ':') == j
  {
    forall t | j < t < |p| ensures p[t] != ':' {
      assert p[t] == p[j..][1..][t - j - 1];
      assert IsDigit(p[j..][1..][t - j - 1]);
    }
    assert p[j] == p[j..][0];
  }

  lemma MatchHostPortComplete(p: string, j: int)
    requires 0 <= j <= |p| && IsHost(p[..j]) && IsPort(p[j..])
    ensures MatchHostPort(p)
  {
    MatchHostCorrect(p[..j]);
    if j == |p| {
      assert p[..j] == p;
    } else {
      PortStartsAtLastColon(p, j);
    }
  }

  lemma MatchHostPortCorrect(p: string)
    ensures MatchHostPort(p) <==> IsHostPort(p)
  {
    if MatchHostPort(p) {
      MatchHostPortSound(p);
    }
    if IsHostPort(p) {
      var j :| 0 <= j <= |p| && IsHost(p[..j]) && IsPort(p[j..]);
      MatchHostPortComplete(p, j);
    }
  }

  /** Index of the first `/` or `?` in `r`, or `|r|`: no host or port character is either. */
  function TailStart(r: string): (k: nat)
    ensures k <= |r|
    ensures forall t :: 0 <= t < k ==> r[t] != '/' && r[t] != '?'
    ensures k < |r| ==> r[k] == '/' || r[k] == '?'
  {
    if r == [] || r[0] == '/' || r[0] == '?' then 0 else 1 + TailStart(r[1..])
  }

  /** Everything after `://`: the tail starts at the first `/` or `?`. */
  function MatchAfterScheme(r: string): bool {
    var k := TailStart(r);
    IsTail(r[k..]) && MatchHostPort(r[..k])
  }

  lemma PortChars(p: string)
    requires IsPort(p)
    ensures All(p, IsHostChar)
  {
    forall t | 0 <= t < |p| ensures IsHostChar(p[t]) {
      if 0 < t {
        assert p[t] == p[1..][t - 1];
        assert IsDigit(p[1..][t - 1]);
      }
    }
  }

  lemma HostPortChars(r: string, j: int, k: int)
    requires 0 <= j <= k <= |r|
    requires IsHost(r[..j]) && IsPort(r[j..k])
    ensures All(r[..k], IsHostChar)
  {
    HostChars(r[..j]);
    PortChars(r[j..k]);
    assert r[..k] == r[..j] + r[j..k];
    AllAppend(r[..j], r[j..k], IsHostChar);
  }

  /** When no `/` or `?` comes before position `k` and one (or the end) is at `k`, the tail starts at `k`. */
  lemma TailStartAt(r: string, k: int)
    requires 0 <= k <= |r|
    requires All(r[..k], IsHostChar)
    requires k == |r| || r[k] == '/' || r[k] == '?'
    ensures TailStart(r) == k
  {
    forall t | 0 <= t < k ensures r[t] != '/' && r[t] != '?' {
      assert r[t] == r[..k][t];
      assert IsHostChar(r[..k][t]);
    }
  }

  /** Once a host and a port have been read, the first `/` or `?` is where the tail starts. */
  lemma TailStartAfterHostPort(r: string, j: int, k: int)
    requires 0 <= j <= k <= |r|
    requires IsHost(r[..j]) && IsPort(r[j..k]) && IsTail(r[k..])
    ensures TailStart(r) == k
  {
    HostPortChars(r, j, k);
    if k < |r| {
      assert r[k] == r[k..][0];
    }
    TailStartAt(r, k);
  }

  lemma MatchAfterSchemeSound(r: string)
    requires MatchAfterScheme(r)
    ensures IsAfterScheme(r)
  {
    var k := TailStart(r);
    MatchHostPortCorrect(r[..k]);
    var j :| 0 <= j <= k && IsHost(r[..k][..j]) && IsPort(r[..k][j..]);
    assert r[..k][..j] == r[..j] && r[..k][j..] == r[j..k];
    assert 0 <= j <= k <= |r| && IsHost(r[..j]) && IsPort(r[j..k]) && IsTail(r[k..]);
  }

  lemma MatchAfterSchemeComplete(r: string, j: int, k: int)
    requires 0 <= j <= k <= |r|
    requires IsHost(r[..j]) && IsPort(r[j..k]) && IsTail(r[k..])
    ensures MatchAfterScheme(r)
  {
    TailStartAfterHostPort(r, j, k);
    assert r[..k][..j] == r[..j] && r[..k][j..] == r[j..k];
    assert 0 <= j <= k && IsHost(r[..k][..j]) && IsPort(r[..k][j..]);
    MatchHostPortCorrect(r[..k]);
  }

  lemma MatchAfterSchemeCorrect(r: string)
    ensures MatchAfterScheme(r) <==> IsAfterScheme(r)
  {
    if MatchAfterScheme(r) {
      MatchAfterSchemeSound(r);
    }
    if IsAfterScheme(r) {
      var j, k :| 0 <= j <= k <= |r| && IsHost(r[..j]) && IsPort(r[j..k]) && IsTail(r[k..]);
      MatchAfterSchemeComplete(r, j, k);
    }
  }

  // ---------------------------------------------------------------------
  // The whole URL

  function MatchUrl(s: string): bool {
    var n := SchemeLength(s);
    n != 0 && MatchAfterScheme(s[n..])
  }

  lemma MatchUrlCorrect(s: string)
    ensures MatchUrl(s) <==> Matches(s)
  {
    var n := SchemeLength(s);
    MatchAfterSchemeCorrect(s[n..]);
  }

  /** `is_valid_url`: exactly the strings the pattern accepts. */
  function IsValidUrl(url: string): (ok: bool)
    ensures ok <==> Accepts(url)
  {
    MatchUrlCorrect(url);
    if 1 <= |url| && url[|url| - 1] == '\n' then
      MatchUrlCorrect(url[..|url| - 1]);
      MatchUrl(url) || MatchUrl(url[..|url| - 1])
    else
      MatchUrl(url)
  }
}
