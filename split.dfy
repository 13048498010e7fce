/**
 * Splitting a string at a separator character and joining it back. The
 * validator uses these to find the labels of a domain name and the groups
 * of a dotted quad without guessing where one ends.
 */
module Split {
  import opened Chars

  /** `parts[0] + [sep] + parts[1] + ... + [sep] + parts[|parts| - 1]`. */
  function JoinSep(parts: seq<string>, sep: char): string
    requires |parts| >= 1
    decreases |parts|
  {
    if |parts| == 1 then parts[0] else parts[0] + [sep] + JoinSep(parts[1..], sep)
  }

  /** Index of the first `c` in `s`, or `|s|` when there is none. */
  function IndexOf(s: string, c: char): (k: nat)
    ensures k <= |s|
    ensures forall t :: 0 <= t < k ==> s[t] != c
    ensures k < |s| ==> s[k] == c
  {
    if s == [] || s[0] == c then 0 else 1 + IndexOf(s[1..], c)
  }

  /** Index of the last `c` in `s`, or -1 when there is none. */
  function LastIndexOf(s: string, c: char): (k: int)
    ensures -1 <= k < |s|
    ensures forall t :: k < t < |s| ==> s[t] != c
    ensures 0 <= k ==> s[k] == c
  {
    if s == [] then -1
    else if s[|s| - 1] == c then |s| - 1
    else LastIndexOf(s[..|s| - 1], c)
  }

  /** The pieces of `s` between occurrences of `sep`. */
  function SplitOn(s: string, sep: char): (parts: seq<string>)
    ensures |parts| >= 1
    ensures forall m :: 0 <= m < |parts| ==> sep !in parts[m]
    ensures JoinSep(parts, sep) == s
    decreases |s|
  {
    var k := IndexOf(s, sep);
    if k == |s| then [s]
    else
      var rest := SplitOn(s[k + 1..], sep);
      assert ([s[..k]] + rest)[1..] == rest;
      assert s == s[..k] + [sep] + s[k + 1..];
      [s[..k]] + rest
  }

  /** Splitting undoes joining, whenever no piece contains the separator. */
  lemma {:induction false} SplitOnJoinSep(parts: seq<string>, sep: char)
    requires |parts| >= 1
    requires forall m :: 0 <= m < |parts| ==> sep !in parts[m]
    ensures SplitOn(JoinSep(parts, sep), sep) == parts
    decreases |parts|
  {
    var s := JoinSep(parts, sep);
    var k := IndexOf(s, sep);
    if |parts| == 1 {
      assert k == |s|;
    } else {
      var p := parts[0];
      var tail := JoinSep(parts[1..], sep);
      assert s == p + [sep] + tail;
      assert s[|p|] == sep;
      assert forall t :: 0 <= t < |p| ==> s[t] == p[t];
      assert k == |p|;
      assert s[..k] == p;
      assert s[k + 1..] == tail;
      SplitOnJoinSep(parts[1..], sep);
      assert parts == [p] + parts[1..];
    }
  }

  /** Joining keeps every character in a class that holds the pieces and the separator. */
  lemma {:induction false} JoinSepAll(parts: seq<string>, sep: char, p: char -> bool)
    requires |parts| >= 1
    requires p(sep)
    requires forall m :: 0 <= m < |parts| ==> All(parts[m], p)
    ensures All(JoinSep(parts, sep), p)
    decreases |parts|
  {
    if |parts| > 1 {
      JoinSepAll(parts[1..], sep, p);
      AllAppend(parts[0], [sep], p);
      AllAppend(parts[0] + [sep], JoinSep(parts[1..], sep), p);
    }
  }
}
