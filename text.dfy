/**
  The Python string operations the scripts rely on: `strip`, `rstrip(c)`,
  `startswith`/`endswith`, `find`, `split(sep)`, `sep.join`, `replace` and
  an ASCII `lower`. Strings are sequences of Unicode scalar values, as in Python 3.
 */
module Text {
  import opened Wrappers

  /** The characters for which Python's `str.isspace()` holds. */
  predicate IsSpace(c: char) {
    || c == ' '
    || ('\t' <= c <= '\r')                 // \t \n \v \f \r
    || ('\U{1C}' <= c <= '\U{1F}')         // file, group, record and unit separators
    || c == '\U{85}' || c == '\U{A0}' || c == '\U{1680}'
    || ('\U{2000}' <= c <= '\U{200A}')
    || c == '\U{2028}' || c == '\U{2029}' || c == '\U{202F}' || c == '\U{205F}' || c == '\U{3000}'
  }

  /** Index of the first non-whitespace character at or after `i` (or `|s|`). */
  function SkipSpaces(s: string, i: nat): (n: nat)
    requires i <= |s|
    ensures i <= n <= |s|
    ensures forall k :: i <= k < n ==> IsSpace(s[k])
    ensures n == |s| || !IsSpace(s[n])
    decreases |s| - i
  {
    if i < |s| && IsSpace(s[i]) then SkipSpaces(s, i + 1) else i
  }

  /** Index just past the last non-whitespace character before `j`, not going below `lo`. */
  function SkipSpacesBack(s: string, lo: nat, j: nat): (n: nat)
    requires lo <= j <= |s|
    ensures lo <= n <= j
    ensures forall k :: n <= k < j ==> IsSpace(s[k])
    ensures n == lo || !IsSpace(s[n - 1])
    decreases j
  {
    if lo < j && IsSpace(s[j - 1]) then SkipSpacesBack(s, lo, j - 1) else j
  }

  /** `s.strip()`: `s` without its leading and trailing whitespace. */
  function Strip(s: string): (r: string)
    ensures r == [] <==> forall k :: 0 <= k < |s| ==> IsSpace(s[k])
    ensures r == [] || (!IsSpace(r[0]) && !IsSpace(r[|r| - 1]))
    ensures forall c :: c in r ==> c in s
    ensures exists a, b :: && 0 <= a <= b <= |s| && r == s[a..b]
                           && (forall k :: 0 <= k < a ==> IsSpace(s[k]))
                           && (forall k :: b <= k < |s| ==> IsSpace(s[k]))
  {
    var a := SkipSpaces(s, 0);
    var b := SkipSpacesBack(s, a, |s|);
    StripSlice(s, a, b);
    s[a..b]
  }

  /** The slice between the leading and the trailing whitespace has the properties of `strip()`. */
  lemma StripSlice(s: string, a: nat, b: nat)
    requires a == SkipSpaces(s, 0) && b == SkipSpacesBack(s, a, |s|)
    ensures var r := s[a..b];
            && (r == [] <==> forall k :: 0 <= k < |s| ==> IsSpace(s[k]))
            && (r == [] || (!IsSpace(r[0]) && !IsSpace(r[|r| - 1])))
            && (forall c :: c in r ==> c in s)
  {
    var r := s[a..b];
    if a == b {
      forall k | 0 <= k < |s|
        ensures IsSpace(s[k])
      {
        if k < a {
        } else {
        }
      }
    } else {
      assert a < |s| && !IsSpace(s[a]);
      assert r[0] == s[a] && r[|r| - 1] == s[b - 1];
    }
    forall c | c in r
      ensures c in s
    {
      var i :| 0 <= i < |r| && r[i] == c;
      assert s[a + i] == c;
    }
  }

  lemma StripKeepsOnly(s: string, c: char)
    requires c !in s
    ensures c !in Strip(s)
  {
  }

  /** A stripped string never ends with a newline. */
  lemma StripHasNoFinalNewline(s: string)
    ensures Strip(s) == [] || Strip(s)[|Strip(s)| - 1] != '\n'
  {
  }

  predicate StartsWith(s: string, c: char) {
    |s| > 0 && s[0] == c
  }

  predicate EndsWith(s: string, c: char) {
    |s| > 0 && s[|s| - 1] == c
  }

  /** `s.rstrip(c)`: drop every trailing `c`. */
  function RStripChar(s: string, c: char): (r: string)
    ensures |r| <= |s| && r == s[..|r|]
    ensures forall k :: |r| <= k < |s| ==> s[k] == c
    ensures !EndsWith(r, c)
    decreases |s|
  {
    if EndsWith(s, c) then RStripChar(s[..|s| - 1], c) else s
  }

  lemma {:induction false} RStripCharAppend(s: string, c: char)
    ensures RStripChar(s + [c], c) == RStripChar(s, c)
  {
    assert (s + [c])[..|s + [c]| - 1] == s;
  }

  /** `c * n`: the character `c` written `n` times. */
  function Repeat(c: char, n: nat): (r: string)
    ensures |r| == n
    ensures forall k :: 0 <= k < n ==> r[k] == c
  {
    if n == 0 then [] else [c] + Repeat(c, n - 1)
  }

  /** `s` is `r` followed by a run of `c`. */
  ghost predicate RunAfter(s: string, r: string, c: char) {
    exists n: nat :: s == r + Repeat(c, n)
  }

  /** `s.rstrip(c)` is `r` exactly when `s` is `r` followed by some run of `c` and `r` does not end with `c`. */
  lemma RStripCharIff(s: string, c: char, r: string)
    ensures RStripChar(s, c) == r <==> !EndsWith(r, c) && RunAfter(s, r, c)
  {
    if RStripChar(s, c) == r {
      assert s == r + Repeat(c, |s| - |r|);
    }
    if !EndsWith(r, c) && RunAfter(s, r, c) {
      var n: nat :| s == r + Repeat(c, n);
      RStripCharOfRun(r, c, n);
    }
  }

  lemma {:induction false} RStripCharOfRun(r: string, c: char, n: nat)
    requires !EndsWith(r, c)
    ensures RStripChar(r + Repeat(c, n), c) == r
    decreases n
  {
    if n == 0 {
      assert r + Repeat(c, 0) == r;
    } else {
      RStripCharRun(r, c, n);
    }
  }

  /** Appending a run of `c` never changes `s.rstrip(c)`. */
  lemma {:induction false} RStripCharRun(s: string, c: char, n: nat)
    ensures RStripChar(s + Repeat(c, n), c) == RStripChar(s, c)
    decreases n
  {
    if n == 0 {
      assert s + Repeat(c, 0) == s;
    } else {
      assert s + Repeat(c, n) == (s + [c]) + Repeat(c, n - 1);
      RStripCharRun(s + [c], c, n - 1);
      RStripCharAppend(s, c);
    }
  }

  function LowerChar(c: char): char {
    if 'A' <= c <= 'Z' then (c as int + 32) as char else c
  }

  /** `s.lower()` restricted to ASCII letters; every other character is kept. */
  function Lower(s: string): (r: string)
    ensures |r| == |s|
    ensures forall k :: 0 <= k < |s| ==> r[k] == LowerChar(s[k])
  {
    if s == [] then [] else [LowerChar(s[0])] + Lower(s[1..])
  }

  lemma LowerIdempotent(s: string)
    ensures Lower(Lower(s)) == Lower(s)
  {
  }

  lemma LowerAppend(a: string, b: string)
    ensures Lower(a + b) == Lower(a) + Lower(b)
  {
  }

  /** `p` occurs in `s` at index `i`. */
  predicate OccursAt(s: string, p: string, i: int) {
    0 <= i && i + |p| <= |s| && s[i..i + |p|] == p
  }

  predicate Occurs(s: string, p: string) {
    exists i | 0 <= i <= |s| :: OccursAt(s, p, i)
  }

  /** `s.find(p)`: the leftmost index at which `p` occurs, or None for -1. */
  function Find(s: string, p: string): (r: Option<nat>)
    ensures r.Some? ==> OccursAt(s, p, r.value) && forall j :: 0 <= j < r.value ==> !OccursAt(s, p, j)
    ensures r.None? <==> !Occurs(s, p)
    decreases |s|
  {
    if |s| < |p| then None
    else if s[..|p|] == p then Some(0)
    else
      OccursShift(s, p);
      match Find(s[1..], p)
      case None => None
      case Some(i) =>
        assert OccursAt(s, p, i + 1);
        Some(i + 1)
  }

  /** Past index 0, an occurrence in `s` is an occurrence in `s[1..]`, one place to the left. */
  lemma OccursShift(s: string, p: string)
    requires |s| > 0
    ensures forall j :: 0 < j ==> (OccursAt(s, p, j) <==> OccursAt(s[1..], p, j - 1))
  {
    forall j | 0 < j
      ensures OccursAt(s, p, j) <==> OccursAt(s[1..], p, j - 1)
    {
      if j + |p| <= |s| {
        var u, v := s[j..j + |p|], s[1..][j - 1..j - 1 + |p|];
        assert forall k :: 0 <= k < |u| ==> u[k] == v[k];
        assert u == v;
      }
    }
  }

  /** A one-character pattern occurs exactly where that character stands. */
  lemma OccursChar(s: string, c: char)
    ensures Occurs(s, [c]) <==> c in s
  {
    if c in s {
      var k :| 0 <= k < |s| && s[k] == c;
      assert OccursAt(s, [c], k);
    }
    if Occurs(s, [c]) {
      var k :| 0 <= k <= |s| && OccursAt(s, [c], k);
      assert s[k] == s[k..k + 1][0];
    }
  }

  /** An occurrence inside a prefix is an occurrence in the whole string. */
  lemma OccursInPrefix(s: string, p: string, n: nat, j: int)
    requires n <= |s|
    requires OccursAt(s[..n], p, j)
    ensures OccursAt(s, p, j)
  {
    assert s[..n][j..j + |p|] == s[j..j + |p|];
  }

  /** `s.split(sep)`: the pieces of `s` between successive leftmost occurrences of `sep`. */
  function SplitOn(s: string, sep: string): (parts: seq<string>)
    requires |sep| > 0
    ensures |parts| >= 1
    decreases |s|
  {
    match Find(s, sep)
    case None => [s]
    case Some(i) => [s[..i]] + SplitOn(s[i + |sep|..], sep)
  }

  /** `sep.join(parts)`. */
  function Join(parts: seq<string>, sep: string): string
    decreases |parts|
  {
    if |parts| == 0 then []
    else if |parts| == 1 then parts[0]
    else parts[0] + sep + Join(parts[1..], sep)
  }

  lemma JoinCons(a: string, rest: seq<string>, sep: string)
    requires |rest| >= 1
    ensures Join([a] + rest, sep) == a + sep + Join(rest, sep)
  {
    assert ([a] + rest)[1..] == rest;
  }

  lemma SliceAround(s: string, i: nat, n: nat)
    requires i + n <= |s|
    ensures s == s[..i] + s[i..i + n] + s[i + n..]
  {
  }

  /** Joining the pieces with the separator gives back the string. */
  lemma {:induction false} JoinSplit(s: string, sep: string)
    requires |sep| > 0
    ensures Join(SplitOn(s, sep), sep) == s
    decreases |s|
  {
    match Find(s, sep)
    case None =>
    case Some(i) =>
      var rest := s[i + |sep|..];
      JoinSplit(rest, sep);
      JoinCons(s[..i], SplitOn(rest, sep), sep);
      SliceAround(s, i, |sep|);
  }

  /** No piece of a split contains the separator. */
  lemma {:induction false} SplitPiecesFree(s: string, sep: string)
    requires |sep| > 0
    ensures forall k :: 0 <= k < |SplitOn(s, sep)| ==> !Occurs(SplitOn(s, sep)[k], sep)
    decreases |s|
  {
    match Find(s, sep)
    case None =>
    case Some(i) =>
      var rest := s[i + |sep|..];
      SplitPiecesFree(rest, sep);
      if Occurs(s[..i], sep) {
        var j :| 0 <= j <= i && OccursAt(s[..i], sep, j);
        OccursInPrefix(s, sep, i, j);
        assert false;
      }
      var parts := SplitOn(s, sep);
      assert parts == [s[..i]] + SplitOn(rest, sep);
      forall k | 0 <= k < |parts| ensures !Occurs(parts[k], sep) {
        if k > 0 {
          assert parts[k] == SplitOn(rest, sep)[k - 1];
        }
      }
  }

  /** The leftmost occurrence of a character is where it first stands. */
  lemma FindCharAfter(a: string, c: char, b: string)
    requires c !in a
    ensures Find(a + [c] + b, [c]) == Some(|a|)
  {
    var s := a + [c] + b;
    assert OccursAt(s, [c], |a|);
    forall j | 0 <= j < |a| ensures !OccursAt(s, [c], j) {
      assert s[j] == a[j];
      assert s[j..j + 1] == [s[j]];
    }
  }

  /** Splitting at a separator character that the head does not contain peels the head off. */
  lemma SplitOnCharCons(a: string, c: char, b: string)
    requires c !in a
    ensures SplitOn(a + [c] + b, [c]) == [a] + SplitOn(b, [c])
  {
    var s := a + [c] + b;
    FindCharAfter(a, c, b);
    assert s[..|a|] == a;
    assert s[|a| + 1..] == b;
  }

  lemma SplitOnCharNone(a: string, c: char)
    requires c !in a
    ensures SplitOn(a, [c]) == [a]
  {
    OccursChar(a, c);
  }

  /** Splitting the join of separator-free pieces at that separator gives back the pieces. */
  lemma {:induction false} SplitJoin(parts: seq<string>, c: char)
    requires |parts| >= 1
    requires forall k :: 0 <= k < |parts| ==> c !in parts[k]
    ensures SplitOn(Join(parts, [c]), [c]) == parts
    decreases |parts|
  {
    if |parts| == 1 {
      SplitOnCharNone(parts[0], c);
    } else {
      SplitJoin(parts[1..], c);
      SplitOnCharCons(parts[0], c, Join(parts[1..], [c]));
      assert parts == [parts[0]] + parts[1..];
    }
  }

  /**
    `s.replace(p, r)`, which is `r.join(s.split(p))`: every leftmost, non-overlapping
    occurrence of `p` becomes `r` and the text between occurrences is untouched.
   */
  function ReplaceAll(s: string, p: string, r: string): string
    requires |p| > 0
  {
    Join(SplitOn(s, p), r)
  }

  /** Without an occurrence of the pattern, replacing changes nothing. */
  lemma ReplaceAbsent(s: string, p: string, r: string)
    requires |p| > 0 && !Occurs(s, p)
    ensures ReplaceAll(s, p, r) == s
  {
  }

  /** A pattern containing a character that `s` lacks cannot occur in `s`. */
  lemma AbsentCharBlocksPattern(s: string, p: string, c: char)
    requires c in p && c !in s
    ensures !Occurs(s, p)
  {
    var k :| 0 <= k < |p| && p[k] == c;
    forall i | 0 <= i <= |s| ensures !OccursAt(s, p, i) {
      if i + |p| <= |s| {
        assert s[i..i + |p|][k] == s[i + k] != c;
      }
    }
  }
}
