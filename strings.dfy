/** Text primitives shared by the persona pipeline: Python's whitespace and
    line-boundary classes, strip, find/rfind, splitlines and "\n".join. */
module Strings {

  datatype Option<T> = None | Some(value: T)

  /** The characters for which Python's str.isspace() holds; `re`'s `\s` on
      str patterns and str.strip() with no argument use the same class. */
  predicate IsSpace(c: char) {
    c == ' ' || ('\t' <= c <= '\r') || ('\U{1c}' <= c <= '\U{1f}')
    || c == '\U{85}' || c == '\U{a0}' || c == '\U{1680}'
    || ('\U{2000}' <= c <= '\U{200a}') || c == '\U{2028}' || c == '\U{2029}'
    || c == '\U{202f}' || c == '\U{205f}' || c == '\U{3000}'
  }

  /** The line boundaries recognised by Python's str.splitlines(). */
  predicate IsLineBreak(c: char) {
    c == '\n' || c == '\r' || c == '\U{0b}' || c == '\U{0c}'
    || c == '\U{1c}' || c == '\U{1d}' || c == '\U{1e}'
    || c == '\U{85}' || c == '\U{2028}' || c == '\U{2029}'
  }

  predicate OccursAt(s: string, pat: string, i: nat) {
    i + |pat| <= |s| && s[i..i + |pat|] == pat
  }

  predicate StartsWith(s: string, prefix: string) {
    OccursAt(s, prefix, 0)
  }

  /** Whitespace removed from the front, as str.lstrip(). */
  function LStrip(s: string): string {
    if s != [] && IsSpace(s[0]) then LStrip(s[1..]) else s
  }

  /** lstrip keeps a suffix that does not start with whitespace and removes
      only whitespace. */
  lemma {:induction false} LStripSpec(s: string)
    ensures |LStrip(s)| <= |s| && LStrip(s) == s[|s| - |LStrip(s)|..]
    ensures LStrip(s) == [] || !IsSpace(LStrip(s)[0])
    ensures forall i :: 0 <= i < |s| - |LStrip(s)| ==> IsSpace(s[i])
    decreases |s|
  {
    if s != [] && IsSpace(s[0]) {
      LStripSpec(s[1..]);
      assert forall i :: 1 <= i < |s| ==> s[i] == s[1..][i - 1];
    }
  }

  /** Whitespace removed from the back, as str.rstrip(). */
  function RStrip(s: string): string {
    if s != [] && IsSpace(s[|s| - 1]) then RStrip(s[..|s| - 1]) else s
  }

  /** rstrip keeps a prefix that does not end with whitespace and removes
      only whitespace. */
  lemma {:induction false} RStripSpec(s: string)
    ensures |RStrip(s)| <= |s| && RStrip(s) == s[..|RStrip(s)|]
    ensures RStrip(s) == [] || !IsSpace(RStrip(s)[|RStrip(s)| - 1])
    ensures forall i :: |RStrip(s)| <= i < |s| ==> IsSpace(s[i])
    decreases |s|
  {
    if s != [] && IsSpace(s[|s| - 1]) {
      RStripSpec(s[..|s| - 1]);
      assert forall i :: 0 <= i < |s| - 1 ==> s[i] == s[..|s| - 1][i];
    }
  }

  /** str.strip(): whitespace removed from both ends. */
  function Strip(s: string): string {
    RStrip(LStrip(s))
  }

  /** Strip leaves a slice of its input that neither starts nor ends with
      whitespace, and removes only whitespace around it. */
  lemma StripSpec(s: string)
    ensures Strip(s) == [] || (!IsSpace(Strip(s)[0]) && !IsSpace(Strip(s)[|Strip(s)| - 1]))
    ensures exists k: nat :: (OccursAt(s, Strip(s), k)
      && (forall i :: 0 <= i < k ==> IsSpace(s[i]))
      && (forall i :: k + |Strip(s)| <= i < |s| ==> IsSpace(s[i])))
  {
    var l := LStrip(s);
    var r := RStrip(l);
    var k := |s| - |l|;
    LStripSpec(s);
    RStripSpec(l);
    assert r == s[k..k + |r|];
    assert forall i :: k + |r| <= i < |s| ==> s[i] == l[i - k];
    assert OccursAt(s, r, k);
  }

  /** The first index at or after `from` holding `c` (str.find for one character). */
  function IndexOf(s: string, c: char, from: nat): (r: Option<nat>)
    ensures r.Some? ==> from <= r.value < |s| && s[r.value] == c
    ensures r.Some? ==> forall j :: from <= j < r.value ==> s[j] != c
    ensures r.None? ==> forall j :: from <= j < |s| ==> s[j] != c
    decreases |s| - from
  {
    if from >= |s| then None
    else if s[from] == c then Some(from)
    else IndexOf(s, c, from + 1)
  }

  /** The last index below `bound` at which `pat` occurs. */
  function LastOccurrence(s: string, pat: string, bound: nat): (r: Option<nat>)
    ensures r.Some? ==> r.value < bound && OccursAt(s, pat, r.value)
    ensures r.Some? ==> forall j :: r.value < j < bound ==> !OccursAt(s, pat, j)
    ensures r.None? ==> forall j :: 0 <= j < bound ==> !OccursAt(s, pat, j)
  {
    if bound == 0 then None
    else if OccursAt(s, pat, bound - 1) then Some(bound - 1)
    else LastOccurrence(s, pat, bound - 1)
  }

  /** str.rfind(pat), with None for -1. */
  function RFind(s: string, pat: string): (r: Option<nat>)
    ensures r.Some? ==> OccursAt(s, pat, r.value)
    ensures r.Some? ==> forall j :: r.value < j ==> !OccursAt(s, pat, j)
    ensures r.None? ==> forall j :: 0 <= j ==> !OccursAt(s, pat, j)
  {
    LastOccurrence(s, pat, |s| + 1)
  }

  /** The index of the first line boundary at or after `from`, or |s|. */
  function BreakAt(s: string, from: nat): (k: nat)
    requires from <= |s|
    ensures from <= k <= |s|
    ensures k < |s| ==> IsLineBreak(s[k])
    ensures forall j :: from <= j < k ==> !IsLineBreak(s[j])
    decreases |s| - from
  {
    if from == |s| || IsLineBreak(s[from]) then from else BreakAt(s, from + 1)
  }

  /** str.splitlines(): the lines without their boundaries; "\r\n" is one
      boundary and a boundary at the very end opens no further line. */
  function SplitLines(s: string): (lines: seq<string>)
    ensures forall i :: 0 <= i < |lines| ==> forall c :: c in lines[i] ==> !IsLineBreak(c)
    ensures s == [] <==> lines == []
    decreases |s|
  {
    if s == [] then []
    else
      var k := BreakAt(s, 0);
      if k == |s| then [s]
      else if s[k] == '\r' && k + 1 < |s| && s[k + 1] == '\n' then [s[..k]] + SplitLines(s[k + 2..])
      else [s[..k]] + SplitLines(s[k + 1..])
  }

  /** "\n".join(lines). */
  function JoinLines(lines: seq<string>): (r: string)
    ensures |lines| == 1 ==> r == lines[0]
  {
    if lines == [] then []
    else if |lines| == 1 then lines[0]
    else lines[0] + "\n" + JoinLines(lines[1..])
  }

  /** str.split(sep) for a one-character separator: the pieces between
      separators, an empty piece wherever two separators meet. */
  function Split(s: string, sep: char): (pieces: seq<string>)
    ensures |pieces| >= 1
    ensures forall i :: 0 <= i < |pieces| ==> sep !in pieces[i]
    decreases |s|
  {
    match IndexOf(s, sep, 0)
    case None => [s]
    case Some(k) =>
      assert forall c :: c in s[..k] ==> c != sep;
      [s[..k]] + Split(s[k + 1..], sep)
  }

  lemma ConcatAssoc(a: string, x: string, b: string)
    ensures a + x + b == a + (x + b)
  {
  }

  lemma {:induction false} JoinLinesSnoc(init: seq<string>, last: string)
    requires init != []
    ensures JoinLines(init + [last]) == JoinLines(init) + "\n" + last
    decreases |init|
  {
    if |init| == 1 {
      assert init + [last] == [init[0], last];
    } else {
      assert (init + [last])[1..] == init[1..] + [last];
      JoinLinesSnoc(init[1..], last);
    }
  }

  lemma JoinLinesCons(x: string, ls: seq<string>)
    requires ls != []
    ensures JoinLines([x] + ls) == x + "\n" + JoinLines(ls)
  {
    assert ([x] + ls)[1..] == ls;
  }

  lemma {:induction false} JoinLinesStartsWithFirst(lines: seq<string>)
    requires lines != [] && lines[0] != []
    ensures JoinLines(lines) != [] && JoinLines(lines)[0] == lines[0][0]
  {
    if |lines| > 1 {
      assert JoinLines(lines) == lines[0] + "\n" + JoinLines(lines[1..]);
    }
  }

  /** The search finds `k` when `c` stands at `k` and nowhere before it. */
  lemma IndexOfAt(s: string, c: char, from: nat, k: nat)
    requires from <= k < |s| && s[k] == c
    requires forall j :: from <= j < k ==> s[j] != c
    ensures IndexOf(s, c, from) == Some(k)
  {
  }

  lemma IndexOfFirst(x: string, y: string, c: char)
    requires c !in x
    ensures IndexOf(x + [c] + y, c, 0) == Some(|x|)
  {
    var s := x + [c] + y;
    forall j | 0 <= j < |x| ensures s[j] != c { assert s[j] == x[j]; }
    var r := IndexOf(s, c, 0);
    assert s[|x|] == c;
    if r.None? {
      assert false;
    }
  }

  /** The first occurrence of `c` at or after `from` is the same in `s` and in
      the prefix `s[..m]` when `c` does not occur past `m`. */
  lemma {:induction false} IndexOfPrefix(s: string, m: nat, c: char, from: nat)
    requires from <= m <= |s|
    requires forall j :: m <= j < |s| ==> s[j] != c
    ensures IndexOf(s[..m], c, from) == IndexOf(s, c, from)
    decreases m - from
  {
    if from < m && s[from] != c {
      IndexOfPrefix(s, m, c, from + 1);
    }
  }

  lemma SplitNone(x: string, c: char)
    requires c !in x
    ensures Split(x, c) == [x]
  {
    assert IndexOf(x, c, 0).None? by {
      forall j | 0 <= j < |x| ensures x[j] != c { assert x[j] in x; }
    }
  }

  lemma SplitCons(x: string, y: string, c: char)
    requires c !in x
    ensures Split(x + [c] + y, c) == [x] + Split(y, c)
  {
    var s := x + [c] + y;
    IndexOfFirst(x, y, c);
    assert s[..|x|] == x;
    assert s[|x| + 1..] == y;
  }

  /** Splitting at the first occurrence `k` of `c`. */
  lemma SplitAt(s: string, k: nat, c: char)
    requires k < |s| && s[k] == c
    requires forall j :: 0 <= j < k ==> s[j] != c
    ensures Split(s, c) == [s[..k]] + Split(s[k + 1..], c)
  {
    IndexOfAt(s, c, 0, k);
  }

  /** str.split undoes "\n".join when no piece holds a newline. */
  lemma {:induction false} SplitJoinLines(lines: seq<string>)
    requires lines != []
    requires forall i :: 0 <= i < |lines| ==> '\n' !in lines[i]
    ensures Split(JoinLines(lines), '\n') == lines
    decreases |lines|
  {
    if |lines| == 1 {
      SplitNone(lines[0], '\n');
    } else {
      assert JoinLines(lines) == lines[0] + "\n" + JoinLines(lines[1..]);
      SplitCons(lines[0], JoinLines(lines[1..]), '\n');
      SplitJoinLines(lines[1..]);
    }
  }

  lemma LStripNoop(s: string)
    requires s != [] && !IsSpace(s[0])
    ensures LStrip(s) == s
  {
  }

  lemma RStripNewline(z: string)
    ensures RStrip(z + "\n") == RStrip(z)
  {
    assert (z + "\n")[..|z|] == z;
  }

  /** Trailing whitespace removed from `x + y` comes from `y` alone when `y`
      starts with a non-space character. */
  lemma {:induction false} RStripAppend(x: string, y: string)
    requires y != [] && !IsSpace(y[0])
    ensures RStrip(x + y) == x + RStrip(y)
    decreases |y|
  {
    if IsSpace(y[|y| - 1]) {
      assert (x + y)[..|x + y| - 1] == x + y[..|y| - 1];
      RStripAppend(x, y[..|y| - 1]);
    }
  }

  /** Cutting off trailing whitespace keeps every occurrence of a pattern
      that ends with a non-space character. */
  lemma OccursAtPrefix(s: string, m: nat, pat: string, i: nat)
    requires m <= |s|
    requires forall j :: m <= j < |s| ==> IsSpace(s[j])
    requires pat != [] && !IsSpace(pat[|pat| - 1])
    ensures OccursAt(s[..m], pat, i) == OccursAt(s, pat, i)
  {
    if OccursAt(s, pat, i) {
      assert s[i + |pat| - 1] == pat[|pat| - 1];
      assert s[..m][i..i + |pat|] == s[i..i + |pat|];
    }
    if OccursAt(s[..m], pat, i) {
      assert s[..m][i..i + |pat|] == s[i..i + |pat|];
    }
  }

  lemma NotInPrefix(s: string, c: char, k: nat)
    requires c !in s && k <= |s|
    ensures c !in s[..k]
  {
    forall j | 0 <= j < k ensures s[..k][j] != c {
      assert s[..k][j] == s[j];
    }
  }

  lemma SliceAround(s: string, i: nat, k: nat, j: nat)
    requires i <= k < j <= |s|
    ensures s[i..j] == s[i..k] + [s[k]] + s[k + 1..j]
  {
  }

  lemma SliceConcat(s: string, i: nat, j: nat)
    requires i <= j <= |s|
    ensures s[i..] == s[i..j] + s[j..]
  {
  }

  lemma SplitLeadingSep(y: string, c: char)
    ensures Split([c] + y, c) == [[]] + Split(y, c)
  {
    assert [c] + y == [] + [c] + y;
    SplitCons([], y, c);
  }

  /** Splitting at a separator splits the two sides independently. */
  lemma {:induction false} SplitAppend(x: string, y: string, c: char)
    ensures Split(x + [c] + y, c) == Split(x, c) + Split(y, c)
    decreases |x|
  {
    match IndexOf(x, c, 0)
    case None =>
      assert c !in x;
      SplitNone(x, c);
      SplitCons(x, y, c);
    case Some(k) =>
      var x1, x2 := x[..k], x[k + 1..];
      assert c !in x1;
      assert x == x1 + [c] + x2;
      assert x + [c] + y == x1 + [c] + (x2 + [c] + y);
      SplitCons(x1, x2 + [c] + y, c);
      SplitCons(x1, x2, c);
      SplitAppend(x2, y, c);
  }
}
