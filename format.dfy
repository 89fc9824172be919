/** The layout normaliser: five rewriting passes over the persona text,
    then whitespace trimmed from both ends and one final line break. */
module PersonaFormat {
  import opened Strings

  // ---------------------------------------------------------------------
  // Vocabulary

  /** `s` with every occurrence of `c` deleted. */
  function Remove(s: string, c: char): string {
    if s == [] then [] else (if s[0] == c then [] else [s[0]]) + Remove(s[1..], c)
  }

  /** An asterisk, if there is one, stands at the very start. */
  predicate StarOnlyAtHead(s: string) {
    forall i :: 0 < i < |s| ==> s[i] != '*'
  }

  /** No three line breaks in a row. */
  predicate NoTripleBreak(s: string) {
    forall i :: 0 <= i < |s| - 2 ==> !(s[i] == '\n' && s[i + 1] == '\n' && s[i + 2] == '\n')
  }

  /** `u` differs from `t` only in its line breaks, and starts with the same
      character when `t` does not start with a line break. */
  predicate BreaksOnly(t: string, u: string) {
    && Remove(u, '\n') == Remove(t, '\n')
    && (t != [] && t[0] != '\n' ==> u != [] && u[0] == t[0])
  }

  function Extra(add: bool): string {
    if add then "\n" else ""
  }

  lemma {:induction false} RemoveAppend(a: string, b: string, c: char)
    ensures Remove(a + b, c) == Remove(a, c) + Remove(b, c)
    decreases |a|
  {
    if a == [] {
      assert a + b == b;
    } else {
      assert (a + b)[0] == a[0];
      assert (a + b)[1..] == a[1..] + b;
      RemoveAppend(a[1..], b, c);
    }
  }

  lemma {:induction false} RemoveNotIn(s: string, c: char)
    ensures c !in Remove(s, c)
    decreases |s|
  {
    if s != [] {
      RemoveNotIn(s[1..], c);
    }
  }

  lemma {:induction false} RemoveNoop(s: string, c: char)
    requires c !in s
    ensures Remove(s, c) == s
    decreases |s|
  {
    if s != [] {
      assert s[0] != c;
      assert c !in s[1..];
      RemoveNoop(s[1..], c);
    }
  }

  /** Deleting one character leaves the count of every other one alone. */
  lemma {:induction false} RemoveCount(s: string, c: char, d: char)
    requires c != d
    ensures multiset(Remove(s, d))[c] == multiset(s)[c]
    decreases |s|
  {
    if s != [] {
      RemoveCount(s[1..], c, d);
      assert s == [s[0]] + s[1..];
      assert multiset(s) == multiset([s[0]]) + multiset(s[1..]);
      var head := if s[0] == d then [] else [s[0]];
      assert multiset(Remove(s, d)) == multiset(head) + multiset(Remove(s[1..], d));
    }
  }

  lemma RemoveBreaks(r: string)
    requires forall i :: 0 <= i < |r| ==> r[i] == '\n'
    ensures Remove(r, '\n') == []
  {
    assert '\n' !in Remove(r, '\n') by { RemoveNotIn(r, '\n'); }
    RemoveBreaksOnly(r);
  }

  lemma {:induction false} RemoveBreaksOnly(r: string)
    requires forall i :: 0 <= i < |r| ==> r[i] == '\n'
    ensures Remove(r, '\n') == []
    decreases |r|
  {
    if r != [] {
      RemoveBreaksOnly(r[1..]);
    }
  }

  /** Text glued around inserted line breaks loses them again. */
  lemma RemoveAroundBreaks(a: string, x: string, b: string)
    requires Remove(x, '\n') == []
    ensures Remove(a + x + b, '\n') == Remove(a, '\n') + Remove(b, '\n')
  {
    RemoveAppend(a + x, b, '\n');
    RemoveAppend(a, x, '\n');
    assert Remove(a, '\n') + [] == Remove(a, '\n');
  }

  /** Where asterisks can stand, told by counting them. */
  lemma StarCount(s: string)
    ensures StarOnlyAtHead(s) <==> (s == [] || multiset(s[1..])['*'] == 0)
    ensures s != [] ==> multiset(s)['*'] == (if s[0] == '*' then 1 else 0) + multiset(s[1..])['*']
  {
    if s != [] {
      assert s == [s[0]] + s[1..];
      assert multiset(s) == multiset([s[0]]) + multiset(s[1..]);
      if multiset(s[1..])['*'] == 0 {
        assert '*' !in s[1..];
        forall i | 0 < i < |s| ensures s[i] != '*' {
          assert s[i] == s[1..][i - 1];
        }
      }
      if StarOnlyAtHead(s) {
        assert forall j :: 0 <= j < |s| - 1 ==> s[1..][j] == s[j + 1];
        assert '*' !in s[1..];
      }
    }
  }

  /** A rewrite that only moves line breaks keeps the asterisks where they were
      allowed to be. */
  lemma BreaksOnlyKeepsStars(t: string, u: string)
    requires BreaksOnly(t, u)
    requires StarOnlyAtHead(t)
    ensures StarOnlyAtHead(u)
  {
    RemoveCount(t, '*', '\n');
    RemoveCount(u, '*', '\n');
    assert multiset(u)['*'] == multiset(t)['*'];
    StarCount(t);
    StarCount(u);
    if t == [] {
      assert multiset(u)['*'] == 0;
    }
  }

  lemma {:induction false} NoTripleCons(c: char, b: string)
    requires c != '\n' && NoTripleBreak(b)
    ensures NoTripleBreak([c] + b)
  {
    var s := [c] + b;
    forall i | 0 <= i < |s| - 2 ensures !(s[i] == '\n' && s[i + 1] == '\n' && s[i + 2] == '\n') {
      if i > 0 {
        assert s[i] == b[i - 1] && s[i + 1] == b[i] && s[i + 2] == b[i + 1];
      }
    }
  }

  /** At most two line breaks before a text that does not start with one
      make no run of three. */
  lemma NoTripleShortPrefix(r: string, b: string)
    requires |r| <= 2 && NoTripleBreak(b) && (b == [] || b[0] != '\n')
    ensures NoTripleBreak(r + b)
  {
    var s := r + b;
    forall i | 0 <= i < |s| - 2 ensures !(s[i] == '\n' && s[i + 1] == '\n' && s[i + 2] == '\n') {
      if i >= |r| {
        assert s[i] == b[i - |r|] && s[i + 1] == b[i - |r| + 1] && s[i + 2] == b[i - |r| + 2];
      } else {
        assert s[|r|] == b[0];
      }
    }
  }

  // ---------------------------------------------------------------------
  // Pass 1: every asterisk except one at the very start is deleted
  // (the negative look-behind on `^` only excludes position 0).

  function DropStars(t: string): string {
    if t == [] then [] else [t[0]] + Remove(t[1..], '*')
  }

  /** Only asterisks are deleted, the first character stays, and no asterisk
      is left past the start. */
  lemma DropStarsSpec(t: string)
    ensures Remove(DropStars(t), '*') == Remove(t, '*')
    ensures t != [] ==> DropStars(t) != [] && DropStars(t)[0] == t[0]
    ensures StarOnlyAtHead(DropStars(t))
  {
    if t != [] {
      var rest := Remove(t[1..], '*');
      RemoveNotIn(t[1..], '*');
      RemoveNoop(rest, '*');
      RemoveAppend([t[0]], rest, '*');
      assert t == [t[0]] + t[1..];
      RemoveAppend([t[0]], t[1..], '*');
      var d := DropStars(t);
      forall i | 0 < i < |d| ensures d[i] != '*' {
        assert d[i] == rest[i - 1];
      }
    }
  }

  // ---------------------------------------------------------------------
  // Passes 2 and 4: a line break appended after every line of a kind

  /** A line the multi-line pattern `^[^\n]+:$` matches: a final colon after
      at least one character. */
  predicate IsLabelLine(line: string) {
    |line| >= 2 && line[|line| - 1] == ':'
  }

  /** A line the multi-line pattern `^\* .+` matches: an asterisk, a space
      and at least one more character. */
  predicate IsStarLine(line: string) {
    |line| >= 3 && line[0] == '*' && line[1] == ' '
  }

  /** Every line for which `marked` holds gets an extra line break after it;
      the matches are whole lines, so the rewrite goes line by line. */
  function BreakAfterLines(t: string, marked: string -> bool): string
    decreases |t|
  {
    match IndexOf(t, '\n', 0)
    case None => t + Extra(marked(t))
    case Some(e) => t[..e] + Extra(marked(t[..e])) + "\n" + BreakAfterLines(t[e + 1..], marked)
  }

  lemma RemoveLineStep(line: string, x: string, rest: string)
    requires Remove(x, '\n') == []
    ensures Remove(line + x + "\n" + rest, '\n') == Remove(line, '\n') + Remove(rest, '\n')
  {
    RemoveBreaks("\n");
    RemoveBreaks("");
    RemoveAroundBreaks(line + x, "\n", rest);
    RemoveAroundBreaks(line, x, "");
    assert line + x + "" == line + x;
  }

  lemma RemoveLineSplit(t: string, e: nat)
    requires e < |t| && t[e] == '\n'
    ensures Remove(t, '\n') == Remove(t[..e], '\n') + Remove(t[e + 1..], '\n')
  {
    RemoveBreaks("\n");
    assert t == t[..e] + "\n" + t[e + 1..];
    RemoveAroundBreaks(t[..e], "\n", t[e + 1..]);
  }

  /** Only line breaks are added, and the text starts as before. */
  lemma {:induction false} BreakAfterLinesSpec(t: string, marked: string -> bool)
    ensures BreaksOnly(t, BreakAfterLines(t, marked))
    decreases |t|
  {
    BreakAfterLinesHead(t, marked);
    match IndexOf(t, '\n', 0)
    case None =>
      BreakAfterLastLine(t, marked);
    case Some(e) =>
      BreakAfterLinesSpec(t[e + 1..], marked);
      BreakAfterLineStep(t, marked, e);
  }

  /** The last line loses nothing but line breaks. */
  lemma BreakAfterLastLine(t: string, marked: string -> bool)
    requires IndexOf(t, '\n', 0).None?
    ensures Remove(BreakAfterLines(t, marked), '\n') == Remove(t, '\n')
  {
    var x := Extra(marked(t));
    RemoveBreaks(x);
    RemoveBreaks("");
    RemoveAroundBreaks(t, x, "");
    assert t + x + "" == BreakAfterLines(t, marked);
  }

  /** A line and its break lose nothing but line breaks if the rest does not. */
  lemma BreakAfterLineStep(t: string, marked: string -> bool, e: nat)
    requires IndexOf(t, '\n', 0) == Some(e)
    requires Remove(BreakAfterLines(t[e + 1..], marked), '\n') == Remove(t[e + 1..], '\n')
    ensures Remove(BreakAfterLines(t, marked), '\n') == Remove(t, '\n')
  {
    var x := Extra(marked(t[..e]));
    RemoveBreaks(x);
    RemoveLineStep(t[..e], x, BreakAfterLines(t[e + 1..], marked));
    RemoveLineSplit(t, e);
  }

  lemma BreakAfterLinesHead(t: string, marked: string -> bool)
    ensures t != [] && t[0] != '\n' ==> BreakAfterLines(t, marked) != [] && BreakAfterLines(t, marked)[0] == t[0]
  {
    if t != [] && t[0] != '\n' {
      match IndexOf(t, '\n', 0)
      case None =>
      case Some(e) =>
        assert e > 0;
        assert BreakAfterLines(t, marked)[0] == t[..e][0];
    }
  }

  /** The lines of `lines`, each marked one followed by an empty line. */
  function Spread(lines: seq<string>, marked: string -> bool): seq<string> {
    if lines == [] then []
    else [lines[0]] + (if marked(lines[0]) then [""] else []) + Spread(lines[1..], marked)
  }

  lemma SpreadCons(x: string, lines: seq<string>, marked: string -> bool)
    requires lines != []
    ensures Spread([x] + lines, marked) == [x] + (if marked(x) then [""] else []) + Spread(lines, marked)
    ensures Spread(lines, marked) != []
  {
    assert ([x] + lines)[1..] == lines;
  }

  lemma SpreadLast(t: string, marked: string -> bool)
    ensures t + Extra(marked(t)) == JoinLines(Spread([t], marked))
  {
    assert Spread([t], marked) == [t] + (if marked(t) then [""] else []) + Spread([], marked);
    if marked(t) {
      JoinLinesCons(t, [""]);
    }
  }

  lemma JoinLinesBlank(x: string, tail: seq<string>)
    requires tail != []
    ensures JoinLines([x] + [""] + tail) == x + "\n\n" + JoinLines(tail)
  {
    var j := JoinLines(tail);
    JoinLinesCons("", tail);
    JoinLinesCons(x, [""] + tail);
    assert [x] + [""] + tail == [x] + ([""] + tail);
    assert x + "\n" + ("" + "\n" + j) == x + "\n\n" + j;
  }

  lemma SpreadStep(x: string, lines: seq<string>, marked: string -> bool)
    requires lines != []
    ensures x + Extra(marked(x)) + "\n" + JoinLines(Spread(lines, marked))
            == JoinLines(Spread([x] + lines, marked))
  {
    var tail := Spread(lines, marked);
    SpreadCons(x, lines, marked);
    if marked(x) {
      JoinLinesBlank(x, tail);
      assert x + Extra(true) + "\n" == x + "\n\n";
    } else {
      assert [x] + [] + tail == [x] + tail;
      JoinLinesCons(x, tail);
      assert x + Extra(false) == x;
    }
  }

  /** Line by line: the text's lines, rejoined, with an empty line after
      every marked line; nothing else changes. */
  lemma {:induction false} BreakAfterLinesLines(t: string, marked: string -> bool)
    ensures BreakAfterLines(t, marked) == JoinLines(Spread(Split(t, '\n'), marked))
    decreases |t|
  {
    match IndexOf(t, '\n', 0)
    case None =>
      SplitNone(t, '\n');
      SpreadLast(t, marked);
    case Some(e) =>
      var x, rest := t[..e], t[e + 1..];
      assert t == x + "\n" + rest;
      SplitCons(x, rest, '\n');
      BreakAfterLinesLines(rest, marked);
      SpreadStep(x, Split(rest, '\n'), marked);
  }

  // ---------------------------------------------------------------------
  // Pass 3: `([^\n])\n([^\n]+:)` gets a second line break between the
  // character and the labelled line that follows it

  /** The end of the line that `p` is on: the next line break, or the end
      of the text. */
  function LineEnd(t: string, p: nat): (e: nat)
    requires p <= |t|
    ensures p <= e <= |t| && (e < |t| ==> t[e] == '\n')
    decreases |t| - p
  {
    if p == |t| || t[p] == '\n' then p else LineEnd(t, p + 1)
  }

  /** No line break comes before the end of the line. */
  lemma {:induction false} LineEndSpec(t: string, p: nat)
    requires p <= |t|
    ensures forall j :: p <= j < LineEnd(t, p) ==> t[j] != '\n'
    decreases |t| - p
  {
    if p < |t| && t[p] != '\n' {
      LineEndSpec(t, p + 1);
    }
  }

  /** The last colon in `t[lo..hi]`: the greedy `[^\n]+` gives back
      characters until a colon follows. */
  function LastColon(t: string, lo: nat, hi: nat): (r: Option<nat>)
    requires hi <= |t|
    ensures r.Some? ==> lo <= r.value < hi && t[r.value] == ':'
    decreases hi
  {
    if hi <= lo then None
    else if t[hi - 1] == ':' then Some(hi - 1)
    else LastColon(t, lo, hi - 1)
  }

  /** The colon found is the last one in range; none is found when the
      range has none. */
  lemma {:induction false} LastColonSpec(t: string, lo: nat, hi: nat)
    requires hi <= |t|
    ensures LastColon(t, lo, hi).Some? ==> forall j :: LastColon(t, lo, hi).value < j < hi ==> t[j] != ':'
    ensures LastColon(t, lo, hi).None? ==> forall j :: lo <= j < hi ==> t[j] != ':'
    decreases hi
  {
    if lo < hi && t[hi - 1] != ':' {
      LastColonSpec(t, lo, hi - 1);
    }
  }

  /** The end (just past the last colon) of a match starting at `p`: a
      character that is not a line break, a line break, then the next line
      up to its last colon, with at least one character before that colon. */
  function LabelJoinAt(t: string, p: nat): (r: Option<nat>)
    ensures r.Some? ==> p + 4 <= r.value <= |t|
  {
    if p + 2 < |t| && t[p] != '\n' && t[p + 1] == '\n' then
      match LastColon(t, p + 3, LineEnd(t, p + 2))
      case Some(k) => Some(k + 1)
      case None => None
    else None
  }

  /** The scan from `p`: each match gets its extra line break and the scan
      resumes after it; elsewhere characters are copied. */
  function SpaceLabelsFrom(t: string, p: nat): string
    decreases |t| - p
  {
    if p >= |t| then []
    else
      match LabelJoinAt(t, p)
      case Some(e) => t[p..p + 2] + "\n" + t[p + 2..e] + SpaceLabelsFrom(t, e)
      case None => [t[p]] + SpaceLabelsFrom(t, p + 1)
  }

  function SpaceLabels(t: string): string {
    SpaceLabelsFrom(t, 0)
  }

  lemma RemoveInsertedBreak(a: string, b: string, rest: string)
    ensures Remove(a + "\n" + b + rest, '\n') == Remove(a + b, '\n') + Remove(rest, '\n')
  {
    RemoveBreaks("\n");
    RemoveAroundBreaks(a, "\n", b);
    RemoveAppend(a + "\n" + b, rest, '\n');
    RemoveAppend(a, b, '\n');
  }

  lemma RemoveSliceSplit(t: string, p: nat, e: nat)
    requires p <= e <= |t|
    ensures Remove(t[p..], '\n') == Remove(t[p..e], '\n') + Remove(t[e..], '\n')
  {
    SliceConcat(t, p, e);
    RemoveAppend(t[p..e], t[e..], '\n');
  }

  /** Only line breaks are added, and the text starts as before. */
  lemma {:induction false} SpaceLabelsFromSpec(t: string, p: nat)
    requires p <= |t|
    ensures BreaksOnly(t[p..], SpaceLabelsFrom(t, p))
    decreases |t| - p
  {
    if p < |t| {
      match LabelJoinAt(t, p)
      case Some(e) =>
        SpaceLabelsFromSpec(t, e);
        RemoveInsertedBreak(t[p..p + 2], t[p + 2..e], SpaceLabelsFrom(t, e));
        assert t[p..p + 2] + t[p + 2..e] == t[p..e];
        RemoveSliceSplit(t, p, e);
      case None =>
        SpaceLabelsFromSpec(t, p + 1);
        RemoveSliceSplit(t, p, p + 1);
        assert t[p..p + 1] == [t[p]];
        RemoveAppend([t[p]], SpaceLabelsFrom(t, p + 1), '\n');
    }
  }

  // The same pass line by line.

  /** A line with a colon after its first character: the `[^\n]+:` of
      the pattern can match a prefix of it. */
  predicate HasLabelColon(line: string) {
    LastColon(line, 1, |line|).Some?
  }

  lemma HasLabelColonIff(line: string)
    ensures HasLabelColon(line) <==> exists j :: 1 <= j < |line| && line[j] == ':'
  {
    LastColonSpec(line, 1, |line|);
  }

  /** The lines after pass 3. An empty line goes between a non-empty line
      and a following line with a colon after its first character, unless
      the first of the two was the labelled line of the previous insertion
      and ended in its colon (`blocked`): that match took the whole line, so
      the scan resumes after it, at the line break. */
  function SpacedLines(lines: seq<string>, blocked: bool): (r: seq<string>)
    ensures |r| >= |lines|
  {
    if |lines| <= 1 then lines
    else
      var joins := !blocked && lines[0] != [] && HasLabelColon(lines[1]);
      [lines[0]] + (if joins then [""] else []) + SpacedLines(lines[1..], joins && IsLabelLine(lines[1]))
  }

  lemma SpacedLinesCons(a: string, rest: seq<string>, blocked: bool)
    requires rest != []
    ensures var joins := !blocked && a != [] && HasLabelColon(rest[0]);
            SpacedLines([a] + rest, blocked)
            == [a] + (if joins then [""] else []) + SpacedLines(rest, joins && IsLabelLine(rest[0]))
  {
    assert ([a] + rest)[1..] == rest;
  }

  /** The text from `p` split at line breaks: the line at `p`, then the
      lines after its line break, if any. */
  lemma SplitFromLast(t: string, p: nat)
    requires p <= |t| && LineEnd(t, p) == |t|
    ensures Split(t[p..], '\n') == [t[p..]]
  {
    LineEndSpec(t, p);
    assert forall c :: c in t[p..] ==> c != '\n';
    SplitNone(t[p..], '\n');
  }

  lemma SplitFromBreak(t: string, p: nat)
    requires p <= |t| && LineEnd(t, p) < |t|
    ensures var e := LineEnd(t, p);
            Split(t[p..], '\n') == [t[p..e]] + Split(t[e + 1..], '\n')
  {
    var e := LineEnd(t, p);
    var s := t[p..];
    forall j | 0 <= j < e - p
      ensures s[j] != '\n'
    {
      LineEndSpec(t, p);
      assert s[j] == t[p + j];
    }
    SplitAt(s, e - p, '\n');
    assert s[..e - p] == t[p..e];
    assert s[e - p + 1..] == t[e + 1..];
  }

  /** The lines of the text from `p` on, cut at its line breaks. */
  function LinesFrom(t: string, p: nat): seq<string>
    requires p <= |t|
    decreases |t| - p
  {
    var e := LineEnd(t, p);
    [t[p..e]] + (if e == |t| then [] else LinesFrom(t, e + 1))
  }

  lemma LinesFromHead(t: string, p: nat)
    requires p <= |t|
    ensures LinesFrom(t, p) != [] && LinesFrom(t, p)[0] == t[p..LineEnd(t, p)]
  {
  }

  lemma LinesFromBreak(t: string, p: nat)
    requires p <= |t| && LineEnd(t, p) < |t|
    ensures LinesFrom(t, p) == [t[p..LineEnd(t, p)]] + LinesFrom(t, LineEnd(t, p) + 1)
  {
  }

  lemma LinesFromLast(t: string, p: nat)
    requires p <= |t| && LineEnd(t, p) == |t|
    ensures LinesFrom(t, p) == [t[p..]]
  {
    assert LinesFrom(t, p) == [t[p..|t|]] + [];
    assert t[p..|t|] == t[p..];
  }

  lemma LinesFromSplitStep(t: string, p: nat)
    requires p <= |t| && LineEnd(t, p) < |t|
    requires LinesFrom(t, LineEnd(t, p) + 1) == Split(t[LineEnd(t, p) + 1..], '\n')
    ensures LinesFrom(t, p) == Split(t[p..], '\n')
  {
    LinesFromBreak(t, p);
    SplitFromBreak(t, p);
  }

  /** They are what str.split gives. */
  lemma {:induction false} LinesFromSplit(t: string, p: nat)
    requires p <= |t|
    ensures LinesFrom(t, p) == Split(t[p..], '\n')
    decreases |t| - p
  {
    var e := LineEnd(t, p);
    if e == |t| {
      LinesFromLast(t, p);
      SplitFromLast(t, p);
    } else {
      LinesFromSplit(t, e + 1);
      LinesFromSplitStep(t, p);
    }
  }

  /** A line not joined to the next, as text: the line, a line break, then
      the lines that follow. */
  lemma SpacedPlainLines(lines: seq<string>, a: string, rest: seq<string>, blocked: bool)
    requires lines == [a] + rest
    requires rest != [] && !(!blocked && a != [] && HasLabelColon(rest[0]))
    ensures JoinLines(SpacedLines(lines, blocked)) == a + ("\n" + JoinLines(SpacedLines(rest, false)))
  {
    var tail := SpacedLines(rest, false);
    assert SpacedLines(lines, blocked) == [a] + tail by {
      SpacedLinesCons(a, rest, blocked);
      assert [a] + [] + tail == [a] + tail;
    }
    assert JoinLines([a] + tail) == a + "\n" + JoinLines(tail) by {
      JoinLinesCons(a, tail);
    }
    ConcatAssoc(a, "\n", JoinLines(tail));
  }

  /** A line joined to the next, as text: the line, an empty line, then the
      lines that follow. */
  lemma SpacedJoinedLines(lines: seq<string>, a: string, rest: seq<string>, blocked: bool)
    requires lines == [a] + rest
    requires rest != [] && !blocked && a != [] && HasLabelColon(rest[0])
    ensures JoinLines(SpacedLines(lines, blocked))
            == a + "\n\n" + JoinLines(SpacedLines(rest, IsLabelLine(rest[0])))
  {
    var tail := SpacedLines(rest, IsLabelLine(rest[0]));
    assert SpacedLines(lines, blocked) == [a] + [""] + tail by {
      SpacedLinesCons(a, rest, blocked);
    }
    JoinLinesBlank(a, tail);
  }

  lemma LinesPlain(t: string, p: nat, blocked: bool)
    requires p <= |t| && LineEnd(t, p) < |t|
    requires var e := LineEnd(t, p);
             !(!blocked && t[p..e] != [] && HasLabelColon(t[e + 1..LineEnd(t, e + 1)]))
    ensures var e := LineEnd(t, p);
            JoinLines(SpacedLines(LinesFrom(t, p), blocked))
            == t[p..e] + ("\n" + JoinLines(SpacedLines(LinesFrom(t, e + 1), false)))
  {
    var e := LineEnd(t, p);
    LinesFromBreak(t, p);
    LinesFromHead(t, e + 1);
    SpacedPlainLines(LinesFrom(t, p), t[p..e], LinesFrom(t, e + 1), blocked);
  }

  lemma LinesJoined(t: string, p: nat, blocked: bool)
    requires p <= |t| && LineEnd(t, p) < |t|
    requires var e := LineEnd(t, p);
             !blocked && t[p..e] != [] && HasLabelColon(t[e + 1..LineEnd(t, e + 1)])
    ensures var e := LineEnd(t, p);
            JoinLines(SpacedLines(LinesFrom(t, p), blocked))
            == t[p..e] + "\n\n" + JoinLines(SpacedLines(LinesFrom(t, e + 1), IsLabelLine(t[e + 1..LineEnd(t, e + 1)])))
  {
    var e := LineEnd(t, p);
    LinesFromBreak(t, p);
    LinesFromHead(t, e + 1);
    SpacedJoinedLines(LinesFrom(t, p), t[p..e], LinesFrom(t, e + 1), blocked);
  }

  lemma ColonAt(t: string, k: nat)
    ensures OccursAt(t, ":", k) <==> k < |t| && t[k] == ':'
  {
    if k < |t| {
      assert t[k..k + 1] == [t[k]];
    }
  }

  /** Where no line break follows, characters are copied one by one. */
  lemma {:induction false} SpaceLabelsCopy(t: string, q: nat, r: nat)
    requires q <= r < |t|
    requires forall j :: q < j <= r ==> t[j] != '\n'
    ensures SpaceLabelsFrom(t, q) == t[q..r] + SpaceLabelsFrom(t, r)
    decreases r - q
  {
    if q < r {
      SpaceLabelsCopy(t, q + 1, r);
      SpaceLabelsChar(t, q);
      ConsSlice(t, q, r, SpaceLabelsFrom(t, r));
    }
  }

  lemma ConsSlice(t: string, q: nat, r: nat, x: string)
    requires q < r <= |t|
    ensures [t[q]] + (t[q + 1..r] + x) == t[q..r] + x
  {
    assert t[q..r] == [t[q]] + t[q + 1..r];
  }

  lemma SpaceLabelsChar(t: string, q: nat)
    requires q + 1 < |t| && t[q + 1] != '\n'
    ensures SpaceLabelsFrom(t, q) == [t[q]] + SpaceLabelsFrom(t, q + 1)
  {
    assert LabelJoinAt(t, q).None?;
  }

  lemma SpaceLabelsBreak(t: string, e: nat)
    requires e < |t| && t[e] == '\n'
    ensures SpaceLabelsFrom(t, e) == "\n" + SpaceLabelsFrom(t, e + 1)
  {
    assert LabelJoinAt(t, e).None?;
  }

  /** At the last character of a line followed by a line break, the pattern
      matches exactly when the next line has a colon after its first
      character, and the match ends just past that line's last colon. */
  lemma LabelJoinAtLineEnd(t: string, e: nat)
    requires 1 <= e < |t| && t[e - 1] != '\n' && t[e] == '\n'
    ensures var b := t[e + 1..LineEnd(t, e + 1)];
            LabelJoinAt(t, e - 1).Some? <==> HasLabelColon(b)
    ensures LabelJoinAt(t, e - 1).Some? ==>
              var r := LabelJoinAt(t, e - 1).value;
              var e2 := LineEnd(t, e + 1);
              e + 3 <= r <= e2 && (IsLabelLine(t[e + 1..e2]) <==> r == e2)
  {
    var e2 := LineEnd(t, e + 1);
    var b := t[e + 1..e2];
    LastColonSlice(t, e + 1, e2, 1, |b|);
    if |b| >= 2 && b[|b| - 1] == ':' {
      assert LastColon(b, 1, |b|) == Some(|b| - 1);
    }
  }

  /** The last colon in a slice is the last colon in the same range of the
      whole text, shifted by the slice's start. */
  lemma {:induction false} LastColonSlice(t: string, a: nat, c: nat, lo: nat, hi: nat)
    requires a <= c <= |t| && hi <= c - a
    ensures LastColon(t, a + lo, a + hi)
            == match LastColon(t[a..c], lo, hi) case Some(k) => Some(a + k) case None => None
    decreases hi
  {
    if lo < hi {
      assert t[a..c][hi - 1] == t[a + hi - 1];
      if t[a + hi - 1] != ':' {
        LastColonSlice(t, a, c, lo, hi - 1);
      }
    }
  }

  lemma SpaceLabelsNoMatch(t: string, q: nat)
    requires q < |t| && LabelJoinAt(t, q).None?
    ensures SpaceLabelsFrom(t, q) == [t[q]] + SpaceLabelsFrom(t, q + 1)
  {
  }

  lemma SpaceLabelsMatch(t: string, q: nat, r: nat)
    requires q < |t| && LabelJoinAt(t, q) == Some(r)
    ensures SpaceLabelsFrom(t, q) == [t[q], '\n'] + "\n" + t[q + 2..r] + SpaceLabelsFrom(t, r)
  {
    assert t[q..q + 2] == [t[q], '\n'];
  }

  lemma SliceUpTo(t: string, p: nat, q: nat, e: nat)
    requires p <= q < e <= |t|
    ensures t[p..q] + t[q..e - 1] + [t[e - 1]] == t[p..e]
  {
  }

  lemma ReachShape(a: string, x: string, y: string, c: char, z: string, s1: string, s2: string)
    requires x + y + [c] == a && s1 == y + s2 && s2 == [c] + z
    ensures x + s1 == a + z
  {
  }

  lemma PlainShape(a: string, x: string, y: string, c: char, z: string)
    requires x + y + [c] == a
    ensures x + (y + ([c] + z)) == a + z
  {
  }

  lemma JoinShape(a: string, x: string, y: string, c: char, m: string, z: string)
    requires x + y + [c] == a
    ensures x + (y + ([c, '\n'] + "\n" + m + z)) == a + "\n\n" + (m + z)
  {
  }

  /** On the last line the rest of the text is copied. */
  lemma SpaceLabelsLastLine(t: string, p: nat, q: nat)
    requires p <= q <= |t| && LineEnd(t, p) == |t|
    ensures t[p..q] + SpaceLabelsFrom(t, q) == t[p..]
  {
    if q < |t| {
      LineEndSpec(t, p);
      SpaceLabelsCopy(t, q, |t| - 1);
      assert LabelJoinAt(t, |t| - 1).None?;
      SpaceLabelsNoMatch(t, |t| - 1);
      SliceUpTo(t, p, q, |t|);
      PlainShape(t[p..], t[p..q], t[q..|t| - 1], t[|t| - 1], []);
    }
  }

  lemma SpaceLabelsLastCase(t: string, p: nat, q: nat, blocked: bool)
    requires p <= q <= |t| && LineEnd(t, p) == |t|
    ensures t[p..q] + SpaceLabelsFrom(t, q) == JoinLines(SpacedLines(LinesFrom(t, p), blocked))
  {
    LinesFromLast(t, p);
    SpaceLabelsLastLine(t, p, q);
  }

  /** Inside a line that the scan does not join, it reaches the line break. */
  lemma SpaceLabelsReach(t: string, p: nat, q: nat, e: nat)
    requires p <= q < e < |t| && t[e] == '\n'
    requires forall j :: p <= j < e ==> t[j] != '\n'
    requires LabelJoinAt(t, e - 1).None?
    ensures t[p..q] + SpaceLabelsFrom(t, q) == t[p..e] + SpaceLabelsFrom(t, e)
  {
    var x, y, z := t[p..q], t[q..e - 1], SpaceLabelsFrom(t, e);
    var s1, s2 := SpaceLabelsFrom(t, q), SpaceLabelsFrom(t, e - 1);
    assert x + y + [t[e - 1]] == t[p..e] by {
      SliceUpTo(t, p, q, e);
    }
    assert s1 == y + s2 by {
      assert forall j :: q < j <= e - 1 ==> t[j] != '\n';
      SpaceLabelsCopy(t, q, e - 1);
    }
    assert s2 == [t[e - 1]] + z by {
      SpaceLabelsNoMatch(t, e - 1);
    }
    ReachShape(t[p..e], x, y, t[e - 1], z, s1, s2);
  }

  /** A line the scan does not join: it is blocked, empty, or the next
      line has no colon after its first character. */
  lemma SpaceLabelsPlainNoJoin(t: string, p: nat, q: nat, blocked: bool)
    requires p <= |t| && p <= q <= LineEnd(t, p) < |t|
    requires q == LineEnd(t, p) ==> blocked || q == p
    requires q < LineEnd(t, p) ==> !blocked && LabelJoinAt(t, LineEnd(t, p) - 1).None?
    ensures var e := LineEnd(t, p);
            !(!blocked && t[p..e] != [] && HasLabelColon(t[e + 1..LineEnd(t, e + 1)]))
  {
    var e := LineEnd(t, p);
    if q < e {
      LineEndSpec(t, p);
      LabelJoinAtLineEnd(t, e);
    }
  }

  /** Such a line is copied with its line break, and the scan goes on at
      the start of the next line. */
  lemma SpaceLabelsPlainScan(t: string, p: nat, q: nat)
    requires p <= |t| && p <= q <= LineEnd(t, p) < |t|
    requires q < LineEnd(t, p) ==> LabelJoinAt(t, LineEnd(t, p) - 1).None?
    ensures var e := LineEnd(t, p);
            t[p..q] + SpaceLabelsFrom(t, q) == t[p..e] + ("\n" + SpaceLabelsFrom(t, e + 1))
  {
    var e := LineEnd(t, p);
    assert t[p..q] + SpaceLabelsFrom(t, q) == t[p..e] + SpaceLabelsFrom(t, e) by {
      SpaceLabelsToLineEnd(t, p, q);
    }
    assert SpaceLabelsFrom(t, e) == "\n" + SpaceLabelsFrom(t, e + 1) by {
      SpaceLabelsBreak(t, e);
    }
  }

  lemma SpaceLabelsToLineEnd(t: string, p: nat, q: nat)
    requires p <= |t| && p <= q <= LineEnd(t, p) < |t|
    requires q < LineEnd(t, p) ==> LabelJoinAt(t, LineEnd(t, p) - 1).None?
    ensures var e := LineEnd(t, p);
            t[p..q] + SpaceLabelsFrom(t, q) == t[p..e] + SpaceLabelsFrom(t, e)
  {
    var e := LineEnd(t, p);
    if q < e {
      assert forall j :: p <= j < e ==> t[j] != '\n' by {
        LineEndSpec(t, p);
      }
      SpaceLabelsReach(t, p, q, e);
    } else {
      assert q == e;
    }
  }

  lemma SpaceLabelsPlainCase(t: string, p: nat, q: nat, blocked: bool)
    requires p <= |t| && p <= q <= LineEnd(t, p) < |t|
    requires q == LineEnd(t, p) ==> blocked || q == p
    requires q < LineEnd(t, p) ==> !blocked && LabelJoinAt(t, LineEnd(t, p) - 1).None?
    requires var e := LineEnd(t, p);
             SpaceLabelsFrom(t, e + 1) == JoinLines(SpacedLines(LinesFrom(t, e + 1), false))
    ensures t[p..q] + SpaceLabelsFrom(t, q) == JoinLines(SpacedLines(LinesFrom(t, p), blocked))
  {
    SpaceLabelsPlainScan(t, p, q);
    SpaceLabelsPlainNoJoin(t, p, q, blocked);
    LinesPlain(t, p, blocked);
  }

  lemma SpaceLabelsJoinStep(t: string, p: nat, q: nat, e: nat, r: nat)
    requires p <= q < e && e + 3 <= r <= |t| && t[e] == '\n'
    requires forall j :: p <= j < e ==> t[j] != '\n'
    requires LabelJoinAt(t, e - 1) == Some(r)
    ensures t[p..q] + SpaceLabelsFrom(t, q)
            == t[p..e] + "\n\n" + (t[e + 1..r] + SpaceLabelsFrom(t, r))
  {
    var x, y, m, z := t[p..q], t[q..e - 1], t[e + 1..r], SpaceLabelsFrom(t, r);
    assert x + y + [t[e - 1]] == t[p..e] by {
      SliceUpTo(t, p, q, e);
    }
    assert SpaceLabelsFrom(t, q) == y + ([t[e - 1], '\n'] + "\n" + m + z) by {
      SpaceLabelsCopy(t, q, e - 1);
      SpaceLabelsMatch(t, e - 1, r);
    }
    JoinShape(t[p..e], x, y, t[e - 1], m, z);
  }

  /** A line joined to the next is not empty, and the next line has a
      colon after its first character. */
  lemma SpaceLabelsJoinFacts(t: string, p: nat, q: nat, r: nat)
    requires p <= |t| && p <= q < LineEnd(t, p) < |t|
    requires LabelJoinAt(t, LineEnd(t, p) - 1) == Some(r)
    ensures var e := LineEnd(t, p);
            t[p..e] != [] && HasLabelColon(t[e + 1..LineEnd(t, e + 1)])
  {
    LineEndSpec(t, p);
    LabelJoinAtLineEnd(t, LineEnd(t, p));
  }

  lemma SpaceLabelsJoinCase(t: string, p: nat, q: nat, r: nat, blocked: bool, next: bool)
    requires p <= |t| && p <= q < LineEnd(t, p) < |t| && !blocked
    requires LabelJoinAt(t, LineEnd(t, p) - 1) == Some(r)
    requires next == IsLabelLine(t[LineEnd(t, p) + 1..LineEnd(t, LineEnd(t, p) + 1)])
    requires var e := LineEnd(t, p);
             t[e + 1..r] + SpaceLabelsFrom(t, r) == JoinLines(SpacedLines(LinesFrom(t, e + 1), next))
    ensures t[p..q] + SpaceLabelsFrom(t, q) == JoinLines(SpacedLines(LinesFrom(t, p), blocked))
  {
    var e := LineEnd(t, p);
    var lhs, rhs := t[p..q] + SpaceLabelsFrom(t, q), JoinLines(SpacedLines(LinesFrom(t, p), blocked));
    assert lhs == t[p..e] + "\n\n" + (t[e + 1..r] + SpaceLabelsFrom(t, r)) by {
      LineEndSpec(t, p);
      SpaceLabelsJoinStep(t, p, q, e, r);
    }
    assert rhs == t[p..e] + "\n\n" + JoinLines(SpacedLines(LinesFrom(t, e + 1), next)) by {
      SpaceLabelsJoinFacts(t, p, q, r);
      LinesJoined(t, p, blocked);
    }
  }

  /** Where the scan from `q` goes on once the line ending at `e` is done:
      just past the line break, or just past the last colon of the next
      line when the two are joined. */
  function Resume(t: string, q: nat, e: nat): nat
    requires q <= e < |t|
  {
    if q < e && LabelJoinAt(t, e - 1).Some? then LabelJoinAt(t, e - 1).value else e + 1
  }

  /** The scan resumes on the next line, blocked there when it resumes at
      that line's end after a match. */
  predicate ResumesBlocked(t: string, q: nat, e: nat)
    requires q <= e < |t|
  {
    Resume(t, q, e) != e + 1 && Resume(t, q, e) == LineEnd(t, e + 1)
  }

  lemma ResumeSpec(t: string, p: nat, q: nat)
    requires p <= |t| && p <= q <= LineEnd(t, p) < |t|
    ensures var e := LineEnd(t, p);
            var r := Resume(t, q, e);
            e + 1 <= r <= LineEnd(t, e + 1)
            && (ResumesBlocked(t, q, e) ==> r == LineEnd(t, e + 1))
            && (!ResumesBlocked(t, q, e) ==> r < LineEnd(t, e + 1) || r == e + 1)
  {
    var e := LineEnd(t, p);
    if q < e {
      LineEndSpec(t, p);
      LabelJoinAtLineEnd(t, e);
    }
  }

  lemma SpaceLabelsStepPlain(t: string, p: nat, q: nat, blocked: bool)
    requires p <= |t| && p <= q <= LineEnd(t, p) < |t|
    requires blocked ==> q == LineEnd(t, p)
    requires !blocked ==> q < LineEnd(t, p) || q == p
    requires q == LineEnd(t, p) || LabelJoinAt(t, LineEnd(t, p) - 1).None?
    requires var e := LineEnd(t, p);
             t[e + 1..Resume(t, q, e)] + SpaceLabelsFrom(t, Resume(t, q, e))
             == JoinLines(SpacedLines(LinesFrom(t, e + 1), ResumesBlocked(t, q, e)))
    ensures t[p..q] + SpaceLabelsFrom(t, q) == JoinLines(SpacedLines(LinesFrom(t, p), blocked))
  {
    var e := LineEnd(t, p);
    assert Resume(t, q, e) == e + 1 && !ResumesBlocked(t, q, e);
    assert t[e + 1..e + 1] + SpaceLabelsFrom(t, e + 1) == SpaceLabelsFrom(t, e + 1);
    SpaceLabelsPlainCase(t, p, q, blocked);
  }

  lemma SpaceLabelsStepJoin(t: string, p: nat, q: nat, blocked: bool)
    requires p <= |t| && p <= q < LineEnd(t, p) < |t| && !blocked
    requires LabelJoinAt(t, LineEnd(t, p) - 1).Some?
    requires var e := LineEnd(t, p);
             t[e + 1..Resume(t, q, e)] + SpaceLabelsFrom(t, Resume(t, q, e))
             == JoinLines(SpacedLines(LinesFrom(t, e + 1), ResumesBlocked(t, q, e)))
    ensures t[p..q] + SpaceLabelsFrom(t, q) == JoinLines(SpacedLines(LinesFrom(t, p), blocked))
  {
    var e := LineEnd(t, p);
    var r := LabelJoinAt(t, e - 1).value;
    assert Resume(t, q, e) == r;
    assert ResumesBlocked(t, q, e) == IsLabelLine(t[e + 1..LineEnd(t, e + 1)]) by {
      LineEndSpec(t, p);
      LabelJoinAtLineEnd(t, e);
    }
    SpaceLabelsJoinCase(t, p, q, r, blocked, ResumesBlocked(t, q, e));
  }

  /** One line of the scan, given the scan of the lines after it. */
  lemma SpaceLabelsStep(t: string, p: nat, q: nat, blocked: bool)
    requires p <= |t| && p <= q <= LineEnd(t, p) < |t|
    requires blocked ==> q == LineEnd(t, p)
    requires !blocked ==> q < LineEnd(t, p) || q == p
    requires var e := LineEnd(t, p);
             t[e + 1..Resume(t, q, e)] + SpaceLabelsFrom(t, Resume(t, q, e))
             == JoinLines(SpacedLines(LinesFrom(t, e + 1), ResumesBlocked(t, q, e)))
    ensures t[p..q] + SpaceLabelsFrom(t, q) == JoinLines(SpacedLines(LinesFrom(t, p), blocked))
  {
    var e := LineEnd(t, p);
    if q == e || LabelJoinAt(t, e - 1).None? {
      SpaceLabelsStepPlain(t, p, q, blocked);
    } else {
      SpaceLabelsStepJoin(t, p, q, blocked);
    }
  }

  /** The scan from position `q` of the line that starts at `p` produces
      the line-level result: `blocked` when the scan resumes at the line's
      end after taking the whole line in a match. */
  lemma {:induction false} SpaceLabelsLines(t: string, p: nat, q: nat, blocked: bool)
    requires p <= |t| && p <= q <= LineEnd(t, p)
    requires blocked ==> q == LineEnd(t, p)
    requires !blocked ==> q < LineEnd(t, p) || q == p
    ensures t[p..q] + SpaceLabelsFrom(t, q) == JoinLines(SpacedLines(LinesFrom(t, p), blocked))
    decreases |t| - p
  {
    var e := LineEnd(t, p);
    if e == |t| {
      SpaceLabelsLastCase(t, p, q, blocked);
    } else {
      ResumeSpec(t, p, q);
      SpaceLabelsLines(t, e + 1, Resume(t, q, e), ResumesBlocked(t, q, e));
      SpaceLabelsStep(t, p, q, blocked);
    }
  }

  /** Line by line: an empty line is inserted between a non-empty line and
      a following line with a colon after its first character, except after
      a line that the previous insertion took whole; nothing else changes. */
  lemma SpaceLabelsAsLines(t: string)
    ensures SpaceLabels(t) == JoinLines(SpacedLines(Split(t, '\n'), false))
  {
    SpaceLabelsLines(t, 0, 0, false);
    LinesFromSplit(t, 0);
    assert t[0..0] + SpaceLabelsFrom(t, 0) == SpaceLabels(t);
    assert t[0..] == t;
  }

  // ---------------------------------------------------------------------
  // Pass 5: every run of three or more line breaks becomes exactly two

  /** The number of line breaks at the front of `t`. */
  function BreakRun(t: string): (n: nat)
    ensures n <= |t|
  {
    if t != [] && t[0] == '\n' then 1 + BreakRun(t[1..]) else 0
  }

  lemma {:induction false} BreakRunSpec(t: string)
    ensures forall i :: 0 <= i < BreakRun(t) ==> t[i] == '\n'
    ensures BreakRun(t) < |t| ==> t[BreakRun(t)] != '\n'
    decreases |t|
  {
    if t != [] && t[0] == '\n' {
      BreakRunSpec(t[1..]);
      forall i | 0 < i < BreakRun(t) ensures t[i] == '\n' {
        assert t[i] == t[1..][i - 1];
      }
    }
  }

  /** The rewrite of `\n{3,}` to two line breaks, taken run by run: a run
      shorter than three is no match at any of its positions and is copied. */
  function CollapseBreaks(t: string): string
    decreases |t|
  {
    if t == [] then []
    else if t[0] != '\n' then [t[0]] + CollapseBreaks(t[1..])
    else
      var n := BreakRun(t);
      (if n >= 3 then "\n\n" else t[..n]) + CollapseBreaks(t[n..])
  }

  /** The result has no run of three line breaks and starts like the input. */
  lemma {:induction false} CollapseBreaksSpec(t: string)
    ensures NoTripleBreak(CollapseBreaks(t))
    ensures t == [] <==> CollapseBreaks(t) == []
    ensures t != [] && t[0] != '\n' ==> CollapseBreaks(t)[0] == t[0]
    decreases |t|
  {
    if t != [] {
      if t[0] != '\n' {
        CollapseBreaksSpec(t[1..]);
        NoTripleCons(t[0], CollapseBreaks(t[1..]));
      } else {
        var n := BreakRun(t);
        BreakRunSpec(t);
        CollapseBreaksSpec(t[n..]);
        var r := if n >= 3 then "\n\n" else t[..n];
        var rest := CollapseBreaks(t[n..]);
        assert rest == [] || rest[0] != '\n' by {
          if n < |t| {
            assert t[n..][0] == t[n];
          }
        }
        NoTripleShortPrefix(r, rest);
      }
    }
  }

  lemma {:induction false} CollapseBreaksKeeps(t: string)
    ensures BreaksOnly(t, CollapseBreaks(t))
    decreases |t|
  {
    CollapseBreaksSpec(t);
    if t != [] {
      if t[0] != '\n' {
        CollapseBreaksKeeps(t[1..]);
        assert t == [t[0]] + t[1..];
        RemoveAppend([t[0]], t[1..], '\n');
        RemoveAppend([t[0]], CollapseBreaks(t[1..]), '\n');
      } else {
        var n := BreakRun(t);
        BreakRunSpec(t);
        CollapseBreaksKeeps(t[n..]);
        var r := if n >= 3 then "\n\n" else t[..n];
        RemoveBreaks(r);
        RemoveBreaks(t[..n]);
        RemoveAppend(r, CollapseBreaks(t[n..]), '\n');
        assert t == t[..n] + t[n..];
        RemoveAppend(t[..n], t[n..], '\n');
      }
    }
  }

  /** `n` line breaks. */
  function Breaks(n: nat): string
  {
    seq(n, _ => '\n')
  }

  lemma {:induction false} BreakRunOf(n: nat, b: string)
    requires b == [] || b[0] != '\n'
    ensures BreakRun(Breaks(n) + b) == n
    decreases n
  {
    if n == 0 {
      assert Breaks(n) + b == b;
    } else {
      BreakRunOf(n - 1, b);
      assert (Breaks(n) + b)[1..] == Breaks(n - 1) + b;
    }
  }

  lemma {:induction false} BreakRunBefore(a: string, rest: string)
    requires BreakRun(a) < |a|
    ensures BreakRun(a + rest) == BreakRun(a)
    decreases |a|
  {
    if a[0] == '\n' {
      assert (a + rest)[1..] == a[1..] + rest;
      BreakRunBefore(a[1..], rest);
    }
  }

  lemma CollapseLeadingRun(n: nat, b: string)
    requires b == [] || b[0] != '\n'
    ensures CollapseBreaks(Breaks(n) + b) == Breaks(if n >= 3 then 2 else n) + CollapseBreaks(b)
  {
    var s := Breaks(n) + b;
    if n == 0 {
      assert s == b;
    } else {
      BreakRunOf(n, b);
      assert s[..n] == Breaks(n);
      assert s[n..] == b;
      assert Breaks(2) == "\n\n";
    }
  }

  lemma CollapseFirstChar(a: string, rest: string)
    requires a != [] && a[0] != '\n'
    ensures CollapseBreaks(a + rest) == [a[0]] + CollapseBreaks(a[1..] + rest)
  {
    assert (a + rest)[1..] == a[1..] + rest;
  }

  lemma CollapseFirstRun(a: string, rest: string)
    requires a != [] && a[0] == '\n' && BreakRun(a) < |a|
    ensures var m := BreakRun(a);
            CollapseBreaks(a + rest) == (if m >= 3 then "\n\n" else a[..m]) + CollapseBreaks(a[m..] + rest)
  {
    var m := BreakRun(a);
    BreakRunBefore(a, rest);
    assert (a + rest)[..m] == a[..m];
    assert (a + rest)[m..] == a[m..] + rest;
  }

  lemma CollapseRunChar(a: string, rest: string, y: string)
    requires a != [] && a[0] != '\n'
    requires CollapseBreaks(a[1..] + rest) == CollapseBreaks(a[1..]) + y
    ensures CollapseBreaks(a + rest) == CollapseBreaks(a) + y
  {
    var h := [a[0]];
    assert CollapseBreaks(a + rest) == h + CollapseBreaks(a[1..] + rest) by {
      CollapseFirstChar(a, rest);
    }
    assert CollapseBreaks(a) == h + CollapseBreaks(a[1..]) by {
      CollapseFirstChar(a, []);
      assert a + [] == a && a[1..] + [] == a[1..];
    }
    ConcatAssoc(h, CollapseBreaks(a[1..]), y);
  }

  lemma CollapseRunRun(a: string, rest: string, y: string)
    requires a != [] && a[0] == '\n' && BreakRun(a) < |a|
    requires CollapseBreaks(a[BreakRun(a)..] + rest) == CollapseBreaks(a[BreakRun(a)..]) + y
    ensures CollapseBreaks(a + rest) == CollapseBreaks(a) + y
  {
    var m := BreakRun(a);
    var h := if m >= 3 then "\n\n" else a[..m];
    assert CollapseBreaks(a + rest) == h + CollapseBreaks(a[m..] + rest) by {
      CollapseFirstRun(a, rest);
    }
    assert CollapseBreaks(a) == h + CollapseBreaks(a[m..]) by {
      CollapseFirstRun(a, []);
      assert a + [] == a && a[m..] + [] == a[m..];
    }
    ConcatAssoc(h, CollapseBreaks(a[m..]), y);
  }

  /** Text that does not end inside a run of line breaks collapses on its
      own: the two sides of the cut are rewritten independently. */
  lemma {:induction false} CollapseAppend(a: string, rest: string)
    requires a == [] || a[|a| - 1] != '\n'
    ensures CollapseBreaks(a + rest) == CollapseBreaks(a) + CollapseBreaks(rest)
    decreases |a|
  {
    if a == [] {
      assert a + rest == rest;
    } else if a[0] != '\n' {
      CollapseAppend(a[1..], rest);
      CollapseRunChar(a, rest, CollapseBreaks(rest));
    } else {
      var m := BreakRun(a);
      BreakRunSpec(a);
      assert m < |a|;
      CollapseAppend(a[m..], rest);
      CollapseRunRun(a, rest, CollapseBreaks(rest));
    }
  }

  /** A run of `n` line breaks between two other characters (or an end of
      the text) becomes two when `n` is three or more and is kept otherwise;
      the text on either side is collapsed on its own. */
  lemma CollapseRun(a: string, n: nat, b: string)
    requires a == [] || a[|a| - 1] != '\n'
    requires b == [] || b[0] != '\n'
    ensures CollapseBreaks(a + Breaks(n) + b)
            == CollapseBreaks(a) + Breaks(if n >= 3 then 2 else n) + CollapseBreaks(b)
  {
    var y := Breaks(if n >= 3 then 2 else n);
    CollapseLeadingRun(n, b);
    CollapseAcross(a, Breaks(n), b, y);
  }

  lemma CollapseAcross(a: string, x: string, b: string, y: string)
    requires a == [] || a[|a| - 1] != '\n'
    requires CollapseBreaks(x + b) == y + CollapseBreaks(b)
    ensures CollapseBreaks(a + x + b) == CollapseBreaks(a) + y + CollapseBreaks(b)
  {
    ConcatAssoc(a, x, b);
    CollapseAppend(a, x + b);
    ConcatAssoc(CollapseBreaks(a), y, CollapseBreaks(b));
  }

  /** A text with no run of three line breaks is left as it is. */
  lemma {:induction false} CollapseNoTriple(t: string)
    requires NoTripleBreak(t)
    ensures CollapseBreaks(t) == t
    decreases |t|
  {
    if t != [] {
      if t[0] != '\n' {
        NoTripleSlice(t, 1, |t| - 1);
        assert t[1..1 + (|t| - 1)] == t[1..];
        CollapseNoTriple(t[1..]);
      } else {
        var n := BreakRun(t);
        BreakRunSpec(t);
        if |t| >= 3 {
          assert !(t[0] == '\n' && t[1] == '\n' && t[2] == '\n');
        }
        assert n < 3;
        NoTripleSlice(t, n, |t| - n);
        assert t[n..n + (|t| - n)] == t[n..];
        CollapseNoTriple(t[n..]);
        assert t[..n] + t[n..] == t;
      }
    }
  }

  // ---------------------------------------------------------------------
  // The whole normaliser

  /** The text after the five passes, before trimming. */
  function Passes(t: string): string {
    CollapseBreaks(BreakAfterLines(SpaceLabels(BreakAfterLines(DropStars(t), IsLabelLine)), IsStarLine))
  }

  /** format_persona_text: the passes, then stripped, then one line break. */
  function FormatPersona(t: string): string {
    Strip(Passes(t)) + "\n"
  }

  /** The passes after the first only move line breaks, and the asterisk
      rule of the first survives them. */
  lemma PassesSpec(t: string)
    ensures BreaksOnly(DropStars(t), Passes(t))
    ensures StarOnlyAtHead(Passes(t))
    ensures NoTripleBreak(Passes(t))
  {
    var s1 := DropStars(t);
    var s2 := BreakAfterLines(s1, IsLabelLine);
    var s3 := SpaceLabels(s2);
    var s4 := BreakAfterLines(s3, IsStarLine);
    var s5 := CollapseBreaks(s4);
    DropStarsSpec(t);
    BreakAfterLinesSpec(s1, IsLabelLine);
    SpaceLabelsFromSpec(s2, 0);
    assert s2[0..] == s2;
    BreakAfterLinesSpec(s3, IsStarLine);
    CollapseBreaksKeeps(s4);
    CollapseBreaksSpec(s4);
    BreaksOnlyKeepsStars(s1, s2);
    BreaksOnlyKeepsStars(s2, s3);
    BreaksOnlyKeepsStars(s3, s4);
    BreaksOnlyKeepsStars(s4, s5);
  }

  lemma NoTripleSlice(s: string, k: nat, m: nat)
    requires k + m <= |s| && NoTripleBreak(s)
    ensures NoTripleBreak(s[k..k + m])
  {
    var r := s[k..k + m];
    forall i | 0 <= i < |r| - 2 ensures !(r[i] == '\n' && r[i + 1] == '\n' && r[i + 2] == '\n') {
      assert r[i] == s[k + i] && r[i + 1] == s[k + i + 1] && r[i + 2] == s[k + i + 2];
    }
  }

  lemma StarSlice(s: string, k: nat, m: nat)
    requires k + m <= |s| && StarOnlyAtHead(s)
    ensures StarOnlyAtHead(s[k..k + m])
  {
    var r := s[k..k + m];
    forall i | 0 < i < |r| ensures r[i] != '*' {
      assert r[i] == s[k + i];
    }
  }

  /** The trimmed text is a slice of the passes' output that neither starts
      nor ends with whitespace. */
  lemma TrimmedSlice(t: string) returns (k: nat)
    ensures OccursAt(Passes(t), Strip(Passes(t)), k)
    ensures Strip(Passes(t)) == [] || (!IsSpace(Strip(Passes(t))[0]) && !IsSpace(Strip(Passes(t))[|Strip(Passes(t))| - 1]))
  {
    StripSpec(Passes(t));
    k :| OccursAt(Passes(t), Strip(Passes(t)), k);
  }

  /** The formatted text has no run of three line breaks. */
  lemma FormatNoTripleBreak(t: string)
    ensures NoTripleBreak(FormatPersona(t))
  {
    var s := Passes(t);
    var body := Strip(s);
    var r := FormatPersona(t);
    PassesSpec(t);
    var k := TrimmedSlice(t);
    NoTripleSlice(s, k, |body|);
    assert r == body + "\n";
    forall i | 0 <= i < |r| - 2 ensures !(r[i] == '\n' && r[i + 1] == '\n' && r[i + 2] == '\n') {
      if i + 2 < |body| {
        assert r[i] == body[i] && r[i + 1] == body[i + 1] && r[i + 2] == body[i + 2];
      } else {
        assert r[i + 1] == body[|body| - 1];
      }
    }
  }

  /** The formatted text ends with exactly one line break and has no other
      whitespace at either end. */
  lemma FormatTrimmed(t: string)
    ensures FormatPersona(t)[|FormatPersona(t)| - 1] == '\n'
    ensures FormatPersona(t) == "\n" ||
              (!IsSpace(FormatPersona(t)[0]) && !IsSpace(FormatPersona(t)[|FormatPersona(t)| - 2]))
  {
    var k := TrimmedSlice(t);
    TrimmedLine(Strip(Passes(t)));
  }

  /** A text that neither starts nor ends with whitespace, followed by one
      line break. */
  lemma TrimmedLine(body: string)
    requires body == [] || (!IsSpace(body[0]) && !IsSpace(body[|body| - 1]))
    ensures var r := body + "\n";
            r[|r| - 1] == '\n' && (r == "\n" || (!IsSpace(r[0]) && !IsSpace(r[|r| - 2])))
  {
    var r := body + "\n";
    if body != [] {
      assert r[0] == body[0] && r[|r| - 2] == body[|body| - 1];
    }
  }

  /** The formatted text holds an asterisk at most at its first position. */
  lemma FormatStars(t: string)
    ensures StarOnlyAtHead(FormatPersona(t))
  {
    var s := Passes(t);
    var body := Strip(s);
    assert StarOnlyAtHead(s) by {
      PassesSpec(t);
    }
    var k := TrimmedSlice(t);
    StarSlice(s, k, |body|);
    StarLine(body);
  }

  /** A line break added at the end puts no asterisk past the head. */
  lemma StarLine(body: string)
    requires StarOnlyAtHead(body)
    ensures StarOnlyAtHead(body + "\n")
  {
    var r := body + "\n";
    forall i | 0 < i < |r| ensures r[i] != '*' {
      if i < |body| {
        assert r[i] == body[i];
      }
    }
  }
}
