/** The link-stripping chain run on the persona body before it is formatted:
    one pass deletes bare web links, then five passes delete the empty
    brackets and dangling opening parentheses that the deleted links leave
    behind. Each pass is a left-to-right substitution in the manner of
    Python's re.sub: the leftmost match is replaced, scanning resumes right
    after it, and none of the patterns can match the empty string. */
module LinkCleanup {
  import opened Strings

  /** A match at position p: s[p..p+keep] is written back (the group a pass
      keeps), the rest of s[p..end] is deleted, and scanning resumes at end. */
  datatype Match = Match(keep: nat, end: nat)

  /** The six substitutions, in the order they are applied. */
  datatype Pass =
    | Links           // "http://" or "https://" and the non-space run after it
    | EmptyParens     // '(' whitespace* ')'
    | EmptyBrackets   // '[' whitespace* ']'
    | EmptyParensEol  // '(' whitespace* ')' at the end of a line
    | MarkerParenEol  // one of ':' '*' '-', whitespace*, '(' at the end of a line; the marker stays
    | OpenParenEol    // '(' whitespace* at the end of a line

  /** The first index at or after i that is not whitespace, or |s|. */
  function SpaceEnd(s: string, i: nat): (j: nat)
    requires i <= |s|
    ensures i <= j <= |s|
    ensures j < |s| ==> !IsSpace(s[j])
    ensures forall k :: i <= k < j ==> IsSpace(s[k])
    decreases |s| - i
  {
    if i == |s| || !IsSpace(s[i]) then i else SpaceEnd(s, i + 1)
  }

  /** The first index at or after i that is whitespace, or |s|. */
  function WordEnd(s: string, i: nat): (j: nat)
    requires i <= |s|
    ensures i <= j <= |s|
    ensures j < |s| ==> IsSpace(s[j])
    ensures forall k :: i <= k < j ==> !IsSpace(s[k])
    decreases |s| - i
  {
    if i == |s| || IsSpace(s[i]) then i else WordEnd(s, i + 1)
  }

  /** Where a multi-line `$` matches: the end of the text or just before a '\n'. */
  predicate AtLineEnd(s: string, x: nat) {
    x == |s| || (x < |s| && s[x] == '\n')
  }

  /** The last '\n' at an index in [lo, hi). */
  function LastBreakIn(s: string, lo: nat, hi: nat): (r: Option<nat>)
    requires hi <= |s|
    ensures r.Some? ==> lo <= r.value < hi && s[r.value] == '\n'
    ensures r.Some? ==> forall x :: r.value < x < hi ==> s[x] != '\n'
    ensures r.None? ==> forall x :: lo <= x < hi ==> s[x] != '\n'
    decreases hi
  {
    if hi <= lo then None
    else if s[hi - 1] == '\n' then Some(hi - 1)
    else LastBreakIn(s, lo, hi - 1)
  }

  /** A link starts at p: a scheme followed by at least one non-space
      character. The optional 's' is tried first and given up if it fails. */
  predicate BareLinkAt(s: string, p: nat) {
    (OccursAt(s, "http://", p) && p + 7 < |s| && !IsSpace(s[p + 7]))
    || (OccursAt(s, "https://", p) && p + 8 < |s| && !IsSpace(s[p + 8]))
  }

  /** An opening character, whitespace, then the closing character. */
  function Enclosed(s: string, p: nat, open: char, close: char): (r: Option<Match>)
    requires p < |s|
    ensures r.Some? ==> r.value.keep == 0 && p < r.value.end <= |s|
  {
    if s[p] != open then None
    else
      var q := SpaceEnd(s, p + 1);
      if q < |s| && s[q] == close then Some(Match(0, q + 1)) else None
  }

  /** The match of `pass` starting at p, if there is one. Whitespace runs are
      greedy; where the rest of a pattern fails after the longest run, the
      shorter runs are tried, longest first. */
  function MatchAt(pass: Pass, s: string, p: nat): (r: Option<Match>)
    requires p < |s|
    ensures r.Some? ==> p < r.value.end <= |s| && r.value.keep <= r.value.end - p
  {
    match pass
    case Links =>
      if BareLinkAt(s, p) then
        assert s[p] == s[p..p + 7][0];
        Some(Match(0, WordEnd(s, p)))
      else None
    case EmptyParens => Enclosed(s, p, '(', ')')
    case EmptyBrackets => Enclosed(s, p, '[', ']')
    case EmptyParensEol =>
      var m := Enclosed(s, p, '(', ')');
      if m.Some? && AtLineEnd(s, m.value.end) then m else None
    case MarkerParenEol =>
      if s[p] == ':' || s[p] == '*' || s[p] == '-' then
        var q := SpaceEnd(s, p + 1);
        if q < |s| && s[q] == '(' && AtLineEnd(s, q + 1) then Some(Match(1, q + 1)) else None
      else None
    case OpenParenEol =>
      if s[p] != '(' then None
      else
        var q := SpaceEnd(s, p + 1);
        if q == |s| then Some(Match(0, |s|))
        else match LastBreakIn(s, p + 1, q)
          case Some(x) => Some(Match(0, x))
          case None => None
  }

  /** re.sub of `pass` over s[p..]. */
  function Scan(pass: Pass, s: string, p: nat): string
    requires p <= |s|
    decreases |s| - p
  {
    if p == |s| then []
    else match MatchAt(pass, s, p)
      case Some(m) => s[p..p + m.keep] + Scan(pass, s, m.end)
      case None => [s[p]] + Scan(pass, s, p + 1)
  }

  function Apply(pass: Pass, s: string): string {
    Scan(pass, s, 0)
  }

  /** The first substitution of the chain: every link deleted. */
  function StripLinks(s: string): string {
    Apply(Links, s)
  }

  /** The five substitutions that follow it. */
  function Tidy(s: string): string {
    Apply(OpenParenEol, Apply(MarkerParenEol, Apply(EmptyParensEol,
      Apply(EmptyBrackets, Apply(EmptyParens, s)))))
  }

  function CleanLinks(s: string): string {
    Tidy(StripLinks(s))
  }

  // ---------------------------------------------------------------------
  // No link survives the first pass.

  lemma LinkAtShift(c: char, t: string, q: nat)
    ensures BareLinkAt([c] + t, q + 1) == BareLinkAt(t, q)
  {
    var u := [c] + t;
    if q + 7 <= |t| { assert u[q + 1..q + 8] == t[q..q + 7]; }
    if q + 8 <= |t| { assert u[q + 1..q + 9] == t[q..q + 8]; }
    if q + 7 < |t| { assert u[q + 8] == t[q + 7]; }
    if q + 8 < |t| { assert u[q + 9] == t[q + 8]; }
  }

  /** A link at the head of t occupies a prefix of non-space characters that
      is itself a link. */
  lemma LinkWidth(t: string) returns (w: nat)
    requires BareLinkAt(t, 0)
    ensures w <= |t| && BareLinkAt(t[..w], 0)
    ensures forall i :: 0 <= i < w ==> !IsSpace(t[i])
  {
    if OccursAt(t, "http://", 0) && 7 < |t| && !IsSpace(t[7]) {
      w := 8;
      assert t[..w][..7] == t[..7];
      forall i | 0 <= i < 7 ensures !IsSpace(t[i]) { assert t[i] == "http://"[i]; }
    } else {
      w := 9;
      assert t[..w][..8] == t[..8];
      forall i | 0 <= i < 8 ensures !IsSpace(t[i]) { assert t[i] == "https://"[i]; }
    }
  }

  lemma LinkAtSlice(s: string, p: nat, w: nat)
    requires p + w <= |s| && BareLinkAt(s[p..p + w], 0)
    ensures BareLinkAt(s, p)
  {
    var u := s[p..p + w];
    if OccursAt(u, "http://", 0) && 7 < |u| && !IsSpace(u[7]) {
      assert u[..7] == s[p..p + 7];
    } else {
      assert u[..8] == s[p..p + 8];
    }
  }

  /** The length of the run of non-space characters that t starts with. */
  function HeadWord(t: string): (n: nat)
    ensures n <= |t|
    ensures n < |t| ==> IsSpace(t[n])
    ensures forall i :: 0 <= i < n ==> !IsSpace(t[i])
  {
    if t == [] || IsSpace(t[0]) then 0 else 1 + HeadWord(t[1..])
  }

  lemma ScanCopies(pass: Pass, s: string, p: nat)
    requires p < |s| && MatchAt(pass, s, p).None?
    ensures Scan(pass, s, p) == [s[p]] + Scan(pass, s, p + 1)
  {
  }

  lemma ScanReplaces(pass: Pass, s: string, p: nat, m: Match)
    requires p < |s| && MatchAt(pass, s, p) == Some(m)
    ensures Scan(pass, s, p) == s[p..p + m.keep] + Scan(pass, s, m.end)
  {
  }

  lemma ScanReplacesAt(pass: Pass, s: string, p: nat, keep: nat, end: nat)
    requires p < |s| && MatchAt(pass, s, p) == Some(Match(keep, end))
    ensures end <= |s| && Scan(pass, s, p) == s[p..p + keep] + Scan(pass, s, end)
  {
  }

  /** No link starts at whitespace, so the first pass copies it. */
  lemma LinksResumeAtSpace(s: string, e: nat)
    requires e <= |s| && (e == |s| || IsSpace(s[e]))
    ensures HeadWord(Scan(Links, s, e)) == 0
  {
    if e < |s| {
      if BareLinkAt(s, e) {
        assert s[e] == s[e..e + 7][0];
      }
      ScanCopies(Links, s, e);
    }
  }

  /** The run of non-space characters at the head of out is s[p..] up to
      the same length. */
  predicate HeadCopied(out: string, s: string, p: nat) {
    p + HeadWord(out) <= |s| && out[..HeadWord(out)] == s[p..p + HeadWord(out)]
  }

  lemma HeadCopiedCons(s: string, p: nat, rest: string)
    requires p < |s| && HeadCopied(rest, s, p + 1)
    ensures HeadCopied([s[p]] + rest, s, p)
  {
    HeadWordCons(s[p], rest);
    if !IsSpace(s[p]) {
      SliceCons(s, p, 1 + HeadWord(rest));
    }
  }

  /** The run of non-space characters at the head of the first pass's output
      over s[p..] is copied unchanged from s[p..]: a deleted link always ends
      just before whitespace or at the end of the text. */
  lemma {:induction false} LinksHeadCopied(s: string, p: nat)
    requires p <= |s|
    ensures HeadCopied(Scan(Links, s, p), s, p)
    decreases |s| - p
  {
    if p < |s| {
      match MatchAt(Links, s, p)
      case Some(m) =>
        ScanReplaces(Links, s, p, m);
        LinksResumeAtSpace(s, m.end);
      case None =>
        ScanCopies(Links, s, p);
        LinksHeadCopied(s, p + 1);
        HeadCopiedCons(s, p, Scan(Links, s, p + 1));
    }
  }

  lemma HeadWordCons(c: char, t: string)
    ensures !IsSpace(c) ==> HeadWord([c] + t) == 1 + HeadWord(t) && ([c] + t)[..1 + HeadWord(t)] == [c] + t[..HeadWord(t)]
    ensures IsSpace(c) ==> HeadWord([c] + t) == 0
  {
    assert ([c] + t)[1..] == t;
  }

  lemma SliceCons(s: string, p: nat, n: nat)
    requires p < |s| && p + n <= |s| && 0 < n
    ensures s[p..p + n] == [s[p]] + s[p + 1..p + n]
  {
  }

  /** A link at the head of the first pass's output would be a link at the
      position of the input it was copied from. */
  lemma LinksGoneHead(s: string, p: nat)
    requires p < |s| && MatchAt(Links, s, p).None?
    ensures !BareLinkAt(Scan(Links, s, p), 0)
  {
    var out := Scan(Links, s, p);
    if BareLinkAt(out, 0) {
      var w := LinkWidth(out);
      LinksHeadCopied(s, p);
      assert HeadCopied(out, s, p);
      PrefixAgree(out, s, p, w, HeadWord(out));
      LinkAtSlice(s, p, w);
      assert false;
    }
  }

  lemma PrefixAgree(t: string, s: string, p: nat, w: nat, h: nat)
    requires w <= h <= |t| && p + h <= |s| && t[..h] == s[p..p + h]
    ensures t[..w] == s[p..p + w]
  {
    assert t[..w] == t[..h][..w];
  }

  /** A link matched by the first pass is deleted without a trace. */
  lemma LinksSkip(s: string, p: nat, m: Match)
    requires p < |s| && MatchAt(Links, s, p) == Some(m)
    ensures Scan(Links, s, p) == Scan(Links, s, m.end)
  {
    ScanReplaces(Links, s, p, m);
    assert s[p..p + m.keep] == [];
  }

  lemma {:induction false} LinksGone(s: string, p: nat, q: nat)
    requires p <= |s|
    ensures !BareLinkAt(Scan(Links, s, p), q)
    decreases |s| - p
  {
    if p == |s| {
      assert Scan(Links, s, p) == [];
    } else {
      match MatchAt(Links, s, p)
      case Some(m) =>
        LinksSkip(s, p, m);
        LinksGone(s, m.end, q);
      case None =>
        if q == 0 {
          LinksGoneHead(s, p);
        } else {
          ScanCopies(Links, s, p);
          LinksGone(s, p + 1, q - 1);
          LinkAtShift(s[p], Scan(Links, s, p + 1), q - 1);
        }
    }
  }

  /** After the first pass no "http://" or "https://" followed by a
      non-space character remains anywhere in the text. */
  lemma NoLinkRemains(s: string, q: nat)
    ensures !BareLinkAt(StripLinks(s), q)
  {
    LinksGone(s, 0, q);
  }

  // ---------------------------------------------------------------------
  // A pass changes nothing where it finds no match.

  lemma {:induction false} ScanNoMatch(pass: Pass, s: string, p: nat)
    requires p <= |s|
    requires forall q :: p <= q < |s| ==> MatchAt(pass, s, q).None?
    ensures Scan(pass, s, p) == s[p..]
    decreases |s| - p
  {
    if p < |s| {
      ScanNoMatch(pass, s, p + 1);
      assert s[p..] == [s[p]] + s[p + 1..];
    }
  }

  /** Text without links passes the first substitution unchanged. */
  lemma StripLinksNoop(s: string)
    requires forall q :: !BareLinkAt(s, q)
    ensures StripLinks(s) == s
  {
    ScanNoMatch(Links, s, 0);
  }

  /** Deleting links a second time deletes nothing. */
  lemma StripLinksIdempotent(s: string)
    ensures StripLinks(StripLinks(s)) == StripLinks(s)
  {
    forall q ensures !BareLinkAt(StripLinks(s), q) { NoLinkRemains(s, q); }
    StripLinksNoop(StripLinks(s));
  }

  // ---------------------------------------------------------------------
  // The five tidying passes delete only whitespace and bracket characters.

  predicate IsLayout(c: char) {
    IsSpace(c) || c == '(' || c == ')' || c == '[' || c == ']'
  }

  /** The text with whitespace and bracket characters left out. */
  function Visible(s: string): string {
    if s == [] then []
    else (if IsLayout(s[0]) then [] else [s[0]]) + Visible(s[1..])
  }

  lemma {:induction false} VisibleAppend(a: string, b: string)
    ensures Visible(a + b) == Visible(a) + Visible(b)
  {
    if a == [] {
      assert a + b == b;
    } else {
      assert (a + b)[1..] == a[1..] + b;
      VisibleAppend(a[1..], b);
    }
  }

  lemma {:induction false} VisibleLayout(a: string)
    requires forall i :: 0 <= i < |a| ==> IsLayout(a[i])
    ensures Visible(a) == []
  {
    if a != [] {
      assert IsLayout(a[0]);
      forall i | 0 <= i < |a| - 1 ensures IsLayout(a[1..][i]) { assert a[1..][i] == a[i + 1]; }
      VisibleLayout(a[1..]);
    }
  }

  /** What a tidying pass deletes is whitespace and bracket characters. */
  lemma MatchDeletesLayout(pass: Pass, s: string, p: nat)
    requires p < |s| && pass != Links && MatchAt(pass, s, p).Some?
    ensures forall i :: p + MatchAt(pass, s, p).value.keep <= i < MatchAt(pass, s, p).value.end ==> IsLayout(s[i])
  {
  }

  /** Deleting a stretch of layout characters leaves the visible text alone. */
  lemma VisibleDelete(kept: string, gone: string, rest: string, rest2: string)
    requires Visible(gone) == [] && Visible(rest2) == Visible(rest)
    ensures Visible(kept + rest2) == Visible(kept + gone + rest)
  {
    var vk, vg, vr := Visible(kept), Visible(gone), Visible(rest);
    VisibleAppend(kept + gone, rest);
    VisibleAppend(kept, gone);
    assert Visible(kept + gone) == vk + vg == vk;
    VisibleAppend(kept, rest2);
  }

  lemma Slice3(s: string, p: nat, k: nat, e: nat)
    requires p <= k <= e <= |s|
    ensures s[p..] == s[p..k] + s[k..e] + s[e..]
  {
  }

  lemma {:induction false} ScanKeepsVisible(pass: Pass, s: string, p: nat)
    requires p <= |s| && pass != Links
    ensures Visible(Scan(pass, s, p)) == Visible(s[p..])
    decreases |s| - p
  {
    if p < |s| {
      match MatchAt(pass, s, p)
      case Some(m) =>
        var k := p + m.keep;
        ScanReplaces(pass, s, p, m);
        ScanKeepsVisible(pass, s, m.end);
        MatchDeletesLayout(pass, s, p);
        VisibleLayout(s[k..m.end]);
        Slice3(s, p, k, m.end);
        VisibleDelete(s[p..k], s[k..m.end], s[m.end..], Scan(pass, s, m.end));
      case None =>
        ScanCopies(pass, s, p);
        ScanKeepsVisible(pass, s, p + 1);
        Slice3(s, p, p + 1, p + 1);
        VisibleDelete([s[p]], [], s[p + 1..], Scan(pass, s, p + 1));
    }
  }

  /** The tidying passes keep every character that is neither whitespace
      nor a bracket, in order. */
  lemma TidyKeepsVisible(s: string)
    ensures Visible(Tidy(s)) == Visible(s)
  {
    var s1 := Apply(EmptyParens, s);
    var s2 := Apply(EmptyBrackets, s1);
    var s3 := Apply(EmptyParensEol, s2);
    var s4 := Apply(MarkerParenEol, s3);
    ScanKeepsVisible(EmptyParens, s, 0);
    ScanKeepsVisible(EmptyBrackets, s1, 0);
    ScanKeepsVisible(EmptyParensEol, s2, 0);
    ScanKeepsVisible(MarkerParenEol, s3, 0);
    ScanKeepsVisible(OpenParenEol, s4, 0);
    assert s[0..] == s && s1[0..] == s1 && s2[0..] == s2 && s3[0..] == s3 && s4[0..] == s4;
  }

  /** The whole chain keeps exactly the visible text of the link-free body. */
  lemma CleanLinksVisible(s: string)
    ensures Visible(CleanLinks(s)) == Visible(StripLinks(s))
  {
    TidyKeepsVisible(StripLinks(s));
  }

  // ---------------------------------------------------------------------
  // Each tidying pass deletes what its pattern stands for. The patterns
  // look only forward, so a stretch after a match is scanned as if it stood
  // alone; and a stretch before one is scanned as if it stood alone as long
  // as no match inside it runs up to, or looks at, its last character.

  function ShiftMatch(r: Option<Match>, d: nat): Option<Match> {
    match r
    case None => None
    case Some(m) => Some(Match(m.keep, d + m.end))
  }

  function ShiftIndex(r: Option<nat>, d: nat): Option<nat> {
    match r
    case None => None
    case Some(x) => Some(d + x)
  }

  lemma {:induction false} SpaceEndShift(a: string, y: string, i: nat)
    requires i <= |y|
    ensures SpaceEnd(a + y, |a| + i) == |a| + SpaceEnd(y, i)
    decreases |y| - i
  {
    if i < |y| {
      assert (a + y)[|a| + i] == y[i];
      if IsSpace(y[i]) {
        SpaceEndShift(a, y, i + 1);
      }
    }
  }

  lemma {:induction false} LastBreakInShift(a: string, y: string, lo: nat, hi: nat)
    requires hi <= |y|
    ensures LastBreakIn(a + y, |a| + lo, |a| + hi) == ShiftIndex(LastBreakIn(y, lo, hi), |a|)
    decreases hi
  {
    if lo < hi {
      assert (a + y)[|a| + hi - 1] == y[hi - 1];
      if y[hi - 1] != '\n' {
        LastBreakInShift(a, y, lo, hi - 1);
      }
    }
  }

  lemma EnclosedShift(a: string, y: string, i: nat, open: char, close: char)
    requires i < |y|
    ensures Enclosed(a + y, |a| + i, open, close) == ShiftMatch(Enclosed(y, i, open, close), |a|)
  {
    assert (a + y)[|a| + i] == y[i];
    SpaceEndShift(a, y, i + 1);
    var q := SpaceEnd(y, i + 1);
    if q < |y| {
      assert (a + y)[|a| + q] == y[q];
    }
  }

  /** The tidying patterns look only forward: a match in y is the same match,
      shifted, in a + y. */
  lemma MatchShift(pass: Pass, a: string, y: string, i: nat)
    requires pass != Links && i < |y|
    ensures MatchAt(pass, a + y, |a| + i) == ShiftMatch(MatchAt(pass, y, i), |a|)
  {
    match pass {
      case EmptyParens => EnclosedShift(a, y, i, '(', ')');
      case EmptyBrackets => EnclosedShift(a, y, i, '[', ']');
      case EmptyParensEol => EnclosedEolShift(a, y, i);
      case MarkerParenEol => MarkerShift(a, y, i);
      case OpenParenEol => OpenShift(a, y, i);
    }
  }

  lemma EnclosedEolShift(a: string, y: string, i: nat)
    requires i < |y|
    ensures MatchAt(EmptyParensEol, a + y, |a| + i) == ShiftMatch(MatchAt(EmptyParensEol, y, i), |a|)
  {
    EnclosedShift(a, y, i, '(', ')');
    var m := Enclosed(y, i, '(', ')');
    if m.Some? && m.value.end < |y| {
      assert (a + y)[|a| + m.value.end] == y[m.value.end];
    }
  }

  lemma MarkerShift(a: string, y: string, i: nat)
    requires i < |y|
    ensures MatchAt(MarkerParenEol, a + y, |a| + i) == ShiftMatch(MatchAt(MarkerParenEol, y, i), |a|)
  {
    var s := a + y;
    assert s[|a| + i] == y[i];
    SpaceEndShift(a, y, i + 1);
    var q := SpaceEnd(y, i + 1);
    if q < |y| {
      assert s[|a| + q] == y[q];
    }
    if q + 1 < |y| {
      assert s[|a| + q + 1] == y[q + 1];
    }
  }

  lemma OpenShift(a: string, y: string, i: nat)
    requires i < |y|
    ensures MatchAt(OpenParenEol, a + y, |a| + i) == ShiftMatch(MatchAt(OpenParenEol, y, i), |a|)
  {
    assert (a + y)[|a| + i] == y[i];
    SpaceEndShift(a, y, i + 1);
    LastBreakInShift(a, y, i + 1, SpaceEnd(y, i + 1));
  }

  lemma MatchShiftSome(pass: Pass, a: string, y: string, i: nat, keep: nat, end: nat)
    requires pass != Links && i < |y| && MatchAt(pass, y, i) == Some(Match(keep, end))
    ensures MatchAt(pass, a + y, |a| + i) == Some(Match(keep, |a| + end))
    ensures (a + y)[|a| + i..|a| + i + keep] == y[i..i + keep]
  {
    MatchShift(pass, a, y, i);
  }

  lemma MatchShiftNone(pass: Pass, a: string, y: string, i: nat)
    requires pass != Links && i < |y| && MatchAt(pass, y, i).None?
    ensures MatchAt(pass, a + y, |a| + i).None?
    ensures (a + y)[|a| + i] == y[i]
  {
    MatchShift(pass, a, y, i);
  }

  /** Two scans that meet the same match write the same text from there on
      if they do after the match. */
  lemma ScanReplacesAlike(pass: Pass, s: string, p: nat, e: nat, t: string, q: nat, f: nat, keep: nat)
    requires p < |s| && MatchAt(pass, s, p) == Some(Match(keep, e))
    requires q < |t| && MatchAt(pass, t, q) == Some(Match(keep, f))
    requires s[p..p + keep] == t[q..q + keep] && Scan(pass, s, e) == Scan(pass, t, f)
    ensures Scan(pass, s, p) == Scan(pass, t, q)
  {
    ScanReplacesAt(pass, s, p, keep, e);
    ScanReplacesAt(pass, t, q, keep, f);
  }

  /** Two scans that meet no match at the same character write the same text
      from there on if they do from the next character. */
  lemma ScanCopiesAlike(pass: Pass, s: string, p: nat, p1: nat, t: string, q: nat)
    requires p < |s| && MatchAt(pass, s, p).None? && p1 == p + 1
    requires q < |t| && MatchAt(pass, t, q).None?
    requires s[p] == t[q] && Scan(pass, s, p1) == Scan(pass, t, q + 1)
    ensures Scan(pass, s, p) == Scan(pass, t, q)
  {
    ScanCopies(pass, s, p);
    ScanCopies(pass, t, q);
  }

  /** The scan of a + y from |a| + j writes what the scan of y alone
      writes from j. */
  predicate ScansAlike(pass: Pass, a: string, y: string, j: nat)
    requires j <= |y|
  {
    Scan(pass, a + y, |a| + j) == Scan(pass, y, j)
  }

  /** Text after position |a| is scanned as if it stood alone. */
  lemma ScanSuffix(pass: Pass, a: string, y: string, i: nat)
    requires pass != Links && i <= |y|
    ensures Scan(pass, a + y, |a| + i) == Scan(pass, y, i)
  {
    ScanSuffixFrom(pass, a, y, i);
  }

  lemma {:induction false} ScanSuffixFrom(pass: Pass, a: string, y: string, i: nat)
    requires pass != Links && i <= |y|
    ensures ScansAlike(pass, a, y, i)
    decreases |y| - i
  {
    if i < |y| {
      match MatchAt(pass, y, i)
      case Some(m) =>
        ScanSuffixFrom(pass, a, y, m.end);
        ScanSuffixReplaces(pass, a, y, i, m.keep, m.end);
      case None =>
        ScanSuffixFrom(pass, a, y, i + 1);
        ScanSuffixCopies(pass, a, y, i);
    }
  }

  /** One step of ScanSuffixFrom where the pattern matches at i. */
  lemma ScanSuffixReplaces(pass: Pass, a: string, y: string, i: nat, keep: nat, end: nat)
    requires pass != Links && i < |y| && MatchAt(pass, y, i) == Some(Match(keep, end))
    requires end <= |y| && ScansAlike(pass, a, y, end)
    ensures ScansAlike(pass, a, y, i)
  {
    MatchShiftSome(pass, a, y, i, keep, end);
    ScanReplacesAlike(pass, a + y, |a| + i, |a| + end, y, i, end, keep);
  }

  /** One step of ScanSuffixFrom where the pattern does not match at i. */
  lemma ScanSuffixCopies(pass: Pass, a: string, y: string, i: nat)
    requires pass != Links && i < |y| && MatchAt(pass, y, i).None?
    requires ScansAlike(pass, a, y, i + 1)
    ensures ScansAlike(pass, a, y, i)
  {
    MatchShiftNone(pass, a, y, i);
    ScanCopiesAlike(pass, a + y, |a| + i, |a| + (i + 1), y, i);
  }

  lemma {:induction false} SpaceEndPrefix(x: string, z: string, j: nat)
    requires j <= |x| && (z == [] || !IsSpace(z[0]))
    ensures SpaceEnd(x + z, j) == SpaceEnd(x, j)
    decreases |x| - j
  {
    if j < |x| {
      assert (x + z)[j] == x[j];
      if IsSpace(x[j]) {
        SpaceEndPrefix(x, z, j + 1);
      }
    } else if z != [] {
      assert (x + z)[j] == z[0];
    }
  }

  lemma {:induction false} LastBreakInPrefix(x: string, z: string, lo: nat, hi: nat)
    requires hi <= |x|
    ensures LastBreakIn(x + z, lo, hi) == LastBreakIn(x, lo, hi)
    decreases hi
  {
    if lo < hi {
      assert (x + z)[hi - 1] == x[hi - 1];
      LastBreakInPrefix(x, z, lo, hi - 1);
    }
  }

  /** What may follow a stretch x, starting with the character c, without
      changing any match of `pass` that starts inside x. */
  predicate Boundary(pass: Pass, x: string, c: char) {
    !IsSpace(c) &&
    match pass
    case Links => false
    case EmptyParens => c != ')'
    case EmptyBrackets => c != ']'
    case EmptyParensEol => c != ')' && (x == [] || x[|x| - 1] != ')')
    case MarkerParenEol => c != '(' && (x == [] || x[|x| - 1] != '(')
    case OpenParenEol => x == [] || (!IsSpace(x[|x| - 1]) && x[|x| - 1] != '(')
  }

  lemma EnclosedPrefix(x: string, z: string, i: nat, open: char, close: char)
    requires i < |x| && z != [] && !IsSpace(z[0]) && z[0] != close
    ensures Enclosed(x + z, i, open, close) == Enclosed(x, i, open, close)
    ensures Enclosed(x, i, open, close).Some? ==> x[Enclosed(x, i, open, close).value.end - 1] == close
  {
    assert (x + z)[i] == x[i];
    SpaceEndPrefix(x, z, i + 1);
    var q := SpaceEnd(x, i + 1);
    if q < |x| {
      assert (x + z)[q] == x[q];
    } else {
      assert (x + z)[q] == z[0];
    }
  }

  lemma MatchPrefix(pass: Pass, x: string, z: string, i: nat)
    requires i < |x| && z != [] && Boundary(pass, x, z[0])
    ensures MatchAt(pass, x + z, i) == MatchAt(pass, x, i)
  {
    var s := x + z;
    assert s[i] == x[i];
    SpaceEndPrefix(x, z, i + 1);
    var q := SpaceEnd(x, i + 1);
    if q < |x| {
      assert s[q] == x[q];
    } else {
      assert s[q] == z[0];
    }
    if q + 1 < |x| {
      assert s[q + 1] == x[q + 1];
    }
    match pass {
      case EmptyParens => EnclosedPrefix(x, z, i, '(', ')');
      case EmptyBrackets => EnclosedPrefix(x, z, i, '[', ']');
      case EmptyParensEol =>
        EnclosedPrefix(x, z, i, '(', ')');
        var m := Enclosed(x, i, '(', ')');
        if m.Some? {
          assert m.value.end < |x|;
          assert s[m.value.end] == x[m.value.end];
        }
      case MarkerParenEol =>
      case OpenParenEol =>
        if x[i] == '(' {
          assert q < |x|;
          LastBreakInPrefix(x, z, i + 1, q);
        }
    }
  }

  /** A stretch x that no match crosses is scanned as if it stood alone. */
  lemma {:induction false} ScanPrefix(pass: Pass, x: string, z: string, p: nat)
    requires p <= |x| && z != [] && Boundary(pass, x, z[0])
    ensures Scan(pass, x + z, p) == Scan(pass, x, p) + Scan(pass, x + z, |x|)
    decreases |x| - p
  {
    if p < |x| {
      var s := x + z;
      var rest := Scan(pass, s, |x|);
      assert s[p] == x[p];
      assert MatchAt(pass, s, p) == MatchAt(pass, x, p) by {
        MatchPrefix(pass, x, z, p);
      }
      match MatchAt(pass, x, p)
      case Some(m) =>
        calc {
          Scan(pass, s, p);
        == { ScanReplaces(pass, s, p, m); }
          s[p..p + m.keep] + Scan(pass, s, m.end);
        == { ScanPrefix(pass, x, z, m.end);
             assert s[p..p + m.keep] == x[p..p + m.keep]; }
          x[p..p + m.keep] + (Scan(pass, x, m.end) + rest);
        == { ConcatAssoc(x[p..p + m.keep], Scan(pass, x, m.end), rest); }
          x[p..p + m.keep] + Scan(pass, x, m.end) + rest;
        == { ScanReplaces(pass, x, p, m); }
          Scan(pass, x, p) + rest;
        }
      case None =>
        calc {
          Scan(pass, s, p);
        == { ScanCopies(pass, s, p); }
          [s[p]] + Scan(pass, s, p + 1);
        == { ScanPrefix(pass, x, z, p + 1); }
          [x[p]] + (Scan(pass, x, p + 1) + rest);
        == { ConcatAssoc([x[p]], Scan(pass, x, p + 1), rest); }
          [x[p]] + Scan(pass, x, p + 1) + rest;
        == { ScanCopies(pass, x, p); }
          Scan(pass, x, p) + rest;
        }
    } else {
      assert Scan(pass, x, p) == [];
    }
  }

  /** A match of `pass` over exactly `mid`, between a stretch x it does not
      disturb and any text y: x and y are rewritten on their own, and of
      `mid` only the kept group is written. */
  lemma ScanAcross(pass: Pass, x: string, mid: string, y: string, keep: nat)
    requires pass != Links && mid != [] && keep <= |mid| && Boundary(pass, x, mid[0])
    requires MatchAt(pass, x + (mid + y), |x|) == Some(Match(keep, |x| + |mid|))
    ensures Apply(pass, x + (mid + y)) == Apply(pass, x) + (mid[..keep] + Apply(pass, y))
  {
    assert (mid + y)[0] == mid[0];
    ScanPrefix(pass, x, mid + y, 0);
    ScanMatchHead(pass, x, mid, y, keep);
    ScanAfterMatch(pass, x, mid, y);
  }

  lemma ScanMatchHead(pass: Pass, x: string, mid: string, y: string, keep: nat)
    requires keep <= |mid| && mid != []
    requires MatchAt(pass, x + (mid + y), |x|) == Some(Match(keep, |x| + |mid|))
    ensures Scan(pass, x + (mid + y), |x|) == mid[..keep] + Scan(pass, x + (mid + y), |x| + |mid|)
  {
    SliceHead(x, mid, y, keep);
    ScanReplacesAt(pass, x + (mid + y), |x|, keep, |x| + |mid|);
  }

  lemma ScanAfterMatch(pass: Pass, x: string, mid: string, y: string)
    requires pass != Links
    ensures Scan(pass, x + (mid + y), |x| + |mid|) == Apply(pass, y)
  {
    assert Scan(pass, x + (mid + y), |x| + |mid|) == Scan(pass, mid + y, |mid|) by {
      ScanSuffix(pass, x, mid + y, |mid|);
    }
    assert Scan(pass, mid + y, |mid|) == Scan(pass, y, 0) by {
      ScanSuffix(pass, mid, y, 0);
    }
  }

  lemma SliceHead(x: string, mid: string, y: string, n: nat)
    requires n <= |mid|
    ensures (x + (mid + y))[|x|..|x| + n] == mid[..n]
  {
  }

  /** The first index at or after i that is not whitespace is i + n when
      s[i..i+n] is whitespace and s[i+n] is not. */
  lemma {:induction false} SpaceEndOver(s: string, i: nat, n: nat)
    requires i + n <= |s|
    requires forall k :: i <= k < i + n ==> IsSpace(s[k])
    requires i + n == |s| || !IsSpace(s[i + n])
    ensures SpaceEnd(s, i) == i + n
    decreases n
  {
    if n > 0 {
      SpaceEndOver(s, i + 1, n - 1);
    }
  }

  predicate AllSpace(w: string) {
    forall k :: 0 <= k < |w| ==> IsSpace(w[k])
  }

  /** Whitespace w before a non-space character or the end is skipped whole. */
  lemma {:induction false} SpaceRun(w: string, v: string)
    requires AllSpace(w) && (v == [] || !IsSpace(v[0]))
    ensures SpaceEnd(w + v, 0) == |w|
    decreases |w|
  {
    if w == [] {
      assert w + v == v;
    } else {
      assert w + v == [w[0]] + (w[1..] + v);
      assert (w + v)[0] == w[0];
      assert AllSpace(w[1..]) by {
        forall k | 0 <= k < |w[1..]| ensures IsSpace(w[1..][k]) {
          assert w[1..][k] == w[k + 1];
        }
      }
      SpaceRun(w[1..], v);
      SpaceEndShift([w[0]], w[1..] + v, 0);
    }
  }

  lemma Regroup3(x: string, a: string, b: string, y: string)
    ensures x + a + b + y == x + ((a + b) + y)
    ensures x + a + b + y == (x + a) + (b + y)
  {
  }

  lemma Regroup4(x: string, a: string, b: string, c: string, y: string)
    ensures x + a + b + c + y == x + ((a + b + c) + y)
    ensures x + a + b + c + y == (x + a) + (b + (c + y))
  {
  }

  /** The whitespace w, placed at |x| + 1 between o and c. */
  lemma SpaceAfter(x: string, o: char, w: string, c: char, y: string)
    requires AllSpace(w) && !IsSpace(c)
    ensures var t := (x + [o]) + (w + ([c] + y));
            SpaceEnd(t, |x| + 1) == |x| + 1 + |w| && t[|x|] == o && t[|x| + 1 + |w|] == c
  {
    var u, v := x + [o], [c] + y;
    SpaceRun(w, v);
    SpaceEndShift(u, w + v, 0);
    assert (u + (w + v))[|x|] == u[|x|];
    assert (u + (w + v))[|x| + 1 + |w|] == (w + v)[|w|] == v[0];
  }

  /** An empty pair o w c at |x| is matched by `Enclosed` up to its end. */
  lemma EnclosedPairAt(x: string, open: char, w: string, close: char, y: string)
    requires AllSpace(w) && !IsSpace(close)
    ensures var t := x + (([open] + w + [close]) + y);
            Enclosed(t, |x|, open, close) == Some(Match(0, |x| + |w| + 2))
  {
    Regroup4(x, [open], w, [close], y);
    SpaceAfter(x, open, w, close, y);
  }

  lemma EmptyParensEolMatch(x: string, w: string, y: string)
    requires AllSpace(w) && (y == [] || y[0] == '\n')
    ensures var mid := ['('] + w + [')'];
            MatchAt(EmptyParensEol, x + (mid + y), |x|) == Some(Match(0, |x| + |mid|))
  {
    var mid := ['('] + w + [')'];
    var t := x + (mid + y);
    EnclosedPairAt(x, '(', w, ')', y);
    if y != [] {
      assert t[|x| + |mid|] == (mid + y)[|mid|] == y[0];
    }
  }

  lemma MarkerParenEolMatch(x: string, c: char, w: string, y: string)
    requires c == ':' || c == '*' || c == '-'
    requires AllSpace(w) && (y == [] || y[0] == '\n')
    ensures var mid := [c] + w + ['('];
            MatchAt(MarkerParenEol, x + (mid + y), |x|) == Some(Match(1, |x| + |mid|))
  {
    var mid := [c] + w + ['('];
    var t := x + (mid + y);
    Regroup4(x, [c], w, ['('], y);
    SpaceAfter(x, c, w, '(', y);
    if y != [] {
      assert t[|x| + |mid|] == (mid + y)[|mid|] == y[0];
    }
  }

  lemma OpenParenEolMatch(x: string, w: string, y: string)
    requires AllSpace(w)
    requires y == [] || (|y| >= 2 && y[0] == '\n' && !IsSpace(y[1]))
    ensures var mid := ['('] + w;
            MatchAt(OpenParenEol, x + (mid + y), |x|) == Some(Match(0, |x| + |mid|))
  {
    var mid := ['('] + w;
    var t := x + (mid + y);
    Regroup3(x, ['('], w, y);
    assert t[|x|] == '(';
    if y == [] {
      SpaceRun(w, y);
      SpaceEndShift(x + ['('], w + y, 0);
    } else {
      var w' := w + [y[0]];
      assert AllSpace(w') by {
        forall k | 0 <= k < |w'| ensures IsSpace(w'[k]) {
          if k < |w| {
            assert w'[k] == w[k];
          }
        }
      }
      assert w + y == w' + y[1..];
      SpaceRun(w', y[1..]);
      SpaceEndShift(x + ['('], w + y, 0);
      assert t[|x| + |mid|] == (w + y)[|w|] == '\n';
    }
  }

  /** `\(\s*\)` (line 158): an empty pair of parentheses, with only
      whitespace inside, is deleted; the text on either side is rewritten on
      its own. */
  lemma EmptyParensDeleted(x: string, w: string, y: string)
    requires AllSpace(w)
    ensures Apply(EmptyParens, x + "(" + w + ")" + y) == Apply(EmptyParens, x) + Apply(EmptyParens, y)
  {
    var mid := ['('] + w + [')'];
    Regroup4(x, ['('], w, [')'], y);
    EnclosedPairAt(x, '(', w, ')', y);
    ScanAcross(EmptyParens, x, mid, y, 0);
    assert mid[..0] == [];
  }

  /** `\[\s*\]` (line 159): an empty pair of square brackets is deleted. */
  lemma EmptyBracketsDeleted(x: string, w: string, y: string)
    requires AllSpace(w)
    ensures Apply(EmptyBrackets, x + "[" + w + "]" + y) == Apply(EmptyBrackets, x) + Apply(EmptyBrackets, y)
  {
    var mid := ['['] + w + [']'];
    Regroup4(x, ['['], w, [']'], y);
    EnclosedPairAt(x, '[', w, ']', y);
    ScanAcross(EmptyBrackets, x, mid, y, 0);
    assert mid[..0] == [];
  }

  /** `\(\s*\)$` (line 160): an empty pair of parentheses at the end of a
      line is deleted, provided the text before it does not itself end in a
      closing parenthesis (one that could close an earlier pair). */
  lemma EmptyParensEolDeleted(x: string, w: string, y: string)
    requires AllSpace(w) && (y == [] || y[0] == '\n')
    requires x == [] || x[|x| - 1] != ')'
    ensures Apply(EmptyParensEol, x + "(" + w + ")" + y) == Apply(EmptyParensEol, x) + Apply(EmptyParensEol, y)
  {
    var mid := ['('] + w + [')'];
    Regroup4(x, ['('], w, [')'], y);
    EmptyParensEolMatch(x, w, y);
    ScanAcross(EmptyParensEol, x, mid, y, 0);
    assert mid[..0] == [];
  }

  /** `(:|\*|-)\s*\($` (line 161): a marker followed by whitespace and an
      opening parenthesis at the end of a line keeps only the marker,
      provided the text before it does not itself end in an opening
      parenthesis. */
  lemma MarkerParenEolDeleted(x: string, c: char, w: string, y: string)
    requires c == ':' || c == '*' || c == '-'
    requires AllSpace(w) && (y == [] || y[0] == '\n')
    requires x == [] || x[|x| - 1] != '('
    ensures Apply(MarkerParenEol, x + [c] + w + "(" + y) == Apply(MarkerParenEol, x) + ([c] + Apply(MarkerParenEol, y))
  {
    var mid := [c] + w + ['('];
    assert x + [c] + w + "(" + y == x + (mid + y) by {
      Regroup4(x, [c], w, ['('], y);
    }
    assert Apply(MarkerParenEol, x + (mid + y)) == Apply(MarkerParenEol, x) + (mid[..1] + Apply(MarkerParenEol, y)) by {
      MarkerParenEolMatch(x, c, w, y);
      ScanAcross(MarkerParenEol, x, mid, y, 1);
    }
    assert mid[..1] == [c];
  }

  /** `\(\s*$` (line 162): an opening parenthesis followed by whitespace up to
      the end of the text, or up to a line break after which a line starts
      with a visible character, is deleted with that whitespace (the line
      break stays), provided the text before it ends in a visible character
      other than an opening parenthesis. */
  lemma OpenParenEolDeleted(x: string, w: string, y: string)
    requires AllSpace(w)
    requires y == [] || (|y| >= 2 && y[0] == '\n' && !IsSpace(y[1]))
    requires x == [] || (!IsSpace(x[|x| - 1]) && x[|x| - 1] != '(')
    ensures Apply(OpenParenEol, x + "(" + w + y) == Apply(OpenParenEol, x) + Apply(OpenParenEol, y)
  {
    var mid := ['('] + w;
    Regroup3(x, ['('], w, y);
    OpenParenEolMatch(x, w, y);
    ScanAcross(OpenParenEol, x, mid, y, 0);
    assert mid[..0] == [];
  }
}
