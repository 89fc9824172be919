/** The citation extractor: for every persona section of the fixed catalogue,
    the permalinks cited by the bullets that follow the section's header. */
module Citations {
  import opened Strings

  /** The persona sections, in the order the extractor visits them. */
  const Catalogue: seq<string> := [
    "Name", "Age", "Occupation", "Location",
    "Motivations", "Personality Traits", "Behavioral Patterns", "Frustrations", "Goals & Needs",
    "Interests", "Values", "Writing Style", "Online Behavior"
  ]

  const Sentinel: string := "No evidence found"

  /** What a section cites: the sentinel, a bare permalink, or two or more. */
  datatype Citation = NoEvidence | Single(url: string) | Multiple(urls: seq<string>)

  /** One key/value pair of the (insertion-ordered) citation dictionary. */
  datatype Entry = Entry(section: string, citation: Citation)

  function Header(name: string): string {
    "## " + name + "\n"
  }

  // ---------------------------------------------------------------------
  // The section pattern: a header, then one or more lines `- .+\n`

  /** A line matched by `- .+` : a dash, a space and at least one more
      character, none of them a newline. */
  predicate IsBulletLine(line: string) {
    |line| >= 3 && line[0] == '-' && line[1] == ' ' && '\n' !in line
  }

  /** A bullet line starts at `i` and its newline is at `e - 1`. */
  predicate BulletLineEndsAt(t: string, i: nat, e: nat) {
    i < e <= |t| && t[e - 1] == '\n' && IsBulletLine(t[i..e - 1])
  }

  /** Where the bullet line starting at `i` ends (just past its newline),
      if one starts there. */
  function BulletLineAt(t: string, i: nat): (r: Option<nat>)
    ensures r.Some? ==> i + 4 <= r.value <= |t|
  {
    if i + 2 < |t| && t[i] == '-' && t[i + 1] == ' ' then
      match IndexOf(t, '\n', i + 2)
      case Some(n) => if n > i + 2 then Some(n + 1) else None
      case None => None
    else None
  }

  /** A bullet line ends at `e` exactly when BulletLineAt finds that end:
      `.+` cannot cross a newline, so the line stops at the first one. */
  lemma BulletLineAtSpec(t: string, i: nat, e: nat)
    ensures BulletLineEndsAt(t, i, e) <==> BulletLineAt(t, i) == Some(e)
  {
    if BulletLineAt(t, i) == Some(e) {
      var line := t[i..e - 1];
      assert forall k :: 0 <= k < |line| ==> line[k] == t[i + k];
    }
    if BulletLineEndsAt(t, i, e) {
      var line := t[i..e - 1];
      assert line[0] == t[i] && line[1] == t[i + 1];
      assert forall j :: i + 2 <= j < e - 1 ==> t[j] == line[j - i];
    }
  }

  /** The lines of a run, each followed by its newline. */
  function Terminated(lines: seq<string>): string {
    if lines == [] then [] else lines[0] + "\n" + Terminated(lines[1..])
  }

  datatype Run = Run(lines: seq<string>, end: nat)

  /** The repeated group taken greedily from `i`: the maximal run of bullet lines. */
  function BulletRun(t: string, i: nat): (r: Run)
    requires i <= |t|
    ensures i <= r.end <= |t|
    ensures r.lines == [] <==> BulletLineAt(t, i).None?
    decreases |t| - i
  {
    match BulletLineAt(t, i)
    case None => Run([], i)
    case Some(e) =>
      var rest := BulletRun(t, e);
      Run([t[i..e - 1]] + rest.lines, rest.end)
  }

  lemma TerminatedCons(line: string, lines: seq<string>)
    ensures Terminated([line] + lines) == line + "\n" + Terminated(lines)
  {
    assert ([line] + lines)[1..] == lines;
  }

  /** The run is the text from `i` to its end, line by line. */
  lemma {:induction false} BulletRunText(t: string, i: nat)
    requires i <= |t|
    ensures t[i..BulletRun(t, i).end] == Terminated(BulletRun(t, i).lines)
    decreases |t| - i
  {
    match BulletLineAt(t, i)
    case None =>
    case Some(e) =>
      BulletRunText(t, e);
      BulletRunStep(t, i, e);
      var rest := BulletRun(t, e);
      TerminatedCons(t[i..e - 1], rest.lines);
      LineThenRest(t, i, e, rest.end);
  }

  /** One step of the greedy run: the bullet line at `i`, then the run after it. */
  lemma BulletRunStep(t: string, i: nat, e: nat)
    requires i <= |t| && BulletLineAt(t, i) == Some(e)
    ensures t[e - 1] == '\n'
    ensures BulletRun(t, i) == Run([t[i..e - 1]] + BulletRun(t, e).lines, BulletRun(t, e).end)
  {
    assert IndexOf(t, '\n', i + 2) == Some(e - 1);
  }

  lemma LineThenRest(t: string, i: nat, e: nat, end: nat)
    requires i < e <= end <= |t| && t[e - 1] == '\n'
    ensures t[i..end] == t[i..e - 1] + "\n" + t[e..end]
  {
    assert [t[e - 1]] == "\n";
    SliceAround(t, i, e - 1, end);
  }

  /** Every line of the run is a bullet line, and no further bullet line
      follows it. */
  lemma {:induction false} BulletRunLines(t: string, i: nat)
    requires i <= |t|
    ensures forall k :: 0 <= k < |BulletRun(t, i).lines| ==> IsBulletLine(BulletRun(t, i).lines[k])
    ensures BulletLineAt(t, BulletRun(t, i).end).None?
    decreases |t| - i
  {
    match BulletLineAt(t, i)
    case None =>
    case Some(e) =>
      BulletRunLines(t, e);
      BulletLineAtSpec(t, i, e);
      var rest := BulletRun(t, e);
      var lines := [t[i..e - 1]] + rest.lines;
      BulletRunStep(t, i, e);
      forall k | 0 <= k < |lines| ensures IsBulletLine(lines[k]) {
        if k > 0 { assert lines[k] == rest.lines[k - 1]; }
      }
  }

  /** The header of `name` occurs at `p` and is followed by at least one bullet line. */
  predicate SectionAt(t: string, name: string, p: nat) {
    OccursAt(t, Header(name), p) && BulletLineAt(t, p + |Header(name)|).Some?
  }

  /** re.search of the section pattern from `from`: the leftmost match. */
  function FindSection(t: string, name: string, from: nat): (r: Option<nat>)
    ensures r.Some? ==> from <= r.value && SectionAt(t, name, r.value)
    ensures r.Some? ==> forall p :: from <= p < r.value ==> !SectionAt(t, name, p)
    ensures r.None? ==> forall p :: from <= p ==> !SectionAt(t, name, p)
    decreases |t| - from
  {
    if from > |t| then None
    else if SectionAt(t, name, from) then Some(from)
    else FindSection(t, name, from + 1)
  }

  /** The bullet lines (newlines removed) of the first match for `name`,
      or none when the section pattern does not match. */
  function SectionBullets(t: string, name: string): seq<string> {
    match FindSection(t, name, 0)
    case None => []
    case Some(p) => BulletRun(t, p + |Header(name)|).lines
  }

  /** The text of group 1 of the section match for `name`, if it matches. */
  function SectionMatch(t: string, name: string): Option<string> {
    match FindSection(t, name, 0)
    case None => None
    case Some(p) => Some(Terminated(BulletRun(t, p + |Header(name)|).lines))
  }

  /** The header of `name` is followed by a section at `p` and by none earlier. */
  predicate FirstSectionAt(t: string, name: string, p: nat) {
    SectionAt(t, name, p) && forall q :: 0 <= q < p ==> !SectionAt(t, name, q)
  }

  /** `lines`, each newline-terminated, stand at `i` and no further bullet line follows. */
  predicate MaximalRunAt(t: string, i: nat, lines: seq<string>) {
    && OccursAt(t, Terminated(lines), i)
    && (forall k :: 0 <= k < |lines| ==> IsBulletLine(lines[k]))
    && BulletLineAt(t, i + |Terminated(lines)|).None?
  }

  /** There are bullets for `name` exactly when some header of `name` is
      followed by a bullet line; they are all bullet lines, and the group
      text is those bullets, newline-terminated. */
  lemma SectionBulletsSpec(t: string, name: string)
    ensures SectionBullets(t, name) != [] <==> exists p: nat :: SectionAt(t, name, p)
    ensures forall k :: 0 <= k < |SectionBullets(t, name)| ==> IsBulletLine(SectionBullets(t, name)[k])
    ensures SectionMatch(t, name) == if SectionBullets(t, name) == [] then None
                                     else Some(Terminated(SectionBullets(t, name)))
  {
    SectionBulletsExist(t, name);
    SectionBulletsAreBullets(t, name);
    SectionMatchIsRun(t, name);
  }

  lemma SectionBulletsExist(t: string, name: string)
    ensures SectionBullets(t, name) != [] <==> exists p: nat :: SectionAt(t, name, p)
  {
    match FindSection(t, name, 0)
    case None =>
      assert SectionBullets(t, name) == [];
    case Some(p) =>
      SectionBulletsAt(t, name, p);
      assert SectionAt(t, name, p);
  }

  lemma SectionBulletsAreBullets(t: string, name: string)
    ensures forall k :: 0 <= k < |SectionBullets(t, name)| ==> IsBulletLine(SectionBullets(t, name)[k])
  {
    match FindSection(t, name, 0)
    case None =>
      assert SectionBullets(t, name) == [];
    case Some(p) =>
      var i := p + |Header(name)|;
      BulletRunLines(t, i);
      var lines := BulletRun(t, i).lines;
      assert SectionBullets(t, name) == lines;
      forall k | 0 <= k < |lines| ensures IsBulletLine(lines[k]) { }
  }

  lemma SectionMatchIsRun(t: string, name: string)
    ensures SectionMatch(t, name) == if SectionBullets(t, name) == [] then None
                                     else Some(Terminated(SectionBullets(t, name)))
  {
    match FindSection(t, name, 0)
    case None =>
      assert SectionBullets(t, name) == [];
    case Some(p) =>
      SectionBulletsAt(t, name, p);
  }

  lemma SectionBulletsAt(t: string, name: string, p: nat)
    requires FindSection(t, name, 0) == Some(p)
    ensures SectionBullets(t, name) == BulletRun(t, p + |Header(name)|).lines != []
    ensures SectionMatch(t, name) == Some(Terminated(SectionBullets(t, name)))
  {
    var i := p + |Header(name)|;
    assert SectionAt(t, name, p);
    assert BulletLineAt(t, i).Some?;
    var run := BulletRun(t, i);
    assert run.lines != [];
  }

  lemma RunIsMaximal(t: string, i: nat)
    requires i <= |t|
    ensures MaximalRunAt(t, i, BulletRun(t, i).lines)
  {
    var run := BulletRun(t, i);
    BulletRunText(t, i);
    BulletRunLines(t, i);
    assert |Terminated(run.lines)| == run.end - i;
  }

  lemma FindSectionFirst(t: string, name: string)
    ensures FindSection(t, name, 0).Some? ==> FirstSectionAt(t, name, FindSection(t, name, 0).value)
  {
  }

  /** The bullets taken for `name` are the maximal run of bullet lines after
      the first header of `name` that has at least one. */
  lemma SectionBulletsFirst(t: string, name: string)
    ensures SectionBullets(t, name) != [] ==>
              exists p: nat :: FirstSectionAt(t, name, p) && MaximalRunAt(t, p + |Header(name)|, SectionBullets(t, name))
  {
    match FindSection(t, name, 0)
    case None =>
    case Some(p) =>
      RunIsMaximal(t, p + |Header(name)|);
      FindSectionFirst(t, name);
  }

  // ---------------------------------------------------------------------
  // What `.strip().split('\n')` makes of the group text

  lemma {:induction false} TerminatedIsJoinLines(lines: seq<string>)
    requires lines != []
    ensures Terminated(lines) == JoinLines(lines) + "\n"
    decreases |lines|
  {
    if |lines| > 1 {
      TerminatedIsJoinLines(lines[1..]);
    }
  }

  /** The lines with the last one right-stripped. */
  function StripLast(lines: seq<string>): seq<string>
    requires lines != []
  {
    lines[..|lines| - 1] + [RStrip(lines[|lines| - 1])]
  }

  /** Right-stripping the joined lines only touches the last line when that
      line starts with a non-space character. */
  lemma RStripJoined(lines: seq<string>)
    requires lines != []
    requires lines[|lines| - 1] != [] && !IsSpace(lines[|lines| - 1][0])
    ensures RStrip(JoinLines(lines)) == JoinLines(StripLast(lines))
  {
    var n := |lines|;
    if n == 1 {
      SingleLine(lines);
      SingleLine(StripLast(lines));
    } else {
      var init, last := lines[..n - 1], lines[n - 1];
      LastSplit(lines);
      RStripSnoc(init, last);
    }
  }

  lemma SingleLine(lines: seq<string>)
    requires |lines| == 1
    ensures lines == [lines[0]]
  {
  }

  lemma LastSplit(lines: seq<string>)
    requires lines != []
    ensures lines == lines[..|lines| - 1] + [lines[|lines| - 1]]
  {
  }

  lemma RStripSnoc(init: seq<string>, last: string)
    requires init != [] && last != [] && !IsSpace(last[0])
    ensures RStrip(JoinLines(init + [last])) == JoinLines(init + [RStrip(last)])
  {
    JoinLinesSnoc(init, last);
    RStripAppend(JoinLines(init) + "\n", last);
    JoinLinesSnoc(init, RStrip(last));
  }

  /** The stripped group text is the run's lines joined, the last one
      right-stripped. */
  lemma StripOfRun(lines: seq<string>)
    requires lines != []
    requires forall k :: 0 <= k < |lines| ==> IsBulletLine(lines[k])
    ensures Strip(Terminated(lines)) == JoinLines(StripLast(lines))
  {
    var joined := JoinLines(lines);
    var text := Terminated(lines);
    TerminatedIsJoinLines(lines);
    assert text == joined + "\n";
    assert IsBulletLine(lines[0]);
    JoinLinesStartsWithFirst(lines);
    assert text[0] == '-';
    LStripNoop(text);
    RStripNewline(joined);
    RStripJoined(lines);
  }

  /** Run lines hold no newline, and neither does the right-stripped last one. */
  lemma StrippedRunLines(lines: seq<string>)
    requires lines != []
    requires forall k :: 0 <= k < |lines| ==> IsBulletLine(lines[k])
    ensures |StripLast(lines)| == |lines|
    ensures forall i :: 0 <= i < |lines| ==> '\n' !in StripLast(lines)[i]
  {
    var n := |lines|;
    var last := lines[n - 1];
    var r := RStrip(last);
    var stripped := lines[..n - 1] + [r];
    assert IsBulletLine(last);
    RStripSpec(last);
    NotInPrefix(last, '\n', |r|);
    forall i | 0 <= i < n ensures '\n' !in stripped[i] {
      if i < n - 1 {
        assert stripped[i] == lines[i];
        assert IsBulletLine(lines[i]);
      } else {
        assert stripped[i] == r;
      }
    }
  }

  /** What `group(1).strip().split('\n')` gives for a run of bullet lines:
      the lines themselves, the last one without its trailing whitespace. */
  lemma SplitOfStrippedRun(lines: seq<string>)
    requires lines != []
    requires forall k :: 0 <= k < |lines| ==> IsBulletLine(lines[k])
    ensures Split(Strip(Terminated(lines)), '\n') == StripLast(lines)
  {
    var stripped := StripLast(lines);
    StrippedRunLines(lines);
    StripOfRun(lines);
    SplitJoinLines(stripped);
  }

  // ---------------------------------------------------------------------
  // The link pattern: `(`, an http or https link without `)`, then `)`

  /** What the link pattern captures: an http or https link with at least one
      more character and no closing parenthesis. */
  predicate IsPermalink(u: string) {
    ((|u| > 7 && StartsWith(u, "http://")) || (|u| > 8 && StartsWith(u, "https://"))) && ')' !in u
  }

  /** The link pattern tried at position `q` of a bullet. */
  function ParenLinkAt(line: string, q: nat): Option<string> {
    if q < |line| && line[q] == '(' then
      var scheme := if OccursAt(line, "https://", q + 1) then 8
                    else if OccursAt(line, "http://", q + 1) then 7 else 0;
      if scheme == 0 then None
      else
        match IndexOf(line, ')', q + 1 + scheme)
        case None => None
        case Some(k) => if k > q + 1 + scheme then Some(line[q + 1..k]) else None
    else None
  }

  /** A match at `q` is a permalink standing in parentheses at `q`. */
  lemma LinkAtSpec(line: string, q: nat)
    ensures ParenLinkAt(line, q).Some? ==>
              IsPermalink(ParenLinkAt(line, q).value) && OccursAt(line, "(" + ParenLinkAt(line, q).value + ")", q)
  {
    match ParenLinkAt(line, q)
    case None =>
    case Some(u) =>
      var scheme := if OccursAt(line, "https://", q + 1) then 8 else 7;
      var prefix := if scheme == 8 then "https://" else "http://";
      var k := IndexOf(line, ')', q + 1 + scheme).value;
      assert u == line[q + 1..k];
      LinkSlice(line, q, prefix, k);
  }

  /** The scheme words hold no closing parenthesis. */
  lemma SchemeHasNoClose(prefix: string)
    requires prefix == "https://" || prefix == "http://"
    ensures ')' !in prefix
  {
  }

  /** The text between an opening parenthesis followed by a scheme and the
      first closing parenthesis after it is a permalink. */
  lemma LinkSlice(line: string, q: nat, prefix: string, k: nat)
    requires prefix == "https://" || prefix == "http://"
    requires q < |line| && line[q] == '(' && OccursAt(line, prefix, q + 1)
    requires q + 1 + |prefix| < k < |line| && line[k] == ')'
    requires forall j :: q + 1 + |prefix| <= j < k ==> line[j] != ')'
    ensures IsPermalink(line[q + 1..k]) && OccursAt(line, "(" + line[q + 1..k] + ")", q)
  {
    var u := line[q + 1..k];
    var n := |prefix|;
    SchemeHasNoClose(prefix);
    assert u[..n] == line[q + 1..q + 1 + n] == prefix;
    forall j | 0 <= j < |u| ensures u[j] != ')' {
      if j < n {
        assert u[j] == u[..n][j];
      } else {
        assert u[j] == line[q + 1 + j];
      }
    }
    assert line[q..k + 1] == "(" + u + ")";
  }

  /** A permalink stands in parentheses at `q`. */
  predicate LinkStandsAt(line: string, q: nat, u: string) {
    IsPermalink(u) && OccursAt(line, "(" + u + ")", q)
  }

  /** No text starts with both scheme words. */
  lemma SchemesExclusive(u: string)
    ensures StartsWith(u, "https://") ==> !StartsWith(u, "http://")
  {
    if StartsWith(u, "https://") {
      assert u[..7][4] == u[..8][4] == 's';
    }
  }

  /** The pieces of a parenthesised text standing at `q`. */
  lemma ParenPieces(line: string, q: nat, u: string)
    requires OccursAt(line, "(" + u + ")", q)
    ensures q + 1 + |u| < |line| && line[q] == '(' && line[q + 1 + |u|] == ')'
    ensures line[q + 1..q + 1 + |u|] == u
  {
    var w := "(" + u + ")";
    var k := q + 1 + |u|;
    assert line[q..k + 1] == w;
    assert line[q] == w[0];
    assert line[k] == w[|u| + 1];
    forall j | 0 <= j < |u| ensures line[q + 1 + j] == u[j] {
      assert line[q + 1 + j] == line[q..k + 1][j + 1] == w[j + 1];
    }
    assert line[q + 1..k] == u;
  }

  /** The scheme word of a permalink standing at `q`, and the text after it
      up to the closing parenthesis. */
  lemma SchemeAt(line: string, q: nat, u: string, prefix: string)
    requires LinkStandsAt(line, q, u)
    requires prefix == if StartsWith(u, "https://") then "https://" else "http://"
    ensures |prefix| < |u| && OccursAt(line, prefix, q + 1)
    ensures prefix == "http://" ==> !OccursAt(line, "https://", q + 1)
  {
    ParenPieces(line, q, u);
    SchemesExclusive(u);
    var n := |prefix|;
    var v := line[q + 1..q + 1 + |u|];
    assert n < |u| && u[..n] == prefix;
    assert line[q + 1..q + 1 + n] == v[..n];
    if prefix == "http://" && q + 9 <= |line| {
      assert line[q + 1..q + 9][4] == line[q + 5] == u[4] == u[..7][4] == ':';
    }
  }

  /** The converse of LinkAtSpec: a permalink standing in parentheses at `q`
      is what the link pattern matches there. */
  lemma LinkAtComplete(line: string, q: nat, u: string)
    requires LinkStandsAt(line, q, u)
    ensures ParenLinkAt(line, q) == Some(u)
  {
    var k := q + 1 + |u|;
    ParenPieces(line, q, u);
    var prefix := if StartsWith(u, "https://") then "https://" else "http://";
    SchemeAt(line, q, u, prefix);
    var n := |prefix|;
    forall j | q + 1 + n <= j < k ensures line[j] != ')' {
      assert line[j] == line[q + 1..k][j - q - 1];
    }
    IndexOfAt(line, ')', q + 1 + n, k);
  }

  /** Whether the link pattern matches at `q` is decided by whether a
      permalink stands in parentheses there. */
  lemma LinkAtIff(line: string, q: nat, u: string)
    ensures ParenLinkAt(line, q) == Some(u) <==> LinkStandsAt(line, q, u)
  {
    LinkAtSpec(line, q);
    if LinkStandsAt(line, q, u) {
      LinkAtComplete(line, q, u);
    }
  }

  /** re.search of the link pattern from `q`: the leftmost match. */
  function FirstLinkFrom(line: string, q: nat): Option<string>
    decreases |line| - q
  {
    if q >= |line| then None
    else if ParenLinkAt(line, q).Some? then ParenLinkAt(line, q)
    else FirstLinkFrom(line, q + 1)
  }

  function FirstLink(line: string): Option<string> {
    FirstLinkFrom(line, 0)
  }

  /** The search finds nothing exactly when the link pattern matches at no
      position from `q` on. */
  lemma {:induction false} FirstLinkFromNone(line: string, q: nat)
    ensures FirstLinkFrom(line, q).None? <==> forall p: nat :: q <= p ==> ParenLinkAt(line, p).None?
    decreases |line| - q
  {
    if q >= |line| {
      forall p: nat | q <= p ensures ParenLinkAt(line, p).None? {}
    } else if ParenLinkAt(line, q).None? {
      FirstLinkFromNone(line, q + 1);
      forall p: nat | q <= p && FirstLinkFrom(line, q + 1).None? ensures ParenLinkAt(line, p).None? {
        if p > q {
          assert q + 1 <= p;
        }
      }
    }
  }

  /** What the search finds is the match at the leftmost position where
      the link pattern matches. */
  lemma {:induction false} FirstLinkFromLeftmost(line: string, q: nat)
    ensures FirstLinkFrom(line, q).Some? ==>
              exists p: nat :: q <= p && ParenLinkAt(line, p) == FirstLinkFrom(line, q)
                               && forall p' :: q <= p' < p ==> ParenLinkAt(line, p').None?
    decreases |line| - q
  {
    if q < |line| && ParenLinkAt(line, q).None? {
      FirstLinkFromLeftmost(line, q + 1);
      if FirstLinkFrom(line, q + 1).Some? {
        var p: nat :| q + 1 <= p && ParenLinkAt(line, p) == FirstLinkFrom(line, q + 1)
                      && forall p' :: q + 1 <= p' < p ==> ParenLinkAt(line, p').None?;
        assert forall p' :: q <= p' < p ==> ParenLinkAt(line, p').None?;
      }
    }
  }

  /** What the search finds is a permalink. */
  lemma {:induction false} FirstLinkIsPermalink(line: string, q: nat)
    ensures FirstLinkFrom(line, q).Some? ==> IsPermalink(FirstLinkFrom(line, q).value)
    decreases |line| - q
  {
    if q < |line| {
      LinkAtSpec(line, q);
      FirstLinkIsPermalink(line, q + 1);
    }
  }

  /** The search finds the leftmost parenthesised permalink. */
  lemma {:induction false} FirstLinkFromFinds(line: string, q: nat, p: nat, u: string)
    requires q <= p && LinkStandsAt(line, p, u)
    requires forall p': nat, u' :: q <= p' < p ==> !LinkStandsAt(line, p', u')
    ensures FirstLinkFrom(line, q) == Some(u)
    decreases p - q
  {
    ParenPieces(line, p, u);
    if q == p {
      LinkAtComplete(line, p, u);
    } else {
      forall v ensures ParenLinkAt(line, q) != Some(v) {
        LinkAtIff(line, q, v);
      }
      assert ParenLinkAt(line, q).None?;
      FirstLinkFromFinds(line, q + 1, p, u);
    }
  }

  /** A bullet yields no link exactly when no permalink stands in
      parentheses anywhere in it. */
  lemma FirstLinkNoneIff(line: string)
    ensures FirstLink(line).None? <==> forall p: nat, u :: !LinkStandsAt(line, p, u)
  {
    FirstLinkFromNone(line, 0);
    if FirstLink(line).None? {
      forall p: nat, u ensures !LinkStandsAt(line, p, u) {
        LinkAtIff(line, p, u);
      }
    } else {
      FirstLinkFromLeftmost(line, 0);
      var p: nat :| ParenLinkAt(line, p) == FirstLink(line);
      LinkAtSpec(line, p);
      assert LinkStandsAt(line, p, FirstLink(line).value);
    }
  }

  /** The permalinks of a run of bullets, at most one per bullet, in bullet order. */
  function Links(bullets: seq<string>): seq<string> {
    if bullets == [] then []
    else
      var init := Links(bullets[..|bullets| - 1]);
      match FirstLink(bullets[|bullets| - 1])
      case Some(u) => init + [u]
      case None => init
  }

  /** Each bullet contributes at most one link, and every link is a permalink. */
  lemma {:induction false} LinksSpec(bullets: seq<string>)
    ensures |Links(bullets)| <= |bullets|
    ensures forall k :: 0 <= k < |Links(bullets)| ==> IsPermalink(Links(bullets)[k])
    decreases |bullets|
  {
    if bullets != [] {
      LinksSpec(bullets[..|bullets| - 1]);
      FirstLinkIsPermalink(bullets[|bullets| - 1], 0);
    }
  }

  lemma PrefixSlice(s: string, m: nat, a: nat, k: nat)
    requires a <= k <= m <= |s|
    ensures s[..m][a..k] == s[a..k]
  {
  }

  /** A link match lies before any trailing whitespace: it ends with `)`,
      which is not whitespace, so cutting the whitespace off changes no match. */
  lemma LinkAtOnPrefix(line: string, m: nat, q: nat)
    requires m <= |line|
    requires forall j :: m <= j < |line| ==> IsSpace(line[j])
    ensures ParenLinkAt(line[..m], q) == ParenLinkAt(line, q)
  {
    var r := line[..m];
    OccursAtPrefix(line, m, "https://", q + 1);
    OccursAtPrefix(line, m, "http://", q + 1);
    if q < |line| && line[q] == '(' {
      assert !IsSpace('(');
      assert q < m && r[q] == '(';
      var scheme := if OccursAt(line, "https://", q + 1) then 8
                    else if OccursAt(line, "http://", q + 1) then 7 else 0;
      var start := q + 1 + scheme;
      if scheme != 0 {
        assert start <= m;
        assert !IsSpace(')');
        forall j | m <= j < |line| ensures line[j] != ')' {
          assert IsSpace(line[j]);
        }
        IndexOfPrefix(line, m, ')', start);
        match IndexOf(line, ')', start)
        case None =>
        case Some(k) =>
          assert IndexOf(r, ')', start) == Some(k);
          if k > start {
            PrefixSlice(line, m, q + 1, k);
          }
      }
    } else if q < m {
      assert r[q] == line[q];
    }
  }

  /** Trailing whitespace never takes part in a link match at any position. */
  lemma LinkAtIgnoresTrailingSpace(line: string, q: nat)
    ensures ParenLinkAt(RStrip(line), q) == ParenLinkAt(line, q)
  {
    RStripSpec(line);
    LinkAtOnPrefix(line, |RStrip(line)|, q);
  }

  lemma {:induction false} FirstLinkFromIgnoresTrailingSpace(line: string, q: nat)
    ensures FirstLinkFrom(RStrip(line), q) == FirstLinkFrom(line, q)
    decreases |line| - q
  {
    RStripSpec(line);
    LinkAtIgnoresTrailingSpace(line, q);
    if q < |line| {
      FirstLinkFromIgnoresTrailingSpace(line, q + 1);
    }
  }

  /** Links grows by the first link of each further bullet, if it has one. */
  lemma LinksSnoc(bullets: seq<string>, j: nat)
    requires j < |bullets|
    ensures FirstLink(bullets[j]).Some? ==> Links(bullets[..j + 1]) == Links(bullets[..j]) + [FirstLink(bullets[j]).value]
    ensures FirstLink(bullets[j]).None? ==> Links(bullets[..j + 1]) == Links(bullets[..j])
  {
    assert bullets[..j + 1][..j] == bullets[..j];
  }

  lemma LinksLastAgree(a: seq<string>, b: seq<string>)
    requires |a| == |b| > 0
    requires a[..|a| - 1] == b[..|b| - 1]
    requires FirstLink(a[|a| - 1]) == FirstLink(b[|b| - 1])
    ensures Links(a) == Links(b)
  {
  }

  /** The links of the bullets as the source splits them equal the links of
      the run's lines: stripping the group's trailing whitespace loses none. */
  lemma LinksOfSourceBullets(lines: seq<string>)
    requires lines != []
    requires forall k :: 0 <= k < |lines| ==> IsBulletLine(lines[k])
    ensures Links(Split(Strip(Terminated(lines)), '\n')) == Links(lines)
  {
    var n := |lines|;
    var bs := StripLast(lines);
    SplitOfStrippedRun(lines);
    assert bs[..n - 1] == lines[..n - 1];
    FirstLinkFromIgnoresTrailingSpace(lines[n - 1], 0);
    LinksLastAgree(bs, lines);
  }

  /** No links are collected exactly when no bullet yields one. */
  lemma {:induction false} LinksEmptyIff(bullets: seq<string>)
    ensures Links(bullets) == [] <==> forall i :: 0 <= i < |bullets| ==> FirstLink(bullets[i]).None?
    decreases |bullets|
  {
    if bullets != [] {
      var n := |bullets|;
      var init := bullets[..n - 1];
      LinksEmptyIff(init);
      assert forall i :: 0 <= i < n - 1 ==> bullets[i] == init[i];
    }
  }

  /** When exactly one bullet yields a link, that link is all that is collected. */
  lemma {:induction false} LinksSingle(bullets: seq<string>, j: nat, u: string)
    requires j < |bullets| && FirstLink(bullets[j]) == Some(u)
    requires forall i :: 0 <= i < |bullets| && i != j ==> FirstLink(bullets[i]).None?
    ensures Links(bullets) == [u]
    decreases |bullets|
  {
    var n := |bullets|;
    var init := bullets[..n - 1];
    assert forall i :: 0 <= i < n - 1 ==> bullets[i] == init[i];
    if j == n - 1 {
      LinksEmptyIff(init);
    } else {
      LinksSingle(init, j, u);
    }
  }

  /** When every bullet yields a link, one link is collected per bullet,
      and the i-th link is the one of the i-th bullet. */
  lemma {:induction false} LinksAll(bullets: seq<string>)
    requires forall i :: 0 <= i < |bullets| ==> FirstLink(bullets[i]).Some?
    ensures |Links(bullets)| == |bullets|
    ensures forall i :: 0 <= i < |bullets| ==> Links(bullets)[i] == FirstLink(bullets[i]).value
    decreases |bullets|
  {
    if bullets != [] {
      var n := |bullets|;
      var init := bullets[..n - 1];
      assert forall i :: 0 <= i < n - 1 ==> bullets[i] == init[i];
      LinksAll(init);
      assert Links(bullets) == Links(init) + [FirstLink(bullets[n - 1]).value];
    }
  }

  // ---------------------------------------------------------------------
  // The values and the dictionary

  /** The permalinks a citation value stands for, in order. */
  function Cited(c: Citation): seq<string> {
    match c
    case NoEvidence => []
    case Single(u) => [u]
    case Multiple(us) => us
  }

  /** The value stored for a section's permalinks: the list when there are
      several, the bare link when there is one, the sentinel otherwise. */
  function Classify(links: seq<string>): Citation {
    if |links| == 0 then NoEvidence
    else if |links| == 1 then Single(links[0])
    else Multiple(links)
  }

  /** No links gives the sentinel, one gives the bare link, and a list is
      used only for two or more; no link is lost or reordered. */
  lemma ClassifySpec(links: seq<string>)
    ensures Classify(links) == NoEvidence <==> links == []
    ensures Classify(links).Single? <==> |links| == 1
    ensures Classify(links).Multiple? ==> |Classify(links).urls| >= 2
    ensures Cited(Classify(links)) == links
  {
  }

  function CitationOf(t: string, name: string): Citation {
    Classify(Links(SectionBullets(t, name)))
  }

  /** What a section's value is made of: at most one permalink per bullet of
      its run, each an http(s) link without a closing parenthesis, and the
      sentinel whenever the section pattern does not match. */
  lemma CitationsArePermalinks(t: string, name: string)
    ensures |Cited(CitationOf(t, name))| <= |SectionBullets(t, name)|
    ensures forall k :: 0 <= k < |Cited(CitationOf(t, name))| ==> IsPermalink(Cited(CitationOf(t, name))[k])
    ensures CitationOf(t, name) != NoEvidence ==> exists p: nat :: SectionAt(t, name, p)
  {
    var bullets := SectionBullets(t, name);
    ClassifySpec(Links(bullets));
    LinksSpec(bullets);
    SectionBulletsSpec(t, name);
  }

  /** A section's value is the sentinel exactly when none of its bullets
      holds a parenthesised permalink. */
  lemma NoEvidenceIff(t: string, name: string)
    ensures CitationOf(t, name) == NoEvidence <==>
              forall i, p: nat, u :: 0 <= i < |SectionBullets(t, name)| ==>
                !LinkStandsAt(SectionBullets(t, name)[i], p, u)
  {
    var bs := SectionBullets(t, name);
    ClassifySpec(Links(bs));
    LinksEmptyIff(bs);
    forall i | 0 <= i < |bs|
      ensures FirstLink(bs[i]).None? <==> forall p: nat, u :: !LinkStandsAt(bs[i], p, u)
    {
      FirstLinkNoneIff(bs[i]);
    }
  }

  /** A section whose parenthesised permalinks all stand in one bullet cites
      the leftmost of them as a bare link. */
  lemma SingleLinkCited(t: string, name: string, j: nat, p: nat, u: string)
    requires j < |SectionBullets(t, name)| && LinkStandsAt(SectionBullets(t, name)[j], p, u)
    requires forall p': nat, u' :: p' < p ==> !LinkStandsAt(SectionBullets(t, name)[j], p', u')
    requires forall i, p': nat, u' :: 0 <= i < |SectionBullets(t, name)| && i != j ==>
               !LinkStandsAt(SectionBullets(t, name)[i], p', u')
    ensures CitationOf(t, name) == Single(u)
  {
    var bs := SectionBullets(t, name);
    FirstLinkFromFinds(bs[j], 0, p, u);
    forall i | 0 <= i < |bs| && i != j ensures FirstLink(bs[i]).None? {
      FirstLinkNoneIff(bs[i]);
    }
    LinksSingle(bs, j, u);
  }

  /** A section with two or more bullets, each holding a parenthesised
      permalink, cites a list with one link per bullet. */
  lemma EveryBulletCited(t: string, name: string)
    requires |SectionBullets(t, name)| >= 2
    requires forall i :: 0 <= i < |SectionBullets(t, name)| ==>
               exists p: nat, u :: LinkStandsAt(SectionBullets(t, name)[i], p, u)
    ensures CitationOf(t, name).Multiple?
    ensures |Cited(CitationOf(t, name))| == |SectionBullets(t, name)|
    ensures forall i :: 0 <= i < |SectionBullets(t, name)| ==>
              FirstLink(SectionBullets(t, name)[i]) == Some(Cited(CitationOf(t, name))[i])
  {
    var bs := SectionBullets(t, name);
    forall i | 0 <= i < |bs| ensures FirstLink(bs[i]).Some? {
      FirstLinkNoneIff(bs[i]);
    }
    ClassifyAll(bs);
  }

  /** The value for bullets that each hold a link cites those links, one per
      bullet and in bullet order. */
  lemma ClassifyAll(bs: seq<string>)
    requires forall i :: 0 <= i < |bs| ==> FirstLink(bs[i]).Some?
    ensures |Cited(Classify(Links(bs)))| == |bs|
    ensures forall i :: 0 <= i < |bs| ==> FirstLink(bs[i]) == Some(Cited(Classify(Links(bs)))[i])
  {
    LinksAll(bs);
    ClassifySpec(Links(bs));
  }

  /** The links the source collects from the split group text are those of
      the section's bullets; without a match there are no bullets. */
  lemma SourceBulletLinks(t: string, name: string)
    ensures SectionMatch(t, name).Some? ==>
              Links(Split(Strip(SectionMatch(t, name).value), '\n')) == Links(SectionBullets(t, name))
    ensures SectionMatch(t, name).None? ==> SectionBullets(t, name) == []
  {
    SectionBulletsSpec(t, name);
    if SectionMatch(t, name).Some? {
      LinksOfSourceBullets(SectionBullets(t, name));
    }
  }

  /** The items the extraction loop produces for `names`, in order. */
  function CitationsFor(t: string, names: seq<string>): seq<Entry> {
    if names == [] then []
    else
      var last := names[|names| - 1];
      CitationsFor(t, names[..|names| - 1]) + [Entry(last, CitationOf(t, last))]
  }

  /** The dictionary the extractor returns, as its ordered items. */
  function CitationMap(t: string): seq<Entry> {
    CitationsFor(t, Catalogue)
  }

  lemma CitationsForSnoc(t: string, names: seq<string>, i: nat)
    requires i < |names|
    ensures CitationsFor(t, names[..i + 1]) == CitationsFor(t, names[..i]) + [Entry(names[i], CitationOf(t, names[i]))]
  {
    assert names[..i + 1][..i] == names[..i];
  }

  /** The extractor: for each catalogue name in turn, search the section,
      split its stripped group text into bullets, collect the first link of
      each bullet, and store the classified value. */
  method ExtractCitations(t: string) returns (citations: seq<Entry>)
    ensures citations == CitationMap(t)
  {
    citations := [];
    for i := 0 to |Catalogue|
      invariant citations == CitationsFor(t, Catalogue[..i])
    {
      var name := Catalogue[i];
      var sectionMatch := SectionMatch(t, name);
      var permalinks: seq<string> := [];
      if sectionMatch.Some? {
        var bullets := Split(Strip(sectionMatch.value), '\n');
        for j := 0 to |bullets|
          invariant permalinks == Links(bullets[..j])
        {
          LinksSnoc(bullets, j);
          var linkMatch := FirstLink(bullets[j]);
          if linkMatch.Some? {
            permalinks := permalinks + [linkMatch.value];
          }
        }
        assert bullets[..|bullets|] == bullets;
      }
      SourceBulletLinks(t, name);
      assert permalinks == Links(SectionBullets(t, name));
      var value := if |permalinks| > 0 then (if |permalinks| > 1 then Multiple(permalinks) else Single(permalinks[0]))
                   else NoEvidence;
      assert value == CitationOf(t, name);
      CitationsForSnoc(t, Catalogue, i);
      citations := citations + [Entry(name, value)];
    }
    assert Catalogue[..|Catalogue|] == Catalogue;
  }

  /** The dictionary view of ordered items (a later key overrides an earlier one). */
  function ToMap(entries: seq<Entry>): map<string, Citation> {
    if entries == [] then map[]
    else
      var last := entries[|entries| - 1];
      ToMap(entries[..|entries| - 1])[last.section := last.citation]
  }

  predicate DistinctSections(entries: seq<Entry>) {
    forall i, j :: 0 <= i < j < |entries| ==> entries[i].section != entries[j].section
  }

  /** The dictionary has exactly the sections as keys, each mapped to its
      own value when no section repeats. */
  lemma {:induction false} ToMapSpec(entries: seq<Entry>)
    ensures ToMap(entries).Keys == set k | 0 <= k < |entries| :: entries[k].section
    ensures DistinctSections(entries) ==>
              forall k :: 0 <= k < |entries| ==> ToMap(entries)[entries[k].section] == entries[k].citation
    decreases |entries|
  {
    if entries != [] {
      var init := entries[..|entries| - 1];
      ToMapSpec(init);
      assert forall k :: 0 <= k < |init| ==> init[k] == entries[k];
      assert (set k | 0 <= k < |entries| :: entries[k].section)
          == (set k | 0 <= k < |init| :: init[k].section) + {entries[|entries| - 1].section};
    }
  }

  /** The extraction loop yields one entry per name, in the order given. */
  lemma {:induction false} CitationsForShape(t: string, names: seq<string>)
    ensures |CitationsFor(t, names)| == |names|
    ensures forall k :: 0 <= k < |names| ==>
              CitationsFor(t, names)[k] == Entry(names[k], CitationOf(t, names[k]))
  {
    if names != [] {
      var init := names[..|names| - 1];
      var last := names[|names| - 1];
      CitationsForShape(t, init);
      var rest := CitationsFor(t, init);
      var e := Entry(last, CitationOf(t, last));
      assert CitationsFor(t, names) == rest + [e];
      forall k | 0 <= k < |names|
        ensures CitationsFor(t, names)[k] == Entry(names[k], CitationOf(t, names[k]))
      {
        if k < |init| {
          assert names[k] == init[k];
          assert (rest + [e])[k] == rest[k];
        } else {
          assert (rest + [e])[k] == e;
        }
      }
    }
  }

  /** No section name occurs twice in the catalogue. */
  lemma CatalogueDistinct()
    ensures forall i, j :: 0 <= i < j < |Catalogue| ==> Catalogue[i] != Catalogue[j]
  {
    forall i, j | 0 <= i < j < |Catalogue| ensures Catalogue[i] != Catalogue[j] {
      assert Catalogue[i][0] != Catalogue[j][0] || Catalogue[i][1] != Catalogue[j][1];
    }
  }

  /** For every text, the items are the catalogue names in catalogue order,
      each holding that section's citation. */
  lemma CitationMapItems(t: string)
    ensures |CitationMap(t)| == |Catalogue| == 13
    ensures forall k :: 0 <= k < 13 ==> CitationMap(t)[k] == Entry(Catalogue[k], CitationOf(t, Catalogue[k]))
  {
    CitationsForShape(t, Catalogue);
  }

  /** For every text, the dictionary's keys are exactly the catalogue names,
      each mapped to that section's citation. */
  lemma CitationMapKeys(t: string)
    ensures ToMap(CitationMap(t)).Keys == set k | 0 <= k < 13 :: Catalogue[k]
    ensures forall k :: 0 <= k < 13 ==> ToMap(CitationMap(t))[Catalogue[k]] == CitationOf(t, Catalogue[k])
  {
    CitationMapItems(t);
    CatalogueDistinct();
    var m := CitationMap(t);
    assert forall k :: 0 <= k < 13 ==> m[k].section == Catalogue[k];
    assert DistinctSections(m);
    ToMapSpec(m);
    assert (set k | 0 <= k < |m| :: m[k].section) == set k | 0 <= k < 13 :: Catalogue[k];
  }
}
