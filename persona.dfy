/** The text side of saving a persona: the body is cut out of the model's
    answer, cleared of links, normalised, and followed by the citation list. */
module PersonaWriter {
  import opened Strings
  import Citations
  import PersonaFormat
  import LinkCleanup

  const NameLabel: string := "Name:"
  const TitleLine: string := "# Reddit User Persona"
  const BehaviorLabel: string := "Online Behavior:"
  const BehaviorName: string := "Online Behavior"
  const CitationsHeader: string := "\n## Citations"

  // ---------------------------------------------------------------------
  // Where the body starts

  /** A line the body may start at: once trimmed, it opens with the name
      label or with the document title. */
  predicate IsStartLine(line: string) {
    StartsWith(Strip(line), NameLabel) || StartsWith(Strip(line), TitleLine)
  }

  /** The first start line at or after i. */
  function FirstStartFrom(lines: seq<string>, i: nat): (r: Option<nat>)
    ensures r.Some? ==> i <= r.value < |lines|
    decreases |lines| - i
  {
    if i >= |lines| then None
    else if IsStartLine(lines[i]) then Some(i)
    else FirstStartFrom(lines, i + 1)
  }

  /** The index of the line the body starts at. */
  function StartOf(lines: seq<string>): (start: nat)
    ensures start <= |lines|
  {
    match FirstStartFrom(lines, 0)
    case Some(i) => i
    case None => 0
  }

  lemma {:induction false} FirstStartFromSpec(lines: seq<string>, i: nat)
    ensures FirstStartFrom(lines, i).Some? ==>
              IsStartLine(lines[FirstStartFrom(lines, i).value])
              && forall j :: i <= j < FirstStartFrom(lines, i).value ==> !IsStartLine(lines[j])
    ensures FirstStartFrom(lines, i).None? ==> forall j :: i <= j < |lines| ==> !IsStartLine(lines[j])
    decreases |lines| - i
  {
    if i < |lines| && !IsStartLine(lines[i]) {
      FirstStartFromSpec(lines, i + 1);
    }
  }

  /** The body starts at the first start line, or at the first line when
      there is none. */
  lemma StartOfSpec(lines: seq<string>)
    ensures (exists i :: 0 <= i < |lines| && IsStartLine(lines[i])) ==>
              StartOf(lines) < |lines| && IsStartLine(lines[StartOf(lines)])
              && forall j :: 0 <= j < StartOf(lines) ==> !IsStartLine(lines[j])
    ensures (forall i :: 0 <= i < |lines| ==> !IsStartLine(lines[i])) ==> StartOf(lines) == 0
  {
    FirstStartFromSpec(lines, 0);
  }

  /** The loop that looks for the start line and stops at the first. */
  method FindStartLine(lines: seq<string>) returns (start: nat)
    ensures start == StartOf(lines)
  {
    start := 0;
    for i := 0 to |lines|
      invariant start == 0
      invariant FirstStartFrom(lines, i) == FirstStartFrom(lines, 0)
    {
      if IsStartLine(lines[i]) {
        start := i;
        break;
      }
    }
  }

  /** The lines from the start line on, joined again. */
  function MainText(persona: string): string {
    var lines := SplitLines(persona);
    JoinLines(lines[StartOf(lines)..])
  }

  lemma {:induction false} JoinLinesHead(lines: seq<string>)
    requires lines != []
    ensures StartsWith(JoinLines(lines), lines[0])
  {
    if |lines| > 1 {
      var r := JoinLines(lines);
      assert r == lines[0] + ("\n" + JoinLines(lines[1..]));
      assert r[..|lines[0]|] == lines[0];
    }
  }

  /** The main text opens with the start line when there is one and is the
      whole text, rejoined, when there is none. */
  lemma MainTextSpec(persona: string)
    ensures var lines := SplitLines(persona);
            (exists i :: 0 <= i < |lines| && IsStartLine(lines[i])) ==>
              StartsWith(MainText(persona), lines[StartOf(lines)])
    ensures var lines := SplitLines(persona);
            (forall i :: 0 <= i < |lines| ==> !IsStartLine(lines[i])) ==>
              MainText(persona) == JoinLines(lines)
  {
    var lines := SplitLines(persona);
    StartOfSpec(lines);
    if exists i :: 0 <= i < |lines| && IsStartLine(lines[i]) {
      JoinLinesHead(lines[StartOf(lines)..]);
    } else {
      assert lines[0..] == lines;
    }
  }

  // ---------------------------------------------------------------------
  // Where the body ends

  /** The index of the line break that ends the line holding position i,
      or the length of the text. */
  function LineEndFrom(main: string, i: nat): (e: nat)
    ensures e <= |main|
  {
    match IndexOf(main, '\n', i)
    case Some(e) => e
    case None => |main|
  }

  /** The end of the body: the end of the line holding the last behaviour
      label, failing that of the last behaviour name, failing that the end
      of the text. */
  function BodyEnd(main: string): (e: nat)
    ensures e <= |main|
  {
    match RFind(main, BehaviorLabel)
    case Some(i) => LineEndFrom(main, i)
    case None =>
      match RFind(main, BehaviorName)
      case Some(i) => LineEndFrom(main, i)
      case None => |main|
  }

  /** The loop over the two markers that stops at the first one found. */
  method FindBodyEnd(main: string) returns (end: nat)
    ensures end == BodyEnd(main)
  {
    end := |main|;
    var markers := [BehaviorLabel, BehaviorName];
    for m := 0 to |markers|
      invariant end == |main|
      invariant forall j :: 0 <= j < m ==> RFind(main, markers[j]).None?
    {
      var last := RFind(main, markers[m]);
      if last.Some? {
        var eol := IndexOf(main, '\n', last.value);
        if eol.Some? {
          end := eol.value;
        } else {
          end := |main|;
        }
        assert end == LineEndFrom(main, last.value);
        assert markers[0] == BehaviorLabel && markers[1] == BehaviorName;
        break;
      }
    }
  }

  /** end closes the line that holds an occurrence of pat, and every
      occurrence of pat lies wholly before end. */
  ghost predicate EndsLineOf(main: string, pat: string, end: nat) {
    end <= |main| && (end == |main| || main[end] == '\n')
    && (forall j: nat :: OccursAt(main, pat, j) ==> j + |pat| <= end)
    && (exists j: nat :: OccursAt(main, pat, j) && forall k :: j <= k < end ==> main[k] != '\n')
  }

  lemma NoBreakInOccurrence(main: string, pat: string, i: nat, k: nat)
    requires OccursAt(main, pat, i) && '\n' !in pat && i <= k < i + |pat|
    ensures main[k] != '\n'
  {
    assert main[k] == main[i..i + |pat|][k - i];
  }

  lemma LineEndOfLast(main: string, pat: string, i: nat)
    requires OccursAt(main, pat, i) && '\n' !in pat
    requires forall j :: i < j ==> !OccursAt(main, pat, j)
    ensures EndsLineOf(main, pat, LineEndFrom(main, i))
  {
    var e := LineEndFrom(main, i);
    forall k | i <= k < i + |pat| ensures main[k] != '\n' {
      NoBreakInOccurrence(main, pat, i, k);
    }
    assert i + |pat| <= e;
    assert forall k :: i <= k < e ==> main[k] != '\n';
  }

  lemma LabelHoldsName(main: string, j: nat)
    requires OccursAt(main, BehaviorLabel, j)
    ensures OccursAt(main, BehaviorName, j)
  {
    assert main[j..j + |BehaviorName|] == main[j..j + |BehaviorLabel|][..|BehaviorName|];
  }

  /** The body ends with the line holding the last behaviour label; without
      a label, with the line holding the last behaviour name; without
      either, at the end of the text. */
  lemma BodyEndSpec(main: string)
    ensures (exists j :: OccursAt(main, BehaviorLabel, j)) ==> EndsLineOf(main, BehaviorLabel, BodyEnd(main))
    ensures (forall j :: !OccursAt(main, BehaviorLabel, j)) && (exists j :: OccursAt(main, BehaviorName, j)) ==>
              EndsLineOf(main, BehaviorName, BodyEnd(main))
    ensures (forall j :: !OccursAt(main, BehaviorName, j)) ==> BodyEnd(main) == |main|
  {
    match RFind(main, BehaviorLabel) {
      case Some(i) =>
        LineEndOfLast(main, BehaviorLabel, i);
        LabelHoldsName(main, i);
      case None =>
        match RFind(main, BehaviorName) {
          case Some(i) =>
            LineEndOfLast(main, BehaviorName, i);
          case None =>
        }
    }
  }

  /** The stripped body. */
  function Body(persona: string): string {
    var main := MainText(persona);
    Strip(main[..BodyEnd(main)])
  }

  /** The body is the text before the end cut with exactly its leading and
      trailing whitespace removed: what stands before and after it in the
      cut text is whitespace, and it neither starts nor ends with any. */
  lemma BodySpec(persona: string)
    ensures var main := MainText(persona);
            var cut := main[..BodyEnd(main)];
            exists k: nat :: OccursAt(cut, Body(persona), k)
                             && (forall i :: 0 <= i < k ==> IsSpace(cut[i]))
                             && (forall i :: k + |Body(persona)| <= i < |cut| ==> IsSpace(cut[i]))
    ensures Body(persona) == [] || (!IsSpace(Body(persona)[0]) && !IsSpace(Body(persona)[|Body(persona)| - 1]))
  {
    var main := MainText(persona);
    var cut := main[..BodyEnd(main)];
    StripSpec(cut);
    assert Strip(cut) == Body(persona);
  }

  // ---------------------------------------------------------------------
  // The citation list

  /** Python's rendering of a list of strings, without escaping. */
  function ListText(us: seq<string>): string {
    "[" + QuotedItems(us) + "]"
  }

  function QuotedItems(us: seq<string>): string {
    if us == [] then ""
    else if |us| == 1 then "'" + us[0] + "'"
    else "'" + us[0] + "', " + QuotedItems(us[1..])
  }

  /** How a value is written: itself, or the sentinel when it is empty. */
  function Render(c: Citations.Citation): string {
    match c
    case NoEvidence => Citations.Sentinel
    case Single(u) => if u == [] then Citations.Sentinel else u
    case Multiple(us) => if us == [] then Citations.Sentinel else ListText(us)
  }

  /** A value built from extracted links is written as the sentinel exactly
      when there are no links, as the link itself when there is one, and as
      the list otherwise. */
  lemma RenderSpec(links: seq<string>)
    requires forall k :: 0 <= k < |links| ==> Citations.IsPermalink(links[k])
    ensures Render(Citations.Classify(links)) == Citations.Sentinel <==> links == []
    ensures |links| == 1 ==> Render(Citations.Classify(links)) == links[0]
    ensures |links| >= 2 ==> Render(Citations.Classify(links)) == ListText(links)
    ensures Render(Citations.Classify(links)) != []
  {
    if |links| == 1 {
      var u := links[0];
      assert Citations.IsPermalink(u);
      assert u[0] == 'h' by { assert u[0] == u[..7][0]; }
      assert Citations.Sentinel[0] == 'N';
    } else if |links| >= 2 {
      assert ListText(links)[0] == '[';
      assert Citations.Sentinel[0] == 'N';
    }
  }

  function EntryLine(e: Citations.Entry): string {
    "- " + e.section + ": " + Render(e.citation)
  }

  function EntryLines(es: seq<Citations.Entry>): seq<string> {
    seq(|es|, i requires 0 <= i < |es| => EntryLine(es[i]))
  }

  lemma EntryLinesSnoc(es: seq<Citations.Entry>, i: nat)
    requires i < |es|
    ensures EntryLines(es[..i + 1]) == EntryLines(es[..i]) + [EntryLine(es[i])]
  {
    var a, b := EntryLines(es[..i + 1]), EntryLines(es[..i]) + [EntryLine(es[i])];
    assert |a| == |b|;
    forall k | 0 <= k < |a| ensures a[k] == b[k] {
      if k < i { assert a[k] == EntryLine(es[k]) == b[k]; }
    }
  }

  function CitationsBlock(es: seq<Citations.Entry>): string {
    JoinLines([CitationsHeader] + EntryLines(es))
  }

  /** The formatted body: the body cleared of links, then normalised. */
  function Pretty(persona: string): string {
    PersonaFormat.FormatPersona(LinkCleanup.CleanLinks(Body(persona)))
  }

  /** The text written to the persona file. */
  function Document(persona: string, citations: Option<seq<Citations.Entry>>): string {
    match citations
    case None => Pretty(persona)
    case Some(es) => Pretty(persona) + "\n" + CitationsBlock(es)
  }

  /** The loop that builds the citation lines: the header, then one line
      per entry in dictionary order. */
  method CitationLines(es: seq<Citations.Entry>) returns (section: seq<string>)
    ensures section == [CitationsHeader] + EntryLines(es)
  {
    section := [CitationsHeader];
    for i := 0 to |es|
      invariant section == [CitationsHeader] + EntryLines(es[..i])
    {
      EntryLinesSnoc(es, i);
      section := section + [EntryLine(es[i])];
    }
    assert es[..|es|] == es;
  }

  /** The text part of saving a persona: the start-line loop, the end-marker
      loop, the link chain, the normaliser, then the citation lines. */
  method SavePersonaText(persona: string, citations: Option<seq<Citations.Entry>>) returns (doc: string)
    ensures doc == Document(persona, citations)
  {
    var lines := SplitLines(persona);
    var start := FindStartLine(lines);
    var main := JoinLines(lines[start..]);
    assert main == MainText(persona);
    var end := FindBodyEnd(main);
    var body := Strip(main[..end]);
    assert body == Body(persona);
    var noLinks := LinkCleanup.CleanLinks(body);
    doc := PersonaFormat.FormatPersona(noLinks);
    assert doc == Pretty(persona);
    if citations.Some? {
      var section := CitationLines(citations.value);
      doc := doc + "\n" + JoinLines(section);
    }
  }

  // ---------------------------------------------------------------------
  // The layout of the document

  lemma JoinLinesOpeningBreak(h: string, ls: seq<string>)
    ensures JoinLines(["\n" + h] + ls) == "\n" + JoinLines([h] + ls)
  {
    if ls == [] {
      assert ["\n" + h] + ls == ["\n" + h];
      assert [h] + ls == [h];
    } else {
      assert (["\n" + h] + ls)[1..] == ls;
      assert ([h] + ls)[1..] == ls;
      assert JoinLines(["\n" + h] + ls) == ("\n" + h) + "\n" + JoinLines(ls);
      assert JoinLines([h] + ls) == h + "\n" + JoinLines(ls);
    }
  }

  lemma NoBreakInLines(h: string, ls: seq<string>)
    requires '\n' !in h && forall i :: 0 <= i < |ls| ==> '\n' !in ls[i]
    ensures forall i :: 0 <= i < |[h] + ls| ==> '\n' !in ([h] + ls)[i]
  {
    var all := [h] + ls;
    forall i | 0 <= i < |all| ensures '\n' !in all[i] {
      if i > 0 { assert all[i] == ls[i - 1]; }
    }
  }

  lemma SplitAfterBreak(j: string, parts: seq<string>)
    requires Split(j, '\n') == parts
    ensures Split("\n" + j, '\n') == [""] + parts
  {
    SplitLeadingSep(j, '\n');
  }

  lemma ConsShape(h: string, ls: seq<string>)
    ensures [""] + ([h] + ls) == ["", h] + ls
  {
  }

  /** A block that opens with a line break, split into lines, is an empty
      line followed by its lines. */
  lemma SplitOpeningBreak(h: string, ls: seq<string>)
    requires '\n' !in h && forall i :: 0 <= i < |ls| ==> '\n' !in ls[i]
    ensures Split("\n" + JoinLines([h] + ls), '\n') == ["", h] + ls
  {
    var all := [h] + ls;
    NoBreakInLines(h, ls);
    SplitJoinLines(all);
    SplitAfterBreak(JoinLines(all), all);
    ConsShape(h, ls);
  }

  lemma EntryLinesNoBreak(es: seq<Citations.Entry>)
    requires forall i :: 0 <= i < |es| ==> '\n' !in EntryLine(es[i])
    ensures forall i :: 0 <= i < |EntryLines(es)| ==> '\n' !in EntryLines(es)[i]
  {
  }

  /** The citation block, split into lines: an empty line, the header, and
      one line per entry in dictionary order. */
  lemma CitationsBlockLines(es: seq<Citations.Entry>)
    requires forall i :: 0 <= i < |es| ==> '\n' !in EntryLine(es[i])
    ensures Split(CitationsBlock(es), '\n') == ["", "## Citations"] + EntryLines(es)
  {
    var ls := EntryLines(es);
    EntryLinesNoBreak(es);
    assert CitationsHeader == "\n" + "## Citations";
    JoinLinesOpeningBreak("## Citations", ls);
    SplitOpeningBreak("## Citations", ls);
  }

  /** With citations, the document is the formatted body's lines, then an
      empty line, the header and one line per entry. */
  lemma DocumentLines(persona: string, es: seq<Citations.Entry>)
    requires forall i :: 0 <= i < |es| ==> '\n' !in EntryLine(es[i])
    ensures Split(Document(persona, Some(es)), '\n')
              == Split(Pretty(persona), '\n') + ["", "## Citations"] + EntryLines(es)
  {
    var block := CitationsBlock(es);
    CitationsBlockLines(es);
    SplitAppend(Pretty(persona), block, '\n');
  }
}
