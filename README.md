# Reddit user persona: text pipeline model

A Dafny model of the text-processing core of `reddit_persona.py`, the
script that turns a Reddit user's posts and comments into a written
"user persona". The model covers four parts of the script:

- **Citation extraction.** The persona text is searched for one section
  per characteristic in a fixed catalogue of 13 names ("Name", "Age", …,
  "Online Behavior"). A section is a `## <name>` header followed by a run
  of `- ` bullet lines. The first parenthesised `http(s)://` link on each
  bullet is collected, and each name maps to no evidence (a sentinel
  string), one link, or a list of links.
- **Saving the persona.** The body is cut to start at the first
  `Name:` / `# Reddit User Persona` line and to end with the line of the
  last "Online Behavior" marker, then trimmed. Bare web links are removed,
  followed by the empty brackets and dangling parentheses they leave
  behind. The layout is normalised and a `## Citations` block is
  appended.
- **Layout normalisation.** Five regular-expression rewrites, then a
  trim and one final line break.
- **User names.** A name is read from a profile address, the profile
  address is rebuilt from it, and the fetch reads the name back from
  that address.

Each regular-expression substitution is a left-to-right scanner with
the semantics of Python's `re.sub`:
- the leftmost match wins;
- repetition is greedy, backtracking where the pattern needs it;
- scanning resumes after each match.

Whitespace is the class of Python's `str.isspace()`, which `\s` and
`str.strip()` also use. Line splitting follows `str.splitlines()`. The
dictionary returned by the extractor is modelled as its ordered items
(`seq<Entry>`), with a map view for its key set.

Modules, one per file:

- `Strings` (`strings.dfy`): Python string primitives: strip, find and
  rfind, splitlines, split and join, each with its specification lemmas.
- `Citations` (`citations.dfy`): `extract_citations_from_persona`.
- `PersonaFormat` (`format.dfy`): `format_persona_text`.
- `LinkCleanup` (`cleanup.dfy`): the six link-stripping substitutions.
- `PersonaWriter` (`persona.dfy`): the text that `save_persona_to_file`
  writes.
- `Usernames` (`usernames.dfy`): `extract_reddit_username`, the address
  checks in `main`, and the name read back in `fetch_user_activity`.

The loops of the source are methods proved against specification
functions:
- `ExtractCitations`;
- `FindStartLine`, whose loop exits early;
- `FindBodyEnd`, whose loop over the two markers exits early;
- `CitationLines`.

`SavePersonaText` has no loop of its own. It composes `FindStartLine`,
`FindBodyEnd` and `CitationLines` with the cleanup and format functions,
and it is proved to produce `Document`.

## Definitions

The functions that compute the modelled behaviour, and the lines of
`reddit_persona.py` each one stands for. The lemmas and methods in the
table under "## Model" state their properties.

- `Citations`:
  - `Header`, `BulletLineAt`, `BulletRun`, `FindSection`,
    `SectionMatch` and `SectionBullets`: the section pattern and its
    search (lines 115-116);
  - `StripLast`: the bullet lines as `strip().split('\n')` gives them
    from the group, the last one right-stripped (line 119);
  - `ParenLinkAt`, `FirstLinkFrom` and `FirstLink`: the link search
    (line 121);
  - `Links`: the bullet loop (lines 120-123);
  - `Classify` and `CitationOf`: the stored value (lines 124-127);
  - `CitationsFor` and `CitationMap`: the loop over the catalogue
    (lines 107-128);
  - `ToMap`: the dictionary view of the items.
- `PersonaFormat`:
  - `DropStars`: line 131;
  - `BreakAfterLines` with `IsLabelLine`: line 132;
  - `SpaceLabels` and `SpaceLabelsFrom`: line 133;
  - `BreakAfterLines` with `IsStarLine`: line 134;
  - `CollapseBreaks`: line 135;
  - `Passes` and `FormatPersona`: lines 130-136.
- `LinkCleanup`:
  - `StripLinks`: line 157;
  - `MatchAt`, `Scan` and `Apply`: one `re.sub` with the patterns of
    lines 157-162;
  - `Tidy`: lines 158-162;
  - `CleanLinks`: lines 157-162.
- `PersonaWriter`:
  - `StartOf`: lines 140-144;
  - `MainText`: line 145;
  - `BodyEnd`: lines 146-155;
  - `Body`: line 156;
  - `Render`, `ListText` and `EntryLine`: the f-string of line 168;
  - `CitationsBlock`: lines 165-169;
  - `Pretty`: lines 157-163;
  - `Document`: lines 139-169, the text written at line 172.
- `Usernames`:
  - `NameEnd`, `FirstNameFrom` and `ExtractUsername`: lines 175-177;
  - `ProfileUrl`: line 193;
  - `LastPathSegment`: line 26;
  - `ResolveProfile`: the checks of lines 182-191.

## Model

| member | source | states |
|---|---|---|
| Citations.ExtractCitations | reddit_persona.py:106-128 | the extraction loop returns exactly the ordered items `CitationMap(t)`, one per catalogue name |
| Citations.CitationMapItems | reddit_persona.py:107-113 | there are 13 items; item k pairs the k-th catalogue name with the value computed for it |
| Citations.CitationMapKeys | reddit_persona.py:107-127 | the key set of the returned dictionary is exactly the 13 catalogue names, and each maps to its own section's value |
| Citations.CatalogueDistinct | reddit_persona.py:107-111 | the 13 catalogue names are pairwise distinct, so no assignment overwrites another key |
| Citations.ToMapSpec | reddit_persona.py:112-127 | the dictionary built from ordered items has the items' sections as keys, and with distinct sections each key holds its item's value |
| Citations.CitationsForShape | reddit_persona.py:113-127 | the loop yields one item per name, in the order of the names |
| Citations.BulletLineAtSpec | reddit_persona.py:115 | a `- .+\n` line ends at e exactly when the scanner finds that end: the line is a dash, a space, at least one more character and no newline before its terminating newline |
| Citations.BulletRunText | reddit_persona.py:115-116 | the captured group is the text from the group's start to the run's end: the run's lines, each followed by its newline |
| Citations.BulletRunLines | reddit_persona.py:115 | every line of the run is a bullet line, and no bullet line follows the run (the `+` is greedy) |
| Citations.RunIsMaximal | reddit_persona.py:115 | the run's lines stand at the start position and form a maximal run of bullet lines |
| Citations.FindSectionFirst | reddit_persona.py:116 | the section found is the leftmost header of the name that is followed by a bullet line |
| Citations.SectionBulletsSpec | reddit_persona.py:115-118 | the section matches iff some header of the name is followed by a bullet line; all its lines are bullet lines; the match group is those lines, newline-terminated |
| Citations.SectionBulletsFirst | reddit_persona.py:115-116 | non-empty bullets come from the first matching header and are the maximal run after it |
| Citations.SplitOfStrippedRun | reddit_persona.py:119 | stripping the group and splitting it at newlines gives the run's lines, with only the last one right-stripped |
| Citations.LinksOfSourceBullets | reddit_persona.py:119-123 | the links collected from the stripped, split group equal those collected from the run's lines |
| Citations.SourceBulletLinks | reddit_persona.py:116-123 | with a match, the links of the split group text are the section's links; without a match there are no bullets |
| Citations.LinkAtSpec | reddit_persona.py:121 | a link-pattern match at q is an http(s) permalink with no `)` that stands between `(` and `)` at q |
| Citations.LinkAtComplete | reddit_persona.py:121 | conversely, a permalink standing between `(` and `)` at q is exactly what the pattern matches at q |
| Citations.LinkAtIff | reddit_persona.py:121 | the pattern matches u at q if and only if the permalink u stands in parentheses at q |
| Citations.FirstLinkFromFinds | reddit_persona.py:121-122 | when the leftmost parenthesised permalink from q on is u, the search returns u |
| Citations.FirstLinkNoneIff | reddit_persona.py:121-122 | a bullet yields no link if and only if no permalink stands in parentheses anywhere in it |
| Citations.FirstLinkFromNone | reddit_persona.py:121-122 | the link search fails iff the pattern matches at no position |
| Citations.FirstLinkFromLeftmost | reddit_persona.py:121 | a found link is the match at the leftmost matching position |
| Citations.FirstLinkIsPermalink | reddit_persona.py:121-123 | every link the search returns is an http(s) permalink without `)` |
| Citations.FirstLinkFromIgnoresTrailingSpace | reddit_persona.py:119-121 | right-stripping a bullet does not change its first link |
| Citations.LinksSpec | reddit_persona.py:120-123 | at most one link is collected per bullet, and each is a permalink |
| Citations.LinksEmptyIff | reddit_persona.py:120-123 | no link is collected if and only if no bullet yields one |
| Citations.LinksSingle | reddit_persona.py:120-123 | when exactly one bullet yields a link, that link is the only one collected |
| Citations.LinksAll | reddit_persona.py:120-123 | when every bullet yields a link, one link is collected per bullet, and the i-th link is the first link of the i-th bullet |
| Citations.ClassifySpec | reddit_persona.py:124-127 | no links give the sentinel, exactly one gives the bare link, and two or more give the list; no link is lost or reordered |
| Citations.CitationsArePermalinks | reddit_persona.py:115-127 | a section cites at most as many links as it has bullets, all of them permalinks, and cites anything only if its section pattern matches |
| Citations.NoEvidenceIff | reddit_persona.py:115-127 | a name's value is the sentinel if and only if none of its section's bullets holds a parenthesised permalink |
| Citations.SingleLinkCited | reddit_persona.py:115-126 | when all parenthesised permalinks of a section stand in one bullet, the value is the leftmost of them as a bare string |
| Citations.EveryBulletCited | reddit_persona.py:115-126 | a section of two or more bullets that each hold a parenthesised permalink gives a list with one link per bullet, in bullet order: entry i is bullet i's first link |
| PersonaFormat.DropStarsSpec | reddit_persona.py:131 | only asterisks are removed, the first character stays, and afterwards an asterisk can stand only at index 0 |
| PersonaFormat.BreakAfterLinesSpec | reddit_persona.py:132-134 | the line-by-line passes for label lines (line 132) and bullet-star lines (line 134) only insert line breaks and keep the first character |
| PersonaFormat.BreakAfterLinesLines | reddit_persona.py:132-134 | the pass is the text's lines rejoined, with an empty line inserted after every marked line and nothing else changed: after each label line at line 132, after each `* ` line at line 134 |
| PersonaFormat.SpaceLabelsFromSpec | reddit_persona.py:133 | the pass that opens a blank line before a labelled line only inserts line breaks |
| PersonaFormat.SpaceLabelsAsLines | reddit_persona.py:133 | the pass is the text's lines rejoined, with an empty line inserted between a non-empty line and a following line that has a colon after its first character; a line the previous match consumed up to its final colon gets no empty line after it; nothing else changes |
| PersonaFormat.CollapseBreaksSpec | reddit_persona.py:135 | after collapsing, no three line breaks stand in a row; the result is empty iff the input is; a first character that is not a line break is kept |
| PersonaFormat.CollapseBreaksKeeps | reddit_persona.py:135 | collapsing changes nothing but line breaks |
| PersonaFormat.CollapseRun | reddit_persona.py:135 | a run of n line breaks between two other characters becomes two breaks when n is 3 or more and is kept when n is 1 or 2; the text on either side is collapsed on its own |
| PersonaFormat.CollapseAppend | reddit_persona.py:135 | text that does not end inside a run of line breaks collapses independently of what follows it |
| PersonaFormat.CollapseNoTriple | reddit_persona.py:135 | a text without three line breaks in a row is left unchanged |
| PersonaFormat.PassesSpec | reddit_persona.py:131-135 | after the star pass, the other four passes change only line breaks; the asterisk rule holds and there is no triple line break |
| PersonaFormat.FormatNoTripleBreak | reddit_persona.py:130-136 | the formatted text holds no three consecutive line breaks |
| PersonaFormat.FormatTrimmed | reddit_persona.py:136 | the formatted text ends with exactly one line break; it is either that line break alone, or it starts and ends (before that break) with a non-space character |
| PersonaFormat.FormatStars | reddit_persona.py:131-136 | the formatted text holds an asterisk at most at index 0 |
| LinkCleanup.MatchAt | reddit_persona.py:157-162 | every pattern match is non-empty, lies inside the text, and keeps at most its own prefix |
| LinkCleanup.NoLinkRemains | reddit_persona.py:157 | after the link pass, no `http://` or `https://` followed by a non-space character remains at any position |
| LinkCleanup.StripLinksNoop | reddit_persona.py:157 | text without links is left unchanged by the link pass |
| LinkCleanup.StripLinksIdempotent | reddit_persona.py:157 | applying the link pass twice is the same as applying it once |
| LinkCleanup.ScanKeepsVisible | reddit_persona.py:158-162 | each bracket and parenthesis pass deletes only whitespace and bracket characters |
| LinkCleanup.TidyKeepsVisible | reddit_persona.py:158-162 | the five tidy-up passes keep every character that is not whitespace or a bracket, in order |
| LinkCleanup.CleanLinksVisible | reddit_persona.py:157-162 | the text handed to the formatter keeps the visible characters the link pass left |
| LinkCleanup.EmptyParensDeleted | reddit_persona.py:158 | a `(`, only whitespace, then `)` is deleted, and the text on either side is rewritten as if it stood alone |
| LinkCleanup.EmptyBracketsDeleted | reddit_persona.py:159 | a `[`, only whitespace, then `]` is deleted, and the text on either side is rewritten as if it stood alone |
| LinkCleanup.EmptyParensEolDeleted | reddit_persona.py:160 | an empty pair of parentheses that ends a line is deleted and the line break after it stays, unless the text before it ends in `)` |
| LinkCleanup.MarkerParenEolDeleted | reddit_persona.py:161 | `:`, `*` or `-`, then whitespace, then `(` at the end of a line becomes the marker alone, unless the text before it ends in `(` |
| LinkCleanup.OpenParenEolDeleted | reddit_persona.py:162 | a `(` and the whitespace after it at the end of a line are deleted, and the line break stays, when a visible character other than `(` comes before it and the next line starts with a visible character |
| PersonaWriter.FindStartLine | reddit_persona.py:140-144 | the early-exit loop returns the index of the first start line, or 0 |
| PersonaWriter.StartOfSpec | reddit_persona.py:140-144 | the start index is the first line whose stripped form begins with `Name:` or `# Reddit User Persona`; with none, it is 0 |
| PersonaWriter.MainTextSpec | reddit_persona.py:139-145 | the main text begins with the start line; with no start line it is all lines rejoined with `\n` |
| PersonaWriter.FindBodyEnd | reddit_persona.py:146-155 | the marker loop returns the body end defined by `BodyEnd` |
| PersonaWriter.BodyEndSpec | reddit_persona.py:146-155 | the body ends with the line of the last `Online Behavior:`; otherwise with the line of the last `Online Behavior`; with neither, at the end of the text |
| PersonaWriter.BodySpec | reddit_persona.py:156 | the body is the cut text with exactly its leading and trailing whitespace removed: it stands at some k, everything before k and after it is whitespace, and it has no whitespace at either end |
| PersonaWriter.RenderSpec | reddit_persona.py:168 | an extracted value is written as the sentinel iff it has no links, as the link for one link, as the list for several; never as empty text |
| PersonaWriter.CitationLines | reddit_persona.py:166-168 | the loop builds the header line, then one `- name: value` line per item, in dictionary order |
| PersonaWriter.SavePersonaText | reddit_persona.py:139-169 | the text written is the document: the start line is found, the text is cut at the end marker, trimmed, stripped of links, formatted, and the citation block follows when citations are given |
| PersonaWriter.CitationsBlockLines | reddit_persona.py:165-169 | the citation block splits into an empty line, `## Citations`, and one line per item |
| PersonaWriter.DocumentLines | reddit_persona.py:163-169 | with citations, the document's lines are the formatted persona's lines, an empty line, `## Citations`, and the item lines |
| Usernames.NameEndSpec | reddit_persona.py:176 | the name run consists of name characters and stops at the end of the text or at a character outside `[A-Za-z0-9_-]` |
| Usernames.ExtractUsernameNone | reddit_persona.py:175-177 | no name is returned iff no name character follows `/user/` anywhere in the address |
| Usernames.ExtractUsernameSome | reddit_persona.py:175-177 | a returned name is non-empty and made of name characters; it follows the leftmost `/user/` that has one, and it is the whole run there |
| Usernames.ProfileRoundTrip | reddit_persona.py:26 | the last path segment of the profile address built from a name is that name |
| Usernames.ExtractFromProfile | reddit_persona.py:176-193 | extracting the name from the profile address built from a name gives the name back |
| Usernames.ResolveProfileSpec | reddit_persona.py:182-193 | the checks pass iff a name can be read from the address; the fetch then reads back exactly the extracted name |

## Left out

- Network access is not modelled: the Reddit client, the fetching of submissions and comments, and the Groq API request. Environment loading, prompt construction and argument parsing are not modelled either.
- The rest of `main` is not modelled: directory creation, the persona file path and file write, the progress messages, and async control flow. This includes skipping a user with no posts or comments.
- The empty-argument check at the start of `main` is not a separate case. An empty address holds no `/user/`, so `ResolveProfile` rejects it like any address without `/user/`.
- `re.escape` of the catalogue names is modelled as a literal header match, which is what the escaped pattern matches.
- PersonaWriter.Render: a list value is written as `['a', 'b']` without Python's `repr` escaping of quotes and backslashes inside the links.
- LinkCleanup.NoLinkRemains: the absence of links holds only after the link pass. The five later passes delete characters, and that can join pieces into a new link (`http:/()/x` becomes `http://x`). For those passes the model proves which characters they may delete (`TidyKeepsVisible`) and what each deletes in the cases the `…Deleted` lemmas name. The formatter's asterisk pass (reddit_persona.py:131, `DropStars`) deletes characters too and can also rebuild a link: `http:*//x` becomes `http://x`.
- LinkCleanup.CleanLinksVisible: states which characters survive the tidy-up passes, not exactly which brackets and spaces are deleted.
- LinkCleanup.ScanKeepsVisible: states only what a pass may delete. What each pass does delete is stated per pass by the five `…Deleted` lemmas.
- LinkCleanup.TidyKeepsVisible: states only what the five passes together may delete, not the result of running them in sequence.
- LinkCleanup.EmptyParensEolDeleted, LinkCleanup.MarkerParenEolDeleted, LinkCleanup.OpenParenEolDeleted: each covers one match whose neighbours cannot take part in a match. A bracket right before the match, or whitespace lines after it that `\s*` would also take in, are not covered.
- PersonaFormat.PassesSpec: states only that the four line-break passes change nothing but line breaks. Where each pass puts its breaks is stated per pass by `BreakAfterLinesLines`, `SpaceLabelsAsLines` and `CollapseRun`, not for the composition.
- PersonaFormat.BreakAfterLinesSpec: states only that line breaks are inserted and the first character is kept. Where the empty lines go is stated by `BreakAfterLinesLines`.
- PersonaFormat.SpaceLabelsFromSpec: states only that line breaks are inserted. Where the empty lines go is stated by `SpaceLabelsAsLines`.
- PersonaFormat.CollapseBreaksSpec: states the result's shape (no triple break, emptiness, first character). How each run of breaks is rewritten is stated by `CollapseRun`, `CollapseAppend` and `CollapseNoTriple`.
- PersonaFormat.FormatPersona: idempotence (formatting an already formatted text gives it back) is not proved. It would need a line-level account of all five passes together with the final strip; the model proves each pass's own behaviour instead.
- PersonaFormat.FormatTrimmed: states the trimmed ends and the single final line break, not the full contents of the formatted text.
- Python `str` values are modelled as sequences of code points. Encodings and the file's UTF-8 output are not modelled.
