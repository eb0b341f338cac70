# linklint, modelled in Dafny

linklint finds self-links in reStructuredText documentation. A self-link is a
cross-reference such as ``:mod:`dbm` `` written inside the part of the
document that documents `dbm` itself. In fix mode, linklint rewrites such a
reference into its non-linking form (``:mod:`!dbm` ``). When the rewrite
changes the length of a section title, it also resizes the title's underline
and overline.

This project models the core of linklint and proves properties of it:

- **Regions** (`regions.dfy`, from `regions.py`). A section with an implicit
  `module-<name>` id opens a region, and so does a Python description block
  (`desc`). Each region gets `start`, `end_main` and `end_total` from a
  running "last line" cursor. The walk is specified by the function
  `Walk(node, cursor)`. It is implemented by the class `RegionFinder`, whose
  `lastLine` field is the cursor and whose recursive method is proved equal
  to `Walk`.
- **Role table and resolver** (`roles.dfy`, `resolution.dfy`). The
  kind→roles table copied from Sphinx's Python domain is inverted into a
  role→kinds table that keeps declaration order. The region map is keyed by
  `(kind, name)`. The resolver returns the region of the first candidate kind
  that has one. The legacy `linklint.py` has the same table and resolver;
  both versions use these modules.
- **Rewrite patterns** (`reffixes.dfy`). The two rewrite patterns are
  modelled as leftmost-match string functions:
  - the bare form ``:r:`[~.]?T` `` becomes ``:r:`!T` ``;
  - the display form ``:r:`D <T>` `` becomes ``:r:`!D` ``.
- **Line patching and line renumbering** (`rsthelp.dfy`,
  `legacy_rsthelp.dfy`):
  - header-line detection;
  - in-place replacement of one line in an `array<string>`, with header
    neighbours resized;
  - substitution with an arbitrary line function;
  - `fix_node_lines` (both variants);
  - the legacy `on_doctree_read` hook, which adds section ids.

  The legacy `rsthelp.py` has the same `is_header_line`, `replace_rst_line`
  and `resub_in_rst_line` as `src/linklint/rsthelp.py`, so module RstHelp
  models both copies.
- **The lint driver** (`linklint.dfy`, `legacy_linklint.dfy`). This covers:
  - the self-reference filter;
  - the `self` check, which reports and fixes self-links on a `LintWork`
    object that owns the mutable line buffer and the `fixed` flag;
  - the `paradup` check (duplicate references within a paragraph);
  - `lint_content` without its parsing step;
  - `plural`;
  - the selection of check names.

  The legacy `plural` and check selection (`linklint.py:197-206`,
  `linklint.py:220-226`) are the same code as the current ones and are
  modelled once, in module Linklint.
- **HTML summariser** (`summarize_html.dfy`, from `tests/summarize_html.py`).
  This is the `HtmlSummarizer` state machine, driven by a sequence of
  start-tag, end-tag and data events. The specification is the pure function
  `Step` on a `State` value. The class's handlers are proved to follow it.

Document trees are values of the datatype `Doctree.Node`. A node has:

- a kind;
- ids and names;
- an optional objtype;
- fullname, domain, reftype and reftarget;
- an optional line;
- an opaque `newlines` count, which stands for the number of line breaks in
  the node's text;
- its children.

`findall` is the node's pre-order.

The two self-link messages follow each file's own code:

- `src/linklint/linklint.py:126` gives ``self-link to :<role>:`<target>` ``;
- `linklint.py:128` gives `self-link to <kind> '<target>'`.

A region invariant `start <= end_main <= end_total` is sometimes described
for this code. The code does not enforce it: `end_main` is taken from
whatever subregion comes first, and line numbers come from the tree. The
model follows the code and claims no such invariant.

## Model

| member | source | states |
|---|---|---|
| Regions.RegionLessIsStrictOrder | regions.py:21-22 | Ordering regions by `(start, name)` is irreflexive, asymmetric and transitive, and it is total on regions that differ in start or name. |
| Regions.ModuleIdName | regions.py:35-42 | A section has no module name exactly when none of its ids starts with `module-` while being absent from its names. |
| Regions.ModuleIdNameIsFirstAnchor | regions.py:36-42 | The module name is the text after `module-` in the first such id; later ids are not consulted. |
| Regions.OpenedBy | regions.py:33-48 | A node opens a region iff it is a section with a module id or a `desc`. A section's region is a `module` starting one line above the section. A `desc` region has the block's objtype, its signature's fullname and its signature's line. |
| Regions.FindOpening | regions.py:30-48 | The `match` over the node computes exactly the opening described by `OpenedBy`. |
| Regions.WalkFollowsPostOrder | regions.py:54-68 | Regions come out in post-order of the nodes that open them: a node's own region follows all of its descendants' regions. |
| Regions.PostOpeningsCount | regions.py:54-68 | There are as many post-order openings as nodes of the tree that open a region. |
| Regions.RegionCount | regions.py:29-68 | The walk yields exactly one region per opening node. A tree with no module section and no `desc` yields no region. |
| Regions.WalkCursorIsLastMark | regions.py:50-52 | After a walk, the cursor is set by the last node in pre-order that has a line: that line plus its newline count. The cursor is assigned, not maximised, and is unchanged when no node has a line. |
| Regions.OwnRegionIsLast | regions.py:54-68 | A node's own region is the last one emitted, after its children's regions exactly. Its end_total is the cursor after the children. Its end_main is the first subregion's start minus 1, falling back to end_total when there is no subregion or that value would be 0. |
| Regions.ChildRegionsPassThrough | regions.py:54-59 | Each child's regions appear unchanged and contiguous in the parent's output, right after the regions of the earlier children. |
| Regions.RegionFinder.constructor | regions.py:26-27 | A new finder's cursor is 0. |
| Regions.RegionFinder.FindRegions | regions.py:29-68 | The recursive method returns the regions of `Walk` from the old cursor and leaves the `lastLine` field where `Walk` leaves the cursor. |
| Regions.AppendSubregions | regions.py:55-59 | The children's regions are appended in order. end_main is fixed once, from the first subregion, and only for a node that opens a region. |
| Regions.FindRegions | regions.py:71-74 | `find_regions` returns the walk of the whole document from cursor 0. |
| Roles.BuildReftypeToObjtype | src/linklint/linklint.py:43-46 | The nested loops build a map in which every role lists exactly the kinds that accept it, in table order. No role maps to an empty list. |
| Roles.CandidateKindsMembers | src/linklint/linklint.py:29-46 | A kind is a candidate for a role iff the table row of that kind lists the role. |
| Roles.FuncRoleKinds | src/linklint/linklint.py:30 | `func` denotes only `function`. |
| Roles.DataRoleKinds | src/linklint/linklint.py:31 | `data` denotes only `data`. |
| Roles.ModRoleKinds | src/linklint/linklint.py:40 | `mod` denotes only `module`. |
| Roles.AttrRoleKinds | src/linklint/linklint.py:37-38 | `attr` denotes `attribute`, then `property`. |
| Roles.PropRoleKinds | src/linklint/linklint.py:38 | `_prop` denotes only `property`. |
| Roles.TypeRoleKinds | src/linklint/linklint.py:39 | `type` denotes only `type`. |
| Roles.MethRoleKinds | src/linklint/linklint.py:34-36 | `meth` denotes `method`, `classmethod`, `staticmethod`, in that order. |
| Roles.ClassRoleKinds | src/linklint/linklint.py:32-39 | `class` denotes `class`, `exception`, `type`, in that order. |
| Roles.ExcRoleKinds | src/linklint/linklint.py:32-33 | `exc` denotes `class`, then `exception`. |
| Roles.ObjRoleKinds | src/linklint/linklint.py:29-41 | `obj` denotes all eleven kinds, in declaration order. |
| Roles.RefRoleKinds | src/linklint/linklint.py:51-56 | A role missing from the table, such as `ref`, has no candidate kinds, so it never resolves. |
| Resolution.RegionMapKeys | src/linklint/linklint.py:48-49 | The region map has a key exactly for each `(kind, name)` of some region. |
| Resolution.RegionMapLastWins | src/linklint/linklint.py:49 | When several regions share a key, the map holds the last of them. |
| Resolution.Resolver.FirstHit | src/linklint/linklint.py:51-56 | The result is None iff no candidate kind has a region with the target name. Otherwise it is the region of the first candidate kind that has one. |
| RefFixes.SearchIsLeftmost | src/linklint/linklint.py:110-117 | A pattern search finds the leftmost position where the pattern matches, and finds none only when no position matches. |
| RefFixes.FixChangesIffMatch | src/linklint/linklint.py:111-118 | Applying a pattern changes the line iff the pattern matches somewhere in it. |
| RefFixes.FixRewritesLeftmostOnly | src/linklint/linklint.py:111-117 | Only the leftmost occurrence is replaced (count 1); text before and after it is kept. |
| RefFixes.NoMatchWithoutColon | src/linklint/linklint.py:88-99 | Neither pattern matches at a position that does not hold a colon. |
| RefFixes.BareMatchesPlain | src/linklint/linklint.py:91-92 | ``:r:`T` `` matches the bare pattern and becomes ``:r:`!T` ``. |
| RefFixes.BareMatchesMarked | src/linklint/linklint.py:91-92 | ``:r:`~T` `` and ``:r:`.T` `` match as well; the marker is dropped in the rewrite. |
| RefFixes.BareRejectsLongerName | src/linklint/linklint.py:91 | When T is followed by anything but the closing backtick (a longer name such as `dbm.gnu` for T = `dbm`), the bare pattern does not match. |
| RefFixes.DisplayMatches | src/linklint/linklint.py:96-97 | Text ``:r:`D G<T>` `` matches, and the match spans all of it and becomes ``:r:`!D` ``. Here D is non-empty and has no `<`, G is whitespace, and D ends in a non-space character unless D is a single character. |
| RefFixes.DisplayAtInverse | src/linklint/linklint.py:96-97 | Conversely, every display match is of that shape and rewrites it to ``:r:`!D` ``. Together with DisplayMatches: the pattern matches at a position iff the text there has that shape. |
| RefFixes.FixBlankDisplayExample | src/linklint/linklint.py:96-97 | Example: with only whitespace before `<`, the lazy group still keeps one character, so ``:func:`  <x>` `` becomes ``:func:`! ` ``. |
| RefFixes.FixBareExample | src/linklint/linklint.py:91-92 | Example: ``:mod:`dbm` is`` becomes ``:mod:`!dbm` is``. |
| RefFixes.FixTildeExample | src/linklint/linklint.py:91-92 | Example: ``:mod:`~a.b` and`` becomes ``:mod:`!a.b` and``. |
| RefFixes.FixDisplayExample | src/linklint/linklint.py:96-97 | Example: ``:func:`ex <x>` f`` becomes ``:func:`!ex` f``. |
| RstHelp.HeaderLineIff | src/linklint/rsthelp.py:82-85 | A line is a header line for a text line iff its right-stripped form is non-empty, at least as long as the stripped text line, made of one repeated character, and that character is punctuation. |
| RstHelp.HeaderLineTable | src/linklint/rsthelp.py:82-85 | These are header lines for `Header`: `======`, `------`, a longer run, and a run followed by spaces or a newline. These are not: an indented run, a short run, a mixed run, and digits. |
| RstHelp.HeaderLineNotEmpty | src/linklint/rsthelp.py:84-85 | A header line is non-empty, so its first and last characters exist. |
| RstHelp.Replaced | src/linklint/rsthelp.py:88-97 | Replacement keeps the number of lines and puts the new line at n. The neighbours n-1 and n+1 are resized only when they are header lines for the old line. Every other line is unchanged. |
| RstHelp.ReplaceRstLine | src/linklint/rsthelp.py:88-97 | The in-place method leaves the array equal to `Replaced` of its old contents. |
| RstHelp.ResizedKeepsHeader | src/linklint/rsthelp.py:97 | A resized neighbour is a header line for the new line. It is as long as the stripped new line, plus its own kept last character when that is not whitespace. |
| RstHelp.ReplacedOverlineExample | src/linklint/rsthelp.py:92-97 | Example: `**`/`Ab`/`**` with `Ab` replaced by `Abc` grows both the overline and the underline to `***`. |
| RstHelp.ResubInRstLine | src/linklint/rsthelp.py:100-106 | The method returns true iff the substitution changes line n. On true the array is `Replaced` with the new line; on false it is untouched. |
| RstHelp.RenumberPreorder | src/linklint/rsthelp.py:73-79 | Renumbering a subtree keeps every node but its line. The i-th node in pre-order gets the base line plus the line breaks of the Text nodes before it. The running count grows by all Text line breaks of the subtree. |
| RstHelp.BlockLines | src/linklint/rsthelp.py:73-79 | The loop with its running newline count computes, for each descendant of a block, the line the renumbering gives it. |
| RstHelp.FixParagraphLines | src/linklint/rsthelp.py:70-79 | A paragraph with a non-zero line keeps that line, and each of its descendants (Text nodes included) gets the paragraph's line plus the Text line breaks before it. |
| RstHelp.UnnumberedParagraphSkipped | src/linklint/rsthelp.py:71-72 | A paragraph with no line, or line 0, is left exactly as it is. |
| RstHelp.FixNodeLinesKeepsShape | src/linklint/rsthelp.py:63-79 | `fix_node_lines` changes only lines: the tree keeps its pre-order and every other attribute of every node. |
| LegacyRstHelp.LegacyKeepsTextLines | rsthelp.py:70-80 | In the older `fix_node_lines`, a Text node keeps its line. Every other descendant gets the same line as in the current version. |
| LegacyRstHelp.OnDoctreeReadAppendsIds | rsthelp.py:13-22 | On every tree, position by position in pre-order: the tree keeps its shape. Each section's new ids are its old ids followed by the ids of the Python blocks whose nearest section it is. Every other node keeps its ids, and no other attribute changes. |
| LegacyRstHelp.OnDoctreeReadAddsOnePerCoveredDesc | rsthelp.py:13-22 | The hook adds exactly one id per Python description block that has a section above it, and removes no id. |
| LegacyRstHelp.NoPyDescUnchanged | rsthelp.py:14-15 | A document with no Python description block is left unchanged. |
| LegacyRstHelp.SectionWithOneDesc | rsthelp.py:16-21 | A section holding one block gets `<objtype>-<fullname>` appended after its own ids. |
| LegacyRstHelp.NearestSectionOnly | rsthelp.py:18-22 | A block's id goes to its nearest enclosing section only, not to outer sections. |
| Linklint.LintWork.constructor | src/linklint/linklint.py:183-188 | The work record holds the tree, the line buffer and the fix switch, and starts with `fixed` false. |
| Linklint.SelfRefsInMembers | src/linklint/linklint.py:139-151 | A node is reported iff it is a reference with a line that resolves to a region with start <= line <= end_total. References without a line or that do not resolve are skipped. |
| Linklint.OutsideRegionNotFlagged | src/linklint/linklint.py:150 | A reference before the start, or after the total end, of the region it names is not a self-reference. |
| Linklint.TryFixesSpec | src/linklint/linklint.py:109-119 | A fix takes iff the bare or the display pattern matches in the line. When the bare pattern changes the line, its rewrite is the one applied; otherwise the display rewrite is. |
| Linklint.TryFixesInPlace | src/linklint/linklint.py:110-119 | The loop over the patterns, working in place, stops at the first pattern that changes the line and leaves the result `TryFixes` describes. |
| Linklint.SelfLinksIssues | src/linklint/linklint.py:104-128 | There is one issue per self-reference, in document order, carrying that reference's line and the ``self-link to :role:`target` `` message. |
| Linklint.SelfLinksNoFix | src/linklint/linklint.py:108-109 | Without fix mode the lines and the `fixed` flag are untouched, and every issue is unfixed. |
| Linklint.SelfLinksFixedIsAny | src/linklint/linklint.py:120 | The `fixed` flag ends true iff it was already true or some issue of this run was fixed. The flag is or-accumulated. |
| Linklint.SelfLinksChangeIsFixed | src/linklint/linklint.py:118-120 | If the lines changed, the `fixed` flag is set. |
| Linklint.FixSelfLink | src/linklint/linklint.py:105-128 | One reference step in place: the buffer is rewritten as `Attempt` says, and the flag becomes its old value or'ed with this attempt. |
| Linklint.FindSelfLinks | src/linklint/linklint.py:102-128 | The check leaves the buffer and issues that `SelfLinks` computes over the document's self-references, and ors the outcome into `work.fixed`. |
| Linklint.GroupedSpec | src/linklint/linklint.py:158-163 | References with a non-empty role and target are grouped by `(role, target)`. A key is listed once, exactly when it has references, and its group holds them in document order. The keys are listed in the order of the positions of their first references (`FirstAt`). |
| Linklint.GroupedOrder | src/linklint/linklint.py:158-163 | Every listed key has a reference, and of two listed keys the earlier one's first reference comes first. |
| Linklint.EmittedIsLaterOccurrences | src/linklint/linklint.py:165-171 | The issues are, group by group, every occurrence after the first; the first occurrence is never reported. |
| Linklint.NoRepeatNoIssue | src/linklint/linklint.py:165-171 | A paragraph in which no reference key repeats yields no issue. |
| Linklint.GroupedExample | src/linklint/linklint.py:158-163 | Example: the keys a, a, b, a group as `[a, b]`, with a's three references in order. |
| Linklint.DuplicateExample | src/linklint/linklint.py:165-171 | Example: references to a, a, b, a on lines 1-4 report duplicates on lines 2 and 4. |
| Linklint.ParagraphDuplicates | src/linklint/linklint.py:158-171 | The dict-of-lists method for one paragraph yields exactly `ParagraphIssues` of its references. |
| Linklint.ParagraphsDuplicates | src/linklint/linklint.py:157-171 | The loop over paragraphs concatenates their issues in order. |
| Linklint.FindDuplicateRefsInParagraph | src/linklint/linklint.py:155-171 | The check covers every paragraph of the document in pre-order. |
| Linklint.DuplicatesUnfixed | src/linklint/linklint.py:168-171 | Duplicate issues are never marked fixed. |
| Linklint.RunCheck | src/linklint/linklint.py:191-192 | Running one named check leaves the buffer and flag as `CheckStep` says and appends its issues. |
| Linklint.RunChecksNoFix | src/linklint/linklint.py:190-192 | Without fix mode, running the checks in any order leaves the lines unchanged and the flag false. |
| Linklint.RunChecksChangeIsFixed | src/linklint/linklint.py:190-198 | If running the checks changes the lines, the flag is set. |
| Linklint.LintContent | src/linklint/linklint.py:181-200 | The result is the rejoined lines, the issues and the flag of running the checks in order over the split content. Without fix mode the content comes back unchanged; changed content implies `fixed`. |
| Linklint.LintOutcome | src/linklint/linklint.py:194-198 | Joining the untouched lines gives back the input, and any difference from the input implies the flag. |
| Strings.JoinSplitLines | src/linklint/linklint.py:184 | Joining the lines of a split that keeps line ends gives back the original text. |
| Strings.DigitsRoundTrip | src/linklint/linklint.py:226 | The decimal rendering of a count reads back as that count. |
| Linklint.PluralNoun | src/linklint/linklint.py:217-226 | The result is the number, a space and then: `thing` when n is 1, otherwise `things`, or `thing` + `s` when `things` is empty. |
| Linklint.PluralExamples | src/linklint/linklint.py:217-226 | Examples: `1 file`, `3 issues`, `0 entries`. |
| Linklint.SelectChecks | src/linklint/linklint.py:240-246 | Selection fails iff some requested name is neither a check nor `all`, and it reports exactly those names. Otherwise `all` selects every check, and without `all` the requested set is kept. |
| LegacyLinklint.LintWork.constructor | linklint.py:162-168 | The resolver is built once from the tree, and the flag starts false. |
| LegacyLinklint.SelfHitsArePendingSelfRefs | linklint.py:98-111 | The older check visits exactly the `pending_xref` nodes that are self-references, in document order. |
| LegacyLinklint.SelfHitsRegions | linklint.py:103-105 | Every hit carries the region the shared resolver returns for it. |
| LegacyLinklint.LegacySelfLinksIssues | linklint.py:111-130 | There is one issue per hit, carrying the reference's line and the message `self-link to <kind> '<target>'`. |
| LegacyLinklint.LegacySelfLinksNoFix | linklint.py:112-113 | Without fix mode the lines and the flag are untouched. |
| LegacyLinklint.BareAttemptOnLine | linklint.py:113-122 | The older fix tries only the bare pattern, once, on the reference's line. It applies the rewrite and resizes headers when the line changes, and otherwise leaves the lines as they were. |
| LegacyLinklint.FixBare | linklint.py:116-122 | In place, the buffer and the result are exactly `BareAttempt`. |
| LegacyLinklint.CheckNode | linklint.py:98-122 | A node that is not a hit changes nothing. A hit is fixed in place as `BareAttempt` says. |
| LegacyLinklint.AsWrittenFlagIsLast | linklint.py:116 | As written, the flag after the check equals the last issue's fixed value. |
| LegacyLinklint.AsWrittenLosesEarlierFix | linklint.py:116 | As written: one fix on line 1 followed by a failed fix on line 3 changes the text but leaves the flag false. |
| LegacyLinklint.FindSelfLinksAsWritten | linklint.py:96-130 | The as-written method leaves buffer, issues and flag as the overwriting fold says. |
| LegacyLinklint.CorrectedChangeIsFixed | linklint.py:116 | With the flag or-accumulated, any change to the lines sets it. |
| LegacyLinklint.CorrectedFixedIsAny | linklint.py:116 | With the flag or-accumulated, it is set iff it was set before or some issue was fixed. |
| LegacyLinklint.CorrectedKeepsFlag | linklint.py:116 | With the flag or-accumulated, it never goes back to false. |
| LegacyLinklint.FindSelfLinks | linklint.py:96-130 | The corrected method leaves buffer, issues and flag as the accumulating fold says. |
| LegacyLinklint.FindDuplicateRefsInParagraph | linklint.py:133-150 | The older duplicate check gives exactly the current check's issues. |
| LegacyLinklint.RunCheck | linklint.py:171-172 | Running one named check appends its issues and updates buffer and flag as `CheckStep` says. The self-link check runs as written, or with the corrected flag when `keepEarlier` holds. |
| LegacyLinklint.RunAll | linklint.py:170-172 | The checks run in order and share one resolver. The state ends as `LegacyRunChecks` says. |
| LegacyLinklint.LegacyRunChecksNoFix | linklint.py:170-172 | Without fix mode the run leaves the lines alone and the flag false, in both variants. |
| LegacyLinklint.AsWrittenRunFlagIsLast | linklint.py:116 | As written, when `self` runs last and finds a self-link, the run's flag is the outcome of that check's last attempt. |
| LegacyLinklint.AsWrittenLintLosesFix | linklint.py:160-180 | As written, on a text whose lines are ``:mod:`dbm` is``, an empty line and `plain`, with self-links to `mod` `dbm` on lines 1 and 3, the run returns changed text with `fixed` false. |
| LegacyLinklint.ExampleSplit | linklint.py:163 | `splitlines(keepends=True)` of that text gives those three lines. |
| LegacyLinklint.LintWith | linklint.py:160-180 | The result is the rejoined lines, issues and flag of the checks run in order. |
| LegacyLinklint.LintContent | linklint.py:160-180 | The result is the rejoined lines, issues and flag of the checks run in order, with the self-link check as written. Without fix mode the content comes back unchanged and `fixed` is false. |
| LegacyLinklint.LegacyLintOutcome | linklint.py:160-180 | Without fix mode the text round-trips and nothing is fixed, in both variants. With the corrected self-link check, changed text implies `fixed`. |
| LegacyLinklint.LegacyRunChecksChangeIsFixed | linklint.py:170-172 | Corrected half: with the or-accumulated flag, a run that changes the lines sets the flag. |
| LegacyLinklint.CorrectedLintContent | linklint.py:160-180 | Corrected half: the same driver with the or-accumulated flag. Changed content implies `fixed`, and without fix mode the content comes back unchanged. |
| SummarizeHtml.Words | tests/summarize_html.py:44 | Splitting on whitespace gives non-empty words with no whitespace in them. |
| SummarizeHtml.InWordsIff | tests/summarize_html.py:44 | A word is among the split words of a class attribute iff it stands there delimited by whitespace or the ends. |
| SummarizeHtml.Lookup | tests/summarize_html.py:54 | A dict lookup on the attribute list is None iff no attribute has that name; a found value is one of that name's values. |
| SummarizeHtml.LookupLastWins | tests/summarize_html.py:54 | Building the dict keeps the last value given for a name. |
| SummarizeHtml.ShouldIgnoreIff | tests/summarize_html.py:43-46 | A tag is ignored iff it is `a` and its class attribute contains the word `headerlink`. |
| SummarizeHtml.KeptAttrsAppend | tests/summarize_html.py:62 | Rendering kept attributes works piecewise, so their original order is kept. |
| SummarizeHtml.KeptAttrsDropsOthers | tests/summarize_html.py:62 | Attributes other than `id` and `href` leave no trace. |
| SummarizeHtml.KeptAttrsExample | tests/summarize_html.py:62-63 | Example: `class`, `href`, `id` render as ` href="#s" id="s"`. |
| SummarizeHtml.NormalizeIsJoinedWords | tests/summarize_html.py:83 | Stripping and collapsing whitespace gives the text's words joined by single spaces. |
| SummarizeHtml.NormalizeShape | tests/summarize_html.py:83-84 | The normalised text is empty iff the data is all whitespace. Otherwise each whitespace character in it is a single space between two non-spaces. |
| SummarizeHtml.PrintRules | tests/summarize_html.py:31-38 | Each print appends indent, text and newline. A closing tag lowers the indent by 2 before it is written, an opening tag raises it by 2 afterwards, and plain text leaves it alone. |
| SummarizeHtml.OpeningTagPrinted | tests/summarize_html.py:31-38 | Printing a start tag writes it at the current indent and raises the indent by 2. |
| SummarizeHtml.ClosingTagPrinted | tests/summarize_html.py:31-38 | Printing an end tag lowers the indent by 2 first and writes it there. |
| SummarizeHtml.SummaryGrows | tests/summarize_html.py:31-41 | Each print extends the summary by exactly the padded text and a newline. |
| SummarizeHtml.NothingBeforeMain | tests/summarize_html.py:53-86 | Until an element with `role="main"` starts, no event changes anything. |
| SummarizeHtml.MainTagNotPrinted | tests/summarize_html.py:55-66 | The `role="main"` start tag itself is not printed; it only switches `main` on. |
| SummarizeHtml.RunKeepsOmitBelow | tests/summarize_html.py:59-72 | Every omitted level stays below the current indent, whatever events follow. |
| SummarizeHtml.SpanLeavesNoTrace | tests/summarize_html.py:59-60 | An empty `span` inside main leaves output, indent and omitted levels as they were; as for any end tag, `main` goes off if the indent is back at 0. |
| SummarizeHtml.SpanTextNotIndented | tests/summarize_html.py:59-60 | Text inside a `span` is printed at the enclosing indent, with no tag around it. |
| SummarizeHtml.HeaderLinkIgnored | tests/summarize_html.py:56-58 | A headerlink anchor and its text print nothing, and ignoring ends at its end tag. |
| SummarizeHtml.NestedTagEndsIgnoring | tests/summarize_html.py:75-77 | Inside a headerlink, a nested element's end tag already ends ignoring, so the anchor's own end tag is printed. |
| SummarizeHtml.IgnoredTagEndsIgnoring | tests/summarize_html.py:75-77 | An ignored element nested one level in clears ignoring when it ends, without printing. |
| SummarizeHtml.StartTagWritten | tests/summarize_html.py:61-64 | Inside main, a tag that is neither ignored nor omitted is printed with only its kept attributes, and the indent goes up by one. |
| SummarizeHtml.FirstChildEndsMain | tests/summarize_html.py:68-79 | The first child of the main element returns the indent to 0 when it ends, so `main` is switched off after it. |
| SummarizeHtml.EndTagWritten | tests/summarize_html.py:68-79 | Inside main, an end tag that is not omitted prints the closing tag, lowers both indents, and turns `main` off at level 0. |
| SummarizeHtml.DataPrinted | tests/summarize_html.py:81-86 | Inside main, non-blank data is printed once, normalised, and the indent stays the same. |
| SummarizeHtml.DataWritten | tests/summarize_html.py:81-86 | The printed text is the data's words joined by single spaces. |
| SummarizeHtml.HtmlSummarizer.constructor | tests/summarize_html.py:15-29 | A new summariser starts at indent 0, outside main, not ignoring, with no omitted levels and no output. |
| SummarizeHtml.HtmlSummarizer.Print | tests/summarize_html.py:31-38 | The fields change exactly as `PrintStep` says. |
| SummarizeHtml.HtmlSummarizer.Summary | tests/summarize_html.py:40-41 | The summary is the concatenation of the output pieces. |
| SummarizeHtml.HtmlSummarizer.HandleStartTag | tests/summarize_html.py:53-66 | The fields change exactly as `StartStep` says. |
| SummarizeHtml.HtmlSummarizer.HandleEndTag | tests/summarize_html.py:68-79 | The fields change exactly as `EndStep` says. |
| SummarizeHtml.HtmlSummarizer.HandleData | tests/summarize_html.py:81-86 | The fields change exactly as `DataStep` says. |
| SummarizeHtml.HtmlSummarizer.Feed | tests/summarize_html.py:91 | Feeding a sequence of events leaves the state `Run` computes. |
| SummarizeHtml.SummarizeEvents | tests/summarize_html.py:89-92 | Summarising a document's events gives the summary of running them from the initial state. |

## Left out

- Parsing is not modelled: `parse_rst_file` (both copies), `setup`, the doctree dump and `test_slug`. The parsed document tree is an input.
- File and console I/O is not modelled: `lint_file` (reading and writing files), the command-line entry points (argument parsing, the printed report, exit codes) and the diagnostic prints when a fix fails. Only the check-name selection is modelled.
- `dump.py`, `src/linklint/dump.py`, `src/linklint/ext.py`, `src/linklint/utils.py` and the test modules are not part of this model.
- `astext()` is not computed. Each node carries an opaque newline count instead, because docutils inserts separators between the texts of children.
- `fix_node_lines` and `on_doctree_read` are modelled as functions from tree to tree. Nodes are values, so the in-place assignment of `node.line` and `ids` is not modelled. `on_doctree_read`'s walk up the parent links is modelled as the equivalent walk down to the nearest section.
- A missing node attribute (fullname, reftype, reftarget, domain) reads as the empty string.
- LegacyRstHelp.DescId: a missing `fullname` renders as the empty string, giving `<objtype>-`. The source's f-string gives `<objtype>-None`. A missing `objtype` does render as `None`.
- Trees are assumed well formed, and documents that break these rules are excluded (the drivers and the region walk require it):
  - A module section without a line: the source's assertion fails.
  - A `desc` without a signature child: the source's `children[0]` raises.
  - A typed `desc` whose signature has no line. The source builds its region with no start (`regions.py:48`). It fails only in two cases: when that region is the first subregion of an enclosing region, since `start - 1` is taken (`regions.py:58`); or when a reference resolves to it, since `start` is compared (`src/linklint/linklint.py:150`). Otherwise the source runs on such a document, and the model does not cover it.
- Linklint.LintContent: the set of check names is iterated as a sequence given by the caller, because Python's set iteration order is unspecified.
- Linklint.LintContent: in fix mode, every self-reference must have a line from 1 to the number of lines. The source would index out of range (or, for line 0, wrap to the last line); those paths are not modelled. The same holds for LegacyLinklint.LintContent and LegacyLinklint.CorrectedLintContent.
- RstHelp.ResubInRstLine: `re.sub` is an arbitrary line-to-line function. Only the two rewrite patterns are modelled concretely.
- General regular expressions are not modelled. The role is matched literally, although the source inserts it unescaped into the pattern; real role names contain no pattern characters. The bare rewrite's replacement is also built from the raw target (`src/linklint/linklint.py:115`, `linklint.py:115`). `re.sub` processes its backslashes, so a target with a backslash would be rewritten differently or raise; the model copies the target verbatim.
- The `defaultdict` side effect is not modelled: looking up an unknown role there inserts an empty list.
- The HTML tokenizer (`HTMLParser`) and the file reading in `summarize_html_file` are not modelled. The summariser receives start-tag, end-tag and data events directly.
- Attributes without a value (`None` in the source) are not modelled; every attribute has a string value.
- SummarizeHtml.HtmlSummarizer.Feed: requires every data event's normalised text not to start with `<` in any state. The source asserts this only for text it prints inside main. SummarizeHtml.SummarizeEvents has the same precondition.
- Integer widths play no role: Python integers are unbounded, and so are Dafny's.

## Findings

| source | as written | input that shows it | evidently intended | confidence | as-written member | corrected member |
|---|---|---|---|---|---|---|
| linklint.py:116 | Each fix attempt assigns its result to `work.fixed`, overwriting the flag. A later self-link that cannot be fixed clears the flag set by an earlier successful fix. | `lint_content` in fix mode with check `self` on the text ``:mod:`dbm` is`` / empty line / `plain` (each line ending in a newline), with self-references to `mod` `dbm` on lines 1 and 3. Line 1 is rewritten, line 3 fails, and the result has changed text but `fixed` false, so `lint_file` would not write the fix back. | The flag is or-accumulated, as in `src/linklint/linklint.py:120`: once a fix took, the content counts as fixed. | not executed | LegacyLinklint.AsWrittenLintLosesFix | LegacyLinklint.CorrectedLintContent |
