/**
 * The older linter (the top-level `linklint.py`). The duplicate check, the
 * region resolver, `plural` and the command line are those of the current
 * linter (module Linklint). The self-link check differs:
 *   - only pending cross-references are considered, not plain references;
 *   - the region each one resolves to is found with a resolver built once
 *     per document and kept with the shared state;
 *   - only the bare rewrite (`:r:`t`` to `:r:`!t``) is tried;
 *   - the message names the region's kind: `self-link to <kind> '<target>'`;
 *   - as written, each attempt overwrites the shared fixed flag with its
 *     own outcome, so an earlier fix is forgotten when a later one fails.
 *     `FindSelfLinksAsWritten` models that, and `LintContent` runs it;
 *     `FindSelfLinks` keeps the earlier outcome, as the current linter
 *     does, and `CorrectedLintContent` runs that one instead.
 */
module LegacyLinklint {
  import opened Wrappers
  import opened Strings
  import opened Doctree
  import opened Regions
  import opened Resolution
  import opened RefFixes
  import opened RstHelp
  import opened Linklint

  /** The shared state of the older checks: the current one plus the
      resolver of the document. */
  class LintWork {
    const doctree: Node
    const contentLines: array<string>
    const resolver: Resolver
    const fix: bool
    var fixed: bool

    constructor (doctree: Node, contentLines: array<string>, fix: bool)
      requires WellFormed(doctree)
      ensures this.doctree == doctree && this.contentLines == contentLines
      ensures this.resolver == NewResolver(doctree)
      ensures this.fix == fix && !this.fixed
    {
      this.doctree := doctree;
      this.contentLines := contentLines;
      this.resolver := NewResolver(doctree);
      this.fix := fix;
      this.fixed := false;
    }
  }

  /* Finding self-links. */

  /** The region of a pending cross-reference with a line that falls inside
      the region its target resolves to; nothing for any other node. */
  function SelfHit(resolver: Resolver, n: Node): Option<Region> {
    if n.kind != PendingXref || n.line.None? then None
    else
      match resolver.FindRegion(n.reftype, n.reftarget)
      case None => None
      case Some(region) =>
        if region.start <= n.line.value <= region.endTotal then Some(region) else None
  }

  /** The self-links among `ns`, in order, each with its region. */
  function SelfHits(resolver: Resolver, ns: seq<Node>): (r: seq<(Node, Region)>)
    ensures |r| <= |ns|
  {
    if ns == [] then []
    else
      var last := ns[|ns| - 1];
      SelfHits(resolver, ns[..|ns| - 1])
      + (match SelfHit(resolver, last) case Some(region) => [(last, region)] case None => [])
  }

  function HitRefs(hits: seq<(Node, Region)>): (r: seq<Node>)
    ensures |r| == |hits| && forall i :: 0 <= i < |hits| ==> r[i] == hits[i].0
  {
    seq(|hits|, i requires 0 <= i < |hits| => hits[i].0)
  }

  /** A node is flagged exactly when it is a pending cross-reference that
      the current check counts as a self-reference. */
  lemma SelfHitIff(resolver: Resolver, n: Node)
    ensures SelfHit(resolver, n).Some? <==> n.kind == PendingXref && IsSelfRef(resolver, n)
  {
  }

  lemma HitRefsSingle(n: Node, region: Region)
    ensures HitRefs([(n, region)]) == [n]
  {
  }

  lemma HitRefsAppend(a: seq<(Node, Region)>, b: seq<(Node, Region)>)
    ensures HitRefs(a + b) == HitRefs(a) + HitRefs(b)
  {
  }

  lemma {:induction false} OfKindAppend(a: seq<Node>, b: seq<Node>, k: NodeKind)
    ensures OfKind(a + b, k) == OfKind(a, k) + OfKind(b, k)
    decreases |b|
  {
    if b == [] {
      assert a + b == a;
    } else {
      var bf, last := b[..|b| - 1], b[|b| - 1];
      var tl := if last.kind == k then [last] else [];
      calc {
        OfKind(a + b, k);
        == { assert (a + b)[..|a + b| - 1] == a + bf; assert (a + b)[|a + b| - 1] == last; }
        OfKind(a + bf, k) + tl;
        == { OfKindAppend(a, bf, k); }
        OfKind(a, k) + OfKind(bf, k) + tl;
        == { assert OfKind(b, k) == OfKind(bf, k) + tl; }
        OfKind(a, k) + OfKind(b, k);
      }
    }
  }

  lemma OfKindSingle(n: Node, k: NodeKind)
    ensures OfKind([n], k) == if n.kind == k then [n] else []
  {
    assert [n][..0] == [];
  }

  /**
   * The older check flags exactly the pending cross-references among the
   * current check's self-references, in the same order.
   */
  lemma {:induction false} SelfHitsArePendingSelfRefs(resolver: Resolver, ns: seq<Node>)
    ensures HitRefs(SelfHits(resolver, ns)) == OfKind(SelfRefsIn(resolver, ns), PendingXref)
  {
    if ns != [] {
      var front, last := ns[..|ns| - 1], ns[|ns| - 1];
      SelfHitsArePendingSelfRefs(resolver, front);
      var extra := match SelfHit(resolver, last) case Some(region) => [(last, region)] case None => [];
      var tail := if IsSelfRef(resolver, last) then [last] else [];
      HitRefsAppend(SelfHits(resolver, front), extra);
      OfKindAppend(SelfRefsIn(resolver, front), tail, PendingXref);
      SelfHitIff(resolver, last);
      OfKindSingle(last, PendingXref);
      match SelfHit(resolver, last)
      case None =>
        assert HitRefs(extra) == [];
        assert OfKind(tail, PendingXref) == [] by {
          if tail != [] {
            assert tail == [last];
          }
        }
      case Some(region) =>
        assert tail == [last];
        HitRefsSingle(last, region);
    }
  }

  /** Each hit's reference resolves to the hit's region. */
  predicate RegionsResolved(resolver: Resolver, hits: seq<(Node, Region)>) {
    forall i :: 0 <= i < |hits| ==> resolver.FindRegion(hits[i].0.reftype, hits[i].0.reftarget) == Some(hits[i].1)
  }

  lemma SelfHitResolves(resolver: Resolver, n: Node)
    ensures SelfHit(resolver, n).Some? ==> resolver.FindRegion(n.reftype, n.reftarget) == SelfHit(resolver, n)
    ensures RegionsResolved(resolver, match SelfHit(resolver, n) case Some(region) => [(n, region)] case None => [])
  {
  }

  /** Each flagged reference comes with the region its target resolves to. */
  lemma {:induction false} SelfHitsRegions(resolver: Resolver, ns: seq<Node>)
    ensures RegionsResolved(resolver, SelfHits(resolver, ns))
  {
    if ns != [] {
      var front, last := ns[..|ns| - 1], ns[|ns| - 1];
      SelfHitsRegions(resolver, front);
      var hf := SelfHits(resolver, front);
      var extra: seq<(Node, Region)> := match SelfHit(resolver, last) case Some(region) => [(last, region)] case None => [];
      SelfHitResolves(resolver, last);
      assert SelfHits(resolver, ns) == hf + extra;
      forall i | 0 <= i < |hf + extra|
        ensures resolver.FindRegion((hf + extra)[i].0.reftype, (hf + extra)[i].0.reftarget) == Some((hf + extra)[i].1)
      {
        if i < |hf| {
          assert (hf + extra)[i] == hf[i];
        } else {
          assert (hf + extra)[i] == extra[i - |hf|];
        }
      }
    }
  }

  /** The message of an older self-link issue. */
  function LegacyMessage(kind: string, target: string): string {
    "self-link to " + kind + " '" + target + "'"
  }

  /** When fixing, every flagged reference has a line inside the document. */
  predicate HitsFit(hits: seq<(Node, Region)>, count: nat, fix: bool) {
    fix ==> forall i :: 0 <= i < |hits| ==> hits[i].0.line.Some? && 1 <= hits[i].0.line.value <= count
  }

  /** The one rewrite the older check tries. */
  const LegacyPatterns: seq<Pattern> := [Bare]

  /** What fixing one self-link does to the lines, and whether it took. */
  function BareAttempt(lines: seq<string>, ref: Node, fix: bool): (r: (seq<string>, bool))
    requires fix ==> ref.line.Some? && 1 <= ref.line.value <= |lines|
    ensures |r.0| == |lines|
  {
    if fix then TryFixes(lines, ref.line.value - 1, ref.reftype, ref.reftarget, LegacyPatterns)
    else (lines, false)
  }

  /**
   * One self-link. When fixing, the shared flag becomes the outcome of this
   * attempt (`keepEarlier` false, as written) or stays set once set
   * (`keepEarlier` true, the corrected check); without fixing it is left
   * alone.
   */
  function LegacyStep(o: Outcome, hit: (Node, Region), fix: bool, keepEarlier: bool): (r: Outcome)
    requires fix ==> hit.0.line.Some? && 1 <= hit.0.line.value <= |o.lines|
    ensures |r.lines| == |o.lines|
  {
    var tried := BareAttempt(o.lines, hit.0, fix);
    var issue := LintIssue(hit.0.line, LegacyMessage(hit.1.kind, hit.0.reftarget), tried.1);
    Outcome(tried.0, o.issues + [issue],
            if !fix then o.fixed else if keepEarlier then o.fixed || tried.1 else tried.1)
  }

  /** The older self-link check over `hits`, starting from `start`. */
  function LegacySelfLinks(start: Outcome, hits: seq<(Node, Region)>, fix: bool, keepEarlier: bool): (r: Outcome)
    requires HitsFit(hits, |start.lines|, fix)
    ensures |r.lines| == |start.lines|
  {
    if hits == [] then start
    else
      var front := LegacySelfLinks(start, hits[..|hits| - 1], fix, keepEarlier);
      LegacyStep(front, hits[|hits| - 1], fix, keepEarlier)
  }

  /** One issue per self-link, in order, with its line and the message
      naming the region's kind; the issues before are kept. */
  lemma {:induction false} LegacySelfLinksIssues(start: Outcome, hits: seq<(Node, Region)>, fix: bool, keepEarlier: bool)
    requires HitsFit(hits, |start.lines|, fix)
    ensures var r := LegacySelfLinks(start, hits, fix, keepEarlier);
            && |r.issues| == |start.issues| + |hits|
            && r.issues[..|start.issues|] == start.issues
            && forall i :: 0 <= i < |hits| ==>
                 r.issues[|start.issues| + i].line == hits[i].0.line &&
                 r.issues[|start.issues| + i].message == LegacyMessage(hits[i].1.kind, hits[i].0.reftarget)
  {
    if hits != [] {
      var front := hits[..|hits| - 1];
      LegacySelfLinksIssues(start, front, fix, keepEarlier);
      var f := LegacySelfLinks(start, front, fix, keepEarlier);
      var r := LegacySelfLinks(start, hits, fix, keepEarlier);
      assert r.issues[..|f.issues|] == f.issues;
      forall i | 0 <= i < |hits|
        ensures r.issues[|start.issues| + i].line == hits[i].0.line
        ensures r.issues[|start.issues| + i].message == LegacyMessage(hits[i].1.kind, hits[i].0.reftarget)
      {
        if i < |front| {
          assert hits[i] == front[i];
          assert r.issues[|start.issues| + i] == f.issues[|start.issues| + i];
        }
      }
    }
  }

  /** With fixing off, the lines and the flag are left alone. */
  lemma {:induction false} LegacySelfLinksNoFix(start: Outcome, hits: seq<(Node, Region)>, keepEarlier: bool)
    requires HitsFit(hits, |start.lines|, false)
    ensures LegacySelfLinks(start, hits, false, keepEarlier).lines == start.lines
    ensures LegacySelfLinks(start, hits, false, keepEarlier).fixed == start.fixed
  {
    if hits != [] {
      LegacySelfLinksNoFix(start, hits[..|hits| - 1], keepEarlier);
    }
  }

  /** As written, after fixing at least one self-link the flag is the
      outcome of the last attempt alone. */
  lemma AsWrittenFlagIsLast(start: Outcome, hits: seq<(Node, Region)>)
    requires hits != [] && HitsFit(hits, |start.lines|, true)
    ensures var r := LegacySelfLinks(start, hits, true, false);
            r.fixed == r.issues[|r.issues| - 1].fixed
  {
  }

  /** Corrected, lines that changed always come with the flag set. */
  lemma {:induction false} CorrectedChangeIsFixed(start: Outcome, hits: seq<(Node, Region)>, fix: bool)
    requires HitsFit(hits, |start.lines|, fix)
    ensures var r := LegacySelfLinks(start, hits, fix, true);
            r.lines != start.lines ==> r.fixed
  {
    if hits != [] {
      CorrectedChangeIsFixed(start, hits[..|hits| - 1], fix);
    }
  }

  /** The bare rewrite of `:mod:`dbm`` at the start of a line. */
  lemma FixBareAtStart(tail: string)
    ensures Fix(Bare, ":mod:`dbm`" + tail, "mod", "dbm") == ":mod:`!dbm`" + tail
  {
    var line := ":mod:`dbm`" + tail;
    assert Prefix("mod") + ("dbm" + "`") == line[..10];
    StartsAtSlice(line, 0, line[..10]);
    BareMatchesPlain(line, 0, "mod", "dbm");
    FixRewritesLeftmostOnly(Bare, line, "mod", "dbm", 0);
    assert line[10..] == tail;
  }

  /** The bare rewrite of `:mod:`dbm`` on line 1. */
  lemma FixesFirstLine(lines: seq<string>)
    requires |lines| >= 1 && lines[0] == ":mod:`dbm` is\n"
    ensures TryFixes(lines, 0, "mod", "dbm", LegacyPatterns) == (Replaced(lines, 0, ":mod:`!dbm` is\n"), true)
  {
    FixBareAtStart(" is\n");
    ExampleLines();
    assert LegacyPatterns[0] == Bare;
  }

  /** A line without a colon is left as it is. */
  lemma NoFixWithoutColon(lines: seq<string>, n: nat)
    requires n < |lines| && ':' !in lines[n]
    ensures TryFixes(lines, n, "mod", "dbm", LegacyPatterns) == (lines, false)
  {
    forall k | 0 <= k <= |lines[n]| ensures MatchAt(Bare, lines[n], k, "mod", "dbm").None? {
      NoMatchWithoutColon(Bare, lines[n], k, "mod", "dbm");
    }
    FixChangesIffMatch(Bare, lines[n], "mod", "dbm");
    assert LegacyPatterns[0] == Bare && LegacyPatterns[1..] == [];
  }

  /** The check over two self-links is two steps. */
  lemma LegacySelfLinksTwo(start: Outcome, h1: (Node, Region), h2: (Node, Region), fix: bool, keepEarlier: bool)
    requires fix ==> h1.0.line.Some? && 1 <= h1.0.line.value <= |start.lines|
    requires fix ==> h2.0.line.Some? && 1 <= h2.0.line.value <= |start.lines|
    ensures var o1 := LegacyStep(start, h1, fix, keepEarlier);
            LegacySelfLinks(start, [h1, h2], fix, keepEarlier) == LegacyStep(o1, h2, fix, keepEarlier)
  {
    var hits := [h1, h2];
    assert HitsFit(hits, |start.lines|, fix) by {
      assert forall i :: 0 <= i < 2 ==> hits[i] == h1 || hits[i] == h2;
    }
    assert hits[..1] == [h1] && [h1][..0] == [];
    assert LegacySelfLinks(start, [h1], fix, keepEarlier) == LegacyStep(start, h1, fix, keepEarlier);
  }

  /**
   * As written, the flag can be false although the lines changed: fix a
   * self-link on line 1, then fail to fix one on line 3, and the first fix
   * is forgotten (so the file is not written back).
   */
  lemma AsWrittenLosesEarlierFix(region: Region)
    ensures var ref1 := XrefAt("mod", "dbm", 1);
            var ref3 := XrefAt("mod", "dbm", 3);
            var start := Outcome([":mod:`dbm` is\n", "\n", "plain\n"], [], false);
            var r := LegacySelfLinks(start, [(ref1, region), (ref3, region)], true, false);
            r.lines != start.lines && r.lines[0] == ":mod:`!dbm` is\n" && !r.fixed
  {
    var ref1 := XrefAt("mod", "dbm", 1);
    var ref3 := XrefAt("mod", "dbm", 3);
    var lines := [":mod:`dbm` is\n", "\n", "plain\n"];
    var start := Outcome(lines, [], false);
    LegacySelfLinksTwo(start, (ref1, region), (ref3, region), true, false);
    FixesFirstLine(lines);
    var o1 := LegacyStep(start, (ref1, region), true, false);
    var changed := Replaced(lines, 0, ":mod:`!dbm` is\n");
    assert o1.lines == changed;
    assert changed[2] == "plain\n";
    ExampleLines();
    NoFixWithoutColon(changed, 2);
  }

  lemma ExampleLines()
    ensures ':' !in "plain\n"
    ensures ":mod:`dbm`" + " is\n" == ":mod:`dbm` is\n"
    ensures ":mod:`!dbm`" + " is\n" == ":mod:`!dbm` is\n"
    ensures ":mod:`!dbm` is\n" != ":mod:`dbm` is\n"
  {
    assert |":mod:`!dbm` is\n"| != |":mod:`dbm` is\n"|;
  }

  /** A line `w` without a line break, ended by a line feed, is the first
      line of the text. */
  lemma {:induction false} SplitFirstLine(w: string, rest: string)
    requires forall j :: 0 <= j < |w| ==> !IsLineBreak(w[j])
    ensures SplitLines(w + "\n" + rest) == [w + "\n"] + SplitLines(rest)
  {
    var s := w + "\n" + rest;
    LineEndAtFeed(s, 0, |w| + 1);
    assert s[..|w| + 1] == w + "\n" && s[|w| + 1..] == rest;
  }

  /** A line that ends at the first line feed after `i`, with no other
      line break before it. */
  lemma {:induction false} LineEndAtFeed(s: string, i: nat, k: nat)
    requires i < k <= |s| && s[k - 1] == '\n'
    requires forall j :: i <= j < k - 1 ==> !IsLineBreak(s[j])
    ensures LineEnd(s, i) == k
    decreases k - i
  {
    if i + 1 < k {
      LineEndAtFeed(s, i + 1, k);
    }
  }

  /** The lines of the example text. */
  lemma ExampleSplit()
    ensures SplitLines(":mod:`dbm` is\n\nplain\n") == [":mod:`dbm` is\n", "\n", "plain\n"]
  {
    ExampleNoBreaks();
    SplitFirstLine("plain", "");
    SplitFirstLine("", "plain\n");
    SplitFirstLine(":mod:`dbm` is", "\nplain\n");
    ExampleText();
  }

  lemma ExampleNoBreaks()
    ensures forall j :: 0 <= j < |":mod:`dbm` is"| ==> !IsLineBreak(":mod:`dbm` is"[j])
    ensures forall j :: 0 <= j < |"plain"| ==> !IsLineBreak("plain"[j])
  {
  }

  lemma ExampleText()
    ensures "plain" + "\n" + "" == "plain\n"
    ensures "" + "\n" + "plain\n" == "\nplain\n"
    ensures ":mod:`dbm` is" + "\n" + "\nplain\n" == ":mod:`dbm` is\n\nplain\n"
    ensures "" + "\n" == "\n" && "plain" + "\n" == "plain\n" && ":mod:`dbm` is" + "\n" == ":mod:`dbm` is\n"
  {
  }

  /** The joined text starts with the first line. */
  lemma JoinStartsWith(ls: seq<string>)
    requires ls != []
    ensures |ls[0]| <= |Join(ls)| && Join(ls)[..|ls[0]|] == ls[0]
  {
  }

  /** The corrected check's flag is the flag it started with or'ed with
      the fixed flags of its issues. */
  lemma {:induction false} CorrectedFixedIsAny(start: Outcome, hits: seq<(Node, Region)>, fix: bool)
    requires HitsFit(hits, |start.lines|, fix)
    ensures var r := LegacySelfLinks(start, hits, fix, true);
            r.fixed <==> start.fixed || exists i :: |start.issues| <= i < |r.issues| && r.issues[i].fixed
  {
    if hits != [] {
      var front := hits[..|hits| - 1];
      CorrectedFixedIsAny(start, front, fix);
      LegacySelfLinksIssues(start, front, fix, true);
      var f := LegacySelfLinks(start, front, fix, true);
      var hit := hits[|hits| - 1];
      var tried := BareAttempt(f.lines, hit.0, fix);
      var issue := LintIssue(hit.0.line, LegacyMessage(hit.1.kind, hit.0.reftarget), tried.1);
      assert !fix ==> !tried.1;
      assert LegacySelfLinks(start, hits, fix, true) == Outcome(tried.0, f.issues + [issue], f.fixed || tried.1);
      AnyFixedFromSnoc(f.issues, issue, |start.issues|);
    }
  }

  /** Some issue from position `k` on is marked fixed. */
  predicate AnyFixedFrom(issues: seq<LintIssue>, k: nat) {
    exists i :: k <= i < |issues| && issues[i].fixed
  }

  lemma AnyFixedFromSnoc(issues: seq<LintIssue>, x: LintIssue, k: nat)
    requires k <= |issues|
    ensures AnyFixedFrom(issues + [x], k) <==> AnyFixedFrom(issues, k) || x.fixed
  {
    if AnyFixedFrom(issues + [x], k) {
      var i :| k <= i < |issues + [x]| && (issues + [x])[i].fixed;
      if i < |issues| {
        assert issues[i] == (issues + [x])[i];
      }
    }
    if AnyFixedFrom(issues, k) {
      var i :| k <= i < |issues| && issues[i].fixed;
      assert (issues + [x])[i] == issues[i];
    }
    if x.fixed {
      assert (issues + [x])[|issues|] == x;
    }
  }

  /* The self-link check on the shared state. */

  /** Visiting one node: a step when it is a self-link, nothing otherwise. */
  function Visit(o: Outcome, resolver: Resolver, n: Node, fix: bool, keepEarlier: bool): Outcome
    requires SelfHit(resolver, n).Some? && fix ==> n.line.Some? && 1 <= n.line.value <= |o.lines|
  {
    match SelfHit(resolver, n)
    case Some(region) => LegacyStep(o, (n, region), fix, keepEarlier)
    case None => o
  }

  /** The check over one more node is one more visit. */
  lemma VisitSnoc(start: Outcome, resolver: Resolver, ns: seq<Node>, fix: bool, keepEarlier: bool, k: nat)
    requires k < |ns| && HitsFit(SelfHits(resolver, ns[..k + 1]), |start.lines|, fix)
    ensures HitsFit(SelfHits(resolver, ns[..k]), |start.lines|, fix)
    ensures SelfHit(resolver, ns[k]).Some? && fix ==> ns[k].line.Some? && 1 <= ns[k].line.value <= |start.lines|
    ensures var before := LegacySelfLinks(start, SelfHits(resolver, ns[..k]), fix, keepEarlier);
            && (SelfHit(resolver, ns[k]).Some? && fix ==> ns[k].line.Some? && 1 <= ns[k].line.value <= |before.lines|)
            && LegacySelfLinks(start, SelfHits(resolver, ns[..k + 1]), fix, keepEarlier)
               == Visit(before, resolver, ns[k], fix, keepEarlier)
  {
    assert ns[..k + 1][..k] == ns[..k];
    var prev := SelfHits(resolver, ns[..k]);
    var cur := SelfHits(resolver, ns[..k + 1]);
    match SelfHit(resolver, ns[k])
    case Some(region) =>
      assert cur == prev + [(ns[k], region)];
      assert cur[..|prev|] == prev && cur[|prev|] == (ns[k], region);
    case None =>
      assert cur == prev;
  }

  /** The bare rewrite on the reference's line, in place. */
  method FixBare(lines: array<string>, ref: Node) returns (fixed: bool)
    requires ref.line.Some? && 1 <= ref.line.value <= lines.Length
    modifies lines
    ensures (lines[..], fixed) == BareAttempt(old(lines[..]), ref, true)
  {
    var n := ref.line.value - 1;
    ghost var before := lines[..];
    BareAttemptOnLine(before, ref);
    fixed := ResubInRstLine(lines, n, l => Fix(Bare, l, ref.reftype, ref.reftarget));
  }

  /** The older check's one attempt rewrites the line exactly when the bare
      pattern changes it. */
  lemma BareAttemptOnLine(lines: seq<string>, ref: Node)
    requires ref.line.Some? && 1 <= ref.line.value <= |lines|
    ensures var n := ref.line.value - 1;
            var newLine := Fix(Bare, lines[n], ref.reftype, ref.reftarget);
            BareAttempt(lines, ref, true)
            == if newLine != lines[n] then (Replaced(lines, n, newLine), true) else (lines, false)
  {
    var n := ref.line.value - 1;
    assert LegacyPatterns[0] == Bare && LegacyPatterns[1..] == [];
    assert TryFixes(lines, n, ref.reftype, ref.reftarget, LegacyPatterns[1..]) == (lines, false);
  }

  /**
   * The lookup and the fixing attempt for one node, without the flag:
   * the node's region when it is a self-link, and whether its line was
   * rewritten.
   */
  method CheckNode(work: LintWork, n: Node) returns (hit: Option<Region>, fixed: bool)
    requires SelfHit(work.resolver, n).Some? && work.fix ==> n.line.Some? && 1 <= n.line.value <= work.contentLines.Length
    modifies work.contentLines
    ensures hit == SelfHit(work.resolver, n)
    ensures hit.None? ==> !fixed && work.contentLines[..] == old(work.contentLines[..])
    ensures hit.Some? ==> (work.contentLines[..], fixed) == BareAttempt(old(work.contentLines[..]), n, work.fix)
  {
    hit := None;
    fixed := false;
    if n.kind != PendingXref || n.line.None? {
      return;
    }
    var region := work.resolver.FindRegion(n.reftype, n.reftarget);
    if region.None? {
      return;
    }
    if region.value.start <= n.line.value <= region.value.endTotal {
      hit := region;
      if work.fix {
        fixed := FixBare(work.contentLines, n);
      }
    }
  }

  /** The self-links of a prefix of the nodes come first among those of
      all the nodes. */
  lemma {:induction false} SelfHitsIsPrefix(resolver: Resolver, ns: seq<Node>, j: nat)
    requires j <= |ns|
    ensures SelfHits(resolver, ns[..j]) <= SelfHits(resolver, ns)
    decreases |ns| - j
  {
    if j == |ns| {
      assert ns[..j] == ns;
    } else {
      var front := ns[..|ns| - 1];
      SelfHitsIsPrefix(resolver, front, j);
      assert front[..j] == ns[..j];
    }
  }

  lemma SelfHitsPrefix(resolver: Resolver, ns: seq<Node>, j: nat, count: nat, fix: bool)
    requires j <= |ns| && HitsFit(SelfHits(resolver, ns), count, fix)
    ensures HitsFit(SelfHits(resolver, ns[..j]), count, fix)
  {
    SelfHitsIsPrefix(resolver, ns, j);
    var p := SelfHits(resolver, ns[..j]);
    assert forall i :: 0 <= i < |p| ==> p[i] == SelfHits(resolver, ns)[i];
  }

  /** The self-links of the whole document. */
  function DocumentHits(work: LintWork): seq<(Node, Region)> {
    SelfHits(work.resolver, Preorder(work.doctree))
  }

  /** One node as written: a self-link is reported and, when fixing, the
      shared flag is set to the outcome of its attempt. */
  method VisitNodeAsWritten(work: LintWork, ref: Node, ghost before: Outcome) returns (found: seq<LintIssue>)
    requires before.lines == work.contentLines[..] && before.fixed == work.fixed
    requires SelfHit(work.resolver, ref).Some? && work.fix ==>
               ref.line.Some? && 1 <= ref.line.value <= work.contentLines.Length
    modifies work, work.contentLines
    ensures var after := Visit(before, work.resolver, ref, work.fix, false);
            && after.lines == work.contentLines[..]
            && after.issues == before.issues + found
            && after.fixed == work.fixed
  {
    var hit, fixed := CheckNode(work, ref);
    found := [];
    if hit.Some? {
      if work.fix {
        work.fixed := fixed;
      }
      found := [LintIssue(ref.line, LegacyMessage(hit.value.kind, ref.reftarget), fixed)];
    }
  }

  /**
   * The self-link check of the older linter as written: walk the pending
   * cross-references, skip those without a line or outside the region
   * their target resolves to, and, when fixing, set the shared flag to the
   * outcome of each attempt.
   */
  method FindSelfLinksAsWritten(work: LintWork) returns (issues: seq<LintIssue>)
    requires HitsFit(DocumentHits(work), work.contentLines.Length, work.fix)
    modifies work, work.contentLines
    ensures var o := LegacySelfLinks(Outcome(old(work.contentLines[..]), [], old(work.fixed)),
                                     DocumentHits(work), work.fix, false);
            && work.contentLines[..] == o.lines && issues == o.issues && work.fixed == o.fixed
  {
    issues := WalkNodesAsWritten(work, Preorder(work.doctree));
  }

  /** The walk of the check over the nodes given, in order. */
  method WalkNodesAsWritten(work: LintWork, nodes: seq<Node>) returns (issues: seq<LintIssue>)
    requires HitsFit(SelfHits(work.resolver, nodes), work.contentLines.Length, work.fix)
    modifies work, work.contentLines
    ensures var o := LegacySelfLinks(Outcome(old(work.contentLines[..]), [], old(work.fixed)),
                                     SelfHits(work.resolver, nodes), work.fix, false);
            && work.contentLines[..] == o.lines && issues == o.issues && work.fixed == o.fixed
  {
    ghost var start := Outcome(work.contentLines[..], [], work.fixed);
    ghost var o := start;
    issues := [];
    assert nodes[..|nodes|] == nodes;
    for k := 0 to |nodes|
      invariant HitsFit(SelfHits(work.resolver, nodes), |start.lines|, work.fix)
      invariant HitsFit(SelfHits(work.resolver, nodes[..k]), |start.lines|, work.fix)
      invariant o == LegacySelfLinks(start, SelfHits(work.resolver, nodes[..k]), work.fix, false)
      invariant o.lines == work.contentLines[..]
      invariant o.issues == issues
      invariant o.fixed == work.fixed
    {
      SelfHitsPrefix(work.resolver, nodes, k + 1, |start.lines|, work.fix);
      VisitSnoc(start, work.resolver, nodes, work.fix, false, k);
      var found := VisitNodeAsWritten(work, nodes[k], o);
      issues := issues + found;
      o := Visit(o, work.resolver, nodes[k], work.fix, false);
    }
  }

  /** One node, with the flag kept once set. */
  method VisitNode(work: LintWork, ref: Node, ghost before: Outcome) returns (found: seq<LintIssue>)
    requires before.lines == work.contentLines[..] && before.fixed == work.fixed
    requires SelfHit(work.resolver, ref).Some? && work.fix ==>
               ref.line.Some? && 1 <= ref.line.value <= work.contentLines.Length
    modifies work, work.contentLines
    ensures var after := Visit(before, work.resolver, ref, work.fix, true);
            && after.lines == work.contentLines[..]
            && after.issues == before.issues + found
            && after.fixed == work.fixed
  {
    var hit, fixed := CheckNode(work, ref);
    found := [];
    if hit.Some? {
      if work.fix {
        work.fixed := work.fixed || fixed;
      }
      found := [LintIssue(ref.line, LegacyMessage(hit.value.kind, ref.reftarget), fixed)];
    }
  }

  /** The same check with the flag kept once set, so that changed lines
      always come with it. */
  method FindSelfLinks(work: LintWork) returns (issues: seq<LintIssue>)
    requires HitsFit(DocumentHits(work), work.contentLines.Length, work.fix)
    modifies work, work.contentLines
    ensures var o := LegacySelfLinks(Outcome(old(work.contentLines[..]), [], old(work.fixed)),
                                     DocumentHits(work), work.fix, true);
            && work.contentLines[..] == o.lines && issues == o.issues && work.fixed == o.fixed
  {
    issues := WalkNodes(work, Preorder(work.doctree));
  }

  /** The walk of the check over the nodes given, in order. */
  method WalkNodes(work: LintWork, nodes: seq<Node>) returns (issues: seq<LintIssue>)
    requires HitsFit(SelfHits(work.resolver, nodes), work.contentLines.Length, work.fix)
    modifies work, work.contentLines
    ensures var o := LegacySelfLinks(Outcome(old(work.contentLines[..]), [], old(work.fixed)),
                                     SelfHits(work.resolver, nodes), work.fix, true);
            && work.contentLines[..] == o.lines && issues == o.issues && work.fixed == o.fixed
  {
    ghost var start := Outcome(work.contentLines[..], [], work.fixed);
    ghost var o := start;
    issues := [];
    assert nodes[..|nodes|] == nodes;
    for k := 0 to |nodes|
      invariant HitsFit(SelfHits(work.resolver, nodes), |start.lines|, work.fix)
      invariant HitsFit(SelfHits(work.resolver, nodes[..k]), |start.lines|, work.fix)
      invariant o == LegacySelfLinks(start, SelfHits(work.resolver, nodes[..k]), work.fix, true)
      invariant o.lines == work.contentLines[..]
      invariant o.issues == issues
      invariant o.fixed == work.fixed
    {
      SelfHitsPrefix(work.resolver, nodes, k + 1, |start.lines|, work.fix);
      VisitSnoc(start, work.resolver, nodes, work.fix, true, k);
      var found := VisitNode(work, nodes[k], o);
      issues := issues + found;
      o := Visit(o, work.resolver, nodes[k], work.fix, true);
    }
  }

  /* The duplicate check and the driver. */

  /** `find_duplicate_refs_in_paragraph`, unchanged from the current linter. */
  method FindDuplicateRefsInParagraph(work: LintWork) returns (issues: seq<LintIssue>)
    ensures issues == DuplicatesIn(OfKind(Preorder(work.doctree), Paragraph))
  {
    issues := ParagraphsDuplicates(OfKind(Preorder(work.doctree), Paragraph));
  }

  /** The self-links of a document. */
  function DoctreeHits(doctree: Node): seq<(Node, Region)>
    requires WellFormed(doctree)
  {
    SelfHits(NewResolver(doctree), Preorder(doctree))
  }

  /** One check run after what `cur` has gathered; `hits` are the
      document's self-links. The self-link check keeps an earlier fix when
      `keepEarlier` holds and overwrites the flag, as written, otherwise. */
  function CheckStep(doctree: Node, hits: seq<(Node, Region)>, cur: Outcome, fix: bool, name: string, keepEarlier: bool): (r: Outcome)
    requires HitsFit(hits, |cur.lines|, fix)
    ensures |r.lines| == |cur.lines|
  {
    match name
    case "self" =>
      var o := LegacySelfLinks(Outcome(cur.lines, [], cur.fixed), hits, fix, keepEarlier);
      Outcome(o.lines, cur.issues + o.issues, o.fixed)
    case "paradup" => Outcome(cur.lines, cur.issues + DuplicatesIn(OfKind(Preorder(doctree), Paragraph)), cur.fixed)
    case _ => cur
  }

  /** The checks named in `checks`, run in that order over shared lines. */
  function LegacyRunChecks(doctree: Node, hits: seq<(Node, Region)>, lines: seq<string>, fix: bool, checks: seq<string>, keepEarlier: bool): (r: Outcome)
    requires HitsFit(hits, |lines|, fix)
    ensures |r.lines| == |lines|
  {
    if checks == [] then Outcome(lines, [], false)
    else CheckStep(doctree, hits, LegacyRunChecks(doctree, hits, lines, fix, checks[..|checks| - 1], keepEarlier), fix, checks[|checks| - 1], keepEarlier)
  }

  /** With fixing off, the lines and the flag are left alone. */
  lemma {:induction false} LegacyRunChecksNoFix(doctree: Node, hits: seq<(Node, Region)>, lines: seq<string>, checks: seq<string>, keepEarlier: bool)
    ensures LegacyRunChecks(doctree, hits, lines, false, checks, keepEarlier).lines == lines
    ensures !LegacyRunChecks(doctree, hits, lines, false, checks, keepEarlier).fixed
  {
    if checks != [] {
      LegacyRunChecksNoFix(doctree, hits, lines, checks[..|checks| - 1], keepEarlier);
      var cur := LegacyRunChecks(doctree, hits, lines, false, checks[..|checks| - 1], keepEarlier);
      LegacySelfLinksNoFix(Outcome(cur.lines, [], cur.fixed), hits, keepEarlier);
    }
  }

  /** Corrected, changed lines always come with the flag set. */
  lemma {:induction false} LegacyRunChecksChangeIsFixed(doctree: Node, hits: seq<(Node, Region)>, lines: seq<string>, fix: bool, checks: seq<string>)
    requires HitsFit(hits, |lines|, fix)
    ensures LegacyRunChecks(doctree, hits, lines, fix, checks, true).lines != lines
            ==> LegacyRunChecks(doctree, hits, lines, fix, checks, true).fixed
  {
    if checks != [] {
      LegacyRunChecksChangeIsFixed(doctree, hits, lines, fix, checks[..|checks| - 1]);
      var cur := LegacyRunChecks(doctree, hits, lines, fix, checks[..|checks| - 1], true);
      CorrectedChangeIsFixed(Outcome(cur.lines, [], cur.fixed), hits, fix);
      CorrectedKeepsFlag(Outcome(cur.lines, [], cur.fixed), hits, fix);
    }
  }

  /** The corrected check never clears the flag. */
  lemma {:induction false} CorrectedKeepsFlag(start: Outcome, hits: seq<(Node, Region)>, fix: bool)
    requires HitsFit(hits, |start.lines|, fix)
    ensures start.fixed ==> LegacySelfLinks(start, hits, fix, true).fixed
  {
    if hits != [] {
      CorrectedKeepsFlag(start, hits[..|hits| - 1], fix);
    }
  }

  /** As written, when the self-link check runs last and finds a self-link,
      the flag the run reports is the outcome of its last attempt alone. */
  lemma AsWrittenRunFlagIsLast(doctree: Node, hits: seq<(Node, Region)>, lines: seq<string>, checks: seq<string>)
    requires HitsFit(hits, |lines|, true)
    requires hits != [] && checks != [] && checks[|checks| - 1] == "self"
    ensures var o := LegacyRunChecks(doctree, hits, lines, true, checks, false);
            o.issues != [] && o.fixed == o.issues[|o.issues| - 1].fixed
  {
    var cur := LegacyRunChecks(doctree, hits, lines, true, checks[..|checks| - 1], false);
    var start := Outcome(cur.lines, [], cur.fixed);
    LegacySelfLinksIssues(start, hits, true, false);
    AsWrittenFlagIsLast(start, hits);
  }

  /** Runs the check named `name` on the shared state. */
  method RunCheck(work: LintWork, name: string, keepEarlier: bool, ghost cur: Outcome) returns (found: seq<LintIssue>)
    requires name in CheckNames
    requires cur.lines == work.contentLines[..] && cur.fixed == work.fixed
    requires HitsFit(DocumentHits(work), |cur.lines|, work.fix)
    modifies work, work.contentLines
    ensures var after := CheckStep(work.doctree, DocumentHits(work), cur, work.fix, name, keepEarlier);
            && after.lines == work.contentLines[..]
            && after.issues == cur.issues + found
            && after.fixed == work.fixed
  {
    ghost var hits := DocumentHits(work);
    if name == "self" {
      ghost var o := LegacySelfLinks(Outcome(cur.lines, [], cur.fixed), hits, work.fix, keepEarlier);
      assert CheckStep(work.doctree, hits, cur, work.fix, name, keepEarlier) == Outcome(o.lines, cur.issues + o.issues, o.fixed);
      if keepEarlier {
        found := FindSelfLinks(work);
      } else {
        found := FindSelfLinksAsWritten(work);
      }
    } else {
      found := FindDuplicateRefsInParagraph(work);
      assert CheckStep(work.doctree, hits, cur, work.fix, name, keepEarlier) == Outcome(cur.lines, cur.issues + found, cur.fixed);
    }
  }

  /** Runs the checks in the order given on the shared state. */
  method RunAll(work: LintWork, checks: seq<string>, keepEarlier: bool) returns (issues: seq<LintIssue>)
    requires forall i :: 0 <= i < |checks| ==> checks[i] in CheckNames
    requires HitsFit(DocumentHits(work), work.contentLines.Length, work.fix)
    requires !work.fixed
    modifies work, work.contentLines
    ensures var o := LegacyRunChecks(work.doctree, DocumentHits(work), old(work.contentLines[..]), work.fix, checks, keepEarlier);
            && o.lines == work.contentLines[..] && o.issues == issues && o.fixed == work.fixed
  {
    ghost var lines := work.contentLines[..];
    ghost var hits := DocumentHits(work);
    issues := [];
    ghost var o := Outcome(lines, [], false);
    for c := 0 to |checks|
      invariant o == LegacyRunChecks(work.doctree, hits, lines, work.fix, checks[..c], keepEarlier)
      invariant o.lines == work.contentLines[..]
      invariant o.issues == issues
      invariant o.fixed == work.fixed
    {
      assert checks[..c + 1][..c] == checks[..c];
      var found := RunCheck(work, checks[c], keepEarlier, o);
      issues := issues + found;
      o := CheckStep(work.doctree, hits, o, work.fix, checks[c], keepEarlier);
    }
    assert checks[..|checks|] == checks;
  }

  /**
   * The older `lint_content`, given the parsed document: split the text
   * into lines, build the shared state with the document's resolver, run
   * the checks in the order given, with the self-link check as written,
   * and join the lines back.
   */
  method LintContent(content: string, doctree: Node, fix: bool, checks: seq<string>) returns (result: LintResult)
    requires WellFormed(doctree)
    requires forall i :: 0 <= i < |checks| ==> checks[i] in CheckNames
    requires HitsFit(DoctreeHits(doctree), |SplitLines(content)|, fix)
    ensures var o := LegacyRunChecks(doctree, DoctreeHits(doctree), SplitLines(content), fix, checks, false);
            result == LintResult(Join(o.lines), o.issues, o.fixed)
    ensures !fix ==> result.content == content && !result.fixed
  {
    result := LintWith(content, doctree, fix, checks, false);
    LegacyLintOutcome(content, doctree, fix, checks, false);
  }

  /** `LintContent` with the corrected self-link check: a text that comes
      back changed was also reported fixed. */
  method CorrectedLintContent(content: string, doctree: Node, fix: bool, checks: seq<string>) returns (result: LintResult)
    requires WellFormed(doctree)
    requires forall i :: 0 <= i < |checks| ==> checks[i] in CheckNames
    requires HitsFit(DoctreeHits(doctree), |SplitLines(content)|, fix)
    ensures var o := LegacyRunChecks(doctree, DoctreeHits(doctree), SplitLines(content), fix, checks, true);
            result == LintResult(Join(o.lines), o.issues, o.fixed)
    ensures !fix ==> result.content == content && !result.fixed
    ensures result.content != content ==> result.fixed
  {
    result := LintWith(content, doctree, fix, checks, true);
    LegacyLintOutcome(content, doctree, fix, checks, true);
  }

  /** The body shared by both drivers. */
  method LintWith(content: string, doctree: Node, fix: bool, checks: seq<string>, keepEarlier: bool) returns (result: LintResult)
    requires WellFormed(doctree)
    requires forall i :: 0 <= i < |checks| ==> checks[i] in CheckNames
    requires HitsFit(DoctreeHits(doctree), |SplitLines(content)|, fix)
    ensures var o := LegacyRunChecks(doctree, DoctreeHits(doctree), SplitLines(content), fix, checks, keepEarlier);
            result == LintResult(Join(o.lines), o.issues, o.fixed)
  {
    var lines := SplitLines(content);
    var contentLines := LinesArray(lines);
    var work := new LintWork(doctree, contentLines, fix);
    assert DocumentHits(work) == DoctreeHits(doctree);
    var issues := RunAll(work, checks, keepEarlier);
    result := LintResult(Join(contentLines[..]), issues, work.fixed);
  }

  /** Without fixing, the older checks give the text back exactly and
      report nothing fixed; with the corrected self-link check, a text
      that comes back changed was fixed. */
  lemma LegacyLintOutcome(content: string, doctree: Node, fix: bool, checks: seq<string>, keepEarlier: bool)
    requires WellFormed(doctree)
    requires HitsFit(DoctreeHits(doctree), |SplitLines(content)|, fix)
    ensures var o := LegacyRunChecks(doctree, DoctreeHits(doctree), SplitLines(content), fix, checks, keepEarlier);
            && (!fix ==> Join(o.lines) == content && !o.fixed)
            && (keepEarlier && Join(o.lines) != content ==> o.fixed)
  {
    var lines := SplitLines(content);
    JoinSplitLines(content);
    if !fix {
      LegacyRunChecksNoFix(doctree, DoctreeHits(doctree), lines, checks, keepEarlier);
    }
    if keepEarlier {
      LegacyRunChecksChangeIsFixed(doctree, DoctreeHits(doctree), lines, fix, checks);
    }
  }

  /**
   * As written, the older linter can return a changed text with the flag
   * clear, so the caller does not write it back. `LintContent` runs the
   * checks over the document's self-links; when those are `:mod:`dbm`` on
   * lines 1 and 3 of a text with these lines (`ExampleSplit` gives one),
   * line 1 is fixed and the failed attempt on line 3 clears the flag.
   */
  lemma AsWrittenLintLosesFix(doctree: Node, hits: seq<(Node, Region)>, region: Region, content: string)
    requires hits == [(XrefAt("mod", "dbm", 1), region), (XrefAt("mod", "dbm", 3), region)]
    requires SplitLines(content) == [":mod:`dbm` is\n", "\n", "plain\n"]
    ensures && HitsFit(hits, |SplitLines(content)|, true)
            && var o := LegacyRunChecks(doctree, hits, SplitLines(content), true, ["self"], false);
               Join(o.lines) != content && !o.fixed
  {
    var lines := SplitLines(content);
    AsWrittenLosesEarlierFix(region);
    SelfOnly(doctree, hits, lines, true, false);
    var o := LegacyRunChecks(doctree, hits, lines, true, ["self"], false);
    JoinStartsWith(o.lines);
    JoinStartsWith(lines);
    JoinSplitLines(content);
    ExampleDiffers(Join(o.lines), content);
  }

  /** Running the self-link check alone. */
  lemma SelfOnly(doctree: Node, hits: seq<(Node, Region)>, lines: seq<string>, fix: bool, keepEarlier: bool)
    requires HitsFit(hits, |lines|, fix)
    ensures LegacyRunChecks(doctree, hits, lines, fix, ["self"], keepEarlier)
            == LegacySelfLinks(Outcome(lines, [], false), hits, fix, keepEarlier)
  {
    assert ["self"][..0] == [];
  }

  lemma ExampleDiffers(t: string, content: string)
    requires |t| >= 15 && t[..15] == ":mod:`!dbm` is\n"
    requires |content| >= 14 && content[..14] == ":mod:`dbm` is\n"
    ensures t != content
  {
    assert t[6] == '!';
  }
}
