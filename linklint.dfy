/**
 * The linter proper (`src/linklint/linklint.py`): the self-link check,
 * which finds references to the entity whose documentation they sit in and
 * can rewrite them so that they no longer link; the duplicate check, which
 * finds a reference repeated within one paragraph; and the driver that runs
 * the checks over a document's lines.
 */
module Linklint {
  import opened Wrappers
  import opened Strings
  import opened Doctree
  import opened Regions
  import opened Resolution
  import opened RefFixes
  import opened RstHelp

  /** One finding: its line (absent when the node had none), its message and
      whether it was fixed. */
  datatype LintIssue = LintIssue(line: Option<int>, message: string, fixed: bool)

  /** What the checks share: the document, its lines (which a fix rewrites
      in place), whether to fix, and whether anything was fixed. */
  class LintWork {
    const doctree: Node
    const contentLines: array<string>
    const fix: bool
    var fixed: bool

    constructor (doctree: Node, contentLines: array<string>, fix: bool)
      ensures this.doctree == doctree && this.contentLines == contentLines
      ensures this.fix == fix && !this.fixed
    {
      this.doctree := doctree;
      this.contentLines := contentLines;
      this.fix := fix;
      this.fixed := false;
    }
  }

  /** The lines of a text as a fresh mutable list. */
  method LinesArray(lines: seq<string>) returns (a: array<string>)
    ensures fresh(a) && a[..] == lines
  {
    a := new string[|lines|](i requires 0 <= i < |lines| => lines[i]);
  }

  /* Finding self-references. */

  /** A cross-reference (`pending_xref`) or a plain reference node. */
  predicate IsRef(n: Node) {
    n.kind == PendingXref || n.kind == Reference
  }

  /** A reference with a line that resolves to a region containing that
      line (from its start to its total end). */
  predicate IsSelfRef(resolver: Resolver, ref: Node) {
    && IsRef(ref)
    && ref.line.Some?
    && match resolver.FindRegion(ref.reftype, ref.reftarget)
       case None => false
       case Some(region) => region.start <= ref.line.value <= region.endTotal
  }

  /** The self-references among `ns`, in order. */
  function SelfRefsIn(resolver: Resolver, ns: seq<Node>): (r: seq<Node>)
    ensures |r| <= |ns|
  {
    if ns == [] then []
    else SelfRefsIn(resolver, ns[..|ns| - 1]) + (if IsSelfRef(resolver, ns[|ns| - 1]) then [ns[|ns| - 1]] else [])
  }

  /** Exactly the self-references of `ns` are kept. */
  lemma {:induction false} SelfRefsInMembers(resolver: Resolver, ns: seq<Node>, x: Node)
    ensures x in SelfRefsIn(resolver, ns) <==> x in ns && IsSelfRef(resolver, x)
  {
    if ns != [] {
      var front, last := ns[..|ns| - 1], ns[|ns| - 1];
      SelfRefsInMembers(resolver, front, x);
      assert x in ns <==> x in front || x == last by {
        assert ns == front + [last];
      }
    }
  }

  /** `find_self_refs`: the self-references of a document in pre-order. */
  function FindSelfRefs(doctree: Node): seq<Node>
    requires WellFormed(doctree)
  {
    SelfRefsIn(NewResolver(doctree), Preorder(doctree))
  }

  /** A reference before the start of the region it names is not a
      self-reference, nor is one past the region's end. */
  lemma OutsideRegionNotFlagged(doctree: Node, ref: Node, region: Region)
    requires WellFormed(doctree)
    requires NewResolver(doctree).FindRegion(ref.reftype, ref.reftarget) == Some(region)
    requires ref.line.Some? && (ref.line.value < region.start || ref.line.value > region.endTotal)
    ensures ref !in FindSelfRefs(doctree)
  {
    SelfRefsInMembers(NewResolver(doctree), Preorder(doctree), ref);
  }

  /* Fixing self-links. */

  /** The message of a self-link issue. */
  function SelfLinkMessage(role: string, target: string): string {
    "self-link to :" + role + ":`" + target + "`"
  }

  /**
   * The rewrite patterns tried in order on line `n`: the first that changes
   * the line is applied (with its header neighbours resized); the result
   * says whether one did.
   */
  function TryFixes(lines: seq<string>, n: nat, role: string, target: string, pats: seq<Pattern>): (r: (seq<string>, bool))
    requires n < |lines|
    ensures |r.0| == |lines|
    ensures !r.1 ==> r.0 == lines
  {
    if pats == [] then (lines, false)
    else
      var newLine := Fix(pats[0], lines[n], role, target);
      if newLine != lines[n] then (Replaced(lines, n, newLine), true)
      else TryFixes(lines, n, role, target, pats[1..])
  }

  /**
   * A self-link is fixed exactly when one of the two patterns matches
   * somewhere in its line; the bare form wins when both do.
   */
  lemma TryFixesSpec(lines: seq<string>, n: nat, role: string, target: string)
    requires n < |lines|
    ensures var r := TryFixes(lines, n, role, target, RefFixPatterns);
            && (r.1 <==> exists p :: 0 <= p <= |lines[n]| &&
                           (MatchAt(Bare, lines[n], p, role, target).Some? ||
                            MatchAt(Display, lines[n], p, role, target).Some?))
            && (Fix(Bare, lines[n], role, target) != lines[n] ==>
                  r.0 == Replaced(lines, n, Fix(Bare, lines[n], role, target)))
            && (Fix(Bare, lines[n], role, target) == lines[n] && r.1 ==>
                  r.0 == Replaced(lines, n, Fix(Display, lines[n], role, target)))
  {
    FixChangesIffMatch(Bare, lines[n], role, target);
    FixChangesIffMatch(Display, lines[n], role, target);
    var rest := RefFixPatterns[1..];
    assert RefFixPatterns[0] == Bare && rest[0] == Display && rest[1..] == [];
    assert TryFixes(lines, n, role, target, rest[1..]) == (lines, false);
    if Fix(Bare, lines[n], role, target) == lines[n] {
      assert TryFixes(lines, n, role, target, RefFixPatterns) == TryFixes(lines, n, role, target, rest);
    }
  }

  /** The lines, issues and fixed flag the self-link check has produced. */
  datatype Outcome = Outcome(lines: seq<string>, issues: seq<LintIssue>, fixed: bool)

  /** When fixing, every reference has a line inside the document. */
  predicate LinesFit(refs: seq<Node>, count: nat, fix: bool) {
    fix ==> forall i :: 0 <= i < |refs| ==> refs[i].line.Some? && 1 <= refs[i].line.value <= count
  }

  /** What fixing one self-reference does to the lines, and whether it took. */
  function Attempt(lines: seq<string>, ref: Node, fix: bool): (r: (seq<string>, bool))
    requires fix ==> ref.line.Some? && 1 <= ref.line.value <= |lines|
    ensures |r.0| == |lines|
  {
    if fix then TryFixes(lines, ref.line.value - 1, ref.reftype, ref.reftarget, RefFixPatterns)
    else (lines, false)
  }

  /** One self-reference: try the fixes when fixing, and report it. */
  function SelfLinkStep(o: Outcome, ref: Node, fix: bool): (r: Outcome)
    requires fix ==> ref.line.Some? && 1 <= ref.line.value <= |o.lines|
    ensures |r.lines| == |o.lines|
  {
    var tried := Attempt(o.lines, ref, fix);
    Outcome(tried.0, o.issues + [LintIssue(ref.line, SelfLinkMessage(ref.reftype, ref.reftarget), tried.1)],
            o.fixed || tried.1)
  }

  /** The self-link check over `refs`, starting from `start`. */
  function SelfLinks(start: Outcome, refs: seq<Node>, fix: bool): (r: Outcome)
    requires LinesFit(refs, |start.lines|, fix)
    ensures |r.lines| == |start.lines|
  {
    if refs == [] then start
    else
      var front := SelfLinks(start, refs[..|refs| - 1], fix);
      SelfLinkStep(front, refs[|refs| - 1], fix)
  }

  /** Every self-reference has a line. */
  lemma SelfRefsHaveLines(resolver: Resolver, ns: seq<Node>)
    ensures forall i :: 0 <= i < |SelfRefsIn(resolver, ns)| ==> SelfRefsIn(resolver, ns)[i].line.Some?
  {
    var r := SelfRefsIn(resolver, ns);
    forall i | 0 <= i < |r| ensures r[i].line.Some? {
      SelfRefsInMembers(resolver, ns, r[i]);
    }
  }

  /** With fixing off, the lines and the fixed flag are left alone and no
      issue is marked fixed. */
  lemma {:induction false} SelfLinksNoFix(start: Outcome, refs: seq<Node>)
    requires LinesFit(refs, |start.lines|, false)
    ensures var r := SelfLinks(start, refs, false);
            && r.lines == start.lines && r.fixed == start.fixed
            && forall i :: |start.issues| <= i < |r.issues| ==> !r.issues[i].fixed
  {
    if refs != [] {
      SelfLinksNoFix(start, refs[..|refs| - 1]);
      SelfLinksIssues(start, refs[..|refs| - 1], false);
    }
  }

  /** One issue per self-reference, in order, with that reference's line
      and message; the issues before are kept. */
  lemma {:induction false} SelfLinksIssues(start: Outcome, refs: seq<Node>, fix: bool)
    requires LinesFit(refs, |start.lines|, fix)
    ensures var r := SelfLinks(start, refs, fix);
            && |r.issues| == |start.issues| + |refs|
            && r.issues[..|start.issues|] == start.issues
            && forall i :: 0 <= i < |refs| ==>
                 r.issues[|start.issues| + i].line == refs[i].line &&
                 r.issues[|start.issues| + i].message == SelfLinkMessage(refs[i].reftype, refs[i].reftarget)
  {
    if refs != [] {
      var front := refs[..|refs| - 1];
      SelfLinksIssues(start, front, fix);
      var f := SelfLinks(start, front, fix);
      var r := SelfLinks(start, refs, fix);
      assert r.issues[..|f.issues|] == f.issues;
      forall i | 0 <= i < |refs|
        ensures r.issues[|start.issues| + i].line == refs[i].line
        ensures r.issues[|start.issues| + i].message == SelfLinkMessage(refs[i].reftype, refs[i].reftarget)
      {
        if i < |front| {
          assert refs[i] == front[i];
          assert r.issues[|start.issues| + i] == f.issues[|start.issues| + i];
        }
      }
    }
  }

  /** The check's fixed flag is the flag it started with or'ed with the
      fixed flags of its issues: once true, it stays true. */
  lemma {:induction false} SelfLinksFixedIsAny(start: Outcome, refs: seq<Node>, fix: bool)
    requires LinesFit(refs, |start.lines|, fix)
    ensures var r := SelfLinks(start, refs, fix);
            r.fixed <==> start.fixed || exists i :: |start.issues| <= i < |r.issues| && r.issues[i].fixed
  {
    if refs != [] {
      var front := refs[..|refs| - 1];
      SelfLinksFixedIsAny(start, front, fix);
      SelfLinksIssues(start, front, fix);
      var f := SelfLinks(start, front, fix);
      var r := SelfLinks(start, refs, fix);
      assert r.issues == f.issues + [r.issues[|f.issues|]];
      if exists i :: |start.issues| <= i < |f.issues| && f.issues[i].fixed {
        var i :| |start.issues| <= i < |f.issues| && f.issues[i].fixed;
        assert r.issues[i] == f.issues[i];
      }
      if exists i :: |start.issues| <= i < |r.issues| && r.issues[i].fixed {
        var i :| |start.issues| <= i < |r.issues| && r.issues[i].fixed;
        if i < |f.issues| {
          assert f.issues[i] == r.issues[i];
        }
      }
    }
  }

  /** Lines change only through a fix that took, so changed lines always
      come with the fixed flag set (and the file gets written). */
  lemma {:induction false} SelfLinksChangeIsFixed(start: Outcome, refs: seq<Node>, fix: bool)
    requires LinesFit(refs, |start.lines|, fix)
    ensures SelfLinks(start, refs, fix).lines != start.lines ==> SelfLinks(start, refs, fix).fixed
  {
    if refs != [] {
      SelfLinksChangeIsFixed(start, refs[..|refs| - 1], fix);
    }
  }

  /** The patterns of `find_self_links` tried on line `n` in place, with
      `resub_in_rst_line` and one occurrence each, stopping at the first
      that changes the line. */
  method TryFixesInPlace(lines: array<string>, n: nat, role: string, target: string) returns (fixed: bool)
    requires n < lines.Length
    modifies lines
    ensures (lines[..], fixed) == TryFixes(old(lines[..]), n, role, target, RefFixPatterns)
  {
    ghost var before := lines[..];
    fixed := false;
    var p := 0;
    while p < |RefFixPatterns|
      invariant 0 <= p <= |RefFixPatterns|
      invariant lines[..] == before
      invariant TryFixes(before, n, role, target, RefFixPatterns)
                == TryFixes(before, n, role, target, RefFixPatterns[p..])
    {
      var pat := RefFixPatterns[p];
      fixed := ResubInRstLine(lines, n, l => Fix(pat, l, role, target));
      if fixed {
        return;
      }
      assert RefFixPatterns[p..][1..] == RefFixPatterns[p + 1..];
      p := p + 1;
    }
  }

  /** The check over one more reference is one more step. */
  lemma SelfLinksSnoc(start: Outcome, refs: seq<Node>, fix: bool, k: nat)
    requires LinesFit(refs, |start.lines|, fix) && k < |refs|
    ensures LinesFit(refs[..k], |start.lines|, fix) && LinesFit(refs[..k + 1], |start.lines|, fix)
    ensures SelfLinks(start, refs[..k + 1], fix) == SelfLinkStep(SelfLinks(start, refs[..k], fix), refs[k], fix)
  {
    assert refs[..k + 1][..k] == refs[..k];
  }

  /** The fixing part of `find_self_links` for one self-reference. */
  method FixSelfLink(work: LintWork, ref: Node) returns (fixed: bool)
    requires work.fix ==> ref.line.Some? && 1 <= ref.line.value <= work.contentLines.Length
    modifies work, work.contentLines
    ensures work.contentLines[..] == Attempt(old(work.contentLines[..]), ref, work.fix).0
    ensures fixed == Attempt(old(work.contentLines[..]), ref, work.fix).1
    ensures work.fixed == (old(work.fixed) || fixed)
  {
    fixed := false;
    if work.fix {
      ghost var before := work.contentLines[..];
      fixed := TryFixesInPlace(work.contentLines, ref.line.value - 1, ref.reftype, ref.reftarget);
      ghost var after := work.contentLines[..];
      assert (after, fixed) == Attempt(before, ref, true);
      work.fixed := work.fixed || fixed;
      assert work.contentLines[..] == after;
    }
  }

  /** `find_self_links`: report every self-reference and, when fixing, try
      to rewrite it in the lines so that it no longer links. */
  method FindSelfLinks(work: LintWork) returns (issues: seq<LintIssue>)
    requires WellFormed(work.doctree)
    requires LinesFit(FindSelfRefs(work.doctree), work.contentLines.Length, work.fix)
    modifies work, work.contentLines
    ensures var o := SelfLinks(Outcome(old(work.contentLines[..]), [], false), FindSelfRefs(work.doctree), work.fix);
            && work.contentLines[..] == o.lines && issues == o.issues
            && work.fixed == (old(work.fixed) || o.fixed)
  {
    var refs := FindSelfRefs(work.doctree);
    ghost var start := Outcome(work.contentLines[..], [], false);
    ghost var o := start;
    issues := [];
    assert refs[..0] == [];
    for k := 0 to |refs|
      invariant LinesFit(refs[..k], |start.lines|, work.fix)
      invariant o == SelfLinks(start, refs[..k], work.fix)
      invariant o.lines == work.contentLines[..] && o.issues == issues
      invariant work.fixed == (old(work.fixed) || o.fixed)
    {
      var ref := refs[k];
      SelfLinksSnoc(start, refs, work.fix, k);
      ghost var tried := Attempt(o.lines, ref, work.fix);
      var fixed := FixSelfLink(work, ref);
      assert fixed == tried.1 && work.contentLines[..] == tried.0;
      issues := issues + [LintIssue(ref.line, SelfLinkMessage(ref.reftype, ref.reftarget), fixed)];
      o := SelfLinkStep(o, ref, work.fix);
      assert o.issues == issues;
    }
    assert refs[..|refs|] == refs;
  }

  /* Duplicate references within a paragraph. */

  type RefKey = (string, string)

  function RefKeyOf(ref: Node): RefKey {
    (ref.reftype, ref.reftarget)
  }

  /** Only references with both a role and a target are grouped. */
  predicate Keyed(ref: Node) {
    ref.reftype != "" && ref.reftarget != ""
  }

  /** The grouped references with key `k`, in document order. */
  function WithKey(refs: seq<Node>, k: RefKey): seq<Node> {
    if refs == [] then []
    else
      var last := refs[|refs| - 1];
      WithKey(refs[..|refs| - 1], k) + (if Keyed(last) && RefKeyOf(last) == k then [last] else [])
  }

  /** `refs_by_target`: the keys in first-appearance order (a dict keeps
      insertion order) and each key's references. */
  datatype Groups = Groups(order: seq<RefKey>, members: map<RefKey, seq<Node>>)

  /** Adding one reference to the groups. */
  function AddRef(g: Groups, ref: Node): Groups {
    if !Keyed(ref) then g
    else
      var k := RefKeyOf(ref);
      if k in g.members then Groups(g.order, g.members[k := g.members[k] + [ref]])
      else Groups(g.order + [k], g.members[k := [ref]])
  }

  function Grouped(refs: seq<Node>): Groups {
    if refs == [] then Groups([], map[]) else AddRef(Grouped(refs[..|refs| - 1]), refs[|refs| - 1])
  }

  /** The groups are well kept: a key is listed once, exactly when it has a
      group, and its group holds the references with that key. */
  ghost predicate GroupsOf(g: Groups, refs: seq<Node>) {
    && (forall k :: k in g.members <==> k in g.order)
    && (forall i, j :: 0 <= i < j < |g.order| ==> g.order[i] != g.order[j])
    && (forall k :: k in g.members ==> g.members[k] == WithKey(refs, k))
    && (forall k :: k !in g.members ==> WithKey(refs, k) == [])
  }

  /** `ref` is grouped under `k`. */
  predicate HasKey(ref: Node, k: RefKey) {
    Keyed(ref) && RefKeyOf(ref) == k
  }

  /** The position of the first reference grouped under `k`, or `|refs|`
      when there is none. */
  function FirstAt(refs: seq<Node>, k: RefKey): (r: nat)
    ensures r <= |refs|
    ensures r < |refs| ==> HasKey(refs[r], k)
    ensures forall i :: 0 <= i < r ==> !HasKey(refs[i], k)
  {
    if refs == [] then 0
    else if HasKey(refs[0], k) then 0
    else
      var r := 1 + FirstAt(refs[1..], k);
      assert forall i :: 1 <= i < r ==> refs[i] == refs[1..][i - 1];
      r
  }

  /** A key has no references exactly when no reference is grouped under it. */
  lemma {:induction false} WithKeyEmpty(refs: seq<Node>, k: RefKey)
    ensures WithKey(refs, k) == [] <==> forall i :: 0 <= i < |refs| ==> !HasKey(refs[i], k)
  {
    if refs != [] {
      var front := refs[..|refs| - 1];
      WithKeyEmpty(front, k);
      assert forall i :: 0 <= i < |front| ==> front[i] == refs[i];
    }
  }

  /** Appending a reference moves no key's first position, except that a
      key first seen in it is first seen there. */
  lemma FirstAtSnoc(refs: seq<Node>, r: Node, k: RefKey)
    ensures FirstAt(refs + [r], k)
            == if FirstAt(refs, k) < |refs| || HasKey(r, k) then FirstAt(refs, k) else |refs| + 1
  {
    var s := refs + [r];
    assert forall i :: 0 <= i < |refs| ==> s[i] == refs[i];
    if FirstAt(refs, k) < |refs| {
      assert HasKey(s[FirstAt(refs, k)], k);
    } else if HasKey(r, k) {
      assert s[|refs|] == r;
    }
  }

  /** The groups `Grouped` builds are the references' groups. */
  lemma {:induction false} GroupedKeepsRefs(refs: seq<Node>)
    ensures GroupsOf(Grouped(refs), refs)
  {
    if refs != [] {
      var front, last := refs[..|refs| - 1], refs[|refs| - 1];
      GroupedKeepsRefs(front);
      var g := Grouped(front);
      var h := Grouped(refs);
      assert h == AddRef(g, last);
      forall k ensures WithKey(refs, k) == WithKey(front, k) + (if Keyed(last) && RefKeyOf(last) == k then [last] else []) {
      }
      if Keyed(last) && RefKeyOf(last) !in g.members {
        forall i, j | 0 <= i < j < |h.order| ensures h.order[i] != h.order[j] {
          if j == |g.order| {
            assert h.order[i] == g.order[i];
          }
        }
      }
    }
  }

  /** Keys that already occur keep their first positions when a reference
      is appended. */
  lemma FirstAtKept(refs: seq<Node>, r: Node, keys: seq<RefKey>)
    requires forall i :: 0 <= i < |keys| ==> FirstAt(refs, keys[i]) < |refs|
    ensures forall i :: 0 <= i < |keys| ==> FirstAt(refs + [r], keys[i]) == FirstAt(refs, keys[i])
  {
    forall i | 0 <= i < |keys| ensures FirstAt(refs + [r], keys[i]) == FirstAt(refs, keys[i]) {
      FirstAtSnoc(refs, r, keys[i]);
    }
  }

  /** Every listed key occurs, and the keys are listed in the order their
      first references come in. */
  lemma {:induction false} GroupedOrder(refs: seq<Node>)
    ensures forall i :: 0 <= i < |Grouped(refs).order| ==> FirstAt(refs, Grouped(refs).order[i]) < |refs|
    ensures forall i, j :: 0 <= i < j < |Grouped(refs).order| ==>
              FirstAt(refs, Grouped(refs).order[i]) < FirstAt(refs, Grouped(refs).order[j])
  {
    if refs != [] {
      var front, last := refs[..|refs| - 1], refs[|refs| - 1];
      GroupedOrder(front);
      var order := Grouped(front).order;
      FirstAtKept(front, last, order);
      assert front + [last] == refs;
      if Keyed(last) && RefKeyOf(last) !in Grouped(front).members {
        var k := RefKeyOf(last);
        GroupedKeepsRefs(front);
        WithKeyEmpty(front, k);
        FirstAtSnoc(front, last, k);
        assert Grouped(refs).order == order + [k];
      } else {
        assert Grouped(refs).order == order;
      }
    }
  }

  /**
   * `refs_by_target` holds the references' groups, and lists its keys in
   * the order their first references come in (a dict keeps insertion
   * order).
   */
  lemma GroupedSpec(refs: seq<Node>)
    ensures GroupsOf(Grouped(refs), refs)
    ensures forall i, j :: 0 <= i < j < |Grouped(refs).order| ==>
              FirstAt(refs, Grouped(refs).order[i]) < FirstAt(refs, Grouped(refs).order[j])
  {
    GroupedKeepsRefs(refs);
    GroupedOrder(refs);
  }

  function DuplicateMessage(k: RefKey): string {
    "duplicate :" + k.0 + ":`" + k.1 + "` in paragraph"
  }

  /** An unfixed issue for each of `later`. */
  function Reports(k: RefKey, later: seq<Node>): (r: seq<LintIssue>)
    ensures |r| == |later|
    ensures forall i :: 0 <= i < |r| ==> r[i] == LintIssue(later[i].line, DuplicateMessage(k), false)
  {
    if later == [] then [] else Reports(k, later[..|later| - 1]) + [LintIssue(later[|later| - 1].line, DuplicateMessage(k), false)]
  }

  /** The issues of the groups of `keys`, key by key. */
  function Emitted(g: Groups, keys: seq<RefKey>): seq<LintIssue>
    requires forall k :: k in keys ==> k in g.members
  {
    if keys == [] then []
    else
      var k := keys[|keys| - 1];
      var rs := g.members[k];
      Emitted(g, keys[..|keys| - 1]) + (if |rs| > 1 then Reports(k, rs[1..]) else [])
  }

  /** Reference: for each key, every occurrence after its first is
      reported, and the first never is. */
  function LaterOccurrences(refs: seq<Node>, keys: seq<RefKey>): seq<LintIssue> {
    if keys == [] then []
    else
      var k := keys[|keys| - 1];
      var rs := WithKey(refs, k);
      LaterOccurrences(refs, keys[..|keys| - 1]) + (if rs == [] then [] else Reports(k, rs[1..]))
  }

  lemma {:induction false} EmittedIsLaterOccurrences(refs: seq<Node>, keys: seq<RefKey>)
    requires GroupsOf(Grouped(refs), refs)
    requires forall k :: k in keys ==> k in Grouped(refs).members
    ensures Emitted(Grouped(refs), keys) == LaterOccurrences(refs, keys)
  {
    if keys != [] {
      var k := keys[|keys| - 1];
      EmittedIsLaterOccurrences(refs, keys[..|keys| - 1]);
      var rs := WithKey(refs, k);
      assert Grouped(refs).members[k] == rs;
      if |rs| == 1 {
        assert rs[1..] == [];
      }
    }
  }

  /** The issues of one paragraph's references. */
  function ParagraphIssues(refs: seq<Node>): seq<LintIssue> {
    var g := Grouped(refs);
    GroupedSpec(refs);
    Emitted(g, g.order)
  }

  /** A paragraph whose grouped references all differ reports nothing. */
  lemma NoRepeatNoIssue(refs: seq<Node>)
    requires forall i, j :: 0 <= i < j < |refs| && Keyed(refs[i]) ==> RefKeyOf(refs[i]) != RefKeyOf(refs[j])
    ensures ParagraphIssues(refs) == []
  {
    var g := Grouped(refs);
    GroupedSpec(refs);
    forall k | k in g.order ensures |WithKey(refs, k)| <= 1 {
      WithKeyAtMostOnce(refs, k);
    }
    EmittedEmpty(g, g.order, refs);
  }

  lemma {:induction false} WithKeyAtMostOnce(refs: seq<Node>, k: RefKey)
    requires forall i, j :: 0 <= i < j < |refs| && Keyed(refs[i]) ==> RefKeyOf(refs[i]) != RefKeyOf(refs[j])
    ensures |WithKey(refs, k)| <= 1
    ensures WithKey(refs, k) != [] ==> exists i :: 0 <= i < |refs| && Keyed(refs[i]) && RefKeyOf(refs[i]) == k
  {
    if refs != [] {
      var front, last := refs[..|refs| - 1], refs[|refs| - 1];
      WithKeyAtMostOnce(front, k);
      if WithKey(front, k) != [] {
        var i :| 0 <= i < |front| && Keyed(front[i]) && RefKeyOf(front[i]) == k;
        assert refs[i] == front[i];
        assert RefKeyOf(refs[i]) != RefKeyOf(refs[|refs| - 1]);
      }
    }
  }

  lemma {:induction false} EmittedEmpty(g: Groups, keys: seq<RefKey>, refs: seq<Node>)
    requires GroupsOf(g, refs)
    requires forall k :: k in keys ==> k in g.members && |WithKey(refs, k)| <= 1
    ensures Emitted(g, keys) == []
  {
    if keys != [] {
      EmittedEmpty(g, keys[..|keys| - 1], refs);
    }
  }

  /** The cross-references of a paragraph, in pre-order. */
  function ParagraphRefs(para: Node): seq<Node> {
    OfKind(Preorder(para), PendingXref)
  }

  /** The grouping loop of the duplicate check (`refs_by_target`). */
  method GroupRefs(refs: seq<Node>) returns (order: seq<RefKey>, members: map<RefKey, seq<Node>>)
    ensures Groups(order, members) == Grouped(refs)
  {
    order := [];
    members := map[];
    for i := 0 to |refs|
      invariant Groups(order, members) == Grouped(refs[..i])
    {
      assert refs[..i + 1][..i] == refs[..i];
      ghost var g := Groups(order, members);
      var ref := refs[i];
      if Keyed(ref) {
        var k := RefKeyOf(ref);
        if k !in members {
          order := order + [k];
          members := members[k := []];
          assert members[k] + [ref] == [ref];
        }
        members := members[k := members[k] + [ref]];
      }
    }
    assert refs[..|refs|] == refs;
  }

  /** Report every reference of one group after its first. */
  method ReportLater(k: RefKey, rs: seq<Node>) returns (found: seq<LintIssue>)
    requires rs != []
    ensures found == Reports(k, rs[1..])
  {
    found := [];
    for m := 1 to |rs|
      invariant found == Reports(k, rs[1..m])
    {
      ghost var later := rs[1..m + 1];
      assert later[..|later| - 1] == rs[1..m] && later[|later| - 1] == rs[m];
      found := found + [LintIssue(rs[m].line, DuplicateMessage(k), false)];
    }
  }

  /** The reporting loop of the duplicate check, over groups kept in `g`. */
  method EmitDuplicates(g: Groups) returns (issues: seq<LintIssue>)
    requires forall k :: k in g.order ==> k in g.members
    ensures issues == Emitted(g, g.order)
  {
    issues := [];
    for j := 0 to |g.order|
      invariant issues == Emitted(g, g.order[..j])
    {
      assert g.order[..j + 1][..j] == g.order[..j];
      var k := g.order[j];
      var refs := g.members[k];
      if |refs| > 1 {
        var found := ReportLater(k, refs);
        issues := issues + found;
      }
    }
    assert g.order[..|g.order|] == g.order;
  }

  /** The duplicate check for one paragraph: group its references by role
      and target, then report every reference of a group after its first. */
  method ParagraphDuplicates(para: Node) returns (issues: seq<LintIssue>)
    ensures issues == ParagraphIssues(ParagraphRefs(para))
  {
    var refs := ParagraphRefs(para);
    var order, members := GroupRefs(refs);
    GroupedSpec(refs);
    issues := EmitDuplicates(Groups(order, members));
  }

  /** The duplicate issues of a sequence of paragraphs, in order. */
  function DuplicatesIn(paras: seq<Node>): seq<LintIssue> {
    if paras == [] then []
    else DuplicatesIn(paras[..|paras| - 1]) + ParagraphIssues(ParagraphRefs(paras[|paras| - 1]))
  }

  /** The duplicate check over the paragraphs given, one after the other. */
  method ParagraphsDuplicates(paras: seq<Node>) returns (issues: seq<LintIssue>)
    ensures issues == DuplicatesIn(paras)
  {
    issues := [];
    for i := 0 to |paras|
      invariant issues == DuplicatesIn(paras[..i])
    {
      assert paras[..i + 1][..i] == paras[..i];
      var found := ParagraphDuplicates(paras[i]);
      issues := issues + found;
    }
    assert paras[..|paras|] == paras;
  }

  /** `find_duplicate_refs_in_paragraph`: the duplicate check over every
      paragraph of the document. It never fixes anything. */
  method FindDuplicateRefsInParagraph(work: LintWork) returns (issues: seq<LintIssue>)
    ensures issues == DuplicatesIn(OfKind(Preorder(work.doctree), Paragraph))
  {
    issues := ParagraphsDuplicates(OfKind(Preorder(work.doctree), Paragraph));
  }

  /** Duplicate issues are never marked fixed. */
  lemma {:induction false} DuplicatesUnfixed(paras: seq<Node>)
    ensures forall i :: 0 <= i < |DuplicatesIn(paras)| ==> !DuplicatesIn(paras)[i].fixed
  {
    if paras != [] {
      var front := paras[..|paras| - 1];
      DuplicatesUnfixed(front);
      var refs := ParagraphRefs(paras[|paras| - 1]);
      GroupedSpec(refs);
      EmittedUnfixed(Grouped(refs), Grouped(refs).order);
    }
  }

  lemma {:induction false} EmittedUnfixed(g: Groups, keys: seq<RefKey>)
    requires forall k :: k in keys ==> k in g.members
    ensures forall i :: 0 <= i < |Emitted(g, keys)| ==> !Emitted(g, keys)[i].fixed
  {
    if keys != [] {
      EmittedUnfixed(g, keys[..|keys| - 1]);
    }
  }

  function XrefAt(role: string, target: string, line: int): Node {
    Node(PendingXref, [], [], None, "", "", role, target, Some(line), 0, [])
  }

  lemma GroupedSnoc(refs: seq<Node>, r: Node)
    ensures Grouped(refs + [r]) == AddRef(Grouped(refs), r)
  {
    assert (refs + [r])[..|refs|] == refs;
  }

  lemma EmittedSnoc(g: Groups, keys: seq<RefKey>, k: RefKey)
    requires forall k' :: k' in keys + [k] ==> k' in g.members
    ensures Emitted(g, keys + [k]) == Emitted(g, keys) + (if |g.members[k]| > 1 then Reports(k, g.members[k][1..]) else [])
  {
    assert (keys + [k])[..|keys|] == keys;
  }

  lemma GroupedFirstThree(r0: Node, r1: Node, r2: Node)
    requires Keyed(r0) && Keyed(r2) && RefKeyOf(r0) != RefKeyOf(r2)
    requires RefKeyOf(r1) == RefKeyOf(r0)
    ensures Grouped([r0, r1, r2])
            == Groups([RefKeyOf(r0), RefKeyOf(r2)], map[RefKeyOf(r0) := [r0, r1], RefKeyOf(r2) := [r2]])
  {
    var ka, kb := RefKeyOf(r0), RefKeyOf(r2);
    assert Grouped([r0]) == Groups([ka], map[ka := [r0]]) by {
      GroupedSnoc([], r0);
      assert [] + [r0] == [r0];
    }
    assert Grouped([r0, r1]) == Groups([ka], map[ka := [r0, r1]]) by {
      GroupedSnoc([r0], r1);
      assert [r0] + [r1] == [r0, r1];
    }
    GroupedSnoc([r0, r1], r2);
    assert [r0, r1] + [r2] == [r0, r1, r2];
  }

  /** References are grouped by key in the order their keys first appear,
      each group keeping its references in document order. */
  lemma GroupedExample(r0: Node, r1: Node, r2: Node, r3: Node)
    requires Keyed(r0) && Keyed(r2) && RefKeyOf(r0) != RefKeyOf(r2)
    requires RefKeyOf(r1) == RefKeyOf(r0) == RefKeyOf(r3)
    ensures Grouped([r0, r1, r2, r3])
            == Groups([RefKeyOf(r0), RefKeyOf(r2)], map[RefKeyOf(r0) := [r0, r1, r3], RefKeyOf(r2) := [r2]])
  {
    var ka, kb := RefKeyOf(r0), RefKeyOf(r2);
    GroupedFirstThree(r0, r1, r2);
    GroupedSnoc([r0, r1, r2], r3);
    assert [r0, r1, r2] + [r3] == [r0, r1, r2, r3];
    assert [r0, r1] + [r3] == [r0, r1, r3];
    var m := map[ka := [r0, r1], kb := [r2]];
    assert m[ka := m[ka] + [r3]] == map[ka := [r0, r1, r3], kb := [r2]];
  }

  /** `a`, `a`, `b`, `a` in one paragraph: the second and fourth references
      are reported, under the key of `a`; `b` and the first `a` are not. */
  lemma DuplicateExample(role: string, a: string, b: string)
    requires role != "" && a != "" && b != "" && a != b
    ensures ParagraphIssues([XrefAt(role, a, 1), XrefAt(role, a, 2), XrefAt(role, b, 3), XrefAt(role, a, 4)])
            == [LintIssue(Some(2), DuplicateMessage((role, a)), false),
                LintIssue(Some(4), DuplicateMessage((role, a)), false)]
  {
    var r0, r1, r2, r3 := XrefAt(role, a, 1), XrefAt(role, a, 2), XrefAt(role, b, 3), XrefAt(role, a, 4);
    var ka, kb := (role, a), (role, b);
    GroupedExample(r0, r1, r2, r3);
    var g := Grouped([r0, r1, r2, r3]);
    EmittedSnoc(g, [], ka);
    EmittedSnoc(g, [ka], kb);
    assert [] + [ka] == [ka] && [ka] + [kb] == [ka, kb];
    assert [r0, r1, r3][1..] == [r1, r3];
    assert [r1, r3][..1] == [r1];
  }

  /* Running the checks. */

  /** The registered checks, by name. */
  const CheckNames: set<string> := {"self", "paradup"}

  /** The self-link check run after what `cur` has gathered. */
  function SelfCheck(doctree: Node, cur: Outcome, fix: bool): (r: Outcome)
    requires WellFormed(doctree)
    requires LinesFit(FindSelfRefs(doctree), |cur.lines|, fix)
    ensures |r.lines| == |cur.lines|
  {
    var o := SelfLinks(Outcome(cur.lines, [], false), FindSelfRefs(doctree), fix);
    Outcome(o.lines, cur.issues + o.issues, cur.fixed || o.fixed)
  }

  /** The checks named in `checks`, run in that order over shared lines. */
  function RunChecks(doctree: Node, lines: seq<string>, fix: bool, checks: seq<string>): (r: Outcome)
    requires WellFormed(doctree)
    requires LinesFit(FindSelfRefs(doctree), |lines|, fix)
    ensures |r.lines| == |lines|
  {
    if checks == [] then Outcome(lines, [], false)
    else
      var cur := RunChecks(doctree, lines, fix, checks[..|checks| - 1]);
      CheckStep(doctree, cur, fix, checks[|checks| - 1])
  }

  /** One named check on the shared state; an unknown name does nothing. */
  function CheckStep(doctree: Node, cur: Outcome, fix: bool, name: string): (r: Outcome)
    requires WellFormed(doctree)
    requires LinesFit(FindSelfRefs(doctree), |cur.lines|, fix)
    ensures |r.lines| == |cur.lines|
  {
    match name
    case "self" => SelfCheck(doctree, cur, fix)
    case "paradup" => Outcome(cur.lines, cur.issues + DuplicatesIn(OfKind(Preorder(doctree), Paragraph)), cur.fixed)
    case _ => cur
  }

  /** Runs the check `name` on the shared state `work`, whose lines and flag
      `cur` describes. */
  method RunCheck(work: LintWork, name: string, ghost cur: Outcome) returns (found: seq<LintIssue>)
    requires WellFormed(work.doctree) && name in CheckNames
    requires cur.lines == work.contentLines[..] && cur.fixed == work.fixed
    requires LinesFit(FindSelfRefs(work.doctree), |cur.lines|, work.fix)
    modifies work, work.contentLines
    ensures var after := CheckStep(work.doctree, cur, work.fix, name);
            && after.lines == work.contentLines[..]
            && after.issues == cur.issues + found
            && after.fixed == work.fixed
  {
    if name == "self" {
      found := FindSelfLinks(work);
    } else {
      found := FindDuplicateRefsInParagraph(work);
    }
  }

  /** With fixing off, no check touches the lines or sets the fixed flag. */
  lemma {:induction false} RunChecksNoFix(doctree: Node, lines: seq<string>, checks: seq<string>)
    requires WellFormed(doctree)
    ensures RunChecks(doctree, lines, false, checks).lines == lines
    ensures !RunChecks(doctree, lines, false, checks).fixed
  {
    if checks != [] {
      RunChecksNoFix(doctree, lines, checks[..|checks| - 1]);
      var cur := RunChecks(doctree, lines, false, checks[..|checks| - 1]);
      SelfLinksNoFix(Outcome(cur.lines, [], false), FindSelfRefs(doctree));
    }
  }

  /** Whenever the checks changed the lines, the fixed flag is set. */
  lemma {:induction false} RunChecksChangeIsFixed(doctree: Node, lines: seq<string>, fix: bool, checks: seq<string>)
    requires WellFormed(doctree)
    requires LinesFit(FindSelfRefs(doctree), |lines|, fix)
    ensures RunChecks(doctree, lines, fix, checks).lines != lines ==> RunChecks(doctree, lines, fix, checks).fixed
  {
    if checks != [] {
      RunChecksChangeIsFixed(doctree, lines, fix, checks[..|checks| - 1]);
      var cur := RunChecks(doctree, lines, fix, checks[..|checks| - 1]);
      SelfLinksChangeIsFixed(Outcome(cur.lines, [], false), FindSelfRefs(doctree), fix);
    }
  }

  /** What `lint_content` returns. */
  datatype LintResult = LintResult(content: string, issues: seq<LintIssue>, fixed: bool)

  /**
   * `lint_content`, given the parsed document: split the text into lines
   * (keeping their ends), run the checks in the order given, and join the
   * lines back. Unchanged lines give back the text exactly, and changed
   * lines always come with `fixed` set.
   */
  method LintContent(content: string, doctree: Node, fix: bool, checks: seq<string>) returns (result: LintResult)
    requires WellFormed(doctree)
    requires forall i :: 0 <= i < |checks| ==> checks[i] in CheckNames
    requires LinesFit(FindSelfRefs(doctree), |SplitLines(content)|, fix)
    ensures var o := RunChecks(doctree, SplitLines(content), fix, checks);
            result == LintResult(Join(o.lines), o.issues, o.fixed)
    ensures !fix ==> result.content == content && !result.fixed
    ensures result.content != content ==> result.fixed
  {
    var lines := SplitLines(content);
    var contentLines := LinesArray(lines);
    var work := new LintWork(doctree, contentLines, fix);
    var issues: seq<LintIssue> := [];
    for c := 0 to |checks|
      invariant RunChecks(doctree, lines, fix, checks[..c]) == Outcome(contentLines[..], issues, work.fixed)
    {
      assert checks[..c + 1][..c] == checks[..c];
      var found := RunCheck(work, checks[c], Outcome(contentLines[..], issues, work.fixed));
      issues := issues + found;
    }
    assert checks[..|checks|] == checks;
    result := LintResult(Join(contentLines[..]), issues, work.fixed);
    LintOutcome(content, doctree, fix, checks);
  }

  /** Without fixing, the checks give the text back exactly and report
      nothing fixed; a text that comes back changed was fixed. */
  lemma LintOutcome(content: string, doctree: Node, fix: bool, checks: seq<string>)
    requires WellFormed(doctree)
    requires LinesFit(FindSelfRefs(doctree), |SplitLines(content)|, fix)
    ensures var o := RunChecks(doctree, SplitLines(content), fix, checks);
            && (!fix ==> Join(o.lines) == content && !o.fixed)
            && (Join(o.lines) != content ==> o.fixed)
  {
    var lines := SplitLines(content);
    JoinSplitLines(content);
    if !fix {
      RunChecksNoFix(doctree, lines, checks);
    }
    RunChecksChangeIsFixed(doctree, lines, fix, checks);
  }

  /* Reporting. */

  /** `plural(n, thing, things)`: the count, a space, and the noun that
      fits it. */
  function Plural(n: int, thing: string, things: string): string {
    IntToString(n) + " " + (if n == 1 then thing else if things != "" then things else thing + "s")
  }

  /** The noun is `thing` for one, and otherwise `things`, or `thing` with
      an "s" when `things` is empty; the count is written before it. */
  lemma PluralNoun(n: int, thing: string, things: string)
    ensures Plural(n, thing, things)[..|IntToString(n)| + 1] == IntToString(n) + " "
    ensures n == 1 ==> Plural(n, thing, things)[|IntToString(n)| + 1..] == thing
    ensures n != 1 && things != "" ==> Plural(n, thing, things)[|IntToString(n)| + 1..] == things
    ensures n != 1 && things == "" ==> Plural(n, thing, things)[|IntToString(n)| + 1..] == thing + "s"
  {
  }

  lemma PluralExamples()
    ensures Plural(1, "file", "") == "1 file"
    ensures Plural(3, "issue", "") == "3 issues"
    ensures Plural(0, "entry", "entries") == "0 entries"
  {
    assert IntToString(1) == "1" && IntToString(3) == "3" && IntToString(0) == "0";
  }

  /**
   * The `--check` option: a set of names, where "all" stands for every
   * check. An unknown name is an error that lists the unknown names.
   */
  function SelectChecks(requested: set<string>): (r: Result<set<string>, set<string>>)
    ensures r.Ok? ==> r.value <= CheckNames
    ensures r.Err? <==> exists c :: c in requested && c !in CheckNames && c != "all"
    ensures r.Err? ==> r.error == requested - CheckNames - {"all"} && r.error != {}
    ensures r.Ok? && "all" in requested ==> r.value == CheckNames
    ensures r.Ok? && "all" !in requested ==> r.value == requested
  {
    var unknown := requested - CheckNames - {"all"};
    if unknown != {} then Err(unknown)
    else if "all" in requested then Ok(CheckNames)
    else Ok(requested)
  }
}
