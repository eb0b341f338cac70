/**
 * The region finder: one walk over the document tree that finds every
 * documented entity (a module section or a `.. class::`/`.. function::`-style
 * description block) and the lines it spans.
 */
module Regions {
  import opened Wrappers
  import opened Strings
  import opened Doctree

  /**
   * One documented entity. `endMain` is the last line before the first
   * nested entity begins; `endTotal` the last line including nested ones.
   */
  datatype Region = Region(kind: string, name: string, start: int, endMain: int, endTotal: int)

  /** `Region.__lt__`: the pair (start, name), compared lexicographically. */
  predicate RegionLess(a: Region, b: Region) {
    a.start < b.start || (a.start == b.start && StrLess(a.name, b.name))
  }

  lemma RegionLessIsStrictOrder(a: Region, b: Region, c: Region)
    ensures !RegionLess(a, a)
    ensures RegionLess(a, b) ==> !RegionLess(b, a)
    ensures RegionLess(a, b) && RegionLess(b, c) ==> RegionLess(a, c)
    ensures (a.start == b.start && a.name == b.name) || RegionLess(a, b) || RegionLess(b, a)
  {
    StrLessIrreflexive(a.name);
    if a.start == b.start && StrLess(a.name, b.name) && StrLess(b.name, a.name) {
      StrLessTransitive(a.name, b.name, a.name);
    }
    if RegionLess(a, b) && RegionLess(b, c) && a.start == b.start == c.start {
      StrLessTransitive(a.name, b.name, c.name);
    }
    StrLessTotal(a.name, b.name);
  }

  /** The module a section declares: the suffix of its first id that is a
      module anchor (see `IsModuleAnchor`), if any. */
  function ModuleIdName(ids: seq<string>, names: seq<string>): (r: Option<string>)
    ensures r.None? <==> forall i :: 0 <= i < |ids| ==> !IsModuleAnchor(ids[i], names)
  {
    if ids == [] then None
    else if IsModuleAnchor(ids[0], names) then Some(ids[0][|ModulePrefix|..])
    else
      var r := ModuleIdName(ids[1..], names);
      assert forall i :: 1 <= i < |ids| ==> ids[i] == ids[1..][i - 1];
      r
  }

  /** Only the first module anchor counts: every id before it is not one. */
  lemma {:induction false} ModuleIdNameIsFirstAnchor(ids: seq<string>, names: seq<string>, i: nat)
    requires i < |ids| && IsModuleAnchor(ids[i], names)
    requires forall j :: 0 <= j < i ==> !IsModuleAnchor(ids[j], names)
    ensures ModuleIdName(ids, names) == Some(ids[i][|ModulePrefix|..])
  {
    if i > 0 {
      ModuleIdNameIsFirstAnchor(ids[1..], names, i - 1);
    }
  }

  /** What a node contributes to its own region: kind, name and start line. */
  datatype Opening = Opening(kind: string, name: string, start: int)

  /** Does this node open a region? */
  predicate Opens(n: Node) {
    (n.kind == Section && HasModuleAnchor(n)) || (n.kind == Desc && n.objtype.Some?)
  }

  /**
   * The region a node opens: a section with a module anchor opens a "module"
   * region starting one line above the section's own line; a description
   * block opens a region of its object type, named by its signature's full
   * name and starting at the signature's line. No other node opens one.
   */
  function OpenedBy(n: Node): (r: Option<Opening>)
    requires LocallyWellFormed(n)
    ensures r.Some? <==> Opens(n)
    ensures r.Some? && n.kind == Section ==> r.value.kind == "module" && r.value.start == n.line.value - 1
    ensures r.Some? && n.kind == Desc ==>
              r.value == Opening(n.objtype.value, n.children[0].fullname, n.children[0].line.value)
  {
    match n.kind
    case Section =>
      (match ModuleIdName(n.ids, n.names)
       case Some(name) => Some(Opening("module", name, n.line.value - 1))
       case None => None)
    case Desc =>
      if n.objtype.Some?
      then Some(Opening(n.objtype.value, n.children[0].fullname, n.children[0].line.value))
      else None
    case _ => None
  }

  /** The regions found under a subtree, and the "last line" cursor after it. */
  datatype Walked = Walked(regions: seq<Region>, cursor: int)

  /** Visiting a node with a line sets the cursor to that line plus the
      newlines of its text; a node without a line leaves it alone. */
  function Mark(n: Node, cursor: int): int {
    if n.line.Some? then n.line.value + n.newlines else cursor
  }

  /** `end_main or self.last_line`: one line above the first nested region,
      unless there is none or that value is 0. */
  function EndMain(nested: seq<Region>, cursor: int): int {
    if nested != [] && nested[0].start - 1 != 0 then nested[0].start - 1 else cursor
  }

  /**
   * `RegionFinder.find_regions` with its `last_line` field threaded through
   * as an accumulator: mark the node, walk the children in order, then emit
   * the node's own region after all of theirs.
   */
  function Walk(n: Node, cursor: int): Walked
    requires WellFormed(n)
  {
    var inner := WalkSeq(n.children, Mark(n, cursor));
    match OpenedBy(n)
    case None => inner
    case Some(o) =>
      Walked(inner.regions + [Region(o.kind, o.name, o.start, EndMain(inner.regions, inner.cursor), inner.cursor)],
             inner.cursor)
  }

  function WalkSeq(ns: seq<Node>, cursor: int): Walked
    requires AllWellFormed(ns)
  {
    if ns == [] then Walked([], cursor)
    else
      var front := WalkSeq(ns[..|ns| - 1], cursor);
      var last := Walk(ns[|ns| - 1], front.cursor);
      Walked(front.regions + last.regions, last.cursor)
  }

  /** `find_regions(doctree)`. */
  function DocumentRegions(doctree: Node): seq<Region>
    requires WellFormed(doctree)
  {
    Walk(doctree, 0).regions
  }

  // ---------------------------------------------------------------------
  // What the walk computes

  function Head(r: Region): Opening {
    Opening(r.kind, r.name, r.start)
  }

  function Heads(rs: seq<Region>): (hs: seq<Opening>)
    ensures |hs| == |rs| && forall i :: 0 <= i < |rs| ==> hs[i] == Head(rs[i])
  {
    if rs == [] then [] else Heads(rs[..|rs| - 1]) + [Head(rs[|rs| - 1])]
  }

  lemma HeadsAppend(a: seq<Region>, b: seq<Region>)
    ensures Heads(a + b) == Heads(a) + Heads(b)
  {
  }

  /** The openings of the subtree in post-order: children first, then the node. */
  function PostOpenings(n: Node): seq<Opening>
    requires WellFormed(n)
  {
    PostOpeningsSeq(n.children) + (match OpenedBy(n) case Some(o) => [o] case None => [])
  }

  function PostOpeningsSeq(ns: seq<Node>): seq<Opening>
    requires AllWellFormed(ns)
  {
    if ns == [] then [] else PostOpeningsSeq(ns[..|ns| - 1]) + PostOpenings(ns[|ns| - 1])
  }

  /** Every region comes from one opening node and every opening node gives
      one region, in post-order: a node's region follows all of its
      descendants' regions. */
  lemma {:induction false} WalkFollowsPostOrder(n: Node, cursor: int)
    requires WellFormed(n)
    ensures Heads(Walk(n, cursor).regions) == PostOpenings(n)
    decreases n
  {
    WalkSeqFollowsPostOrder(n.children, Mark(n, cursor));
    var inner := WalkSeq(n.children, Mark(n, cursor));
    match OpenedBy(n)
    case None =>
    case Some(o) =>
      HeadsAppend(inner.regions, [Region(o.kind, o.name, o.start, EndMain(inner.regions, inner.cursor), inner.cursor)]);
  }

  lemma {:induction false} WalkSeqFollowsPostOrder(ns: seq<Node>, cursor: int)
    requires AllWellFormed(ns)
    ensures Heads(WalkSeq(ns, cursor).regions) == PostOpeningsSeq(ns)
    decreases ns
  {
    if ns != [] {
      var front := WalkSeq(ns[..|ns| - 1], cursor);
      WalkSeqFollowsPostOrder(ns[..|ns| - 1], cursor);
      WalkFollowsPostOrder(ns[|ns| - 1], front.cursor);
      HeadsAppend(front.regions, Walk(ns[|ns| - 1], front.cursor).regions);
    }
  }

  /** The number of nodes in `ns` that open a region. */
  function CountOpeners(ns: seq<Node>): nat {
    if ns == [] then 0 else CountOpeners(ns[..|ns| - 1]) + (if Opens(ns[|ns| - 1]) then 1 else 0)
  }

  lemma {:induction false} CountOpenersAppend(a: seq<Node>, b: seq<Node>)
    ensures CountOpeners(a + b) == CountOpeners(a) + CountOpeners(b)
    decreases |b|
  {
    if b != [] {
      assert (a + b)[..|a + b| - 1] == a + b[..|b| - 1];
      CountOpenersAppend(a, b[..|b| - 1]);
    } else {
      assert a + b == a;
    }
  }

  lemma {:induction false} PostOpeningsCount(n: Node)
    requires WellFormed(n)
    ensures |PostOpenings(n)| == CountOpeners(Preorder(n))
    decreases n
  {
    PostOpeningsSeqCount(n.children);
    CountOpenersAppend([n], PreorderSeq(n.children));
    assert CountOpeners([n]) == if Opens(n) then 1 else 0 by {
      assert [n][..0] == [];
    }
  }

  lemma {:induction false} PostOpeningsSeqCount(ns: seq<Node>)
    requires AllWellFormed(ns)
    ensures |PostOpeningsSeq(ns)| == CountOpeners(PreorderSeq(ns))
    decreases ns
  {
    if ns != [] {
      PostOpeningsSeqCount(ns[..|ns| - 1]);
      PostOpeningsCount(ns[|ns| - 1]);
      CountOpenersAppend(PreorderSeq(ns[..|ns| - 1]), Preorder(ns[|ns| - 1]));
    }
  }

  /** There are exactly as many regions as opening nodes; in particular a
      tree without module anchors or typed description blocks has none. */
  lemma RegionCount(n: Node, cursor: int)
    requires WellFormed(n)
    ensures |Walk(n, cursor).regions| == CountOpeners(Preorder(n))
    ensures CountOpeners(Preorder(n)) == 0 ==> Walk(n, cursor).regions == []
  {
    WalkFollowsPostOrder(n, cursor);
    PostOpeningsCount(n);
  }

  /** The cursor after visiting `ns` in order, starting from `cursor`. */
  function LastMark(ns: seq<Node>, cursor: int): int {
    if ns == [] then cursor else Mark(ns[|ns| - 1], LastMark(ns[..|ns| - 1], cursor))
  }

  lemma {:induction false} LastMarkAppend(a: seq<Node>, b: seq<Node>, cursor: int)
    ensures LastMark(a + b, cursor) == LastMark(b, LastMark(a, cursor))
    decreases |b|
  {
    if b != [] {
      assert (a + b)[..|a + b| - 1] == a + b[..|b| - 1];
      LastMarkAppend(a, b[..|b| - 1], cursor);
    } else {
      assert a + b == a;
    }
  }

  /** The cursor is assigned, not maximised: after a subtree it holds the
      mark of the last node in pre-order that has a line (or is unchanged
      when none has), even when that is smaller than before. */
  lemma {:induction false} WalkCursorIsLastMark(n: Node, cursor: int)
    requires WellFormed(n)
    ensures Walk(n, cursor).cursor == LastMark(Preorder(n), cursor)
    decreases n
  {
    WalkSeqCursorIsLastMark(n.children, Mark(n, cursor));
    LastMarkAppend([n], PreorderSeq(n.children), cursor);
    assert LastMark([n], cursor) == Mark(n, cursor) by {
      assert [n][..0] == [];
    }
  }

  lemma {:induction false} WalkSeqCursorIsLastMark(ns: seq<Node>, cursor: int)
    requires AllWellFormed(ns)
    ensures WalkSeq(ns, cursor).cursor == LastMark(PreorderSeq(ns), cursor)
    decreases ns
  {
    if ns != [] {
      var front := WalkSeq(ns[..|ns| - 1], cursor);
      WalkSeqCursorIsLastMark(ns[..|ns| - 1], cursor);
      WalkCursorIsLastMark(ns[|ns| - 1], front.cursor);
      LastMarkAppend(PreorderSeq(ns[..|ns| - 1]), Preorder(ns[|ns| - 1]), cursor);
    }
  }

  /**
   * A node's own region is emitted last, after every region found below it.
   * Its `endTotal` is the cursor once the whole subtree has been visited; its
   * `endMain` is one line above the first region emitted below it (which, in
   * post-order, may be a grandchild's), unless there is none or that is line
   * 0, in which case it is `endTotal` too.
   */
  lemma OwnRegionIsLast(n: Node, cursor: int)
    requires WellFormed(n) && Opens(n)
    ensures var w := Walk(n, cursor);
      && |w.regions| > 0
      && var own := w.regions[|w.regions| - 1];
      && Head(own) == OpenedBy(n).value
      && w.regions[..|w.regions| - 1] == WalkSeq(n.children, Mark(n, cursor)).regions
      && own.endTotal == w.cursor == LastMark(Preorder(n), cursor)
      && own.endMain == (if |w.regions| > 1 && w.regions[0].start != 1 then w.regions[0].start - 1
                         else own.endTotal)
  {
    WalkCursorIsLastMark(n, cursor);
  }

  /** Every region found in a child's subtree reaches the output unchanged. */
  lemma {:induction false} ChildRegionsPassThrough(ns: seq<Node>, cursor: int, i: nat)
    requires AllWellFormed(ns) && i < |ns|
    ensures var before := WalkSeq(ns[..i], cursor);
      var sub := Walk(ns[i], before.cursor).regions;
      var all := WalkSeq(ns, cursor).regions;
      |before.regions| + |sub| <= |all| && all[|before.regions|..|before.regions| + |sub|] == sub
    decreases |ns|
  {
    var front := ns[..|ns| - 1];
    if i < |ns| - 1 {
      ChildRegionsPassThrough(front, cursor, i);
      assert front[..i] == ns[..i];
    } else {
      assert front == ns[..i];
    }
  }

  /** Walking one more child appends that child's regions and moves the cursor on. */
  lemma WalkSeqStep(ns: seq<Node>, cursor: int, i: nat)
    requires AllWellFormed(ns) && i < |ns|
    ensures AllWellFormed(ns[..i]) && AllWellFormed(ns[..i + 1])
    ensures var before := WalkSeq(ns[..i], cursor);
      var child := Walk(ns[i], before.cursor);
      WalkSeq(ns[..i + 1], cursor) == Walked(before.regions + child.regions, child.cursor)
  {
    assert ns[..i + 1][..i] == ns[..i];
  }

  /**
   * The first half of a visit: a section is scanned id by id for the first
   * module anchor; a description block takes its object type and its
   * signature's full name and line.
   */
  method FindOpening(node: Node) returns (opening: Option<Opening>)
    requires LocallyWellFormed(node)
    ensures opening == OpenedBy(node)
  {
    opening := None;
    if node.kind == Section {
      var i := 0;
      while i < |node.ids|
        invariant 0 <= i <= |node.ids|
        invariant forall j :: 0 <= j < i ==> !IsModuleAnchor(node.ids[j], node.names)
      {
        var sectionId := node.ids[i];
        if ModulePrefix <= sectionId && sectionId !in node.names {
          ModuleIdNameIsFirstAnchor(node.ids, node.names, i);
          opening := Some(Opening("module", sectionId[|ModulePrefix|..], node.line.value - 1));
          return;
        }
        i := i + 1;
      }
    } else if node.kind == Desc && node.objtype.Some? {
      var signature := node.children[0];
      opening := Some(Opening(node.objtype.value, signature.fullname, signature.line.value));
    }
  }

  /**
   * `RegionFinder`: the walk as the source runs it, with `last_line` a field
   * the recursive calls update in place.
   */
  class RegionFinder {
    var lastLine: int

    constructor ()
      ensures lastLine == 0
    {
      lastLine := 0;
    }

    method FindRegions(node: Node) returns (regions: seq<Region>)
      requires WellFormed(node)
      modifies this
      ensures Walked(regions, lastLine) == Walk(node, old(lastLine))
      decreases node
    {
      var opening := FindOpening(node);
      if node.line.Some? {
        lastLine := node.line.value + node.newlines;
      }
      ghost var marked := lastLine;
      var endMain: Option<int> := None;
      regions := [];
      var i := 0;
      while i < |node.children|
        invariant 0 <= i <= |node.children|
        invariant Walked(regions, lastLine) == WalkSeq(node.children[..i], marked)
        invariant endMain == if opening.Some? && regions != [] then Some(regions[0].start - 1) else None
      {
        var subregions := FindRegions(node.children[i]);
        regions, endMain := AppendSubregions(regions, subregions, opening.Some?, endMain);
        WalkSeqStep(node.children, marked, i);
        i := i + 1;
      }
      assert node.children[..i] == node.children;
      if opening.Some? {
        var main := if endMain.Some? && endMain.value != 0 then endMain.value else lastLine;
        regions := regions + [Region(opening.value.kind, opening.value.name, opening.value.start, main, lastLine)];
      }
    }
  }

  /**
   * The inner loop of `find_regions`: a child's regions are appended in
   * order, and when the node opens a region, the first of them fixes where
   * that region's main part ends.
   */
  method AppendSubregions(regions: seq<Region>, subregions: seq<Region>, opens: bool, endMain: Option<int>)
    returns (regions': seq<Region>, endMain': Option<int>)
    requires endMain == if opens && regions != [] then Some(regions[0].start - 1) else None
    ensures regions' == regions + subregions
    ensures endMain' == if opens && regions' != [] then Some(regions'[0].start - 1) else None
  {
    regions', endMain' := regions, endMain;
    for j := 0 to |subregions|
      invariant regions' == regions + subregions[..j]
      invariant endMain' == if opens && regions' != [] then Some(regions'[0].start - 1) else None
    {
      if opens && endMain'.None? {
        // The main part of a region ends where the first nested one starts.
        endMain' := Some(subregions[j].start - 1);
      }
      assert subregions[..j + 1] == subregions[..j] + [subregions[j]];
      assert regions' != [] ==> (regions' + [subregions[j]])[0] == regions'[0];
      regions' := regions' + [subregions[j]];
    }
    assert subregions[..|subregions|] == subregions;
  }

  /** `find_regions(doctree)`: a fresh finder, its cursor starting at 0. */
  method FindRegions(doctree: Node) returns (regions: seq<Region>)
    requires WellFormed(doctree)
    ensures regions == DocumentRegions(doctree)
  {
    var finder := new RegionFinder();
    regions := finder.FindRegions(doctree);
  }
}
