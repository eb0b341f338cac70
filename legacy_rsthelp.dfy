/**
 * The older RST helpers (the top-level `rsthelp.py`). Header detection,
 * line replacement and substitution are the same as in the current
 * helpers (module RstHelp). Two things differ:
 *   - `fix_node_lines` gives a line only to the non-Text descendants of a
 *     paragraph, and
 *   - a Sphinx hook adds an id for each Python description block to its
 *     nearest enclosing section.
 */
module LegacyRstHelp {
  import opened Wrappers
  import opened Doctree
  import opened RstHelp

  /** The older `fix_node_lines`: Text nodes keep the line they had. */
  function FixNodeLines(doctree: Node): Node {
    FixNodeLinesWith(doctree, false)
  }

  /** Inside a renumbered paragraph, the legacy fix leaves the line of a
      Text node alone and numbers every other node as the current one does. */
  lemma LegacyKeepsTextLines(p: Node, i: nat)
    requires p.kind == Paragraph && p.line.Some? && p.line.value != 0
    requires ParagraphFree(p.children)
    requires i < |PreorderSeq(p.children)|
    ensures |PreorderSeq(FixNodeLines(p).children)| == |PreorderSeq(p.children)|
               == |PreorderSeq(RstHelp.FixNodeLines(p).children)|
    ensures var d := PreorderSeq(p.children)[i];
            var e := PreorderSeq(FixNodeLines(p).children)[i];
            && Label(e) == Label(d)
            && (d.kind == Text ==> e.line == d.line)
            && (d.kind != Text ==> e.line == PreorderSeq(RstHelp.FixNodeLines(p).children)[i].line)
  {
    var ds := PreorderSeq(p.children);
    FixParagraphLines(p, false);
    FixParagraphLines(p, true);
    assert RenumberedAt(ds, PreorderSeq(FixNodeLines(p).children), i, p.line.value, 0, false);
    assert RenumberedAt(ds, PreorderSeq(RstHelp.FixNodeLines(p).children), i, p.line.value, 0, true);
  }

  /* Section ids for Python description blocks (`on_doctree_read`). */

  /** Python's f-string rendering of an optional attribute. */
  function Render(v: Option<string>): string {
    match v
    case Some(s) => s
    case None => "None"
  }

  /** The id a Python description block gives its section:
      `<objtype>-<fullname of its signature>`. */
  function DescId(desc: Node): string
    requires desc.kind == Desc && |desc.children| > 0
  {
    Render(desc.objtype) + "-" + desc.children[0].fullname
  }

  predicate IsPyDesc(n: Node) {
    n.kind == Desc && n.domain == "py"
  }

  /**
   * The ids the Python description blocks of `ns` give to the section just
   * above them, in document order: the walk does not go into a nested
   * section, whose blocks have that section as their nearest one.
   */
  function OwnedIds(ns: seq<Node>): seq<string>
    requires AllWellFormed(ns)
  {
    if ns == [] then []
    else OwnedIds(ns[..|ns| - 1]) + OwnedIdsOf(ns[|ns| - 1])
  }

  function OwnedIdsOf(n: Node): seq<string>
    requires WellFormed(n)
  {
    if n.kind == Section then []
    else (if IsPyDesc(n) then [DescId(n)] else []) + OwnedIds(n.children)
  }

  /**
   * `on_doctree_read`: each Python description block appends its id to the
   * ids of its nearest section ancestor; a block outside every section
   * changes nothing.
   */
  function OnDoctreeRead(n: Node): Node
    requires WellFormed(n)
  {
    var kids := OnDoctreeReadSeq(n.children);
    if n.kind == Section then n.(ids := n.ids + OwnedIds(n.children), children := kids)
    else n.(children := kids)
  }

  function OnDoctreeReadSeq(ns: seq<Node>): (r: seq<Node>)
    requires AllWellFormed(ns)
    ensures |r| == |ns|
  {
    if ns == [] then []
    else OnDoctreeReadSeq(ns[..|ns| - 1]) + [OnDoctreeRead(ns[|ns| - 1])]
  }

  /** The number of ids on the nodes of a tree. */
  function TotalIds(n: Node): nat {
    |n.ids| + TotalIdsSeq(n.children)
  }

  function TotalIdsSeq(ns: seq<Node>): nat {
    if ns == [] then 0 else TotalIdsSeq(ns[..|ns| - 1]) + TotalIds(ns[|ns| - 1])
  }

  /** The Python description blocks of a tree that have a section above
      them (`inSection` says whether the tree itself is inside a section). */
  function Covered(n: Node, inSection: bool): nat {
    (if IsPyDesc(n) && inSection then 1 else 0) + CoveredSeq(n.children, inSection || n.kind == Section)
  }

  function CoveredSeq(ns: seq<Node>, inSection: bool): nat {
    if ns == [] then 0 else CoveredSeq(ns[..|ns| - 1], inSection) + Covered(ns[|ns| - 1], inSection)
  }

  /**
   * Every Python description block with a section above it adds exactly one
   * id, and no other id is added or lost. (The ids a tree inside a section
   * hands up to that section are counted on the right.)
   */
  lemma {:induction false} OnDoctreeReadCount(n: Node, inSection: bool)
    requires WellFormed(n)
    ensures TotalIds(OnDoctreeRead(n)) + (if inSection then |OwnedIdsOf(n)| else 0)
            == TotalIds(n) + Covered(n, inSection)
    decreases n, 1
  {
    var inner := inSection || n.kind == Section;
    OnDoctreeReadSeqCount(n.children, inner);
  }

  lemma {:induction false} OnDoctreeReadSeqCount(ns: seq<Node>, inSection: bool)
    requires AllWellFormed(ns)
    ensures TotalIdsSeq(OnDoctreeReadSeq(ns)) + (if inSection then |OwnedIds(ns)| else 0)
            == TotalIdsSeq(ns) + CoveredSeq(ns, inSection)
    decreases ns, 0
  {
    if ns != [] {
      var front := ns[..|ns| - 1];
      var last := ns[|ns| - 1];
      OnDoctreeReadSeqCount(front, inSection);
      OnDoctreeReadCount(last, inSection);
      var rf := OnDoctreeReadSeq(front);
      var rl := OnDoctreeRead(last);
      assert (rf + [rl])[..|rf|] == rf;
    }
  }

  /** On a whole document, the number of ids added is the number of Python
      description blocks that sit inside some section. */
  lemma OnDoctreeReadAddsOnePerCoveredDesc(doctree: Node)
    requires WellFormed(doctree)
    ensures TotalIds(OnDoctreeRead(doctree)) == TotalIds(doctree) + Covered(doctree, false)
  {
    OnDoctreeReadCount(doctree, false);
  }

  /** The ids `on_doctree_read` appends to a node: a section takes those of
      the blocks it is the nearest section of, any other node none. */
  function AddedIds(m: Node): seq<string>
    requires WellFormed(m)
  {
    if m.kind == Section then OwnedIds(m.children) else []
  }

  /**
   * Position by position, `after` is `before` with each node's added ids
   * appended to the ids it had: the old ids are kept, in order, as a
   * prefix, and every other attribute and the number of children stay.
   */
  predicate IdsAppended(before: seq<Node>, after: seq<Node>)
    requires AllWellFormed(before)
  {
    && |after| == |before|
    && forall i :: 0 <= i < |before| ==>
         && after[i].(ids := [], children := []) == before[i].(ids := [], children := [])
         && |after[i].children| == |before[i].children|
         && after[i].ids == before[i].ids + AddedIds(before[i])
  }

  lemma IdsAppendedConcat(a: seq<Node>, a2: seq<Node>, b: seq<Node>, b2: seq<Node>)
    requires AllWellFormed(a) && AllWellFormed(b)
    requires IdsAppended(a, a2) && IdsAppended(b, b2)
    ensures AllWellFormed(a + b) && IdsAppended(a + b, a2 + b2)
  {
    assert forall i :: 0 <= i < |a| ==> (a + b)[i] == a[i] && (a2 + b2)[i] == a2[i];
    assert forall i :: |a| <= i < |a + b| ==> (a + b)[i] == b[i - |a|] && (a2 + b2)[i] == b2[i - |a|];
  }

  /**
   * On every tree, `on_doctree_read` only appends ids: the tree keeps its
   * shape, each section's ids become its old ids followed by the ids of
   * the blocks it is the nearest section of, and every other node keeps
   * its ids.
   */
  lemma {:induction false} OnDoctreeReadAppendsIds(n: Node)
    requires WellFormed(n)
    ensures AllWellFormed(Preorder(n)) && IdsAppended(Preorder(n), Preorder(OnDoctreeRead(n)))
    decreases n, 1
  {
    OnDoctreeReadSeqAppendsIds(n.children);
    var r := OnDoctreeRead(n);
    IdsAppendedConcat([n], [r], PreorderSeq(n.children), PreorderSeq(r.children));
  }

  lemma {:induction false} OnDoctreeReadSeqAppendsIds(ns: seq<Node>)
    requires AllWellFormed(ns)
    ensures AllWellFormed(PreorderSeq(ns)) && IdsAppended(PreorderSeq(ns), PreorderSeq(OnDoctreeReadSeq(ns)))
    decreases ns, 0
  {
    if ns != [] {
      var front := ns[..|ns| - 1];
      var last := ns[|ns| - 1];
      OnDoctreeReadSeqAppendsIds(front);
      OnDoctreeReadAppendsIds(last);
      var rs := OnDoctreeReadSeq(ns);
      assert rs[..|rs| - 1] == OnDoctreeReadSeq(front);
      IdsAppendedConcat(PreorderSeq(front), PreorderSeq(OnDoctreeReadSeq(front)),
                        Preorder(last), Preorder(OnDoctreeRead(last)));
    }
  }

  predicate NoPyDesc(ps: seq<Node>) {
    forall i :: 0 <= i < |ps| ==> !IsPyDesc(ps[i])
  }

  lemma NoPyDescSplit(a: seq<Node>, b: seq<Node>)
    requires NoPyDesc(a + b)
    ensures NoPyDesc(a) && NoPyDesc(b)
  {
    forall i | 0 <= i < |a| ensures !IsPyDesc(a[i]) {
      assert a[i] == (a + b)[i];
    }
    forall i | 0 <= i < |b| ensures !IsPyDesc(b[i]) {
      assert b[i] == (a + b)[|a| + i];
    }
  }

  /** With no Python description block in it, a tree hands no ids up and
      is left as it is. */
  lemma {:induction false} NoPyDescOwnsNothing(n: Node)
    requires WellFormed(n) && NoPyDesc(Preorder(n))
    ensures OwnedIdsOf(n) == []
    ensures OnDoctreeRead(n) == n
    decreases n, 1
  {
    NoPyDescSplit([n], PreorderSeq(n.children));
    assert !IsPyDesc([n][0]);
    NoPyDescSeqOwnsNothing(n.children);
  }

  lemma {:induction false} NoPyDescSeqOwnsNothing(ns: seq<Node>)
    requires AllWellFormed(ns) && NoPyDesc(PreorderSeq(ns))
    ensures OwnedIds(ns) == []
    ensures OnDoctreeReadSeq(ns) == ns
    decreases ns, 0
  {
    if ns != [] {
      var front := ns[..|ns| - 1];
      var last := ns[|ns| - 1];
      NoPyDescSplit(PreorderSeq(front), Preorder(last));
      NoPyDescSeqOwnsNothing(front);
      NoPyDescOwnsNothing(last);
      assert ns == front + [last];
    }
  }

  /** A document without Python description blocks is left as it is. */
  lemma NoPyDescUnchanged(doctree: Node)
    requires WellFormed(doctree) && NoPyDesc(Preorder(doctree))
    ensures OnDoctreeRead(doctree) == doctree
  {
    NoPyDescOwnsNothing(doctree);
  }

  function SectionOf(id: string, children: seq<Node>): (r: Node)
    requires AllWellFormed(children)
    ensures WellFormed(r)
  {
    Node(Section, [id], [], None, "", "", "", "", Some(1), 0, children)
  }

  function PyDescOf(objtype: string, fullname: string): (r: Node)
    ensures WellFormed(r) && IsPyDesc(r)
  {
    var sig := Node(DescSignature, [], [], None, fullname, "", "", "", Some(2), 0, []);
    Node(Desc, [], [], Some(objtype), "", "py", "", "", Some(2), 0, [sig])
  }

  lemma PyDescOwned(objtype: string, fullname: string)
    ensures OwnedIds([PyDescOf(objtype, fullname)]) == [objtype + "-" + fullname]
  {
    var d := PyDescOf(objtype, fullname);
    assert [d][..0] == [];
    assert d.children[..0] == [];
    assert OwnedIds(d.children) == OwnedIdsOf(d.children[0]);
    assert OwnedIdsOf(d) == [DescId(d)];
  }

  /** A section holding one block takes that block's id and hands nothing
      further up. */
  lemma SectionWithOneDesc(id: string, objtype: string, fullname: string)
    ensures var sec := SectionOf(id, [PyDescOf(objtype, fullname)]);
            && OnDoctreeRead(sec).ids == [id, objtype + "-" + fullname]
            && OwnedIdsOf(sec) == []
  {
    PyDescOwned(objtype, fullname);
  }

  /** A block goes to its nearest section only: in a section holding a
      block and a nested section with another block, each section gets the
      id of its own block. */
  lemma NearestSectionOnly(s: string, t: string, o1: string, f1: string, o2: string, f2: string)
    ensures var inner := SectionOf(t, [PyDescOf(o2, f2)]);
            var outer := SectionOf(s, [PyDescOf(o1, f1), inner]);
            var r := OnDoctreeRead(outer);
            && r.ids == [s, o1 + "-" + f1]
            && r.children[1].ids == [t, o2 + "-" + f2]
  {
    var inner := SectionOf(t, [PyDescOf(o2, f2)]);
    var d := PyDescOf(o1, f1);
    PyDescOwned(o1, f1);
    SectionWithOneDesc(t, o2, f2);
    assert [d, inner][..1] == [d];
    assert OwnedIds([d, inner]) == [o1 + "-" + f1];
    var r := OnDoctreeRead(SectionOf(s, [d, inner]));
    assert r.children == OnDoctreeReadSeq([d, inner]);
  }
}
