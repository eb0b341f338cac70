/**
 * The parsed document tree the linter consumes: docutils/Sphinx nodes reduced
 * to the attributes the linter reads. A missing string attribute reads as "".
 */
module Doctree {
  import opened Wrappers
  import opened Strings

  /** The node classes the linter distinguishes (`nodes.section`,
      `addnodes.desc`, `addnodes.pending_xref`, `nodes.Text`, ...). */
  datatype NodeKind =
    | Document | Section | Desc | DescSignature | Paragraph
    | PendingXref | Reference | Text | Other

  /**
   * One node. `newlines` stands for `node.astext().count("\n")` (for a Text
   * node, `str(node).count("\n")`): docutils inserts separators when it
   * renders a subtree, so this count is not derived from the children.
   */
  datatype Node = Node(
    kind: NodeKind,
    ids: seq<string>,
    names: seq<string>,
    objtype: Option<string>,
    fullname: string,
    domain: string,
    reftype: string,
    reftarget: string,
    line: Option<int>,
    newlines: nat,
    children: seq<Node>)

  /** `node.findall()`: the node and all its descendants in pre-order. */
  function Preorder(n: Node): (r: seq<Node>)
    ensures r != [] && r[0] == n
  {
    [n] + PreorderSeq(n.children)
  }

  function PreorderSeq(ns: seq<Node>): seq<Node> {
    if ns == [] then [] else PreorderSeq(ns[..|ns| - 1]) + Preorder(ns[|ns| - 1])
  }

  lemma {:induction false} PreorderSeqAppend(a: seq<Node>, b: seq<Node>)
    ensures PreorderSeq(a + b) == PreorderSeq(a) + PreorderSeq(b)
    decreases |b|
  {
    if b == [] {
      assert a + b == a;
    } else {
      var front := b[..|b| - 1];
      var last := b[|b| - 1];
      assert (a + b)[..|a + b| - 1] == a + front;
      assert (a + b)[|a + b| - 1] == last;
      PreorderSeqAppend(a, front);
      calc {
        PreorderSeq(a + b);
        PreorderSeq(a + front) + Preorder(last);
        (PreorderSeq(a) + PreorderSeq(front)) + Preorder(last);
        PreorderSeq(a) + (PreorderSeq(front) + Preorder(last));
      }
    }
  }

  /** The nodes of `ns` that have kind `k`, in order (`findall(<class>)`). */
  function OfKind(ns: seq<Node>, k: NodeKind): (r: seq<Node>)
    ensures |r| <= |ns|
    ensures forall x :: x in r <==> x in ns && x.kind == k
  {
    if ns == [] then []
    else OfKind(ns[..|ns| - 1], k) + (if ns[|ns| - 1].kind == k then [ns[|ns| - 1]] else [])
  }

  const ModulePrefix: string := "module-"

  /** An id that declares a module: it starts with "module-" and is not one
      of the section's explicit names (an explicit `.. _module-x:` target). */
  predicate IsModuleAnchor(id: string, names: seq<string>) {
    ModulePrefix <= id && id !in names
  }

  predicate HasModuleAnchor(n: Node) {
    exists i :: 0 <= i < |n.ids| && IsModuleAnchor(n.ids[i], n.names)
  }

  /**
   * What the linter's reads of one node rely on without checking: a module
   * section carries a line (asserted), a description block has a signature
   * child (`node.children[0]`), and a typed description's signature has a
   * line (its `start` is compared and subtracted later).
   */
  predicate LocallyWellFormed(n: Node) {
    && (n.kind == Section && HasModuleAnchor(n) ==> n.line.Some?)
    && (n.kind == Desc ==> |n.children| > 0)
    && (n.kind == Desc && n.objtype.Some? ==> n.children[0].line.Some?)
  }

  predicate WellFormed(n: Node) {
    LocallyWellFormed(n) && forall i :: 0 <= i < |n.children| ==> WellFormed(n.children[i])
  }

  predicate AllWellFormed(ns: seq<Node>) {
    forall i :: 0 <= i < |ns| ==> WellFormed(ns[i])
  }
}
