/**
 * Editing the lines of a reStructuredText file in place: replacing one line
 * while keeping the section underline (and overline) around it as long as
 * the new text, and re-numbering the inline nodes of a paragraph.
 */
module RstHelp {
  import opened Wrappers
  import opened Strings
  import opened Doctree

  /** The distinct characters of `s` (`set(s)`). */
  function CharSet(s: string): set<char> {
    set i | 0 <= i < |s| :: s[i]
  }

  /**
   * `is_header_line`: `line` can be an underline or overline for
   * `textLine`. Without its trailing whitespace it is at least as long as
   * the text without its own, it is made of one character only, and that
   * character is ASCII punctuation.
   */
  predicate IsHeaderLine(line: string, textLine: string) {
    var stripped := RStrip(line);
    |stripped| >= |RStrip(textLine)| && |CharSet(stripped)| == 1 && IsPunctuation(stripped[0])
  }

  /** A set of one element holds nothing else. */
  lemma SingletonMembers(xs: set<char>, a: char, b: char)
    requires |xs| == 1 && a in xs && b in xs
    ensures a == b
  {
    var rest := xs - {a};
    assert |rest| == |xs| - |{a}| == 0;
    assert b !in rest;
  }

  /** `set(s)` has one element iff `s` is a non-empty run of one character. */
  lemma CharSetSingle(s: string)
    ensures |CharSet(s)| == 1 <==> s != [] && forall i :: 0 <= i < |s| ==> s[i] == s[0]
  {
    if s != [] && forall i :: 0 <= i < |s| ==> s[i] == s[0] {
      assert CharSet(s) == {s[0]};
    }
    if |CharSet(s)| == 1 {
      forall i | 0 <= i < |s| ensures s[i] == s[0] {
        SingletonMembers(CharSet(s), s[i], s[0]);
      }
    }
  }

  /** The header test in plain terms: trailing whitespace aside, the line is
      one punctuation character repeated at least as often as the text is long. */
  lemma HeaderLineIff(line: string, textLine: string)
    ensures IsHeaderLine(line, textLine) <==>
              var stripped := RStrip(line);
              && stripped != []
              && |stripped| >= |RStrip(textLine)|
              && IsPunctuation(stripped[0])
              && forall i :: 0 <= i < |stripped| ==> stripped[i] == stripped[0]
  {
    CharSetSingle(RStrip(line));
  }

  /* The cases of the header-line test table, against the title "Header". */

  lemma HeaderOfEquals()
    ensures IsHeaderLine("======", "Header")
  {
    HeaderLineIff("======", "Header");
  }

  lemma HeaderOfDashes()
    ensures IsHeaderLine("------", "Header")
  {
    HeaderLineIff("------", "Header");
  }

  lemma HeaderWithTrailingSpace()
    ensures IsHeaderLine("======  ", "Header")
  {
    assert RStrip("======  ") == "======";
    HeaderLineIff("======  ", "Header");
  }

  lemma HeaderWithNewline()
    ensures IsHeaderLine("======\n", "Header")
  {
    assert RStrip("======\n") == "======";
    HeaderLineIff("======\n", "Header");
  }

  lemma HeaderIndented()
    ensures !IsHeaderLine("  ======  ", "Header")
  {
    assert RStrip("  ======  ") == "  ======";
    HeaderLineIff("  ======  ", "Header");
    assert "  ======"[2] != "  ======"[0];
  }

  lemma HeaderTooShort()
    ensures !IsHeaderLine("====", "Header")
  {
    assert RStrip("Header") == "Header";
  }

  lemma HeaderLonger()
    ensures IsHeaderLine("===========", "Header")
  {
    HeaderLineIff("===========", "Header");
  }

  lemma HeaderMixed()
    ensures !IsHeaderLine("=====-", "Header")
  {
    HeaderLineIff("=====-", "Header");
    assert "=====-"[5] != "=====-"[0];
  }

  lemma HeaderOfDigits()
    ensures !IsHeaderLine("123456", "Header")
  {
    assert !IsPunctuation('1');
  }

  /** The whole table: which lines underline the title "Header". */
  lemma HeaderLineTable()
    ensures IsHeaderLine("======", "Header") && IsHeaderLine("------", "Header")
    ensures IsHeaderLine("======  ", "Header") && IsHeaderLine("======\n", "Header")
    ensures !IsHeaderLine("  ======  ", "Header") && !IsHeaderLine("====", "Header")
    ensures IsHeaderLine("===========", "Header")
    ensures !IsHeaderLine("=====-", "Header") && !IsHeaderLine("123456", "Header")
  {
    HeaderOfEquals();
    HeaderOfDashes();
    HeaderWithTrailingSpace();
    HeaderWithNewline();
    HeaderIndented();
    HeaderTooShort();
    HeaderLonger();
    HeaderMixed();
    HeaderOfDigits();
  }

  /** Punctuation is never whitespace. */
  lemma PunctuationIsNotSpace(c: char)
    requires IsPunctuation(c)
    ensures !IsSpace(c)
  {
  }

  /** A header line is never empty. */
  lemma HeaderLineNotEmpty(line: string, textLine: string)
    requires IsHeaderLine(line, textLine)
    ensures line != [] && RStrip(line) != []
  {
    HeaderLineIff(line, textLine);
  }

  /** The rewritten header line: its first character repeated as often as
      the new text is long without trailing whitespace, then its own last
      character (normally the line break). */
  function Resized(adj: string, newLine: string): string
    requires adj != []
  {
    Repeat(adj[0], |RStrip(newLine)|) + [adj[|adj| - 1]]
  }

  /** One neighbour of the replaced line: left alone unless it exists and is
      a header line for the old text. */
  function Adjusted(ls: seq<string>, a: int, oldLine: string, newLine: string): (r: seq<string>)
    ensures |r| == |ls|
  {
    if 0 <= a < |ls| && IsHeaderLine(ls[a], oldLine) then
      HeaderLineNotEmpty(ls[a], oldLine);
      ls[a := Resized(ls[a], newLine)]
    else ls
  }

  /** The neighbours in `adjs`, adjusted in order. */
  function AdjustedAll(ls: seq<string>, adjs: seq<int>, oldLine: string, newLine: string): (r: seq<string>)
    ensures |r| == |ls|
  {
    if adjs == [] then ls
    else Adjusted(AdjustedAll(ls, adjs[..|adjs| - 1], oldLine, newLine), adjs[|adjs| - 1], oldLine, newLine)
  }

  /**
   * `replace_rst_line` on the list of lines: line `n` becomes `newLine`,
   * the line above and the line below are resized when they are header
   * lines for the old text of line `n`, and nothing else changes.
   */
  function Replaced(ls: seq<string>, n: nat, newLine: string): (r: seq<string>)
    requires n < |ls|
    ensures |r| == |ls| && r[n] == newLine
    ensures forall i :: 0 <= i < |ls| && i != n ==>
              r[i] == if (i == n - 1 || i == n + 1) && IsHeaderLine(ls[i], ls[n])
                      then Resized(ls[i], newLine) else ls[i]
  {
    var ls1 := ls[n := newLine];
    assert AdjustedAll(ls1, [n - 1, n + 1][..1], ls[n], newLine) == Adjusted(ls1, n - 1, ls[n], newLine);
    AdjustedAll(ls1, [n - 1, n + 1], ls[n], newLine)
  }

  /** `replace_rst_line(lines, n, new_line)`. */
  method ReplaceRstLine(lines: array<string>, n: nat, newLine: string)
    requires n < lines.Length
    modifies lines
    ensures lines[..] == Replaced(old(lines[..]), n, newLine)
  {
    var oldLine := lines[n];
    lines[n] := newLine;
    var neighbours := [n - 1, n + 1];
    for k := 0 to 2
      invariant lines[..] == AdjustedAll(old(lines[..])[n := newLine], neighbours[..k], oldLine, newLine)
    {
      var a := neighbours[k];
      assert neighbours[..k + 1][..k] == neighbours[..k];
      if 0 <= a < lines.Length {
        var adj := lines[a];
        if IsHeaderLine(adj, oldLine) {
          HeaderLineNotEmpty(adj, oldLine);
          lines[a] := Resized(adj, newLine);
        }
      }
    }
    assert neighbours[..2] == neighbours;
  }

  lemma RStripRepeat(c: char, k: nat)
    requires !IsSpace(c)
    ensures RStrip(Repeat(c, k)) == Repeat(c, k)
  {
  }

  lemma RStripAppendSpace(s: string, w: char)
    requires IsSpace(w)
    ensures RStrip(s + [w]) == RStrip(s)
  {
    assert (s + [w])[..|s|] == s;
  }

  /**
   * A resized header line is a header line for the new text: the
   * underline or overline still covers the title after the rewrite. It is
   * exactly as long as the new text, or one character longer when the old
   * header line did not end in whitespace (a last line without a line break).
   */
  lemma ResizedKeepsHeader(adj: string, oldLine: string, newLine: string)
    requires IsHeaderLine(adj, oldLine) && RStrip(newLine) != []
    ensures adj != [] && IsHeaderLine(Resized(adj, newLine), newLine)
    ensures |RStrip(Resized(adj, newLine))| == |RStrip(newLine)| + (if IsSpace(adj[|adj| - 1]) then 0 else 1)
  {
    HeaderLineIff(adj, oldLine);
    var stripped := RStrip(adj);
    var c := adj[0];
    assert stripped[0] == c;
    PunctuationIsNotSpace(c);
    var k := |RStrip(newLine)|;
    var last := adj[|adj| - 1];
    var r := Resized(adj, newLine);
    if IsSpace(last) {
      RStripAppendSpace(Repeat(c, k), last);
      RStripRepeat(c, k);
      HeaderLineIff(r, newLine);
    } else {
      assert stripped == adj;
      assert last == c;
      assert r == Repeat(c, k + 1);
      RStripRepeat(c, k + 1);
      HeaderLineIff(r, newLine);
    }
  }

  /**
   * `resub_in_rst_line(lines, n, pat, repl, count)`, with the substitution
   * given as a function on the line: it reports whether the line changed,
   * and replaces it (resizing its header lines) only then.
   */
  method ResubInRstLine(lines: array<string>, n: nat, sub: string -> string) returns (changed: bool)
    requires n < lines.Length
    modifies lines
    ensures changed <==> sub(old(lines[n])) != old(lines[n])
    ensures changed ==> lines[..] == Replaced(old(lines[..]), n, sub(old(lines[n])))
    ensures !changed ==> lines[..] == old(lines[..])
  {
    var newLine := sub(lines[n]);
    changed := newLine != lines[n];
    if changed {
      ReplaceRstLine(lines, n, newLine);
    }
  }

  lemma StarsUnderlineAb()
    ensures IsHeaderLine("**\n", "Ab\n")
  {
    assert RStrip("Ab\n") == "Ab";
    assert RStrip("**\n") == "**";
    HeaderLineIff("**\n", "Ab\n");
  }

  lemma StarsResizedForAbc()
    ensures Resized("**\n", "Abc\n") == "***\n"
  {
    assert RStrip("Abc\n") == "Abc";
  }

  /** A title with an overline and an underline grows by one character,
      and both header lines grow with it. */
  lemma ReplacedOverlineExample()
    ensures Replaced(["**\n", "Ab\n", "**\n"], 1, "Abc\n") == ["***\n", "Abc\n", "***\n"]
  {
    var ls := ["**\n", "Ab\n", "**\n"];
    StarsUnderlineAb();
    StarsResizedForAbc();
    var r := Replaced(ls, 1, "Abc\n");
    assert r[0] == "***\n" && r[2] == "***\n";
  }

  /* Line numbers of the nodes inside a paragraph. */

  /** `str(node).count("\n")` summed over the Text nodes of `ns`. */
  function TextNewlines(ns: seq<Node>): nat {
    if ns == [] then 0
    else TextNewlines(ns[..|ns| - 1]) + (if ns[|ns| - 1].kind == Text then ns[|ns| - 1].newlines else 0)
  }

  lemma {:induction false} TextNewlinesAppend(a: seq<Node>, b: seq<Node>)
    ensures TextNewlines(a + b) == TextNewlines(a) + TextNewlines(b)
    decreases |b|
  {
    if b == [] {
      assert a + b == a;
    } else {
      assert (a + b)[..|a + b| - 1] == a + b[..|b| - 1];
      TextNewlinesAppend(a, b[..|b| - 1]);
    }
  }

  /** A node with its line and children blanked: what renumbering keeps. */
  function Label(n: Node): Node {
    n.(line := None, children := [])
  }

  /**
   * The tree form of the same loop: every node of `n` gets `base + count`
   * (Text nodes only when `textToo`), and a Text node adds its line breaks
   * to the count for the nodes after it. Returns the count after `n`.
   */
  function Renumber(n: Node, base: int, count: nat, textToo: bool): (Node, nat) {
    var line := if textToo || n.kind != Text then Some(base + count) else n.line;
    var count1 := count + (if n.kind == Text then n.newlines else 0);
    var (kids, count2) := RenumberSeq(n.children, base, count1, textToo);
    (n.(line := line, children := kids), count2)
  }

  function RenumberSeq(ns: seq<Node>, base: int, count: nat, textToo: bool): (seq<Node>, nat) {
    if ns == [] then ([], count)
    else
      var (front, count1) := RenumberSeq(ns[..|ns| - 1], base, count, textToo);
      var (last, count2) := Renumber(ns[|ns| - 1], base, count1, textToo);
      (front + [last], count2)
  }

  /** The pre-order of a sequence split off its last tree. */
  lemma PreorderSeqSnoc(front: seq<Node>, last: Node)
    ensures PreorderSeq(front + [last]) == PreorderSeq(front) + Preorder(last)
  {
    assert (front + [last])[..|front|] == front;
  }

  /** The line renumbering gives the `i`-th node of `ds`, counting from `count`. */
  function RenumberedLine(ds: seq<Node>, i: nat, base: int, count: nat, textToo: bool): Option<int>
    requires i < |ds|
  {
    if textToo || ds[i].kind != Text then Some(base + count + TextNewlines(ds[..i])) else ds[i].line
  }

  /** Renumbering `ns` keeps every node but its line, in the same pre-order,
      and gives each node the line the loop over that pre-order gives it. */
  predicate RenumberedFrom(p: seq<Node>, q: seq<Node>, base: int, count: nat, textToo: bool) {
    |q| == |p| && forall i :: 0 <= i < |p| ==> RenumberedAt(p, q, i, base, count, textToo)
  }

  predicate RenumberedAt(p: seq<Node>, q: seq<Node>, i: nat, base: int, count: nat, textToo: bool)
    requires i < |p| == |q|
  {
    Label(q[i]) == Label(p[i]) && q[i].line == RenumberedLine(p, i, base, count, textToo)
  }

  /** Two renumbered stretches side by side, the second counting on from
      the line breaks of the first. */
  lemma RenumberedConcat(p1: seq<Node>, q1: seq<Node>, p2: seq<Node>, q2: seq<Node>,
                         base: int, count: nat, textToo: bool)
    requires RenumberedFrom(p1, q1, base, count, textToo)
    requires RenumberedFrom(p2, q2, base, count + TextNewlines(p1), textToo)
    ensures RenumberedFrom(p1 + p2, q1 + q2, base, count, textToo)
  {
    var p, q := p1 + p2, q1 + q2;
    forall i | 0 <= i < |p|
      ensures RenumberedAt(p, q, i, base, count, textToo)
    {
      if i < |p1| {
        assert RenumberedAt(p1, q1, i, base, count, textToo);
        assert p[i] == p1[i] && q[i] == q1[i];
        assert p[..i] == p1[..i];
      } else {
        assert RenumberedAt(p2, q2, i - |p1|, base, count + TextNewlines(p1), textToo);
        assert p[i] == p2[i - |p1|] && q[i] == q2[i - |p1|];
        assert p[..i] == p1 + p2[..i - |p1|];
        TextNewlinesAppend(p1, p2[..i - |p1|]);
      }
    }
  }

  lemma RenumberedRoot(n: Node, r: Node, base: int, count: nat, textToo: bool)
    requires Label(r) == Label(n)
    requires r.line == if textToo || n.kind != Text then Some(base + count) else n.line
    ensures RenumberedFrom([n], [r], base, count, textToo)
    ensures TextNewlines([n]) == if n.kind == Text then n.newlines else 0
  {
    assert [n][..0] == [];
    assert RenumberedAt([n], [r], 0, base, count, textToo);
  }

  lemma {:induction false} RenumberPreorder(n: Node, base: int, count: nat, textToo: bool)
    ensures RenumberedFrom(Preorder(n), Preorder(Renumber(n, base, count, textToo).0), base, count, textToo)
    ensures Renumber(n, base, count, textToo).1 == count + TextNewlines(Preorder(n))
    decreases n, 1
  {
    var count1 := count + (if n.kind == Text then n.newlines else 0);
    var kids := RenumberSeq(n.children, base, count1, textToo);
    var r := Renumber(n, base, count, textToo).0;
    assert r.children == kids.0;
    RenumberSeqPreorder(n.children, base, count1, textToo);
    RenumberedRoot(n, r, base, count, textToo);
    RenumberedConcat([n], [r], PreorderSeq(n.children), PreorderSeq(kids.0), base, count, textToo);
    TextNewlinesAppend([n], PreorderSeq(n.children));
  }

  lemma {:induction false} RenumberSeqPreorder(ns: seq<Node>, base: int, count: nat, textToo: bool)
    ensures RenumberedFrom(PreorderSeq(ns), PreorderSeq(RenumberSeq(ns, base, count, textToo).0), base, count, textToo)
    ensures RenumberSeq(ns, base, count, textToo).1 == count + TextNewlines(PreorderSeq(ns))
    decreases ns, 0
  {
    if ns != [] {
      var front := ns[..|ns| - 1];
      var last := ns[|ns| - 1];
      var rf := RenumberSeq(front, base, count, textToo);
      var rl := Renumber(last, base, rf.1, textToo);
      RenumberSeqPreorder(front, base, count, textToo);
      RenumberPreorder(last, base, rf.1, textToo);
      PreorderSeqSnoc(rf.0, rl.0);
      RenumberedConcat(PreorderSeq(front), PreorderSeq(rf.0), Preorder(last), Preorder(rl.0), base, count, textToo);
      TextNewlinesAppend(PreorderSeq(front), Preorder(last));
    }
  }

  /**
   * The loop of `fix_node_lines` over one paragraph: the line each
   * descendant is given, in pre-order, with the running count of line
   * breaks seen in Text nodes.
   */
  method BlockLines(block: Node, textToo: bool) returns (lines: seq<Option<int>>)
    requires block.line.Some?
    ensures |lines| == |PreorderSeq(block.children)|
    ensures forall i :: 0 <= i < |lines| ==>
              lines[i] == RenumberedLine(PreorderSeq(block.children), i, block.line.value, 0, textToo)
  {
    var nodes := Preorder(block);
    var descendants := nodes[1..];
    assert descendants == PreorderSeq(block.children);
    var newlineCount := 0;
    lines := [];
    for k := 0 to |descendants|
      invariant newlineCount == TextNewlines(descendants[..k])
      invariant LinesSoFar(lines, descendants, k, block.line.value, textToo)
    {
      var node := descendants[k];
      var line := if textToo || node.kind != Text then Some(block.line.value + newlineCount) else node.line;
      LinesSoFarSnoc(lines, descendants, k, block.line.value, textToo, newlineCount);
      lines := lines + [line];
      if node.kind == Text {
        newlineCount := newlineCount + node.newlines;
      }
    }
  }

  /** The first `k` lines the loop of `BlockLines` has given. */
  predicate LinesSoFar(lines: seq<Option<int>>, ds: seq<Node>, k: nat, base: int, textToo: bool)
    requires k <= |ds|
  {
    |lines| == k && forall i :: 0 <= i < k ==> lines[i] == RenumberedLine(ds, i, base, 0, textToo)
  }

  lemma LinesSoFarSnoc(lines: seq<Option<int>>, ds: seq<Node>, k: nat, base: int, textToo: bool, count: nat)
    requires k < |ds| && LinesSoFar(lines, ds, k, base, textToo)
    requires count == TextNewlines(ds[..k])
    ensures var line := if textToo || ds[k].kind != Text then Some(base + count) else ds[k].line;
            && LinesSoFar(lines + [line], ds, k + 1, base, textToo)
            && TextNewlines(ds[..k + 1]) == count + (if ds[k].kind == Text then ds[k].newlines else 0)
  {
    assert ds[..k + 1][..k] == ds[..k];
  }

  /** `fix_node_lines` on one node: a paragraph whose line is set and not 0
      renumbers its descendants from its own line. */
  function FixBlock(n: Node, textToo: bool): (r: Node)
    ensures |PreorderSeq(r.children)| == |PreorderSeq(n.children)|
  {
    if n.kind == Paragraph && n.line.Some? && n.line.value != 0 then
      RenumberSeqPreorder(n.children, n.line.value, 0, textToo);
      n.(children := RenumberSeq(n.children, n.line.value, 0, textToo).0)
    else n
  }

  /**
   * `fix_node_lines(doctree)`: every paragraph, in pre-order, renumbers its
   * descendants; a paragraph below another one is renumbered first and then
   * counts from its new line. `textToo` says whether Text nodes get a line.
   */
  function FixNodeLinesWith(n: Node, textToo: bool): Node
    decreases |Preorder(n)|, 0
  {
    var n1 := FixBlock(n, textToo);
    n1.(children := FixForest(n1.children, textToo))
  }

  function FixForest(ns: seq<Node>, textToo: bool): (r: seq<Node>)
    ensures |r| == |ns|
    decreases |PreorderSeq(ns)|, 1
  {
    if ns == [] then []
    else FixForest(ns[..|ns| - 1], textToo) + [FixNodeLinesWith(ns[|ns| - 1], textToo)]
  }

  /** The current `fix_node_lines`, which gives Text nodes a line as well. */
  function FixNodeLines(doctree: Node): Node {
    FixNodeLinesWith(doctree, true)
  }

  /** No node of `ns`, at any depth, is a paragraph. */
  predicate ParagraphFree(ns: seq<Node>) {
    forall i :: 0 <= i < |PreorderSeq(ns)| ==> PreorderSeq(ns)[i].kind != Paragraph
  }

  /** A forest without paragraphs is left as it is. */
  lemma {:induction false} FixForestParagraphFree(ns: seq<Node>, textToo: bool)
    requires ParagraphFree(ns)
    ensures FixForest(ns, textToo) == ns
    decreases |PreorderSeq(ns)|
  {
    if ns != [] {
      var front := ns[..|ns| - 1];
      var last := ns[|ns| - 1];
      var p := PreorderSeq(ns);
      assert p == PreorderSeq(front) + Preorder(last);
      forall i | 0 <= i < |PreorderSeq(front)| ensures PreorderSeq(front)[i].kind != Paragraph {
        assert PreorderSeq(front)[i] == p[i];
      }
      forall i | 0 <= i < |PreorderSeq(last.children)| ensures PreorderSeq(last.children)[i].kind != Paragraph {
        assert PreorderSeq(last.children)[i] == p[|PreorderSeq(front)| + 1 + i];
      }
      assert last.kind != Paragraph by {
        assert p[|PreorderSeq(front)|] == last;
      }
      FixForestParagraphFree(front, textToo);
      FixForestParagraphFree(last.children, textToo);
      assert ns == front + [last];
    }
  }

  /** A renumbered forest keeps its node kinds, so stays paragraph-free. */
  lemma RenumberedParagraphFree(ns: seq<Node>, base: int, count: nat, textToo: bool)
    requires ParagraphFree(ns)
    ensures ParagraphFree(RenumberSeq(ns, base, count, textToo).0)
  {
    var p := PreorderSeq(ns);
    var q := PreorderSeq(RenumberSeq(ns, base, count, textToo).0);
    RenumberSeqPreorder(ns, base, count, textToo);
    forall i | 0 <= i < |q| ensures q[i].kind != Paragraph {
      assert RenumberedAt(p, q, i, base, count, textToo);
      assert Label(q[i]).kind == Label(p[i]).kind;
    }
  }

  /**
   * What `fix_node_lines` promises for a paragraph at line `b` (set and not
   * 0) with no paragraph inside it: its descendants keep everything but
   * their line, in the same pre-order, and the `i`-th of them gets `b` plus
   * the line breaks of the Text nodes before it.
   */
  lemma FixParagraphLines(p: Node, textToo: bool)
    requires p.kind == Paragraph && p.line.Some? && p.line.value != 0
    requires ParagraphFree(p.children)
    ensures FixNodeLinesWith(p, textToo).line == p.line
    ensures RenumberedFrom(PreorderSeq(p.children), PreorderSeq(FixNodeLinesWith(p, textToo).children),
                           p.line.value, 0, textToo)
  {
    var kids := RenumberSeq(p.children, p.line.value, 0, textToo).0;
    RenumberSeqPreorder(p.children, p.line.value, 0, textToo);
    RenumberedParagraphFree(p.children, p.line.value, 0, textToo);
    FixForestParagraphFree(kids, textToo);
  }

  /** A paragraph without a line, or on line 0, is skipped: it and its
      descendants keep their lines. */
  lemma UnnumberedParagraphSkipped(p: Node, textToo: bool)
    requires p.kind == Paragraph && (p.line.None? || p.line == Some(0))
    requires ParagraphFree(p.children)
    ensures FixNodeLinesWith(p, textToo) == p
  {
    FixForestParagraphFree(p.children, textToo);
  }

  /** `q` is `p` with at most the lines changed. */
  predicate SameShape(p: seq<Node>, q: seq<Node>) {
    |q| == |p| && forall i :: 0 <= i < |p| ==> SameLabelAt(p, q, i)
  }

  predicate SameLabelAt(p: seq<Node>, q: seq<Node>, i: nat)
    requires i < |p| == |q|
  {
    Label(q[i]) == Label(p[i])
  }

  lemma SameShapeConcat(p1: seq<Node>, q1: seq<Node>, p2: seq<Node>, q2: seq<Node>)
    requires SameShape(p1, q1) && SameShape(p2, q2)
    ensures SameShape(p1 + p2, q1 + q2)
  {
    forall i | 0 <= i < |p1 + p2| ensures SameLabelAt(p1 + p2, q1 + q2, i) {
      if i < |p1| {
        assert SameLabelAt(p1, q1, i);
      } else {
        assert SameLabelAt(p2, q2, i - |p1|);
      }
    }
  }

  lemma SameShapeTrans(p: seq<Node>, q: seq<Node>, r: seq<Node>)
    requires SameShape(p, q) && SameShape(q, r)
    ensures SameShape(p, r)
  {
    forall i | 0 <= i < |p| ensures SameLabelAt(p, r, i) {
      assert SameLabelAt(p, q, i) && SameLabelAt(q, r, i);
    }
  }

  lemma RenumberedSameShape(p: seq<Node>, q: seq<Node>, base: int, count: nat, textToo: bool)
    requires RenumberedFrom(p, q, base, count, textToo)
    ensures SameShape(p, q)
  {
    forall i | 0 <= i < |p| ensures SameLabelAt(p, q, i) {
      assert RenumberedAt(p, q, i, base, count, textToo);
    }
  }

  /** `fix_node_lines` changes line numbers and nothing else: the document
      keeps its nodes, their attributes and their order. */
  lemma {:induction false} FixNodeLinesKeepsShape(n: Node, textToo: bool)
    ensures SameShape(Preorder(n), Preorder(FixNodeLinesWith(n, textToo)))
    decreases |Preorder(n)|, 0
  {
    var n1 := FixBlock(n, textToo);
    var r := FixNodeLinesWith(n, textToo);
    if n1 != n {
      RenumberSeqPreorder(n.children, n.line.value, 0, textToo);
      RenumberedSameShape(PreorderSeq(n.children), PreorderSeq(n1.children), n.line.value, 0, textToo);
    } else {
      assert SameShape(PreorderSeq(n.children), PreorderSeq(n1.children)) by {
        forall i | 0 <= i < |PreorderSeq(n.children)| ensures SameLabelAt(PreorderSeq(n.children), PreorderSeq(n1.children), i) { }
      }
    }
    FixForestKeepsShape(n1.children, textToo);
    SameShapeTrans(PreorderSeq(n.children), PreorderSeq(n1.children), PreorderSeq(r.children));
    assert SameShape([n], [r]) by {
      assert SameLabelAt([n], [r], 0);
    }
    SameShapeConcat([n], [r], PreorderSeq(n.children), PreorderSeq(r.children));
  }

  lemma {:induction false} FixForestKeepsShape(ns: seq<Node>, textToo: bool)
    ensures SameShape(PreorderSeq(ns), PreorderSeq(FixForest(ns, textToo)))
    decreases |PreorderSeq(ns)|, 1
  {
    if ns == [] {
      assert SameShape([], []);
    } else {
      var front := ns[..|ns| - 1];
      var last := ns[|ns| - 1];
      var rf := FixForest(front, textToo);
      var rl := FixNodeLinesWith(last, textToo);
      FixForestKeepsShape(front, textToo);
      FixNodeLinesKeepsShape(last, textToo);
      PreorderSeqSnoc(rf, rl);
      SameShapeConcat(PreorderSeq(front), PreorderSeq(rf), Preorder(last), Preorder(rl));
    }
  }
}
