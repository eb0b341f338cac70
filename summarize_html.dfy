/**
 * The HTML summariser used by the test suite: the handlers of an HTML
 * parser that echo, as an indented outline, the tags and text inside the
 * element marked `role="main"`. `span` tags are left out but their
 * contents kept, header links are dropped with their contents, and of
 * the attributes only `id` and `href` are kept.
 *
 * The handlers are the methods of `HtmlSummarizer`; each is specified by a
 * step function on `State`, a value snapshot of the summariser's fields,
 * and the properties are proved about the step functions.
 */
module SummarizeHtml {
  import opened Wrappers
  import opened Strings

  /* Text helpers: `str.split()` and whitespace collapsing. */

  predicate NoSpace(w: string) {
    forall i :: 0 <= i < |w| ==> !IsSpace(w[i])
  }

  /** The length of the run of non-space characters that starts `s`. */
  function WordLen(s: string): (k: nat)
    ensures k <= |s|
    ensures forall i :: 0 <= i < k ==> !IsSpace(s[i])
    ensures k == |s| || IsSpace(s[k])
  {
    if s == [] || IsSpace(s[0]) then 0 else 1 + WordLen(s[1..])
  }

  /** The length of the run of whitespace that starts `s`. */
  function SpaceLen(s: string): (k: nat)
    ensures k <= |s|
    ensures forall i :: 0 <= i < k ==> IsSpace(s[i])
    ensures k == |s| || !IsSpace(s[k])
  {
    if s == [] || !IsSpace(s[0]) then 0 else 1 + SpaceLen(s[1..])
  }

  /** `s.split()`: the maximal runs of non-space characters, in order. */
  function Words(s: string): (r: seq<string>)
    ensures forall i :: 0 <= i < |r| ==> r[i] != [] && NoSpace(r[i])
    decreases |s|
  {
    if s == [] then []
    else if IsSpace(s[0]) then Words(s[1..])
    else
      var k := WordLen(s);
      [s[..k]] + Words(s[k..])
  }

  /** `w` stands in `s` at `i` with whitespace or an end of `s` on both sides. */
  predicate WordAt(s: string, w: string, i: int) {
    0 <= i && i + |w| <= |s| && s[i..i + |w|] == w
    && (i == 0 || IsSpace(s[i - 1])) && (i + |w| == |s| || IsSpace(s[i + |w|]))
  }

  /** A word that starts where `s` does is the first run of `s`. */
  lemma WordAtStart(s: string, w: string)
    requires w != [] && NoSpace(w) && WordAt(s, w, 0)
    ensures WordLen(s) == |w| && s[..WordLen(s)] == w
  {
    var k := WordLen(s);
    assert forall i :: 0 <= i < |w| ==> s[i] == w[i];
  }

  /** Standing as a word in a suffix of `s` is standing as a word in `s`,
      unless the suffix's start is the word's start and `s` has a non-space
      character just before it. */
  lemma WordAtDrop(s: string, w: string, k: nat, j: int)
    requires k <= |s| && 0 <= j && (0 < j || k == 0 || IsSpace(s[k - 1]))
    ensures WordAt(s[k..], w, j) <==> WordAt(s, w, k + j)
  {
    var t := s[k..];
    if j + |w| <= |t| {
      assert t[j..j + |w|] == s[k + j..k + j + |w|];
      if j + |w| < |t| {
        assert t[j + |w|] == s[k + j + |w|];
      }
    }
    if 0 < j <= |t| {
      assert t[j - 1] == s[k + j - 1];
    }
  }

  /** Every word of `s.split()` stands in `s` between whitespace or ends. */
  lemma {:induction false} WordsStandInText(s: string, w: string)
    requires w in Words(s)
    ensures exists i :: WordAt(s, w, i)
    decreases |s|
  {
    if IsSpace(s[0]) {
      WordsStandInText(s[1..], w);
      var j :| WordAt(s[1..], w, j);
      WordAtDrop(s, w, 1, j);
    } else {
      var k := WordLen(s);
      var t := s[k..];
      if w == s[..k] {
        assert WordAt(s, w, 0);
      } else {
        assert w in Words(t);
        WordsStandInText(t, w);
        var j :| WordAt(t, w, j);
        assert t[j..j + |w|][0] == t[j];
        assert IsSpace(t[0]) && !IsSpace(w[0]);
        WordAtDrop(s, w, k, j);
      }
    }
  }

  /** A run of non-space characters with whitespace or an end on both
      sides is a word of `s.split()`. */
  lemma {:induction false} WordAtInWords(s: string, w: string, i: int)
    requires w != [] && NoSpace(w) && WordAt(s, w, i)
    ensures w in Words(s)
    decreases |s|
  {
    assert s[i..i + |w|][0] == s[i];
    if IsSpace(s[0]) {
      assert !IsSpace(w[0]);
      assert i > 0;
      WordAtDrop(s, w, 1, i - 1);
      assert WordAt(s[1..], w, i - 1);
      WordAtInWords(s[1..], w, i - 1);
    } else {
      var k := WordLen(s);
      var t := s[k..];
      assert Words(s) == [s[..k]] + Words(t);
      if i == 0 {
        WordAtStart(s, w);
      } else {
        assert IsSpace(s[i - 1]);
        assert i - 1 >= k;
        WordAtDrop(s, w, k, i - k);
        assert WordAt(t, w, i - k);
        WordAtInWords(t, w, i - k);
      }
    }
  }

  /**
   * `w in s.split()` exactly when `w` stands in `s` between whitespace or
   * the ends of `s`: membership in the class list is a whole-word test.
   */
  lemma InWordsIff(s: string, w: string)
    requires w != [] && NoSpace(w)
    ensures w in Words(s) <==> exists i :: WordAt(s, w, i)
  {
    if w in Words(s) {
      WordsStandInText(s, w);
    }
    if i :| WordAt(s, w, i) {
      WordAtInWords(s, w, i);
    }
  }

  /** `re.sub(r"\s+", " ", s)`: every run of whitespace becomes one space. */
  function Collapse(s: string): string
    decreases |s|
  {
    if s == [] then []
    else if IsSpace(s[0]) then " " + Collapse(s[SpaceLen(s)..])
    else [s[0]] + Collapse(s[1..])
  }

  /** The text `handle_data` prints: stripped, with whitespace collapsed. */
  function Normalize(data: string): string {
    Collapse(Strip(data))
  }

  /** `" ".join(ws)`. */
  function JoinSpace(ws: seq<string>): string {
    if ws == [] then []
    else if |ws| == 1 then ws[0]
    else ws[0] + " " + JoinSpace(ws[1..])
  }

  /** A string without whitespace at either end. */
  predicate Trimmed(s: string) {
    s == [] || (!IsSpace(s[0]) && !IsSpace(s[|s| - 1]))
  }

  lemma StripTrims(s: string)
    ensures Trimmed(Strip(s))
  {
    var r := RStrip(s);
    var l := LStrip(r);
    if l != [] {
      assert l[|l| - 1] == r[|r| - 1];
    }
  }

  lemma {:induction false} CollapseWord(s: string, k: nat)
    requires k <= |s| && forall i :: 0 <= i < k ==> !IsSpace(s[i])
    ensures Collapse(s) == s[..k] + Collapse(s[k..])
  {
    if k > 0 {
      CollapseWord(s[1..], k - 1);
      assert s[1..][k - 1..] == s[k..];
      assert s[..k] == [s[0]] + s[1..][..k - 1];
    }
  }

  lemma {:induction false} WordsSkipSpaces(s: string, m: nat)
    requires m <= |s| && forall i :: 0 <= i < m ==> IsSpace(s[i])
    ensures Words(s) == Words(s[m..])
  {
    if m > 0 {
      WordsSkipSpaces(s[1..], m - 1);
      assert s[1..][m - 1..] == s[m..];
    }
  }

  /** On a trimmed string, collapsing whitespace is joining its words with
      single spaces. */
  lemma {:induction false} CollapseTrimmed(s: string)
    requires Trimmed(s)
    ensures Collapse(s) == JoinSpace(Words(s))
    decreases |s|
  {
    if s != [] {
      var k := WordLen(s);
      var w := s[..k];
      CollapseWord(s, k);
      assert Words(s) == [w] + Words(s[k..]);
      if k < |s| {
        var t := s[k..];
        var m := SpaceLen(t);
        assert t[|t| - 1] == s[|s| - 1];
        assert m < |t|;
        var u := t[m..];
        assert u == s[k + m..];
        assert Trimmed(u);
        CollapseTrimmed(u);
        WordsSkipSpaces(t, m);
        assert Words(u) != [];
        assert Collapse(t) == " " + Collapse(u);
      }
    }
  }

  lemma {:induction false} WordsAppendSpaces(s: string, t: string)
    requires forall i :: 0 <= i < |t| ==> IsSpace(t[i])
    ensures Words(s + t) == Words(s)
    decreases |s| + |t|
  {
    if s == [] {
      if t != [] {
        WordsAppendSpaces(s, t[1..]);
        assert (s + t)[1..] == s + t[1..];
      }
    } else if IsSpace(s[0]) {
      WordsAppendSpaces(s[1..], t);
      assert (s + t)[1..] == s[1..] + t;
    } else {
      var k := WordLen(s);
      var k' := WordLen(s + t);
      assert forall i :: 0 <= i < |s| ==> (s + t)[i] == s[i];
      assert k < |s| ==> (s + t)[k] == s[k];
      assert k == |s| && t != [] ==> (s + t)[k] == t[0];
      assert k' == k;
      assert (s + t)[..k] == s[..k];
      assert (s + t)[k..] == s[k..] + t;
      WordsAppendSpaces(s[k..], t);
    }
  }

  /** `data.split()` is not changed by `data.strip()`. */
  lemma StripKeepsWords(s: string)
    ensures Words(Strip(s)) == Words(s)
  {
    var r := RStrip(s);
    assert s == r + s[|r|..];
    WordsAppendSpaces(r, s[|r|..]);
    WordsSkipSpaces(r, |r| - |LStrip(r)|);
  }

  /**
   * What `handle_data` prints is the words of the data, in order, joined
   * by single spaces: `re.sub(r"\s+", " ", d.strip()) == " ".join(d.split())`.
   */
  lemma NormalizeIsJoinedWords(data: string)
    ensures Normalize(data) == JoinSpace(Words(data))
  {
    StripTrims(data);
    CollapseTrimmed(Strip(data));
    StripKeepsWords(data);
  }

  /** Joined non-empty words hold no whitespace but single spaces between
      two non-space characters. */
  lemma {:induction false} JoinSpaceShape(ws: seq<string>)
    requires forall i :: 0 <= i < |ws| ==> ws[i] != [] && NoSpace(ws[i])
    ensures var r := JoinSpace(ws);
            && (r == [] <==> ws == [])
            && forall i :: 0 <= i < |r| && IsSpace(r[i]) ==>
                 r[i] == ' ' && 0 < i < |r| - 1 && !IsSpace(r[i - 1]) && !IsSpace(r[i + 1])
  {
    if |ws| > 1 {
      JoinSpaceShape(ws[1..]);
      var w := ws[0];
      var rest := JoinSpace(ws[1..]);
      var r := JoinSpace(ws);
      assert r == w + " " + rest;
      forall i | 0 <= i < |r| && IsSpace(r[i])
        ensures r[i] == ' ' && 0 < i < |r| - 1 && !IsSpace(r[i - 1]) && !IsSpace(r[i + 1])
      {
        if i == |w| {
          assert r[i - 1] == w[|w| - 1];
          assert r[i + 1] == rest[0];
        } else {
          assert r[i] == rest[i - |w| - 1];
          assert r[i - 1] == (if i - 1 == |w| then ' ' else rest[i - |w| - 2]);
          assert r[i + 1] == rest[i - |w|];
        }
      }
    }
  }

  /**
   * The printed text has no whitespace at either end and no run of two
   * whitespace characters, every whitespace left is a plain space, and it
   * is empty exactly when the data is all whitespace.
   */
  lemma NormalizeShape(data: string)
    ensures var r := Normalize(data);
            && (r == [] <==> forall i :: 0 <= i < |data| ==> IsSpace(data[i]))
            && forall i :: 0 <= i < |r| && IsSpace(r[i]) ==>
                 r[i] == ' ' && 0 < i < |r| - 1 && !IsSpace(r[i - 1]) && !IsSpace(r[i + 1])
  {
    NormalizeIsJoinedWords(data);
    JoinSpaceShape(Words(data));
    if i :| 0 <= i < |data| && !IsSpace(data[i]) {
      WordsNonEmpty(data, i);
    }
  }

  lemma {:induction false} WordsNonEmpty(s: string, i: nat)
    requires i < |s| && !IsSpace(s[i])
    ensures Words(s) != []
    decreases |s|
  {
    if IsSpace(s[0]) {
      WordsNonEmpty(s[1..], i - 1);
    }
  }

  /* Attributes. */

  type Attrs = seq<(string, string)>

  /** `dict(attrs).get(key)`: the value of the last attribute named `key`. */
  function Lookup(attrs: Attrs, key: string): (r: Option<string>)
    ensures r.None? <==> forall i :: 0 <= i < |attrs| ==> attrs[i].0 != key
    ensures r.Some? ==> (key, r.value) in attrs
  {
    if attrs == [] then None
    else if attrs[|attrs| - 1].0 == key then Some(attrs[|attrs| - 1].1)
    else Lookup(attrs[..|attrs| - 1], key)
  }

  /** A later attribute of the same name wins, as in `dict(attrs)`. */
  lemma {:induction false} LookupLastWins(a: Attrs, key: string, v: string, b: Attrs)
    requires forall i :: 0 <= i < |b| ==> b[i].0 != key
    ensures Lookup(a + [(key, v)] + b, key) == Some(v)
    decreases |b|
  {
    if b != [] {
      var b' := b[..|b| - 1];
      assert (a + [(key, v)] + b)[..|a + [(key, v)] + b| - 1] == a + [(key, v)] + b';
      LookupLastWins(a, key, v, b');
    } else {
      assert a + [(key, v)] + b == a + [(key, v)];
    }
  }

  /** `should_ignore`: a header link, an `a` tag with `headerlink` among
      its classes. */
  predicate ShouldIgnore(tag: string, attrs: Attrs) {
    var cls := match Lookup(attrs, "class") case Some(c) => c case None => "";
    tag == "a" && "headerlink" in Words(cls)
  }

  /** A tag is a header link exactly when it is an `a` tag whose `class`
      attribute holds `headerlink` as a whole word. */
  lemma ShouldIgnoreIff(tag: string, attrs: Attrs)
    ensures ShouldIgnore(tag, attrs)
            <==> tag == "a" && Lookup(attrs, "class").Some?
                 && exists i :: WordAt(Lookup(attrs, "class").value, "headerlink", i)
  {
    assert NoSpace("headerlink");
    match Lookup(attrs, "class")
    case Some(c) => InWordsIff(c, "headerlink");
    case None => assert Words("") == [];
  }

  /** `should_omit`: `span` tags are left out, their contents are not. */
  predicate ShouldOmit(tag: string) {
    tag == "span"
  }

  predicate IsKeptAttr(name: string) {
    name in {"id", "href"}
  }

  /** The ` k="v"` text of the `id` and `href` attributes, in their order. */
  function KeptAttrs(attrs: Attrs): (r: string)
    ensures r == [] || r[0] == ' '
  {
    if attrs == [] then ""
    else
      var (k, v) := attrs[|attrs| - 1];
      KeptAttrs(attrs[..|attrs| - 1]) + (if IsKeptAttr(k) then " " + k + "=\"" + v + "\"" else "")
  }

  /** Kept attributes are written in the order they came. */
  lemma {:induction false} KeptAttrsAppend(a: Attrs, b: Attrs)
    ensures KeptAttrs(a + b) == KeptAttrs(a) + KeptAttrs(b)
    decreases |b|
  {
    if b != [] {
      var b' := b[..|b| - 1];
      var (k, v) := b[|b| - 1];
      var x := if IsKeptAttr(k) then " " + k + "=\"" + v + "\"" else "";
      assert (a + b)[..|a + b| - 1] == a + b';
      assert (a + b)[|a + b| - 1] == b[|b| - 1];
      calc {
        KeptAttrs(a + b);
        KeptAttrs(a + b') + x;
        { KeptAttrsAppend(a, b'); }
        KeptAttrs(a) + KeptAttrs(b') + x;
        KeptAttrs(a) + KeptAttrs(b);
      }
    } else {
      assert a + b == a;
    }
  }

  /** Attributes other than `id` and `href` leave no trace. */
  lemma {:induction false} KeptAttrsDropsOthers(attrs: Attrs)
    requires forall i :: 0 <= i < |attrs| ==> !IsKeptAttr(attrs[i].0)
    ensures KeptAttrs(attrs) == ""
  {
    if attrs != [] {
      KeptAttrsDropsOthers(attrs[..|attrs| - 1]);
    }
  }

  lemma KeptAttrsExample()
    ensures KeptAttrs([("class", "x"), ("href", "#s"), ("id", "s")]) == " href=\"#s\" id=\"s\""
  {
    var a := [("class", "x"), ("href", "#s"), ("id", "s")];
    assert a[..2][..1][..0] == [];
    assert a[..2][..1] == [("class", "x")];
    assert a[..2] == [("class", "x"), ("href", "#s")];
    assert !IsKeptAttr("class") && IsKeptAttr("href") && IsKeptAttr("id");
    assert KeptAttrs(a[..2][..1]) == "";
    assert KeptAttrs(a[..2]) == " href=\"#s\"";
  }

  /** The text printed for a start tag. */
  function StartTagText(tag: string, attrs: Attrs): string {
    "<" + tag + KeptAttrs(attrs) + ">"
  }

  /* The summariser's state and its steps. */

  datatype State = State(indent: int, printIndent: int, main: bool, ignoring: bool,
                         ignoringStartLevel: int, omitLevels: set<int>, output: seq<string>)

  const Init := State(0, 0, false, false, 0, {}, [])

  /** `" " * n`. */
  function Pad(n: int): (r: string)
    ensures |r| == if n <= 0 then 0 else n
  {
    if n <= 0 then "" else Repeat(' ', n)
  }

  /** What `print` can be given without indexing past the string's end. */
  predicate Printable(s: string) {
    s != [] && (s[0] == '<' ==> |s| >= 2)
  }

  predicate IsClosing(s: string) {
    |s| >= 2 && s[..2] == "</"
  }

  /** `print(s)`: a closing tag is dedented before it is written, an
      opening tag indents what follows. */
  function PrintStep(st: State, s: string): State
    requires Printable(s)
  {
    var before := if IsClosing(s) then st.printIndent - 2 else st.printIndent;
    var after := if s[0] == '<' && s[1] != '/' then before + 2 else before;
    st.(printIndent := after, output := st.output + [Pad(before), s, "\n"])
  }

  /** `handle_starttag`. */
  function StartStep(st: State, tag: string, attrs: Attrs): State {
    var st1 :=
      if st.main && !st.ignoring then
        var st2 :=
          if ShouldIgnore(tag, attrs) then st.(ignoring := true, ignoringStartLevel := st.indent)
          else if ShouldOmit(tag) then st.(omitLevels := st.omitLevels + {st.indent})
          else PrintStep(st, StartTagText(tag, attrs));
        st2.(indent := st2.indent + 1)
      else st;
    if Lookup(attrs, "role") == Some("main") then st1.(main := true) else st1
  }

  /** `handle_endtag`. */
  function EndStep(st: State, tag: string): State {
    if !st.main then st
    else
      var level := st.indent - 1;
      var st1 := st.(indent := level);
      var st2 :=
        if level in st.omitLevels then st1.(omitLevels := st.omitLevels - {level})
        else if !st.ignoring then PrintStep(st1, "</" + tag + ">")
        else if level == st.ignoringStartLevel then st1.(ignoring := false)
        else st1;
      if level == 0 then st2.(main := false) else st2
  }

  /** `handle_data` asserts that printed text does not start with `<`. */
  predicate DataOk(st: State, data: string) {
    var d := Normalize(data);
    st.main && !st.ignoring && d != [] ==> d[0] != '<'
  }

  /** `handle_data`. */
  function DataStep(st: State, data: string): State
    requires DataOk(st, data)
  {
    if st.main && !st.ignoring then
      var d := Normalize(data);
      if d != [] then PrintStep(st, d) else st
    else st
  }

  /** The parser's callbacks, in document order. */
  datatype Event = StartTag(tag: string, attrs: Attrs) | EndTag(tag: string) | Data(text: string)

  /** Text that `handle_data` accepts in every state. */
  predicate TextOk(text: string) {
    var d := Normalize(text);
    d == [] || d[0] != '<'
  }

  /** An event the handlers accept in every state. */
  predicate EventOk(e: Event) {
    match e
    case Data(text) => TextOk(text)
    case _ => true
  }

  predicate EventsOk(events: seq<Event>) {
    forall i :: 0 <= i < |events| ==> EventOk(events[i])
  }

  function Step(st: State, e: Event): State
    requires EventOk(e)
  {
    match e
    case StartTag(tag, attrs) => StartStep(st, tag, attrs)
    case EndTag(tag) => EndStep(st, tag)
    case Data(text) => DataStep(st, text)
  }

  /** The state after the handlers have seen `events`. */
  function Run(st: State, events: seq<Event>): State
    requires EventsOk(events)
  {
    if events == [] then st
    else Step(Run(st, events[..|events| - 1]), events[|events| - 1])
  }

  /** `summary()`. */
  function SummaryOf(st: State): string {
    Join(st.output)
  }

  /* Properties. */

  /**
   * The indentation rules of `print`: text is written at the current
   * indentation and leaves it as it is; an opening tag is written at it
   * and indents by two; a closing tag is first dedented by two and
   * written there.
   */
  lemma PrintRules(st: State, s: string)
    requires Printable(s)
    ensures var r := PrintStep(st, s);
            && (s[0] != '<' ==> r.printIndent == st.printIndent && r.output == st.output + [Pad(st.printIndent), s, "\n"])
            && (s[0] == '<' && s[1] != '/' ==> r.printIndent == st.printIndent + 2 && r.output == st.output + [Pad(st.printIndent), s, "\n"])
            && (s[0] == '<' && s[1] == '/' ==> r.printIndent == st.printIndent - 2 && r.output == st.output + [Pad(st.printIndent - 2), s, "\n"])
  {
    if s[0] == '<' && s[1] == '/' {
      assert s[..2] == "</";
    }
  }

  /** An opening tag is written at the current indentation and indents. */
  lemma OpeningTagPrinted(st: State, tag: string, attrs: Attrs)
    requires tag == [] || tag[0] != '/'
    ensures PrintStep(st, StartTagText(tag, attrs))
            == st.(printIndent := st.printIndent + 2,
                   output := st.output + [Pad(st.printIndent), StartTagText(tag, attrs), "\n"])
  {
    var t := StartTagText(tag, attrs);
    assert t[0] == '<' && t[1] != '/';
  }

  /** A closing tag is dedented before it is written. */
  lemma ClosingTagPrinted(st: State, tag: string)
    ensures PrintStep(st, "</" + tag + ">")
            == st.(printIndent := st.printIndent - 2,
                   output := st.output + [Pad(st.printIndent - 2), "</" + tag + ">", "\n"])
  {
    var t := "</" + tag + ">";
    assert t[..2] == "</" && t[0] == '<' && t[1] == '/';
  }

  lemma JoinLine(p: string, s: string, n: string)
    ensures Join([p, s, n]) == p + s + n
  {
    assert [n][1..] == [];
    assert Join([n]) == n;
    assert [s, n][1..] == [n];
    assert Join([s, n]) == s + n;
    assert [p, s, n][1..] == [s, n];
  }

  /** The summary grows by exactly the line `print` writes. */
  lemma SummaryGrows(st: State, s: string)
    requires Printable(s)
    ensures var r := PrintStep(st, s);
            SummaryOf(r) == SummaryOf(st) + Pad(if IsClosing(s) then st.printIndent - 2 else st.printIndent) + s + "\n"
  {
    var p := Pad(if IsClosing(s) then st.printIndent - 2 else st.printIndent);
    JoinAppend(st.output, [p, s, "\n"]);
    JoinLine(p, s, "\n");
  }

  lemma {:induction false} JoinAppend(a: seq<string>, b: seq<string>)
    ensures Join(a + b) == Join(a) + Join(b)
  {
    if a != [] {
      assert (a + b)[1..] == a[1..] + b;
      calc {
        Join(a + b);
        (a + b)[0] + Join((a + b)[1..]);
        a[0] + Join(a[1..] + b);
        { JoinAppend(a[1..], b); }
        a[0] + (Join(a[1..]) + Join(b));
        Join(a) + Join(b);
      }
    } else {
      assert a + b == b;
    }
  }

  /** The omitted levels all lie below the current level, so the end tag
      that brings the level back to one of them is its span's own. */
  predicate OmitBelow(st: State) {
    forall l :: l in st.omitLevels ==> l < st.indent
  }

  lemma StepKeepsOmitBelow(st: State, e: Event)
    requires EventOk(e) && OmitBelow(st)
    ensures OmitBelow(Step(st, e))
  {
  }

  lemma {:induction false} RunKeepsOmitBelow(st: State, events: seq<Event>)
    requires EventsOk(events) && OmitBelow(st)
    ensures OmitBelow(Run(st, events))
  {
    if events != [] {
      RunKeepsOmitBelow(st, events[..|events| - 1]);
      StepKeepsOmitBelow(Run(st, events[..|events| - 1]), events[|events| - 1]);
    }
  }

  predicate OpensMain(e: Event) {
    e.StartTag? && Lookup(e.attrs, "role") == Some("main")
  }

  /** Before the `role="main"` element nothing is written and nothing else
      of the state moves. */
  lemma {:induction false} NothingBeforeMain(st: State, events: seq<Event>)
    requires EventsOk(events) && !st.main
    requires forall i :: 0 <= i < |events| ==> !OpensMain(events[i])
    ensures Run(st, events) == st
  {
    if events != [] {
      var front := events[..|events| - 1];
      assert forall i :: 0 <= i < |front| ==> front[i] == events[i];
      NothingBeforeMain(st, front);
      assert !OpensMain(events[|events| - 1]);
    }
  }

  /** A `span` start tag inside the main element only records its level. */
  lemma SpanOpens(st: State, attrs: Attrs)
    requires st.main && !st.ignoring
    ensures StartStep(st, "span", attrs) == st.(omitLevels := st.omitLevels + {st.indent}, indent := st.indent + 1)
  {
  }

  /** A header link's start tag inside the main element starts ignoring. */
  lemma HeaderLinkOpens(st: State, attrs: Attrs)
    requires st.main && !st.ignoring && ShouldIgnore("a", attrs)
    ensures StartStep(st, "a", attrs) == st.(ignoring := true, ignoringStartLevel := st.indent, indent := st.indent + 1)
  {
  }

  lemma Run2(st: State, a: Event, b: Event)
    requires EventOk(a) && EventOk(b)
    ensures EventsOk([a, b]) && Run(st, [a, b]) == Step(Step(st, a), b)
  {
    forall i | 0 <= i < 2 ensures EventOk([a, b][i]) {
      if i == 0 { assert [a, b][i] == a; } else { assert [a, b][i] == b; }
    }
    assert [a, b][..1] == [a];
    assert [a][0] == a;
    assert [a][..0] == [];
    assert EventsOk([a]);
    assert Run(st, [a]) == Step(Run(st, []), a);
    assert Run(st, [a, b]) == Step(Run(st, [a]), b);
  }

  lemma Run3(st: State, a: Event, b: Event, c: Event)
    requires EventOk(a) && EventOk(b) && EventOk(c)
    ensures EventsOk([a, b, c]) && Run(st, [a, b, c]) == Step(Step(Step(st, a), b), c)
  {
    Run2(st, a, b);
    assert [a, b, c] == [a, b] + [c];
    assert [a, b, c][..2] == [a, b];
  }

  lemma Run4(st: State, a: Event, b: Event, c: Event, d: Event)
    requires EventOk(a) && EventOk(b) && EventOk(c) && EventOk(d)
    ensures EventsOk([a, b, c, d]) && Run(st, [a, b, c, d]) == Step(Step(Step(Step(st, a), b), c), d)
  {
    Run3(st, a, b, c);
    assert [a, b, c, d] == [a, b, c] + [d];
    assert [a, b, c, d][..3] == [a, b, c];
  }

  /** The tag that opens the main element is not written itself: it only
      switches the summariser on. */
  lemma MainTagNotPrinted(st: State, tag: string, attrs: Attrs)
    requires !st.main && Lookup(attrs, "role") == Some("main")
    ensures StartStep(st, tag, attrs) == st.(main := true)
  {
  }

  /**
   * An empty `span` inside the main element leaves no trace: the state is
   * as before, except that closing it at level 0 ends the main element.
   */
  lemma SpanLeavesNoTrace(st: State, attrs: Attrs)
    requires st.main && !st.ignoring && OmitBelow(st)
    ensures Run(st, [StartTag("span", attrs), EndTag("span")]) == st.(main := st.indent != 0)
  {
    Run2(st, StartTag("span", attrs), EndTag("span"));
    SpanOpens(st, attrs);
    assert st.indent !in st.omitLevels;
    assert st.omitLevels + {st.indent} - {st.indent} == st.omitLevels;
  }

  /** The contents of a `span` are written where the span's own tag would
      have set them: one level in, at the printing indent of its parent. */
  lemma SpanTextNotIndented(st: State, attrs: Attrs, text: string)
    requires st.main && !st.ignoring && OmitBelow(st)
    requires EventsOk([StartTag("span", attrs), Data(text)]) && Normalize(text) != []
    ensures Run(st, [StartTag("span", attrs), Data(text)])
            == st.(omitLevels := st.omitLevels + {st.indent}, indent := st.indent + 1,
                   output := st.output + [Pad(st.printIndent), Normalize(text), "\n"])
  {
    assert EventOk([StartTag("span", attrs), Data(text)][1]);
    Run2(st, StartTag("span", attrs), Data(text));
    SpanOpens(st, attrs);
    DataPrinted(StartStep(st, "span", attrs), text);
  }

  /**
   * A header link is dropped with its text: after its end tag the state is
   * as before, except for the recorded start level and, at level 0, the
   * end of the main element.
   */
  lemma HeaderLinkIgnored(st: State, attrs: Attrs, text: string)
    requires st.main && !st.ignoring && OmitBelow(st)
    requires ShouldIgnore("a", attrs) && EventsOk([StartTag("a", attrs), Data(text), EndTag("a")])
    ensures Run(st, [StartTag("a", attrs), Data(text), EndTag("a")])
            == st.(ignoringStartLevel := st.indent, main := st.indent != 0)
  {
    assert EventOk([StartTag("a", attrs), Data(text), EndTag("a")][1]);
    Run3(st, StartTag("a", attrs), Data(text), EndTag("a"));
    HeaderLinkOpens(st, attrs);
    var s1 := StartStep(st, "a", attrs);
    assert DataStep(s1, text) == s1;
    assert st.indent !in st.omitLevels;
  }

  /**
   * Start tags inside a header link do not move the level but their end
   * tags do, so a tag nested in a header link ends the ignoring early, and
   * the link's own end tag is then written.
   */
  lemma NestedTagEndsIgnoring(st: State, attrs: Attrs, tag: string)
    requires st.main && !st.ignoring && OmitBelow(st) && st.indent != 0
    requires ShouldIgnore("a", attrs)
    ensures var evs := [StartTag("a", attrs), StartTag(tag, []), EndTag(tag), EndTag("a")];
            EventsOk(evs) &&
            var r := Run(st, evs);
            && !r.ignoring && r.indent == st.indent - 1
            && (st.indent - 1 !in st.omitLevels ==>
                  r.output == st.output + [Pad(st.printIndent - 2), "</a>", "\n"])
  {
    Run4(st, StartTag("a", attrs), StartTag(tag, []), EndTag(tag), EndTag("a"));
    NestedTagSteps(st, attrs, tag);
  }

  /** The handler calls behind `NestedTagEndsIgnoring`, one after another. */
  lemma NestedTagSteps(st: State, attrs: Attrs, tag: string)
    requires st.main && !st.ignoring && OmitBelow(st) && st.indent != 0
    requires ShouldIgnore("a", attrs)
    ensures var r := EndStep(EndStep(StartStep(StartStep(st, "a", attrs), tag, []), tag), "a");
            && !r.ignoring && r.indent == st.indent - 1
            && (st.indent - 1 !in st.omitLevels ==>
                  r.output == st.output + [Pad(st.printIndent - 2), "</a>", "\n"])
  {
    HeaderLinkOpens(st, attrs);
    var s1 := st.(ignoring := true, ignoringStartLevel := st.indent, indent := st.indent + 1);
    IgnoredTagEndsIgnoring(s1, tag);
    var s3 := st.(ignoring := false, ignoringStartLevel := st.indent);
    if st.indent - 1 !in st.omitLevels {
      EndTagWritten(s3, "a");
      LinkEndTag();
    }
  }

  lemma LinkEndTag()
    ensures "</" + "a" + ">" == "</a>"
  {
  }

  /** While ignoring, a start tag changes nothing, and its end tag, back at
      the level where the ignoring began, ends it. */
  lemma IgnoredTagEndsIgnoring(st: State, tag: string)
    requires st.main && st.ignoring && st.ignoringStartLevel == st.indent - 1 != 0
    requires st.indent - 1 !in st.omitLevels
    ensures EndStep(StartStep(st, tag, []), tag) == st.(ignoring := false, indent := st.indent - 1)
  {
    assert StartStep(st, tag, []) == st;
  }

  /**
   * A start tag that is neither omitted nor ignored is written with its
   * `id` and `href` attributes only, and moves one level in.
   */
  lemma StartTagWritten(st: State, tag: string, attrs: Attrs)
    requires st.main && !st.ignoring && !ShouldIgnore(tag, attrs) && !ShouldOmit(tag)
    requires tag == [] || tag[0] != '/'
    ensures StartStep(st, tag, attrs)
            == st.(indent := st.indent + 1, printIndent := st.printIndent + 2,
                   output := st.output + [Pad(st.printIndent), "<" + tag + KeptAttrs(attrs) + ">", "\n"])
  {
    OpeningTagPrinted(st, tag, attrs);
  }

  /** Without attributes, a start tag is written as `<tag>`. */
  lemma BareStartTag(tag: string)
    ensures "<" + tag + KeptAttrs([]) + ">" == "<" + tag + ">"
  {
  }

  /** Level 0 is the main element's own: the end tag that returns there
      switches the summariser off, so only the first element inside the
      main one is summarised. */
  lemma FirstChildEndsMain(tag: string, attrs: Attrs, child: string)
    requires Lookup(attrs, "role") == Some("main")
    requires child != "a" && child != "span" && (child == [] || child[0] != '/')
    ensures var evs := [StartTag(tag, attrs), StartTag(child, []), EndTag(child)];
            EventsOk(evs) &&
            var r := Run(Init, evs);
            && !r.main && r.indent == 0 && r.printIndent == 0
            && r.output == ["", "<" + child + ">", "\n", "", "</" + child + ">", "\n"]
  {
    Run3(Init, StartTag(tag, attrs), StartTag(child, []), EndTag(child));
    FirstChildSteps(tag, attrs, child);
  }

  /** The handler calls behind `FirstChildEndsMain`, one after another. */
  lemma FirstChildSteps(tag: string, attrs: Attrs, child: string)
    requires Lookup(attrs, "role") == Some("main")
    requires child != "a" && child != "span" && (child == [] || child[0] != '/')
    ensures var r := EndStep(StartStep(StartStep(Init, tag, attrs), child, []), child);
            && !r.main && r.indent == 0 && r.printIndent == 0
            && r.output == ["", "<" + child + ">", "\n", "", "</" + child + ">", "\n"]
  {
    MainTagNotPrinted(Init, tag, attrs);
    var s1 := Init.(main := true);
    assert !ShouldIgnore(child, []);
    StartTagWritten(s1, child, []);
    BareStartTag(child);
    var s2 := s1.(indent := 1, printIndent := 2, output := [Pad(0), "<" + child + ">", "\n"]);
    EndTagWritten(s2, child);
  }

  /** An end tag inside the main element, neither omitted nor ignored, is
      written one level out; at level 0 it ends the main element. */
  lemma EndTagWritten(st: State, tag: string)
    requires st.main && !st.ignoring && st.indent - 1 !in st.omitLevels
    ensures EndStep(st, tag)
            == st.(indent := st.indent - 1, printIndent := st.printIndent - 2,
                   output := st.output + [Pad(st.printIndent - 2), "</" + tag + ">", "\n"],
                   main := st.indent - 1 != 0)
  {
    ClosingTagPrinted(st.(indent := st.indent - 1), tag);
  }

  /** Text inside the main element is written at the current indentation,
      which it leaves as it is. */
  lemma DataPrinted(st: State, data: string)
    requires st.main && !st.ignoring && TextOk(data) && Normalize(data) != []
    ensures DataStep(st, data) == st.(output := st.output + [Pad(st.printIndent), Normalize(data), "\n"])
  {
    var d := Normalize(data);
    assert d[0] != '<';
    assert !IsClosing(d);
  }

  /** What is written for text is its words joined by single spaces. */
  lemma DataWritten(st: State, data: string)
    requires st.main && !st.ignoring && TextOk(data) && Normalize(data) != []
    ensures DataStep(st, data).output == st.output + [Pad(st.printIndent), JoinSpace(Words(data)), "\n"]
  {
    DataPrinted(st, data);
    NormalizeIsJoinedWords(data);
  }

  /* The summariser object. */

  class HtmlSummarizer {
    /** The nesting level in the original HTML. */
    var indent: int
    /** The indentation of the next line written. */
    var printIndent: int
    /** Whether the `role="main"` element has been opened. */
    var main: bool
    /** Whether tags are ignored until the level returns to `ignoringStartLevel`. */
    var ignoring: bool
    var ignoringStartLevel: int
    /** The levels of omitted tags, whose children are still attended to. */
    var omitLevels: set<int>
    var output: seq<string>

    function Snapshot(): State
      reads this
    {
      State(indent, printIndent, main, ignoring, ignoringStartLevel, omitLevels, output)
    }

    constructor()
      ensures Snapshot() == Init
    {
      indent := 0;
      printIndent := 0;
      main := false;
      ignoring := false;
      ignoringStartLevel := 0;
      omitLevels := {};
      output := [];
    }

    method Print(s: string)
      requires Printable(s)
      modifies this
      ensures Snapshot() == PrintStep(old(Snapshot()), s)
    {
      if |s| >= 2 && s[..2] == "</" {
        printIndent := printIndent - 2;
      }
      output := output + [Pad(printIndent)];
      output := output + [s];
      output := output + ["\n"];
      if s[0] == '<' && s[1] != '/' {
        printIndent := printIndent + 2;
      }
    }

    function Summary(): (r: string)
      reads this
      ensures r == SummaryOf(Snapshot())
    {
      Join(output)
    }

    method HandleStartTag(tag: string, attrs: Attrs)
      modifies this
      ensures Snapshot() == StartStep(old(Snapshot()), tag, attrs)
    {
      if main && !ignoring {
        if ShouldIgnore(tag, attrs) {
          ignoring := true;
          ignoringStartLevel := indent;
        } else if ShouldOmit(tag) {
          omitLevels := omitLevels + {indent};
        } else {
          Print(StartTagText(tag, attrs));
        }
        indent := indent + 1;
      }
      if Lookup(attrs, "role") == Some("main") {
        main := true;
      }
    }

    method HandleEndTag(tag: string)
      modifies this
      ensures Snapshot() == EndStep(old(Snapshot()), tag)
    {
      if main {
        indent := indent - 1;
        if indent in omitLevels {
          omitLevels := omitLevels - {indent};
        } else if !ignoring {
          Print("</" + tag + ">");
        } else {
          if indent == ignoringStartLevel {
            ignoring := false;
          }
        }
        if indent == 0 {
          main := false;
        }
      }
    }

    method HandleData(data: string)
      requires DataOk(Snapshot(), data)
      modifies this
      ensures Snapshot() == DataStep(old(Snapshot()), data)
    {
      if main && !ignoring {
        var d := Normalize(data);
        if d != [] {
          Print(d);
        }
      }
    }

    /** Hands one event to its handler. */
    method HandleEvent(e: Event)
      requires EventOk(e)
      modifies this
      ensures Snapshot() == Step(old(Snapshot()), e)
    {
      match e {
        case StartTag(tag, attrs) => HandleStartTag(tag, attrs);
        case EndTag(tag) => HandleEndTag(tag);
        case Data(text) => HandleData(text);
      }
    }

    /** Hands the events to the handlers in order, as the parser's `feed`
        does once it has tokenised the text. */
    method Feed(events: seq<Event>)
      requires EventsOk(events)
      modifies this
      ensures Snapshot() == Run(old(Snapshot()), events)
    {
      var i := 0;
      while i < |events|
        decreases |events| - i
        invariant 0 <= i <= |events|
        invariant Snapshot() == Run(old(Snapshot()), events[..i])
      {
        assert events[..i + 1][..i] == events[..i];
        HandleEvent(events[i]);
        i := i + 1;
      }
      assert events[..|events|] == events;
    }
  }

  /** `summarize_html_file`, given the events of the file's text: a fresh
      summariser is fed the events and its summary returned. */
  method SummarizeEvents(events: seq<Event>) returns (summary: string)
    requires EventsOk(events)
    ensures summary == SummaryOf(Run(Init, events))
  {
    var parser := new HtmlSummarizer();
    parser.Feed(events);
    summary := parser.Summary();
  }
}
