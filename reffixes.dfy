/**
 * The two rewrites that turn a self-link into plain text, as leftmost-match
 * string functions. For a role `r` and a target `t` (matched literally):
 *
 *   Bare:     :r:`t`, :r:`~t` or :r:`.t`   becomes  :r:`!t`
 *   Display:  :r:`D <t>`                   becomes  :r:`!D`
 *
 * where `D` is a non-empty run of characters other than `<`, and the
 * whitespace between `D` and `<` is dropped. Each rewrite replaces the
 * leftmost occurrence only (`re.sub(..., count=1)`).
 */
module RefFixes {
  import opened Wrappers
  import opened Strings

  /** The two entries of `REF_FIXES`, in the order they are tried. */
  datatype Pattern = Bare | Display

  const RefFixPatterns: seq<Pattern> := [Bare, Display]

  /** A match at some position: how many characters it spans and what replaces them. */
  datatype Match = Match(len: nat, replacement: string)

  /** The text every match starts with, `:r:``. */
  function Prefix(role: string): string {
    ":" + role + ":`"
  }

  /** `w` occurs in `s` at position `p`. */
  predicate StartsAt(s: string, p: nat, w: string) {
    p + |w| <= |s| && forall i :: 0 <= i < |w| ==> s[p + i] == w[i]
  }

  lemma StartsAtSlice(s: string, p: nat, w: string)
    requires p + |w| <= |s| && s[p..p + |w|] == w
    ensures StartsAt(s, p, w)
  {
    forall i | 0 <= i < |w| ensures s[p + i] == w[i] {
      assert s[p..p + |w|][i] == w[i];
    }
  }

  lemma StartsAtSplit(s: string, p: nat, a: string, b: string)
    requires StartsAt(s, p, a + b)
    ensures StartsAt(s, p, a) && StartsAt(s, p + |a|, b)
  {
    forall i | 0 <= i < |a| ensures s[p + i] == a[i] {
      assert (a + b)[i] == a[i];
    }
    forall i | 0 <= i < |b| ensures s[p + |a| + i] == b[i] {
      assert (a + b)[|a| + i] == b[i];
    }
  }

  /** The pieces of `w1 + w2 + w3 + w4` occur one after the other. */
  lemma StartsAtPieces(s: string, p: nat, w1: string, w2: string, w3: string, w4: string)
    requires StartsAt(s, p, w1 + w2 + w3 + w4)
    ensures StartsAt(s, p, w1) && StartsAt(s, p + |w1|, w2)
    ensures StartsAt(s, p + |w1| + |w2|, w3) && StartsAt(s, p + |w1| + |w2| + |w3|, w4)
  {
    assert w1 + w2 + w3 + w4 == w1 + (w2 + (w3 + w4));
    StartsAtSplit(s, p, w1, w2 + (w3 + w4));
    StartsAtSplit(s, p + |w1|, w2, w3 + w4);
    StartsAtSplit(s, p + |w1| + |w2|, w3, w4);
  }

  /** The index of the first `<` in `s` at or after `i`, if any. */
  function FirstAngle(s: string, i: nat): (r: Option<nat>)
    requires i <= |s|
    ensures r.Some? ==> i <= r.value < |s| && s[r.value] == '<'
    ensures r.Some? ==> forall k :: i <= k < r.value ==> s[k] != '<'
    ensures r.None? ==> forall k :: i <= k < |s| ==> s[k] != '<'
    decreases |s| - i
  {
    if i == |s| then None
    else if s[i] == '<' then Some(i)
    else FirstAngle(s, i + 1)
  }

  lemma FirstAngleAt(s: string, i: nat, j: nat)
    requires i <= j < |s| && s[j] == '<'
    requires forall k :: i <= k < j ==> s[k] != '<'
    ensures FirstAngle(s, i) == Some(j)
  {
  }

  /** `s[q..j].rstrip()` as an end index: trailing whitespace before `j`
      is skipped, but not past `q`. */
  function TrimEnd(s: string, q: nat, j: nat): (e: nat)
    requires q <= j <= |s|
    ensures q <= e <= j
    ensures e == q || !IsSpace(s[e - 1])
    ensures forall k :: e <= k < j ==> IsSpace(s[k])
    decreases j
  {
    if j > q && IsSpace(s[j - 1]) then TrimEnd(s, q, j - 1) else j
  }

  lemma {:induction false} TrimEndAt(s: string, q: nat, e: nat, j: nat)
    requires q < e <= j <= |s| && !IsSpace(s[e - 1])
    requires forall k :: e <= k < j ==> IsSpace(s[k])
    ensures TrimEnd(s, q, j) == e
    decreases j
  {
    if j > e {
      TrimEndAt(s, q, e, j - 1);
    }
  }

  /**
   * The end of the lazy group `([^<]+?)` when the first `<` after it is at
   * `j`: the group gives up the whitespace `\s*` can take, but keeps at
   * least one character, since it may not be empty.
   */
  function GroupEnd(s: string, q: nat, j: nat): (e: nat)
    requires q < j <= |s|
    ensures q < e <= j
  {
    var e := TrimEnd(s, q, j);
    if e == q then q + 1 else e
  }

  /**
   * The bare pattern anchored at `p`: the prefix, then one optional `~` or
   * `.` (tried first, as `[~.]?` is greedy), then the target and a closing
   * backtick. The replacement always differs from the text it replaces: it
   * has `!` where that text has `~` or `.`, or is one character longer.
   */
  function BareAt(s: string, p: nat, role: string, target: string): (r: Option<Match>)
    requires p <= |s|
    ensures r.Some? ==> p + r.value.len <= |s| && r.value.replacement != s[p..p + r.value.len]
  {
    var pre := Prefix(role);
    var tail := target + "`";
    var q := p + |pre|;
    if !StartsAt(s, p, pre) then None
    else if q < |s| && (s[q] == '~' || s[q] == '.') && StartsAt(s, q + 1, tail) then
      var m := Match(|pre| + 1 + |tail|, pre + "!" + tail);
      assert s[p..p + m.len][|pre|] == s[q] != '!' == m.replacement[|pre|];
      Some(m)
    else if StartsAt(s, q, tail) then
      Some(Match(|pre| + |tail|, pre + "!" + tail))
    else None
  }

  /**
   * The display-text pattern anchored at `p`: the prefix, a non-empty lazy
   * group of non-`<` characters, optional whitespace, then `<`, the target,
   * `>` and a backtick. The first `<` after the prefix must open the target.
   * The replacement keeps the group and is always shorter than the text it
   * replaces.
   */
  function DisplayAt(s: string, p: nat, role: string, target: string): (r: Option<Match>)
    requires p <= |s|
    ensures r.Some? ==> p + r.value.len <= |s| && |r.value.replacement| < r.value.len
  {
    var pre := Prefix(role);
    var q := p + |pre|;
    if !StartsAt(s, p, pre) then None
    else
      match FirstAngle(s, q)
      case None => None
      case Some(j) =>
        if j == q || !StartsAt(s, j, "<" + target + ">`") then None
        else Some(Match(j + |target| + 3 - p, pre + "!" + s[q..GroupEnd(s, q, j)] + "`"))
  }

  function MatchAt(pat: Pattern, s: string, p: nat, role: string, target: string): Option<Match>
    requires p <= |s|
  {
    match pat
    case Bare => BareAt(s, p, role, target)
    case Display => DisplayAt(s, p, role, target)
  }

  /** The match, if any, at every start position `0..|s|`. */
  function Matches(pat: Pattern, s: string, role: string, target: string): (r: seq<Option<Match>>)
    ensures |r| == |s| + 1
  {
    seq(|s| + 1, k requires 0 <= k <= |s| => MatchAt(pat, s, k, role, target))
  }

  /** The first hit in `hits` at or after `p`. */
  function Leftmost(hits: seq<Option<Match>>, p: nat): (r: Option<(nat, Match)>)
    ensures r.Some? ==> p <= r.value.0 < |hits| && hits[r.value.0] == Some(r.value.1)
    decreases |hits| - p
  {
    if p >= |hits| then None
    else match hits[p]
      case Some(m) => Some((p, m))
      case None => Leftmost(hits, p + 1)
  }

  /** Nothing before the hit found is a hit; when none is found there is none. */
  lemma {:induction false} LeftmostIsFirst(hits: seq<Option<Match>>, p: nat)
    ensures var r := Leftmost(hits, p);
            && (r.Some? ==> forall k :: p <= k < r.value.0 ==> hits[k].None?)
            && (r.None? ==> forall k :: p <= k < |hits| ==> hits[k].None?)
    decreases |hits| - p
  {
    if p < |hits| && hits[p].None? {
      LeftmostIsFirst(hits, p + 1);
    }
  }

  /** A hit with none before it is the one found. */
  lemma {:induction false} LeftmostFinds(hits: seq<Option<Match>>, p: nat, i: nat)
    requires p <= i < |hits| && hits[i].Some?
    requires forall k :: p <= k < i ==> hits[k].None?
    ensures Leftmost(hits, p) == Some((i, hits[i].value))
    decreases i - p
  {
    if p < i {
      LeftmostFinds(hits, p + 1, i);
    }
  }

  /** `re.search`: the leftmost position where the pattern matches. */
  function Search(pat: Pattern, s: string, role: string, target: string): (r: Option<(nat, Match)>)
    ensures r.Some? ==> r.value.0 <= |s| && MatchAt(pat, s, r.value.0, role, target) == Some(r.value.1)
  {
    Leftmost(Matches(pat, s, role, target), 0)
  }

  /** The search finds the leftmost match: none starts before the position
      found, and when it finds nothing, none starts anywhere. */
  lemma SearchIsLeftmost(pat: Pattern, s: string, role: string, target: string)
    ensures var r := Search(pat, s, role, target);
            && (r.Some? ==> forall k :: 0 <= k < r.value.0 ==> MatchAt(pat, s, k, role, target).None?)
            && (r.None? ==> forall k :: 0 <= k <= |s| ==> MatchAt(pat, s, k, role, target).None?)
  {
    var hits := Matches(pat, s, role, target);
    LeftmostIsFirst(hits, 0);
    forall k | 0 <= k <= |s| ensures hits[k] == MatchAt(pat, s, k, role, target) {
    }
  }

  /** `re.sub(pat, repl, line, count=1)`: rewrite the leftmost match, if any. */
  function Fix(pat: Pattern, line: string, role: string, target: string): string {
    match Search(pat, line, role, target)
    case None => line
    case Some((p, m)) => line[..p] + m.replacement + line[p + m.len..]
  }

  /**
   * A rewrite changes the line exactly when the pattern matches somewhere in
   * it; the driver relies on this to know whether a fix took.
   */
  lemma FixChangesIffMatch(pat: Pattern, line: string, role: string, target: string)
    ensures Fix(pat, line, role, target) != line
            <==> exists p :: 0 <= p <= |line| && MatchAt(pat, line, p, role, target).Some?
  {
    SearchIsLeftmost(pat, line, role, target);
    match Search(pat, line, role, target)
    case None =>
    case Some((p, m)) =>
      assert line[p..p + m.len] != m.replacement;
      SpliceDiffers(line, p, m.len, m.replacement);
  }

  /** Putting a different text in place of a slice changes the line. */
  lemma SpliceDiffers(line: string, p: nat, len: nat, replacement: string)
    requires p + len <= |line| && line[p..p + len] != replacement
    ensures line[..p] + replacement + line[p + len..] != line
  {
    var r := line[..p] + replacement + line[p + len..];
    if |replacement| == len {
      assert r[p..p + len] == replacement;
    } else {
      assert |r| != |line|;
    }
  }

  /**
   * Only the leftmost occurrence is rewritten: the text before it and the
   * text after it are kept as they were, so a second occurrence later in
   * the line survives one call.
   */
  lemma FixRewritesLeftmostOnly(pat: Pattern, line: string, role: string, target: string, p: nat)
    requires p <= |line| && MatchAt(pat, line, p, role, target).Some?
    requires forall k :: 0 <= k < p ==> MatchAt(pat, line, k, role, target).None?
    ensures var m := MatchAt(pat, line, p, role, target).value;
            Fix(pat, line, role, target) == line[..p] + m.replacement + line[p + m.len..]
  {
    var hits := Matches(pat, line, role, target);
    forall k | 0 <= k < p ensures hits[k].None? {
      assert hits[k] == MatchAt(pat, line, k, role, target);
    }
    assert hits[p] == MatchAt(pat, line, p, role, target);
    LeftmostFinds(hits, 0, p);
  }

  /** Every match starts with the `:` of its prefix. */
  lemma NoMatchWithoutColon(pat: Pattern, s: string, k: nat, role: string, target: string)
    requires k <= |s| && (k == |s| || s[k] != ':')
    ensures MatchAt(pat, s, k, role, target).None?
  {
    assert Prefix(role)[0] == ':';
  }

  /** `:r:`t`` matches the bare pattern, unless the target itself starts
      with `~` or `.`. */
  lemma BareMatchesPlain(s: string, p: nat, role: string, target: string)
    requires StartsAt(s, p, Prefix(role) + (target + "`"))
    requires target == [] || (target[0] != '~' && target[0] != '.')
    ensures BareAt(s, p, role, target) == Some(Match(|Prefix(role)| + |target| + 1, Prefix(role) + "!" + (target + "`")))
  {
    var pre := Prefix(role);
    var tail := target + "`";
    StartsAtSplit(s, p, pre, tail);
    assert s[p + |pre| + 0] == tail[0];
    assert tail[0] != '~' && tail[0] != '.' by {
      if target != [] {
        assert tail[0] == target[0];
      }
    }
  }

  /** `:r:`~t`` and `:r:`.t`` match the bare pattern and lose the `~` or `.`. */
  lemma BareMatchesMarked(s: string, p: nat, role: string, target: string, mark: char)
    requires mark == '~' || mark == '.'
    requires StartsAt(s, p, Prefix(role) + ([mark] + (target + "`")))
    ensures BareAt(s, p, role, target) == Some(Match(|Prefix(role)| + |target| + 2, Prefix(role) + "!" + (target + "`")))
  {
    var pre := Prefix(role);
    var tail := target + "`";
    StartsAtSplit(s, p, pre, [mark] + tail);
    StartsAtSplit(s, p + |pre|, [mark], tail);
    assert s[p + |pre| + 0] == ([mark] + tail)[0] == mark;
  }

  /** The first `<` after the prefix closes the display text when the text
      has none and only whitespace follows it. */
  lemma FirstAngleAfterText(s: string, q: nat, display: string, gap: string)
    requires StartsAt(s, q, display) && StartsAt(s, q + |display|, gap)
    requires '<' !in display && forall k :: 0 <= k < |gap| ==> IsSpace(gap[k])
    requires q + |display| + |gap| < |s| && s[q + |display| + |gap|] == '<'
    ensures FirstAngle(s, q) == Some(q + |display| + |gap|)
  {
    var e := q + |display|;
    forall k | q <= k < e + |gap| ensures s[k] != '<' {
      if k < e {
        assert s[q + (k - q)] == display[k - q];
      } else {
        assert s[e + (k - e)] == gap[k - e];
      }
    }
    FirstAngleAt(s, q, e + |gap|);
  }

  /** The group gives up exactly the whitespace after the display text. */
  lemma TrimEndAfterText(s: string, q: nat, display: string, gap: string)
    requires StartsAt(s, q, display) && StartsAt(s, q + |display|, gap)
    requires display != [] && !IsSpace(display[|display| - 1])
    requires forall k :: 0 <= k < |gap| ==> IsSpace(gap[k])
    ensures TrimEnd(s, q, q + |display| + |gap|) == q + |display|
    ensures s[q..q + |display|] == display
  {
    var e := q + |display|;
    assert s[q + (|display| - 1)] == display[|display| - 1];
    forall k | e <= k < e + |gap| ensures IsSpace(s[k]) {
      assert s[e + (k - e)] == gap[k - e];
    }
    TrimEndAt(s, q, e, e + |gap|);
  }

  /**
   * `:r:`D <t>`` as the display pattern reads it: the display text `D` is
   * not empty and has no `<`, `gap` is whitespace, and `D` does not end in
   * whitespace unless it is a single character (the lazy group keeps one
   * character even when everything before `<` is whitespace).
   */
  predicate DisplayShape(s: string, p: nat, role: string, display: string, gap: string, target: string) {
    && StartsAt(s, p, Prefix(role) + display + gap + ("<" + target + ">`"))
    && display != [] && '<' !in display
    && (|display| == 1 || !IsSpace(display[|display| - 1]))
    && forall k :: 0 <= k < |gap| ==> IsSpace(gap[k])
  }

  /** The match the display pattern makes of that text: `D` is kept and the
      whitespace before `<` is dropped. */
  function DisplayMatch(role: string, display: string, gap: string, target: string): Match {
    Match(|Prefix(role)| + |display| + |gap| + |target| + 3, Prefix(role) + "!" + display + "`")
  }

  lemma StartsAtIsSlice(s: string, p: nat, w: string)
    requires StartsAt(s, p, w)
    ensures s[p..p + |w|] == w
  {
  }

  /** Four pieces that occur one after the other make up their concatenation. */
  lemma StartsAtJoined(s: string, p: nat, w1: string, w2: string, w3: string, w4: string)
    requires StartsAt(s, p, w1) && StartsAt(s, p + |w1|, w2)
    requires StartsAt(s, p + |w1| + |w2|, w3) && StartsAt(s, p + |w1| + |w2| + |w3|, w4)
    ensures StartsAt(s, p, w1 + w2 + w3 + w4)
  {
    var w := w1 + w2 + w3 + w4;
    forall i | 0 <= i < |w| ensures s[p + i] == w[i] {
      if i < |w1| {
      } else if i < |w1| + |w2| {
        assert s[p + |w1| + (i - |w1|)] == w2[i - |w1|];
      } else if i < |w1| + |w2| + |w3| {
        assert s[p + |w1| + |w2| + (i - |w1| - |w2|)] == w3[i - |w1| - |w2|];
      } else {
        assert s[p + |w1| + |w2| + |w3| + (i - |w1| - |w2| - |w3|)] == w4[i - |w1| - |w2| - |w3|];
      }
    }
  }

  /** The display pattern once its `<` at `j` is known. */
  lemma DisplayAtAngle(s: string, p: nat, role: string, target: string, j: nat)
    requires StartsAt(s, p, Prefix(role)) && FirstAngle(s, p + |Prefix(role)|) == Some(j)
    requires p + |Prefix(role)| < j && StartsAt(s, j, "<" + target + ">`")
    ensures var q := p + |Prefix(role)|;
            DisplayAt(s, p, role, target)
            == Some(Match(j + |target| + 3 - p, Prefix(role) + "!" + s[q..GroupEnd(s, q, j)] + "`"))
  {
  }

  /** The group of `D` followed by whitespace ends after `D`. */
  lemma GroupEndAfterText(s: string, q: nat, display: string, gap: string)
    requires StartsAt(s, q, display) && StartsAt(s, q + |display|, gap)
    requires display != [] && (|display| == 1 || !IsSpace(display[|display| - 1]))
    requires forall k :: 0 <= k < |gap| ==> IsSpace(gap[k])
    ensures GroupEnd(s, q, q + |display| + |gap|) == q + |display|
    ensures s[q..q + |display|] == display
  {
    if !IsSpace(display[|display| - 1]) {
      TrimEndAfterText(s, q, display, gap);
    } else {
      var j := q + |display| + |gap|;
      StartsAtIsSlice(s, q, display);
      forall k | q <= k < j ensures IsSpace(s[k]) {
        if k == q {
          assert s[q] == display[0];
        } else {
          assert s[q + |display| + (k - q - 1)] == gap[k - q - 1];
        }
      }
    }
  }

  /** Text of that shape matches the display pattern. */
  lemma DisplayMatches(s: string, p: nat, role: string, display: string, gap: string, target: string)
    requires DisplayShape(s, p, role, display, gap, target)
    ensures DisplayAt(s, p, role, target) == Some(DisplayMatch(role, display, gap, target))
  {
    var q := p + |Prefix(role)|;
    var j := q + |display| + |gap|;
    StartsAtPieces(s, p, Prefix(role), display, gap, "<" + target + ">`");
    assert s[j + 0] == ("<" + target + ">`")[0];
    FirstAngleAfterText(s, q, display, gap);
    GroupEndAfterText(s, q, display, gap);
    DisplayAtAngle(s, p, role, target, j);
  }

  /** Before the first `<` at `j`, the group has no `<`, what it gives up is
      whitespace, and it ends in a non-space character unless it is one
      character long. */
  lemma GroupParts(s: string, q: nat, j: nat)
    requires q < j <= |s| && forall k :: q <= k < j ==> s[k] != '<'
    ensures var e := GroupEnd(s, q, j);
            && '<' !in s[q..e]
            && (forall k :: 0 <= k < |s[e..j]| ==> IsSpace(s[e..j][k]))
            && (e - q == 1 || !IsSpace(s[q..e][e - q - 1]))
  {
    var e := GroupEnd(s, q, j);
    forall k | 0 <= k < e - q ensures s[q..e][k] != '<' {
      assert s[q..e][k] == s[q + k];
    }
    forall k | 0 <= k < j - e ensures IsSpace(s[e..j][k]) {
      assert s[e..j][k] == s[e + k];
    }
  }

  /**
   * Every match of the display pattern is of that shape: the text at `p`
   * is the prefix, a display text, whitespace and `<t>``, and the match
   * spans exactly that and keeps the display text.
   */
  lemma DisplayAtInverse(s: string, p: nat, role: string, target: string)
    requires p <= |s| && DisplayAt(s, p, role, target).Some?
    ensures exists display, gap :: DisplayShape(s, p, role, display, gap, target)
              && DisplayAt(s, p, role, target) == Some(DisplayMatch(role, display, gap, target))
  {
    var pre := Prefix(role);
    var tail := "<" + target + ">`";
    var q := p + |pre|;
    var j := FirstAngle(s, q).value;
    var e := GroupEnd(s, q, j);
    var display := s[q..e];
    var gap := s[e..j];
    DisplayAtAngle(s, p, role, target, j);
    GroupParts(s, q, j);
    StartsAtSlice(s, q, display);
    StartsAtSlice(s, e, gap);
    StartsAtJoined(s, p, pre, display, gap, tail);
    assert DisplayShape(s, p, role, display, gap, target);
  }

  /* Rewrites of lines from the documentation the linter was written for. */

  lemma FixBareExample()
    ensures Fix(Bare, ":mod:`dbm` is", "mod", "dbm") == ":mod:`!dbm` is"
  {
    var line := ":mod:`dbm` is";
    assert Prefix("mod") + ("dbm" + "`") == line[..10];
    StartsAtSlice(line, 0, line[..10]);
    BareMatchesPlain(line, 0, "mod", "dbm");
    FixRewritesLeftmostOnly(Bare, line, "mod", "dbm", 0);
    assert line[..0] + ":mod:`!dbm`" + line[10..] == ":mod:`!dbm` is";
  }

  /** A `~` before the target is dropped with the link. */
  lemma FixTildeExample()
    ensures Fix(Bare, ":mod:`~a.b` and", "mod", "a.b") == ":mod:`!a.b` and"
  {
    var line := ":mod:`~a.b` and";
    assert Prefix("mod") + (['~'] + ("a.b" + "`")) == line[..11];
    StartsAtSlice(line, 0, line[..11]);
    BareMatchesMarked(line, 0, "mod", "a.b", '~');
    FixRewritesLeftmostOnly(Bare, line, "mod", "a.b", 0);
    assert line[..0] + ":mod:`!a.b`" + line[11..] == ":mod:`!a.b` and";
  }

  /** The display text is kept, without the space before `<`. */
  lemma FixDisplayExample()
    ensures Fix(Display, ":func:`ex <x>` f", "func", "x") == ":func:`!ex` f"
  {
    var line := ":func:`ex <x>` f";
    assert Prefix("func") + "ex" + " " + ("<" + "x" + ">`") == line[..14];
    StartsAtSlice(line, 0, line[..14]);
    DisplayExampleParts();
    DisplayMatches(line, 0, "func", "ex", " ", "x");
    FixRewritesLeftmostOnly(Display, line, "func", "x", 0);
    assert line[..0] + ":func:`!ex`" + line[14..] == ":func:`!ex` f";
  }

  lemma DisplayExampleParts()
    ensures '<' !in "ex" && !IsSpace("ex"[1]) && IsSpace(" "[0])
  {
  }

  /** Before `<`, whitespace alone still gives the group one character. */
  lemma FixBlankDisplayExample()
    ensures Fix(Display, ":func:`  <x>`", "func", "x") == ":func:`! `"
  {
    var line := ":func:`  <x>`";
    assert Prefix("func") + " " + " " + ("<" + "x" + ">`") == line[..13];
    StartsAtSlice(line, 0, line[..13]);
    assert IsSpace(' ');
    DisplayMatches(line, 0, "func", " ", " ", "x");
    FixRewritesLeftmostOnly(Display, line, "func", "x", 0);
    assert line[..0] + ":func:`! `" + line[13..] == ":func:`! `";
  }

  /** A target that is only the start of the name in the text (`execlp`
      inside `:func:`execlpe``) does not match the bare pattern. */
  lemma BareRejectsLongerName(s: string, p: nat, role: string, target: string)
    requires StartsAt(s, p, Prefix(role) + target)
    requires target != [] && target[0] != '~' && target[0] != '.'
    requires p + |Prefix(role)| + |target| < |s| && s[p + |Prefix(role)| + |target|] != '`'
    ensures BareAt(s, p, role, target).None?
  {
    var q := p + |Prefix(role)|;
    StartsAtSplit(s, p, Prefix(role), target);
    assert s[q + 0] == target[0];
    assert (target + "`")[|target|] == '`';
  }
}
