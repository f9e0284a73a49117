/** The highlighter of content-script.js: `escapeRx`, `unhighlightAll`,
    `highlightTerms` and the `HIGHLIGHT_CONCEPTS` handler that clears before
    it highlights.

    The page body is a sequence of nodes in document order. A text node
    carries its parent element; an element child of some element is an
    `Opening` node naming both, followed in the sequence by the child's own
    content, so two text nodes of one parent are neighbouring siblings
    exactly when they are neighbours in the sequence, and the openings give
    the tree. A `mark.psh-mark` is one `Mark` node: the
    text it wraps and its `data-concept`. */
module Highlight {
  import opened Chars
  import opened Optional
  import opened OrderedMaps
  import opened Seqs
  import Concepts

  /** An element as the highlighter sees it: its identity, its `nodeName`,
      whether it is or lies inside a `mark.psh-mark` (`closest`), and whether
      its computed `display` is `none`. */
  datatype Element = Element(id: nat, tag: string, insideMark: bool, hidden: bool)

  datatype Node =
    | Text(value: string, parent: Element)
    | Mark(text: string, concept: string, parent: Element)
    | Opening(parent: Element, child: Element)

  /** The parents whose text is never wrapped. */
  const RejectedTags: seq<string> := ["SCRIPT", "STYLE", "NOSCRIPT", "IFRAME", "CODE", "PRE", "MARK"]

  // ---------------------------------------------------------------------
  // Text content and marks

  function NodeText(n: Node): string {
    match n
    case Text(v, _) => v
    case Mark(t, _, _) => t
    case Opening(_, _) => []
  }

  /** `textContent` of the body. */
  function TextOf(nodes: seq<Node>): string {
    if nodes == [] then [] else NodeText(nodes[0]) + TextOf(nodes[1..])
  }

  lemma TextOfCons(n: Node, ns: seq<Node>)
    ensures TextOf([n] + ns) == NodeText(n) + TextOf(ns)
  {
    assert ([n] + ns)[1..] == ns;
  }

  lemma {:induction false} TextOfAppend(a: seq<Node>, b: seq<Node>)
    ensures TextOf(a + b) == TextOf(a) + TextOf(b)
  {
    if a == [] {
      assert a + b == b;
    } else {
      var t := a[1..];
      TextOfAppend(t, b);
      var x := NodeText(a[0]);
      calc {
        TextOf(a + b);
        { ConsAppend(a, b); }
        x + TextOf(t + b);
        x + (TextOf(t) + TextOf(b));
        { Assoc(x, TextOf(t), TextOf(b)); }
        (x + TextOf(t)) + TextOf(b);
      }
    }
  }


  /** `document.querySelectorAll("mark.psh-mark").length` */
  function MarkCount(nodes: seq<Node>): nat {
    if nodes == [] then 0 else (if nodes[0].Mark? then 1 else 0) + MarkCount(nodes[1..])
  }

  lemma {:induction false} MarkCountAppend(a: seq<Node>, b: seq<Node>)
    ensures MarkCount(a + b) == MarkCount(a) + MarkCount(b)
  {
    if a == [] {
      assert a + b == b;
    } else {
      MarkCountAppend(a[1..], b);
      assert (a + b)[1..] == a[1..] + b;
    }
  }

  /** The text of each mark, in document order. */
  function MarkTexts(nodes: seq<Node>): seq<string> {
    if nodes == [] then []
    else (if nodes[0].Mark? then [nodes[0].text] else []) + MarkTexts(nodes[1..])
  }

  lemma {:induction false} MarkTextsCount(nodes: seq<Node>)
    ensures |MarkTexts(nodes)| == MarkCount(nodes)
  {
    if nodes != [] {
      MarkTextsCount(nodes[1..]);
    }
  }

  lemma {:induction false} MarkTextsAppend(a: seq<Node>, b: seq<Node>)
    ensures MarkTexts(a + b) == MarkTexts(a) + MarkTexts(b)
  {
    if a == [] {
      assert a + b == b;
    } else {
      var t := a[1..];
      MarkTextsAppend(t, b);
      var x := if a[0].Mark? then [a[0].text] else [];
      calc {
        MarkTexts(a + b);
        { ConsAppend(a, b); }
        x + MarkTexts(t + b);
        x + (MarkTexts(t) + MarkTexts(b));
        { Assoc(x, MarkTexts(t), MarkTexts(b)); }
        (x + MarkTexts(t)) + MarkTexts(b);
      }
    }
  }


  /** `norm` of each string. */
  function NormAll(ts: seq<string>): (r: seq<string>)
    ensures |r| == |ts| && forall i :: 0 <= i < |ts| ==> r[i] == Norm(ts[i])
  {
    seq(|ts|, i requires 0 <= i < |ts| => Norm(ts[i]))
  }

  /** The `norm` of each mark's text, in document order: the key under which
      highlightTerms records the term as highlighted. */
  function MarkKeys(nodes: seq<Node>): seq<string> {
    NormAll(MarkTexts(nodes))
  }

  lemma MarkKeysAppend(a: seq<Node>, b: seq<Node>)
    ensures MarkKeys(a + b) == MarkKeys(a) + MarkKeys(b)
  {
    MarkTextsAppend(a, b);
    var ta, tb := MarkTexts(a), MarkTexts(b);
    assert NormAll(ta + tb) == NormAll(ta) + NormAll(tb);
  }

  lemma {:induction false} NoMarkKeys(nodes: seq<Node>)
    requires forall n :: n in nodes ==> !n.Mark?
    ensures MarkCount(nodes) == 0 && MarkTexts(nodes) == [] && MarkKeys(nodes) == []
  {
    if nodes != [] {
      assert nodes[0] in nodes;
      assert forall n :: n in nodes[1..] ==> n in nodes;
      NoMarkKeys(nodes[1..]);
    }
  }


  predicate Distinct(xs: seq<string>) {
    forall i, j :: 0 <= i < j < |xs| ==> xs[i] != xs[j]
  }

  function SetOf(xs: seq<string>): set<string> {
    set x | x in xs
  }

  lemma {:induction false} DistinctCard(xs: seq<string>)
    requires Distinct(xs)
    ensures |SetOf(xs)| == |xs|
  {
    if xs != [] {
      DistinctTail(xs);
      DistinctCard(xs[1..]);
      SetOfSplit(xs);
    }
  }

  lemma DistinctTail(xs: seq<string>)
    requires Distinct(xs) && xs != []
    ensures Distinct(xs[1..]) && xs[0] !in xs[1..]
  {
    forall i, j | 0 <= i < j < |xs| - 1 ensures xs[1..][i] != xs[1..][j] {
      assert xs[1..][i] == xs[i + 1] && xs[1..][j] == xs[j + 1];
    }
    forall k | 0 <= k < |xs| - 1 ensures xs[1..][k] != xs[0] {
      assert xs[1..][k] == xs[k + 1];
    }
  }

  lemma SetOfSplit(xs: seq<string>)
    requires xs != []
    ensures SetOf(xs) == {xs[0]} + SetOf(xs[1..])
  {
    assert xs == [xs[0]] + xs[1..];
  }

  lemma {:induction false} SetOfCard(xs: seq<string>)
    ensures |SetOf(xs)| <= |xs|
  {
    if xs != [] {
      SetOfCard(xs[1..]);
      assert SetOf(xs) == {xs[0]} + SetOf(xs[1..]);
    }
  }

  /** A list without repeats drawn from `ys` is no longer than `ys`. */
  lemma DistinctWithin(xs: seq<string>, ys: seq<string>)
    requires Distinct(xs) && forall x :: x in xs ==> x in ys
    ensures |xs| <= |ys|
  {
    DistinctCard(xs);
    SetOfCard(ys);
    assert SetOf(xs) <= SetOf(ys);
    SubsetCard(SetOf(xs), SetOf(ys));
  }

  lemma SubsetCard(a: set<string>, b: set<string>)
    requires a <= b
    ensures |a| <= |b|
  {
    assert b == a + (b - a);
  }

  // ---------------------------------------------------------------------
  // norm: `String(s).toLowerCase().replace(/\s+/g, " ").trim()`

  function Norm(s: string): string {
    Squash(Lower(s), true)
  }

  /** `norm` is lower-casing, then collapsing each whitespace run to one
      space, then trimming. */
  lemma NormDef(s: string)
    ensures Norm(s) == Trim(CollapseRuns(Lower(s), IsJsSpace, ' '))
  {
    SquashSpec(Lower(s));
  }

  /** The form `norm` produces: no capital, no whitespace but single inner
      spaces. */
  predicate IsNormal(t: string) {
    && (forall i :: 0 <= i < |t| ==> !IsUpper(t[i]))
    && (forall i :: 0 <= i < |t| ==> (IsJsSpace(t[i]) ==> t[i] == ' '))
    && NoAdjacent(t, IsJsSpace)
    && Trimmed(t)
  }

  lemma NormShape(s: string)
    ensures IsNormal(Norm(s))
  {
    NormDef(s);
    TrimCollapsedNormal(Lower(s));
  }

  lemma TrimCollapsedNormal(l: string)
    requires forall i :: 0 <= i < |l| ==> !IsUpper(l[i])
    ensures IsNormal(Trim(CollapseRuns(l, IsJsSpace, ' ')))
  {
    CollapseRunsShape(l, IsJsSpace, ' ');
    CollapsedLower(l);
    TrimNormal(CollapseRuns(l, IsJsSpace, ' '));
  }

  /** Collapsing whitespace brings in no capital letter. */
  lemma CollapsedLower(l: string)
    requires forall i :: 0 <= i < |l| ==> !IsUpper(l[i])
    ensures var c := CollapseRuns(l, IsJsSpace, ' ');
      forall i :: 0 <= i < |c| ==> !IsUpper(c[i])
  {
    var c := CollapseRuns(l, IsJsSpace, ' ');
    CollapseRunsShape(l, IsJsSpace, ' ');
    forall i | 0 <= i < |c| ensures !IsUpper(c[i]) {
      if c[i] != ' ' {
        var j :| 0 <= j < |l| && l[j] == c[i];
      }
    }
  }

  /** Trimming a collapsed lower-case string leaves a normal one. */
  lemma TrimNormal(t: string)
    requires forall i :: 0 <= i < |t| ==> !IsUpper(t[i])
    requires forall i :: 0 <= i < |t| ==> (IsJsSpace(t[i]) ==> t[i] == ' ')
    requires NoAdjacent(t, IsJsSpace)
    ensures IsNormal(Trim(t))
  {
    TrimSpec(t);
    NormalSlice(t, Trim(t), TrimOffset(t));
  }

  lemma NormalSlice(t: string, r: string, a: nat)
    requires a + |r| <= |t| && r == t[a..a + |r|]
    requires forall i :: 0 <= i < |t| ==> !IsUpper(t[i])
    requires forall i :: 0 <= i < |t| ==> (IsJsSpace(t[i]) ==> t[i] == ' ')
    requires NoAdjacent(t, IsJsSpace) && Trimmed(r)
    ensures IsNormal(r)
  {
    assert forall i :: 0 <= i < |r| ==> r[i] == t[a + i];
  }

  /** A normal string is its own `norm`. */
  lemma NormFixpoint(t: string)
    requires IsNormal(t)
    ensures Lower(t) == t
    ensures Norm(t) == t
  {
    assert Lower(t) == t;
    NormDef(t);
    CollapseRunsFixpoint(t, IsJsSpace, ' ');
    TrimFixed(t);
  }

  /** A stretch of page text that equals a normal term ignoring case has that
      term as its `norm`. */
  lemma NormOfMatch(m: string, w: string)
    requires IsNormal(w) && EqualsIgnoreCase(m, w)
    ensures Norm(m) == w
  {
    NormFixpoint(w);
  }

  lemma NormEmpty()
    ensures Norm([]) == []
  {
    assert Lower([]) == [];
  }

  // ---------------------------------------------------------------------
  // escapeRx: `s.replace(/[.*+?^${}()|[\]\\]/g, "\\$&")`

  predicate IsRegexMeta(c: char) { c in ".*+?^${}()|[]\\" }

  function EscapeRx(s: string): string {
    if s == [] then [] else (if IsRegexMeta(s[0]) then ['\\', s[0]] else [s[0]]) + EscapeRx(s[1..])
  }

  /** How the regular-expression parser reads a pattern made of plain
      characters and backslash escapes: each escape stands for the character
      after the backslash. */
  function Unescape(p: string): string
    decreases |p|
  {
    if p == [] then []
    else if p[0] == '\\' && |p| >= 2 then [p[1]] + Unescape(p[2..])
    else [p[0]] + Unescape(p[1..])
  }

  /** Every metacharacter of the pattern is escaped. */
  predicate AllLiteral(p: string)
    decreases |p|
  {
    if p == [] then true
    else if p[0] == '\\' then |p| >= 2 && AllLiteral(p[2..])
    else !IsRegexMeta(p[0]) && AllLiteral(p[1..])
  }

  /** The escaped term is a pattern with no live metacharacter (so in
      particular no `|` that would split the alternation) that stands for
      exactly the term. */
  lemma {:induction false} EscapeRxLiteral(s: string)
    ensures AllLiteral(EscapeRx(s))
    ensures Unescape(EscapeRx(s)) == s
  {
    if s != [] {
      EscapeRxLiteral(s[1..]);
      var rest := EscapeRx(s[1..]);
      if IsRegexMeta(s[0]) {
        var p := ['\\', s[0]] + rest;
        assert p[2..] == rest;
      } else {
        var p := [s[0]] + rest;
        assert p[1..] == rest;
      }
      assert s == [s[0]] + s[1..];
    }
  }

  // ---------------------------------------------------------------------
  // The matcher of `new RegExp("\\b(" + alternatives + ")\\b", "gi")`

  /** Alternative `w` matches at `p`, between word boundaries, ignoring case. */
  predicate MatchesAt(text: string, p: nat, w: string) {
    && p + |w| <= |text|
    && Concepts.WordBoundary(text, p)
    && EqualsIgnoreCase(text[p..p + |w|], w)
    && Concepts.WordBoundary(text, p + |w|)
  }

  /** The first alternative from `k` on that matches at `p`: the alternation
      tries its branches in order and backtracks into the next one only when
      the trailing `\b` fails. */
  function AltAt(text: string, p: nat, ws: seq<string>, k: nat): (r: Option<nat>)
    requires k <= |ws|
    ensures r.Some? ==> k <= r.value < |ws| && p + |ws[r.value]| <= |text|
    decreases |ws| - k
  {
    if k == |ws| then None
    else if MatchesAt(text, p, ws[k]) then Some(k)
    else AltAt(text, p, ws, k + 1)
  }

  /** The alternative chosen matches at `p`. */
  lemma {:induction false} AltAtMatches(text: string, p: nat, ws: seq<string>, k: nat)
    requires k <= |ws|
    ensures AltAt(text, p, ws, k).Some? ==> MatchesAt(text, p, ws[AltAt(text, p, ws, k).value])
    decreases |ws| - k
  {
    if k < |ws| && !MatchesAt(text, p, ws[k]) {
      AltAtMatches(text, p, ws, k + 1);
    }
  }

  /** No alternative listed before the chosen one matches at `p`. */
  lemma {:induction false} AltAtFirst(text: string, p: nat, ws: seq<string>, k: nat, j: nat)
    requires k <= j < |ws|
    requires AltAt(text, p, ws, k).None? || j < AltAt(text, p, ws, k).value
    ensures !MatchesAt(text, p, ws[j])
    decreases |ws| - k
  {
    if k < j {
      AltAtFirst(text, p, ws, k + 1, j);
    }
  }

  /** A match: where it starts, which alternative matched, where it ends. */
  datatype Found = Found(start: nat, alt: nat, end: nat)

  /** `rx.exec(text)` from `lastIndex == i`: the leftmost position with a
      match. */
  function FindMatch(text: string, i: nat, ws: seq<string>): (r: Option<Found>)
    ensures r.Some? ==> var f := r.value;
      i <= f.start && f.alt < |ws| && f.end == f.start + |ws[f.alt]| <= |text|
    decreases |text| + 1 - i
  {
    if i > |text| then None
    else match AltAt(text, i, ws, 0)
      case Some(k) => Some(Found(i, k, i + |ws[k]|))
      case None => FindMatch(text, i + 1, ws)
  }

  /** A match found is the first alternative that matches at its start. */
  lemma {:induction false} FindMatchFound(text: string, i: nat, ws: seq<string>)
    requires FindMatch(text, i, ws).Some?
    ensures var f := FindMatch(text, i, ws).value;
      AltAt(text, f.start, ws, 0) == Some(f.alt)
    decreases |text| + 1 - i
  {
    if i <= |text| && AltAt(text, i, ws, 0).None? {
      FindMatchFound(text, i + 1, ws);
    }
  }

  /** No match starts between `i` and the match found. */
  lemma {:induction false} FindMatchLeftmost(text: string, i: nat, ws: seq<string>, p: nat)
    requires i <= p <= |text|
    requires FindMatch(text, i, ws).None? || p < FindMatch(text, i, ws).value.start
    ensures AltAt(text, p, ws, 0).None?
    decreases |text| + 1 - i
  {
    if i < p {
      FindMatchLeftmost(text, i + 1, ws, p);
    }
  }

  /** What a match of alternative `k` at `p` looks like: the page's own
      casing of the term, between word boundaries. */
  lemma FoundShape(text: string, i: nat, ws: seq<string>)
    requires FindMatch(text, i, ws).Some?
    ensures var f := FindMatch(text, i, ws).value;
      MatchesAt(text, f.start, ws[f.alt]) && EqualsIgnoreCase(text[f.start..f.end], ws[f.alt])
      && forall j :: 0 <= j < f.alt ==> !MatchesAt(text, f.start, ws[j])
  {
    var f := FindMatch(text, i, ws).value;
    FindMatchFound(text, i, ws);
    AltAtMatches(text, f.start, ws, 0);
    forall j | 0 <= j < f.alt ensures !MatchesAt(text, f.start, ws[j]) {
      AltAtFirst(text, f.start, ws, 0, j);
    }
  }

  // ---------------------------------------------------------------------
  // The requested terms: `firstOriginalByNorm` and `wanted`

  /** `firstOriginalByNorm` after the given terms: each non-blank `norm`,
      in order of first appearance, with the first term that had it. */
  function FirstByNorm(terms: seq<string>): (r: OrderedMap<string, string>)
    ensures |r| <= |terms|
    decreases |terms|
  {
    if terms == [] then []
    else
      var m := FirstByNorm(terms[..|terms| - 1]);
      var t := terms[|terms| - 1];
      var n := Norm(t);
      if n == [] || Get(m, n).Some? then m
      else
        PutKeys(m, n, t);
        Put(m, n, t)
  }

  /** The map's keys are distinct normal non-empty terms, and its values are
      non-empty. */
  ghost predicate WantedMap(first: OrderedMap<string, string>) {
    && DistinctKeys(first)
    && forall e :: e in first ==> e.0 != [] && IsNormal(e.0) && e.1 != []
  }

  lemma PutWanted(m: OrderedMap<string, string>, n: string, t: string)
    requires WantedMap(m) && n !in Keys(m) && n != [] && Norm(t) == n
    ensures WantedMap(Put(m, n, t))
  {
    PutDistinct(m, n, t);
    PutKeys(m, n, t);
    NormShape(t);
    NormEmpty();
    var r := Put(m, n, t);
    assert r == m + [(n, t)] by {
      PutAppends(m, n, t);
    }
  }

  lemma {:induction false} PutAppends<V>(m: OrderedMap<string, V>, n: string, v: V)
    requires n !in Keys(m)
    ensures Put(m, n, v) == m + [(n, v)]
  {
    if m != [] {
      KeysAt(m, 0);
      assert n !in Keys(m[1..]) by {
        forall i | 0 <= i < |m| - 1 ensures Keys(m[1..])[i] != n {
          KeysAt(m[1..], i);
          KeysAt(m, i + 1);
        }
      }
      PutAppends(m[1..], n, v);
    }
  }

  lemma {:induction false} FirstByNormWanted(terms: seq<string>)
    ensures WantedMap(FirstByNorm(terms))
    decreases |terms|
  {
    if terms != [] {
      var m := FirstByNorm(terms[..|terms| - 1]);
      var t := terms[|terms| - 1];
      FirstByNormWanted(terms[..|terms| - 1]);
      if Norm(t) != [] && Get(m, Norm(t)).None? {
        PutWanted(m, Norm(t), t);
      }
    }
  }

  /** The index of the first term whose `norm` is `k`: a reference
      definition of which term `firstOriginalByNorm` keeps. */
  function FirstIndex(terms: seq<string>, k: string): (r: Option<nat>)
    ensures r.Some? ==> r.value < |terms|
    decreases |terms|
  {
    if terms == [] then None
    else match FirstIndex(terms[..|terms| - 1], k)
      case Some(i) => Some(i)
      case None => if Norm(terms[|terms| - 1]) == k then Some(|terms| - 1) else None
  }

  /** FirstIndex finds the first term with `norm` `k`, and finds nothing
      only when no term has it. */
  lemma {:induction false} FirstIndexSpec(terms: seq<string>, k: string)
    ensures FirstIndex(terms, k).Some? ==> var i := FirstIndex(terms, k).value;
      Norm(terms[i]) == k && forall j :: 0 <= j < i ==> Norm(terms[j]) != k
    ensures FirstIndex(terms, k).None? ==> forall j :: 0 <= j < |terms| ==> Norm(terms[j]) != k
    decreases |terms|
  {
    if terms != [] {
      var init := terms[..|terms| - 1];
      FirstIndexSpec(init, k);
      match FirstIndex(init, k)
      case Some(i) =>
        assert FirstIndex(terms, k) == Some(i);
        assert terms[i] == init[i];
        forall j | 0 <= j < i ensures Norm(terms[j]) != k {
          assert terms[j] == init[j];
        }
      case None =>
        forall j | 0 <= j < |init| ensures Norm(terms[j]) != k {
          assert terms[j] == init[j];
        }
    }
  }

  /** Each non-blank `norm` of a term is a wanted key, mapped to the first
      term that has it; nothing else is a key. */
  lemma {:induction false} FirstByNormSpec(terms: seq<string>, k: string)
    ensures Get(FirstByNorm(terms), k)
      == if k == [] || FirstIndex(terms, k).None? then None else Some(terms[FirstIndex(terms, k).value])
    decreases |terms|
  {
    if terms != [] {
      var n := |terms| - 1;
      var init := terms[..n];
      var m := FirstByNorm(init);
      var t := terms[n];
      var nt := Norm(t);
      FirstByNormSpec(init, k);
      match FirstIndex(init, k)
      case Some(i) =>
        assert FirstIndex(terms, k) == Some(i);
        assert init[i] == terms[i];
        if nt != [] && Get(m, nt).None? {
          PutGet(m, nt, t);
        }
      case None =>
        assert FirstIndex(terms, k) == if nt == k then Some(n) else None;
        if nt != [] && Get(m, nt).None? {
          PutGet(m, nt, t);
        }
    }
  }

  /** The map built by the `terms.forEach` loop of highlightTerms. */
  method FirstOriginalByNorm(terms: seq<string>) returns (first: OrderedMap<string, string>)
    ensures first == FirstByNorm(terms)
  {
    first := [];
    for i := 0 to |terms|
      invariant first == FirstByNorm(terms[..i])
    {
      assert terms[..i + 1][..i] == terms[..i];
      var t := terms[i];
      var n := Norm(t);
      if n != [] && Get(first, n).None? {
        first := Put(first, n, t);
      }
    }
    assert terms[..|terms|] == terms;
  }

  /** `firstOriginalByNorm.get(key) || match` */
  function Display(first: OrderedMap<string, string>, key: string, m: string): string {
    match Get(first, key)
    case None => m
    case Some(d) => if d == [] then m else d
  }

  // ---------------------------------------------------------------------
  // Rewriting one text node: the `while (rx.exec(text))` loop

  predicate NonBlank(ws: seq<string>) {
    forall k :: 0 <= k < |ws| ==> ws[k] != []
  }

  /** The fragment that replaces a text node, and the set
      `alreadyHighlighted` after it. */
  datatype Rewritten = Rewritten(pieces: seq<Node>, marked: set<string>)

  /** `if (last < text.length) frag.appendChild(text.slice(last))` */
  function Rest(text: string, last: nat, parent: Element): seq<Node> {
    if last < |text| then [Text(text[last..], parent)] else []
  }

  /** The plain text between the previous match (or the start) and this
      one. */
  function Before(text: string, last: nat, start: nat, parent: Element): seq<Node>
    requires last <= start <= |text|
  {
    if start > last then [Text(text[last..start], parent)] else []
  }

  /** A match whose `norm` is already marked stays plain text; any other is
      wrapped in a mark showing the first original term. */
  function Piece(m: string, parent: Element, first: OrderedMap<string, string>, marked: set<string>): Node {
    if Norm(m) in marked then Text(m, parent) else Mark(m, Display(first, Norm(m), m), parent)
  }

  /** The fragment for `text[i..]` with `lastIndex == last == i`: plain text
      up to each match, then the match as its piece; the scan stops once
      every wanted term is marked. */
  function RewriteText(text: string, i: nat, parent: Element, ws: seq<string>,
                       first: OrderedMap<string, string>, marked: set<string>): Rewritten
    requires i <= |text| && NonBlank(ws)
    decreases |text| - i
  {
    var found := FindMatch(text, i, ws);
    if found.None? then Rewritten(Rest(text, i, parent), marked)
    else
      var f := found.value;
      var m := text[f.start..f.end];
      var head := Before(text, i, f.start, parent) + [Piece(m, parent, first, marked)];
      var marked' := marked + {Norm(m)};
      if |marked'| == |ws| then Rewritten(head + Rest(text, f.end, parent), marked')
      else
        var r := RewriteText(text, f.end, parent, ws, first, marked');
        Rewritten(head + r.pieces, r.marked)
  }

  /** What follows a match: the rest of the text once every wanted term is
      marked, the rewrite of the rest otherwise. */
  function After(text: string, end: nat, parent: Element, ws: seq<string>,
                 first: OrderedMap<string, string>, marked: set<string>): Rewritten
    requires end <= |text| && NonBlank(ws)
  {
    if |marked| == |ws| then Rewritten(Rest(text, end, parent), marked)
    else RewriteText(text, end, parent, ws, first, marked)
  }

  /** One step of RewriteText: this only unfolds the definition, for the
      proofs that follow. */
  lemma RewriteTextStep(text: string, i: nat, parent: Element, ws: seq<string>,
                        first: OrderedMap<string, string>, marked: set<string>, f: Found)
    requires i <= |text| && NonBlank(ws) && FindMatch(text, i, ws) == Some(f)
    ensures var m := text[f.start..f.end];
      var tail := After(text, f.end, parent, ws, first, marked + {Norm(m)});
      RewriteText(text, i, parent, ws, first, marked)
        == Rewritten(Before(text, i, f.start, parent) + [Piece(m, parent, first, marked)] + tail.pieces, tail.marked)
  {
  }

  /** One turn of the loop of RewriteTextNode keeps what is left to emit
      in step with RewriteText: the scan either stops with every wanted
      term marked or goes on from the end of the match. */
  lemma RewriteNodeStep(text: string, last: nat, parent: Element, ws: seq<string>,
                        first: OrderedMap<string, string>, marked: set<string>, f: Found,
                        pieces: seq<Node>, goal: Rewritten)
    requires last <= |text| && NonBlank(ws) && FindMatch(text, last, ws) == Some(f)
    requires var r := RewriteText(text, last, parent, ws, first, marked);
      pieces + r.pieces == goal.pieces && r.marked == goal.marked
    ensures var m := text[f.start..f.end];
      var pieces' := pieces + (Before(text, last, f.start, parent) + [Piece(m, parent, first, marked)]);
      var marked' := marked + {Norm(m)};
      && (|marked'| == |ws| ==> pieces' + Rest(text, f.end, parent) == goal.pieces && marked' == goal.marked)
      && (|marked'| != |ws| ==>
            var r := RewriteText(text, f.end, parent, ws, first, marked');
            pieces' + r.pieces == goal.pieces && r.marked == goal.marked)
  {
    var m := text[f.start..f.end];
    var tail := After(text, f.end, parent, ws, first, marked + {Norm(m)});
    RewriteTextStep(text, last, parent, ws, first, marked, f);
    Assoc(pieces, Before(text, last, f.start, parent) + [Piece(m, parent, first, marked)], tail.pieces);
  }

  /** The loop of RewriteTextNode ends when no match is left: this only
      unfolds the definition, for the loop's proof. */
  lemma RewriteNodeDone(text: string, last: nat, parent: Element, ws: seq<string>,
                        first: OrderedMap<string, string>, marked: set<string>,
                        pieces: seq<Node>, goal: Rewritten)
    requires last <= |text| && NonBlank(ws) && FindMatch(text, last, ws).None?
    requires var r := RewriteText(text, last, parent, ws, first, marked);
      pieces + r.pieces == goal.pieces && r.marked == goal.marked
    ensures pieces + Rest(text, last, parent) == goal.pieces && marked == goal.marked
  {
  }

  /** The body of the `while (rx.exec(text))` loop for the match `f`: the
      plain text before it, then its piece; its `norm` is now marked. */
  method EmitMatch(text: string, last: nat, f: Found, parent: Element,
                   first: OrderedMap<string, string>, pieces0: seq<Node>, marked0: set<string>)
    returns (pieces: seq<Node>, marked: set<string>)
    requires last <= f.start <= f.end <= |text|
    ensures var m := text[f.start..f.end];
      && pieces == pieces0 + (Before(text, last, f.start, parent) + [Piece(m, parent, first, marked0)])
      && marked == marked0 + {Norm(m)}
  {
    var start, end := f.start, f.end;
    var match_ := text[start..end];
    pieces, marked := pieces0, marked0;
    if start > last {
      pieces := pieces + [Text(text[last..start], parent)];
    }
    var key := Norm(match_);
    if key in marked {
      pieces := pieces + [Text(match_, parent)];
    } else {
      marked := marked + {key};
      pieces := pieces + [Mark(match_, Display(first, key, match_), parent)];
    }
  }

  /** The inner loop of highlightTerms for one text node. */
  method RewriteTextNode(text: string, parent: Element, ws: seq<string>,
                         first: OrderedMap<string, string>, marked0: set<string>)
    returns (pieces: seq<Node>, marked: set<string>)
    requires NonBlank(ws)
    ensures Rewritten(pieces, marked) == RewriteText(text, 0, parent, ws, first, marked0)
  {
    ghost var goal := RewriteText(text, 0, parent, ws, first, marked0);
    pieces, marked := [], marked0;
    var last: nat := 0;
    while true
      invariant last <= |text|
      invariant var r := RewriteText(text, last, parent, ws, first, marked);
        pieces + r.pieces == goal.pieces && r.marked == goal.marked
      decreases |text| - last
    {
      var m := FindMatch(text, last, ws);
      if m.None? {
        RewriteNodeDone(text, last, parent, ws, first, marked, pieces, goal);
        break;
      }
      var f := m.value;
      RewriteNodeStep(text, last, parent, ws, first, marked, f, pieces, goal);
      pieces, marked := EmitMatch(text, last, f, parent, first, pieces, marked);
      last := f.end;
      if |marked| == |ws| {
        break;
      }
    }
    pieces := pieces + Rest(text, last, parent);
  }

  // ---------------------------------------------------------------------
  // Rewriting the body: the tree walker and the loop over its nodes

  /** The walker's `acceptNode`: a text node whose immediate parent is not a
      rejected tag, does not lie in a `mark.psh-mark`, is displayed, and
      whose text has a match. */
  predicate Accepted(n: Node, ws: seq<string>) {
    && n.Text?
    && n.parent.tag !in RejectedTags
    && !n.parent.insideMark
    && !n.parent.hidden
    && FindMatch(n.value, 0, ws).Some?
  }

  /** What each node from `i` on becomes: an accepted text node, while some
      wanted term is still unmarked, becomes its fragment; every other node
      stays as it is. */
  function Blocks(doc: seq<Node>, i: nat, ws: seq<string>, first: OrderedMap<string, string>,
                  marked: set<string>): (r: seq<seq<Node>>)
    requires i <= |doc| && NonBlank(ws)
    ensures |r| == |doc| - i
    decreases |doc| - i
  {
    if i == |doc| then []
    else if |marked| != |ws| && Accepted(doc[i], ws) then
      var f := RewriteText(doc[i].value, 0, doc[i].parent, ws, first, marked);
      [f.pieces] + Blocks(doc, i + 1, ws, first, f.marked)
    else [[doc[i]]] + Blocks(doc, i + 1, ws, first, marked)
  }

  function Flatten(bs: seq<seq<Node>>): seq<Node> {
    if bs == [] then [] else bs[0] + Flatten(bs[1..])
  }

  lemma FlattenCons(b: seq<Node>, bs: seq<seq<Node>>)
    ensures Flatten([b] + bs) == b + Flatten(bs)
  {
    assert ([b] + bs)[1..] == bs;
  }

  /** The body after `highlightTerms(terms)`: nothing changes for an empty
      list or when every term is blank. */
  function Highlighted(doc: seq<Node>, terms: seq<string>): seq<Node> {
    var first := FirstByNorm(terms);
    var ws := Keys(first);
    if terms == [] || ws == [] then doc
    else
      WantedNonBlank(terms);
      Flatten(Blocks(doc, 0, ws, first, {}))
  }

  lemma WantedNonBlank(terms: seq<string>)
    ensures NonBlank(Keys(FirstByNorm(terms)))
    ensures forall k :: 0 <= k < |Keys(FirstByNorm(terms))| ==> IsNormal(Keys(FirstByNorm(terms))[k])
  {
    var first := FirstByNorm(terms);
    FirstByNormWanted(terms);
    forall k | 0 <= k < |Keys(first)| ensures Keys(first)[k] != [] && IsNormal(Keys(first)[k]) {
      KeysAt(first, k);
      assert first[k] in first;
    }
  }

  /** The walker's sequence: the indices from `i` on of the accepted text
      nodes. */
  function AcceptedFrom(doc: seq<Node>, i: nat, ws: seq<string>): seq<nat>
    requires i <= |doc|
    decreases |doc| - i
  {
    if i == |doc| then [] else (if Accepted(doc[i], ws) then [i] else []) + AcceptedFrom(doc, i + 1, ws)
  }

  /** The walker yields exactly the accepted text nodes, each once, in
      document order. */
  lemma AcceptedFromSpec(doc: seq<Node>, i: nat, ws: seq<string>)
    requires i <= |doc|
    ensures var r := AcceptedFrom(doc, i, ws);
      && (forall j :: 0 <= j < |r| ==> i <= r[j] < |doc|)
      && (forall j, k :: 0 <= j < k < |r| ==> r[j] < r[k])
      && (forall k :: i <= k < |doc| ==> (k in r <==> Accepted(doc[k], ws)))
  {
    AcceptedFromOrder(doc, i, ws);
    AcceptedFromMembers(doc, i, ws);
  }

  lemma {:induction false} AcceptedFromOrder(doc: seq<Node>, i: nat, ws: seq<string>)
    requires i <= |doc|
    ensures forall j :: 0 <= j < |AcceptedFrom(doc, i, ws)| ==> i <= AcceptedFrom(doc, i, ws)[j] < |doc|
    ensures forall j, k :: 0 <= j < k < |AcceptedFrom(doc, i, ws)| ==> AcceptedFrom(doc, i, ws)[j] < AcceptedFrom(doc, i, ws)[k]
    decreases |doc| - i
  {
    if i < |doc| {
      var t := AcceptedFrom(doc, i + 1, ws);
      AcceptedFromOrder(doc, i + 1, ws);
      if Accepted(doc[i], ws) {
        assert AcceptedFrom(doc, i, ws) == [i] + t;
        IncreasingCons(i, t, |doc|);
      } else {
        assert AcceptedFrom(doc, i, ws) == t;
      }
    }
  }

  lemma IncreasingCons(x: nat, t: seq<nat>, n: nat)
    requires x < n
    requires forall j :: 0 <= j < |t| ==> x < t[j] < n
    requires forall j, k :: 0 <= j < k < |t| ==> t[j] < t[k]
    ensures forall j :: 0 <= j < |[x] + t| ==> x <= ([x] + t)[j] < n
    ensures forall j, k :: 0 <= j < k < |[x] + t| ==> ([x] + t)[j] < ([x] + t)[k]
  {
    var r := [x] + t;
    assert forall j :: 1 <= j < |r| ==> r[j] == t[j - 1];
  }

  lemma {:induction false} AcceptedFromMembers(doc: seq<Node>, i: nat, ws: seq<string>)
    requires i <= |doc|
    ensures forall k :: i <= k < |doc| ==> (k in AcceptedFrom(doc, i, ws) <==> Accepted(doc[k], ws))
    decreases |doc| - i
  {
    if i < |doc| {
      AcceptedFromMembers(doc, i + 1, ws);
      AcceptedFromOrder(doc, i + 1, ws);
      var t := AcceptedFrom(doc, i + 1, ws);
      assert i !in t;
      if Accepted(doc[i], ws) {
        assert AcceptedFrom(doc, i, ws) == [i] + t;
      } else {
        assert AcceptedFrom(doc, i, ws) == t;
      }
    }
  }

  /** The walker loop `while ((node = walker.nextNode())) nodes.push(node)`. */
  method CollectNodes(doc: seq<Node>, ws: seq<string>) returns (nodes: seq<nat>)
    ensures nodes == AcceptedFrom(doc, 0, ws)
  {
    nodes := [];
    for i := 0 to |doc|
      invariant nodes + AcceptedFrom(doc, i, ws) == AcceptedFrom(doc, 0, ws)
    {
      var rest := AcceptedFrom(doc, i + 1, ws);
      if Accepted(doc[i], ws) {
        assert nodes + ([i] + rest) == (nodes + [i]) + rest;
        nodes := nodes + [i];
      } else {
        assert [] + rest == rest;
      }
    }
    assert AcceptedFrom(doc, |doc|, ws) == [];
    assert nodes + [] == nodes;
  }

  /** The `for (const n of nodes)` loop: each collected text node is replaced
      by its fragment, until every wanted term is marked. */
  method RewriteBody(doc: seq<Node>, ws: seq<string>, first: OrderedMap<string, string>, nodes: seq<nat>)
    returns (out: seq<Node>)
    requires NonBlank(ws) && ws != []
    requires nodes == AcceptedFrom(doc, 0, ws)
    ensures out == Flatten(Blocks(doc, 0, ws, first, {}))
  {
    ghost var goal := Flatten(Blocks(doc, 0, ws, first, {}));
    out := [];
    var copied: nat := 0;
    var marked: set<string> := {};
    var j: nat := 0;
    while j < |nodes|
      invariant j <= |nodes| && copied <= |doc|
      invariant nodes[j..] == AcceptedFrom(doc, copied, ws)
      invariant |marked| != |ws|
      invariant out + Flatten(Blocks(doc, copied, ws, first, marked)) == goal
      decreases |nodes| - j
    {
      out, copied, marked := RewriteNode(doc, ws, first, nodes[j], copied, marked, out, goal);
      assert nodes[j..][1..] == nodes[j + 1..];
      j := j + 1;
      if |marked| == |ws| {
        break;
      }
    }
    BlocksRest(doc, copied, ws, first, marked);
    out := out + doc[copied..];
  }

  /** One turn of the `for (const n of nodes)` loop: the node `i` the walker
      yielded next is replaced by its fragment. */
  method RewriteNode(doc: seq<Node>, ws: seq<string>, first: OrderedMap<string, string>, i: nat,
                     copied: nat, marked: set<string>, out: seq<Node>, ghost goal: seq<Node>)
    returns (out': seq<Node>, copied': nat, marked': set<string>)
    requires copied <= |doc| && NonBlank(ws) && |marked| != |ws|
    requires AcceptedFrom(doc, copied, ws) != [] && i == AcceptedFrom(doc, copied, ws)[0]
    requires out + Flatten(Blocks(doc, copied, ws, first, marked)) == goal
    ensures copied' == i + 1 <= |doc| && AcceptedFrom(doc, copied', ws) == AcceptedFrom(doc, copied, ws)[1..]
    ensures out' + Flatten(Blocks(doc, copied', ws, first, marked')) == goal
  {
    NextBounds(doc, copied, ws);
    var pieces, m := RewriteTextNode(doc[i].value, doc[i].parent, ws, first, marked);
    assert copied <= i < |doc| && doc[i].Text?;
    BodyStep(doc, ws, first, copied, i, marked, out, pieces, m, goal);
    out', copied', marked' := out + doc[copied..i] + pieces, i + 1, m;
  }

  /** The first index the walker yields from `a` on is an accepted node;
      the walker goes on after it. */
  lemma {:induction false} NextAccepted(doc: seq<Node>, a: nat, ws: seq<string>)
    requires a <= |doc| && AcceptedFrom(doc, a, ws) != []
    ensures var i := AcceptedFrom(doc, a, ws)[0];
      && a <= i < |doc| && Accepted(doc[i], ws)
      && (forall k :: a <= k < i ==> !Accepted(doc[k], ws))
      && AcceptedFrom(doc, i + 1, ws) == AcceptedFrom(doc, a, ws)[1..]
    decreases |doc| - a
  {
    if !Accepted(doc[a], ws) {
      NextAccepted(doc, a + 1, ws);
    }
  }

  lemma NextBounds(doc: seq<Node>, a: nat, ws: seq<string>)
    requires a <= |doc| && AcceptedFrom(doc, a, ws) != []
    ensures var i := AcceptedFrom(doc, a, ws)[0];
      && a <= i < |doc| && doc[i].Text?
      && AcceptedFrom(doc, i + 1, ws) == AcceptedFrom(doc, a, ws)[1..]
  {
    NextAccepted(doc, a, ws);
  }

  /** The nodes before an accepted one are copied unchanged, when none of
      them is accepted. */
  lemma {:induction false} BlocksSkip(doc: seq<Node>, a: nat, i: nat, ws: seq<string>,
                                      first: OrderedMap<string, string>, marked: set<string>)
    requires a <= i <= |doc| && NonBlank(ws)
    requires forall k :: a <= k < i ==> !Accepted(doc[k], ws)
    ensures Flatten(Blocks(doc, a, ws, first, marked)) == doc[a..i] + Flatten(Blocks(doc, i, ws, first, marked))
    decreases i - a
  {
    if a == i {
      assert doc[a..a] == [];
    } else {
      var fi := Flatten(Blocks(doc, i, ws, first, marked));
      var rest := Blocks(doc, a + 1, ws, first, marked);
      assert !Accepted(doc[a], ws);
      calc {
        Flatten(Blocks(doc, a, ws, first, marked));
        Flatten([[doc[a]]] + rest);
        { FlattenCons([doc[a]], rest); }
        [doc[a]] + Flatten(rest);
        { BlocksSkip(doc, a + 1, i, ws, first, marked); }
        [doc[a]] + (doc[a + 1..i] + fi);
        { Assoc([doc[a]], doc[a + 1..i], fi); }
        ([doc[a]] + doc[a + 1..i]) + fi;
        { assert doc[a..i] == [doc[a]] + doc[a + 1..i]; }
        doc[a..i] + fi;
      }
    }
  }

  /** Once no accepted node is left, or every term is marked, the rest is
      copied unchanged. */
  lemma {:induction false} BlocksRest(doc: seq<Node>, a: nat, ws: seq<string>,
                                      first: OrderedMap<string, string>, marked: set<string>)
    requires a <= |doc| && NonBlank(ws)
    requires |marked| == |ws| || AcceptedFrom(doc, a, ws) == []
    ensures Flatten(Blocks(doc, a, ws, first, marked)) == doc[a..]
    decreases |doc| - a
  {
    if a < |doc| {
      BlocksRest(doc, a + 1, ws, first, marked);
      FlattenCons([doc[a]], Blocks(doc, a + 1, ws, first, marked));
      assert doc[a..] == [doc[a]] + doc[a + 1..];
    }
  }

  /** One accepted node: its fragment, then the rest. */
  lemma BlocksAccept(doc: seq<Node>, i: nat, ws: seq<string>, first: OrderedMap<string, string>,
                     marked: set<string>)
    requires i < |doc| && NonBlank(ws) && |marked| != |ws| && Accepted(doc[i], ws)
    ensures var f := RewriteText(doc[i].value, 0, doc[i].parent, ws, first, marked);
      Flatten(Blocks(doc, i, ws, first, marked)) == f.pieces + Flatten(Blocks(doc, i + 1, ws, first, f.marked))
  {
    var f := RewriteText(doc[i].value, 0, doc[i].parent, ws, first, marked);
    FlattenCons(f.pieces, Blocks(doc, i + 1, ws, first, f.marked));
  }

  /** One turn of the loop over the collected nodes: the skipped nodes are
      copied, then the accepted one becomes its fragment. */
  lemma BodyStep(doc: seq<Node>, ws: seq<string>, first: OrderedMap<string, string>, copied: nat, i: nat,
                 marked: set<string>, out: seq<Node>, pieces: seq<Node>, marked': set<string>, goal: seq<Node>)
    requires copied <= |doc| && NonBlank(ws) && |marked| != |ws|
    requires AcceptedFrom(doc, copied, ws) != [] && i == AcceptedFrom(doc, copied, ws)[0]
    requires copied <= i < |doc| && doc[i].Text?
    requires Rewritten(pieces, marked') == RewriteText(doc[i].value, 0, doc[i].parent, ws, first, marked)
    requires out + Flatten(Blocks(doc, copied, ws, first, marked)) == goal
    ensures out + doc[copied..i] + pieces + Flatten(Blocks(doc, i + 1, ws, first, marked')) == goal
  {
    var all := Flatten(Blocks(doc, copied, ws, first, marked));
    var here := Flatten(Blocks(doc, i, ws, first, marked));
    var rest := Flatten(Blocks(doc, i + 1, ws, first, marked'));
    NextAccepted(doc, copied, ws);
    assert all == doc[copied..i] + here by {
      BlocksSkip(doc, copied, i, ws, first, marked);
    }
    assert here == pieces + rest by {
      BlocksAccept(doc, i, ws, first, marked);
    }
    Assoc(doc[copied..i], pieces, rest);
    Assoc(out, doc[copied..i] + pieces, rest);
    Assoc(out, doc[copied..i], pieces);
  }

  // ---------------------------------------------------------------------
  // unhighlightAll

  /** The first mark at or after `i`. */
  function FirstMark(doc: seq<Node>, i: nat): (r: Option<nat>)
    requires i <= |doc|
    ensures r.Some? ==> i <= r.value < |doc| && doc[r.value].Mark?
    decreases |doc| - i
  {
    if i == |doc| then None else if doc[i].Mark? then Some(i) else FirstMark(doc, i + 1)
  }

  lemma {:induction false} FirstMarkNone(doc: seq<Node>, i: nat)
    requires i <= |doc|
    ensures FirstMark(doc, i).None? <==> MarkCount(doc[i..]) == 0
    decreases |doc| - i
  {
    if i < |doc| {
      FirstMarkNone(doc, i + 1);
      assert doc[i..][1..] == doc[i + 1..];
    }
  }

  /** `parent.replaceChild(document.createTextNode(m.textContent), m)` */
  function Unwrap(doc: seq<Node>, k: nat): seq<Node>
    requires k < |doc| && doc[k].Mark?
  {
    doc[..k] + [Text(doc[k].text, doc[k].parent)] + doc[k + 1..]
  }

  /** `normalize()` on the elements of `s`: empty text nodes whose parent
      is in `s` are removed and each run of neighbouring text nodes of one
      parent in `s` becomes one. */
  function NormalizeIn(doc: seq<Node>, s: set<Element>): seq<Node> {
    if doc == [] then []
    else
      var rest := NormalizeIn(doc[1..], s);
      if doc[0].Text? && doc[0].parent in s then
        if doc[0].value == [] then rest
        else if rest != [] && rest[0].Text? && rest[0].parent == doc[0].parent
        then [Text(doc[0].value + rest[0].value, doc[0].parent)] + rest[1..]
        else [doc[0]] + rest
      else [doc[0]] + rest
  }

  /** No text node of an element of `s` is empty, and no two text nodes of
      one element of `s` are neighbours. */
  predicate NormalIn(doc: seq<Node>, s: set<Element>) {
    forall i :: 0 <= i < |doc| && doc[i].Text? && doc[i].parent in s ==>
      doc[i].value != [] && !(i + 1 < |doc| && doc[i + 1].Text? && doc[i + 1].parent == doc[i].parent)
  }

  /** The element children, in order. */
  function Openings(doc: seq<Node>): seq<Node> {
    if doc == [] then [] else (if doc[0].Opening? then [doc[0]] else []) + Openings(doc[1..])
  }

  lemma {:induction false} OpeningsAppend(a: seq<Node>, b: seq<Node>)
    ensures Openings(a + b) == Openings(a) + Openings(b)
  {
    if a == [] {
      assert a + b == b;
    } else {
      var t := a[1..];
      OpeningsAppend(t, b);
      var x := if a[0].Opening? then [a[0]] else [];
      calc {
        Openings(a + b);
        { ConsAppend(a, b); }
        x + Openings(t + b);
        x + (Openings(t) + Openings(b));
        { Assoc(x, Openings(t), Openings(b)); }
        (x + Openings(t)) + Openings(b);
      }
    }
  }


  /** The elements reached from `s` by the element openings `opens`, taken
      in document order: an opening whose parent is reached adds its child. */
  function Reach(opens: seq<Node>, s: set<Element>): (r: set<Element>)
    ensures s <= r
  {
    if opens == [] then s
    else Reach(opens[1..], if opens[0].Opening? && opens[0].parent in s then s + {opens[0].child} else s)
  }

  /** The elements of the subtree of `p`: `p` and its descendants. An
      element's own opening comes before the openings of its children, so
      one pass in document order reaches them all. */
  function Subtree(doc: seq<Node>, p: Element): set<Element> {
    Reach(Openings(doc), {p})
  }

  /** `p.normalize()`: the normal form of every element of `p`'s subtree. */
  function NormalizeSubtree(doc: seq<Node>, p: Element): seq<Node> {
    NormalizeIn(doc, Subtree(doc, p))
  }

  /** The children of the elements of `s`, as the openings `opens` give them. */
  function Opened(opens: seq<Node>, s: set<Element>): set<Element> {
    set o | o in opens && o.Opening? && o.parent in s :: o.child
  }

  /** The subtree holds `p`; every other element in it is opened by an
      element in it; and every opening met, in document order, under an
      element already in the subtree brings its child in. */
  lemma SubtreeSpec(doc: seq<Node>, p: Element)
    ensures p in Subtree(doc, p)
    ensures Subtree(doc, p) <= {p} + Opened(Openings(doc), Subtree(doc, p))
    ensures var r, opens := Subtree(doc, p), Openings(doc);
      forall j :: 0 <= j < |opens| && opens[j].Opening? && opens[j].parent in Reach(opens[..j], {p}) ==>
        opens[j].child in r
  {
    ReachSound(Openings(doc), {p});
    ReachComplete(Openings(doc), {p});
  }

  lemma {:induction false} ReachSound(opens: seq<Node>, s: set<Element>)
    ensures Reach(opens, s) <= s + Opened(opens, Reach(opens, s))
  {
    if opens != [] {
      var o := opens[0];
      var s' := if o.Opening? && o.parent in s then s + {o.child} else s;
      var r := Reach(opens, s);
      assert r == Reach(opens[1..], s');
      ReachSound(opens[1..], s');
      assert s' <= s + Opened(opens, r) by {
        if o.Opening? && o.parent in s {
          assert o in opens && o.parent in r;
        }
      }
      assert Opened(opens[1..], r) <= Opened(opens, r) by {
        forall x | x in opens[1..] ensures x in opens { }
      }
    }
  }

  lemma {:induction false} ReachComplete(opens: seq<Node>, s: set<Element>)
    ensures forall j :: 0 <= j < |opens| && opens[j].Opening? && opens[j].parent in Reach(opens[..j], s) ==>
      opens[j].child in Reach(opens, s)
  {
    if opens != [] {
      var o := opens[0];
      var s' := if o.Opening? && o.parent in s then s + {o.child} else s;
      ReachComplete(opens[1..], s');
      forall j | 0 <= j < |opens| && opens[j].Opening? && opens[j].parent in Reach(opens[..j], s)
        ensures opens[j].child in Reach(opens, s)
      {
        if j == 0 {
          assert opens[..0] == [];
        } else {
          assert opens[..j][1..] == opens[1..][..j - 1];
          assert opens[1..][j - 1] == opens[j];
        }
      }
    }
  }

  /** `normalize()` keeps the text, the marks and the elements, and leaves
      every element of the set normal. */
  lemma NormalizeInSpec(doc: seq<Node>, s: set<Element>)
    ensures var r := NormalizeIn(doc, s);
      && TextOf(r) == TextOf(doc)
      && MarkCount(r) == MarkCount(doc)
      && Openings(r) == Openings(doc)
      && NormalIn(r, s)
  {
    NormalizeInKeeps(doc, s);
    NormalizeInNormal(doc, s);
  }

  /** `p.normalize()` keeps the text, the marks and the elements, and
      leaves every element of `p`'s subtree normal: no empty text node and
      no two neighbouring text nodes of one element. */
  lemma NormalizeSubtreeSpec(doc: seq<Node>, p: Element)
    ensures var r := NormalizeSubtree(doc, p);
      && TextOf(r) == TextOf(doc)
      && MarkCount(r) == MarkCount(doc)
      && Openings(r) == Openings(doc)
      && Subtree(r, p) == Subtree(doc, p)
      && NormalIn(r, Subtree(doc, p))
  {
    NormalizeInSpec(doc, Subtree(doc, p));
  }

  lemma {:induction false} NormalizeInKeeps(doc: seq<Node>, s: set<Element>)
    ensures var r := NormalizeIn(doc, s);
      && TextOf(r) == TextOf(doc)
      && MarkCount(r) == MarkCount(doc)
      && Openings(r) == Openings(doc)
  {
    if doc != [] {
      var rest := NormalizeIn(doc[1..], s);
      NormalizeInKeeps(doc[1..], s);
      var r := NormalizeIn(doc, s);
      if doc[0].Text? && doc[0].parent in s && doc[0].value != []
         && rest != [] && rest[0].Text? && rest[0].parent == doc[0].parent {
        var x, y, z := doc[0].value, rest[0].value, TextOf(rest[1..]);
        assert TextOf(rest) == y + z by {
          ConsAppend(rest, []);
        }
        assert TextOf(r) == (x + y) + z;
        Assoc(x, y, z);
      }
    }
  }

  lemma {:induction false} NormalizeInNormal(doc: seq<Node>, s: set<Element>)
    ensures NormalIn(NormalizeIn(doc, s), s)
  {
    if doc != [] {
      var rest := NormalizeIn(doc[1..], s);
      NormalizeInNormal(doc[1..], s);
      if doc[0].Text? && doc[0].parent in s {
        if doc[0].value == [] {
        } else if rest != [] && rest[0].Text? && rest[0].parent == doc[0].parent {
          var merged := Text(doc[0].value + rest[0].value, doc[0].parent);
          assert rest == [rest[0]] + rest[1..];
          assert NormalIn(rest[1..], s) by {
            forall i | 0 <= i < |rest[1..]| && rest[1..][i].Text? && rest[1..][i].parent in s
              ensures rest[1..][i].value != [] && !(i + 1 < |rest[1..]| && rest[1..][i + 1].Text? && rest[1..][i + 1].parent == rest[1..][i].parent)
            {
              assert rest[1..][i] == rest[i + 1];
            }
          }
          ConsNormal(merged, rest[1..], s);
        } else {
          ConsNormal(doc[0], rest, s);
        }
      } else {
        ConsNormal(doc[0], rest, s);
      }
    }
  }

  lemma ConsNormal(n: Node, rest: seq<Node>, s: set<Element>)
    requires NormalIn(rest, s)
    requires n.Text? && n.parent in s ==> n.value != [] && !(rest != [] && rest[0].Text? && rest[0].parent == n.parent)
    ensures NormalIn([n] + rest, s)
  {
    var r := [n] + rest;
    assert forall i :: 1 <= i < |r| ==> r[i] == rest[i - 1];
  }

  lemma UnwrapSpec(doc: seq<Node>, k: nat)
    requires k < |doc| && doc[k].Mark?
    ensures TextOf(Unwrap(doc, k)) == TextOf(doc)
    ensures MarkCount(Unwrap(doc, k)) + 1 == MarkCount(doc)
    ensures Openings(Unwrap(doc, k)) == Openings(doc)
  {
    var a, b := doc[..k], doc[k + 1..];
    var t := Text(doc[k].text, doc[k].parent);
    SplitAt(doc, k);
    Splice(a, doc[k], b);
    Splice(a, t, b);
  }

  lemma SplitAt<T>(s: seq<T>, k: nat)
    requires k < |s|
    ensures s == s[..k] + [s[k]] + s[k + 1..]
  {
  }

  /** The text, marks and elements of a body with one node in the middle. */
  lemma Splice(a: seq<Node>, x: Node, b: seq<Node>)
    ensures TextOf(a + [x] + b) == TextOf(a) + NodeText(x) + TextOf(b)
    ensures MarkCount(a + [x] + b) == MarkCount(a) + (if x.Mark? then 1 else 0) + MarkCount(b)
    ensures Openings(a + [x] + b) == Openings(a) + (if x.Opening? then [x] else []) + Openings(b)
  {
    SpliceText(a, x, b);
    SpliceMarks(a, x, b);
    SpliceOpenings(a, x, b);
  }

  lemma SpliceText(a: seq<Node>, x: Node, b: seq<Node>)
    ensures TextOf(a + [x] + b) == TextOf(a) + NodeText(x) + TextOf(b)
  {
    TextOfAppend(a + [x], b);
    TextOfAppend(a, [x]);
    TextOfCons(x, []);
  }

  lemma SpliceMarks(a: seq<Node>, x: Node, b: seq<Node>)
    ensures MarkCount(a + [x] + b) == MarkCount(a) + (if x.Mark? then 1 else 0) + MarkCount(b)
  {
    MarkCountAppend(a + [x], b);
    MarkCountAppend(a, [x]);
    assert [x][1..] == [];
  }

  lemma SpliceOpenings(a: seq<Node>, x: Node, b: seq<Node>)
    ensures Openings(a + [x] + b) == Openings(a) + (if x.Opening? then [x] else []) + Openings(b)
  {
    var o := if x.Opening? then [x] else [];
    assert Openings([x]) == o by {
      assert [x][1..] == [];
      assert Openings([x]) == o + Openings([]);
    }
    OpeningsAppend(a + [x], b);
    OpeningsAppend(a, [x]);
  }

  /** One mark removed: replaced by its text, then its parent normalized. */
  function UnmarkFirst(doc: seq<Node>, k: nat): (r: seq<Node>)
    requires k < |doc| && doc[k].Mark?
    ensures MarkCount(r) < MarkCount(doc)
  {
    UnwrapSpec(doc, k);
    NormalizeSubtreeSpec(Unwrap(doc, k), doc[k].parent);
    NormalizeSubtree(Unwrap(doc, k), doc[k].parent)
  }

  /** One turn of `unhighlightAll`: the mark becomes its text, which joins
      the neighbouring text of its parent; the text content and the
      elements are kept, one mark fewer remains, and every element of the
      parent's subtree is left normal. */
  lemma UnmarkFirstSpec(doc: seq<Node>, k: nat)
    requires k < |doc| && doc[k].Mark?
    ensures var r := UnmarkFirst(doc, k);
      && TextOf(r) == TextOf(doc)
      && MarkCount(r) + 1 == MarkCount(doc)
      && Openings(r) == Openings(doc)
      && NormalIn(r, Subtree(doc, doc[k].parent))
  {
    UnwrapSpec(doc, k);
    NormalizeSubtreeSpec(Unwrap(doc, k), doc[k].parent);
  }

  /** The body after `unhighlightAll()`: each mark in document order is
      unwrapped and its parent normalized. */
  function Unhighlighted(doc: seq<Node>): seq<Node>
    decreases MarkCount(doc)
  {
    match FirstMark(doc, 0)
    case None => doc
    case Some(k) => Unhighlighted(UnmarkFirst(doc, k))
  }

  /** `unhighlightAll` leaves no mark, keeps the text content and the
      elements, and leaves a body without marks as it is. */
  lemma {:induction false} UnhighlightedSpec(doc: seq<Node>)
    ensures MarkCount(Unhighlighted(doc)) == 0
    ensures TextOf(Unhighlighted(doc)) == TextOf(doc)
    ensures Openings(Unhighlighted(doc)) == Openings(doc)
    ensures MarkCount(doc) == 0 ==> Unhighlighted(doc) == doc
    decreases MarkCount(doc)
  {
    FirstMarkNone(doc, 0);
    assert doc[0..] == doc;
    match FirstMark(doc, 0)
    case None =>
    case Some(k) =>
      UnmarkFirstSpec(doc, k);
      UnhighlightedSpec(UnmarkFirst(doc, k));
  }

  /** `<p><mark>foo</mark> <b>foo bar</b></p>` with the text of `<b>` split
      in two by an earlier highlight: clearing the mark normalizes `<p>`'s
      whole subtree, so the text of `<b>` is one node again. */
  lemma UnhighlightJoinsNestedText()
    ensures var p, b := Element(1, "P", false, false), Element(2, "B", false, false);
      Unhighlighted([Mark("foo", "foo", p), Text(" ", p), Opening(p, b), Text("foo", b), Text(" bar", b)])
        == [Text("foo ", p), Opening(p, b), Text("foo bar", b)]
  {
    var p, b := Element(1, "P", false, false), Element(2, "B", false, false);
    var doc := [Mark("foo", "foo", p), Text(" ", p), Opening(p, b), Text("foo", b), Text(" bar", b)];
    var bare := [Text("foo", p), Text(" ", p), Opening(p, b), Text("foo", b), Text(" bar", b)];
    var r := [Text("foo ", p), Opening(p, b), Text("foo bar", b)];
    assert FirstMark(doc, 0) == Some(0);
    assert Unwrap(doc, 0) == bare;
    NestedSubtree(p, b);
    NestedNormalized(p, b);
    assert UnmarkFirst(doc, 0) == r;
    assert r[1..][1..][1..] == [];
    assert FirstMark(r, 0) == None;
  }

  /** The subtree of `<p>` in the example is `<p>` and `<b>`. */
  lemma NestedSubtree(p: Element, b: Element)
    requires p != b
    ensures Subtree([Text("foo", p), Text(" ", p), Opening(p, b), Text("foo", b), Text(" bar", b)], p) == {p, b}
  {
    var t4 := [Text(" bar", b)];
    var t3 := [Text("foo", b)] + t4;
    var t2 := [Opening(p, b)] + t3;
    var t1 := [Text(" ", p)] + t2;
    var bare := [Text("foo", p)] + t1;
    assert bare == [Text("foo", p), Text(" ", p), Opening(p, b), Text("foo", b), Text(" bar", b)];
    assert bare[1..] == t1 && t1[1..] == t2 && t2[1..] == t3 && t3[1..] == t4 && t4[1..] == [];
    assert Openings(t4) == [] + Openings([]);
    assert Openings(t3) == [] + Openings(t4);
    assert Openings(t2) == [Opening(p, b)] + Openings(t3);
    assert Openings(t1) == Openings(t2);
    assert Openings(bare) == [Opening(p, b)];
    assert [Opening(p, b)][1..] == [];
    assert Reach([Opening(p, b)], {p}) == Reach([], {p, b});
  }

  /** Normalizing `<p>` and `<b>` in the example joins each element's
      neighbouring text. */
  lemma NestedNormalized(p: Element, b: Element)
    requires p != b
    ensures NormalizeIn([Text("foo", p), Text(" ", p), Opening(p, b), Text("foo", b), Text(" bar", b)], {p, b})
         == [Text("foo ", p), Opening(p, b), Text("foo bar", b)]
  {
    var s := {p, b};
    var t4 := [Text(" bar", b)];
    var t3 := [Text("foo", b)] + t4;
    var t2 := [Opening(p, b)] + t3;
    var t1 := [Text(" ", p)] + t2;
    var bare := [Text("foo", p)] + t1;
    assert bare == [Text("foo", p), Text(" ", p), Opening(p, b), Text("foo", b), Text(" bar", b)];
    assert bare[1..] == t1 && t1[1..] == t2 && t2[1..] == t3 && t3[1..] == t4 && t4[1..] == [];
    assert NormalizeIn(t4, s) == t4;
    assert "foo" + " bar" == "foo bar";
    assert NormalizeIn(t3, s) == [Text("foo bar", b)];
    assert NormalizeIn(t2, s) == [Opening(p, b), Text("foo bar", b)];
    assert NormalizeIn(t1, s) == [Text(" ", p), Opening(p, b), Text("foo bar", b)];
    assert "foo" + " " == "foo ";
  }

  // ---------------------------------------------------------------------
  // What a rewrite keeps

  /** The fragment of `text[i..]` spells `text[i..]`. */
  lemma {:induction false} RewriteTextText(text: string, i: nat, parent: Element, ws: seq<string>,
                                           first: OrderedMap<string, string>, marked: set<string>)
    requires i <= |text| && NonBlank(ws)
    ensures TextOf(RewriteText(text, i, parent, ws, first, marked).pieces) == text[i..]
    decreases |text| - i
  {
    var found := FindMatch(text, i, ws);
    if found.None? {
      RestText(text, i, parent);
    } else {
      var f := found.value;
      var m := text[f.start..f.end];
      var marked' := marked + {Norm(m)};
      if |marked'| == |ws| {
        RestText(text, f.end, parent);
      } else {
        RewriteTextText(text, f.end, parent, ws, first, marked');
      }
      RewriteTextStep(text, i, parent, ws, first, marked, f);
      StepText(text, i, f.start, f.end, parent, Piece(m, parent, first, marked),
               After(text, f.end, parent, ws, first, marked').pieces);
    }
  }

  /** A plain prefix, a match and a tail spelling their parts of the text. */
  lemma StepText(text: string, i: nat, start: nat, end: nat, parent: Element, piece: Node, tail: seq<Node>)
    requires i <= start <= end <= |text|
    requires NodeText(piece) == text[start..end] && TextOf(tail) == text[end..]
    ensures TextOf(Before(text, i, start, parent) + [piece] + tail) == text[i..]
  {
    BeforeText(text, i, start, parent);
    ThreeText(Before(text, i, start, parent), piece, tail);
    SliceThree(text, i, start, end);
  }

  lemma BeforeText(text: string, i: nat, start: nat, parent: Element)
    requires i <= start <= |text|
    ensures TextOf(Before(text, i, start, parent)) == text[i..start]
  {
    if start > i {
      TextOfCons(Text(text[i..start], parent), []);
    }
  }

  lemma ThreeText(pre: seq<Node>, piece: Node, tail: seq<Node>)
    ensures TextOf(pre + [piece] + tail) == TextOf(pre) + NodeText(piece) + TextOf(tail)
  {
    var rest := [piece] + tail;
    TextOfCons(piece, tail);
    TextOfAppend(pre, rest);
    Assoc(pre, [piece], tail);
  }

  lemma SliceThree<T>(s: seq<T>, i: nat, a: nat, b: nat)
    requires i <= a <= b <= |s|
    ensures s[i..a] + s[a..b] + s[b..] == s[i..]
  {
  }

  lemma RestText(text: string, last: nat, parent: Element)
    requires last <= |text|
    ensures TextOf(Rest(text, last, parent)) == text[last..]
  {
    if last < |text| {
      TextOfCons(Text(text[last..], parent), []);
    }
  }

  /** Each mark holds the display form of its normalized text. */
  predicate GoodMarks(nodes: seq<Node>, first: OrderedMap<string, string>) {
    forall n :: n in nodes && n.Mark? ==> Get(first, Norm(n.text)) == Some(n.concept)
  }

  /** What a fragment's marks are: new terms, each once, each wanted, each
      with its display form; everything in the fragment is a text node or
      mark under the original parent. */
  predicate FragmentMarks(r: Rewritten, parent: Element, ws: seq<string>,
                          first: OrderedMap<string, string>, marked: set<string>) {
    && r.marked == marked + SetOf(MarkKeys(r.pieces))
    && Distinct(MarkKeys(r.pieces))
    && (forall k :: k in MarkKeys(r.pieces) ==> k !in marked && k in ws)
    && GoodMarks(r.pieces, first)
    && (forall n :: n in r.pieces ==> !n.Opening? && n.parent == parent)
  }

  lemma {:induction false} RewriteTextMarks(text: string, i: nat, parent: Element, ws: seq<string>,
                                            first: OrderedMap<string, string>, marked: set<string>)
    requires i <= |text| && WantedMap(first) && ws == Keys(first)
    requires NonBlank(ws) && forall k :: 0 <= k < |ws| ==> IsNormal(ws[k])
    ensures FragmentMarks(RewriteText(text, i, parent, ws, first, marked), parent, ws, first, marked)
    decreases |text| - i
  {
    var found := FindMatch(text, i, ws);
    if found.None? {
      RestMarks(text, i, parent, ws, first, marked);
    } else {
      var f := found.value;
      var m := text[f.start..f.end];
      var marked' := marked + {Norm(m)};
      assert Norm(m) in ws by {
        FoundShape(text, i, ws);
        NormOfMatch(m, ws[f.alt]);
      }
      var tail := After(text, f.end, parent, ws, first, marked');
      assert FragmentMarks(tail, parent, ws, first, marked') by {
        if |marked'| == |ws| {
          RestMarks(text, f.end, parent, ws, first, marked');
        } else {
          RewriteTextMarks(text, f.end, parent, ws, first, marked');
        }
      }
      var r := Rewritten(Before(text, i, f.start, parent) + [Piece(m, parent, first, marked)] + tail.pieces, tail.marked);
      assert RewriteText(text, i, parent, ws, first, marked) == r by {
        RewriteTextStep(text, i, parent, ws, first, marked, f);
      }
      StepMarks(Before(text, i, f.start, parent), tail, m, parent, ws, first, marked);
    }
  }

  /** The plain rest of a text node holds no mark. */
  lemma RestMarks(text: string, j: nat, parent: Element, ws: seq<string>,
                  first: OrderedMap<string, string>, marked: set<string>)
    ensures FragmentMarks(Rewritten(Rest(text, j, parent), marked), parent, ws, first, marked)
  {
    NoMarkKeys(Rest(text, j, parent));
  }

  /** The step of RewriteTextMarks: a plain prefix, then the match, then a
      tail whose marks are new with respect to `marked + {Norm(m)}`. */
  lemma StepMarks(pre: seq<Node>, tail: Rewritten, m: string, parent: Element,
                  ws: seq<string>, first: OrderedMap<string, string>, marked: set<string>)
    requires WantedMap(first) && ws == Keys(first) && Norm(m) in ws
    requires forall n :: n in pre ==> n.Text? && n.parent == parent
    requires FragmentMarks(tail, parent, ws, first, marked + {Norm(m)})
    ensures FragmentMarks(Rewritten(pre + [Piece(m, parent, first, marked)] + tail.pieces, tail.marked),
                          parent, ws, first, marked)
  {
    var key := Norm(m);
    var piece := Piece(m, parent, first, marked);
    NoMarkKeys(pre);
    MarkKeysOne(piece);
    StepKeys(pre, piece, tail.pieces, key, ws, marked, tail.marked);
    assert GoodMarks([piece], first) by {
      if piece.Mark? { DisplayWanted(first, key, m); }
    }
    GoodMarksAppend(pre, [piece], first);
    GoodMarksAppend(pre + [piece], tail.pieces, first);
    StepParents(pre, piece, tail.pieces, parent);
  }

  /** The keys of a plain prefix, a match and a tail. */
  lemma StepKeys(pre: seq<Node>, piece: Node, tail: seq<Node>, key: string, ws: seq<string>,
                 marked: set<string>, marked': set<string>)
    requires MarkKeys(pre) == [] && MarkKeys([piece]) == (if piece.Mark? then [key] else [])
    requires piece.Mark? <==> key !in marked
    requires key in ws
    requires marked' == marked + {key} + SetOf(MarkKeys(tail))
    requires Distinct(MarkKeys(tail)) && forall k :: k in MarkKeys(tail) ==> k !in marked + {key} && k in ws
    ensures var keys := MarkKeys(pre + [piece] + tail);
      && marked' == marked + SetOf(keys)
      && Distinct(keys)
      && forall k :: k in keys ==> k !in marked && k in ws
  {
    MarkKeysStep(pre, piece, tail);
    var kp := MarkKeys([piece]);
    assert marked + {key} == marked + SetOf(kp) by {
      if piece.Mark? {
        assert SetOf(kp) == {key};
      } else {
        assert SetOf(kp) == {};
      }
    }
    JoinKeys(kp, MarkKeys(tail), ws, marked, marked + {key});
  }

  lemma MarkKeysStep(pre: seq<Node>, piece: Node, tail: seq<Node>)
    requires MarkKeys(pre) == []
    ensures MarkKeys(pre + [piece] + tail) == MarkKeys([piece]) + MarkKeys(tail)
  {
    MarkKeysAppend(pre + [piece], tail);
    MarkKeysAppend(pre, [piece]);
    assert MarkKeys(pre + [piece]) == MarkKeys([piece]);
  }

  /** Keys of two neighbouring parts: the second part's are new with respect
      to the first's. */
  lemma JoinKeys(ka: seq<string>, kb: seq<string>, ws: seq<string>, marked: set<string>, marked': set<string>)
    requires marked' == marked + SetOf(ka)
    requires Distinct(ka) && forall k :: k in ka ==> k !in marked && k in ws
    requires Distinct(kb) && forall k :: k in kb ==> k !in marked' && k in ws
    ensures Distinct(ka + kb) && forall k :: k in ka + kb ==> k !in marked && k in ws
    ensures marked' + SetOf(kb) == marked + SetOf(ka + kb)
  {
    var keys := ka + kb;
    forall x, y | 0 <= x < y < |keys| ensures keys[x] != keys[y] {
      if y >= |ka| && x < |ka| {
        assert keys[x] in ka && keys[y] == kb[y - |ka|];
        assert kb[y - |ka|] in kb;
      } else if x >= |ka| {
        assert keys[x] == kb[x - |ka|] && keys[y] == kb[y - |ka|];
      }
    }
    assert SetOf(keys) == SetOf(ka) + SetOf(kb);
  }

  lemma StepParents(pre: seq<Node>, piece: Node, tail: seq<Node>, parent: Element)
    requires forall n :: n in pre ==> n.Text? && n.parent == parent
    requires !piece.Opening? && piece.parent == parent
    requires forall n :: n in tail ==> !n.Opening? && n.parent == parent
    ensures forall n :: n in pre + [piece] + tail ==> !n.Opening? && n.parent == parent
  {
  }

  lemma MarkKeysOne(n: Node)
    ensures MarkKeys([n]) == if n.Mark? then [Norm(n.text)] else []
  {
    assert [n][1..] == [];
    assert MarkTexts([n]) == if n.Mark? then [n.text] else [];
  }

  lemma PrependKey(key: string, keys: seq<string>, marked: set<string>)
    requires key !in marked && Distinct(keys) && forall k :: k in keys ==> k !in marked + {key}
    ensures Distinct([key] + keys) && SetOf([key] + keys) == {key} + SetOf(keys)
    ensures forall k :: k in [key] + keys ==> k !in marked
  {
    var all := [key] + keys;
    forall a, b | 0 <= a < b < |all| ensures all[a] != all[b] {
      assert all[b] == keys[b - 1] && keys[b - 1] in keys;
      if a > 0 { assert all[a] == keys[a - 1]; }
    }
  }

  lemma GoodMarksAppend(a: seq<Node>, b: seq<Node>, first: OrderedMap<string, string>)
    requires GoodMarks(a, first) && GoodMarks(b, first)
    ensures GoodMarks(a + b, first)
  {
  }

  /** For a wanted key, the display form is the first original term. */
  lemma DisplayWanted(first: OrderedMap<string, string>, key: string, m: string)
    requires WantedMap(first) && key in Keys(first)
    ensures Get(first, key) == Some(Display(first, key, m))
  {
    var d := Get(first, key).value;
    assert (key, d) in first;
  }

  /** The rewritten body spells the same text. */
  lemma {:induction false} BlocksText(doc: seq<Node>, i: nat, ws: seq<string>,
                                      first: OrderedMap<string, string>, marked: set<string>)
    requires i <= |doc| && NonBlank(ws)
    ensures TextOf(Flatten(Blocks(doc, i, ws, first, marked))) == TextOf(doc[i..])
    decreases |doc| - i
  {
    if i < |doc| {
      var bs := Blocks(doc, i, ws, first, marked);
      var m' := BlocksHead(doc, i, ws, first, marked);
      BlocksText(doc, i + 1, ws, first, m');
      assert doc[i..] == [doc[i]] + doc[i + 1..];
      TextOfCons(doc[i], doc[i + 1..]);
      assert bs == [bs[0]] + bs[1..];
      FlattenCons(bs[0], bs[1..]);
      TextOfAppend(bs[0], Flatten(bs[1..]));
      if |marked| != |ws| && Accepted(doc[i], ws) {
        RewriteTextText(doc[i].value, 0, doc[i].parent, ws, first, marked);
        assert doc[i].value[0..] == doc[i].value;
      } else {
        TextOfCons(doc[i], []);
      }
    }
  }

  /** A node the walker rejects (a rejected parent tag, inside a mark, not
      displayed, no match, or not a text node) is left exactly as it was. */
  lemma BlocksKeepRejected(doc: seq<Node>, i: nat, ws: seq<string>,
                           first: OrderedMap<string, string>, marked: set<string>, k: nat)
    requires i <= k < |doc| && NonBlank(ws) && !Accepted(doc[k], ws)
    ensures Blocks(doc, i, ws, first, marked)[k - i] == [doc[k]]
  {
    BlocksWalkSteps(doc, ws, first);
    var m := WalkAt(BlocksWalk(doc, ws, first), MarkedWalk(doc, ws, first), |doc|, i, marked, k);
    BlocksFirstKept(doc, k, ws, first, m);
  }

  /** The walk as a function of where it resumes and what is marked then. */
  function BlocksWalk(doc: seq<Node>, ws: seq<string>, first: OrderedMap<string, string>)
    : (nat, set<string>) -> seq<seq<Node>>
    requires NonBlank(ws)
  {
    (j: nat, t: set<string>) => if j <= |doc| then Blocks(doc, j, ws, first, t) else []
  }

  /** The terms marked once node `j` has been visited. */
  function MarkedWalk(doc: seq<Node>, ws: seq<string>, first: OrderedMap<string, string>)
    : (nat, set<string>) -> set<string>
    requires NonBlank(ws)
  {
    (j: nat, t: set<string>) =>
      if j < |doc| && |t| != |ws| && Accepted(doc[j], ws)
      then RewriteText(doc[j].value, 0, doc[j].parent, ws, first, t).marked
      else t
  }

  lemma BlocksWalkSteps(doc: seq<Node>, ws: seq<string>, first: OrderedMap<string, string>)
    requires NonBlank(ws)
    ensures var walk, next := BlocksWalk(doc, ws, first), MarkedWalk(doc, ws, first);
      forall j: nat, t: set<string> :: j < |doc| ==>
        |walk(j, t)| == |doc| - j && walk(j, t)[1..] == walk(j + 1, next(j, t))
  {
    forall j: nat, t: set<string> | j < |doc|
      ensures BlocksWalk(doc, ws, first)(j, t)[1..] == BlocksWalk(doc, ws, first)(j + 1, MarkedWalk(doc, ws, first)(j, t))
    {
      BlocksWalkStep(doc, ws, first, j, t);
    }
  }

  lemma BlocksWalkStep(doc: seq<Node>, ws: seq<string>, first: OrderedMap<string, string>, j: nat, t: set<string>)
    requires NonBlank(ws) && j < |doc|
    ensures BlocksWalk(doc, ws, first)(j, t)[1..] == BlocksWalk(doc, ws, first)(j + 1, MarkedWalk(doc, ws, first)(j, t))
  {
    var t' := BlocksHead(doc, j, ws, first, t);
    assert MarkedWalk(doc, ws, first)(j, t) == t';
  }

  /** In a walk where each step's remaining blocks are the walk resumed at
      the next position, block `k` of the walk from `i` is the first block
      of the walk resumed at `k`. */
  lemma {:induction false} WalkAt<B, S>(walk: (nat, S) -> seq<B>, next: (nat, S) -> S, n: nat,
                                       i: nat, s: S, k: nat) returns (m: S)
    requires i <= k < n
    requires forall j: nat, t: S :: j < n ==> |walk(j, t)| == n - j && walk(j, t)[1..] == walk(j + 1, next(j, t))
    ensures walk(i, s)[k - i] == walk(k, m)[0]
    decreases k - i
  {
    if i == k {
      m := s;
    } else {
      m := WalkAt(walk, next, n, i + 1, next(i, s), k);
      assert walk(i, s)[k - i] == walk(i, s)[1..][k - (i + 1)];
    }
  }

  /** A rejected node is its own block. */
  lemma BlocksFirstKept(doc: seq<Node>, i: nat, ws: seq<string>, first: OrderedMap<string, string>,
                        marked: set<string>)
    requires i < |doc| && NonBlank(ws) && !Accepted(doc[i], ws)
    ensures Blocks(doc, i, ws, first, marked)[0] == [doc[i]]
  {
    var _ := BlocksHead(doc, i, ws, first, marked);
  }

  /** One step of the walk: node `i`'s block, then the walk resumed at
      `i + 1` with the terms marked by then. */
  lemma BlocksHead(doc: seq<Node>, i: nat, ws: seq<string>, first: OrderedMap<string, string>,
                   marked: set<string>) returns (marked': set<string>)
    requires i < |doc| && NonBlank(ws)
    ensures marked' == if |marked| != |ws| && Accepted(doc[i], ws)
      then RewriteText(doc[i].value, 0, doc[i].parent, ws, first, marked).marked
      else marked
    ensures Blocks(doc, i, ws, first, marked)[1..] == Blocks(doc, i + 1, ws, first, marked')
    ensures Blocks(doc, i, ws, first, marked)[0] == if |marked| != |ws| && Accepted(doc[i], ws)
      then RewriteText(doc[i].value, 0, doc[i].parent, ws, first, marked).pieces
      else [doc[i]]
  {
    if |marked| != |ws| && Accepted(doc[i], ws) {
      marked' := RewriteText(doc[i].value, 0, doc[i].parent, ws, first, marked).marked;
    } else {
      marked' := marked;
    }
  }

  /** On a body without marks, the marks placed are new terms, each once,
      each wanted and each with its display form. */
  lemma {:induction false} BlocksMarks(doc: seq<Node>, i: nat, ws: seq<string>,
                                       first: OrderedMap<string, string>, marked: set<string>)
    requires i <= |doc| && WantedMap(first) && ws == Keys(first)
    requires NonBlank(ws) && forall k :: 0 <= k < |ws| ==> IsNormal(ws[k])
    requires MarkCount(doc[i..]) == 0
    ensures var r := Flatten(Blocks(doc, i, ws, first, marked));
      && Distinct(MarkKeys(r))
      && (forall k :: k in MarkKeys(r) ==> k !in marked && k in ws)
      && GoodMarks(r, first)
    decreases |doc| - i
  {
    if i < |doc| {
      var bs := Blocks(doc, i, ws, first, marked);
      assert doc[i..] == [doc[i]] + doc[i + 1..];
      MarkCountAppend([doc[i]], doc[i + 1..]);
      FlattenCons(bs[0], bs[1..]);
      assert bs == [bs[0]] + bs[1..];
      if |marked| != |ws| && Accepted(doc[i], ws) {
        var f := RewriteText(doc[i].value, 0, doc[i].parent, ws, first, marked);
        RewriteTextMarks(doc[i].value, 0, doc[i].parent, ws, first, marked);
        BlocksMarks(doc, i + 1, ws, first, f.marked);
        JoinMarks(f.pieces, Flatten(bs[1..]), ws, first, marked, f.marked);
      } else {
        assert !doc[i].Mark?;
        BlocksMarks(doc, i + 1, ws, first, marked);
        NoMarkKeys([doc[i]]);
        JoinMarks([doc[i]], Flatten(bs[1..]), ws, first, marked, marked);
      }
    }
  }

  lemma JoinMarks(a: seq<Node>, b: seq<Node>, ws: seq<string>, first: OrderedMap<string, string>,
                  marked: set<string>, marked': set<string>)
    requires marked' == marked + SetOf(MarkKeys(a))
    requires Distinct(MarkKeys(a)) && forall k :: k in MarkKeys(a) ==> k !in marked && k in ws
    requires Distinct(MarkKeys(b)) && forall k :: k in MarkKeys(b) ==> k !in marked' && k in ws
    requires GoodMarks(a, first) && GoodMarks(b, first)
    ensures Distinct(MarkKeys(a + b))
    ensures forall k :: k in MarkKeys(a + b) ==> k !in marked && k in ws
    ensures GoodMarks(a + b, first)
  {
    MarkKeysAppend(a, b);
    JoinKeys(MarkKeys(a), MarkKeys(b), ws, marked, marked');
    GoodMarksAppend(a, b, first);
  }

  // ---------------------------------------------------------------------
  // The properties of highlightTerms and of the handler

  /** Highlighting keeps the page's text content; and an empty or all-blank
      term list leaves the body untouched. */
  lemma HighlightedText(doc: seq<Node>, terms: seq<string>)
    ensures TextOf(Highlighted(doc, terms)) == TextOf(doc)
    ensures (forall t :: t in terms ==> Norm(t) == []) ==> Highlighted(doc, terms) == doc
  {
    var first := FirstByNorm(terms);
    var ws := Keys(first);
    if terms != [] && ws != [] {
      WantedNonBlank(terms);
      BlocksText(doc, 0, ws, first, {});
      assert doc[0..] == doc;
      FirstByNormSpec(terms, ws[0]);
      FirstIndexSpec(terms, ws[0]);
    }
  }

  /** The keys of the wanted map are distinct. */
  lemma WantedDistinct(terms: seq<string>)
    ensures Distinct(Keys(FirstByNorm(terms)))
  {
    var first := FirstByNorm(terms);
    var ws := Keys(first);
    FirstByNormWanted(terms);
    forall a, b | 0 <= a < b < |ws| ensures ws[a] != ws[b] {
      KeysAt(first, a);
      KeysAt(first, b);
    }
  }

  /** On a body without marks, highlightTerms places at most one mark per
      distinct wanted term, so no more marks than terms; each mark's
      `data-concept` is the first term given with that `norm`. */
  lemma HighlightedMarks(doc: seq<Node>, terms: seq<string>)
    requires MarkCount(doc) == 0
    ensures var r := Highlighted(doc, terms);
      var ws := Keys(FirstByNorm(terms));
      && Distinct(MarkKeys(r))
      && (forall k :: k in MarkKeys(r) ==> k in ws)
      && MarkCount(r) <= |ws| <= |terms|
      && forall n :: n in r && n.Mark? ==>
           var i := FirstIndex(terms, Norm(n.text)); i.Some? && n.concept == terms[i.value]
  {
    var first := FirstByNorm(terms);
    var ws := Keys(first);
    var r := Highlighted(doc, terms);
    MarkTextsCount(r);
    if terms != [] && ws != [] {
      FirstByNormWanted(terms);
      WantedNonBlank(terms);
      assert doc[0..] == doc;
      BlocksMarks(doc, 0, ws, first, {});
      WantedDistinct(terms);
      DistinctWithin(MarkKeys(r), ws);
      forall n | n in r && n.Mark?
        ensures var i := FirstIndex(terms, Norm(n.text)); i.Some? && n.concept == terms[i.value]
      {
        FirstByNormSpec(terms, Norm(n.text));
      }
    } else {
      NoMarkIn(doc);
    }
  }

  /** A body whose mark count is zero holds no mark. */
  lemma {:induction false} NoMarkIn(doc: seq<Node>)
    requires MarkCount(doc) == 0
    ensures forall n :: n in doc ==> !n.Mark?
    ensures MarkTexts(doc) == []
  {
    if doc != [] {
      NoMarkIn(doc[1..]);
      assert forall n :: n in doc ==> n == doc[0] || n in doc[1..];
    }
  }

  /** The `HIGHLIGHT_CONCEPTS` handler clears, then highlights: whatever the
      body held before, the text content is kept, each wanted term has at
      most one mark, and the count reported is at most the number of terms.
      Repeating the handler therefore never doubles a mark. */
  lemma HandlerSpec(doc: seq<Node>, terms: seq<string>)
    ensures var r := Highlighted(Unhighlighted(doc), terms);
      && TextOf(r) == TextOf(doc)
      && Distinct(MarkKeys(r))
      && (forall k :: k in MarkKeys(r) ==> k in Keys(FirstByNorm(terms)))
      && MarkCount(r) <= |terms|
  {
    UnhighlightedSpec(doc);
    HighlightedText(Unhighlighted(doc), terms);
    HighlightedMarks(Unhighlighted(doc), terms);
  }

  // ---------------------------------------------------------------------
  // Which occurrence is marked

  /** A match placed in the page's text: the offset where it starts and the
      text matched. highlightTerms records a match under its `norm`, which
      for a match of a wanted term is its lower-cased text. */
  datatype Hit = Hit(at: nat, text: string)

  /** The marks of `nodes` as hits, for nodes whose text starts at offset
      `off` of the page's text. */
  function MarkHits(nodes: seq<Node>, off: nat): seq<Hit> {
    if nodes == [] then []
    else
      var here := if nodes[0].Mark? then [Hit(off, nodes[0].text)] else [];
      here + MarkHits(nodes[1..], Next(off, nodes[0]))
  }

  /** Every match `rx.exec` reports in `text` from `i` to its end, with no
      early stop, for a text node that starts at offset `base`. */
  function Hits(text: string, i: nat, ws: seq<string>, base: nat): seq<Hit>
    requires i <= |text| && NonBlank(ws)
    decreases |text| - i
  {
    match FindMatch(text, i, ws)
    case None => []
    case Some(f) =>
      assert ws[f.alt] != [];
      [Hit(PageOffset(base, f.start), text[f.start..f.end])] + Hits(text, f.end, ws, base)
  }

  /** The matches reported in the accepted text nodes from `i` on, in walk
      order, for a body whose text from node `i` on starts at offset
      `off`. */
  function PageHits(doc: seq<Node>, i: nat, ws: seq<string>, off: nat): seq<Hit>
    requires i <= |doc| && NonBlank(ws)
    decreases |doc| - i
  {
    if i == |doc| then [] else NodeHits(doc, i, ws, off) + PageHits(doc, i + 1, ws, Next(off, doc[i]))
  }

  /** The offset just past node `n`, for a node that starts at `off`. */
  function Next(off: nat, n: Node): nat {
    off + |NodeText(n)|
  }

  /** The offset of position `k` of a text node that starts at `base`. */
  function PageOffset(base: nat, k: nat): nat {
    base + k
  }

  /** The matches reported in node `i`: none unless the walker accepts it. */
  function NodeHits(doc: seq<Node>, i: nat, ws: seq<string>, off: nat): seq<Hit>
    requires i < |doc| && NonBlank(ws)
  {
    if Accepted(doc[i], ws) then Hits(doc[i].value, 0, ws, off) else []
  }

  /** The matches reported in the body for the terms given. */
  function ReportedHits(doc: seq<Node>, terms: seq<string>): seq<Hit> {
    WantedNonBlank(terms);
    PageHits(doc, 0, Keys(FirstByNorm(terms)), 0)
  }

  /** The first hit of each norm that is not in `seen`, in order (norms as
      in KeySet). */
  function FirstHits(hs: seq<Hit>, seen: set<string>): seq<Hit> {
    if hs == [] then []
    else if Lower(hs[0].text) in seen then FirstHits(hs[1..], seen)
    else [hs[0]] + FirstHits(hs[1..], seen + {Lower(hs[0].text)})
  }

  /** The norms of the hits: a hit's lower-cased text, which for a match of
      a wanted term is its `norm` (HitsShape). */
  function KeySet(hs: seq<Hit>): set<string> {
    set h | h in hs :: Lower(h.text)
  }

  predicate Ascending(hs: seq<Hit>) {
    forall j, k :: 0 <= j < k < |hs| ==> hs[j].at < hs[k].at
  }

  /** FirstHits keeps, in order, exactly the hits whose norm is neither in
      `seen` nor the norm of an earlier hit. */
  lemma FirstHitsSpec(hs: seq<Hit>, seen: set<string>)
    requires Ascending(hs)
    ensures var r := FirstHits(hs, seen);
      && Ascending(r)
      && (forall h :: h in r ==> h in hs)
      && forall j :: 0 <= j < |hs| ==> (hs[j] in r <==> Lower(hs[j].text) !in seen + KeySet(hs[..j]))
  {
    FirstHitsWithin(hs, seen);
    forall j | 0 <= j < |hs| ensures hs[j] in FirstHits(hs, seen) <==> Lower(hs[j].text) !in seen + KeySet(hs[..j]) {
      FirstHitsMember(hs, seen, j);
    }
  }

  /** FirstHits drops only hits whose norm is seen already, so it keeps
      every norm of `hs`. */
  lemma {:induction false} FirstHitsKeys(hs: seq<Hit>, seen: set<string>)
    ensures seen + KeySet(FirstHits(hs, seen)) == seen + KeySet(hs)
    decreases |hs|
  {
    if hs != [] {
      var k := Lower(hs[0].text);
      var fs := FirstHits(hs[1..], seen + {k});
      assert hs == [hs[0]] + hs[1..];
      FirstHitsCons(hs[0], hs[1..], seen);
      FirstHitsKeys(hs[1..], seen + {k});
      if k in seen {
        assert seen + {k} == seen;
      } else {
        FirstHitsCons(hs[0], fs, seen);
      }
    }
  }

  /** One unfolding of FirstHits, and the norms of a hit list. */
  lemma FirstHitsCons(x: Hit, rest: seq<Hit>, seen: set<string>)
    ensures FirstHits([x] + rest, seen) == (if Lower(x.text) in seen then [] else [x]) + FirstHits(rest, seen + {Lower(x.text)})
    ensures KeySet([x] + rest) == {Lower(x.text)} + KeySet(rest)
  {
    assert ([x] + rest)[1..] == rest;
    if Lower(x.text) in seen {
      assert seen + {Lower(x.text)} == seen;
    }
  }

  /** The first hit lies before all the others. */
  lemma HeadFirst(hs: seq<Hit>)
    requires Ascending(hs) && hs != []
    ensures Ascending(hs[1..])
    ensures forall x :: x in hs[1..] ==> hs[0].at < x.at
  {
    forall x | x in hs[1..] ensures hs[0].at < x.at {
      var k :| 0 <= k < |hs| - 1 && hs[1..][k] == x;
      assert hs[k + 1] == x;
    }
  }

  /** FirstHits draws from its input, in its order. */
  lemma {:induction false} FirstHitsWithin(hs: seq<Hit>, seen: set<string>)
    requires Ascending(hs)
    ensures Ascending(FirstHits(hs, seen))
    ensures forall h :: h in FirstHits(hs, seen) ==> h in hs
    decreases |hs|
  {
    if hs != [] {
      var h, t := hs[0], hs[1..];
      assert hs == [h] + t;
      FirstHitsCons(h, t, seen);
      HeadFirst(hs);
      FirstHitsWithin(t, seen + {Lower(h.text)});
      if Lower(h.text) !in seen {
        AscendingCons(h, FirstHits(t, seen + {Lower(h.text)}));
      }
    }
  }

  /** Hit `j` is kept exactly when its norm is new. */
  lemma {:induction false} FirstHitsMember(hs: seq<Hit>, seen: set<string>, j: nat)
    requires Ascending(hs) && j < |hs|
    ensures hs[j] in FirstHits(hs, seen) <==> Lower(hs[j].text) !in seen + KeySet(hs[..j])
    decreases j
  {
    var h, t := hs[0], hs[1..];
    var seen' := seen + {Lower(h.text)};
    assert hs == [h] + t;
    FirstHitsCons(h, t, seen);
    HeadFirst(hs);
    FirstHitsWithin(t, seen');
    if j == 0 {
      assert hs[..0] == [];
      assert h !in FirstHits(t, seen');
    } else {
      FirstHitsMember(t, seen', j - 1);
      assert hs[j] == t[j - 1] && hs[j] in t;
      assert hs[..j] == [h] + t[..j - 1];
      FirstHitsCons(h, t[..j - 1], seen);
    }
  }

  lemma {:induction false} FirstHitsAppend(a: seq<Hit>, b: seq<Hit>, seen: set<string>)
    ensures FirstHits(a + b, seen) == FirstHits(a, seen) + FirstHits(b, seen + KeySet(a))
    decreases |a|
  {
    if a == [] {
      assert a + b == b && KeySet(a) == {};
      assert seen + {} == seen;
    } else {
      var x := a[0];
      var seen' := seen + {Lower(x.text)};
      var here := if Lower(x.text) in seen then [] else [x];
      assert a == [x] + a[1..];
      assert a + b == [x] + (a[1..] + b);
      FirstHitsCons(x, a[1..] + b, seen);
      FirstHitsCons(x, a[1..], seen);
      FirstHitsAppend(a[1..], b, seen');
      UnionAssoc(seen, {Lower(x.text)}, KeySet(a[1..]));
      Assoc(here, FirstHits(a[1..], seen'), FirstHits(b, seen' + KeySet(a[1..])));
    }
  }

  /** Hits whose norms are all seen add no first hit. */
  lemma {:induction false} FirstHitsSeen(hs: seq<Hit>, seen: set<string>)
    requires KeySet(hs) <= seen
    ensures FirstHits(hs, seen) == []
    decreases |hs|
  {
    if hs != [] {
      assert hs[0] in hs;
      assert KeySet(hs[1..]) <= KeySet(hs) by {
        forall h | h in hs[1..] ensures h in hs {
          var k :| 0 <= k < |hs| - 1 && hs[1..][k] == h;
          assert hs[k + 1] == h;
        }
      }
      FirstHitsSeen(hs[1..], seen);
    }
  }

  lemma AscendingCons(x: Hit, hs: seq<Hit>)
    requires Ascending(hs) && forall h :: h in hs ==> x.at < h.at
    ensures Ascending([x] + hs)
  {
    var r := [x] + hs;
    forall j, k | 0 <= j < k < |r| ensures r[j].at < r[k].at {
      assert r[k] == hs[k - 1] && hs[k - 1] in hs;
      if j > 0 { assert r[j] == hs[j - 1]; }
    }
  }

  lemma AscendingAppend(a: seq<Hit>, b: seq<Hit>, m: nat)
    requires Ascending(a) && Ascending(b)
    requires (forall h :: h in a ==> h.at < m) && forall h :: h in b ==> m <= h.at
    ensures Ascending(a + b)
  {
    var r := a + b;
    forall j, k | 0 <= j < k < |r| ensures r[j].at < r[k].at {
      if k < |a| {
        assert r[j] == a[j] && r[k] == a[k];
      } else if j >= |a| {
        assert r[j] == b[j - |a|] && r[k] == b[k - |a|];
      } else {
        assert r[j] == a[j] && a[j] in a;
        assert r[k] == b[k - |a|] && b[k - |a|] in b;
      }
    }
  }

  /** The hits of a text node lie within it, in order, each under a wanted
      term. */
  lemma {:induction false} HitsShape(text: string, i: nat, ws: seq<string>, base: nat)
    requires i <= |text| && NonBlank(ws) && forall w :: w in ws ==> IsNormal(w)
    ensures var hs := Hits(text, i, ws, base);
      && Ascending(hs)
      && (forall h :: h in hs ==> base + i <= h.at < base + |text| && Lower(h.text) in ws && Norm(h.text) == Lower(h.text))
    decreases |text| - i
  {
    var found := FindMatch(text, i, ws);
    if found.Some? {
      var f := found.value;
      FoundShape(text, i, ws);
      assert ws[f.alt] in ws;
      LowerOfMatch(text[f.start..f.end], ws[f.alt]);
      assert ws[f.alt] != [];
      HitsShape(text, f.end, ws, base);
      var x := Hit(PageOffset(base, f.start), text[f.start..f.end]);
      AscendingCons(x, Hits(text, f.end, ws, base));
    }
  }

  /** The hits from node `i` on: node `i`'s, then those of the nodes after
      it, whose text starts at `off'`. */
  lemma PageHitsCons(doc: seq<Node>, i: nat, ws: seq<string>, off: nat, off': nat)
    requires i < |doc| && NonBlank(ws) && off' == Next(off, doc[i])
    ensures PageHits(doc, i, ws, off) == NodeHits(doc, i, ws, off) + PageHits(doc, i + 1, ws, off')
  {
  }

  /** The hits of the body lie after `off`, in order, each under a wanted
      term. */
  lemma {:induction false} PageHitsShape(doc: seq<Node>, i: nat, ws: seq<string>, off: nat)
    requires i <= |doc| && NonBlank(ws) && forall w :: w in ws ==> IsNormal(w)
    ensures var hs := PageHits(doc, i, ws, off);
      && Ascending(hs)
      && forall h :: h in hs ==> off <= h.at && Lower(h.text) in ws && Norm(h.text) == Lower(h.text)
    decreases |doc| - i
  {
    if i < |doc| {
      var off' := Next(off, doc[i]);
      PageHitsCons(doc, i, ws, off, off');
      PageHitsShape(doc, i + 1, ws, off');
      if Accepted(doc[i], ws) {
        HitsShape(doc[i].value, 0, ws, off);
        AscendingAppend(Hits(doc[i].value, 0, ws, off), PageHits(doc, i + 1, ws, off'), off');
      }
    }
  }

  lemma {:induction false} MarkHitsAppend(a: seq<Node>, b: seq<Node>, off: nat, off': nat)
    requires off' == off + |TextOf(a)|
    ensures MarkHits(a + b, off) == MarkHits(a, off) + MarkHits(b, off')
    decreases |a|
  {
    if a == [] {
      assert a + b == b;
    } else {
      var next := Next(off, a[0]);
      TextOfCons(a[0], a[1..]);
      assert a == [a[0]] + a[1..];
      MarkHitsAppend(a[1..], b, next, off');
      ConsAppend(a, b);
      var x := if a[0].Mark? then [Hit(off, a[0].text)] else [];
      Assoc(x, MarkHits(a[1..], next), MarkHits(b, off'));
    }
  }

  /** The marks of a node followed by more nodes. */
  lemma MarkHitsCons(n: Node, tail: seq<Node>, off: nat, off': nat)
    requires off' == Next(off, n)
    ensures MarkHits([n] + tail, off) == (if n.Mark? then [Hit(off, n.text)] else []) + MarkHits(tail, off')
  {
    assert ([n] + tail)[1..] == tail;
  }

  lemma {:induction false} NoMarkHits(nodes: seq<Node>, off: nat)
    requires forall n :: n in nodes ==> !n.Mark?
    ensures MarkHits(nodes, off) == []
    decreases |nodes|
  {
    if nodes != [] {
      assert nodes[0] in nodes;
      assert forall n :: n in nodes[1..] ==> n in nodes;
      NoMarkHits(nodes[1..], Next(off, nodes[0]));
    }
  }

  /** Each mark hit's norm is among the mark keys. */
  lemma {:induction false} MarkHitsKeys(nodes: seq<Node>, off: nat)
    ensures forall h :: h in MarkHits(nodes, off) ==> Norm(h.text) in MarkKeys(nodes)
    decreases |nodes|
  {
    if nodes != [] {
      MarkHitsKeys(nodes[1..], Next(off, nodes[0]));
      assert nodes == [nodes[0]] + nodes[1..];
      MarkKeysAppend([nodes[0]], nodes[1..]);
      MarkKeysOne(nodes[0]);
    }
  }

  /** A match of a normal term is, lower-cased, that term and its own
      `norm`. */
  lemma LowerOfMatch(m: string, w: string)
    requires IsNormal(w) && EqualsIgnoreCase(m, w)
    ensures Lower(m) == w && Norm(m) == w
  {
    NormOfMatch(m, w);
    NormFixpoint(w);
  }

  lemma NormalMembers(ws: seq<string>)
    requires forall k :: 0 <= k < |ws| ==> IsNormal(ws[k])
    ensures forall w :: w in ws ==> IsNormal(w)
  {
  }

  /** A list of distinct terms is exhausted by a subset of its size. */
  lemma FullSet(s: set<string>, ws: seq<string>)
    requires |SetOf(ws)| == |ws| && s <= SetOf(ws) && |s| == |ws|
    ensures s == SetOf(ws)
  {
    if s != SetOf(ws) {
      var x :| x in SetOf(ws) && x !in s;
      SubsetCard(s, SetOf(ws) - {x});
    }
  }

  /** A plain prefix, a match's piece and a tail, as mark hits. */
  lemma StepHits(text: string, i: nat, start: nat, end: nat, parent: Element, piece: Node,
                 tail: seq<Node>, off: nat, x: Hit, off': nat)
    requires i <= start <= end <= |text| && NodeText(piece) == text[start..end]
    requires x == Hit(off + (start - i), text[start..end]) && off' == off + (end - i)
    ensures MarkHits(Before(text, i, start, parent) + [piece] + tail, off)
      == (if piece.Mark? then [x] else []) + MarkHits(tail, off')
  {
    var pre := Before(text, i, start, parent);
    var mid := off + (start - i);
    Assoc(pre, [piece], tail);
    BeforeText(text, i, start, parent);
    MarkHitsAppend(pre, [piece] + tail, off, mid);
    NoMarkHits(pre, off);
    MarkHitsCons(piece, tail, mid, off');
  }

  /** Fragment `r`, whose text starts at `off`, marks exactly the first hit
      of `hs` of each norm not in `marked`, and records the norms of all of
      them. */
  predicate MarksFirsts(r: Rewritten, hs: seq<Hit>, marked: set<string>, off: nat) {
    MarkHits(r.pieces, off) == FirstHits(hs, marked) && r.marked == marked + KeySet(hs)
  }

  /** The converse of RewriteTextMarks: a fragment marks exactly the first
      reported match of each term not marked before, at the place where it
      was reported, and records every reported term. The early stop
      changes nothing, since it comes only once every wanted term is
      marked. */
  lemma {:induction false} RewriteTextFirsts(text: string, i: nat, parent: Element, ws: seq<string>,
                                             first: OrderedMap<string, string>, marked: set<string>, base: nat,
                                             off: nat, r: Rewritten, hs: seq<Hit>)
    requires i <= |text| && NonBlank(ws) && |SetOf(ws)| == |ws|
    requires (forall w :: w in ws ==> IsNormal(w)) && marked <= SetOf(ws)
    requires off == base + i
    requires r == RewriteText(text, i, parent, ws, first, marked) && hs == Hits(text, i, ws, base)
    ensures MarksFirsts(r, hs, marked, off)
    decreases |text| - i, 1
  {
    var found := FindMatch(text, i, ws);
    if found.None? {
      assert hs == [] && KeySet(hs) == {};
      assert r == Rewritten(Rest(text, i, parent), marked);
      NoMarkHits(Rest(text, i, parent), off);
    } else {
      MatchFirsts(text, i, parent, ws, first, marked, base, off, r, hs, found.value);
    }
  }

  /** The step of RewriteTextFirsts at a reported match `f`. */
  lemma {:induction false} MatchFirsts(text: string, i: nat, parent: Element, ws: seq<string>,
                                       first: OrderedMap<string, string>, marked: set<string>, base: nat,
                                       off: nat, r: Rewritten, hs: seq<Hit>, f: Found)
    requires i <= |text| && NonBlank(ws) && |SetOf(ws)| == |ws|
    requires (forall w :: w in ws ==> IsNormal(w)) && marked <= SetOf(ws)
    requires off == base + i && FindMatch(text, i, ws) == Some(f)
    requires r == RewriteText(text, i, parent, ws, first, marked) && hs == Hits(text, i, ws, base)
    ensures MarksFirsts(r, hs, marked, off)
    decreases |text| - i, 0
  {
    var m := text[f.start..f.end];
    var x := Hit(PageOffset(base, f.start), m);
    var marked' := marked + {Norm(m)};
    var rest := Hits(text, f.end, ws, base);
    var pre := Before(text, i, f.start, parent);
    var piece := Piece(m, parent, first, marked);
    assert ws[f.alt] != [] && i < f.end;
    assert marked' <= SetOf(ws) by {
      assert hs == [x] + rest;
      HitsShape(text, i, ws, base);
      assert hs[0] in hs;
    }
    var tail := After(text, f.end, parent, ws, first, marked');
    assert Lower(m) == Norm(m) by {
      FoundShape(text, i, ws);
      assert ws[f.alt] in ws;
      LowerOfMatch(m, ws[f.alt]);
    }
    var here := if Lower(m) in marked then [] else [x];
    var e := base + f.end;
    assert r.marked == tail.marked && MarkHits(r.pieces, off) == here + MarkHits(tail.pieces, e) by {
      RewriteTextStep(text, i, parent, ws, first, marked, f);
      StepHits(text, i, f.start, f.end, parent, piece, tail.pieces, off, x, e);
    }
    assert MarksFirsts(tail, rest, marked', e) by {
      TailFirsts(text, f.end, parent, ws, first, marked', base, e, tail, rest);
    }
    assert FirstHits(hs, marked) == here + FirstHits(rest, marked') && KeySet(hs) == {Lower(m)} + KeySet(rest) by {
      assert hs == [x] + rest;
      FirstHitsCons(x, rest, marked);
    }
    UnionAssoc(marked, {Lower(m)}, KeySet(rest));
  }

  lemma UnionAssoc<T>(a: set<T>, b: set<T>, c: set<T>)
    ensures (a + b) + c == a + (b + c)
  {
  }

  /** What follows a match is the rest of the scan, or, once every wanted
      term is marked, plain text that the remaining matches agree with. */
  lemma {:induction false} TailFirsts(text: string, end: nat, parent: Element, ws: seq<string>,
                                      first: OrderedMap<string, string>, marked: set<string>, base: nat,
                                      off: nat, r: Rewritten, hs: seq<Hit>)
    requires end <= |text| && NonBlank(ws) && |SetOf(ws)| == |ws|
    requires (forall w :: w in ws ==> IsNormal(w)) && marked <= SetOf(ws)
    requires off == base + end
    requires r == After(text, end, parent, ws, first, marked) && hs == Hits(text, end, ws, base)
    ensures MarksFirsts(r, hs, marked, off)
    decreases |text| - end, 2
  {
    if |marked| == |ws| {
      FullTail(text, end, parent, ws, marked, base, off);
    } else {
      RewriteTextFirsts(text, end, parent, ws, first, marked, base, off, r, hs);
    }
  }

  /** Once every wanted term is marked, the plain rest of a text node is
      what the remaining matches call for: no mark. */
  lemma FullTail(text: string, end: nat, parent: Element, ws: seq<string>, marked: set<string>, base: nat, off: nat)
    requires end <= |text| && NonBlank(ws) && |SetOf(ws)| == |ws|
    requires (forall w :: w in ws ==> IsNormal(w)) && marked <= SetOf(ws) && |marked| == |ws|
    ensures MarksFirsts(Rewritten(Rest(text, end, parent), marked), Hits(text, end, ws, base), marked, off)
  {
    var rest := Hits(text, end, ws, base);
    HitsShape(text, end, ws, base);
    FullSet(marked, ws);
    NoMarkHits(Rest(text, end, parent), off);
    FirstHitsSeen(rest, marked);
  }

  /** The walk from node `i` on, on a body without marks, marks exactly the
      first reported match of each term not yet marked. */
  lemma {:induction false} BlocksFirsts(doc: seq<Node>, i: nat, ws: seq<string>,
                                        first: OrderedMap<string, string>, marked: set<string>, off: nat)
    requires i <= |doc| && NonBlank(ws) && |SetOf(ws)| == |ws|
    requires (forall w :: w in ws ==> IsNormal(w)) && marked <= SetOf(ws)
    requires MarkCount(doc[i..]) == 0
    ensures MarkHits(Flatten(Blocks(doc, i, ws, first, marked)), off) == FirstHits(PageHits(doc, i, ws, off), marked)
    decreases |doc| - i
  {
    if i < |doc| {
      var bs := Blocks(doc, i, ws, first, marked);
      var off' := Next(off, doc[i]);
      var hs := NodeHits(doc, i, ws, off);
      PageHitsCons(doc, i, ws, off, off');
      assert doc[i..] == [doc[i]] + doc[i + 1..];
      MarkCountAppend([doc[i]], doc[i + 1..]);
      var m' := BlocksHead(doc, i, ws, first, marked);
      NodeFirsts(doc, i, ws, first, marked, off, bs[0], m');
      assert bs == [bs[0]] + bs[1..];
      FlattenCons(bs[0], bs[1..]);
      BlocksFirsts(doc, i + 1, ws, first, m', off');
      MarkHitsAppend(bs[0], Flatten(bs[1..]), off, off');
      FirstHitsAppend(hs, PageHits(doc, i + 1, ws, off'), marked);
    }
  }

  /** Node `i`'s block marks exactly the first reported match in it of each
      term not yet marked, and spells the node's text. */
  lemma NodeFirsts(doc: seq<Node>, i: nat, ws: seq<string>, first: OrderedMap<string, string>,
                   marked: set<string>, off: nat, b: seq<Node>, marked': set<string>)
    requires i < |doc| && NonBlank(ws) && |SetOf(ws)| == |ws|
    requires (forall w :: w in ws ==> IsNormal(w)) && marked <= SetOf(ws)
    requires !doc[i].Mark?
    requires var go := |marked| != |ws| && Accepted(doc[i], ws);
      && b == (if go then RewriteText(doc[i].value, 0, doc[i].parent, ws, first, marked).pieces else [doc[i]])
      && marked' == if go then RewriteText(doc[i].value, 0, doc[i].parent, ws, first, marked).marked else marked
    ensures var hs := NodeHits(doc, i, ws, off);
      && MarkHits(b, off) == FirstHits(hs, marked)
      && |TextOf(b)| == |NodeText(doc[i])|
      && marked' == marked + KeySet(hs) && marked' <= SetOf(ws)
  {
    var hs := NodeHits(doc, i, ws, off);
    assert KeySet(hs) <= SetOf(ws) by {
      if Accepted(doc[i], ws) {
        HitsShape(doc[i].value, 0, ws, off);
      }
    }
    if |marked| != |ws| && Accepted(doc[i], ws) {
      assert MarkHits(b, off) == FirstHits(hs, marked) && marked' == marked + KeySet(hs) by {
        RewriteTextFirsts(doc[i].value, 0, doc[i].parent, ws, first, marked, off, off,
                          RewriteText(doc[i].value, 0, doc[i].parent, ws, first, marked), hs);
      }
      assert TextOf(b) == doc[i].value by {
        RewriteTextText(doc[i].value, 0, doc[i].parent, ws, first, marked);
        assert doc[i].value[0..] == doc[i].value;
      }
    } else {
      assert MarkHits(b, off) == [] by {
        NoMarkHits([doc[i]], off);
      }
      assert TextOf(b) == NodeText(doc[i]) by {
        TextOfCons(doc[i], []);
      }
      assert FirstHits(hs, marked) == [] && marked + KeySet(hs) == marked by {
        if Accepted(doc[i], ws) {
          FullSet(marked, ws);
          FirstHitsSeen(hs, marked);
        }
      }
    }
  }

  /** With no alternative, the pattern never matches. */
  lemma {:induction false} NoAlternative(text: string, i: nat)
    ensures FindMatch(text, i, []).None?
    decreases |text| + 1 - i
  {
    if i <= |text| {
      NoAlternative(text, i + 1);
    }
  }

  lemma {:induction false} NoPageHits(doc: seq<Node>, i: nat, off: nat)
    requires i <= |doc|
    ensures PageHits(doc, i, [], off) == []
    decreases |doc| - i
  {
    if i < |doc| {
      if doc[i].Text? {
        NoAlternative(doc[i].value, 0);
      }
      NoPageHits(doc, i + 1, Next(off, doc[i]));
    }
  }

  /** On a body without marks, the marks highlightTerms places are exactly
      the first reported match of each wanted term, in walk order and at the
      place in the page's text where it was reported. */
  lemma HighlightedFirsts(doc: seq<Node>, terms: seq<string>)
    requires MarkCount(doc) == 0
    ensures MarkHits(Highlighted(doc, terms), 0) == FirstHits(ReportedHits(doc, terms), {})
  {
    var first := FirstByNorm(terms);
    var ws := Keys(first);
    WantedNonBlank(terms);
    if terms == [] || ws == [] {
      assert ws == [];
      NoMarkIn(doc);
      NoMarkHits(doc, 0);
      NoPageHits(doc, 0, 0);
    } else {
      WantedDistinct(terms);
      DistinctCard(ws);
      NormalMembers(ws);
      assert doc[0..] == doc;
      BlocksFirsts(doc, 0, ws, first, {}, 0);
    }
  }

  /** The first-occurrence promise of highlightTerms, on a body without
      marks: a match reported in an accepted text node is wrapped in a mark
      exactly when no earlier reported match has the same `norm`, every
      mark is such a match, and every term reported anywhere is marked. */
  lemma HighlightedFirstOccurrence(doc: seq<Node>, terms: seq<string>)
    requires MarkCount(doc) == 0
    ensures var r := Highlighted(doc, terms);
      var hs := ReportedHits(doc, terms);
      && (forall h :: h in hs ==> Norm(h.text) == Lower(h.text))
      && (forall h :: h in MarkHits(r, 0) ==> h in hs)
      && (forall j :: 0 <= j < |hs| ==> (hs[j] in MarkHits(r, 0) <==> Lower(hs[j].text) !in KeySet(hs[..j])))
      && forall j :: 0 <= j < |hs| ==> Norm(hs[j].text) in MarkKeys(r)
  {
    ReportedShape(doc, terms);
    MarkedFirsts(doc, terms);
    ReportedMarked(doc, terms);
  }

  /** The reported matches are in order, each is spelt as a wanted term up
      to case, and on a body without marks every mark is one of them. */
  lemma ReportedShape(doc: seq<Node>, terms: seq<string>)
    requires MarkCount(doc) == 0
    ensures var hs := ReportedHits(doc, terms);
      && Ascending(hs)
      && (forall h :: h in hs ==> Norm(h.text) == Lower(h.text))
      && forall h :: h in MarkHits(Highlighted(doc, terms), 0) ==> h in hs
  {
    var hs := ReportedHits(doc, terms);
    WantedNonBlank(terms);
    HighlightedFirsts(doc, terms);
    NormalMembers(Keys(FirstByNorm(terms)));
    PageHitsShape(doc, 0, Keys(FirstByNorm(terms)), 0);
    FirstHitsSpec(hs, {});
  }

  /** On a body without marks, a reported match is marked exactly when no
      earlier reported match has its norm. */
  lemma MarkedFirsts(doc: seq<Node>, terms: seq<string>)
    requires MarkCount(doc) == 0
    ensures var hs := ReportedHits(doc, terms);
      forall j :: 0 <= j < |hs| ==> (hs[j] in MarkHits(Highlighted(doc, terms), 0) <==> Lower(hs[j].text) !in KeySet(hs[..j]))
  {
    var hs := ReportedHits(doc, terms);
    ReportedShape(doc, terms);
    HighlightedFirsts(doc, terms);
    FirstHitsSpec(hs, {});
    forall j | 0 <= j < |hs| ensures {} + KeySet(hs[..j]) == KeySet(hs[..j]) {
    }
  }

  /** Every term reported anywhere in a body without marks ends up marked. */
  lemma ReportedMarked(doc: seq<Node>, terms: seq<string>)
    requires MarkCount(doc) == 0
    ensures var r := Highlighted(doc, terms);
      var hs := ReportedHits(doc, terms);
      forall j :: 0 <= j < |hs| ==> Norm(hs[j].text) in MarkKeys(r)
  {
    var r := Highlighted(doc, terms);
    var hs := ReportedHits(doc, terms);
    WantedNonBlank(terms);
    HighlightedFirsts(doc, terms);
    NormalMembers(Keys(FirstByNorm(terms)));
    PageHitsShape(doc, 0, Keys(FirstByNorm(terms)), 0);
    FirstHitsSpec(hs, {});
    FirstHitsKeys(hs, {});
    MarkHitsKeys(r, 0);
    var ms := MarkHits(r, 0);
    forall j | 0 <= j < |hs| ensures Norm(hs[j].text) in MarkKeys(r) {
      assert hs[j] in hs;
      assert Lower(hs[j].text) in KeySet(ms);
      var h :| h in ms && Lower(h.text) == Lower(hs[j].text);
    }
  }

  // ---------------------------------------------------------------------
  // The page

  class Page {
    var body: seq<Node>

    constructor (body: seq<Node>)
      ensures this.body == body
    {
      this.body := body;
    }

    method UnhighlightAll()
      modifies this
      ensures body == Unhighlighted(old(body))
    {
      while FirstMark(body, 0).Some?
        invariant Unhighlighted(body) == Unhighlighted(old(body))
        decreases MarkCount(body)
      {
        var k := FirstMark(body, 0).value;
        var m := body[k];
        ghost var before := body;
        body := body[..k] + [Text(m.text, m.parent)] + body[k + 1..];
        body := NormalizeSubtree(body, m.parent);
        assert body == UnmarkFirst(before, k);
      }
    }

    method HighlightTerms(terms: seq<string>)
      modifies this
      ensures body == Highlighted(old(body), terms)
    {
      if |terms| == 0 {
        return;
      }
      var first := FirstOriginalByNorm(terms);
      var wanted := Keys(first);
      if |wanted| == 0 {
        return;
      }
      WantedNonBlank(terms);
      var nodes := CollectNodes(body, wanted);
      body := RewriteBody(body, wanted, first, nodes);
    }

    /** The `HIGHLIGHT_CONCEPTS` message: clear, highlight, report the
        number of marks. */
    method HandleHighlightConcepts(terms: seq<string>) returns (count: nat)
      modifies this
      ensures body == Highlighted(Unhighlighted(old(body)), terms)
      ensures count == MarkCount(body) && count <= |terms|
    {
      UnhighlightAll();
      HighlightTerms(terms);
      count := MarkCount(body);
      HandlerSpec(old(body), terms);
    }
  }
}
