/** The extractive condenser: `splitSentences` and `condenseFast` of
    sidepanel.js (copied verbatim in quiz.js). */
module Condense {
  import opened Chars
  import opened TextNormalize
  import opened Optional

  /** Lines shorter than this are dropped. */
  const MinLineLength: nat := 25
  /** A line at most this long that does not end a sentence is a heading. */
  const HeadingMaxLength: nat := 90

  /** `.map(s => s.trim()).filter(Boolean)` */
  function TrimAndDropEmpty(xs: seq<string>): (r: seq<string>)
    ensures |r| <= |xs|
    ensures forall t :: t in r ==> t != [] && Trimmed(t)
  {
    if xs == [] then []
    else
      var t := Trim(xs[0]);
      TrimSpec(xs[0]);
      if t == [] then TrimAndDropEmpty(xs[1..]) else [t] + TrimAndDropEmpty(xs[1..])
  }

  /** Trimming and dropping blanks creates no character. */
  lemma {:induction false} TrimAndDropEmptyChars(xs: seq<string>, c: char)
    requires forall x :: x in xs ==> c !in x
    ensures forall t :: t in TrimAndDropEmpty(xs) ==> c !in t
  {
    if xs != [] {
      TrimIsSlice(xs[0]);
      TrimAndDropEmptyChars(xs[1..], c);
    }
  }

  /** The candidate lines of condenseFast:
      `normalize(raw).split(/\n+/).map(l => l.trim()).filter(Boolean)`. */
  function Lines(raw: string): (r: seq<string>)
    ensures forall t :: t in r ==> t != [] && Trimmed(t) && '\n' !in t
  {
    var pieces := SplitRuns(Normalize(raw), IsNewline);
    SplitRunsAvoid(Normalize(raw), IsNewline);
    TrimAndDropEmptyChars(pieces, '\n');
    TrimAndDropEmpty(pieces)
  }

  lemma TrimIsSlice(s: string)
    ensures forall c :: c in Trim(s) ==> c in s
  {
    TrimSpec(s);
    SliceChars(s, Trim(s), TrimOffset(s));
  }

  lemma SliceChars(s: string, r: string, a: nat)
    requires a + |r| <= |s| && r == s[a..a + |r|]
    ensures forall c :: c in r ==> c in s
  {
    assert forall i :: 0 <= i < |r| ==> r[i] == s[a + i];
  }

  // ---------------------------------------------------------------------
  // splitSentences: `text.split(/(?<=[\.!?])\s+(?=[A-Z0-9“"(\[])/g)`

  predicate IsSentenceEnd(c: char) { c == '.' || c == '!' || c == '?' }

  /** `[A-Z0-9“"(\[]` */
  predicate IsSentenceOpener(c: char) {
    IsUpper(c) || IsDigit(c) || c == '\U{201C}' || c == '"' || c == '(' || c == '['
  }

  /** The end of the whitespace run starting at `i`. */
  function SpaceRunEnd(s: string, i: nat): (e: nat)
    requires i <= |s|
    ensures i <= e <= |s|
    ensures forall k :: i <= k < e ==> IsJsSpace(s[k])
    ensures e < |s| ==> !IsJsSpace(s[e])
    decreases |s| - i
  {
    if i < |s| && IsJsSpace(s[i]) then SpaceRunEnd(s, i + 1) else i
  }

  /** The separator matches at `i`: the character before `i` ends a sentence,
      a whitespace run starts at `i`, and an opener follows that run. Because
      `\s+` is greedy and an opener is never whitespace, only the maximal run
      can be followed by the opener. */
  predicate BoundaryAt(s: string, i: nat)
    requires i <= |s|
  {
    && 0 < i < |s|
    && IsSentenceEnd(s[i - 1])
    && IsJsSpace(s[i])
    && SpaceRunEnd(s, i) < |s|
    && IsSentenceOpener(s[SpaceRunEnd(s, i)])
  }

  /** The leftmost separator at or after `i`, as (start, end). */
  function FindBoundary(s: string, i: nat): (r: Option<(nat, nat)>)
    requires i <= |s|
    ensures r.Some? ==> var (b, e) := r.value;
      i <= b < e <= |s| && BoundaryAt(s, b) && e == SpaceRunEnd(s, b)
      && forall k :: i <= k < b ==> !BoundaryAt(s, k)
    ensures r.None? ==> forall k :: i <= k <= |s| ==> !BoundaryAt(s, k)
    decreases |s| - i
  {
    if i >= |s| then None
    else if BoundaryAt(s, i) then Some((i, SpaceRunEnd(s, i)))
    else FindBoundary(s, i + 1)
  }

  /** The pieces of `text.split(regex)` before trimming. */
  function SplitAtBoundaries(s: string): (r: seq<string>)
    ensures |r| >= 1
    decreases |s|
  {
    match FindBoundary(s, 0)
    case None => [s]
    case Some((b, e)) => [s[..b]] + SplitAtBoundaries(s[e..])
  }

  /** sidepanel.js `splitSentences`. */
  function SplitSentences(text: string): (r: seq<string>)
    ensures forall t :: t in r ==> t != [] && Trimmed(t)
  {
    TrimAndDropEmpty(SplitAtBoundaries(text))
  }

  /** `splitSentences(line)[0] || line` */
  function FirstSentence(line: string): string {
    var pieces := SplitSentences(line);
    if |pieces| > 0 then pieces[0] else line
  }

  /** The first sentence of a non-empty trimmed line is a non-empty prefix of
      it: the line itself when it has no sentence boundary, and otherwise the
      text up to and including the first sentence-ending mark that is followed
      by whitespace and an opener. */
  lemma FirstSentenceIsPrefix(line: string)
    requires line != [] && Trimmed(line)
    ensures FirstSentence(line) != [] && |FirstSentence(line)| <= |line|
    ensures FirstSentence(line) == line[..|FirstSentence(line)|]
    ensures FindBoundary(line, 0).None? ==> FirstSentence(line) == line
    ensures FindBoundary(line, 0).Some? ==>
      |FirstSentence(line)| == FindBoundary(line, 0).value.0
      && IsSentenceEnd(FirstSentence(line)[|FirstSentence(line)| - 1])
  {
    match FindBoundary(line, 0)
    case None =>
      FirstSentenceWhole(line);
      assert line[..|line|] == line;
    case Some((b, e)) =>
      FirstSentenceHead(line, b, e);
      assert BoundaryAt(line, b);
  }

  lemma FirstSentenceWhole(line: string)
    requires line != [] && Trimmed(line) && FindBoundary(line, 0).None?
    ensures FirstSentence(line) == line
  {
    assert SplitAtBoundaries(line) == [line];
    TrimFixed(line);
  }

  lemma FirstSentenceHead(line: string, b: nat, e: nat)
    requires line != [] && Trimmed(line) && FindBoundary(line, 0) == Some((b, e))
    ensures FirstSentence(line) == line[..b]
  {
    var head := line[..b];
    assert Trimmed(head);
    SplitHead(line, b, e);
    TrimAndDropEmptyCons(head, SplitAtBoundaries(line[e..]));
  }

  lemma SplitHead(line: string, b: nat, e: nat)
    requires FindBoundary(line, 0) == Some((b, e))
    ensures SplitAtBoundaries(line) == [line[..b]] + SplitAtBoundaries(line[e..])
  {
  }

  /** A piece that is already trimmed and non-empty is kept as it is. */
  lemma TrimAndDropEmptyCons(x: string, xs: seq<string>)
    requires x != [] && Trimmed(x)
    ensures TrimAndDropEmpty([x] + xs) == [x] + TrimAndDropEmpty(xs)
  {
    TrimFixed(x);
    assert ([x] + xs)[1..] == xs;
  }

  // ---------------------------------------------------------------------
  // condenseFast

  /** A line of the output, tagged with the branch that kept it. */
  datatype Kept = Heading(text: string) | Sentence(text: string)

  /** The dedup-set key of a kept line: "H|" or "S|" and the lowercased text. */
  function Key(k: Kept): string {
    match k
    case Heading(t) => "H|" + Lower(t)
    case Sentence(t) => "S|" + Lower(t)
  }

  function Texts(ks: seq<Kept>): (r: seq<string>)
    ensures |r| == |ks| && forall i :: 0 <= i < |ks| ==> r[i] == ks[i].text
  {
    seq(|ks|, i requires 0 <= i < |ks| => ks[i].text)
  }

  lemma TextsAppend(ks: seq<Kept>, k: Kept)
    ensures Texts(ks + [k]) == Texts(ks) + [k.text]
  {
  }

  function KeySet(ks: seq<Kept>): set<string> {
    set i | 0 <= i < |ks| :: Key(ks[i])
  }

  predicate KeysDistinct(ks: seq<Kept>) {
    forall i, j :: 0 <= i < j < |ks| ==> Key(ks[i]) != Key(ks[j])
  }

  /** `line.length <= 90 && !/[.!?]$/.test(line)` */
  predicate IsHeadingLine(line: string) {
    |line| <= HeadingMaxLength && !(|line| > 0 && IsSentenceEnd(line[|line| - 1]))
  }

  /** The item a qualifying line would contribute. */
  function Representative(line: string): Kept {
    if IsHeadingLine(line) then Heading(line) else Sentence(FirstSentence(line))
  }

  /** The state of the loop of condenseFast: the dedup set and the lines
      kept so far, tagged. */
  datatype State = State(dedup: set<string>, keep: seq<Kept>)

  /** `if (!dedup.has(k)) { keep.push(text); dedup.add(k); }` */
  function Remembered(s: State, item: Kept): State {
    if Key(item) in s.dedup then s else State(s.dedup + {Key(item)}, s.keep + [item])
  }

  /** One pass of the loop body over `line`: the new state, and whether the
      loop breaks. Only the sentence branch checks the cap: the heading
      branch `continue`s past it. */
  function Step(line: string, s: State, cap: nat): (State, bool) {
    if |line| < MinLineLength then (s, false)
    else
      var s' := Remembered(s, Representative(line));
      (s', !IsHeadingLine(line) && |Join(Texts(s'.keep), "\n")| >= cap)
  }

  /** The loop of condenseFast from line `i` on. */
  function Scan(lines: seq<string>, i: nat, s: State, cap: nat): seq<Kept>
    requires i <= |lines|
    decreases |lines| - i
  {
    if i == |lines| then s.keep
    else
      var (s', stop) := Step(lines[i], s, cap);
      if stop then s'.keep else Scan(lines, i + 1, s', cap)
  }

  /** How many lines the loop of condenseFast looks at from line `i` on:
      all of them, or up to and including the line at which it breaks. */
  function ScanEnd(lines: seq<string>, i: nat, s: State, cap: nat): (n: nat)
    requires i <= |lines|
    ensures i <= n <= |lines|
    decreases |lines| - i
  {
    if i == |lines| then |lines|
    else
      var (s', stop) := Step(lines[i], s, cap);
      if stop then i + 1 else ScanEnd(lines, i + 1, s', cap)
  }

  /** The kept lines of condenseFast(raw, cap), tagged. */
  function KeptLines(raw: string, cap: nat): seq<Kept> {
    Scan(Lines(raw), 0, State({}, []), cap)
  }

  /** condenseFast(raw, charCap): the kept lines joined by newlines, sliced to
      the cap. */
  function Condensed(raw: string, cap: nat): (r: string)
    ensures |r| <= cap
  {
    var j := Join(Texts(KeptLines(raw, cap)), "\n");
    if |j| > cap then j[..cap] else j
  }

  /** `if (!dedup.has(k)) { keep.push(item.text); dedup.add(k); }` with `k`
      the key of `item`. */
  method Remember(keep: seq<string>, dedup: set<string>, ghost s: State, item: Kept)
    returns (keep': seq<string>, dedup': set<string>, ghost s': State)
    requires keep == Texts(s.keep) && dedup == s.dedup
    ensures s' == Remembered(s, item)
    ensures keep' == Texts(s'.keep) && dedup' == s'.dedup
    ensures Key(item) !in dedup ==> keep' == keep + [item.text] && dedup' == dedup + {Key(item)}
    ensures Key(item) in dedup ==> keep' == keep && dedup' == dedup
  {
    var k := Key(item);
    keep', dedup', s' := keep, dedup, s;
    if k !in dedup {
      TextsAppend(s.keep, item);
      keep' := keep + [item.text];
      dedup' := dedup + {k};
      s' := State(dedup', s.keep + [item]);
    }
  }

  /** sidepanel.js `condenseFast`, written as the loop the source runs. */
  method CondenseFast(raw: string, charCap: nat) returns (condensed: string)
    ensures condensed == Condensed(raw, charCap)
    ensures |condensed| <= charCap
  {
    var lines := Lines(raw);
    var dedup: set<string> := {};
    var keep: seq<string> := [];
    ghost var state := State({}, []);
    var i: nat := 0;
    while i < |lines|
      invariant 0 <= i <= |lines|
      invariant dedup == state.dedup && keep == Texts(state.keep)
      invariant Scan(lines, i, state, charCap) == KeptLines(raw, charCap)
    {
      var line := lines[i];
      if |line| < MinLineLength {
        i := i + 1;
        continue;
      }
      var isHeading := IsHeadingLine(line);
      if isHeading {
        keep, dedup, state := Remember(keep, dedup, state, Heading(line));
        i := i + 1;
        continue;
      }
      var first := FirstSentence(line);
      keep, dedup, state := Remember(keep, dedup, state, Sentence(first));
      if |Join(keep, "\n")| >= charCap {
        assert state.keep == KeptLines(raw, charCap);
        break;
      }
      i := i + 1;
    }
    ghost var kept := KeptLines(raw, charCap);
    assert keep == Texts(kept);
    condensed := Join(keep, "\n");
    if |condensed| > charCap {
      condensed := condensed[..charCap];
    }
  }

  // ---------------------------------------------------------------------
  // What is kept.

  lemma KeyKinds(a: Kept, b: Kept)
    ensures Key(a) == Key(b) <==> a.Heading? == b.Heading? && Lower(a.text) == Lower(b.text)
  {
    var ka, kb := Key(a), Key(b);
    if ka == kb {
      assert ka[0] == kb[0];
      assert ka[2..] == Lower(a.text) && kb[2..] == Lower(b.text);
    }
  }

  /** The dedup set is exactly the keys of the kept lines, and those keys are
      pairwise different. */
  predicate ScanState(dedup: set<string>, keep: seq<Kept>) {
    dedup == KeySet(keep) && KeysDistinct(keep)
  }

  lemma AppendKeepsState(dedup: set<string>, keep: seq<Kept>, item: Kept)
    requires ScanState(dedup, keep) && Key(item) !in dedup
    ensures ScanState(dedup + {Key(item)}, keep + [item])
  {
    var keep' := keep + [item];
    assert KeySet(keep') == KeySet(keep) + {Key(item)} by {
      forall x | x in KeySet(keep') ensures x in KeySet(keep) + {Key(item)} {
        var i :| 0 <= i < |keep'| && x == Key(keep'[i]);
        if i < |keep| { assert keep'[i] == keep[i]; }
      }
      forall x | x in KeySet(keep) ensures x in KeySet(keep') {
        var i :| 0 <= i < |keep| && x == Key(keep[i]);
        assert keep'[i] == keep[i];
      }
      assert Key(keep'[|keep|]) == Key(item);
    }
    forall i, j | 0 <= i < j < |keep'| ensures Key(keep'[i]) != Key(keep'[j]) {
      if j < |keep| {
        assert keep'[i] == keep[i] && keep'[j] == keep[j];
      } else {
        assert keep'[i] == keep[i];
        assert Key(keep[i]) in KeySet(keep);
      }
    }
  }

  /** `x` is what some qualifying line of `lines[i..]` contributes. */
  predicate FromLines(lines: seq<string>, i: nat, x: Kept) {
    exists j :: i <= j < |lines| && |lines[j]| >= MinLineLength && x == Representative(lines[j])
  }

  /** Remembering an item keeps the dedup state and only extends the kept lines. */
  lemma RememberedKeepsState(s: State, item: Kept)
    requires ScanState(s.dedup, s.keep)
    ensures var s' := Remembered(s, item);
      && ScanState(s'.dedup, s'.keep)
      && |s.keep| <= |s'.keep| && s'.keep[..|s.keep|] == s.keep
      && forall k :: |s.keep| <= k < |s'.keep| ==> s'.keep[k] == item
  {
    if Key(item) !in s.dedup {
      AppendKeepsState(s.dedup, s.keep, item);
    }
  }

  /** Scan keeps the dedup state and only extends what it was given. */
  lemma {:induction false} ScanExtends(lines: seq<string>, i: nat, s: State, cap: nat)
    requires i <= |lines|
    requires ScanState(s.dedup, s.keep)
    ensures var r := Scan(lines, i, s, cap);
      KeysDistinct(r) && |s.keep| <= |r| && r[..|s.keep|] == s.keep
    decreases |lines| - i
  {
    if i == |lines| {
      return;
    }
    var (s', stop) := Step(lines[i], s, cap);
    if |lines[i]| >= MinLineLength {
      RememberedKeepsState(s, Representative(lines[i]));
    }
    if !stop {
      ScanExtends(lines, i + 1, s', cap);
      var r := Scan(lines, i + 1, s', cap);
      assert r[..|s.keep|] == r[..|s'.keep|][..|s.keep|];
    }
  }

  /** Everything Scan adds is contributed by a qualifying line of `lines[i..]`. */
  lemma {:induction false} ScanOrigin(lines: seq<string>, i: nat, s: State, cap: nat)
    requires i <= |lines|
    requires ScanState(s.dedup, s.keep)
    ensures var r := Scan(lines, i, s, cap);
      |s.keep| <= |r| && forall k :: |s.keep| <= k < |r| ==> FromLines(lines, i, r[k])
    decreases |lines| - i
  {
    ScanExtends(lines, i, s, cap);
    if i == |lines| {
      return;
    }
    var (s', stop) := Step(lines[i], s, cap);
    if |lines[i]| >= MinLineLength {
      RememberedKeepsState(s, Representative(lines[i]));
      assert forall k :: |s.keep| <= k < |s'.keep| ==> FromLines(lines, i, s'.keep[k]);
    }
    if !stop {
      ScanOrigin(lines, i + 1, s', cap);
      ScanExtends(lines, i + 1, s', cap);
      var r := Scan(lines, i + 1, s', cap);
      FromLinesWiden(lines, i, r, |s'.keep|);
      forall k | |s.keep| <= k < |s'.keep| ensures FromLines(lines, i, r[k]) {
        assert r[k] == r[..|s'.keep|][k] == s'.keep[k];
      }
    }
  }

  lemma FromLinesWiden(lines: seq<string>, i: nat, r: seq<Kept>, from: nat)
    requires i < |lines|
    requires forall k :: from <= k < |r| ==> FromLines(lines, i + 1, r[k])
    ensures forall k :: from <= k < |r| ==> FromLines(lines, i, r[k])
  {
    forall k | from <= k < |r| ensures FromLines(lines, i, r[k]) {
      assert FromLines(lines, i + 1, r[k]);
      var j :| i + 1 <= j < |lines| && |lines[j]| >= MinLineLength && r[k] == Representative(lines[j]);
    }
  }

  /** Everything condenseFast keeps comes from a normalized line of at least 25
      characters: a heading line (at most 90 characters, not ending in `.`, `!`
      or `?`) is kept whole, any other line contributes its first sentence. */
  lemma KeptLinesOrigin(raw: string, cap: nat)
    ensures forall k :: 0 <= k < |KeptLines(raw, cap)| ==> FromLines(Lines(raw), 0, KeptLines(raw, cap)[k])
  {
    ScanOrigin(Lines(raw), 0, State({}, []), cap);
  }

  /** No two kept headings have the same lowercase text, and no two kept first
      sentences have the same lowercase text. */
  lemma KeptLinesDistinct(raw: string, cap: nat)
    ensures var r := KeptLines(raw, cap);
      forall i, j :: 0 <= i < j < |r| && r[i].Heading? == r[j].Heading? ==> Lower(r[i].text) != Lower(r[j].text)
  {
    var r := KeptLines(raw, cap);
    ScanExtends(Lines(raw), 0, State({}, []), cap);
    forall i, j | 0 <= i < j < |r| && r[i].Heading? == r[j].Heading?
      ensures Lower(r[i].text) != Lower(r[j].text)
    {
      KeyKinds(r[i], r[j]);
    }
  }
  // ---------------------------------------------------------------------
  // What is reached, and when the loop breaks.

  /** Every line of at least 25 characters that the loop reaches has its
      key held at the end: the line was kept, or a line with the same key
      was kept before it. Keys held on entry stay held. */
  lemma {:induction false} ScanComplete(lines: seq<string>, i: nat, s: State, cap: nat)
    requires i <= |lines|
    requires ScanState(s.dedup, s.keep)
    ensures var r := Scan(lines, i, s, cap);
      && s.dedup <= KeySet(r)
      && forall j :: i <= j < ScanEnd(lines, i, s, cap) && |lines[j]| >= MinLineLength ==>
           Key(Representative(lines[j])) in KeySet(r)
  {
    ScanKeepsKeys(lines, i, s, cap);
    forall j | i <= j < ScanEnd(lines, i, s, cap) && |lines[j]| >= MinLineLength
      ensures Key(Representative(lines[j])) in KeySet(Scan(lines, i, s, cap))
    {
      ScanHolds(lines, i, s, cap, j);
    }
  }

  /** Keys held on entry to the loop are held at its end. */
  lemma {:induction false} ScanKeepsKeys(lines: seq<string>, i: nat, s: State, cap: nat)
    requires i <= |lines|
    requires ScanState(s.dedup, s.keep)
    ensures s.dedup <= KeySet(Scan(lines, i, s, cap))
    decreases |lines| - i
  {
    if i < |lines| {
      var (s', stop) := Step(lines[i], s, cap);
      StepKeys(lines[i], s, cap);
      if !stop {
        ScanKeepsKeys(lines, i + 1, s', cap);
      }
    }
  }

  /** A line of at least 25 characters that the loop reaches has its key
      held at the end. */
  lemma {:induction false} ScanHolds(lines: seq<string>, i: nat, s: State, cap: nat, j: nat)
    requires i <= |lines|
    requires i <= j < ScanEnd(lines, i, s, cap) && |lines[j]| >= MinLineLength
    requires ScanState(s.dedup, s.keep)
    ensures Key(Representative(lines[j])) in KeySet(Scan(lines, i, s, cap))
    decreases |lines| - i
  {
    var (s', stop) := Step(lines[i], s, cap);
    StepKeys(lines[i], s, cap);
    if j == i {
      if !stop {
        ScanKeepsKeys(lines, i + 1, s', cap);
      }
    } else {
      ScanHolds(lines, i + 1, s', cap, j);
    }
  }

  /** One pass of the loop body keeps the dedup state, keeps every key held
      and holds the key of a line of at least 25 characters. */
  lemma StepKeys(line: string, s: State, cap: nat)
    requires ScanState(s.dedup, s.keep)
    ensures var s' := Step(line, s, cap).0;
      && ScanState(s'.dedup, s'.keep)
      && s'.dedup == KeySet(s'.keep)
      && s.dedup <= s'.dedup
      && (|line| >= MinLineLength ==> Key(Representative(line)) in s'.dedup)
  {
    if |line| >= MinLineLength {
      RememberedKeepsState(s, Representative(line));
    }
  }

  /** The loop breaks only right after a line of at least 25 characters
      that is not a heading, once the kept lines joined by newlines are at
      least `cap` long. */
  lemma {:induction false} ScanBreak(lines: seq<string>, i: nat, s: State, cap: nat)
    requires i <= |lines|
    ensures var e := ScanEnd(lines, i, s, cap);
      e < |lines| ==>
        && i < e
        && |lines[e - 1]| >= MinLineLength && !IsHeadingLine(lines[e - 1])
        && |Join(Texts(Scan(lines, i, s, cap)), "\n")| >= cap
    decreases |lines| - i
  {
    if i < |lines| {
      var (s', stop) := Step(lines[i], s, cap);
      if !stop {
        ScanBreak(lines, i + 1, s', cap);
      }
    }
  }

  /** Heading lines never break the loop, so when every line is short or a
      heading the kept lines do not depend on the cap at all: their joined
      length can pass the cap, and only the final slice bounds the output. */
  lemma {:induction false} ScanHeadingsIgnoreCap(lines: seq<string>, i: nat, s: State, cap: nat, cap': nat)
    requires i <= |lines|
    requires forall j :: i <= j < |lines| ==> |lines[j]| < MinLineLength || IsHeadingLine(lines[j])
    ensures ScanEnd(lines, i, s, cap) == |lines|
    ensures Scan(lines, i, s, cap) == Scan(lines, i, s, cap')
    decreases |lines| - i
  {
    if i < |lines| {
      var (s', stop) := Step(lines[i], s, cap);
      ScanHeadingsIgnoreCap(lines, i + 1, s', cap, cap');
    }
  }

  /** How many of the lines of `raw` condenseFast(raw, cap) looks at. */
  function Reached(raw: string, cap: nat): nat {
    ScanEnd(Lines(raw), 0, State({}, []), cap)
  }

  /** condenseFast keeps a line of every key it meets: each line of at least
      25 characters up to the break is kept, unless a line with the same
      key (the same lowercase heading, or the same lowercase first
      sentence) was kept before it. */
  lemma KeptLinesComplete(raw: string, cap: nat)
    ensures var lines, r := Lines(raw), KeptLines(raw, cap);
      forall j :: 0 <= j < Reached(raw, cap) && |lines[j]| >= MinLineLength ==>
        exists k :: 0 <= k < |r| && Key(r[k]) == Key(Representative(lines[j]))
  {
    var lines, r := Lines(raw), KeptLines(raw, cap);
    ScanComplete(lines, 0, State({}, []), cap);
    forall j | 0 <= j < Reached(raw, cap) && |lines[j]| >= MinLineLength
      ensures exists k :: 0 <= k < |r| && Key(r[k]) == Key(Representative(lines[j]))
    {
      assert Key(Representative(lines[j])) in KeySet(r);
    }
  }

  /** condenseFast stops early only right after a non-heading line of at
      least 25 characters, with the kept lines joined already at least
      `cap` long. */
  lemma KeptLinesBreak(raw: string, cap: nat)
    ensures var lines, e := Lines(raw), Reached(raw, cap);
      e < |lines| ==>
        && 0 < e
        && |lines[e - 1]| >= MinLineLength && !IsHeadingLine(lines[e - 1])
        && |Join(Texts(KeptLines(raw, cap)), "\n")| >= cap
  {
    ScanBreak(Lines(raw), 0, State({}, []), cap);
  }
}
