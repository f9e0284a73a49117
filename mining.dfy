/** The candidate scanners of `extractKeyConceptsFromSummary` in
    sidepanel.js: bold and code spans, Title-Case phrases and frequent
    bigrams and trigrams, each with its fixed score, then scoring and
    ranking. */
module Mining {
  import opened Chars
  import opened Optional
  import opened OrderedMaps
  import opened Concepts
  import opened Seqs

  const BoldScore: int := 6
  const CodeScore: int := 5
  const TitlePhraseScore: int := 4
  const TitleWordScore: int := 3
  /** The default `max` of the extractor. */
  const DefaultMax: nat := 12

  // ---------------------------------------------------------------------
  // Delimited spans: `/\*\*([^*]+?)\*\*/g` (d = '*', k = 2) and
  // `/`([^`]+?)`/g` (d = '`', k = 1)

  /** `k` copies of `d` start at `p`. */
  predicate DelimAt(s: string, p: nat, d: char, k: nat) {
    p + k <= |s| && forall j :: p <= j < p + k ==> s[j] == d
  }

  /** The first index at or after `i` holding `d`. */
  function IndexOf(s: string, i: nat, d: char): (r: Option<nat>)
    ensures r.Some? ==> i <= r.value < |s| && s[r.value] == d
    decreases |s| - i
  {
    if i >= |s| then None else if s[i] == d then Some(i) else IndexOf(s, i + 1, d)
  }

  /** No `d` between `i` and the index found. */
  lemma {:induction false} IndexOfBefore(s: string, i: nat, d: char, j: nat)
    requires i <= j < (if IndexOf(s, i, d).Some? then IndexOf(s, i, d).value else |s|)
    ensures s[j] != d
    decreases |s| - i
  {
    if i < j {
      IndexOfBefore(s, i + 1, d, j);
    }
  }

  /** The span pattern tried at `p`: the index of the closing delimiter. The
      lazy body cannot hold `d`, so it ends at the next `d`, which must open
      the closing delimiter. */
  function SpanAt(s: string, p: nat, d: char, k: nat): (r: Option<nat>)
    ensures r.Some? ==> p + k < r.value && r.value + k <= |s|
  {
    if !DelimAt(s, p, d, k) then None
    else match IndexOf(s, p + k, d)
      case None => None
      case Some(q) => if q > p + k && DelimAt(s, q, d, k) then Some(q) else None
  }

  /** The least position in `i..n` satisfying `found`: where a regex
      search from `lastIndex == i` first succeeds. */
  function FindFirst(found: nat -> bool, i: nat, n: nat): (r: Option<nat>)
    ensures r.Some? ==> i <= r.value <= n && found(r.value)
    decreases n + 1 - i
  {
    if i > n then None
    else if found(i) then Some(i)
    else FindFirst(found, i + 1, n)
  }

  /** Nothing between `i` and the position found satisfies `found`. */
  lemma {:induction false} FindFirstLeftmost(found: nat -> bool, i: nat, n: nat, p: nat)
    requires i <= p <= n
    requires FindFirst(found, i, n).None? || p < FindFirst(found, i, n).value
    ensures !found(p)
    decreases n + 1 - i
  {
    if i < p {
      FindFirstLeftmost(found, i + 1, n, p);
    }
  }

  /** A span match: where it starts, where its closing delimiter starts, and
      the regex's `lastIndex` after it (just past the closing delimiter). */
  datatype Hit = Hit(start: nat, close: nat, next: nat)

  /** The leftmost span at or after `i`. */
  function FindSpan(s: string, i: nat, d: char, k: nat): (r: Option<Hit>)
    ensures r.Some? ==> i <= r.value.start && r.value.start + k < r.value.close && r.value.close + k <= |s|
    ensures r.Some? ==> SpanAt(s, r.value.start, d, k) == Some(r.value.close)
    ensures r.Some? ==> r.value.next == r.value.close + k
    decreases |s| + 1 - i
  {
    if i > |s| then None
    else if SpanAt(s, i, d, k).Some? then Some(Hit(i, SpanAt(s, i, d, k).value, SpanAt(s, i, d, k).value + k))
    else FindSpan(s, i + 1, d, k)
  }

  /** No span starts between `i` and the one found. */
  lemma {:induction false} FindSpanLeftmost(s: string, i: nat, d: char, k: nat, p: nat)
    requires i <= p
    requires FindSpan(s, i, d, k).None? || p < FindSpan(s, i, d, k).value.start
    ensures SpanAt(s, p, d, k).None?
    decreases |s| + 1 - i
  {
    if i > |s| {
      assert !DelimAt(s, p, d, k);
    } else if i < p {
      FindSpanLeftmost(s, i + 1, d, k, p);
    }
  }

  /** The captured bodies of the global `exec` loop from `lastIndex == i`. */
  function Spans(s: string, i: nat, d: char, k: nat): seq<string>
    decreases |s| + 1 - i
  {
    var m := FindSpan(s, i, d, k);
    if m.None? then [] else [s[m.value.start + k..m.value.close]] + Spans(s, m.value.next, d, k)
  }

  /** A non-empty piece free of `d`. */
  predicate Body(b: string, d: char) {
    b != [] && d !in b
  }

  predicate Bodies(bs: seq<string>, d: char) {
    forall n :: 0 <= n < |bs| ==> Body(bs[n], d)
  }

  lemma BodiesCons(b: string, rest: seq<string>, d: char)
    requires Body(b, d) && Bodies(rest, d)
    ensures Bodies([b] + rest, d)
  {
    forall n | 0 <= n < |rest| + 1 ensures ([b] + rest)[n] == if n == 0 then b else rest[n - 1] {
    }
  }

  /** Every captured body is non-empty and free of the delimiter. */
  lemma {:induction false} SpansBodies(s: string, i: nat, d: char, k: nat)
    ensures Bodies(Spans(s, i, d, k), d)
    decreases |s| + 1 - i
  {
    var m := FindSpan(s, i, d, k);
    if m.Some? {
      var p, q, n := m.value.start, m.value.close, m.value.next;
      SpansUnfold(s, i, d, k, p, q, n);
      SpanBody(s, p, q, d, k);
      SpansBodies(s, n, d, k);
      BodiesCons(s[p + k..q], Spans(s, n, d, k), d);
    }
  }

  lemma SpanBody(s: string, p: nat, q: nat, d: char, k: nat)
    requires SpanAt(s, p, d, k) == Some(q)
    ensures p + k < q <= |s|
    ensures Body(s[p + k..q], d)
  {
    var b := s[p + k..q];
    forall j | 0 <= j < |b| ensures b[j] != d {
      IndexOfBefore(s, p + k, d, p + k + j);
    }
  }

  function Repeat(d: char, k: nat): (r: string)
    ensures |r| == k && forall j :: 0 <= j < k ==> r[j] == d
  {
    seq(k, _ => d)
  }

  /** A non-empty body without the delimiter, wrapped in delimiters, is
      found again. */
  lemma SpansWrap(x: string, d: char, k: nat)
    requires k > 0 && x != [] && d !in x
    ensures Spans(Repeat(d, k) + x + Repeat(d, k), 0, d, k) == [x]
  {
    var s := Repeat(d, k) + x + Repeat(d, k);
    var q: nat := k + |x|;
    WrapChars(x, d, k, s);
    assert SpanAt(s, 0, d, k) == Some(q) by {
      IndexOfReaches(s, k, q, d);
    }
    assert FindSpan(s, 0, d, k) == Some(Hit(0, q, |s|));
    SpansUnfold(s, 0, d, k, 0, q, |s|);
    assert FindSpan(s, |s|, d, k) == None by {
      assert !DelimAt(s, |s|, d, k);
    }
  }

  /** Where the delimiters and the body of a wrapped body lie. */
  lemma WrapChars(x: string, d: char, k: nat, s: string)
    requires k > 0 && d !in x
    requires s == Repeat(d, k) + x + Repeat(d, k)
    ensures |s| == k + |x| + k && s[k..k + |x|] == x
    ensures DelimAt(s, 0, d, k) && DelimAt(s, k + |x|, d, k)
    ensures forall j :: k <= j < k + |x| ==> s[j] != d
  {
    var r := Repeat(d, k);
    assert forall j :: 0 <= j < k ==> s[j] == r[j];
    assert forall j :: 0 <= j < |x| ==> s[k + j] == x[j];
    assert forall j :: 0 <= j < k ==> s[k + |x| + j] == r[j];
  }

  lemma {:induction false} IndexOfReaches(s: string, i: nat, q: nat, d: char)
    requires i <= q < |s| && s[q] == d && forall j :: i <= j < q ==> s[j] != d
    ensures IndexOf(s, i, d) == Some(q)
    decreases q - i
  {
    if i < q {
      IndexOfReaches(s, i + 1, q, d);
    }
  }

  /** `const t = cleanTerm(m[1]); if (t) candidates.push([t, score]);` */
  function SpanCands(bodies: seq<string>, score: int): seq<Entry> {
    if bodies == [] then []
    else
      var t := CleanTerm(bodies[0]);
      (if t != [] then [(t, score)] else []) + SpanCands(bodies[1..], score)
  }

  /** Every span candidate is a non-empty cleaned body, at the scanner's
      fixed score. */
  lemma {:induction false} SpanCandsScores(bodies: seq<string>, score: int)
    ensures forall c :: c in SpanCands(bodies, score) ==>
      c.1 == score && c.0 != [] && exists b :: b in bodies && c.0 == CleanTerm(b)
  {
    if bodies != [] {
      SpanCandsScores(bodies[1..], score);
      forall c | c in SpanCands(bodies[1..], score) ensures exists b :: b in bodies && c.0 == CleanTerm(b) {
        var b :| b in bodies[1..] && c.0 == CleanTerm(b);
        assert b in bodies;
      }
    }
  }

  /** The bookkeeping of a loop that appends `piece` and moves on. */
  lemma Regroup<T>(prev: seq<T>, piece: seq<T>, rest: seq<T>, whole: seq<T>)
    requires whole == piece + rest
    ensures (prev + piece) + rest == prev + whole
  {
  }

  lemma SpansUnfold(s: string, i: nat, d: char, k: nat, p: nat, q: nat, n: nat)
    requires FindSpan(s, i, d, k) == Some(Hit(p, q, n))
    ensures Spans(s, i, d, k) == [s[p + k..q]] + Spans(s, n, d, k)
  {
  }

  lemma SpanCandsCons(b: string, rest: seq<string>, score: int, t: string)
    requires t == CleanTerm(b)
    ensures SpanCands([b] + rest, score) == (if t != [] then [(t, score)] else []) + SpanCands(rest, score)
  {
    assert ([b] + rest)[1..] == rest;
  }

  /** The loop's invariant: the candidates pushed so far, followed by those
      still to come from `lastIndex == i`, are all the candidates. */
  predicate SpansSoFar(s: string, d: char, k: nat, score: int, i: nat, cands: seq<Entry>) {
    cands + SpanCands(Spans(s, i, d, k), score) == SpanCands(Spans(s, 0, d, k), score)
  }

  lemma SpansStart(s: string, d: char, k: nat, score: int)
    ensures SpansSoFar(s, d, k, score, 0, [])
  {
    assert [] + SpanCands(Spans(s, 0, d, k), score) == SpanCands(Spans(s, 0, d, k), score);
  }

  /** The first span found from `i` contributes its cleaned body `t`. */
  lemma SpanPiece(s: string, i: nat, d: char, k: nat, score: int, p: nat, q: nat, n: nat, t: string, piece: seq<Entry>)
    requires FindSpan(s, i, d, k) == Some(Hit(p, q, n))
    requires t == CleanTerm(s[p + k..q])
    requires piece == (if t != [] then [(t, score)] else [])
    ensures SpanCands(Spans(s, i, d, k), score) == piece + SpanCands(Spans(s, n, d, k), score)
  {
    SpansUnfold(s, i, d, k, p, q, n);
    SpanCandsCons(s[p + k..q], Spans(s, n, d, k), score, t);
  }

  /** One turn of the `exec` loop. */
  lemma SpansStep(s: string, d: char, k: nat, score: int, i: nat, cands: seq<Entry>, n: nat, piece: seq<Entry>)
    requires SpansSoFar(s, d, k, score, i, cands)
    requires SpanCands(Spans(s, i, d, k), score) == piece + SpanCands(Spans(s, n, d, k), score)
    ensures SpansSoFar(s, d, k, score, n, cands + piece)
  {
    Regroup(cands, piece, SpanCands(Spans(s, n, d, k), score), SpanCands(Spans(s, i, d, k), score));
  }

  /** When no span is left, every candidate has been pushed. */
  lemma SpansEnd(s: string, d: char, k: nat, score: int, i: nat, cands: seq<Entry>)
    requires SpansSoFar(s, d, k, score, i, cands)
    requires FindSpan(s, i, d, k).None?
    ensures cands == SpanCands(Spans(s, 0, d, k), score)
  {
    assert Spans(s, i, d, k) == [];
    assert cands + [] == cands;
  }

  method CollectSpans(s: string, d: char, k: nat, score: int) returns (cands: seq<Entry>)
    ensures cands == SpanCands(Spans(s, 0, d, k), score)
  {
    cands := [];
    var i: nat := 0;
    SpansStart(s, d, k, score);
    while true
      invariant i <= |s| + 1
      invariant SpansSoFar(s, d, k, score, i, cands)
      decreases |s| + 1 - i
    {
      var m := FindSpan(s, i, d, k);
      if m.None? {
        SpansEnd(s, d, k, score, i, cands);
        break;
      }
      var p, q, n := m.value.start, m.value.close, m.value.next;
      var t := CleanTerm(s[p + k..q]);
      var piece := if t != [] then [(t, score)] else [];
      SpanPiece(s, i, d, k, score, p, q, n, t, piece);
      SpansStep(s, d, k, score, i, cands, n, piece);
      cands, i := cands + piece, n;
    }
  }

  // ---------------------------------------------------------------------
  // Title Case: `/(?:^|[^A-Za-z])([A-Z][a-z]+(?:\s+[A-Z][a-z]+){0,2})(?=$|[^A-Za-z])/g`

  /** The end of the maximal run of characters satisfying `p` from `i`. */
  function RunEnd(s: string, i: nat, p: char -> bool): (r: nat)
    requires i <= |s|
    ensures i <= r <= |s| && (r == |s| || !p(s[r]))
    ensures forall j :: i <= j < r ==> p(s[j])
    decreases |s| - i
  {
    if i < |s| && p(s[i]) then RunEnd(s, i + 1, p) else i
  }

  /** `[A-Z][a-z]+` at `i`; the lowercase run cannot give back characters,
      since what follows it must be whitespace or a non-letter. */
  function CapWordAt(s: string, i: nat): (r: Option<nat>)
    requires i <= |s|
    ensures r.Some? ==> i + 2 <= r.value <= |s|
  {
    if i < |s| && IsUpper(s[i]) then
      var e := RunEnd(s, i + 1, IsLower);
      if e > i + 1 then Some(e) else None
    else None
  }

  /** `\s+[A-Z][a-z]+` at `i`. */
  function NextWordAt(s: string, i: nat): (r: Option<nat>)
    requires i <= |s|
    ensures r.Some? ==> i < r.value <= |s|
  {
    var j := RunEnd(s, i, IsJsSpace);
    if j > i then CapWordAt(s, j) else None
  }

  /** The lookahead `(?=$|[^A-Za-z])` at `e`. */
  predicate EndOk(s: string, e: nat)
    requires e <= |s|
  {
    e == |s| || !IsLetter(s[e])
  }

  /** The group at `g`: as many further words as possible, up to two, then
      backing off one word at a time until the lookahead holds. */
  function TitleGroupAt(s: string, g: nat): (r: Option<nat>)
    requires g <= |s|
    ensures r.Some? ==> g < r.value <= |s| && EndOk(s, r.value)
  {
    match CapWordAt(s, g)
    case None => None
    case Some(e1) =>
      var e2 := NextWordAt(s, e1);
      var e3 := if e2.Some? then NextWordAt(s, e2.value) else None;
      if e3.Some? && EndOk(s, e3.value) then e3
      else if e2.Some? && EndOk(s, e2.value) then e2
      else if EndOk(s, e1) then Some(e1)
      else None
  }

  /** The bounds of a captured Title-Case group. */
  datatype Group = Group(start: nat, stop: nat)

  /** The whole pattern tried at `p`: `^` (only at 0) is tried before one
      non-letter; gives the group's bounds. */
  function TitleMatchAt(s: string, p: nat): (r: Option<Group>)
    requires p <= |s|
    ensures r.Some? ==> p <= r.value.start <= |s| && TitleGroupAt(s, r.value.start) == Some(r.value.stop)
    ensures r.Some? && r.value.start > 0 ==> r.value.start == p + 1 && !IsLetter(s[p])
  {
    if p == 0 && TitleGroupAt(s, 0).Some? then Some(Group(0, TitleGroupAt(s, 0).value))
    else if p < |s| && !IsLetter(s[p]) && TitleGroupAt(s, p + 1).Some? then Some(Group(p + 1, TitleGroupAt(s, p + 1).value))
    else None
  }

  /** The position of the leftmost match at or after `i`. */
  function FindTitle(s: string, i: nat): (r: Option<nat>)
    ensures r.Some? ==> i <= r.value <= |s| && TitleMatchAt(s, r.value).Some?
  {
    FindFirst((p: nat) => p <= |s| && TitleMatchAt(s, p).Some?, i, |s|)
  }

  /** No match starts between `i` and the one found. */
  lemma FindTitleLeftmost(s: string, i: nat, p: nat)
    requires i <= p <= |s|
    requires FindTitle(s, i).None? || p < FindTitle(s, i).value
    ensures TitleMatchAt(s, p).None?
  {
    var found := (p: nat) => p <= |s| && TitleMatchAt(s, p).Some?;
    FindFirstLeftmost(found, i, |s|, p);
    assert !found(p);
  }

  /** The groups of the global `exec` loop from `lastIndex == i`. */
  function TitleGroups(s: string, i: nat): seq<string>
    requires i <= |s|
    decreases |s| - i
  {
    var m := FindTitle(s, i);
    if m.None? then []
    else
      var ge := TitleMatchAt(s, m.value).value;
      [s[ge.start..ge.stop]] + TitleGroups(s, ge.stop)
  }

  lemma TitleGroupsUnfold(s: string, i: nat, p: nat, g: nat, e: nat)
    requires i <= |s| && FindTitle(s, i) == Some(p) && TitleMatchAt(s, p) == Some(Group(g, e))
    ensures i <= g < e <= |s|
    ensures TitleGroups(s, i) == [s[g..e]] + TitleGroups(s, e)
  {
  }

  /** A matched group starts a word (at the start or after a non-letter),
      begins with a capital, holds only letters and whitespace, ends in a
      lowercase letter, and is not followed by a letter. */
  lemma TitleGroupShape(s: string, g: nat, e: nat)
    requires g <= |s| && TitleGroupAt(s, g) == Some(e)
    ensures IsUpper(s[g]) && IsLower(s[e - 1]) && EndOk(s, e)
    ensures forall j :: g <= j < e ==> IsLetter(s[j]) || IsJsSpace(s[j])
  {
    var e1 := CapWordAt(s, g).value;
    var e2 := NextWordAt(s, e1);
    if e2.Some? {
      WordShape(s, e1, e2.value);
      var e3 := NextWordAt(s, e2.value);
      if e3.Some? {
        WordShape(s, e2.value, e3.value);
      }
    }
  }

  lemma WordShape(s: string, i: nat, e: nat)
    requires i <= |s| && NextWordAt(s, i) == Some(e)
    ensures IsLower(s[e - 1])
    ensures forall j :: i <= j < e ==> IsLetter(s[j]) || IsJsSpace(s[j])
  {
  }

  function SpaceCount(t: string): nat { multiset(t)[' '] }

  /** What the Title-Case branch pushes for one group: `t.split(" ").length`
      words, a banned single word dropped. */
  function TitleCand(group: string): seq<Entry> {
    var t := CleanTerm(group);
    var words := SpaceCount(t) + 1;
    if t != [] && !(words == 1 && IsBannedTitle(Lower(t)))
    then [(t, if words >= 2 then TitlePhraseScore else TitleWordScore)]
    else []
  }

  /** The Title-Case candidates for the groups in order. */
  function TitleCands(groups: seq<string>): seq<Entry> {
    if groups == [] then [] else TitleCand(groups[0]) + TitleCands(groups[1..])
  }

  lemma TitleCandsCons(g: string, rest: seq<string>)
    ensures TitleCands([g] + rest) == TitleCand(g) + TitleCands(rest)
  {
    assert ([g] + rest)[1..] == rest;
  }

  method CollectTitles(s: string) returns (cands: seq<Entry>)
    ensures cands == TitleCands(TitleGroups(s, 0))
  {
    cands := [];
    var i: nat := 0;
    while true
      invariant i <= |s|
      invariant cands + TitleCands(TitleGroups(s, i)) == TitleCands(TitleGroups(s, 0))
      decreases |s| - i
    {
      var m := FindTitle(s, i);
      if m.None? {
        assert TitleGroups(s, i) == [];
        assert cands + [] == cands;
        break;
      }
      var ge := TitleMatchAt(s, m.value).value;
      var g, e := ge.start, ge.stop;
      TitleGroupsUnfold(s, i, m.value, g, e);
      TitleCandsCons(s[g..e], TitleGroups(s, e));
      var t := CleanTerm(s[g..e]);
      var words := SpaceCount(t) + 1;
      var piece := if t != [] && !(words == 1 && IsBannedTitle(Lower(t)))
        then [(t, if words >= 2 then TitlePhraseScore else TitleWordScore)] else [];
      assert piece == TitleCand(s[g..e]);
      Regroup(cands, piece, TitleCands(TitleGroups(s, e)), TitleCands(TitleGroups(s, i)));
      cands := cands + piece;
      i := e;
    }
  }

  /** Title-Case candidates score 4 with a space and 3 without, and a banned
      word never appears alone. */
  lemma {:induction false} TitleCandsScores(groups: seq<string>)
    ensures forall c :: c in TitleCands(groups) ==>
      && c.0 != []
      && (c.1 == TitlePhraseScore <==> ' ' in c.0)
      && (c.1 == TitleWordScore <==> ' ' !in c.0)
      && (' ' !in c.0 ==> !IsBannedTitle(Lower(c.0)))
  {
    if groups != [] {
      TitleCandsScores(groups[1..]);
    }
  }

  // ---------------------------------------------------------------------
  // Bigrams and trigrams

  /** Neither a stop word nor shorter than 3. */
  predicate GramWord(w: string) { !IsStop(w) && |w| >= 3 }

  /** The bigrams at positions below `n`. */
  function Bigrams(toks: seq<string>, n: nat): seq<string>
    requires n < |toks| || n == 0
  {
    if n == 0 then []
    else
      var i := n - 1;
      Bigrams(toks, i)
        + (if GramWord(toks[i]) && GramWord(toks[i + 1]) then [toks[i] + " " + toks[i + 1]] else [])
  }

  /** The trigrams at positions below `n`. */
  function Trigrams(toks: seq<string>, n: nat): seq<string>
    requires n + 1 < |toks| || n == 0
  {
    if n == 0 then []
    else
      var i := n - 1;
      Trigrams(toks, i)
        + (if GramWord(toks[i]) && GramWord(toks[i + 1]) && GramWord(toks[i + 2])
           then [toks[i] + " " + toks[i + 1] + " " + toks[i + 2]] else [])
  }

  /** Every bigram pushed, in order. */
  function AllBigrams(toks: seq<string>): seq<string> {
    Bigrams(toks, if |toks| >= 1 then |toks| - 1 else 0)
  }

  /** Every gram pushed, bigrams first. */
  function AllGrams(toks: seq<string>): seq<string> {
    AllBigrams(toks) + Trigrams(toks, if |toks| >= 2 then |toks| - 2 else 0)
  }

  lemma BigramsStep(toks: seq<string>, i: nat)
    requires i + 1 < |toks|
    ensures Bigrams(toks, i + 1) == Bigrams(toks, i)
      + (if GramWord(toks[i]) && GramWord(toks[i + 1]) then [toks[i] + " " + toks[i + 1]] else [])
  {
  }

  lemma TrigramsStep(toks: seq<string>, i: nat)
    requires i + 2 < |toks|
    ensures Trigrams(toks, i + 1) == Trigrams(toks, i)
      + (if GramWord(toks[i]) && GramWord(toks[i + 1]) && GramWord(toks[i + 2])
         then [toks[i] + " " + toks[i + 1] + " " + toks[i + 2]] else [])
  {
  }

  /** `pushGram(g)`: the map that counted `xs` now counts `xs + [g]`. */
  method PushGram(grams: OrderedMap<string, int>, ghost xs: seq<string>, g: string) returns (r: OrderedMap<string, int>)
    requires grams == Counts(xs)
    ensures r == Counts(xs + [g])
  {
    CountsSnoc(xs, g);
    r := Put(grams, g, CountOf(grams, g) + 1);
    assert r == Put(Counts(xs), g, CountOf(Counts(xs), g) + 1);
  }

  /** The bigram loop, shared by extractKeyConceptsFromSummary and
      ensureMinConcepts: one count per adjacent pair of gram words. */
  method CountBigrams(toks: seq<string>) returns (grams: OrderedMap<string, int>)
    ensures grams == Counts(AllBigrams(toks))
  {
    grams := [];
    var nb := if |toks| >= 1 then |toks| - 1 else 0;
    for i := 0 to nb
      invariant grams == Counts(Bigrams(toks, i))
    {
      grams := CountBigramAt(toks, i, grams);
    }
  }

  /** One pass of the bigram loop: the pair at `i` is counted when both of
      its words are gram words. */
  method CountBigramAt(toks: seq<string>, i: nat, grams: OrderedMap<string, int>) returns (r: OrderedMap<string, int>)
    requires i + 1 < |toks| && grams == Counts(Bigrams(toks, i))
    ensures r == Counts(Bigrams(toks, i + 1))
  {
    BigramsStep(toks, i);
    var w1, w2 := toks[i], toks[i + 1];
    if GramWord(w1) && GramWord(w2) {
      r := PushGram(grams, Bigrams(toks, i), w1 + " " + w2);
    } else {
      r := grams;
      assert Bigrams(toks, i) + [] == Bigrams(toks, i);
    }
  }

  /** The `grams` map: `pushGram` for each bigram, then each trigram. */
  method CountGrams(toks: seq<string>) returns (grams: OrderedMap<string, int>)
    ensures grams == Counts(AllGrams(toks))
  {
    grams := CountBigrams(toks);
    grams := CountTrigrams(toks, grams, AllBigrams(toks));
  }

  /** The trigram loop, continuing the counts of the grams `bs`. */
  method CountTrigrams(toks: seq<string>, grams0: OrderedMap<string, int>, ghost bs: seq<string>)
    returns (grams: OrderedMap<string, int>)
    requires grams0 == Counts(bs)
    ensures grams == Counts(bs + Trigrams(toks, if |toks| >= 2 then |toks| - 2 else 0))
  {
    grams := grams0;
    assert bs + Trigrams(toks, 0) == bs;
    var nt := if |toks| >= 2 then |toks| - 2 else 0;
    for i := 0 to nt
      invariant grams == Counts(bs + Trigrams(toks, i))
    {
      TrigramsStep(toks, i);
      var w1, w2, w3 := toks[i], toks[i + 1], toks[i + 2];
      if GramWord(w1) && GramWord(w2) && GramWord(w3) {
        var g := w1 + " " + w2 + " " + w3;
        Regroup(bs, Trigrams(toks, i), [g], Trigrams(toks, i + 1));
        grams := PushGram(grams, bs + Trigrams(toks, i), g);
      } else {
        assert Trigrams(toks, i + 1) == Trigrams(toks, i);
      }
    }
  }

  /** `/^\w+ing\b/.test(g)`: the leading run of word characters is longer
      than three and ends in "ing" (the `\b` pins the match to the run's end). */
  predicate IngPenalty(g: string) {
    var w := TakeWhile(g, IsWordChar);
    |w| >= 4 && w[|w| - 3..] == "ing"
  }

  /** `base + Math.min(f, 3) - penalty` */
  function GramScore(g: string, f: int): int {
    (if SpaceCount(g) == 2 then 3 else 2) + Min(f, 3) - (if IngPenalty(g) then 1 else 0)
  }

  /** One candidate per gram, in the map's order. */
  function GramCands(grams: OrderedMap<string, int>): (r: seq<Entry>)
    ensures |r| == |grams|
    decreases |grams|
  {
    if grams == [] then []
    else
      var n := |grams| - 1;
      GramCands(grams[..n]) + [(grams[n].0, GramScore(grams[n].0, grams[n].1))]
  }

  /** Each gram of the map gives one candidate, at its gram score: 3 for a
      trigram and 2 for a bigram, plus its count capped at 3, minus 1 for a
      leading "-ing" word. */
  lemma {:induction false} GramCandsScores(grams: OrderedMap<string, int>)
    ensures forall i :: 0 <= i < |grams| ==>
      GramCands(grams)[i] == (grams[i].0, GramScore(grams[i].0, grams[i].1))
    decreases |grams|
  {
    if grams != [] {
      var n := |grams| - 1;
      GramCandsScores(grams[..n]);
      assert forall i :: 0 <= i < n ==> grams[..n][i] == grams[i];
    }
  }

  method CollectGrams(grams: OrderedMap<string, int>) returns (cands: seq<Entry>)
    ensures cands == GramCands(grams)
  {
    cands := [];
    for i := 0 to |grams|
      invariant cands == GramCands(grams[..i])
    {
      assert grams[..i + 1][..i] == grams[..i];
      var (g, f) := grams[i];
      cands := cands + [(g, GramScore(g, f))];
    }
    assert grams[..|grams|] == grams;
  }

  /** For a gram whose first word `w` is all word characters and is followed
      by a non-word character (a space, or the hyphen of "self-driving"),
      the penalty applies exactly when `w` is longer than three and ends in
      "ing". */
  lemma IngPenaltyFirstWord(w: string, rest: string)
    requires forall i :: 0 <= i < |w| ==> IsWordChar(w[i])
    requires rest == [] || !IsWordChar(rest[0])
    ensures IngPenalty(w + rest) <==> |w| >= 4 && w[|w| - 3..] == "ing"
  {
    TakeWhileAll(w, rest, IsWordChar);
  }

  // ---------------------------------------------------------------------
  // extractKeyConceptsFromSummary

  /** All candidates in push order: bold, code, Title Case, grams. */
  function Candidates(summary: string): seq<Entry> {
    SpanCands(Spans(summary, 0, '*', 2), BoldScore)
      + SpanCands(Spans(summary, 0, '`', 1), CodeScore)
      + TitleCands(TitleGroups(summary, 0))
      + GramCands(Counts(AllGrams(TokenizeLower(summary))))
  }

  /** `extractKeyConceptsFromSummary(summary, pageText, max)` */
  function KeyConcepts(summary: string, pageText: string, max: nat): seq<string> {
    TopByScore(Scored(Candidates(summary), Counts(TokenizeLower(pageText)), pageText), max)
  }

  method ExtractKeyConcepts(summary: string, pageText: string, max: nat) returns (concepts: seq<string>)
    ensures concepts == KeyConcepts(summary, pageText, max)
  {
    var pageFreq := CountWordFreq(TokenizeLower(pageText));
    var bold := CollectSpans(summary, '*', 2, BoldScore);
    var code := CollectSpans(summary, '`', 1, CodeScore);
    var titles := CollectTitles(summary);
    var grams := CountGrams(TokenizeLower(summary));
    var gramCands := CollectGrams(grams);
    var scored := ScoreCandidates(bold + code + titles + gramCands, pageFreq, pageText);
    concepts := TopByScore(scored, max);
  }

  /** The concepts are at most `max` distinct keys; each is the cleaned form
      of a candidate and passes every filter of `scoreCandidates`. (Which
      keys win is TopByScoreSpec.) */
  lemma KeyConceptsSpec(summary: string, pageText: string, max: nat)
    ensures var r := KeyConcepts(summary, pageText, max);
      var freq := Counts(TokenizeLower(pageText));
      && |r| <= max
      && (forall i, j :: 0 <= i < j < |r| ==> r[i] != r[j])
      && (forall k :: k in r ==> Admissible(k, freq, pageText))
      && (forall k :: k in r ==> exists c :: c in Candidates(summary) && CleanTerm(c.0) == k)
  {
    TopScoredSpec(Candidates(summary), Counts(TokenizeLower(pageText)), pageText, max);
  }

  /** KeyConceptsSpec for any candidate list. */
  lemma TopScoredSpec(cands: seq<Entry>, freq: OrderedMap<string, int>, pageText: string, max: nat)
    ensures var r := TopByScore(Scored(cands, freq, pageText), max);
      && |r| <= max
      && (forall i, j :: 0 <= i < j < |r| ==> r[i] != r[j])
      && (forall k :: k in r ==> Admissible(k, freq, pageText))
      && (forall k :: k in r ==> exists c :: c in cands && CleanTerm(c.0) == k)
  {
    var seen := Scored(cands, freq, pageText);
    var r := TopByScore(seen, max);
    var sorted := TopByScoreSpec(seen, max);
    var n := Min(max, |seen|);
    ScoredSpec(cands, freq, pageText, "");
    forall k | k in r
      ensures Admissible(k, freq, pageText)
      ensures exists c :: c in cands && CleanTerm(c.0) == k
    {
      var i :| 0 <= i < |r| && r[i] == k;
      KeysAt(sorted[..n], i);
      assert sorted[i] in multiset(seen);
      assert sorted[i] in seen;
      var j :| 0 <= j < |seen| && seen[j] == sorted[i];
      KeysAt(seen, j);
      assert k in Keys(seen);
      ScoredSpec(cands, freq, pageText, k);
      var m :| 0 <= m < |cands| && CleanTerm(cands[m].0) == k;
      assert cands[m] in cands;
    }
    forall i, j | 0 <= i < j < |r| ensures r[i] != r[j] {
      KeysAt(sorted[..n], i);
      KeysAt(sorted[..n], j);
      SortedDistinct(seen, sorted, i, j);
    }
  }

  /** A permutation of a map with distinct keys has distinct keys. */
  lemma SortedDistinct(seen: OrderedMap<string, int>, sorted: seq<Entry>, i: nat, j: nat)
    requires DistinctKeys(seen) && multiset(sorted) == multiset(seen)
    requires i < j < |sorted|
    ensures sorted[i].0 != sorted[j].0
  {
    assert multiset(sorted[i..i + 1]) + multiset(sorted[j..j + 1]) <= multiset(sorted) by {
      assert sorted == sorted[..i] + sorted[i..i + 1] + sorted[i + 1..j] + sorted[j..j + 1] + sorted[j + 1..];
    }
    assert sorted[i] in seen && sorted[j] in seen by {
      assert sorted[i] in multiset(sorted) && sorted[j] in multiset(sorted);
    }
    var a :| 0 <= a < |seen| && seen[a] == sorted[i];
    var b :| 0 <= b < |seen| && seen[b] == sorted[j];
    MultisetOfDistinct(seen, sorted[i]);
    assert sorted[i] != sorted[j];
    assert a != b;
  }

  /** In a map with distinct keys, an entry occurs once. */
  lemma {:induction false} MultisetOfDistinct(m: OrderedMap<string, int>, e: Entry)
    requires DistinctKeys(m)
    ensures multiset(m)[e] <= 1
  {
    if m != [] {
      assert DistinctKeys(m[1..]) by {
        forall i, j | 0 <= i < j < |m| - 1 ensures m[1..][i].0 != m[1..][j].0 {
          assert m[1..][i] == m[i + 1] && m[1..][j] == m[j + 1];
        }
      }
      MultisetOfDistinct(m[1..], e);
      assert m == [m[0]] + m[1..];
      if m[0] == e {
        assert forall k :: 0 <= k < |m| - 1 ==> m[1..][k] != e by {
          forall k | 0 <= k < |m| - 1 ensures m[1..][k] != e {
            assert m[1..][k] == m[k + 1] && m[k + 1].0 != m[0].0;
          }
        }
        assert e !in m[1..];
      }
    }
  }
}
