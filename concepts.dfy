/** The scoring half of the key-concept extractor of sidepanel.js: stop lists,
    tokenizeLower, countWordFreq, wordsAreMostlyStop, cleanTerm, appearsInPage,
    scoreCandidates and topByScore. */
module Concepts {
  import opened Chars
  import opened Optional
  import opened OrderedMaps
  import opened Seqs

  /** Function words never taken as concepts on their own. */
  const StopWords: seq<string> := [
    "a", "an", "the", "and", "or", "to", "of", "in", "on", "for", "by", "with", "as", "at", "from",
    "that", "this", "these", "those", "is", "are", "was", "were", "be", "being", "been", "it", "its",
    "into", "over", "under", "about", "than", "then", "so", "such", "via", "we", "our", "you",
    "your", "their", "them", "they", "he", "she", "his", "her", "i", "me", "my", "mine", "yours", "ours"
  ]

  /** Capitalised single words that are section names or filler, not concepts. */
  const TitleSingleBan: seq<string> := [
    "history", "overview", "introduction", "methods", "results", "discussion", "conclusion",
    "several", "these", "those", "this", "the", "domestic", "cats", "cat", "background"
  ]

  /** `w` is one of `ws[i..]`; a recursive search, so that the verifier
      looks into a long word list only as far as a proof needs. */
  predicate Listed(w: string, ws: seq<string>, i: nat)
    decreases |ws| - i
  {
    i < |ws| && (ws[i] == w || Listed(w, ws, i + 1))
  }

  lemma {:induction false} ListedIn(w: string, ws: seq<string>, i: nat)
    requires i <= |ws|
    ensures Listed(w, ws, i) <==> w in ws[i..]
    decreases |ws| - i
  {
    if i < |ws| {
      ListedIn(w, ws, i + 1);
      assert ws[i..] == [ws[i]] + ws[i + 1..];
    }
  }

  /** One of the stop words. */
  predicate IsStop(w: string) { Listed(w, StopWords, 0) }

  /** One of the banned single Title-Case words. */
  predicate IsBannedTitle(w: string) { Listed(w, TitleSingleBan, 0) }

  // ---------------------------------------------------------------------
  // tokenizeLower: `s.toLowerCase().match(/[a-z][a-z0-9\-]+/g) || []`

  predicate IsTokenTail(c: char) { IsLower(c) || IsDigit(c) || c == '-' }

  /** A string the token pattern matches as a whole. */
  predicate IsToken(t: string) {
    |t| >= 2 && IsLower(t[0]) && forall i :: 1 <= i < |t| ==> IsTokenTail(t[i])
  }

  /** The matches of the token pattern, leftmost first; each match is as
      long as possible and the next search starts where it ended. */
  function Tokens(s: string): (r: seq<string>)
    ensures forall i :: 0 <= i < |r| ==> IsToken(r[i])
    decreases |s|
  {
    if |s| < 2 then []
    else if IsLower(s[0]) && IsTokenTail(s[1]) then
      var t := [s[0]] + TakeWhile(s[1..], IsTokenTail);
      [t] + Tokens(s[|t|..])
    else Tokens(s[1..])
  }

  function TokenizeLower(s: string): seq<string> {
    Tokens(Lower(s))
  }

  lemma {:induction false} TakeWhileAll(x: string, y: string, p: char -> bool)
    requires forall i :: 0 <= i < |x| ==> p(x[i])
    requires y == [] || !p(y[0])
    ensures TakeWhile(x + y, p) == x
  {
    if x == [] {
      assert x + y == y;
    } else {
      assert (x + y)[1..] == x[1..] + y;
      TakeWhileAll(x[1..], y, p);
    }
  }

  /** A token followed by a character that cannot continue it is read as
      that token, and reading goes on after the character. */
  lemma TokensSeparated(t: string, c: char, rest: string)
    requires IsToken(t) && !IsTokenTail(c)
    ensures Tokens(t + [c] + rest) == [t] + Tokens(rest)
  {
    var s := t + [c] + rest;
    assert s[1..] == t[1..] + ([c] + rest);
    TakeWhileAll(t[1..], [c] + rest, IsTokenTail);
    assert [s[0]] + t[1..] == t;
    assert s[|t|..] == [c] + rest;
    if rest != [] {
      assert ([c] + rest)[1..] == rest;
    }
  }

  /** A lone token is read as itself. */
  lemma TokensOfToken(t: string)
    requires IsToken(t)
    ensures Tokens(t) == [t]
  {
    assert t[1..] + [] == t[1..];
    TakeWhileAll(t[1..], [], IsTokenTail);
    assert [t[0]] + t[1..] == t;
    assert t[|t|..] == [];
  }

  /** Tokens joined by spaces read back as the same tokens. */
  lemma {:induction false} TokensJoin(ts: seq<string>)
    requires forall i :: 0 <= i < |ts| ==> IsToken(ts[i])
    ensures Tokens(Join(ts, " ")) == ts
  {
    if ts == [] {
    } else if |ts| == 1 {
      TokensOfToken(ts[0]);
    } else {
      TokensJoin(ts[1..]);
      TokensSeparated(ts[0], ' ', Join(ts[1..], " "));
    }
  }

  // ---------------------------------------------------------------------
  // countWordFreq

  /** `m.get(t) || 0` */
  function CountOf(m: OrderedMap<string, int>, t: string): int {
    match Get(m, t)
    case None => 0
    case Some(n) => n
  }

  /** The counting map after the given tokens, one `set` per token. */
  function Counts(ts: seq<string>): OrderedMap<string, int>
    decreases |ts|
  {
    if ts == [] then []
    else
      var m := Counts(ts[..|ts| - 1]);
      var t := ts[|ts| - 1];
      Put(m, t, CountOf(m, t) + 1)
  }

  method CountWordFreq(tokens: seq<string>) returns (m: OrderedMap<string, int>)
    ensures m == Counts(tokens)
  {
    m := [];
    for i := 0 to |tokens|
      invariant m == Counts(tokens[..i])
    {
      assert tokens[..i + 1][..i] == tokens[..i];
      m := Put(m, tokens[i], CountOf(m, tokens[i]) + 1);
    }
    assert tokens[..|tokens|] == tokens;
  }

  /** The count map holds each token once. */
  lemma {:induction false} CountsDistinct(ts: seq<string>)
    ensures DistinctKeys(Counts(ts))
    decreases |ts|
  {
    if ts != [] {
      var m := Counts(ts[..|ts| - 1]);
      var t := ts[|ts| - 1];
      CountsDistinct(ts[..|ts| - 1]);
      PutDistinct(m, t, CountOf(m, t) + 1);
    }
  }

  /** Each token is mapped to its number of occurrences; nothing else is
      mapped. */
  lemma {:induction false} CountsGet(ts: seq<string>, u: string)
    ensures Get(Counts(ts), u) == if u in ts then Some(multiset(ts)[u]) else None
    decreases |ts|
  {
    if ts != [] {
      var init := ts[..|ts| - 1];
      assert ts == init + [ts[|ts| - 1]];
      CountsGet(init, u);
      CountsGetStep(init, ts[|ts| - 1], u);
    }
  }

  /** Counting one more token is one more `set`. */
  lemma CountsSnoc(xs: seq<string>, g: string)
    ensures Counts(xs + [g]) == Put(Counts(xs), g, CountOf(Counts(xs), g) + 1)
  {
    assert (xs + [g])[..|xs|] == xs;
  }

  /** One `set` keeps CountsGet true. */
  lemma CountsGetStep(init: seq<string>, t: string, u: string)
    requires Get(Counts(init), u) == if u in init then Some(multiset(init)[u]) else None
    ensures Get(Counts(init + [t]), u) == if u in init + [t] then Some(multiset(init + [t])[u]) else None
  {
    CountsSnoc(init, t);
    PutCountGet(Counts(init), init, t, u);
  }

  lemma PutCountGet(m: OrderedMap<string, int>, init: seq<string>, t: string, u: string)
    requires Get(m, u) == if u in init then Some(multiset(init)[u]) else None
    ensures Get(Put(m, t, CountOf(m, t) + 1), u) == if u in init + [t] then Some(multiset(init + [t])[u]) else None
  {
    var ts := init + [t];
    assert multiset(ts) == multiset(init) + multiset{t};
    PutGet(m, t, CountOf(m, t) + 1);
    if u == t {
      assert u !in init ==> multiset(init)[u] == 0;
      assert CountOf(m, t) == multiset(init)[u];
    } else {
      assert multiset(ts)[u] == multiset(init)[u];
      assert (u in ts) == (u in init);
    }
  }

  /** Keys appear in the order of their first occurrence: the keys after a
      prefix of the tokens are a prefix of the keys after all of them. */
  lemma {:induction false} CountsOrder(ts: seq<string>, n: nat)
    requires n <= |ts|
    ensures Keys(Counts(ts[..n])) <= Keys(Counts(ts))
    decreases |ts|
  {
    if n < |ts| {
      var init := ts[..|ts| - 1];
      assert ts[..n] == init[..n];
      CountsOrder(init, n);
      var m := Counts(init);
      assert Keys(m) <= Keys(Counts(ts)) by {
        PutKeys(m, ts[|ts| - 1], CountOf(m, ts[|ts| - 1]) + 1);
      }
      PrefixTrans(Keys(Counts(ts[..n])), Keys(m), Keys(Counts(ts)));
    } else {
      assert ts[..n] == ts;
    }
  }

  // ---------------------------------------------------------------------
  // wordsAreMostlyStop

  function StopCount(ws: seq<string>): (r: nat)
    ensures r <= |ws|
  {
    if ws == [] then 0 else (if IsStop(ws[0]) then 1 else 0) + StopCount(ws[1..])
  }

  /** At least half of the whitespace-separated words of the lower-cased
      term are stop words; `stop / n >= 0.5` in integers. */
  predicate MostlyStop(term: string) {
    var ws := SplitRuns(Lower(term), IsJsSpace);
    2 * StopCount(ws) >= |ws|
  }

  lemma {:induction false} SplitRunsNone(s: string, p: char -> bool)
    requires forall i :: 0 <= i < |s| ==> !p(s[i])
    ensures SplitRuns(s, p) == [s]
  {
    if s != [] {
      SplitRunsNone(s[1..], p);
      assert [s[0]] + s[1..] == s;
    }
  }

  /** A term without whitespace is mostly stop words exactly when it is a
      stop word. */
  lemma MostlyStopWord(term: string)
    requires forall i :: 0 <= i < |term| ==> !IsJsSpace(term[i])
    ensures MostlyStop(term) <==> IsStop(Lower(term))
  {
    SplitRunsNone(Lower(term), IsJsSpace);
  }

  // ---------------------------------------------------------------------
  // cleanTerm: `t.replace(/[^\w\- ]+/g, " ").replace(/\s+/g, " ").trim()`

  /** The class `[\w\- ]`. */
  predicate IsTermChar(c: char) { IsWordChar(c) || c == '-' || c == ' ' }
  predicate IsNotTermChar(c: char) { !IsTermChar(c) }

  function CleanTerm(term: string): string {
    Trim(CollapseRuns(CollapseRuns(term, IsNotTermChar, ' '), IsJsSpace, ' '))
  }

  /** Word characters, hyphens and single inner spaces only. */
  predicate IsClean(t: string) {
    && (forall i :: 0 <= i < |t| ==> IsTermChar(t[i]))
    && NoAdjacent(t, IsJsSpace)
    && Trimmed(t)
  }

  lemma CleanTermIsClean(term: string)
    ensures IsClean(CleanTerm(term))
  {
    var x1 := CollapseRuns(term, IsNotTermChar, ' ');
    CollapseRunsShape(term, IsNotTermChar, ' ');
    var x2 := CollapseRuns(x1, IsJsSpace, ' ');
    CollapseRunsShape(x1, IsJsSpace, ' ');
    assert forall i :: 0 <= i < |x2| ==> IsTermChar(x2[i]);
    TrimClean(x2);
  }

  lemma TrimClean(t: string)
    requires forall i :: 0 <= i < |t| ==> IsTermChar(t[i])
    requires NoAdjacent(t, IsJsSpace)
    ensures IsClean(Trim(t))
  {
    TrimSpec(t);
    CleanSlice(t, Trim(t), TrimOffset(t));
  }

  lemma CleanSlice(t: string, r: string, a: nat)
    requires a + |r| <= |t| && r == t[a..a + |r|]
    requires forall i :: 0 <= i < |t| ==> IsTermChar(t[i])
    requires NoAdjacent(t, IsJsSpace) && Trimmed(r)
    ensures IsClean(r)
  {
    assert forall i :: 0 <= i < |r| ==> r[i] == t[a + i];
  }

  /** A clean term is its own clean form. */
  lemma CleanTermFixpoint(t: string)
    requires IsClean(t)
    ensures CleanTerm(t) == t
  {
    assert CollapseRuns(t, IsNotTermChar, ' ') == t by {
      assert forall i :: 0 <= i < |t| ==> !IsNotTermChar(t[i]);
      CollapseRunsFixpoint(t, IsNotTermChar, ' ');
    }
    assert CollapseRuns(t, IsJsSpace, ' ') == t by {
      assert forall i :: 0 <= i < |t| ==> (IsJsSpace(t[i]) ==> t[i] == ' ') by {
        forall i | 0 <= i < |t| ensures IsJsSpace(t[i]) ==> t[i] == ' ' {
          assert IsTermChar(t[i]);
        }
      }
      CollapseRunsFixpoint(t, IsJsSpace, ' ');
    }
    TrimFixed(t);
  }

  lemma CleanTermIdempotent(term: string)
    ensures CleanTerm(CleanTerm(term)) == CleanTerm(term)
  {
    CleanTermIsClean(term);
    CleanTermFixpoint(CleanTerm(term));
  }

  // ---------------------------------------------------------------------
  // appearsInPage

  predicate IsWordAt(s: string, i: int) { 0 <= i < |s| && IsWordChar(s[i]) }

  /** The regex assertion `\b` at position `i`. */
  predicate WordBoundary(s: string, i: int) { IsWordAt(s, i - 1) != IsWordAt(s, i) }

  /** `new RegExp("\\b" + term + "\\b", "i").test(raw)` for a term with no
      regex metacharacters: the term occurs, ignoring ASCII case, between two
      word boundaries. */
  predicate OccursAsWord(raw: string, term: string) {
    exists i :: 0 <= i <= |raw| - |term| && WordBoundary(raw, i)
      && EqualsIgnoreCase(raw[i..i + |term|], term) && WordBoundary(raw, i + |term|)
  }

  /** A phrase must occur in the page as whole words; a single word must be
      counted at least twice among the page's tokens. */
  predicate AppearsInPage(term: string, pageFreq: OrderedMap<string, int>, pageRaw: string) {
    if ' ' in term then OccursAsWord(pageRaw, term) else CountOf(pageFreq, Lower(term)) >= 2
  }

  // ---------------------------------------------------------------------
  // scoreCandidates

  type Entry = (string, int)

  /** `/^[a-z]+$/` */
  predicate IsLowerWord(t: string) { |t| > 0 && forall i :: 0 <= i < |t| ==> IsLower(t[i]) }

  /** The filters `add` applies to a cleaned key, in order. */
  predicate Admissible(key: string, pageFreq: OrderedMap<string, int>, pageRaw: string) {
    && key != []
    && |key| >= 4
    && !(IsLowerWord(key) && IsStop(key))
    && !MostlyStop(key)
    && AppearsInPage(key, pageFreq, pageRaw)
  }

  /** The candidates with their terms cleaned. */
  function CleanAll(cands: seq<Entry>): (r: seq<Entry>)
    ensures |r| == |cands|
    decreases |cands|
  {
    if cands == [] then []
    else CleanAll(cands[..|cands| - 1]) + [(CleanTerm(cands[|cands| - 1].0), cands[|cands| - 1].1)]
  }

  lemma {:induction false} CleanAllAt(cands: seq<Entry>, i: nat)
    requires i < |cands|
    ensures CleanAll(cands)[i] == (CleanTerm(cands[i].0), cands[i].1)
    decreases |cands|
  {
    if i < |cands| - 1 {
      CleanAllAt(cands[..|cands| - 1], i);
    }
  }

  /** The map after `seen.set(key, Math.max(seen.get(key) || 0, score))` for
      each entry whose key `ok` accepts, in order. */
  function Best(entries: seq<Entry>, ok: string -> bool): OrderedMap<string, int>
    decreases |entries|
  {
    if entries == [] then []
    else
      var m := Best(entries[..|entries| - 1], ok);
      var e := entries[|entries| - 1];
      if ok(e.0) then Put(m, e.0, Max(CountOf(m, e.0), e.1)) else m
  }

  /** `scoreCandidates(cands, pageFreq)` */
  function Scored(cands: seq<Entry>, pageFreq: OrderedMap<string, int>, pageRaw: string)
    : OrderedMap<string, int>
  {
    Best(CleanAll(cands), key => Admissible(key, pageFreq, pageRaw))
  }

  method ScoreCandidates(cands: seq<Entry>, pageFreq: OrderedMap<string, int>, pageRaw: string)
    returns (seen: OrderedMap<string, int>)
    ensures seen == Scored(cands, pageFreq, pageRaw)
  {
    var ok := key => Admissible(key, pageFreq, pageRaw);
    seen := [];
    for i := 0 to |cands|
      invariant seen == Best(CleanAll(cands[..i]), ok)
    {
      var key := CleanTerm(cands[i].0);
      ghost var before := CleanAll(cands[..i]);
      assert CleanAll(cands[..i + 1]) == before + [(key, cands[i].1)] by {
        assert cands[..i + 1][..i] == cands[..i];
      }
      BestSnoc(before, (key, cands[i].1), ok);
      if Admissible(key, pageFreq, pageRaw) {
        seen := Put(seen, key, Max(CountOf(seen, key), cands[i].1));
      }
    }
    assert cands[..|cands|] == cands;
  }

  lemma BestSnoc(entries: seq<Entry>, e: Entry, ok: string -> bool)
    ensures Best(entries + [e], ok)
      == if ok(e.0) then Put(Best(entries, ok), e.0, Max(CountOf(Best(entries, ok), e.0), e.1))
         else Best(entries, ok)
  {
    assert (entries + [e])[..|entries|] == entries;
  }

  lemma {:induction false} BestDistinct(entries: seq<Entry>, ok: string -> bool)
    ensures DistinctKeys(Best(entries, ok))
    decreases |entries|
  {
    if entries != [] {
      var m := Best(entries[..|entries| - 1], ok);
      var e := entries[|entries| - 1];
      BestDistinct(entries[..|entries| - 1], ok);
      if ok(e.0) {
        PutDistinct(m, e.0, Max(CountOf(m, e.0), e.1));
      }
    }
  }

  /** Some entry offers a score for `k`. */
  ghost predicate Offered(entries: seq<Entry>, k: string) {
    exists i :: 0 <= i < |entries| && entries[i].0 == k
  }

  lemma OfferedStep(entries: seq<Entry>, k: string)
    requires entries != []
    ensures Offered(entries, k)
      <==> (Offered(entries[..|entries| - 1], k) || entries[|entries| - 1].0 == k)
  {
    var n := |entries| - 1;
    if Offered(entries[..n], k) {
      var i :| 0 <= i < n && entries[..n][i].0 == k;
      assert entries[i] == entries[..n][i];
    }
    if Offered(entries, k) {
      var i :| 0 <= i < |entries| && entries[i].0 == k;
      if i < n { assert entries[..n][i] == entries[i]; }
    }
  }

  /** A key is kept exactly when it is offered and accepted. */
  lemma {:induction false} BestKeys(entries: seq<Entry>, ok: string -> bool, k: string)
    ensures k in Keys(Best(entries, ok)) <==> ok(k) && Offered(entries, k)
    decreases |entries|
  {
    if entries != [] {
      var m := Best(entries[..|entries| - 1], ok);
      var e := entries[|entries| - 1];
      BestKeys(entries[..|entries| - 1], ok, k);
      if ok(e.0) {
        PutKeys(m, e.0, Max(CountOf(m, e.0), e.1));
      }
      OfferedStep(entries, k);
    }
  }

  /** The largest score offered for `k`, floored at 0: every offer is at most
      `v`, and `v` is 0 or attained. */
  ghost predicate IsBestOffer(entries: seq<Entry>, k: string, v: int) {
    && v >= 0
    && (forall i :: 0 <= i < |entries| && entries[i].0 == k ==> entries[i].1 <= v)
    && (v == 0 || exists i :: 0 <= i < |entries| && entries[i].0 == k && entries[i].1 == v)
  }

  lemma BestOfferStep(entries: seq<Entry>, k: string, prev: int, v: int)
    requires entries != []
    requires IsBestOffer(entries[..|entries| - 1], k, prev)
    requires var e := entries[|entries| - 1];
      if e.0 == k then v == Max(prev, e.1) else v == prev
    ensures IsBestOffer(entries, k, v)
  {
    var n := |entries| - 1;
    assert forall i :: 0 <= i < n ==> entries[..n][i] == entries[i];
    if v != 0 && v == prev {
      var i :| 0 <= i < n && entries[..n][i].0 == k && entries[..n][i].1 == v;
      assert entries[i].1 == v;
    }
  }

  /** Each kept key holds the best score offered for it. */
  lemma {:induction false} BestValue(entries: seq<Entry>, ok: string -> bool, k: string)
    requires k in Keys(Best(entries, ok))
    ensures IsBestOffer(entries, k, CountOf(Best(entries, ok), k))
    decreases |entries|
  {
    var n := |entries| - 1;
    var m := Best(entries[..n], ok);
    var e := entries[n];
    BestKeys(entries, ok, k);
    if k in Keys(m) {
      BestValue(entries[..n], ok, k);
    } else {
      BestKeys(entries[..n], ok, k);
      assert CountOf(m, k) == 0;
    }
    if ok(e.0) {
      PutGet(m, e.0, Max(CountOf(m, e.0), e.1));
    }
    BestOfferStep(entries, k, CountOf(m, k), CountOf(Best(entries, ok), k));
  }

  /** What `scoreCandidates` keeps: distinct keys, exactly the cleaned
      candidates that pass the filters, each with the largest score offered
      for it (at least 0). */
  lemma ScoredSpec(cands: seq<Entry>, pageFreq: OrderedMap<string, int>, pageRaw: string, k: string)
    ensures DistinctKeys(Scored(cands, pageFreq, pageRaw))
    ensures k in Keys(Scored(cands, pageFreq, pageRaw))
      <==> Admissible(k, pageFreq, pageRaw) && exists i :: 0 <= i < |cands| && CleanTerm(cands[i].0) == k
    ensures k in Keys(Scored(cands, pageFreq, pageRaw))
      ==> IsBestOffer(CleanAll(cands), k, CountOf(Scored(cands, pageFreq, pageRaw), k))
  {
    var ok := key => Admissible(key, pageFreq, pageRaw);
    var entries := CleanAll(cands);
    BestDistinct(entries, ok);
    BestKeys(entries, ok, k);
    if k in Keys(Best(entries, ok)) {
      BestValue(entries, ok, k);
    }
    if Offered(entries, k) {
      var i :| 0 <= i < |entries| && entries[i].0 == k;
      CleanAllAt(cands, i);
    }
    if exists i :: 0 <= i < |cands| && CleanTerm(cands[i].0) == k {
      var i :| 0 <= i < |cands| && CleanTerm(cands[i].0) == k;
      CleanAllAt(cands, i);
    }
  }

  // ---------------------------------------------------------------------
  // topByScore: a stable sort by score, then key length, both descending

  /** `a` sorts strictly before `b`. */
  predicate Outranks(a: Entry, b: Entry) {
    a.1 > b.1 || (a.1 == b.1 && |a.0| > |b.0|)
  }

  predicate SameRank(a: Entry, b: Entry) { a.1 == b.1 && |a.0| == |b.0| }

  /** No entry outranks an earlier one. */
  predicate Ranked(xs: seq<Entry>) {
    forall i, j :: 0 <= i < j < |xs| ==> !Outranks(xs[j], xs[i])
  }

  /** The entries tied with `e`, in order. */
  function TiedWith(xs: seq<Entry>, e: Entry): seq<Entry> {
    if xs == [] then []
    else (if SameRank(xs[0], e) then [xs[0]] else []) + TiedWith(xs[1..], e)
  }

  /** Inserts `x` after the entries that outrank it and before the rest. */
  function Insert(x: Entry, ys: seq<Entry>): seq<Entry> {
    if ys == [] || !Outranks(ys[0], x) then [x] + ys
    else [ys[0]] + Insert(x, ys[1..])
  }

  /** `Array.prototype.sort` with the comparator
      `b[1] - a[1] || b[0].length - a[0].length`, which is stable. */
  function SortByRank(xs: seq<Entry>): seq<Entry> {
    if xs == [] then [] else Insert(xs[0], SortByRank(xs[1..]))
  }

  lemma {:induction false} InsertMultiset(x: Entry, ys: seq<Entry>)
    ensures multiset(Insert(x, ys)) == multiset{x} + multiset(ys)
  {
    if ys != [] && Outranks(ys[0], x) {
      InsertMultiset(x, ys[1..]);
      assert ys == [ys[0]] + ys[1..];
    }
  }

  lemma {:induction false} InsertTied(x: Entry, ys: seq<Entry>, e: Entry)
    ensures TiedWith(Insert(x, ys), e) == (if SameRank(x, e) then [x] else []) + TiedWith(ys, e)
  {
    if ys == [] || !Outranks(ys[0], x) {
      assert ([x] + ys)[1..] == ys;
    } else {
      InsertTied(x, ys[1..], e);
      var t := Insert(x, ys[1..]);
      assert ([ys[0]] + t)[1..] == t;
    }
  }

  lemma RankedTail(ys: seq<Entry>)
    requires Ranked(ys) && ys != []
    ensures Ranked(ys[1..])
  {
    forall i, j | 0 <= i < j < |ys| - 1 ensures !Outranks(ys[1..][j], ys[1..][i]) {
      assert ys[1..][j] == ys[j + 1] && ys[1..][i] == ys[i + 1];
    }
  }

  /** `r` is `x` followed by a ranked list `ys` that `x` is not outranked by. */
  lemma RankedCons(x: Entry, ys: seq<Entry>)
    requires Ranked(ys) && forall e :: e in ys ==> !Outranks(e, x)
    ensures Ranked([x] + ys)
  {
    var r := [x] + ys;
    forall i, j | 0 <= i < j < |r| ensures !Outranks(r[j], r[i]) {
      assert r[j] == ys[j - 1];
      if i > 0 { assert r[i] == ys[i - 1]; }
    }
  }

  lemma {:induction false} InsertRanked(x: Entry, ys: seq<Entry>)
    requires Ranked(ys)
    ensures Ranked(Insert(x, ys))
  {
    if ys == [] {
    } else if !Outranks(ys[0], x) {
      forall e | e in ys ensures !Outranks(e, x) {
        var k :| 0 <= k < |ys| && ys[k] == e;
        if k > 0 { assert !Outranks(ys[k], ys[0]); }
      }
      RankedCons(x, ys);
    } else {
      RankedTail(ys);
      InsertRanked(x, ys[1..]);
      InsertMultiset(x, ys[1..]);
      var t := Insert(x, ys[1..]);
      forall e | e in t ensures !Outranks(e, ys[0]) {
        assert e in multiset(t);
        if e != x {
          assert e in ys[1..];
          var k :| 0 <= k < |ys| - 1 && ys[1..][k] == e;
          assert ys[k + 1] == e;
        }
      }
      RankedCons(ys[0], t);
    }
  }

  /** The sort is a permutation, ranked, and keeps tied entries in their
      original order. */
  lemma {:induction false} SortByRankSpec(xs: seq<Entry>)
    ensures Ranked(SortByRank(xs))
    ensures multiset(SortByRank(xs)) == multiset(xs)
    ensures forall e :: TiedWith(SortByRank(xs), e) == TiedWith(xs, e)
  {
    if xs != [] {
      SortByRankSpec(xs[1..]);
      var t := SortByRank(xs[1..]);
      InsertRanked(xs[0], t);
      InsertMultiset(xs[0], t);
      forall e ensures TiedWith(SortByRank(xs), e) == TiedWith(xs, e) {
        InsertTied(xs[0], t, e);
      }
      assert xs == [xs[0]] + xs[1..];
    }
  }

  /** `topByScore(seen, max)`: the keys of the first `max` ranked entries. */
  function TopByScore(seen: OrderedMap<string, int>, max: nat): (r: seq<string>)
    ensures |r| == Min(max, |seen|)
  {
    var sorted := SortByRank(seen);
    SortByRankSpec(seen);
    assert |sorted| == |multiset(sorted)| == |seen|;
    Keys(sorted[..Min(max, |seen|)])
  }

  /** The selected keys are those of a stable ranking of the entries, cut
      after `max`; no entry left out outranks one selected. */
  lemma TopByScoreSpec(seen: OrderedMap<string, int>, max: nat) returns (sorted: seq<Entry>)
    ensures Ranked(sorted) && multiset(sorted) == multiset(seen) && |sorted| == |seen|
    ensures forall e :: TiedWith(sorted, e) == TiedWith(seen, e)
    ensures TopByScore(seen, max) == Keys(sorted[..Min(max, |seen|)])
    ensures forall i, j :: 0 <= i < Min(max, |seen|) <= j < |sorted| ==> !Outranks(sorted[j], sorted[i])
  {
    sorted := SortByRank(seen);
    SortByRankSpec(seen);
    assert |sorted| == |multiset(sorted)| == |seen|;
  }
}
