/** ensureMinConcepts of sidepanel.js: when the extracted concepts hold fewer
    than `min` distinct lowercase forms, frequent page bigrams and then
    frequent page words are appended until the count reaches `min`. */
module Backfill {
  import opened Chars
  import opened OrderedMaps
  import opened Concepts
  import opened Mining
  import opened Seqs

  /** MIN_HL, the default minimum. */
  const MinHighlights: nat := 6
  /** Shortest page word taken as a fallback single. */
  const SingleMinLength: nat := 5
  /** Fewest occurrences of a fallback word or bigram. */
  const MinFrequency: int := 2

  /** `new Set(concepts.map(c => c.toLowerCase()))` */
  function LowerSet(cs: seq<string>): set<string> {
    set c | c in cs :: Lower(c)
  }

  /** The elements of a sequence. */
  function Elems(xs: seq<string>): set<string> {
    set x | x in xs
  }

  /** `!STOP.has(w) && w.length >= 5 && c >= 2` */
  predicate SingleOk(e: Entry) {
    !IsStop(e.0) && |e.0| >= SingleMinLength && e.1 >= MinFrequency
  }

  /** `c >= 2` */
  predicate GramOk(e: Entry) {
    e.1 >= MinFrequency
  }

  /** `Array.prototype.filter` over map entries. */
  function Keep(xs: seq<Entry>, ok: Entry -> bool): (r: seq<Entry>)
    ensures forall e :: e in r ==> e in xs && ok(e)
  {
    if xs == [] then []
    else (if ok(xs[0]) then [xs[0]] else []) + Keep(xs[1..], ok)
  }

  lemma {:induction false} KeepAll(xs: seq<Entry>, ok: Entry -> bool, e: Entry)
    requires e in xs && ok(e)
    ensures e in Keep(xs, ok)
  {
    if xs[0] != e {
      KeepAll(xs[1..], ok, e);
    }
  }

  /** `[...m.entries()].filter(ok).sort(byCountThenLength).map(([k]) => k)` */
  function RankedKeys(m: OrderedMap<string, int>, ok: Entry -> bool): seq<string> {
    Keys(SortByRank(Keep(m, ok)))
  }

  /** The fallback single words, best first. */
  function Singles(toks: seq<string>): seq<string> {
    RankedKeys(Counts(toks), SingleOk)
  }

  /** The fallback bigrams, best first. */
  function FrequentBigrams(toks: seq<string>): seq<string> {
    RankedKeys(Counts(AllBigrams(toks)), GramOk)
  }

  /** `[...bigrams, ...singles]` */
  function Pool(pageText: string): seq<string> {
    var toks := TokenizeLower(pageText);
    FrequentBigrams(toks) + Singles(toks)
  }

  /** What the `for` loop pushes, starting from the set `have`: each
      candidate not yet present is added, until `have` holds `min` terms. */
  function Backfill(have: set<string>, pool: seq<string>, min: nat): seq<string>
    decreases |pool|
  {
    if pool == [] || |have| >= min then []
    else if pool[0] in have then Backfill(have, pool[1..], min)
    else [pool[0]] + Backfill(have + {pool[0]}, pool[1..], min)
  }

  /** `ensureMinConcepts(concepts, pageText, min)` */
  function EnsureMin(concepts: seq<string>, pageText: string, min: nat): seq<string> {
    var have := LowerSet(concepts);
    if |have| >= min then concepts else concepts + Backfill(have, Pool(pageText), min)
  }

  // ---------------------------------------------------------------------
  // The loop

  /** The loop's invariant: what has been pushed so far, followed by what is
      still to come from candidate `i` on, is what the whole loop pushes. */
  predicate BackfillSoFar(concepts: seq<string>, have0: set<string>, pool: seq<string>, min: nat,
                          i: nat, have: set<string>, r: seq<string>)
    requires i <= |pool|
  {
    r + Backfill(have, pool[i..], min) == concepts + Backfill(have0, pool, min)
  }

  lemma BackfillStart(concepts: seq<string>, have0: set<string>, pool: seq<string>, min: nat)
    ensures BackfillSoFar(concepts, have0, pool, min, 0, have0, concepts)
  {
    assert pool[0..] == pool;
  }

  /** One turn of the loop, for a candidate `g` at `i` while fewer than `min`
      terms are held. */
  lemma BackfillStep(concepts: seq<string>, have0: set<string>, pool: seq<string>, min: nat,
                     i: nat, have: set<string>, r: seq<string>, next: nat, have': set<string>, r': seq<string>)
    requires i < |pool| && next == i + 1 && |have| < min
    requires BackfillSoFar(concepts, have0, pool, min, i, have, r)
    requires pool[i] in have ==> have' == have && r' == r
    requires pool[i] !in have ==> have' == have + {pool[i]} && r' == r + [pool[i]]
    ensures BackfillSoFar(concepts, have0, pool, min, next, have', r')
  {
    var rest := pool[i..];
    assert rest[0] == pool[i] && rest[1..] == pool[next..];
    if pool[i] !in have {
      assert r' + Backfill(have', pool[next..], min) == r + Backfill(have, rest, min);
    }
  }

  /** Once `min` terms are held, nothing more is pushed. */
  lemma BackfillFull(concepts: seq<string>, have0: set<string>, pool: seq<string>, min: nat,
                     i: nat, have: set<string>, r: seq<string>)
    requires i <= |pool| && (|have| >= min || i == |pool|)
    requires BackfillSoFar(concepts, have0, pool, min, i, have, r)
    ensures r == concepts + Backfill(have0, pool, min)
  {
    assert Backfill(have, pool[i..], min) == [];
  }

  /** sidepanel.js `ensureMinConcepts`, written as the loops the source runs.
      The source pushes into the caller's array; the caller only uses the
      returned array, which is the one returned here. */
  method EnsureMinConcepts(concepts: seq<string>, pageText: string, min: nat) returns (r: seq<string>)
    ensures r == EnsureMin(concepts, pageText, min)
  {
    var have := LowerSet(concepts);
    if |have| >= min {
      return concepts;
    }
    var toks := TokenizeLower(pageText);
    var freq := CountWordFreq(toks);
    var singles := RankedKeys(freq, SingleOk);
    var grams := CountBigrams(toks);
    var bigrams := RankedKeys(grams, GramOk);
    var pool := bigrams + singles;
    ghost var have0 := have;
    r := concepts;
    var i: nat := 0;
    BackfillStart(concepts, have0, pool, min);
    while i < |pool|
      invariant i <= |pool|
      invariant BackfillSoFar(concepts, have0, pool, min, i, have, r)
      decreases |pool| - i
    {
      if |have| >= min {
        break;
      }
      var g := pool[i];
      var have', r' := have, r;
      if g !in have {
        have', r' := have + {g}, r + [g];
      }
      var next := i + 1;
      BackfillStep(concepts, have0, pool, min, i, have, r, next, have', r');
      have, r, i := have', r', next;
    }
    BackfillFull(concepts, have0, pool, min, i, have, r);
  }

  /** The side panel's concepts after a summary: at most `DefaultMax`
      extracted from it, then topped up from the page to `MinHighlights`. */
  method SummaryConcepts(summary: string, pageText: string) returns (concepts: seq<string>)
    ensures concepts == EnsureMin(KeyConcepts(summary, pageText, DefaultMax), pageText, MinHighlights)
  {
    concepts := ExtractKeyConcepts(summary, pageText, DefaultMax);
    concepts := EnsureMinConcepts(concepts, pageText, MinHighlights);
  }

  // ---------------------------------------------------------------------
  // Properties of the backfill

  /** Each pushed term is a candidate, was not held before, and is pushed
      once. */
  lemma {:induction false} BackfillFresh(have: set<string>, pool: seq<string>, min: nat)
    ensures forall g :: g in Backfill(have, pool, min) ==> g in pool && g !in have
    ensures forall i, j :: 0 <= i < j < |Backfill(have, pool, min)| ==>
      Backfill(have, pool, min)[i] != Backfill(have, pool, min)[j]
    decreases |pool|
  {
    if pool != [] && |have| < min {
      BackfillFresh(have + {pool[0]}, pool[1..], min);
      BackfillFresh(have, pool[1..], min);
      var b := Backfill(have + {pool[0]}, pool[1..], min);
      if pool[0] !in have {
        var r := [pool[0]] + b;
        forall i, j | 0 <= i < j < |r| ensures r[i] != r[j] {
          assert r[j] == b[j - 1];
          assert r[j] in b;
          if i > 0 {
            assert r[i] == b[i - 1];
          }
        }
      }
    }
  }

  lemma ElemsCons(x: string, xs: seq<string>)
    ensures Elems([x] + xs) == {x} + Elems(xs)
  {
  }

  lemma ElemsSplit(xs: seq<string>)
    requires xs != []
    ensures Elems(xs) == {xs[0]} + Elems(xs[1..])
  {
    assert xs == [xs[0]] + xs[1..];
    ElemsCons(xs[0], xs[1..]);
  }

  /** One candidate examined while fewer than `min` terms are held. */
  lemma BackfillUnfold(have: set<string>, pool: seq<string>, min: nat)
    requires pool != [] && |have| < min
    ensures pool[0] in have ==> Backfill(have, pool, min) == Backfill(have, pool[1..], min)
    ensures pool[0] !in have ==> Backfill(have, pool, min) == [pool[0]] + Backfill(have + {pool[0]}, pool[1..], min)
  {
  }

  /** The loop stops at `min`: starting below `min`, the held set never grows
      past it, and when it stays below `min` every candidate is held. */
  lemma {:induction false} BackfillCount(have: set<string>, pool: seq<string>, min: nat)
    ensures |have| < min ==> |have + Elems(Backfill(have, pool, min))| <= min
    ensures |have + Elems(Backfill(have, pool, min))| < min ==> Elems(pool) <= have + Elems(Backfill(have, pool, min))
    decreases |pool|
  {
    if pool == [] || |have| >= min {
      assert Backfill(have, pool, min) == [];
      assert Elems([]) == {};
    } else {
      BackfillUnfold(have, pool, min);
      ElemsSplit(pool);
      if pool[0] in have {
        BackfillCount(have, pool[1..], min);
      } else {
        BackfillCountStep(have, pool, min);
      }
    }
  }

  lemma BackfillCountStep(have: set<string>, pool: seq<string>, min: nat)
    requires pool != [] && |have| < min && pool[0] !in have
    requires Elems(pool) == {pool[0]} + Elems(pool[1..])
    requires Backfill(have, pool, min) == [pool[0]] + Backfill(have + {pool[0]}, pool[1..], min)
    ensures |have + Elems(Backfill(have, pool, min))| <= min
    ensures |have + Elems(Backfill(have, pool, min))| < min ==> Elems(pool) <= have + Elems(Backfill(have, pool, min))
    decreases |pool|, 0
  {
    var have' := have + {pool[0]};
    var b' := Backfill(have', pool[1..], min);
    assert |have'| == |have| + 1;
    BackfillCount(have', pool[1..], min);
    ElemsCons(pool[0], b');
    assert have + Elems([pool[0]] + b') == have' + Elems(b');
    if |have'| >= min {
      assert b' == [];
      assert Elems(b') == {};
    }
  }

  /** Walking `bs + ss` is walking the bigrams `bs` first and then the
      singles `ss` with what the bigrams added. */
  lemma {:induction false} BackfillAppend(have: set<string>, bs: seq<string>, ss: seq<string>, min: nat)
    ensures Backfill(have, bs + ss, min)
         == Backfill(have, bs, min) + Backfill(have + Elems(Backfill(have, bs, min)), ss, min)
    decreases |bs|
  {
    if bs == [] {
      assert bs + ss == ss;
      assert Elems([]) == {};
      assert have + Elems(Backfill(have, bs, min)) == have;
    } else if |have| >= min {
      assert Backfill(have, bs, min) == [] && Elems([]) == {};
      assert have + Elems(Backfill(have, bs, min)) == have;
    } else {
      assert (bs + ss)[0] == bs[0] && (bs + ss)[1..] == bs[1..] + ss;
      BackfillUnfold(have, bs, min);
      BackfillUnfold(have, bs + ss, min);
      if bs[0] in have {
        BackfillAppend(have, bs[1..], ss, min);
      } else {
        var have' := have + {bs[0]};
        var t := Backfill(have', bs[1..], min);
        var u := Backfill(have' + Elems(t), ss, min);
        assert have' + Elems(t) == have + Elems(Backfill(have, bs, min)) by {
          ElemsCons(bs[0], t);
        }
        calc {
          Backfill(have, bs + ss, min);
          [bs[0]] + Backfill(have', bs[1..] + ss, min);
          { BackfillAppend(have', bs[1..], ss, min); }
          [bs[0]] + (t + u);
          { Assoc([bs[0]], t, u); }
          ([bs[0]] + t) + u;
        }
      }
    }
  }

  // ---------------------------------------------------------------------
  // The candidate pool

  /** No ASCII capital letter. */
  predicate NoUpper(s: string) {
    forall i :: 0 <= i < |s| ==> !IsUpper(s[i])
  }

  lemma LowerNoUpper(s: string)
    requires NoUpper(s)
    ensures Lower(s) == s
  {
  }

  /** A ranked key comes from an entry of the map that passes the filter. */
  lemma RankedKeysFrom(m: OrderedMap<string, int>, ok: Entry -> bool, g: string)
    requires g in RankedKeys(m, ok)
    ensures exists e :: e in m && ok(e) && e.0 == g
  {
    var kept := Keep(m, ok);
    var sorted := SortByRank(kept);
    SortByRankSpec(kept);
    var i :| 0 <= i < |Keys(sorted)| && Keys(sorted)[i] == g;
    KeysAt(sorted, i);
    assert sorted[i] in multiset(kept);
  }

  /** An entry of a count map counts a token of the sequence counted. */
  lemma CountEntry(ts: seq<string>, e: Entry)
    requires e in Counts(ts)
    ensures e.0 in ts && e.1 == multiset(ts)[e.0]
  {
    CountsDistinct(ts);
    EntryGet(Counts(ts), e);
    CountsGet(ts, e.0);
  }

  lemma {:induction false} BigramsShape(toks: seq<string>, n: nat, g: string)
    requires n < |toks| || n == 0
    requires forall i :: 0 <= i < |toks| ==> IsToken(toks[i])
    requires g in Bigrams(toks, n)
    ensures NoUpper(g)
  {
    var i := n - 1;
    if g in Bigrams(toks, i) {
      BigramsShape(toks, i, g);
    } else {
      assert g == toks[i] + " " + toks[i + 1];
      assert IsToken(toks[i]) && IsToken(toks[i + 1]);
    }
  }

  /** What `[...bigrams, ...singles]` offers: lowercase terms; a bigram
      counted at least twice among the page's bigrams, or a word of at least
      five characters, not a stop word, counted at least twice among the
      page's tokens. */
  lemma PoolSpec(pageText: string, g: string)
    requires g in Pool(pageText)
    ensures NoUpper(g)
    ensures var toks := TokenizeLower(pageText);
      || (g in FrequentBigrams(toks) && multiset(AllBigrams(toks))[g] >= MinFrequency)
      || (g in Singles(toks) && !IsStop(g) && |g| >= SingleMinLength && multiset(toks)[g] >= MinFrequency)
  {
    var toks := TokenizeLower(pageText);
    if g in FrequentBigrams(toks) {
      FrequentBigramSpec(toks, g);
    } else {
      SingleSpec(toks, g);
    }
  }

  lemma FrequentBigramSpec(toks: seq<string>, g: string)
    requires forall i :: 0 <= i < |toks| ==> IsToken(toks[i])
    requires g in FrequentBigrams(toks)
    ensures NoUpper(g) && multiset(AllBigrams(toks))[g] >= MinFrequency
  {
    RankedKeysFrom(Counts(AllBigrams(toks)), GramOk, g);
    var e :| e in Counts(AllBigrams(toks)) && GramOk(e) && e.0 == g;
    CountEntry(AllBigrams(toks), e);
    BigramsShape(toks, if |toks| >= 1 then |toks| - 1 else 0, g);
  }

  lemma SingleSpec(toks: seq<string>, g: string)
    requires forall i :: 0 <= i < |toks| ==> IsToken(toks[i])
    requires g in Singles(toks)
    ensures NoUpper(g) && !IsStop(g) && |g| >= SingleMinLength && multiset(toks)[g] >= MinFrequency
  {
    RankedKeysFrom(Counts(toks), SingleOk, g);
    var e :| e in Counts(toks) && SingleOk(e) && e.0 == g;
    CountEntry(toks, e);
    assert NoUpper(g) by {
      var i :| 0 <= i < |toks| && toks[i] == g;
      TokenNoUpper(toks[i]);
    }
  }

  lemma TokenNoUpper(t: string)
    requires IsToken(t)
    ensures NoUpper(t)
  {
  }

  /** The ranked keys are those of a stable ranking of exactly the entries
      that pass the filter. */
  lemma RankedKeysSpec(m: OrderedMap<string, int>, ok: Entry -> bool) returns (sorted: seq<Entry>)
    ensures RankedKeys(m, ok) == Keys(sorted)
    ensures Ranked(sorted) && multiset(sorted) == multiset(Keep(m, ok))
    ensures forall e :: TiedWith(sorted, e) == TiedWith(Keep(m, ok), e)
    ensures forall e :: e in sorted <==> e in m && ok(e)
  {
    sorted := SortByRank(Keep(m, ok));
    SortByRankSpec(Keep(m, ok));
    forall e | e in m && ok(e) ensures e in sorted {
      KeepAll(m, ok, e);
      assert e in multiset(Keep(m, ok));
    }
    forall e | e in sorted ensures e in m && ok(e) {
      assert e in multiset(sorted);
    }
  }

  /** No term of `r` comes after one it outranks by its count in `n`, then
      by its length. */
  predicate ByCount(r: seq<string>, n: multiset<string>) {
    forall i, j :: 0 <= i < j < |r| ==> !Outranks((r[j], n[r[j]]), (r[i], n[r[i]]))
  }

  /** Over the count map of `ts`: a token is ranked exactly when it passes
      the filter with its number of occurrences, and the ranked tokens come
      by that number, then by length, both descending. */
  lemma RankedCountsSpec(ts: seq<string>, ok: Entry -> bool)
    ensures forall g :: g in ts && ok((g, multiset(ts)[g])) ==> g in RankedKeys(Counts(ts), ok)
    ensures forall g :: g in RankedKeys(Counts(ts), ok) ==> g in ts && ok((g, multiset(ts)[g]))
    ensures ByCount(RankedKeys(Counts(ts), ok), multiset(ts))
  {
    var r := RankedKeys(Counts(ts), ok);
    forall g | g in ts && ok((g, multiset(ts)[g])) ensures g in r {
      RankedCountsHas(ts, ok, g);
    }
    RankedCountsOrder(ts, ok);
  }

  /** A token that passes the filter with its count is ranked. */
  lemma RankedCountsHas(ts: seq<string>, ok: Entry -> bool, g: string)
    requires g in ts && ok((g, multiset(ts)[g]))
    ensures g in RankedKeys(Counts(ts), ok)
  {
    var sorted := RankedKeysSpec(Counts(ts), ok);
    CountsGet(ts, g);
    var e := (g, multiset(ts)[g]);
    assert e in sorted;
    var k :| 0 <= k < |sorted| && sorted[k] == e;
    KeysAt(sorted, k);
  }

  /** Ranked tokens pass the filter with their counts and come by count,
      then length. */
  lemma RankedCountsOrder(ts: seq<string>, ok: Entry -> bool)
    ensures forall g :: g in RankedKeys(Counts(ts), ok) ==> g in ts && ok((g, multiset(ts)[g]))
    ensures ByCount(RankedKeys(Counts(ts), ok), multiset(ts))
  {
    var sorted := RankedKeysSpec(Counts(ts), ok);
    var r := RankedKeys(Counts(ts), ok);
    forall k | 0 <= k < |r|
      ensures sorted[k] == (r[k], multiset(ts)[r[k]]) && r[k] in ts && ok(sorted[k])
    {
      KeysAt(sorted, k);
      CountEntry(ts, sorted[k]);
      assert sorted[k] in sorted;
    }
    forall g | g in r ensures g in ts && ok((g, multiset(ts)[g])) {
      var k :| 0 <= k < |r| && r[k] == g;
      assert sorted[k] in sorted;
    }
    forall i, j | 0 <= i < j < |r|
      ensures !Outranks((r[j], multiset(ts)[r[j]]), (r[i], multiset(ts)[r[i]]))
    {
      assert !Outranks(sorted[j], sorted[i]);
    }
  }

  /** Every bigram counted at least twice among the page's bigrams is
      offered, by count, then length, both descending. */
  lemma FrequentBigramsComplete(toks: seq<string>)
    ensures forall g :: multiset(AllBigrams(toks))[g] >= MinFrequency ==> g in FrequentBigrams(toks)
    ensures ByCount(FrequentBigrams(toks), multiset(AllBigrams(toks)))
  {
    var grams := AllBigrams(toks);
    RankedCountsOrder(grams, GramOk);
    forall g | multiset(grams)[g] >= MinFrequency ensures g in FrequentBigrams(toks) {
      RankedCountsHas(grams, GramOk, g);
    }
  }

  /** Every word of at least five characters, not a stop word, counted at
      least twice among the page's tokens is offered, by count, then length,
      both descending. */
  lemma SinglesComplete(toks: seq<string>)
    ensures forall g :: !IsStop(g) && |g| >= SingleMinLength && multiset(toks)[g] >= MinFrequency ==> g in Singles(toks)
    ensures ByCount(Singles(toks), multiset(toks))
  {
    RankedCountsOrder(toks, SingleOk);
    forall g | !IsStop(g) && |g| >= SingleMinLength && multiset(toks)[g] >= MinFrequency ensures g in Singles(toks) {
      RankedCountsHas(toks, SingleOk, g);
    }
  }

  /** The converse of PoolSpec, and the pool's order: the frequent bigrams,
      then the frequent long words, each part complete and ranked. */
  lemma PoolComplete(pageText: string)
    ensures var toks := TokenizeLower(pageText);
      var bs := FrequentBigrams(toks);
      var ss := Singles(toks);
      var nb := multiset(AllBigrams(toks));
      var nw := multiset(toks);
      && Pool(pageText) == bs + ss
      && (forall g :: nb[g] >= MinFrequency ==> g in bs)
      && (forall g :: !IsStop(g) && |g| >= SingleMinLength && nw[g] >= MinFrequency ==> g in ss)
      && ByCount(bs, nb) && ByCount(ss, nw)
  {
    var toks := TokenizeLower(pageText);
    FrequentBigramsComplete(toks);
    SinglesComplete(toks);
  }

  lemma PoolLower(pageText: string)
    ensures forall g :: g in Pool(pageText) ==> Lower(g) == g
  {
    forall g | g in Pool(pageText) ensures Lower(g) == g {
      PoolSpec(pageText, g);
      LowerNoUpper(g);
    }
  }

  // ---------------------------------------------------------------------
  // ensureMinConcepts

  /** `ensureMinConcepts` returns its input when `min` distinct lowercase
      forms are already present. Otherwise it only appends: page bigrams
      first, then page words, each from the pool, none equal ignoring case to
      an input concept or to another appended term; it appends only while
      fewer than `min` distinct lowercase forms are held, so it never goes
      past `min`, and it stops short of `min` only when every pool term is
      held. */
  lemma EnsureMinSpec(concepts: seq<string>, pageText: string, min: nat)
    ensures |LowerSet(concepts)| >= min ==> EnsureMin(concepts, pageText, min) == concepts
    ensures var r := EnsureMin(concepts, pageText, min);
      var extra := r[|concepts|..];
      var toks := TokenizeLower(pageText);
      && |concepts| <= |r| && r[..|concepts|] == concepts
      && (|LowerSet(concepts)| < min ==>
            extra == Backfill(LowerSet(concepts), FrequentBigrams(toks), min)
                   + Backfill(LowerSet(concepts) + Elems(Backfill(LowerSet(concepts), FrequentBigrams(toks), min)),
                              Singles(toks), min))
      && (forall g :: g in extra ==> g in Pool(pageText) && Lower(g) !in LowerSet(concepts))
      && (forall i, j :: 0 <= i < j < |extra| ==> Lower(extra[i]) != Lower(extra[j]))
      && (|LowerSet(concepts)| < min ==> |LowerSet(r)| <= min)
      && (|LowerSet(r)| < min ==> forall g :: g in Pool(pageText) ==> Lower(g) in LowerSet(r))
  {
    var have := LowerSet(concepts);
    var pool := Pool(pageText);
    var r := EnsureMin(concepts, pageText, min);
    if |have| >= min {
      assert r[..|concepts|] == concepts && r[|concepts|..] == [];
      return;
    }
    var toks := TokenizeLower(pageText);
    var extra := Backfill(have, pool, min);
    assert r == concepts + extra;
    assert r[..|concepts|] == concepts && r[|concepts|..] == extra;
    BackfillAppend(have, FrequentBigrams(toks), Singles(toks), min);
    BackfillFresh(have, pool, min);
    BackfillCount(have, pool, min);
    PoolLower(pageText);
    LowerSetAppend(concepts, extra);
    forall i, j | 0 <= i < j < |extra| ensures Lower(extra[i]) != Lower(extra[j]) {
      assert extra[i] in pool && extra[j] in pool;
    }
  }

  /** When `ensureMinConcepts` ends short of `min`, the page offered no more:
      every bigram counted at least twice, and every word of at least five
      characters, not a stop word, counted at least twice, is among the
      lowercase forms it returns. */
  lemma EnsureMinExhausts(concepts: seq<string>, pageText: string, min: nat)
    requires |LowerSet(EnsureMin(concepts, pageText, min))| < min
    ensures var toks := TokenizeLower(pageText);
      var have := LowerSet(EnsureMin(concepts, pageText, min));
      && (forall g :: multiset(AllBigrams(toks))[g] >= MinFrequency ==> g in have)
      && (forall g :: !IsStop(g) && |g| >= SingleMinLength && multiset(toks)[g] >= MinFrequency ==> g in have)
  {
    var toks := TokenizeLower(pageText);
    var have := LowerSet(EnsureMin(concepts, pageText, min));
    EnsureMinShort(concepts, pageText, min);
    PoolComplete(pageText);
    forall g | multiset(AllBigrams(toks))[g] >= MinFrequency ensures g in have {
      assert g in Pool(pageText);
    }
    forall g | !IsStop(g) && |g| >= SingleMinLength && multiset(toks)[g] >= MinFrequency ensures g in have {
      assert g in Pool(pageText);
    }
  }

  /** What the side panel highlights begins with the at most twelve
      extracted concepts; when those have fewer than six lowercase forms,
      page terms are added up to six and no further. */
  lemma SummaryConceptsSpec(summary: string, pageText: string)
    ensures var e := KeyConcepts(summary, pageText, DefaultMax);
      var r := EnsureMin(e, pageText, MinHighlights);
      && |e| <= DefaultMax && |e| <= |r| && r[..|e|] == e
      && (|LowerSet(e)| >= MinHighlights ==> r == e)
      && (|LowerSet(e)| < MinHighlights ==> |LowerSet(r)| <= MinHighlights)
  {
    var e := KeyConcepts(summary, pageText, DefaultMax);
    KeyConceptsSpec(summary, pageText, DefaultMax);
    EnsureMinSpec(e, pageText, MinHighlights);
  }

  /** Short of `min`, every pool term is among the lowercase forms. */
  lemma EnsureMinShort(concepts: seq<string>, pageText: string, min: nat)
    requires |LowerSet(EnsureMin(concepts, pageText, min))| < min
    ensures forall g :: g in Pool(pageText) ==> g in LowerSet(EnsureMin(concepts, pageText, min))
  {
    EnsureMinSpec(concepts, pageText, min);
    PoolLower(pageText);
  }

  /** Appending lowercase terms adds exactly those terms to the lowercase set. */
  lemma LowerSetAppend(concepts: seq<string>, extra: seq<string>)
    requires forall g :: g in extra ==> Lower(g) == g
    ensures LowerSet(concepts + extra) == LowerSet(concepts) + Elems(extra)
  {
    var r := concepts + extra;
    forall x | x in LowerSet(r) ensures x in LowerSet(concepts) + Elems(extra) {
      var c :| c in r && x == Lower(c);
      if c !in concepts { assert c in extra; }
    }
    forall x | x in Elems(extra) ensures x in LowerSet(r) {
      assert x in r && Lower(x) == x;
    }
    forall x | x in LowerSet(concepts) ensures x in LowerSet(r) {
      var c :| c in concepts && x == Lower(c);
      assert c in r;
    }
  }
}
