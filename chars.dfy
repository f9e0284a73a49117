/** Character classes and small string operations shared by the whole model.
    Strings are sequences of Unicode scalar values; case folding is ASCII-only. */
module Chars {

  /** JavaScript's `\s` and the characters `String.prototype.trim` removes:
      the ECMAScript WhiteSpace and LineTerminator code points. */
  predicate IsJsSpace(c: char) {
    c == ' ' || c == '\t' || c == '\n' || c == '\U{000B}' || c == '\U{000C}' || c == '\r'
    || c == '\U{00A0}' || c == '\U{1680}' || ('\U{2000}' <= c <= '\U{200A}')
    || c == '\U{2028}' || c == '\U{2029}' || c == '\U{202F}' || c == '\U{205F}'
    || c == '\U{3000}' || c == '\U{FEFF}'
  }

  /** The regex class `[ \t]`. */
  predicate IsBlank(c: char) { c == ' ' || c == '\t' }

  predicate IsUpper(c: char) { 'A' <= c <= 'Z' }
  predicate IsLower(c: char) { 'a' <= c <= 'z' }
  predicate IsLetter(c: char) { IsUpper(c) || IsLower(c) }
  predicate IsDigit(c: char) { '0' <= c <= '9' }

  /** The regex class `\w` outside Unicode mode: `[A-Za-z0-9_]`. */
  predicate IsWordChar(c: char) { IsLetter(c) || IsDigit(c) || c == '_' }

  function LowerChar(c: char): (r: char)
    ensures !IsUpper(r)
    ensures IsUpper(c) ==> IsLower(r) && r as int == c as int + 32
    ensures !IsUpper(c) ==> r == c
  {
    if IsUpper(c) then (c as int + 32) as char else c
  }

  /** `toLowerCase()`, restricted to ASCII letters. */
  function Lower(s: string): (r: string)
    ensures |r| == |s|
    ensures forall i :: 0 <= i < |s| ==> r[i] == LowerChar(s[i])
  {
    seq(|s|, i requires 0 <= i < |s| => LowerChar(s[i]))
  }

  lemma LowerIdempotent(s: string)
    ensures Lower(Lower(s)) == Lower(s)
  {
  }

  /** ASCII case-insensitive equality, as a regex with the `i` flag compares
      an ASCII pattern against text. */
  predicate EqualsIgnoreCase(a: string, b: string) {
    Lower(a) == Lower(b)
  }

  /** `startsWith`. */
  predicate StartsWith(s: string, p: string) {
    |p| <= |s| && s[..|p|] == p
  }

  /** Drops the longest prefix of characters satisfying `p`. */
  function DropWhile(s: string, p: char -> bool): (r: string)
    ensures |r| <= |s| && r == s[|s| - |r|..]
    ensures r == [] || !p(r[0])
    ensures forall i :: 0 <= i < |s| - |r| ==> p(s[i])
  {
    if s != [] && p(s[0]) then DropWhile(s[1..], p) else s
  }

  /** The longest prefix of characters satisfying `p`. */
  function TakeWhile(s: string, p: char -> bool): (r: string)
    ensures |r| <= |s| && r == s[..|r|]
    ensures forall i :: 0 <= i < |r| ==> p(r[i])
    ensures |r| < |s| ==> !p(s[|r|])
  {
    if s != [] && p(s[0]) then [s[0]] + TakeWhile(s[1..], p) else []
  }

  function TrimStart(s: string): string {
    DropWhile(s, IsJsSpace)
  }

  function TrimEnd(s: string): string
    decreases |s|
  {
    if s != [] && IsJsSpace(s[|s| - 1]) then TrimEnd(s[..|s| - 1]) else s
  }

  /** `TrimEnd` drops the longest suffix of whitespace. (Lemmas rather than
      `ensures`, so that contexts which merely mention `Trim` do not pay for
      these facts.) */
  lemma {:induction false} TrimEndSpec(s: string)
    ensures |TrimEnd(s)| <= |s| && TrimEnd(s) == s[..|TrimEnd(s)|]
    ensures TrimEnd(s) == [] || !IsJsSpace(TrimEnd(s)[|TrimEnd(s)| - 1])
    decreases |s|
  {
    if s != [] && IsJsSpace(s[|s| - 1]) {
      TrimEndSpec(s[..|s| - 1]);
    }
  }

  /** A string with no JavaScript whitespace at either end. */
  predicate Trimmed(s: string) {
    s == [] || (!IsJsSpace(s[0]) && !IsJsSpace(s[|s| - 1]))
  }

  /** How many characters `Trim` drops from the front. */
  function TrimOffset(s: string): nat {
    |s| - |TrimStart(s)|
  }

  /** `String.prototype.trim`. */
  function Trim(s: string): string {
    TrimEnd(TrimStart(s))
  }

  /** `Trim` leaves a trimmed slice of its input, and leaves a trimmed string
      alone. (A lemma rather than `ensures`, so that contexts which merely
      mention `Trim` do not pay for these facts.) */
  lemma TrimSpec(s: string)
    ensures Trimmed(Trim(s))
    ensures |Trim(s)| <= |s|
    ensures TrimOffset(s) + |Trim(s)| <= |s| && Trim(s) == s[TrimOffset(s)..TrimOffset(s) + |Trim(s)|]
    ensures Trimmed(s) ==> Trim(s) == s
  {
    var t := TrimStart(s);
    var r := TrimEnd(t);
    TrimEndSpec(t);
    assert r == s[|s| - |t|..|s| - |t| + |r|];
  }

  lemma TrimFixed(s: string)
    requires Trimmed(s)
    ensures Trim(s) == s
  {
    TrimSpec(s);
  }

  /** `Array.prototype.join(sep)` over strings. */
  function Join(xs: seq<string>, sep: string): string {
    if xs == [] then []
    else if |xs| == 1 then xs[0]
    else xs[0] + sep + Join(xs[1..], sep)
  }

  lemma JoinCons(x: string, xs: seq<string>, sep: string)
    requires xs != []
    ensures Join([x] + xs, sep) == x + sep + Join(xs, sep)
  {
    assert ([x] + xs)[1..] == xs;
  }

  /** Each maximal run of characters satisfying `p` replaced by the single
      character `rep`: JavaScript's `s.replace(/[class]+/g, rep)`. */
  function CollapseRuns(s: string, p: char -> bool, rep: char): string
    decreases |s|
  {
    if s == [] then []
    else if p(s[0]) then [rep] + CollapseRuns(DropWhile(s, p), p, rep)
    else [s[0]] + CollapseRuns(s[1..], p, rep)
  }

  /** No two neighbouring characters both satisfy `p`. */
  predicate NoAdjacent(s: string, p: char -> bool) {
    forall i :: 0 <= i < |s| - 1 ==> !(p(s[i]) && p(s[i + 1]))
  }

  lemma {:induction false} CollapseRunsFirst(s: string, p: char -> bool, rep: char)
    ensures |CollapseRuns(s, p, rep)| <= |s|
    ensures (CollapseRuns(s, p, rep) == []) == (s == [])
    ensures s != [] && !p(s[0]) ==> CollapseRuns(s, p, rep)[0] == s[0]
    ensures s != [] && p(s[0]) ==> CollapseRuns(s, p, rep)[0] == rep
    decreases |s|
  {
    if s == [] {
    } else if p(s[0]) {
      CollapseRunsFirst(DropWhile(s, p), p, rep);
    } else {
      CollapseRunsFirst(s[1..], p, rep);
    }
  }

  /** After collapsing, a character satisfying `p` can only be `rep`, every
      other character comes from the input, and no two neighbours satisfy `p`. */
  lemma {:induction false} CollapseRunsShape(s: string, p: char -> bool, rep: char)
    ensures var r := CollapseRuns(s, p, rep);
      && (forall i :: 0 <= i < |r| ==> (p(r[i]) ==> r[i] == rep))
      && (forall i :: 0 <= i < |r| ==> r[i] == rep || r[i] in s)
      && NoAdjacent(r, p)
    decreases |s|
  {
    var r := CollapseRuns(s, p, rep);
    if s == [] {
    } else if p(s[0]) {
      var d := DropWhile(s, p);
      CollapseRunsShape(d, p, rep);
      CollapseRunsFirst(d, p, rep);
      var t := CollapseRuns(d, p, rep);
      assert r == [rep] + t;
      forall i | 0 <= i < |r| ensures r[i] == rep || r[i] in s {
        if i > 0 {
          assert r[i] == t[i - 1];
          assert t[i - 1] == rep || t[i - 1] in d;
          assert forall c :: c in d ==> c in s;
        }
      }
    } else {
      var t := CollapseRuns(s[1..], p, rep);
      CollapseRunsShape(s[1..], p, rep);
      CollapseRunsFirst(s[1..], p, rep);
      assert r == [s[0]] + t;
      forall i | 0 <= i < |r| ensures r[i] == rep || r[i] in s {
        if i > 0 {
          assert r[i] == t[i - 1];
          assert t[i - 1] == rep || t[i - 1] in s[1..];
        }
      }
    }
  }

  /** A string that is already collapsed is left unchanged. */
  lemma {:induction false} CollapseRunsFixpoint(s: string, p: char -> bool, rep: char)
    requires forall i :: 0 <= i < |s| ==> (p(s[i]) ==> s[i] == rep)
    requires NoAdjacent(s, p)
    ensures CollapseRuns(s, p, rep) == s
    decreases |s|
  {
    if s == [] {
    } else if p(s[0]) {
      var d := DropWhile(s, p);
      assert |s| > 1 ==> !p(s[1]);
      assert d == s[1..];
      CollapseRunsFixpoint(s[1..], p, rep);
    } else {
      CollapseRunsFixpoint(s[1..], p, rep);
    }
  }

  /** `s.split(/[class]+/)`: the pieces between maximal runs of characters
      satisfying `p`, with an empty piece before a leading run and after a
      trailing one. */
  function SplitRuns(s: string, p: char -> bool): (r: seq<string>)
    ensures |r| >= 1
    decreases |s|
  {
    if s == [] then [[]]
    else if p(s[0]) then [[]] + SplitRuns(DropWhile(s, p), p)
    else
      var t := SplitRuns(s[1..], p);
      [[s[0]] + t[0]] + t[1..]
  }

  /** No piece holds a separator character. */
  lemma {:induction false} SplitRunsAvoid(s: string, p: char -> bool)
    ensures forall t, i :: t in SplitRuns(s, p) && 0 <= i < |t| ==> !p(t[i])
    decreases |s|
  {
    if s == [] {
    } else if p(s[0]) {
      SplitRunsAvoid(DropWhile(s, p), p);
    } else {
      var t := SplitRuns(s[1..], p);
      SplitRunsAvoid(s[1..], p);
      assert forall x :: x in t[1..] ==> x in t;
      assert t[0] in t;
    }
  }

  /** Putting a character in front of the first piece puts it in front of the
      joined string. */
  lemma JoinFront(c: char, t: seq<string>, sep: string)
    requires t != []
    ensures Join([[c] + t[0]] + t[1..], sep) == [c] + Join(t, sep)
  {
    if |t| > 1 {
      JoinCons([c] + t[0], t[1..], sep);
      JoinCons(t[0], t[1..], sep);
      assert t == [t[0]] + t[1..];
    }
  }

  /** Splitting at the runs and joining with `rep` is the same as replacing
      each run by `rep`. */
  lemma {:induction false} SplitRunsJoin(s: string, p: char -> bool, rep: char)
    ensures Join(SplitRuns(s, p), [rep]) == CollapseRuns(s, p, rep)
    decreases |s|
  {
    if s == [] {
    } else if p(s[0]) {
      var d := DropWhile(s, p);
      SplitRunsJoin(d, p, rep);
      JoinCons([], SplitRuns(d, p), [rep]);
    } else {
      SplitRunsJoin(s[1..], p, rep);
      JoinFront(s[0], SplitRuns(s[1..], p), [rep]);
    }
  }

  /** `TrimEnd` of a concatenation: the trailing whitespace of `y` goes, and
      if nothing else is left of `y`, so does that of `x`. */
  lemma {:induction false} TrimEndAppend(x: string, y: string)
    ensures TrimEnd(x + y) == if TrimEnd(y) == [] then TrimEnd(x) else x + TrimEnd(y)
    decreases |y|
  {
    var xy := x + y;
    if y == [] {
      assert xy == x;
    } else if IsJsSpace(y[|y| - 1]) {
      assert xy[..|xy| - 1] == x + y[..|y| - 1];
      TrimEndAppend(x, y[..|y| - 1]);
    } else {
      assert xy[|xy| - 1] == y[|y| - 1];
    }
  }

  /** A string that starts with a non-space keeps something after `TrimEnd`. */
  lemma {:induction false} TrimEndKeepsHead(y: string)
    requires y != [] && !IsJsSpace(y[0])
    ensures TrimEnd(y) != []
    decreases |y|
  {
    if IsJsSpace(y[|y| - 1]) {
      TrimEndKeepsHead(y[..|y| - 1]);
    }
  }

  /** `Trim(CollapseRuns(s, IsJsSpace, ' '))` in a single pass: each run of
      whitespace becomes one space, except before the first and after the last
      other character, where it vanishes. `lead` says that nothing has been
      kept yet. */
  function Squash(s: string, lead: bool): string
    decreases |s|
  {
    if s == [] then []
    else if IsJsSpace(s[0]) then
      var rest := DropWhile(s, IsJsSpace);
      if lead || rest == [] then Squash(rest, lead) else [' '] + Squash(rest, false)
    else [s[0]] + Squash(s[1..], false)
  }

  lemma {:induction false} SquashTail(s: string)
    ensures Squash(s, false) == TrimEnd(CollapseRuns(s, IsJsSpace, ' '))
    decreases |s|
  {
    if s == [] {
    } else if IsJsSpace(s[0]) {
      var rest := DropWhile(s, IsJsSpace);
      var c := CollapseRuns(rest, IsJsSpace, ' ');
      SquashTail(rest);
      TrimEndAppend([' '], c);
      if rest == [] {
        assert [' '][..0] == [];
      } else {
        CollapseRunsFirst(rest, IsJsSpace, ' ');
        TrimEndKeepsHead(c);
      }
    } else {
      var c := CollapseRuns(s[1..], IsJsSpace, ' ');
      SquashTail(s[1..]);
      TrimEndAppend([s[0]], c);
    }
  }

  /** The single pass agrees with collapsing then trimming. */
  lemma {:induction false} SquashSpec(s: string)
    ensures Squash(s, true) == Trim(CollapseRuns(s, IsJsSpace, ' '))
    decreases |s|
  {
    if s == [] {
    } else if IsJsSpace(s[0]) {
      var rest := DropWhile(s, IsJsSpace);
      var c := CollapseRuns(rest, IsJsSpace, ' ');
      SquashSpec(rest);
      assert ([' '] + c)[1..] == c;
    } else {
      SquashTail(s);
      CollapseRunsFirst(s, IsJsSpace, ' ');
    }
  }
}
