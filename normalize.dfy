/** Whitespace and line canonicalisation of extracted page text: `normalize`
    in sidepanel.js and quiz.js and `normalizeText` in content-script.js, which
    are textual copies of one another. */
module TextNormalize {
  import opened Chars

  const Nbsp: char := '\U{00A0}'

  predicate IsNewline(c: char) { c == '\n' }

  /** `.replace(/\r/g, "")` */
  function RemoveCarriageReturns(s: string): (r: string)
    ensures '\r' !in r
    ensures forall c :: c in r ==> c in s
    ensures '\r' !in s ==> r == s
  {
    if s == [] then []
    else if s[0] == '\r' then RemoveCarriageReturns(s[1..])
    else [s[0]] + RemoveCarriageReturns(s[1..])
  }

  /** `.replace(/ /g, " ")` */
  function ReplaceNbsp(s: string): (r: string)
    ensures |r| == |s|
    ensures forall i :: 0 <= i < |s| ==> r[i] == (if s[i] == Nbsp then ' ' else s[i])
  {
    seq(|s|, i requires 0 <= i < |s| => if s[i] == Nbsp then ' ' else s[i])
  }

  /** `.replace(/[ \t]+/g, " ")` */
  function CollapseBlanks(s: string): string {
    CollapseRuns(s, IsBlank, ' ')
  }

  /** `.replace(/\n[ \t]+/g, "\n")`: blanks right after a newline are dropped. */
  function StripIndents(s: string): string
    decreases |s|
  {
    if s == [] then []
    else if s[0] == '\n' && |s| > 1 && IsBlank(s[1]) then ['\n'] + StripIndents(DropWhile(s[1..], IsBlank))
    else [s[0]] + StripIndents(s[1..])
  }

  /** `.replace(/\n{3,}/g, "\n\n")`: a run of three or more newlines becomes two. */
  function CapNewlines(s: string): string
    decreases |s|
  {
    if |s| >= 3 && s[0] == '\n' && s[1] == '\n' && s[2] == '\n' then "\n\n" + CapNewlines(DropWhile(s, IsNewline))
    else if s == [] then []
    else [s[0]] + CapNewlines(s[1..])
  }

  /** sidepanel.js `normalize`, quiz.js `normalize`, content-script.js `normalizeText`. */
  function Normalize(s: string): string {
    Trim(CapNewlines(StripIndents(CollapseBlanks(ReplaceNbsp(RemoveCarriageReturns(s))))))
  }

  // ---------------------------------------------------------------------
  // The canonical form that Normalize produces.

  predicate NoDoubleBlank(s: string) {
    forall i :: 0 <= i < |s| - 1 ==> !(IsBlank(s[i]) && IsBlank(s[i + 1]))
  }

  predicate NoIndent(s: string) {
    forall i :: 0 <= i < |s| - 1 ==> !(s[i] == '\n' && IsBlank(s[i + 1]))
  }

  predicate NoTripleNewline(s: string) {
    forall i :: 0 <= i < |s| - 2 ==> !(s[i] == '\n' && s[i + 1] == '\n' && s[i + 2] == '\n')
  }

  predicate IsNormalized(s: string) {
    && '\r' !in s && Nbsp !in s && '\t' !in s
    && NoDoubleBlank(s) && NoIndent(s) && NoTripleNewline(s)
    && Trimmed(s)
  }

  // ---------------------------------------------------------------------
  // One lemma per step.

  lemma ReplaceNbspShape(s: string)
    ensures Nbsp !in ReplaceNbsp(s)
    ensures forall c :: c in ReplaceNbsp(s) ==> c in s || c == ' '
    ensures Nbsp !in s ==> ReplaceNbsp(s) == s
  {
    var r := ReplaceNbsp(s);
    forall c | c in r ensures c in s || c == ' ' {
      var i :| 0 <= i < |r| && r[i] == c;
    }
  }

  lemma CollapseBlanksShape(s: string)
    ensures var r := CollapseBlanks(s);
      '\t' !in r && NoDoubleBlank(r) && forall c :: c in r ==> c in s || c == ' '
  {
    CollapseRunsShape(s, IsBlank, ' ');
    var r := CollapseBlanks(s);
    forall c | c in r ensures c in s || c == ' ' {
      var i :| 0 <= i < |r| && r[i] == c;
    }
    assert NoAdjacent(r, IsBlank);
  }

  lemma CollapseBlanksFixpoint(s: string)
    requires '\t' !in s && NoDoubleBlank(s)
    ensures CollapseBlanks(s) == s
  {
    assert NoAdjacent(s, IsBlank);
    CollapseRunsFixpoint(s, IsBlank, ' ');
  }

  lemma {:induction false} StripIndentsFirst(s: string)
    ensures |StripIndents(s)| <= |s|
    ensures (StripIndents(s) == []) == (s == [])
    ensures s != [] ==> StripIndents(s)[0] == s[0]
    decreases |s|
  {
    if s == [] {
    } else if s[0] == '\n' && |s| > 1 && IsBlank(s[1]) {
      StripIndentsFirst(DropWhile(s[1..], IsBlank));
    } else {
      StripIndentsFirst(s[1..]);
    }
  }

  /** A character put in front of a string creates no run of blanks and no
      indent unless it is itself a blank (or a newline) before a blank. */
  lemma ConsShape(c: char, t: string)
    ensures NoDoubleBlank(t) && !(t != [] && IsBlank(c) && IsBlank(t[0])) ==> NoDoubleBlank([c] + t)
    ensures NoIndent(t) && !(t != [] && c == '\n' && IsBlank(t[0])) ==> NoIndent([c] + t)
  {
    var u := [c] + t;
    assert forall i :: 0 < i < |u| ==> u[i] == t[i - 1];
  }

  /** No blank follows a newline after StripIndents. */
  lemma {:induction false} StripIndentsNoIndent(s: string)
    ensures NoIndent(StripIndents(s))
    decreases |s|
  {
    if s == [] {
    } else if s[0] == '\n' && |s| > 1 && IsBlank(s[1]) {
      var d := DropWhile(s[1..], IsBlank);
      StripIndentsNoIndent(d);
      StripIndentsFirst(d);
      ConsShape('\n', StripIndents(d));
    } else {
      StripIndentsNoIndent(s[1..]);
      StripIndentsFirst(s[1..]);
      ConsShape(s[0], StripIndents(s[1..]));
    }
  }

  /** StripIndents only deletes characters. */
  lemma {:induction false} StripIndentsChars(s: string)
    ensures forall c :: c in StripIndents(s) ==> c in s
    decreases |s|
  {
    if s == [] {
    } else if s[0] == '\n' && |s| > 1 && IsBlank(s[1]) {
      var d := DropWhile(s[1..], IsBlank);
      StripIndentsChars(d);
      assert forall c :: c in d ==> c in s;
    } else {
      StripIndentsChars(s[1..]);
    }
  }

  /** StripIndents creates no run of blanks. */
  lemma {:induction false} StripIndentsKeepsNoDoubleBlank(s: string)
    requires NoDoubleBlank(s)
    ensures NoDoubleBlank(StripIndents(s))
    decreases |s|
  {
    if s == [] {
    } else if s[0] == '\n' && |s| > 1 && IsBlank(s[1]) {
      var d := DropWhile(s[1..], IsBlank);
      SubstringKeepsShape(s, |s| - |d|, |s|);
      StripIndentsKeepsNoDoubleBlank(d);
      ConsShape('\n', StripIndents(d));
    } else {
      SubstringKeepsShape(s, 1, |s|);
      StripIndentsKeepsNoDoubleBlank(s[1..]);
      StripIndentsFirst(s[1..]);
      ConsShape(s[0], StripIndents(s[1..]));
    }
  }

  lemma {:induction false} StripIndentsFixpoint(s: string)
    requires NoIndent(s)
    ensures StripIndents(s) == s
    decreases |s|
  {
    if s != [] {
      assert !(s[0] == '\n' && |s| > 1 && IsBlank(s[1]));
      assert NoIndent(s[1..]) by {
        forall i | 0 <= i < |s[1..]| - 1 ensures !(s[1..][i] == '\n' && IsBlank(s[1..][i + 1])) {
          assert s[1..][i] == s[i + 1];
        }
      }
      StripIndentsFixpoint(s[1..]);
    }
  }

  lemma {:induction false} CapNewlinesPrefix(s: string)
    ensures var r := CapNewlines(s);
      && |r| <= |s|
      && (|s| <= 1 ==> r == s)
      && (|s| >= 2 ==> |r| >= 2 && r[..2] == s[..2])
      && (s != [] ==> r != [] && r[0] == s[0])
    decreases |s|
  {
    if |s| >= 3 && s[0] == '\n' && s[1] == '\n' && s[2] == '\n' {
      CapNewlinesPrefix(DropWhile(s, IsNewline));
    } else if s != [] {
      CapNewlinesPrefix(s[1..]);
    }
  }

  lemma {:induction false} CapNewlinesNoTriple(s: string)
    ensures NoTripleNewline(CapNewlines(s))
    decreases |s|
  {
    if |s| >= 3 && s[0] == '\n' && s[1] == '\n' && s[2] == '\n' {
      var d := DropWhile(s, IsNewline);
      CapNewlinesNoTriple(d);
      CapNewlinesPrefix(d);
      NoTripleAfterPair(CapNewlines(d));
    } else if s != [] {
      CapNewlinesNoTriple(s[1..]);
      CapNewlinesPrefix(s[1..]);
      NoTripleCons(s[0], CapNewlines(s[1..]));
    }
  }

  lemma NoTripleAfterPair(t: string)
    requires NoTripleNewline(t) && (t == [] || t[0] != '\n')
    ensures NoTripleNewline("\n\n" + t)
  {
    var r := "\n\n" + t;
    forall i | 0 <= i < |r| - 2 ensures !(r[i] == '\n' && r[i + 1] == '\n' && r[i + 2] == '\n') {
      assert r[i + 2] == t[i];
      if i >= 2 {
        assert r[i] == t[i - 2] && r[i + 1] == t[i - 1];
      }
    }
  }

  lemma NoTripleCons(c: char, t: string)
    requires NoTripleNewline(t)
    requires c == '\n' && |t| >= 2 ==> !(t[0] == '\n' && t[1] == '\n')
    ensures NoTripleNewline([c] + t)
  {
    var r := [c] + t;
    forall i | 0 <= i < |r| - 2 ensures !(r[i] == '\n' && r[i + 1] == '\n' && r[i + 2] == '\n') {
      assert r[i + 1] == t[i] && r[i + 2] == t[i + 1];
      if i > 0 {
        assert r[i] == t[i - 1];
      }
    }
  }

  /** CapNewlines introduces no character but a newline. */
  lemma {:induction false} CapNewlinesChars(s: string)
    ensures forall c :: c in CapNewlines(s) ==> c in s || c == '\n'
    decreases |s|
  {
    if |s| >= 3 && s[0] == '\n' && s[1] == '\n' && s[2] == '\n' {
      var d := DropWhile(s, IsNewline);
      CapNewlinesChars(d);
      assert forall c :: c in d ==> c in s;
    } else if s != [] {
      CapNewlinesChars(s[1..]);
    }
  }

  /** CapNewlines creates no run of blanks. */
  lemma {:induction false} CapNewlinesKeepsNoDoubleBlank(s: string)
    requires NoDoubleBlank(s)
    ensures NoDoubleBlank(CapNewlines(s))
    decreases |s|
  {
    if |s| >= 3 && s[0] == '\n' && s[1] == '\n' && s[2] == '\n' {
      var d := DropWhile(s, IsNewline);
      SubstringKeepsShape(s, |s| - |d|, |s|);
      CapNewlinesKeepsNoDoubleBlank(d);
      TwoNewlinesShape(CapNewlines(d));
    } else if s != [] {
      SubstringKeepsShape(s, 1, |s|);
      CapNewlinesKeepsNoDoubleBlank(s[1..]);
      CapNewlinesPrefix(s[1..]);
      ConsShape(s[0], CapNewlines(s[1..]));
    }
  }

  /** CapNewlines puts no blank after a newline. */
  lemma {:induction false} CapNewlinesKeepsNoIndent(s: string)
    requires NoIndent(s)
    ensures NoIndent(CapNewlines(s))
    decreases |s|
  {
    if |s| >= 3 && s[0] == '\n' && s[1] == '\n' && s[2] == '\n' {
      var d := DropWhile(s, IsNewline);
      SubstringKeepsShape(s, |s| - |d|, |s|);
      CapNewlinesKeepsNoIndent(d);
      CapRunKeepsNoIndent(s);
    } else if s != [] {
      SubstringKeepsShape(s, 1, |s|);
      CapNewlinesKeepsNoIndent(s[1..]);
      CapNewlinesPrefix(s[1..]);
      ConsShape(s[0], CapNewlines(s[1..]));
    }
  }

  /** The step of CapNewlinesKeepsNoIndent at a run of three or more newlines. */
  lemma CapRunKeepsNoIndent(s: string)
    requires NoIndent(s)
    requires |s| >= 3 && s[0] == '\n' && s[1] == '\n' && s[2] == '\n'
    requires NoIndent(CapNewlines(DropWhile(s, IsNewline)))
    ensures NoIndent(CapNewlines(s))
  {
    var d := DropWhile(s, IsNewline);
    var t := CapNewlines(d);
    CapNewlinesPrefix(d);
    if d != [] {
      var k := |s| - |d| - 1;
      assert IsNewline(s[k]) && d[0] == s[k + 1];
    }
    TwoNewlinesShape(t);
  }

  /** Two newlines put in front of a string create no run of blanks, and no
      indent unless the string starts with a blank. */
  lemma TwoNewlinesShape(t: string)
    ensures NoDoubleBlank(t) ==> NoDoubleBlank("\n\n" + t)
    ensures NoIndent(t) && (t == [] || !IsBlank(t[0])) ==> NoIndent("\n\n" + t)
  {
    var r := "\n\n" + t;
    assert forall i :: 2 <= i < |r| ==> r[i] == t[i - 2];
  }

  lemma {:induction false} CapNewlinesFixpoint(s: string)
    requires NoTripleNewline(s)
    ensures CapNewlines(s) == s
    decreases |s|
  {
    if s != [] {
      assert NoTripleNewline(s[1..]) by {
        forall i | 0 <= i < |s[1..]| - 2
          ensures !(s[1..][i] == '\n' && s[1..][i + 1] == '\n' && s[1..][i + 2] == '\n')
        {
          assert s[1..][i] == s[i + 1];
        }
      }
      CapNewlinesFixpoint(s[1..]);
    }
  }

  /** Every property of the canonical form except trimming survives taking a
      substring, which is all that `trim` does. */
  lemma SubstringKeepsShape(s: string, a: nat, b: nat)
    requires a <= b <= |s|
    ensures forall c :: c in s[a..b] ==> c in s
    ensures NoDoubleBlank(s) ==> NoDoubleBlank(s[a..b])
    ensures NoIndent(s) ==> NoIndent(s[a..b])
    ensures NoTripleNewline(s) ==> NoTripleNewline(s[a..b])
  {
    var t := s[a..b];
    assert forall i :: 0 <= i < |t| ==> t[i] == s[a + i];
  }

  // ---------------------------------------------------------------------
  // The properties of Normalize.

  /** The output of Normalize has no carriage return, no non-breaking space, no
      tab, no run of blanks, no blank after a newline, no three newlines in a row
      and no whitespace at either end. */
  lemma NormalizeShape(s: string)
    ensures IsNormalized(Normalize(s))
  {
    var s5 := CapNewlines(StripIndents(CollapseBlanks(ReplaceNbsp(RemoveCarriageReturns(s)))));
    PreTrimShape(s);
    TrimKeepsShape(s5);
  }

  /** Trimming keeps every property of the canonical form and adds the last. */
  lemma TrimKeepsShape(t: string)
    requires '\r' !in t && Nbsp !in t && '\t' !in t
    requires NoDoubleBlank(t) && NoIndent(t) && NoTripleNewline(t)
    ensures IsNormalized(Trim(t))
  {
    TrimSpec(t);
    SliceKeepsShape(t, Trim(t), TrimOffset(t));
  }

  /** SubstringKeepsShape, for a slice given by its start. */
  lemma SliceKeepsShape(t: string, r: string, a: nat)
    requires a + |r| <= |t| && r == t[a..a + |r|]
    ensures forall c :: c in r ==> c in t
    ensures NoDoubleBlank(t) ==> NoDoubleBlank(r)
    ensures NoIndent(t) ==> NoIndent(r)
    ensures NoTripleNewline(t) ==> NoTripleNewline(r)
  {
    SubstringKeepsShape(t, a, a + |r|);
  }

  /** Everything but trimming holds before the final `trim`. */
  lemma PreTrimShape(s: string)
    ensures var s5 := CapNewlines(StripIndents(CollapseBlanks(ReplaceNbsp(RemoveCarriageReturns(s)))));
      && '\r' !in s5 && Nbsp !in s5 && '\t' !in s5
      && NoDoubleBlank(s5) && NoIndent(s5) && NoTripleNewline(s5)
  {
    var s1 := RemoveCarriageReturns(s);
    var s2 := ReplaceNbsp(s1);
    ReplaceNbspShape(s1);
    assert '\r' !in s2 && Nbsp !in s2;
    var s3 := CollapseBlanks(s2);
    CollapseBlanksShape(s2);
    assert '\r' !in s3 && Nbsp !in s3 && '\t' !in s3 && NoDoubleBlank(s3);
    var s4 := StripIndents(s3);
    StripIndentsNoIndent(s3);
    StripIndentsChars(s3);
    StripIndentsKeepsNoDoubleBlank(s3);
    assert '\r' !in s4 && Nbsp !in s4 && '\t' !in s4 && NoDoubleBlank(s4) && NoIndent(s4);
    CapNewlinesNoTriple(s4);
    CapNewlinesChars(s4);
    CapNewlinesKeepsNoDoubleBlank(s4);
    CapNewlinesKeepsNoIndent(s4);
  }

  /** Normalize leaves text that is already in canonical form unchanged. */
  lemma NormalizeFixpoint(s: string)
    requires IsNormalized(s)
    ensures Normalize(s) == s
  {
    ReplaceNbspShape(s);
    CollapseBlanksFixpoint(s);
    StripIndentsFixpoint(s);
    CapNewlinesFixpoint(s);
  }

  /** Normalising twice is the same as normalising once. */
  lemma NormalizeIdempotent(s: string)
    ensures Normalize(Normalize(s)) == Normalize(s)
  {
    NormalizeShape(s);
    NormalizeFixpoint(Normalize(s));
  }
}
