/** The quiz popup (quiz.js): recovering the model's JSON reply, turning it
    into at most four four-option questions, the URL gate in front of page
    extraction, and the popup's quiz and score state. The popup's copies of
    `normalize` and `condenseFast` are the ones modelled in TextNormalize and
    Condense. */
module Quiz {
  import opened Chars
  import opened Optional
  import opened Seqs

  // ---------------------------------------------------------------------
  // JSON values

  /** A value `JSON.parse` can return. A number carries the text that
      `String(number)` gives for it. */
  datatype Json =
    | JNull
    | JBool(b: bool)
    | JNum(value: real, text: string)
    | JStr(s: string)
    | JArr(items: seq<Json>)
    | JObj(fields: map<string, Json>)

  /** JavaScript truthiness of a JSON value. */
  predicate Truthy(v: Json) {
    match v
    case JNull => false
    case JBool(b) => b
    case JNum(x, _) => x != 0.0
    case JStr(s) => s != []
    case JArr(_) => true
    case JObj(_) => true
  }

  /** Whether `String(v)` throws a `TypeError`. A parsed object with an own
      `toString` property hides `Object.prototype.toString` behind a value
      that is not callable, and its `valueOf` gives back the object itself,
      so no primitive is found; an array converts each element that is not
      `null`. */
  predicate Throws(v: Json)
    decreases v
  {
    match v
    case JArr(items) => exists i :: 0 <= i < |items| && Throws(items[i])
    case JObj(f) => "toString" in f
    case _ => false
  }

  /** `String(v)`, `None` where it throws; an array joins its elements with
      commas, `null` elements as the empty string. */
  function ToStr(v: Json): Option<string>
    decreases v
  {
    match v
    case JNull => Some("null")
    case JBool(b) => Some(if b then "true" else "false")
    case JNum(_, text) => Some(text)
    case JStr(s) => Some(s)
    case JArr(items) =>
      if exists i :: 0 <= i < |items| && !items[i].JNull? && ToStr(items[i]).None? then None
      else Some(Join(seq(|items|, i requires 0 <= i < |items| =>
        if items[i].JNull? then "" else match ToStr(items[i]) case Some(t) => t case None => ""), ","))
    case JObj(f) => if "toString" in f then None else Some("[object Object]")
  }

  /** `String(v)` throws exactly where Throws says it does, and a string
      converts to itself. */
  lemma {:induction false} ToStrSpec(v: Json)
    ensures ToStr(v).None? <==> Throws(v)
    ensures v.JStr? ==> ToStr(v) == Some(v.s)
    decreases v
  {
    if v.JArr? {
      forall i | 0 <= i < |v.items| ensures ToStr(v.items[i]).None? <==> Throws(v.items[i]) {
        ToStrSpec(v.items[i]);
      }
    }
  }

  /** `String(x || "")`, where `None` stands for `undefined`, and the result
      `None` for a thrown `TypeError`. */
  function Str(x: Option<Json>): (r: Option<string>)
    ensures x.Some? && x.value.JStr? ==> r == Some(x.value.s)
    ensures r.None? <==> x.Some? && Throws(x.value)
  {
    if x.Some? then
      ToStrSpec(x.value);
      if Truthy(x.value) then ToStr(x.value) else Some("")
    else Some("")
  }

  /** `v.key` on a value that is not `null`: only an object has own
      properties. */
  function Prop(v: Json, key: string): Option<Json> {
    if v.JObj? && key in v.fields then Some(v.fields[key]) else None
  }

  // ---------------------------------------------------------------------
  // safeParseJSON

  /** Three backticks start at `p`. */
  predicate TicksAt(s: string, p: nat) {
    p + 3 <= |s| && s[p] == '`' && s[p + 1] == '`' && s[p + 2] == '`'
  }

  /** The first index at or after `i` where three backticks start. */
  function FindTicks(s: string, i: nat): (r: Option<nat>)
    ensures r.Some? ==> i <= r.value && TicksAt(s, r.value)
    decreases |s| - i
  {
    if i + 3 > |s| then None else if TicksAt(s, i) then Some(i) else FindTicks(s, i + 1)
  }

  lemma {:induction false} FindTicksLeftmost(s: string, i: nat, j: nat)
    requires i <= j && TicksAt(s, j)
    ensures FindTicks(s, i).Some? && FindTicks(s, i).value <= j
    decreases |s| - i
  {
    if !TicksAt(s, i) {
      FindTicksLeftmost(s, i + 1, j);
    }
  }

  /** Where the fenced body starts when the opening fence ends at `i`: after
      an optional `json` (any case) and then as much white space as
      possible. */
  function BodyStart(s: string, i: nat): (r: nat)
    requires i <= |s|
    ensures i <= r <= |s|
  {
    var j := if i + 4 <= |s| && EqualsIgnoreCase(s[i..i + 4], "json") then i + 4 else i;
    j + |TakeWhile(s[j..], IsJsSpace)|
  }

  /** Group 1 of `s.match(/```(?:json)?\s*([\s\S]*?)```/i)`. The text between
      the opening fence and the body holds no backtick, so when no closing
      fence follows the first opening one, none follows a later one either:
      only the first opening fence is tried. */
  function FenceBody(s: string): Option<string> {
    match FindTicks(s, 0)
    case None => None
    case Some(a) =>
      var p := BodyStart(s, a + 3);
      match FindTicks(s, p)
      case None => None
      case Some(e) => Some(s[p..e])
  }

  /** `indexOf(c)` */
  function FirstIndexOf(s: string, c: char, i: nat): (r: Option<nat>)
    ensures r.Some? ==> i <= r.value < |s| && s[r.value] == c
    ensures r.Some? ==> forall k :: i <= k < r.value ==> s[k] != c
    ensures r.None? ==> forall k :: i <= k < |s| ==> s[k] != c
    decreases |s| - i
  {
    if i >= |s| then None else if s[i] == c then Some(i) else FirstIndexOf(s, c, i + 1)
  }

  /** `lastIndexOf(c)` within `s[..n]`. */
  function LastIndexOf(s: string, c: char, n: nat): (r: Option<nat>)
    requires n <= |s|
    ensures r.Some? ==> r.value < n && s[r.value] == c
    ensures r.Some? ==> forall k :: r.value < k < n ==> s[k] != c
    ensures r.None? ==> forall k :: 0 <= k < n ==> s[k] != c
  {
    if n == 0 then None else if s[n - 1] == c then Some(n - 1) else LastIndexOf(s, c, n - 1)
  }

  /** `s.slice(first, last + 1)` for the first `{` and the last `}`, when
      both exist and the `}` comes after the `{`. */
  function BraceSlice(s: string): Option<string> {
    var first := FirstIndexOf(s, '{', 0);
    var last := LastIndexOf(s, '}', |s|);
    if first.Some? && last.Some? && last.value > first.value then Some(s[first.value..last.value + 1])
    else None
  }

  /** The texts `safeParseJSON` hands to `JSON.parse`, in order. */
  function Attempts(s: string): seq<string> {
    [s] + (match FenceBody(s) case Some(b) => [b] case None => [])
        + (match BraceSlice(s) case Some(t) => [t] case None => [])
  }

  /** The first attempt that parses, as a reference for the fallbacks. */
  function FirstParsed(ts: seq<string>, parse: string -> Option<Json>): Option<Json> {
    if ts == [] then None else if parse(ts[0]).Some? then parse(ts[0]) else FirstParsed(ts[1..], parse)
  }

  /** `safeParseJSON(s)`, with `JSON.parse` as the partial function `parse`
      (`None` where it throws); `None` is the `null` it returns when every
      attempt fails. */
  function SafeParse(s: string, parse: string -> Option<Json>): Option<Json> {
    if parse(s).Some? then parse(s)
    else
      var fenced := match FenceBody(s) case Some(b) => parse(b) case None => None;
      if fenced.Some? then fenced
      else match BraceSlice(s) case Some(t) => parse(t) case None => None
  }

  /** The fallbacks return the first attempt that parses, and give up only
      when none does. */
  lemma {:induction false} FirstParsedSpec(ts: seq<string>, parse: string -> Option<Json>)
    ensures FirstParsed(ts, parse).None? <==> forall i :: 0 <= i < |ts| ==> parse(ts[i]).None?
    ensures FirstParsed(ts, parse).Some? ==>
      exists i :: 0 <= i < |ts| && parse(ts[i]) == FirstParsed(ts, parse)
        && forall j :: 0 <= j < i ==> parse(ts[j]).None?
  {
    if ts != [] {
      FirstParsedSpec(ts[1..], parse);
      if parse(ts[0]).None? {
        if FirstParsed(ts, parse).Some? {
          var i :| 0 <= i < |ts[1..]| && parse(ts[1..][i]) == FirstParsed(ts[1..], parse)
            && forall j :: 0 <= j < i ==> parse(ts[1..][j]).None?;
          assert parse(ts[i + 1]) == FirstParsed(ts, parse);
          forall j | 0 <= j < i + 1 ensures parse(ts[j]).None? {
            if j > 0 { assert ts[j] == ts[1..][j - 1]; }
          }
        }
        forall i | 0 <= i < |ts[1..]| ensures ts[1..][i] == ts[i + 1] { }
      } else {
        assert parse(ts[0]) == FirstParsed(ts, parse);
      }
    }
  }

  /** `safeParseJSON` returns the first of its attempts that parses. */
  lemma SafeParseFirst(s: string, parse: string -> Option<Json>)
    ensures SafeParse(s, parse) == FirstParsed(Attempts(s), parse)
  {
    var fs := match FenceBody(s) case Some(b) => [b] case None => [];
    var bs := match BraceSlice(s) case Some(t) => [t] case None => [];
    assert Attempts(s) == [s] + (fs + bs);
    FirstParsedCons(s, fs + bs, parse);
    if fs != [] {
      assert fs + bs == [fs[0]] + bs;
      FirstParsedCons(fs[0], bs, parse);
    } else {
      assert fs + bs == bs;
    }
    if bs != [] {
      FirstParsedCons(bs[0], [], parse);
      assert bs == [bs[0]] + [];
    }
  }

  lemma FirstParsedCons(t: string, ts: seq<string>, parse: string -> Option<Json>)
    ensures FirstParsed([t] + ts, parse) == if parse(t).Some? then parse(t) else FirstParsed(ts, parse)
  {
    assert ([t] + ts)[0] == t && ([t] + ts)[1..] == ts;
  }

  /** A reply that is itself JSON is taken as is, and `null` comes back only
      when the whole reply, the fenced block and the brace slice all fail to
      parse. */
  lemma SafeParseSpec(s: string, parse: string -> Option<Json>)
    ensures parse(s).Some? ==> SafeParse(s, parse) == parse(s)
    ensures SafeParse(s, parse).None? <==>
      && parse(s).None?
      && (FenceBody(s).None? || parse(FenceBody(s).value).None?)
      && (BraceSlice(s).None? || parse(BraceSlice(s).value).None?)
  {
  }

  /** The fenced body is the text between the first fence (with its
      optional `json` tag and white space) and the next fence, and holds no
      fence of its own. */
  lemma FenceBodyAt(s: string, a: nat, e: nat)
    requires TicksAt(s, a) && forall k :: 0 <= k < a ==> !TicksAt(s, k)
    requires BodyStart(s, a + 3) <= e && TicksAt(s, e)
    requires forall k :: BodyStart(s, a + 3) <= k < e ==> !TicksAt(s, k)
    ensures FenceBody(s) == Some(s[BodyStart(s, a + 3)..e])
  {
    NoTicksBefore(s, 0, a);
    NoTicksBefore(s, BodyStart(s, a + 3), e);
  }

  /** Without a fence there is no fenced body. */
  lemma FenceBodyNone(s: string)
    requires forall k :: 0 <= k < |s| ==> !TicksAt(s, k)
    ensures FenceBody(s).None?
  {
  }

  /** A reply written as "```json" and a line break, then a body with no
      backtick that does not start with white space, then "```", gives that
      body back. */
  lemma FenceRoundTrip(pre: string, body: string, post: string)
    requires '`' !in pre && '`' !in body
    requires body == [] || !IsJsSpace(body[0])
    ensures FenceBody(pre + "```json\n" + body + "```" + post) == Some(body)
  {
    var s := pre + "```json\n" + body + "```" + post;
    var a, n := |pre|, |body|;
    var z := "```" + post;
    SplitFour(pre, "```json\n", body, z, s);
    forall k | 0 <= k < a ensures s[k] != '`' {
      assert s[k] == s[..a][k];
    }
    forall k | a + 8 <= k < a + 8 + n ensures s[k] != '`' {
      assert s[k] == s[a + 8..a + 8 + n][k - (a + 8)];
    }
    assert TicksAt(s, a + 8 + n) by {
      var t := s[a + 8 + n..];
      assert t == z;
      assert s[a + 8 + n] == t[0] && s[a + 8 + n + 1] == t[1] && s[a + 8 + n + 2] == t[2];
    }
    assert body == [] || s[a + 8] == body[0] by {
      if body != [] {
        assert s[a + 8] == s[a + 8..a + 8 + n][0];
      }
    }
    FenceParts(s, a, n);
  }

  /** A fence "```json" and a line break at `a`, then `n` characters without
      a backtick and not starting with white space, then a closing fence. */
  lemma FenceParts(s: string, a: nat, n: nat)
    requires a + 8 + n + 3 <= |s|
    requires forall k :: 0 <= k < a ==> s[k] != '`'
    requires s[a..a + 8] == "```json\n"
    requires forall k :: a + 8 <= k < a + 8 + n ==> s[k] != '`'
    requires n == 0 || !IsJsSpace(s[a + 8])
    requires TicksAt(s, a + 8 + n)
    ensures FenceBody(s) == Some(s[a + 8..a + 8 + n])
  {
    var p, e := a + 8, a + 8 + n;
    assert s[a] == s[a..p][0] && s[a + 1] == s[a..p][1] && s[a + 2] == s[a..p][2];
    assert BodyStart(s, a + 3) == p by {
      assert s[a + 3..p] == s[a..p][3..];
      OpeningTag(s, a + 3, p);
    }
    FenceBodyAt(s, a, e);
  }

  /** The four parts of a concatenation, as slices. */
  lemma SplitFour(w: string, x: string, y: string, z: string, s: string)
    requires s == w + x + y + z
    ensures s[..|w|] == w
    ensures s[|w|..|w| + |x|] == x
    ensures s[|w| + |x|..|w| + |x| + |y|] == y
    ensures s[|w| + |x| + |y|..] == z
  {
  }

  /** After "json" and one line break, the body starts at the first
      character that is not white space. */
  lemma OpeningTag(s: string, i: nat, p: nat)
    requires i + 5 == p <= |s| && s[i..p] == "json\n"
    requires p == |s| || !IsJsSpace(s[p])
    ensures BodyStart(s, i) == p
  {
    assert s[i..i + 4] == s[i..p][..4] == "json";
    assert s[i + 4] == s[i..p][4] == '\n';
    assert s[i + 4..] == [s[i + 4]] + s[p..];
    TakeWhileStops(s[p..], IsJsSpace);
  }

  lemma {:induction false} NoTicksBefore(s: string, i: nat, j: nat)
    requires i <= j && TicksAt(s, j)
    requires forall k :: i <= k < j ==> !TicksAt(s, k)
    ensures FindTicks(s, i) == Some(j)
    decreases j - i
  {
    if i < j {
      NoTicksBefore(s, i + 1, j);
    }
  }

  lemma TakeWhileStops(s: string, p: char -> bool)
    requires s == [] || !p(s[0])
    ensures TakeWhile(s, p) == []
  {
  }

  /** Text before the first `{` and after the last `}` is cut away. */
  lemma BraceRoundTrip(pre: string, body: string, post: string)
    requires '{' !in pre && '}' !in post
    requires |body| >= 2 && body[0] == '{' && body[|body| - 1] == '}'
    ensures BraceSlice(pre + body + post) == Some(body)
  {
    var s := pre + body + post;
    var a := |pre|;
    var z := |pre| + |body| - 1;
    assert s[a] == '{' && s[z] == '}';
    forall k | 0 <= k < a ensures s[k] != '{' {
      assert s[k] == pre[k];
    }
    FirstIndexOfAt(s, '{', 0, a);
    forall k | z < k < |s| ensures s[k] != '}' {
      assert s[k] == post[k - z - 1];
    }
    LastIndexOfAt(s, '}', |s|, z);
    assert s[a..z + 1] == body;
  }

  lemma {:induction false} FirstIndexOfAt(s: string, c: char, i: nat, j: nat)
    requires i <= j < |s| && s[j] == c
    requires forall k :: i <= k < j ==> s[k] != c
    ensures FirstIndexOf(s, c, i) == Some(j)
    decreases j - i
  {
    if i < j {
      FirstIndexOfAt(s, c, i + 1, j);
    }
  }

  lemma {:induction false} LastIndexOfAt(s: string, c: char, n: nat, j: nat)
    requires j < n <= |s| && s[j] == c
    requires forall k :: j < k < n ==> s[k] != c
    ensures LastIndexOf(s, c, n) == Some(j)
    decreases n
  {
    if j < n - 1 {
      LastIndexOfAt(s, c, n - 1, j);
    }
  }

  // ---------------------------------------------------------------------
  // Normalising the questions in generateQuiz

  /** A question as the popup keeps it. */
  datatype Question = Question(text: string, options: seq<string>, answer: int, explanation: string)

  /** What the popup makes of a parsed reply: no quiz ("Couldn't parse a
      quiz"), a `TypeError` thrown while normalising (caught and shown as an
      error), or the normalised questions. */
  datatype QuizOutcome = NoQuiz | Failed | Ready(questions: seq<Question>)

  /** `data?.questions`, with `None` for `undefined`. */
  function QuestionsOf(data: Option<Json>): Option<Json> {
    if data.Some? then Prop(data.value, "questions") else None
  }

  /** `!!(x?.length)` */
  predicate HasLength(x: Option<Json>) {
    match x
    case None => false
    case Some(v) =>
      match v
      case JStr(s) => s != []
      case JArr(items) => items != []
      case JObj(f) => "length" in f && Truthy(f["length"])
      case _ => false
  }

  /** `Number.isInteger` on a finite number. */
  predicate IsInteger(x: real) { x == x.Floor as real }

  /** `Number.isInteger(a) ? Math.max(0, Math.min(3, a)) : 0` */
  function NormalizeAnswer(a: Option<Json>): int {
    if a.Some? && a.value.JNum? && IsInteger(a.value.value) then Max(0, Min(3, a.value.value.Floor)) else 0
  }

  /** An answer ends up in 0..3; an integer already in range is kept, one
      outside is clamped to the nearer end, and anything else becomes 0. */
  lemma NormalizeAnswerSpec(a: Option<Json>)
    ensures 0 <= NormalizeAnswer(a) <= 3
    ensures a.Some? && a.value.JNum? && IsInteger(a.value.value) ==>
      var n := a.value.value.Floor;
      NormalizeAnswer(a) == (if n < 0 then 0 else if n > 3 then 3 else n)
    ensures !(a.Some? && a.value.JNum? && IsInteger(a.value.value)) ==> NormalizeAnswer(a) == 0
  {
  }

  /** `q.options.slice(0, 4).map(o => String(o || "").trim())`, `None` where
      a conversion throws. */
  function OptionTexts(items: seq<Json>): (r: Option<seq<string>>)
    ensures r.None? <==> exists i :: 0 <= i < Min(4, |items|) && Throws(items[i])
    ensures r.Some? ==> |r.value| == Min(4, |items|)
  {
    var head := items[..Min(4, |items|)];
    if exists i :: 0 <= i < |head| && Str(Some(head[i])).None? then
      assert exists i :: 0 <= i < Min(4, |items|) && Throws(items[i]) by {
        var i :| 0 <= i < |head| && Str(Some(head[i])).None?;
        assert items[i] == head[i];
      }
      None
    else
      assert forall i :: 0 <= i < Min(4, |items|) ==> !Throws(items[i]) by {
        forall i | 0 <= i < Min(4, |items|) ensures !Throws(items[i]) {
          assert items[i] == head[i] && Str(Some(head[i])).Some?;
        }
      }
      Some(seq(|head|, i requires 0 <= i < |head| => Trim(Str(Some(head[i])).value)))
  }

  /** `String(v.key || "")` throws. */
  predicate PropThrows(v: Json, key: string) {
    Prop(v, key).Some? && Throws(Prop(v, key).value)
  }

  /** One of the first four of `v.options` fails to convert. */
  predicate OptionsThrow(v: Json) {
    Prop(v, "options").Some? && Prop(v, "options").value.JArr?
    && exists i :: 0 <= i < Min(4, |Prop(v, "options").value.items|) && Throws(Prop(v, "options").value.items[i])
  }

  /** Building the object literal for `v` throws: `null` has no properties,
      and the text, one of the first four options or the explanation may
      fail to convert. */
  predicate QuestionThrows(v: Json) {
    v.JNull? || PropThrows(v, "q") || OptionsThrow(v) || PropThrows(v, "explanation")
  }

  /** `String(v.key || "").trim()` */
  function TextField(v: Json, key: string): (r: Option<string>)
    ensures r.None? <==> PropThrows(v, key)
    ensures r.Some? ==> Trimmed(r.value)
    ensures Prop(v, key).Some? && Prop(v, key).value.JStr? ==> r == Some(Trim(Prop(v, key).value.s))
    ensures Prop(v, key).None? ==> r == Some("")
  {
    var x := Str(Prop(v, key));
    if x.None? then None
    else
      TrimSpec(x.value);
      Some(Trim(x.value))
  }

  /** `Array.isArray(q.options) ? q.options.slice(0, 4).map(...) : []` */
  function OptionsField(v: Json): (r: Option<seq<string>>)
    ensures r.None? <==> OptionsThrow(v)
    ensures r.Some? ==> |r.value| <= 4 && forall i :: 0 <= i < |r.value| ==> Trimmed(r.value[i])
    ensures Prop(v, "options").Some? && Prop(v, "options").value.JArr? ==> r == OptionTexts(Prop(v, "options").value.items)
  {
    var opts := Prop(v, "options");
    if opts.Some? && opts.value.JArr? then
      OptionTextsTrimmed(opts.value.items);
      OptionTexts(opts.value.items)
    else Some([])
  }

  /** The object literal built for one question, `None` where building it
      throws. */
  function NormalizeQuestion(v: Json): Option<Question> {
    var text := TextField(v, "q");
    var options := OptionsField(v);
    var expl := TextField(v, "explanation");
    if v.JNull? || text.None? || options.None? || expl.None? then None
    else Some(Question(text.value, options.value, NormalizeAnswer(Prop(v, "answer")), expl.value))
  }

  /** `.map(q => ({ ... }))` over questions none of which throws. */
  function NormalizeAll(vs: seq<Json>): (r: seq<Question>)
    requires forall i :: 0 <= i < |vs| ==> NormalizeQuestion(vs[i]).Some?
    ensures |r| == |vs|
    ensures forall i :: 0 <= i < |vs| ==> NormalizeQuestion(vs[i]) == Some(r[i])
  {
    seq(|vs|, i requires 0 <= i < |vs| => NormalizeQuestion(vs[i]).value)
  }

  /** The filter `q.q && q.options.length === 4`. */
  predicate Keep(q: Question) { q.text != [] && |q.options| == 4 }

  function Retain(qs: seq<Question>): seq<Question> {
    if qs == [] then [] else (if Keep(qs[0]) then [qs[0]] else []) + Retain(qs[1..])
  }

  /** What a normalised question looks like. */
  predicate Normalized(q: Question) {
    && Trimmed(q.text)
    && |q.options| <= 4 && (forall i :: 0 <= i < |q.options| ==> Trimmed(q.options[i]))
    && 0 <= q.answer <= 3
    && Trimmed(q.explanation)
  }

  /** What a kept question looks like. */
  predicate WellFormed(q: Question) {
    Normalized(q) && q.text != [] && |q.options| == 4
  }

  /** The normalisation of lines 261-275: a missing or empty `questions`
      gives no quiz; a non-array `questions` with a length, or one of the
      first four whose object literal throws, makes the `map` throw;
      otherwise the first four are normalised and filtered. */
  function NormalizeQuiz(data: Option<Json>): QuizOutcome {
    var qv := QuestionsOf(data);
    if !HasLength(qv) then NoQuiz
    else if !qv.value.JArr? then Failed
    else
      var items := qv.value.items;
      var head := items[..Min(4, |items|)];
      if exists i :: 0 <= i < |head| && NormalizeQuestion(head[i]).None? then Failed
      else Ready(Retain(NormalizeAll(head)))
  }

  /** A question's object literal throws exactly in the cases QuestionThrows
      lists; otherwise every field is trimmed, at most four options are kept,
      and the answer is in 0..3. */
  lemma NormalizeQuestionSpec(v: Json)
    ensures NormalizeQuestion(v).None? <==> QuestionThrows(v)
    ensures NormalizeQuestion(v).Some? ==> Normalized(NormalizeQuestion(v).value)
  {
    NormalizeAnswerSpec(Prop(v, "answer"));
  }

  lemma OptionTextsTrimmed(items: seq<Json>)
    ensures OptionTexts(items).Some? ==>
      forall i :: 0 <= i < |OptionTexts(items).value| ==> Trimmed(OptionTexts(items).value[i])
  {
    if OptionTexts(items).Some? {
      var head := items[..Min(4, |items|)];
      forall i | 0 <= i < |head| ensures Trimmed(OptionTexts(items).value[i]) {
        TrimSpec(Str(Some(head[i])).value);
      }
    }
  }

  /** The filter keeps the input order: it distributes over concatenation. */
  lemma {:induction false} RetainAppend(a: seq<Question>, b: seq<Question>)
    ensures Retain(a + b) == Retain(a) + Retain(b)
  {
    if a != [] {
      assert (a + b)[0] == a[0] && (a + b)[1..] == a[1..] + b;
      RetainAppend(a[1..], b);
    } else {
      assert a + b == b;
    }
  }

  /** The filter keeps exactly the questions that pass it, and nothing
      more. */
  lemma {:induction false} RetainMembers(qs: seq<Question>)
    ensures |Retain(qs)| <= |qs|
    ensures forall q :: q in Retain(qs) <==> q in qs && Keep(q)
    ensures (forall i :: 0 <= i < |qs| ==> Keep(qs[i])) ==> Retain(qs) == qs
  {
    if qs != [] {
      RetainMembers(qs[1..]);
      assert qs == [qs[0]] + qs[1..];
      if forall i :: 0 <= i < |qs| ==> Keep(qs[i]) {
        assert forall i :: 0 <= i < |qs[1..]| ==> Keep(qs[1..][i]) by {
          forall i | 0 <= i < |qs[1..]| ensures Keep(qs[1..][i]) {
            assert qs[1..][i] == qs[i + 1];
          }
        }
      }
    }
  }

  /** No quiz exactly when `questions` is missing or empty; a `TypeError`
      exactly when `questions` is not an array, or one of its first four
      throws; otherwise at most four questions, no more than the reply
      offers, each well formed, a question being in it exactly when it is
      the normalisation of one of the first four offered and passes the
      filter. */
  lemma NormalizeQuizSpec(data: Option<Json>)
    ensures NormalizeQuiz(data) == NoQuiz <==> !HasLength(QuestionsOf(data))
    ensures NormalizeQuiz(data) == Failed <==>
      && HasLength(QuestionsOf(data))
      && (!QuestionsOf(data).value.JArr?
          || exists j :: 0 <= j < Min(4, |QuestionsOf(data).value.items|) && QuestionThrows(QuestionsOf(data).value.items[j]))
    ensures NormalizeQuiz(data).Ready? ==>
      && QuestionsOf(data).Some? && QuestionsOf(data).value.JArr?
      && |NormalizeQuiz(data).questions| <= Min(4, |QuestionsOf(data).value.items|)
      && (forall i :: 0 <= i < |NormalizeQuiz(data).questions| ==> WellFormed(NormalizeQuiz(data).questions[i]))
      && (forall q :: q in NormalizeQuiz(data).questions <==>
            exists j :: 0 <= j < Min(4, |QuestionsOf(data).value.items|)
              && NormalizeQuestion(QuestionsOf(data).value.items[j]) == Some(q) && Keep(q))
  {
    var qv := QuestionsOf(data);
    if HasLength(qv) && qv.value.JArr? {
      var items := qv.value.items;
      var head := items[..Min(4, |items|)];
      forall j | 0 <= j < |head| ensures head[j] == items[j] && (NormalizeQuestion(head[j]).None? <==> QuestionThrows(items[j])) {
        NormalizeQuestionSpec(items[j]);
      }
      if NormalizeQuiz(data).Ready? {
        assert NormalizeQuiz(data).questions == Retain(NormalizeAll(head));
        ReadyFrom(items);
      }
    }
  }

  /** The same, for the questions offered in `items`. */
  lemma ReadyFrom(items: seq<Json>)
    requires forall i :: 0 <= i < Min(4, |items|) ==> NormalizeQuestion(items[i]).Some?
    ensures var head := items[..Min(4, |items|)];
      && (forall i :: 0 <= i < |head| ==> NormalizeQuestion(head[i]).Some?)
      && |Retain(NormalizeAll(head))| <= Min(4, |items|)
      && (forall i :: 0 <= i < |Retain(NormalizeAll(head))| ==> WellFormed(Retain(NormalizeAll(head))[i]))
      && (forall q :: q in Retain(NormalizeAll(head)) <==>
            exists j :: 0 <= j < Min(4, |items|) && NormalizeQuestion(items[j]) == Some(q) && Keep(q))
  {
    var n := Min(4, |items|);
    var head := items[..n];
    forall i | 0 <= i < n ensures head[i] == items[i] {
    }
    var r := ReadyHead(head);
    forall q | q in r ensures exists j :: 0 <= j < n && NormalizeQuestion(items[j]) == Some(q) && Keep(q) {
      var j :| 0 <= j < |head| && NormalizeQuestion(head[j]) == Some(q) && Keep(q);
      assert head[j] == items[j];
    }
    forall q | exists j :: 0 <= j < n && NormalizeQuestion(items[j]) == Some(q) && Keep(q) ensures q in r {
      var j :| 0 <= j < n && NormalizeQuestion(items[j]) == Some(q) && Keep(q);
      assert head[j] == items[j];
    }
  }

  /** The filtered normalisation of questions none of which throws: no
      longer than they are, every kept question well formed, and a question
      kept exactly when it normalises one of them and passes the filter. */
  lemma ReadyHead(head: seq<Json>) returns (r: seq<Question>)
    requires forall i :: 0 <= i < |head| ==> NormalizeQuestion(head[i]).Some?
    ensures r == Retain(NormalizeAll(head))
    ensures |r| <= |head|
    ensures forall i :: 0 <= i < |r| ==> WellFormed(r[i])
    ensures forall q :: q in r <==> exists j :: 0 <= j < |head| && NormalizeQuestion(head[j]) == Some(q) && Keep(q)
  {
    var all := NormalizeAll(head);
    r := Retain(all);
    RetainMembers(all);
    forall i | 0 <= i < |all| ensures Keep(all[i]) ==> WellFormed(all[i]) {
      NormalizeQuestionSpec(head[i]);
    }
    RetainWellFormed(all);
    MapMembers(head, |head|, all, NormalizeQuestion);
  }

  lemma RetainWellFormed(all: seq<Question>)
    requires forall i :: 0 <= i < |all| ==> (Keep(all[i]) ==> WellFormed(all[i]))
    ensures forall i :: 0 <= i < |Retain(all)| ==> WellFormed(Retain(all)[i])
  {
    RetainMembers(all);
    forall i | 0 <= i < |Retain(all)| ensures WellFormed(Retain(all)[i]) {
      var q := Retain(all)[i];
      assert q in Retain(all);
      var j :| 0 <= j < |all| && all[j] == q;
    }
  }

  /** `ys` is what `f` gives for the first `n` of `xs`; `f` is a parameter
      so that its body stays out of the proof. */
  lemma MapMembers<A, B>(xs: seq<A>, n: nat, ys: seq<B>, f: A -> Option<B>)
    requires n <= |xs| && |ys| == n
    requires forall i :: 0 <= i < n ==> f(xs[i]) == Some(ys[i])
    ensures forall y :: y in ys <==> exists j :: 0 <= j < n && f(xs[j]) == Some(y)
  {
  }

  /** `v` is the schema's encoding of `q`. */
  predicate Encodes(v: Json, q: Question) {
    && v.JObj?
    && Prop(v, "q") == Some(JStr(q.text))
    && Prop(v, "options").Some? && Prop(v, "options").value.JArr?
    && |Prop(v, "options").value.items| == |q.options|
    && (forall i :: 0 <= i < |q.options| ==> Prop(v, "options").value.items[i] == JStr(q.options[i]))
    && Prop(v, "answer").Some? && Prop(v, "answer").value.JNum?
    && Prop(v, "answer").value.value == q.answer as real
    && (Prop(v, "explanation") == Some(JStr(q.explanation)) || (Prop(v, "explanation").None? && q.explanation == []))
  }

  /** A question the schema allows comes through the normalisation
      unchanged. */
  lemma EncodedQuestion(v: Json, q: Question)
    requires WellFormed(q) && Encodes(v, q)
    ensures NormalizeQuestion(v) == Some(q)
  {
    EncodedText(v, "q", q.text);
    EncodedText(v, "explanation", q.explanation);
    EncodedOptions(Prop(v, "options").value.items, q.options);
    assert OptionsField(v) == Some(q.options);
    EncodedAnswer(Prop(v, "answer"), q.answer);
  }

  lemma EncodedText(v: Json, key: string, t: string)
    requires Prop(v, key) == Some(JStr(t)) || (Prop(v, key).None? && t == [])
    requires Trimmed(t)
    ensures TextField(v, key) == Some(t)
  {
    TrimFixed(t);
  }

  lemma EncodedAnswer(x: Option<Json>, a: int)
    requires x.Some? && x.value.JNum? && x.value.value == a as real && 0 <= a <= 3
    ensures NormalizeAnswer(x) == a
  {
    assert (a as real).Floor == a;
  }

  lemma EncodedOptions(items: seq<Json>, opts: seq<string>)
    requires |items| == |opts| == 4
    requires forall i :: 0 <= i < 4 ==> items[i] == JStr(opts[i]) && Trimmed(opts[i])
    ensures OptionTexts(items) == Some(opts)
  {
    assert items[..Min(4, |items|)] == items;
    forall i | 0 <= i < 4 ensures Str(Some(items[i])) == Some(opts[i]) && Trim(opts[i]) == opts[i] {
      TrimFixed(opts[i]);
    }
    assert OptionTexts(items).Some?;
    var r := OptionTexts(items).value;
    assert |r| == 4;
    forall i | 0 <= i < 4 ensures r[i] == opts[i] {
    }
    assert r == opts;
  }

  /** A reply that follows the schema, with one to four well-formed
      questions, gives exactly those questions. */
  lemma EncodedQuiz(data: Json, qs: seq<Question>)
    requires 1 <= |qs| <= 4 && forall i :: 0 <= i < |qs| ==> WellFormed(qs[i])
    requires Prop(data, "questions").Some? && Prop(data, "questions").value.JArr?
    requires var vs := Prop(data, "questions").value.items;
      |vs| == |qs| && forall i :: 0 <= i < |qs| ==> Encodes(vs[i], qs[i])
    ensures NormalizeQuiz(Some(data)) == Ready(qs)
  {
    var vs := Prop(data, "questions").value.items;
    assert HasLength(QuestionsOf(Some(data)));
    assert vs[..Min(4, |vs|)] == vs;
    forall i | 0 <= i < |vs| ensures NormalizeQuestion(vs[i]) == Some(qs[i]) {
      EncodedQuestion(vs[i], qs[i]);
    }
    assert NormalizeAll(vs) == qs;
    assert Retain(qs) == qs by {
      RetainMembers(qs);
    }
  }

  /** A question whose text is an object with its own `toString` makes the
      normalisation throw, so the popup keeps its old quiz. */
  lemma ToStringKeyThrows()
    ensures var q := JObj(map["q" := JObj(map["toString" := JNum(1.0, "1")]),
                              "options" := JArr([JStr("a"), JStr("b"), JStr("c"), JStr("d")]),
                              "answer" := JNum(0.0, "0")]);
      NormalizeQuiz(Some(JObj(map["questions" := JArr([q])]))) == Failed
  {
    var q := JObj(map["q" := JObj(map["toString" := JNum(1.0, "1")]),
                      "options" := JArr([JStr("a"), JStr("b"), JStr("c"), JStr("d")]),
                      "answer" := JNum(0.0, "0")]);
    var data := JObj(map["questions" := JArr([q])]);
    assert Prop(q, "q") == Some(JObj(map["toString" := JNum(1.0, "1")]));
    assert Str(Prop(q, "q")).None?;
    assert HasLength(QuestionsOf(Some(data)));
    assert [q][..Min(4, 1)] == [q];
  }

  // ---------------------------------------------------------------------
  // The URL gate of extractFromPage

  /** How `extractFromPage` and its caller end: the origin tab is missing, the
      scheme is restricted, the file page cannot take the content script,
      the URL is not supported, the content script cannot be injected into a
      web page, or the page text is requested. */
  datatype Gate = NoTab | Restricted | FileBlocked | Unsupported | InjectFailed | Extract

  const RestrictedSchemes: seq<string> := ["chrome://", "edge://", "about:", "chrome-extension://", "chromewebstore://"]

  predicate IsRestricted(url: string) {
    exists i :: 0 <= i < |RestrictedSchemes| && StartsWith(url, RestrictedSchemes[i])
  }

  /** `/^https?:\/\//` */
  predicate IsWebUrl(url: string) {
    StartsWith(url, "http://") || StartsWith(url, "https://")
  }

  /** The gate for the origin tab's URL; `injected` says whether
      `ensureContentScript` succeeds. */
  function GateOf(hasTab: bool, url: string, injected: bool): (r: Gate)
    ensures r == Restricted <==> hasTab && IsRestricted(url)
    ensures r == Extract ==> injected && !IsRestricted(url) && (StartsWith(url, "file://") || IsWebUrl(url))
    ensures r == Unsupported <==> hasTab && !IsRestricted(url) && !StartsWith(url, "file://") && !IsWebUrl(url)
  {
    if !hasTab then NoTab
    else if StartsWith(url, "chrome://") || StartsWith(url, "edge://") || StartsWith(url, "about:")
         || StartsWith(url, "chrome-extension://") || StartsWith(url, "chromewebstore://") then
      assert IsRestricted(url) by {
        if StartsWith(url, RestrictedSchemes[0]) { } else if StartsWith(url, RestrictedSchemes[1]) { }
        else if StartsWith(url, RestrictedSchemes[2]) { } else if StartsWith(url, RestrictedSchemes[3]) { }
        else { assert StartsWith(url, RestrictedSchemes[4]); }
      }
      Restricted
    else
      assert !IsRestricted(url);
      if StartsWith(url, "file://") then (if injected then Extract else FileBlocked)
      else if IsWebUrl(url) then (if injected then Extract else InjectFailed)
      else Unsupported
  }

  /** The errors after which the popup switches to custom input: a
      restricted scheme, a blocked file page, an unsupported URL or a
      missing origin tab; a failed injection into a web page is reported as
      a plain error instead. */
  predicate SwitchesToCustom(g: Gate) {
    g == NoTab || g == Restricted || g == FileBlocked || g == Unsupported
  }

  /** A page never reaches extraction when its scheme is restricted or
      unsupported, whether or not injection would succeed; every URL that
      neither extracts nor fails injection sends the user to custom input. */
  lemma GateSpec(hasTab: bool, url: string, injected: bool)
    ensures IsRestricted(url) ==> GateOf(hasTab, url, injected) != Extract
    ensures (hasTab && injected && !IsRestricted(url) && (StartsWith(url, "file://") || IsWebUrl(url)))
      <==> GateOf(hasTab, url, injected) == Extract
    ensures GateOf(hasTab, url, injected) != Extract && GateOf(hasTab, url, injected) != InjectFailed
      ==> SwitchesToCustom(GateOf(hasTab, url, injected))
  {
  }

  // ---------------------------------------------------------------------
  // The popup's state: QUIZ, SCORE and the answered cards

  /** The total shown after "Score: n /": `Math.min(4, length || 0) || 4`. */
  function TotalOf(quiz: Option<seq<Question>>): (t: nat)
    ensures 1 <= t <= 4
    ensures quiz.Some? && 1 <= |quiz.value| <= 4 ==> t == |quiz.value|
    ensures quiz.Some? && |quiz.value| > 4 ==> t == 4
    ensures quiz.None? || quiz.value == [] ==> t == 4
  {
    var n := if quiz.Some? then Min(4, |quiz.value|) else 0;
    if n == 0 then 4 else n
  }

  class QuizPopup {
    /** `QUIZ`'s questions; `None` while `QUIZ` is `null`. */
    var quiz: Option<seq<Question>>
    /** `SCORE` */
    var score: nat
    /** The cards on screen that already show a correct or wrong mark. */
    var answered: set<nat>
    /** Whether the cards of `quiz` are on screen. */
    var shown: bool

    ghost predicate Valid()
      reads this
    {
      && (quiz.Some? ==> |quiz.value| <= 4 && forall i :: 0 <= i < |quiz.value| ==> WellFormed(quiz.value[i]))
      && (forall i :: i in answered ==> shown && quiz.Some? && i < |quiz.value|)
      && score <= |answered|
    }

    /** `let QUIZ = null; let SCORE = 0;` */
    constructor()
      ensures Valid()
      ensures quiz == None && score == 0 && answered == {} && !shown
    {
      quiz := None;
      score := 0;
      answered := {};
      shown := false;
    }

    /** `generateQuiz`. `reply` is the model's raw answer, or `None` on every
        path that ends before one (no model, a gated or empty page, a time-out,
        a thrown error). The score is cleared at once and the old cards are
        replaced; `QUIZ` changes only when the reply normalises to a quiz. */
    method Generate(reply: Option<string>, parse: string -> Option<Json>)
      requires Valid()
      modifies this
      ensures Valid()
      ensures score == 0 && answered == {}
      ensures var outcome := if reply.Some? then NormalizeQuiz(SafeParse(reply.value, parse)) else NoQuiz;
        && quiz == (if outcome.Ready? then Some(outcome.questions) else old(quiz))
        && shown == (outcome.Ready? && outcome.questions != [])
    {
      score := 0;
      answered := {};
      shown := false;
      if reply.Some? {
        var data := SafeParse(reply.value, parse);
        var outcome := NormalizeQuiz(data);
        if outcome.Ready? {
          NormalizeQuizSpec(data);
          quiz := Some(outcome.questions);
          score := 0;
          shown := outcome.questions != [];
        }
      }
    }

    /** `resetQuiz` */
    method Reset()
      requires Valid()
      modifies this
      ensures Valid()
      ensures quiz == None && score == 0 && answered == {} && !shown
    {
      quiz := None;
      score := 0;
      answered := {};
      shown := false;
    }

    /** `onChoiceClick` on option `oi` of question `qi`: ignored when the
        question does not exist or its card is already marked; otherwise the
        card is marked and the score rises by one exactly when the choice is
        the answer. */
    method Click(qi: nat, oi: nat)
      requires Valid()
      modifies this
      ensures Valid()
      ensures quiz == old(quiz) && shown == old(shown)
      ensures var isNew := old(shown) && old(quiz).Some? && qi < |old(quiz).value| && qi !in old(answered);
        && answered == (if isNew then old(answered) + {qi} else old(answered))
        && score == (if isNew && oi == old(quiz).value[qi].answer then old(score) + 1 else old(score))
    {
      if !shown || quiz.None? || qi >= |quiz.value| {
        return;
      }
      if qi in answered {
        return;
      }
      answered := answered + {qi};
      if oi == quiz.value[qi].answer {
        score := score + 1;
      }
    }

    /** `updateScore`'s total. */
    function Total(): (t: nat)
      reads this
      ensures 1 <= t <= 4
    {
      TotalOf(quiz)
    }
  }

  /** The score never exceeds the number of answered questions, which never
      exceeds the number of questions, which is at most four. */
  lemma ScoreBound(p: QuizPopup)
    requires p.Valid()
    ensures p.score <= |p.answered|
    ensures p.quiz.Some? ==> |p.answered| <= |p.quiz.value| <= 4
    ensures p.quiz.None? ==> p.answered == {} && p.score == 0
  {
    if p.quiz.Some? {
      BoundedCard(p.answered, |p.quiz.value|);
    } else {
      assert forall i :: i !in p.answered;
    }
  }

  lemma {:induction false} BoundedCard(s: set<nat>, n: nat)
    requires forall i :: i in s ==> i < n
    ensures |s| <= n
    decreases n
  {
    if n > 0 {
      BoundedCard(s - {n - 1}, n - 1);
    } else {
      assert s == {};
    }
  }
}
