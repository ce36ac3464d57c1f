/**
 The regular expression `(?m)^(\s+type:\s*)(.+)$` and its replace-all, as Go's regexp engine
 runs them: leftmost match first, greedy, `\s` crossing line ends, `.` stopping at a line feed.
 */
module TypePattern {
  import opened Text

  /** The class `\s`: five ASCII characters, line feed among them. */
  predicate IsSpace(c: char) {
    c == ' ' || c == '\t' || c == '\n' || c == '\r' || c == '\U{C}'
  }

  /** The first position of `t`, from `from` on, that is not `\s`. */
  function SpaceEnd(t: string, from: nat): (e: nat)
    requires from <= |t|
    ensures from <= e <= |t| && (e < |t| ==> !IsSpace(t[e]))
    ensures forall k :: from <= k < e ==> IsSpace(t[k])
    decreases |t| - from
  {
    if from == |t| || !IsSpace(t[from]) then from else SpaceEnd(t, from + 1)
  }

  lemma SpaceEndIs(t: string, from: nat, e: nat)
    requires from <= e <= |t| && (e < |t| ==> !IsSpace(t[e]))
    requires forall k :: from <= k < e ==> IsSpace(t[k])
    ensures SpaceEnd(t, from) == e
    decreases e - from
  {
    if from < e {
      SpaceEndIs(t, from + 1, e);
    }
  }

  /** The last position of `t[from..until]` that is not a line feed, or -1. */
  function LastVisible(t: string, from: nat, until: nat): (g: int)
    requires from <= until <= |t|
    ensures g == -1 || (from <= g < until && t[g] != '\n')
    ensures forall k :: from <= k < until && k > g ==> t[k] == '\n'
    decreases until
  {
    if from == until then -1
    else if t[until - 1] != '\n' then until - 1
    else LastVisible(t, from, until - 1)
  }

  /** The five characters `type:` stand at `w`. */
  predicate KeyAt(t: string, w: nat) {
    w + 5 <= |t| && t[w] == 't' && t[w + 1] == 'y' && t[w + 2] == 'p' && t[w + 3] == 'e' && t[w + 4] == ':'
  }

  /** `t` starts with `type:`, after any amount of white space. */
  predicate KeyFirst(t: string) {
    KeyAt(t, SpaceEnd(t, 0))
  }

  /** `t` starts with some white space and `type:`. */
  predicate KeyAtStart(t: string) {
    SpaceEnd(t, 0) > 0 && KeyFirst(t)
  }

  /** Where white space after the key ends. */
  function ValueStart(t: string): (q: nat)
    requires KeyAtStart(t)
    ensures q <= |t|
  {
    SpaceEnd(t, SpaceEnd(t, 0) + 5)
  }

  /** A match at the start of `t`: its first group is `t[..value]`, its second `t[value..end]`. */
  datatype Match = NoMatch | Match(value: nat, end: nat)

  /**
   The match that begins where `t` begins, `t` being the text from some line start on.
   White space after the key is taken as far as it goes; when nothing follows it, the engine
   gives back just enough to leave one character that is not a line feed.
   */
  function MatchAtStart(t: string): (m: Match)
    ensures m.Match? ==> m.value < m.end <= |t|
  {
    if !KeyAtStart(t) then NoMatch
    else
      var q := ValueStart(t);
      if q < |t| then Match(q, LineEnd(t, q))
      else
        var g := LastVisible(t, SpaceEnd(t, 0) + 5, |t|);
        if g < 0 then NoMatch else Match(g, g + 1)
  }

  /** What the two groups hold: white space, the key and white space; then one line's text. */
  lemma MatchShape(t: string)
    requires MatchAtStart(t).Match?
    ensures var Match(value, end) := MatchAtStart(t);
            && KeyAtStart(t) && SpaceEnd(t, 0) + 5 <= value
            && (forall k :: SpaceEnd(t, 0) + 5 <= k < value ==> IsSpace(t[k]))
            && (forall k :: value <= k < end ==> t[k] != '\n')
            && (end < |t| ==> t[end] == '\n')
  {
  }

  /** A way to match the expression at the start of `t`: the key at `w`, the groups up to `value` and `end`. */
  ghost predicate Decomposes(t: string, w: nat, value: nat, end: nat) {
    && 0 < w && KeyAt(t, w) && w + 5 <= value < end <= |t|
    && (forall k | 0 <= k < w :: IsSpace(t[k])) && (forall k | w + 5 <= k < value :: IsSpace(t[k]))
    && (forall k | value <= k < end :: t[k] != '\n') && (end < |t| ==> t[end] == '\n')
  }

  lemma SpacesReach(t: string, from: nat, value: nat)
    ensures from <= value <= |t| && (forall k | from <= k < value :: IsSpace(t[k])) ==> value <= SpaceEnd(t, from)
  {
    hide SpaceEnd, IsSpace;
  }

  lemma DecomposedAt(t: string, w: nat, value: nat, end: nat)
    requires Decomposes(t, w, value, end)
    ensures KeyAtStart(t) && SpaceEnd(t, 0) == w && value <= ValueStart(t)
    ensures MatchAtStart(t).Match? && value <= MatchAtStart(t).value
  {
    SpaceEndIs(t, 0, w);
    SpacesReach(t, w + 5, value);
    hide SpaceEnd;
    assert t[value] != '\n';
    assert ValueStart(t) == |t| ==> LastVisible(t, w + 5, |t|) >= value;
  }

  /** The engine finds a match exactly if there is one, and of several the one whose first group reaches furthest. */
  lemma MatchIsGreedy(t: string)
    ensures MatchAtStart(t).Match? <==> exists w: nat, value: nat, end: nat :: Decomposes(t, w, value, end)
    ensures MatchAtStart(t).Match? ==>
              var Match(value, end) := MatchAtStart(t);
              && Decomposes(t, SpaceEnd(t, 0), value, end)
              && forall w': nat, value': nat, end': nat | Decomposes(t, w', value', end') :: value' <= value
  {
    hide MatchAtStart, SpaceEnd;
    if MatchAtStart(t).Match? {
      MatchShape(t);
      assert Decomposes(t, SpaceEnd(t, 0), MatchAtStart(t).value, MatchAtStart(t).end);
    }
    forall w: nat, value: nat, end: nat | Decomposes(t, w, value, end)
      ensures MatchAtStart(t).Match? && value <= MatchAtStart(t).value
    {
      DecomposedAt(t, w, value, end);
    }
  }

  /** Where the line that ends `t`'s first match, or else `t`'s first line, ends. */
  function StepEnd(t: string): (end: nat)
    ensures end <= |t|
    ensures end < |t| ==> t[end] == '\n'
  {
    var m := MatchAtStart(t);
    if m.Match? then MatchShape(t); m.end else LineEnd(t, 0)
  }

  /** `t[..StepEnd(t)]` with its value replaced, if it has one. */
  function StepText(t: string, replacement: string): string {
    var m := MatchAtStart(t);
    if m.Match? then t[..m.value] + replacement else t[..LineEnd(t, 0)]
  }

  /**
   `ReplaceAllStringFunc` with the callback "first group, then `replacement`", over a text that
   begins at a line start. A match ends at a line end, so the next one can only begin after the
   line feed that follows; without a match the next candidate is the next line.
   */
  function ReplaceAll(t: string, replacement: string): string
    decreases |t|
  {
    var end := StepEnd(t);
    if end == |t| then StepText(t, replacement)
    else StepText(t, replacement) + "\n" + ReplaceAll(t[end + 1..], replacement)
  }

  /**
   The callback matches the matched text again, on its own, to find the first group
   (draft_merge.go, lines 49-55). It always succeeds and finds the same group.
   */
  lemma CallbackFindsSameGroup(t: string)
    requires MatchAtStart(t).Match?
    ensures MatchAtStart(t[..MatchAtStart(t).end]) == MatchAtStart(t)
  {
    MatchShape(t);
    hide IsSpace;
    var Match(value, end) := MatchAtStart(t);
    var m, w := t[..end], SpaceEnd(t, 0);
    SpaceEndIs(m, 0, w);
    if ValueStart(t) < |t| {
      SpaceEndIs(m, w + 5, value);
      LineEndIs(m, value, end);
    } else {
      SpaceEndIs(m, w + 5, end);
    }
  }

  /** A replacement on one line that starts with a visible character. */
  predicate PlainValue(value: string) {
    value != "" && !IsSpace(value[0]) && OneLine(value)
  }

  predicate OneLine(s: string) {
    forall k :: 0 <= k < |s| ==> s[k] != '\n'
  }

  /** The match at the start of `t`, if any, has the value `replacement`. */
  predicate FirstValueIs(t: string, replacement: string) {
    var m := MatchAtStart(t);
    m.Match? ==> t[m.value..m.end] == replacement
  }

  /** Every match in `t` already has the value `replacement`. */
  predicate AllValuesAre(t: string, replacement: string)
    decreases |t|
  {
    FirstValueIs(t, replacement)
    && (StepEnd(t) == |t| || AllValuesAre(t[StepEnd(t) + 1..], replacement))
  }

  /** Replacing changes nothing exactly when every value is the replacement already. */
  lemma {:induction false} ReplaceFixesExactly(t: string, r: string)
    requires OneLine(r)
    ensures ReplaceAll(t, r) == t <==> AllValuesAre(t, r)
    decreases |t|
  {
    hide StepEnd, StepText, FirstValueIs;
    if StepEnd(t) == |t| {
      StepFixesLast(t, r);
    } else {
      ReplaceFixesExactly(t[StepEnd(t) + 1..], r);
      StepFixes(t, r, ReplaceAll(t[StepEnd(t) + 1..], r));
    }
  }

  lemma StepFixesLast(t: string, r: string)
    requires StepEnd(t) == |t|
    ensures StepText(t, r) == t <==> FirstValueIs(t, r)
  {
    hide MatchAtStart;
    if MatchAtStart(t).Match? {
      var value := MatchAtStart(t).value;
      assert t == t[..value] + t[value..];
      SameTail(t[..value], t[value..], r);
    }
  }

  lemma StepFixes(t: string, r: string, x: string)
    requires OneLine(r) && StepEnd(t) < |t|
    ensures StepText(t, r) + "\n" + x == t <==> FirstValueIs(t, r) && x == t[StepEnd(t) + 1..]
  {
    var end := StepEnd(t);
    if MatchAtStart(t).Match? {
      MatchShape(t);
      hide MatchAtStart, KeyAtStart, SpaceEnd, IsSpace;
      var value := MatchAtStart(t).value;
      SplitLine(t, value, end);
      SameLine(t[..value], t[value..end], t[end + 1..], r, x);
    } else {
      hide MatchAtStart, KeyAtStart, SpaceEnd, IsSpace;
      SplitLine(t, end, end);
      SameTail(t[..end] + "\n", t[end + 1..], x);
    }
  }

  lemma SplitLine(t: string, value: nat, end: nat)
    ensures value <= end < |t| && t[end] == '\n' ==> t == t[..value] + t[value..end] + "\n" + t[end + 1..]
    ensures value == end < |t| && t[end] == '\n' ==> t == t[..end] + "\n" + t[end + 1..]
  {
  }

  /** Two texts that agree before a line's end have the same line there and the same rest. */
  lemma SameLine(before: string, a: string, x: string, b: string, y: string)
    requires OneLine(a) && OneLine(b)
    ensures before + a + "\n" + x == before + b + "\n" + y <==> a == b && x == y
  {
    var s, t, p := before + a + "\n" + x, before + b + "\n" + y, |before|;
    assert forall k :: 0 <= k < |a| ==> s[p + k] == a[k];
    assert forall k :: 0 <= k < |b| ==> t[p + k] == b[k];
    assert s[p + |a|] == '\n' && t[p + |b|] == '\n';
    assert s[p..p + |a|] == a && t[p..p + |b|] == b;
    assert s[p + |a| + 1..] == x && t[p + |b| + 1..] == y;
  }

  // ---- Replacing twice ----

  /** Nothing but line feeds follows the key. */
  predicate BareKey(t: string) {
    KeyFirst(t) && forall k :: SpaceEnd(t, 0) + 5 <= k < |t| ==> t[k] == '\n'
  }

  lemma {:induction false} BlankHasNoMatch(t: string, r: string)
    requires SpaceEnd(t, 0) == |t|
    ensures AllValuesAre(t, r)
    decreases |t|
  {
    assert MatchAtStart(t).NoMatch?;
    hide MatchAtStart, SpaceEnd, LineEnd, IsSpace;
    var n := StepEnd(t);
    if n < |t| {
      SpaceEndIs(t[n + 1..], 0, |t| - n - 1);
      BlankHasNoMatch(t[n + 1..], r);
    }
  }

  /** Dropping the first line of a bare key leaves a bare key or only white space. */
  lemma BareKeyRest(t: string)
    requires BareKey(t) && LineEnd(t, 0) < |t|
    ensures var rest := t[LineEnd(t, 0) + 1..]; BareKey(rest) || SpaceEnd(rest, 0) == |rest|
  {
    hide SpaceEnd, LineEnd;
    var w, n := SpaceEnd(t, 0), LineEnd(t, 0);
    var rest := t[n + 1..];
    if n < w {
      SpaceEndIs(rest, 0, w - n - 1);
    } else {
      SpaceEndIs(rest, 0, |rest|);
    }
  }

  lemma {:induction false} BareKeyHasNoMatch(t: string, r: string)
    requires BareKey(t)
    ensures AllValuesAre(t, r)
    decreases |t|
  {
    assert MatchAtStart(t).NoMatch?;
    hide MatchAtStart, SpaceEnd, LineEnd, BareKey, IsSpace;
    var n := StepEnd(t);
    if n < |t| {
      BareKeyRest(t);
      if BareKey(t[n + 1..]) {
        BareKeyHasNoMatch(t[n + 1..], r);
      } else {
        BlankHasNoMatch(t[n + 1..], r);
      }
    }
  }

  lemma KeyWithoutMatchIsBare(t: string)
    ensures KeyAtStart(t) && MatchAtStart(t).NoMatch? ==> BareKey(t)
  {
  }

  /** Visible text in `a` decides the head of `a` with more lines behind it. */
  lemma HeadInFirst(a: string, c: string)
    requires SpaceEnd(a, 0) < |a|
    ensures SpaceEnd(a + "\n" + c, 0) == SpaceEnd(a, 0)
    ensures KeyFirst(a + "\n" + c) <==> KeyFirst(a)
  {
    hide SpaceEnd, IsSpace;
    var s := a + "\n" + c;
    assert forall k :: 0 <= k < |a| ==> s[k] == a[k];
    assert s[|a|] == '\n';
    SpaceEndIs(s, 0, SpaceEnd(a, 0));
  }

  /** If `a` is white space only, the lines behind it decide. */
  lemma HeadInRest(a: string, c: string)
    requires SpaceEnd(a, 0) == |a|
    ensures SpaceEnd(a + "\n" + c, 0) == |a| + 1 + SpaceEnd(c, 0)
    ensures KeyFirst(a + "\n" + c) <==> KeyFirst(c)
  {
    hide SpaceEnd, IsSpace;
    SpacesRunOn(a, c, 0);
    var s := a + "\n" + c;
    assert forall k :: |a| < k < |s| ==> s[k] == c[k - |a| - 1];
  }

  lemma SpacesRunOn(a: string, c: string, v: nat)
    requires v <= |a| && SpaceEnd(a, v) == |a|
    ensures SpaceEnd(a + "\n" + c, v) == |a| + 1 + SpaceEnd(c, 0)
  {
    hide SpaceEnd;
    var s, e := a + "\n" + c, |a| + 1 + SpaceEnd(c, 0);
    forall k | v <= k < e ensures IsSpace(s[k]) {
      assert s[k] == if k < |a| then a[k] else if k == |a| then '\n' else c[k - |a| - 1];
    }
    SpaceEndIs(s, v, e);
  }

  /** Replacing leaves the white space at the head of a text, and a key behind it, in place. */
  lemma {:induction false} ReplaceKeepsHead(t: string, r: string)
    ensures SpaceEnd(ReplaceAll(t, r), 0) == SpaceEnd(t, 0)
    ensures KeyFirst(ReplaceAll(t, r)) <==> KeyFirst(t)
    decreases |t|
  {
    hide MatchAtStart, SpaceEnd, IsSpace, LineEnd, KeyFirst;
    if MatchAtStart(t).Match? {
      MatchedHead(t, r);
    } else if StepEnd(t) < |t| {
      var first, rest := t[..StepEnd(t)], t[StepEnd(t) + 1..];
      ReplaceKeepsHead(rest, r);
      SameHead(first, rest, ReplaceAll(rest, r));
      SplitLine(t, StepEnd(t), StepEnd(t));
      assert ReplaceAll(t, r) == first + "\n" + ReplaceAll(rest, r);
    } else {
      assert t[..LineEnd(t, 0)] == t;
    }
  }

  lemma SameHead(a: string, c: string, d: string)
    requires SpaceEnd(c, 0) == SpaceEnd(d, 0) && (KeyFirst(c) <==> KeyFirst(d))
    ensures SpaceEnd(a + "\n" + c, 0) == SpaceEnd(a + "\n" + d, 0)
    ensures KeyFirst(a + "\n" + c) <==> KeyFirst(a + "\n" + d)
  {
    hide SpaceEnd, KeyFirst;
    if SpaceEnd(a, 0) < |a| {
      HeadInFirst(a, c);
      HeadInFirst(a, d);
    } else {
      HeadInRest(a, c);
      HeadInRest(a, d);
    }
  }

  /** `u` starts as `t` does up to `n`. */
  predicate AgreeUpTo(t: string, u: string, n: nat) {
    n <= |t| && n <= |u| && forall k :: 0 <= k < n ==> u[k] == t[k]
  }

  lemma HeadIsPrefix(t: string, u: string, n: nat)
    requires KeyAtStart(t) && SpaceEnd(t, 0) + 5 <= n && AgreeUpTo(t, u, n)
    ensures SpaceEnd(u, 0) == SpaceEnd(t, 0) && KeyFirst(u)
  {
    hide SpaceEnd, IsSpace;
    SpaceEndIs(u, 0, SpaceEnd(t, 0));
  }

  lemma MatchedHead(t: string, r: string)
    requires MatchAtStart(t).Match?
    ensures SpaceEnd(ReplaceAll(t, r), 0) == SpaceEnd(t, 0)
    ensures KeyFirst(ReplaceAll(t, r)) && KeyFirst(t)
  {
    MatchShape(t);
    hide MatchAtStart, SpaceEnd, IsSpace, KeyFirst, StepEnd;
    HeadIsPrefix(t, ReplaceAll(t, r), MatchAtStart(t).value);
  }

  /** With a plain value behind the white space after the key, the match takes exactly that value. */
  lemma PlainValueMatches(t: string, value: nat, r: string, u: string)
    requires KeyAtStart(t) && SpaceEnd(t, 0) + 5 <= value && AgreeUpTo(t, u, value)
    requires forall k :: SpaceEnd(t, 0) + 5 <= k < value ==> IsSpace(t[k])
    requires PlainValue(r)
    requires value + |r| <= |u| && forall k :: value <= k < value + |r| ==> u[k] == r[k - value]
    requires value + |r| < |u| ==> u[value + |r|] == '\n'
    ensures MatchAtStart(u) == Match(value, value + |r|)
  {
    hide SpaceEnd, LineEnd, IsSpace, LastVisible;
    HeadIsPrefix(t, u, value);
    SpaceEndIs(u, SpaceEnd(t, 0) + 5, value);
    LineEndIs(u, value, value + |r|);
  }

  /** Replacing again finds the first step of the result where the first replacement left it. */
  lemma MatchedStep(t: string, r: string)
    requires PlainValue(r) && MatchAtStart(t).Match?
    ensures var u := ReplaceAll(t, r); FirstValueIs(u, r) && StepEnd(u) == |StepText(t, r)|
  {
    hide MatchAtStart, SpaceEnd, LineEnd, KeyAtStart, IsSpace, ReplaceAll, PlainValue;
    var u, value := ReplaceAll(t, r), MatchAtStart(t).value;
    assert MatchAtStart(u) == Match(value, value + |r|) && u[value..value + |r|] == r by {
      MatchShape(t);
      MatchedShape(t, r);
      PlainValueMatches(t, value, r, u);
    }
  }

  /** The result of replacing a match: the text up to the value, the replacement, a line end. */
  lemma MatchedShape(t: string, r: string)
    requires MatchAtStart(t).Match?
    ensures var u, value := ReplaceAll(t, r), MatchAtStart(t).value;
            && AgreeUpTo(t, u, value)
            && value + |r| <= |u| && (forall k :: value <= k < value + |r| ==> u[k] == r[k - value])
            && (value + |r| < |u| ==> u[value + |r|] == '\n')
  {
    hide MatchAtStart, StepEnd;
    var value := MatchAtStart(t).value;
    assert StepText(t, r) == t[..value] + r;
    hide StepText;
    ReplaceBegins(t, r);
    PrefixShape(t[..value], r, ReplaceAll(t, r));
  }

  lemma PrefixShape(a: string, r: string, u: string)
    requires a + r <= u
    ensures AgreeUpTo(a, u, |a|) && forall k :: |a| <= k < |a| + |r| ==> u[k] == r[k - |a|]
  {
    assert forall k :: 0 <= k < |a| + |r| ==> u[k] == (a + r)[k];
  }

  lemma ReplaceBegins(t: string, r: string)
    ensures StepText(t, r) <= ReplaceAll(t, r)
    ensures var n := |StepText(t, r)|; n < |ReplaceAll(t, r)| ==> ReplaceAll(t, r)[n] == '\n'
  {
    hide StepText, StepEnd;
  }

  lemma UnmatchedStep(t: string, r: string)
    requires !KeyAtStart(t)
    ensures var u := ReplaceAll(t, r); FirstValueIs(u, r) && StepEnd(u) == |StepText(t, r)|
  {
    var u, n := ReplaceAll(t, r), LineEnd(t, 0);
    assert !KeyAtStart(u) by { ReplaceKeepsHead(t, r); }
    assert t[..n] <= u && (n < |u| ==> u[n] == '\n') by { ReplaceBegins(t, r); }
    hide ReplaceAll, KeyAtStart, LineEnd;
    assert forall k :: 0 <= k < n ==> u[k] == t[..n][k];
    LineEndIs(u, 0, n);
  }

  /** After replacing, every value is the replacement. */
  lemma {:induction false} ReplaceSetsAll(t: string, r: string)
    requires PlainValue(r)
    ensures AllValuesAre(ReplaceAll(t, r), r)
    decreases |t|
  {
    hide MatchAtStart, StepText, StepEnd, FirstValueIs, KeyAtStart, BareKey, PlainValue, IsSpace;
    if KeyAtStart(t) && MatchAtStart(t).NoMatch? {
      KeyWithoutMatchIsBare(t);
      BareKeyHasNoMatch(t, r);
      PlainIsOneLine(r);
      ReplaceFixesExactly(t, r);
    } else {
      if MatchAtStart(t).Match? {
        MatchedStep(t, r);
      } else {
        UnmatchedStep(t, r);
      }
      var u, end := ReplaceAll(t, r), StepEnd(t);
      if end < |t| {
        ReplaceSetsAll(t[end + 1..], r);
        assert u[|StepText(t, r)| + 1..] == ReplaceAll(t[end + 1..], r);
      }
    }
  }

  lemma PlainIsOneLine(r: string)
    ensures PlainValue(r) ==> OneLine(r)
  {
  }

  // ---- Appending lines ----

  /** `t` ends while a `type:` key still waits for a visible value. */
  predicate Open(t: string)
    decreases |t|
  {
    || (KeyAtStart(t) && ValueStart(t) == |t|)
    || (StepEnd(t) < |t| && Open(t[StepEnd(t) + 1..]))
  }

  /** Lines added behind `a` leave its first step alone, unless white space or a key runs up to them. */
  lemma AppendKeepsStep(a: string, c: string, r: string)
    requires KeyAtStart(a) ==> ValueStart(a) < |a|
    requires SpaceEnd(a, 0) == |a| ==> !KeyFirst(c)
    ensures FirstValueIs(a + "\n" + c, r) <==> FirstValueIs(a, r)
    ensures StepEnd(a + "\n" + c) == StepEnd(a)
  {
    hide SpaceEnd, LineEnd, MatchAtStart, ValueStart, KeyFirst, IsSpace;
    if KeyAtStart(a) {
      AppendKeepsMatch(a, c);
      SliceOfAppended(a, c, MatchAtStart(a).value, MatchAtStart(a).end);
    } else {
      AppendKeepsNoMatch(a, c);
    }
  }

  lemma SliceOfAppended(a: string, c: string, i: nat, j: nat)
    ensures i <= j <= |a| ==> (a + "\n" + c)[i..j] == a[i..j]
  {
  }

  lemma AppendKeepsNoMatch(a: string, c: string)
    requires !KeyAtStart(a) && (SpaceEnd(a, 0) == |a| ==> !KeyFirst(c))
    ensures MatchAtStart(a).NoMatch? && MatchAtStart(a + "\n" + c).NoMatch?
    ensures LineEnd(a + "\n" + c, 0) == LineEnd(a, 0)
  {
    hide SpaceEnd, LineEnd, IsSpace, KeyFirst, LastVisible;
    if SpaceEnd(a, 0) < |a| {
      HeadInFirst(a, c);
    } else {
      HeadInRest(a, c);
    }
    assert forall k :: 0 <= k < |a| ==> (a + "\n" + c)[k] == a[k];
    LineEndIs(a + "\n" + c, 0, LineEnd(a, 0));
  }

  lemma AppendKeepsMatch(a: string, c: string)
    requires KeyAtStart(a) && ValueStart(a) < |a|
    ensures MatchAtStart(a).Match? && MatchAtStart(a + "\n" + c) == MatchAtStart(a)
  {
    hide SpaceEnd, LineEnd, IsSpace, LastVisible;
    var s, v, q := a + "\n" + c, SpaceEnd(a, 0) + 5, ValueStart(a);
    HeadIsPrefix(a, s, |a|);
    SpaceEndIs(s, v, q);
    LineEndIs(s, q, LineEnd(a, q));
  }

  /** Behind a text that is not open, lines that do not begin with a key are scanned on their own. */
  lemma {:induction false} AppendFixes(a: string, c: string, r: string)
    requires !Open(a) && !KeyFirst(c)
    ensures AllValuesAre(a + "\n" + c, r) <==> AllValuesAre(a, r) && AllValuesAre(c, r)
    decreases |a|
  {
    hide MatchAtStart, StepEnd, KeyAtStart, KeyFirst, SpaceEnd, ValueStart, FirstValueIs, LineEnd, IsSpace;
    AppendKeepsStep(a, c, r);
    var s, end := a + "\n" + c, StepEnd(a);
    if end < |a| {
      AppendFixes(a[end + 1..], c, r);
    }
    assert s[end + 1..] == if end < |a| then a[end + 1..] + "\n" + c else c;
  }

  /** And a line with visible text and no key is passed over, whatever follows it. */
  lemma LineFixes(a: string, c: string, r: string)
    requires OneLine(a) && SpaceEnd(a, 0) < |a| && !KeyFirst(a)
    ensures AllValuesAre(a + "\n" + c, r) <==> AllValuesAre(c, r)
    ensures ReplaceAll(a + "\n" + c, r) == a + "\n" + ReplaceAll(c, r)
  {
    LineEndIs(a, 0, |a|);
    AppendKeepsNoMatch(a, c);
    hide SpaceEnd, LineEnd, MatchAtStart, KeyFirst;
    var s := a + "\n" + c;
    assert StepEnd(s) == |a| && s[..|a|] == a && s[|a| + 1..] == c;
  }

  lemma {:induction false} OpenIsNotBlank(a: string)
    requires Open(a)
    ensures SpaceEnd(a, 0) < |a|
    decreases |a|
  {
    hide LineEnd, MatchAtStart, SpaceEnd, StepEnd, IsSpace;
    if SpaceEnd(a, 0) == |a| {
      var rest := a[StepEnd(a) + 1..];
      SpaceEndIs(rest, 0, |rest|);
      OpenIsNotBlank(rest);
    }
  }

  /** Lines added to an open text give the waiting key their first visible text as its value. */
  lemma OpenTakesValue(a: string, c: string)
    requires KeyAtStart(a) && ValueStart(a) == |a| && SpaceEnd(c, 0) < |c|
    ensures MatchAtStart(a + "\n" + c) == Match(|a| + 1 + SpaceEnd(c, 0), |a| + 1 + LineEnd(c, SpaceEnd(c, 0)))
  {
    hide SpaceEnd, LineEnd, IsSpace, LastVisible, KeyFirst;
    var s := a + "\n" + c;
    HeadIsPrefix(a, s, |a|);
    SpacesRunOn(a, c, SpaceEnd(a, 0) + 5);
    LineEndInRest(a, c, SpaceEnd(c, 0));
  }

  lemma LineEndInRest(a: string, c: string, j: nat)
    requires j <= |c|
    ensures LineEnd(a + "\n" + c, |a| + 1 + j) == |a| + 1 + LineEnd(c, j)
  {
    hide LineEnd;
    var s := a + "\n" + c;
    assert forall k :: |a| < k < |s| ==> s[k] == c[k - |a| - 1];
    LineEndIs(s, |a| + 1 + j, |a| + 1 + LineEnd(c, j));
  }

  /** The first visible line of `c`, from its first visible character. */
  function FirstVisible(c: string): string {
    c[SpaceEnd(c, 0)..LineEnd(c, SpaceEnd(c, 0))]
  }

  /** Every value before the key that waits at the end already is the replacement. */
  predicate DoneBefore(t: string, replacement: string)
    decreases |t|
  {
    || (KeyAtStart(t) && ValueStart(t) == |t|)
    || (FirstValueIs(t, replacement)
        && (StepEnd(t) == |t| || DoneBefore(t[StepEnd(t) + 1..], replacement)))
  }

  lemma {:induction false} AllAreDoneBefore(t: string, r: string)
    requires AllValuesAre(t, r)
    ensures DoneBefore(t, r)
    decreases |t|
  {
    hide StepEnd, FirstValueIs, KeyAtStart;
    if StepEnd(t) < |t| {
      AllAreDoneBefore(t[StepEnd(t) + 1..], r);
    }
  }

  /** So behind an open text the values are all the replacement only if that visible text is. */
  lemma {:induction false} OpenForcesValue(a: string, c: string, r: string)
    requires Open(a) && SpaceEnd(c, 0) < |c|
    requires AllValuesAre(a + "\n" + c, r)
    ensures r == FirstVisible(c) && DoneBefore(a, r)
    decreases |a|
  {
    hide MatchAtStart, SpaceEnd, LineEnd, KeyAtStart, StepEnd, ValueStart, IsSpace;
    var s := a + "\n" + c;
    if KeyAtStart(a) && ValueStart(a) == |a| {
      OpenTakesValue(a, c);
      assert s[|a| + 1..] == c;
    } else {
      hide FirstVisible, FirstValueIs;
      OpenIsNotBlank(a);
      AppendKeepsStep(a, c, r);
      var end := StepEnd(a);
      LineOfAppended(a, c, end);
      OpenForcesValue(a[end + 1..], c, r);
    }
  }

  /** What replacing makes of lines whose first visible text is a waiting key's value. */
  function Taken(c: string, r: string): string {
    var w := SpaceEnd(c, 0);
    var e := LineEnd(c, w);
    if e == |c| then "\n" + c[..w] + r
    else "\n" + c[..w] + r + "\n" + ReplaceAll(c[e + 1..], r)
  }

  /** Replacing behind an open text whose own values are done: the waiting key takes `r` for the visible line. */
  lemma {:induction false} OpenReplaces(a: string, c: string, r: string)
    requires Open(a) && DoneBefore(a, r) && SpaceEnd(c, 0) < |c|
    ensures ReplaceAll(a + "\n" + c, r) == a + Taken(c, r)
    decreases |a|
  {
    hide MatchAtStart, SpaceEnd, LineEnd, KeyAtStart, StepEnd, ValueStart, IsSpace, FirstValueIs, StepText, ReplaceAll,
         Taken;
    if KeyAtStart(a) && ValueStart(a) == |a| {
      OpenReplacesHere(a, c, r);
    } else {
      OpenIsNotBlank(a);
      AppendKeepsStep(a, c, r);
      var end := StepEnd(a);
      OpenReplaces(a[end + 1..], c, r);
      StepThrough(a, c, r);
      Regroup(a, end + 1, Taken(c, r));
    }
  }

  lemma Regroup(a: string, n: nat, z: string)
    ensures n <= |a| ==> a[..n] + (a[n..] + z) == a + z
  {
    assert n <= |a| ==> a[..n] + a[n..] == a;
  }

  lemma OpenReplacesHere(a: string, c: string, r: string)
    requires KeyAtStart(a) && ValueStart(a) == |a| && SpaceEnd(c, 0) < |c|
    ensures ReplaceAll(a + "\n" + c, r) == a + Taken(c, r)
  {
    hide SpaceEnd, LineEnd, KeyAtStart, ValueStart, StepEnd, StepText;
    OpenStep(a, c, r);
    var s, w := a + "\n" + c, SpaceEnd(c, 0);
    var e := LineEnd(c, w);
    var head := "\n" + c[..w] + r;
    assert StepText(s, r) == a + head;
    if e < |c| {
      assert s[|a| + 1 + e + 1..] == c[e + 1..];
      assert a + head + "\n" + ReplaceAll(c[e + 1..], r) == a + (head + "\n" + ReplaceAll(c[e + 1..], r));
    }
  }

  lemma OpenStep(a: string, c: string, r: string)
    requires KeyAtStart(a) && ValueStart(a) == |a| && SpaceEnd(c, 0) < |c|
    ensures StepEnd(a + "\n" + c) == |a| + 1 + LineEnd(c, SpaceEnd(c, 0))
    ensures StepText(a + "\n" + c, r) == a + ("\n" + c[..SpaceEnd(c, 0)] + r)
  {
    hide SpaceEnd, LineEnd, KeyAtStart, ValueStart, IsSpace, MatchAtStart, StepEnd, StepText;
    var s, w := a + "\n" + c, SpaceEnd(c, 0);
    OpenTakesValue(a, c);
    StepOfMatch(s, r, |a| + 1 + w, |a| + 1 + LineEnd(c, w));
    TakeAppended(a, c, w, r);
  }

  lemma StepOfMatch(t: string, r: string, value: nat, end: nat)
    requires MatchAtStart(t) == Match(value, end)
    ensures StepEnd(t) == end && value <= |t| && StepText(t, r) == t[..value] + r
  {
  }

  lemma TakeAppended(a: string, c: string, n: nat, r: string)
    requires n <= |c|
    ensures (a + "\n" + c)[..|a| + 1 + n] + r == a + ("\n" + c[..n] + r)
  {
    assert (a + "\n" + c)[..|a| + 1 + n] == a + "\n" + c[..n];
  }

  /** A first step whose value is done is passed over unchanged. */
  lemma StepThrough(a: string, c: string, r: string)
    requires FirstValueIs(a + "\n" + c, r) && StepEnd(a) < |a| && StepEnd(a + "\n" + c) == StepEnd(a)
    ensures var end := StepEnd(a);
            ReplaceAll(a + "\n" + c, r) == a[..end + 1] + ReplaceAll(a[end + 1..] + "\n" + c, r)
  {
    hide StepEnd, StepText, FirstValueIs;
    StepTextDone(a + "\n" + c, r);
    LineOfAppended(a, c, StepEnd(a));
  }

  lemma LineOfAppended(a: string, c: string, end: nat)
    ensures end < |a| && a[end] == '\n' ==>
              (a + "\n" + c)[..end] + "\n" == a[..end + 1] && (a + "\n" + c)[end + 1..] == a[end + 1..] + "\n" + c
  {
  }

  lemma StepTextDone(t: string, r: string)
    requires FirstValueIs(t, r)
    ensures StepText(t, r) == t[..StepEnd(t)]
  {
    hide MatchAtStart, SpaceEnd, LineEnd;
    var m := MatchAtStart(t);
    if m.Match? {
      assert t[..m.value] + t[m.value..m.end] == t[..m.end];
    }
  }

  /** Behind a text that is not open and whose values are done, lines are replaced on their own. */
  lemma {:induction false} AppendReplaces(a: string, c: string, r: string)
    requires !Open(a) && !KeyFirst(c) && AllValuesAre(a, r)
    ensures ReplaceAll(a + "\n" + c, r) == a + "\n" + ReplaceAll(c, r)
    decreases |a|
  {
    hide MatchAtStart, SpaceEnd, LineEnd, KeyAtStart, StepEnd, ValueStart, IsSpace, FirstValueIs, StepText, KeyFirst;
    AppendKeepsStep(a, c, r);
    var s, end := a + "\n" + c, StepEnd(a);
    if end < |a| {
      AppendReplaces(a[end + 1..], c, r);
      hide ReplaceAll;
      StepThrough(a, c, r);
      Regroup(a, end + 1, "\n" + ReplaceAll(c, r));
      Regroup4(a[end + 1..], "\n", ReplaceAll(c, r));
      Regroup4(a, "\n", ReplaceAll(c, r));
    } else {
      StepTextDone(s, r);
      assert s[..|a|] == a && s[|a| + 1..] == c;
    }
  }

  lemma Regroup4(a: string, b: string, c: string)
    ensures a + b + c == a + (b + c)
  {
  }
}
