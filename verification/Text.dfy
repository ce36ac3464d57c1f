/** Strings as Go's `strings` package handles them: searching, splitting, joining, trimming. */
module Text {

  /** `sub` stands at position `i` of `s`. */
  predicate OccursAt(s: string, sub: string, i: int) {
    0 <= i && i + |sub| <= |s| && s[i..i + |sub|] == sub
  }

  lemma SliceOfRest(s: string, i: nat, j: nat)
    ensures 1 <= i <= j <= |s| ==> s[1..][i - 1..j - 1] == s[i..j]
  {
    if 1 <= i <= j <= |s| {
      var x, y := s[1..][i - 1..j - 1], s[i..j];
      assert |x| == |y| && forall k :: 0 <= k < |x| ==> x[k] == s[i + k] == y[k];
    }
  }

  lemma OccursInRest(s: string, sub: string)
    ensures s != "" ==> forall k :: OccursAt(s, sub, k) && k > 0 ==> OccursAt(s[1..], sub, k - 1)
    ensures s != "" ==> forall k :: OccursAt(s[1..], sub, k) ==> OccursAt(s, sub, k + 1)
  {
    if s != "" {
      forall k: nat | k > 0 ensures OccursAt(s, sub, k) <==> OccursAt(s[1..], sub, k - 1) {
        SliceOfRest(s, k, k + |sub|);
      }
      forall k | OccursAt(s[1..], sub, k) ensures OccursAt(s, sub, k + 1) {
        SliceOfRest(s, k + 1, k + 1 + |sub|);
      }
    }
  }

  /** The first position of `sub` in `s`, or -1. */
  function IndexOf(s: string, sub: string): (i: int)
    ensures i >= 0 ==> OccursAt(s, sub, i) && forall k :: 0 <= k < i ==> !OccursAt(s, sub, k)
    ensures i < 0 ==> i == -1 && forall k :: !OccursAt(s, sub, k)
  {
    if |s| < |sub| then -1
    else if sub <= s then 0
    else if s == "" then -1
    else
      var rest := IndexOf(s[1..], sub);
      OccursInRest(s, sub);
      if rest < 0 then -1 else rest + 1
  }

  predicate Contains(s: string, sub: string) {
    IndexOf(s, sub) >= 0
  }

  /** The pieces of `s` between successive occurrences of `sep`, leftmost first. */
  function Split(s: string, sep: string): (parts: seq<string>)
    requires sep != ""
    ensures parts != []
    decreases |s|
  {
    var i := IndexOf(s, sep);
    if i < 0 then [s] else [s[..i]] + Split(s[i + |sep|..], sep)
  }

  function Join(parts: seq<string>, sep: string): string {
    if parts == [] then ""
    else if |parts| == 1 then parts[0]
    else parts[0] + sep + Join(parts[1..], sep)
  }

  /** The first character of `sep` does not occur again in it, so no two occurrences overlap. */
  predicate Borderless(sep: string) {
    sep != "" && forall k :: 0 < k < |sep| ==> sep[k] != sep[0]
  }

  lemma {:induction false} JoinSplit(s: string, sep: string)
    requires sep != ""
    ensures Join(Split(s, sep), sep) == s
    decreases |s|
  {
    var i := IndexOf(s, sep);
    if i >= 0 {
      var rest := s[i + |sep|..];
      JoinSplit(rest, sep);
      JoinCons(s[..i], Split(rest, sep), sep);
      assert s[..i] + s[i..i + |sep|] == s[..i + |sep|];
      assert s[..i + |sep|] + rest == s;
    }
  }

  lemma JoinCons(part: string, parts: seq<string>, sep: string)
    ensures parts != [] ==> Join([part] + parts, sep) == part + sep + Join(parts, sep)
  {
    assert ([part] + parts)[1..] == parts;
  }

  lemma JoinFirst(parts: seq<string>, sep: string)
    ensures |parts| > 1 ==> Join(parts, sep) == parts[0] + sep + Join(parts[1..], sep)
  {
  }

  /** No piece of a split holds the separator. */
  lemma {:induction false} SplitPartsClean(s: string, sep: string)
    requires sep != ""
    ensures forall part <- Split(s, sep) :: !Contains(part, sep)
    decreases |s|
  {
    var i := IndexOf(s, sep);
    if i >= 0 {
      SplitPartsClean(s[i + |sep|..], sep);
      var k := IndexOf(s[..i], sep);
      if k >= 0 {
        assert OccursAt(s, sep, k);
      }
    }
  }

  /** The first separator of a joined text ends its first piece. */
  lemma FirstSeparator(part: string, sep: string, rest: string)
    requires Borderless(sep) && !Contains(part, sep)
    ensures IndexOf(part + sep + rest, sep) == |part|
  {
    var s := part + sep + rest;
    assert OccursAt(s, sep, |part|);
    forall k | 0 <= k < |part| ensures !OccursAt(s, sep, k) {
      if k + |sep| <= |part| {
        assert !OccursAt(part, sep, k);
        assert s[k..k + |sep|] == part[k..k + |sep|];
      } else if k + |sep| <= |s| {
        assert s[k..k + |sep|][|part| - k] == s[|part|] == sep[0];
      }
    }
  }

  /** Splitting undoes joining when no piece holds the (borderless) separator. */
  lemma {:induction false} SplitJoin(parts: seq<string>, sep: string)
    requires Borderless(sep) && parts != []
    requires forall part <- parts :: !Contains(part, sep)
    ensures Split(Join(parts, sep), sep) == parts
    decreases |parts|
  {
    if |parts| > 1 {
      var s, rest := Join(parts, sep), Join(parts[1..], sep);
      SplitJoin(parts[1..], sep);
      FirstSeparator(parts[0], sep, rest);
      assert s == parts[0] + sep + rest;
      assert s[..|parts[0]|] == parts[0] && s[|parts[0]| + |sep|..] == rest;
    } else {
      assert parts[0] in parts;
    }
  }

  /** A borderless separator between two texts keeps their pieces apart, whatever the texts hold. */
  lemma {:induction false} SplitConcat(a: string, sep: string, b: string)
    requires Borderless(sep)
    ensures Split(a + sep + b, sep) == Split(a, sep) + Split(b, sep)
    decreases |a|
  {
    hide IndexOf, Split;
    var i := IndexOf(a, sep);
    if !Contains(a, sep) {
      FirstSeparator(a, sep, b);
      SplitFirst(a, sep, b);
      SplitNone(a, sep);
    } else {
      var rest := a[i + |sep|..];
      SplitInside(a, sep, b);
      SplitConcat(rest, sep, b);
      SplitFirstAt(a, sep);
    }
  }

  lemma SplitNone(a: string, sep: string)
    ensures sep != "" && !Contains(a, sep) ==> Split(a, sep) == [a]
  {
  }

  lemma SplitFirstAt(s: string, sep: string)
    requires sep != "" && Contains(s, sep)
    ensures var i := IndexOf(s, sep); i + |sep| <= |s| && Split(s, sep) == [s[..i]] + Split(s[i + |sep|..], sep)
  {
    hide IndexOf;
  }

  lemma SplitFirst(a: string, sep: string, b: string)
    requires sep != "" && IndexOf(a + sep + b, sep) == |a|
    ensures Split(a + sep + b, sep) == [a] + Split(b, sep)
  {
    hide IndexOf;
    var s := a + sep + b;
    SplitFirstAt(s, sep);
    assert s[..|a|] == a && s[|a| + |sep|..] == b;
  }

  lemma SplitInside(a: string, sep: string, b: string)
    requires Borderless(sep) && Contains(a, sep)
    ensures var i := IndexOf(a, sep);
            i + |sep| <= |a| && Split(a + sep + b, sep) == [a[..i]] + Split(a[i + |sep|..] + sep + b, sep)
  {
    hide IndexOf, Split, OccursAt;
    var i, s := IndexOf(a, sep), a + sep + b;
    FirstSeparatorInside(a, sep, b);
    SplitFirstAt(s, sep);
    SplitFirstAt(a, sep);
    assert s[..i] == a[..i] && s[i + |sep|..] == a[i + |sep|..] + sep + b;
  }

  lemma FirstSeparatorInside(a: string, sep: string, b: string)
    requires Borderless(sep) && Contains(a, sep)
    ensures IndexOf(a + sep + b, sep) == IndexOf(a, sep)
  {
    var i, s := IndexOf(a, sep), a + sep + b;
    assert s[i..i + |sep|] == a[i..i + |sep|];
    assert OccursAt(s, sep, i);
    forall k | 0 <= k < i ensures !OccursAt(s, sep, k) {
      assert !OccursAt(a, sep, k);
      assert s[k..k + |sep|] == a[k..k + |sep|];
    }
  }

  /** Splitting a joined list gives as many pieces as the list has only if no piece holds the separator. */
  lemma {:induction false} SplitJoinCount(parts: seq<string>, sep: string)
    requires Borderless(sep) && parts != []
    ensures |Split(Join(parts, sep), sep)| >= |parts|
    ensures |Split(Join(parts, sep), sep)| == |parts| ==> forall i | 0 <= i < |parts| :: !Contains(parts[i], sep)
    decreases |parts|
  {
    if |parts| > 1 {
      SplitConcat(parts[0], sep, Join(parts[1..], sep));
      SplitJoinCount(parts[1..], sep);
      assert forall i | 0 < i < |parts| :: parts[i] == parts[1..][i - 1];
    }
  }

  /** Unicode White_Space, which `strings.TrimSpace` removes. */
  predicate IsUnicodeSpace(c: char) {
    || '\t' <= c <= '\r' || c == ' ' || c == '\U{85}' || c == '\U{A0}' || c == '\U{1680}'
    || '\U{2000}' <= c <= '\U{200A}' || c == '\U{2028}' || c == '\U{2029}'
    || c == '\U{202F}' || c == '\U{205F}' || c == '\U{3000}'
  }

  function TrimSpace(s: string): string {
    if s == "" then ""
    else if IsUnicodeSpace(s[0]) then TrimSpace(s[1..])
    else if IsUnicodeSpace(s[|s| - 1]) then TrimSpace(s[..|s| - 1])
    else s
  }

  /** `s` without the white space at its end. */
  function TrimEnd(s: string): string {
    if s != "" && IsUnicodeSpace(s[|s| - 1]) then TrimEnd(s[..|s| - 1]) else s
  }

  lemma {:induction false} TrimSpaceIsTrimEnd(s: string)
    requires s != "" && !IsUnicodeSpace(s[0])
    ensures TrimSpace(s) == TrimEnd(s)
  {
    if IsUnicodeSpace(s[|s| - 1]) {
      TrimSpaceIsTrimEnd(s[..|s| - 1]);
    }
  }

  lemma {:induction false} TrimSpaceLeads(w: string, s: string)
    requires forall k | 0 <= k < |w| :: IsUnicodeSpace(w[k])
    ensures TrimSpace(w + s) == TrimSpace(s)
  {
    if w == "" {
      assert w + s == s;
    } else {
      TrimSpaceLeads(w[1..], s);
      assert (w + s)[1..] == w[1..] + s;
    }
  }

  lemma {:induction false} TrimEndAppend(a: string, x: string)
    ensures TrimEnd(a + x) == if TrimEnd(x) == "" then TrimEnd(a) else a + TrimEnd(x)
  {
    if x == "" {
      assert a + x == a;
    } else if IsUnicodeSpace(x[|x| - 1]) {
      TrimEndAppend(a, x[..|x| - 1]);
      assert (a + x)[..|a + x| - 1] == a + x[..|x| - 1];
    }
  }

  lemma {:induction false} TrimEndShorter(s: string)
    ensures |TrimEnd(s)| <= |s|
  {
    if s != "" && IsUnicodeSpace(s[|s| - 1]) {
      TrimEndShorter(s[..|s| - 1]);
    }
  }

  /** Behind the same text, two texts trim alike exactly if they do by themselves. */
  lemma TrimEndsAgreeIff(a: string, x: string, y: string)
    ensures TrimEnd(a + x) == TrimEnd(a + y) <==> TrimEnd(x) == TrimEnd(y)
  {
    TrimEndAppend(a, x);
    TrimEndAppend(a, y);
    TrimEndShorter(a);
    SameTail(a, TrimEnd(x), TrimEnd(y));
  }

  lemma SameTail(a: string, x: string, y: string)
    ensures a + x == a + y <==> x == y
  {
    assert x == (a + x)[|a|..] && y == (a + y)[|a|..];
  }

  /** The first line feed of `t` from `from` on, or the end. */
  function LineEnd(t: string, from: nat): (e: nat)
    requires from <= |t|
    ensures from <= e <= |t| && (e < |t| ==> t[e] == '\n')
    ensures forall k :: from <= k < e ==> t[k] != '\n'
    decreases |t| - from
  {
    if from == |t| || t[from] == '\n' then from else LineEnd(t, from + 1)
  }

  /** Those two facts single out the line's end. */
  lemma LineEndIs(t: string, from: nat, e: nat)
    requires from <= e <= |t| && (e < |t| ==> t[e] == '\n')
    requires forall k :: from <= k < e ==> t[k] != '\n'
    ensures LineEnd(t, from) == e
    decreases e - from
  {
    if from < e {
      LineEndIs(t, from + 1, e);
    }
  }
}
