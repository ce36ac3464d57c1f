/**
 Merging a reviewer's edits into the YAML text of a draft audit log: split the text into result
 blocks, edit the blocks whose id has an edit, join the blocks again.
 */
module DraftMerge {
  import opened Text
  import opened TypePattern

  datatype ReviewerEdit = ReviewerEdit(typeOverride: string, note: string)

  /** What parsing the stored JSON gives: nothing to do, an error, or edits by result id. */
  datatype EditsInput = Blank | Unparseable | Edits(byId: map<string, ReviewerEdit>)

  const SEPARATOR := "\n  - id: "
  const ITEM_HEAD := "\n  - id:"
  const NOTE_MARK := "reviewer-note:"
  const NOTE_VALUE := "reviewer-note: >-"
  const NOTE_LINE := "    reviewer-note: >-"
  const NOTE_INDENT := "      "

  // ---- One block ----

  function FirstLine(block: string): string {
    block[..LineEnd(block, 0)]
  }

  function ResultId(block: string): string {
    TrimSpace(FirstLine(block))
  }

  function NoteBody(note: string): string {
    NOTE_LINE + "\n" + (NOTE_INDENT + note)
  }

  /** Where a note goes: before an item head left inside the block, or at its end. */
  function NoteAt(block: string): (i: nat)
    ensures i <= |block|
    ensures i < |block| ==> OccursAt(block, ITEM_HEAD, i)
  {
    var i := IndexOf(block, ITEM_HEAD);
    if i < 0 then |block| else i
  }

  function WithType(block: string, edit: ReviewerEdit): string {
    if edit.typeOverride == "" then block else ReplaceAll(block, edit.typeOverride)
  }

  function WithNote(block: string, edit: ReviewerEdit): string {
    if edit.note == "" || Contains(block, NOTE_MARK) then block
    else block[..NoteAt(block)] + "\n" + (NoteBody(edit.note) + block[NoteAt(block)..])
  }

  function EditBlock(block: string, edits: map<string, ReviewerEdit>): string {
    if ResultId(block) in edits then
      WithNote(WithType(block, edits[ResultId(block)]), edits[ResultId(block)])
    else block
  }

  // ---- The whole text ----

  function EditBlocks(blocks: seq<string>, edits: map<string, ReviewerEdit>): (r: seq<string>)
    ensures |r| == |blocks|
  {
    seq(|blocks|, i requires 0 <= i < |blocks| => if i == 0 then blocks[0] else EditBlock(blocks[i], edits))
  }

  function Merged(content: string, input: EditsInput): string {
    if !input.Edits? || input.byId == map[] || |Split(content, SEPARATOR)| < 2 then content
    else Join(EditBlocks(Split(content, SEPARATOR), input.byId), SEPARATOR)
  }

  /** What `mergeReviewerEdits` does to a block whose id has an edit. */
  method ApplyEdit(original: string, edit: ReviewerEdit) returns (block: string)
    ensures block == WithNote(WithType(original, edit), edit)
  {
    hide ReplaceAll, LineEnd;
    block := original;
    if edit.typeOverride != "" {
      block := ReplaceAll(block, edit.typeOverride);
    }
    if edit.note != "" && !Contains(block, NOTE_MARK) {
      var insertAt, text := IndexOf(block, ITEM_HEAD), NoteBody(edit.note);
      if insertAt < 0 {
        InsertAtEnd(block, text);
        block := block + "\n" + text;
      } else {
        Regroup4(block[..insertAt] + "\n", text, block[insertAt..]);
        block := block[..insertAt] + "\n" + text + block[insertAt..];
      }
    }
  }

  /** The loop body: a block whose id has no edit stays as it is. */
  method ApplyEdits(original: string, edits: map<string, ReviewerEdit>) returns (block: string)
    ensures block == EditBlock(original, edits)
  {
    hide WithNote, WithType, TrimSpace, LineEnd;
    var resultId := TrimSpace(original[..LineEnd(original, 0)]);
    if resultId !in edits {
      return original;
    }
    block := ApplyEdit(original, edits[resultId]);
  }

  lemma InsertAtEnd(block: string, text: string)
    ensures block[..|block|] + "\n" + (text + block[|block|..]) == block + "\n" + text
  {
    assert block[|block|..] == "";
    assert text + "" == text;
    assert block[..|block|] == block;
  }

  /** `mergeReviewerEdits`: the merged text, or the text itself and an error. */
  method MergeReviewerEdits(content: string, input: EditsInput) returns (merged: string, ok: bool)
    ensures merged == Merged(content, input)
    ensures ok <==> !input.Unparseable?
  {
    hide Split, Join, EditBlocks;
    if input.Blank? {
      return content, true;
    }
    if input.Unparseable? {
      return content, false;
    }
    var edits := input.byId;
    if |edits| == 0 {
      return content, true;
    }
    var blocks := SplitBlocks(content);
    if blocks.Length < 2 {
      return content, true;
    }
    EditInPlace(blocks, edits);
    JoinFirst(blocks[..], SEPARATOR);
    TailOf(blocks);
    return blocks[0] + SEPARATOR + Join(blocks[1..], SEPARATOR), true;
  }

  method SplitBlocks(content: string) returns (blocks: array<string>)
    ensures fresh(blocks) && blocks[..] == Split(content, SEPARATOR) && blocks.Length > 0
  {
    hide Split;
    var parts := Split(content, SEPARATOR);
    blocks := new string[|parts|](i requires 0 <= i < |parts| => parts[i]);
  }

  lemma TailOf(blocks: array<string>)
    ensures blocks.Length > 0 ==> blocks[..][1..] == blocks[1..] && blocks[..][0] == blocks[0]
  {
  }

  /** The loop over the blocks, which writes each where it was. */
  method EditInPlace(blocks: array<string>, edits: map<string, ReviewerEdit>)
    requires blocks.Length > 0
    modifies blocks
    ensures blocks[..] == EditBlocks(old(blocks[..]), edits)
  {
    hide EditBlock;
    var i := 1;
    while i < blocks.Length
      invariant 1 <= i <= blocks.Length
      invariant forall k :: 1 <= k < i ==> blocks[k] == EditBlock(old(blocks[k]), edits)
      invariant blocks[0] == old(blocks[0]) && forall k :: i <= k < blocks.Length ==> blocks[k] == old(blocks[k])
    {
      blocks[i] := ApplyEdits(blocks[i], edits);
      i := i + 1;
    }
  }

  // ---- Splitting and joining with the block separator ----

  lemma SeparatorIsBorderless()
    ensures Borderless(SEPARATOR)
  {
  }

  /** Edits whose ids name no block give the text back unchanged. */
  lemma UnmatchedEditsChangeNothing(content: string, input: EditsInput)
    requires input.Edits? ==> forall block <- Split(content, SEPARATOR)[1..] :: ResultId(block) !in input.byId
    ensures Merged(content, input) == content
  {
    if input.Edits? && |Split(content, SEPARATOR)| >= 2 {
      var blocks := Split(content, SEPARATOR);
      hide Split, Join, ResultId;
      assert forall i :: 0 < i < |blocks| ==> blocks[i] == blocks[1..][i - 1] && blocks[i] in blocks[1..];
      assert EditBlocks(blocks, input.byId) == blocks;
      JoinSplit(content, SEPARATOR);
    }
  }

  // ---- Item heads, character by character ----

  /** The characters `  - id:` stand at `k`. */
  predicate HeadAt(s: string, k: nat) {
    && k + 7 <= |s| && s[k] == ' ' && s[k + 1] == ' ' && s[k + 2] == '-' && s[k + 3] == ' '
    && s[k + 4] == 'i' && s[k + 5] == 'd' && s[k + 6] == ':'
  }

  /** The characters `  - id: ` stand at `k`. */
  predicate ItemAt(s: string, k: nat) {
    HeadAt(s, k) && k + 8 <= |s| && s[k + 7] == ' '
  }

  predicate SeparatorAt(s: string, k: nat) {
    k < |s| && s[k] == '\n' && ItemAt(s, k + 1)
  }

  /** No separator in `s`. */
  predicate Whole(s: string) {
    forall k :: 0 <= k < |s| ==> !SeparatorAt(s, k)
  }

  lemma SeparatorChars(x: string)
    requires |x| == 9
    ensures x == SEPARATOR <==>
            && x[0] == '\n' && x[1] == ' ' && x[2] == ' ' && x[3] == '-' && x[4] == ' '
            && x[5] == 'i' && x[6] == 'd' && x[7] == ':' && x[8] == ' '
  {
    assert |SEPARATOR| == 9 && SEPARATOR[0] == '\n' && SEPARATOR[1] == ' ' && SEPARATOR[2] == ' ';
    assert SEPARATOR[3] == '-' && SEPARATOR[4] == ' ' && SEPARATOR[5] == 'i' && SEPARATOR[6] == 'd';
    assert SEPARATOR[7] == ':' && SEPARATOR[8] == ' ';
    assert x == SEPARATOR <==> forall j :: 0 <= j < 9 ==> x[j] == SEPARATOR[j];
  }

  lemma SeparatorOccurs(s: string, k: nat)
    ensures OccursAt(s, SEPARATOR, k) <==> SeparatorAt(s, k)
  {
    assert |SEPARATOR| == 9;
    if k + 9 <= |s| {
      var x := s[k..k + 9];
      assert forall j :: 0 <= j < 9 ==> x[j] == s[k + j];
      SeparatorChars(x);
      hide SEPARATOR;
      assert x[0] == s[k] && x[1] == s[k + 1] && x[2] == s[k + 2] && x[3] == s[k + 3] && x[4] == s[k + 4];
      assert x[5] == s[k + 5] && x[6] == s[k + 6] && x[7] == s[k + 7] && x[8] == s[k + 8];
    }
  }

  lemma WholeIsUnsplit(s: string)
    ensures Whole(s) <==> !Contains(s, SEPARATOR)
  {
    forall k: nat ensures OccursAt(s, SEPARATOR, k) <==> SeparatorAt(s, k) {
      SeparatorOccurs(s, k);
    }
  }

  /** A separator cannot reach over a line end except at its own first character. */
  lemma WholeLines(x: string, y: string)
    ensures Whole(x + "\n" + y) <==> Whole(x) && Whole(y) && !ItemAt(y, 0)
  {
    var s := x + "\n" + y;
    assert forall k :: 0 <= k < |x| ==> s[k] == x[k];
    assert s[|x|] == '\n';
    assert forall k :: |x| < k < |s| ==> s[k] == y[k - |x| - 1];
    assert forall k :: 0 <= k < |x| ==> (SeparatorAt(s, k) <==> SeparatorAt(x, k));
    assert SeparatorAt(s, |x|) <==> ItemAt(y, 0);
    assert forall k :: 0 <= k < |y| ==> (SeparatorAt(y, k) <==> SeparatorAt(s, k + |x| + 1));
    if Whole(x) && Whole(y) && !ItemAt(y, 0) {
      forall k | 0 <= k < |s| ensures !SeparatorAt(s, k) {
        if k > |x| {
          assert SeparatorAt(y, k - |x| - 1) <==> SeparatorAt(s, k - |x| - 1 + |x| + 1);
        }
      }
    }
  }

  // ---- When replacing types keeps the block in one piece ----

  /** With `j` characters of the text before `value`, which begin a line, `r` begins an item. */
  predicate CompletesBehind(t: string, value: nat, r: string, j: nat) {
    j < value <= |t| && t[value - j - 1] == '\n' && ItemAt(t[value - j..value] + r, 0)
  }

  /** Put at `value`, `r` completes an item: the value's line has only the item's own indentation before it. */
  predicate CompletesItem(t: string, value: nat, r: string) {
    CompletesBehind(t, value, r, 0) || CompletesBehind(t, value, r, 1) || CompletesBehind(t, value, r, 2)
  }

  predicate FirstCompletes(t: string, r: string) {
    MatchAtStart(t).Match? && CompletesItem(t, MatchAtStart(t).value, r)
  }

  /** Some value of `t` stands where `r` completes an item. */
  predicate SomeCompletes(t: string, r: string)
    decreases |t|
  {
    FirstCompletes(t, r) || (StepEnd(t) < |t| && SomeCompletes(t[StepEnd(t) + 1..], r))
  }

  /** `t` has a value for the type pattern to replace. */
  predicate HasValue(t: string)
    decreases |t|
  {
    MatchAtStart(t).Match? || (StepEnd(t) < |t| && HasValue(t[StepEnd(t) + 1..]))
  }

  lemma SeparatorOver(t: string, value: nat, r: string, k: nat)
    requires k < value <= |t| && value < k + 4
    ensures SeparatorAt(t[..value] + r, k) <==> CompletesBehind(t, value, r, value - k - 1)
  {
    var x, y := t[..value] + r, t[k + 1..value] + r;
    assert forall i :: 0 <= i < |y| ==> y[i] == x[i + k + 1];
    assert |x| == |y| + k + 1 && x[k] == t[k];
    assert ItemAt(x, k + 1) <==> ItemAt(y, 0);
  }

  lemma SeparatorShift(a: string, r: string, k: nat)
    ensures SeparatorAt(a + r, |a| + k) <==> SeparatorAt(r, k)
  {
    var x := a + r;
    assert forall i :: 0 <= i < |r| ==> x[|a| + i] == r[i];
  }

  /** A concatenation is whole exactly if no separator begins in its first part and its second is whole. */
  lemma WholeConcat(a: string, r: string)
    ensures Whole(a + r) <==> (forall k | 0 <= k < |a| :: !SeparatorAt(a + r, k)) && Whole(r)
  {
    hide SeparatorAt;
    if Whole(a + r) {
      forall k | 0 <= k < |r| ensures !SeparatorAt(r, k) {
        SeparatorShift(a, r, k);
      }
    }
    if (forall k | 0 <= k < |a| :: !SeparatorAt(a + r, k)) && Whole(r) {
      forall k | 0 <= k < |a + r| ensures !SeparatorAt(a + r, k) {
        if k >= |a| {
          SeparatorShift(a, r, k - |a|);
        }
      }
    }
  }

  /** A replacement behind a match's first group makes a separator exactly if it holds or completes one. */
  lemma GroupWholeIff(t: string, r: string)
    requires MatchAtStart(t).Match? && Whole(t)
    ensures Whole(t[..MatchAtStart(t).value] + r) <==> Whole(r) && !FirstCompletes(t, r)
  {
    hide MatchAtStart, CompletesBehind, SeparatorAt, Whole;
    var value := MatchAtStart(t).value;
    WholeConcat(t[..value], r);
    forall k | 0 <= k < value
      ensures SeparatorAt(t[..value] + r, k) <==> value < k + 4 && CompletesBehind(t, value, r, value - k - 1)
    {
      OnlyNearValue(t, r, k);
      if value < k + 4 {
        SeparatorOver(t, value, r, k);
      }
    }
    forall k | 0 <= k < value && SeparatorAt(t[..value] + r, k) ensures CompletesItem(t, value, r) {
      var j := value - k - 1;
      assert (j == 0 || j == 1 || j == 2) && CompletesBehind(t, value, r, j);
    }
    if CompletesItem(t, value, r) {
      var j: nat :| j <= 2 && CompletesBehind(t, value, r, j);
      CompletesIsInside(t, value, r, j);
      assert SeparatorAt(t[..value] + r, value - j - 1);
    }
  }

  /** A separator that begins in the first group ends behind it, and so soon that its dash is the replacement's. */
  lemma OnlyNearValue(t: string, r: string, k: nat)
    requires MatchAtStart(t).Match? && k < MatchAtStart(t).value
    ensures SeparatorAt(t[..MatchAtStart(t).value] + r, k) ==> MatchAtStart(t).value < k + 4
  {
    MatchShape(t);
    hide MatchAtStart, SpaceEnd, LineEnd;
    var value := MatchAtStart(t).value;
    var x := t[..value] + r;
    assert forall i :: 0 <= i < value ==> x[i] == t[i] && x[i] != '-';
    assert SeparatorAt(x, k) ==> x[k + 3] == '-';
  }

  lemma CompletesIsInside(t: string, value: nat, r: string, j: nat)
    ensures CompletesBehind(t, value, r, j) ==> j < value <= |t|
  {
  }

  lemma StepWholeIff(t: string, r: string)
    requires Whole(t)
    ensures Whole(StepText(t, r)) <==> (MatchAtStart(t).Match? ==> Whole(r)) && !FirstCompletes(t, r)
    ensures StepEnd(t) < |t| ==> Whole(t[StepEnd(t) + 1..]) && !ItemAt(t[StepEnd(t) + 1..], 0)
  {
    if StepEnd(t) < |t| {
      SplitLine(t, StepEnd(t), StepEnd(t));
      WholeLines(t[..StepEnd(t)], t[StepEnd(t) + 1..]);
    }
    if MatchAtStart(t).Match? {
      GroupWholeIff(t, r);
    } else {
      hide MatchAtStart, SpaceEnd;
      var line := t[..LineEnd(t, 0)];
      assert forall k :: 0 <= k < |line| ==> line[k] != '\n';
    }
  }

  /** Replacing does not put an item at the head of a text. */
  lemma ReplaceKeepsHeadPlain(t: string, r: string)
    requires !ItemAt(t, 0)
    ensures !ItemAt(ReplaceAll(t, r), 0)
  {
    if MatchAtStart(t).Match? {
      MatchShape(t);
      MatchedShape(t, r);
      hide MatchAtStart, SpaceEnd, LineEnd, ReplaceAll, StepEnd;
      assert forall k :: 0 <= k < SpaceEnd(t, 0) + 1 ==> ReplaceAll(t, r)[k] == t[k];
    } else {
      ReplaceBegins(t, r);
      hide MatchAtStart, SpaceEnd, ReplaceAll, StepEnd;
      var line, u := t[..LineEnd(t, 0)], ReplaceAll(t, r);
      assert forall k :: 0 <= k < |line| ==> u[k] == line[k] == t[k];
    }
  }

  /** Replacing types, by any text, makes a separator exactly if the text holds one or completes one. */
  lemma {:induction false} TypedWholeIff(t: string, r: string)
    requires Whole(t)
    ensures Whole(ReplaceAll(t, r)) <==> (HasValue(t) ==> Whole(r)) && !SomeCompletes(t, r)
    decreases |t|
  {
    hide MatchAtStart, FirstCompletes, StepEnd, StepText, Whole, ItemAt;
    StepWholeIff(t, r);
    var end := StepEnd(t);
    if end < |t| {
      TypedWholeIff(t[end + 1..], r);
      ReplaceKeepsHeadPlain(t[end + 1..], r);
      WholeLines(StepText(t, r), ReplaceAll(t[end + 1..], r));
    }
  }

  /** The characters `- id:` begin `s`. */
  predicate HeadFirst(s: string) {
    5 <= |s| && s[0] == '-' && s[1] == ' ' && s[2] == 'i' && s[3] == 'd' && s[4] == ':'
  }

  lemma {:induction false} PlainNeverCompletes(t: string, r: string)
    requires PlainValue(r) && !HeadFirst(r)
    ensures !SomeCompletes(t, r) && Whole(r)
    decreases |t|
  {
    assert !FirstCompletes(t, r) by {
      hide MatchAtStart;
      if MatchAtStart(t).Match? {
        PlainDoesNotComplete(t, MatchAtStart(t).value, r);
      }
    }
    if StepEnd(t) < |t| {
      PlainNeverCompletes(t[StepEnd(t) + 1..], r);
    }
  }

  lemma PlainDoesNotComplete(t: string, value: nat, r: string)
    requires PlainValue(r) && !HeadFirst(r)
    ensures !CompletesItem(t, value, r)
  {
    hide CompletesBehind;
    PlainNotBehind(t, value, r, 0);
    PlainNotBehind(t, value, r, 1);
    PlainNotBehind(t, value, r, 2);
  }

  lemma PlainNotBehind(t: string, value: nat, r: string, j: nat)
    requires PlainValue(r) && !HeadFirst(r) && j <= 2
    ensures !CompletesBehind(t, value, r, j)
  {
    if j < value <= |t| {
      PlainIsNoTail(t[value - j..value], r);
    }
  }

  lemma PlainIsNoTail(w: string, r: string)
    requires PlainValue(r) && !HeadFirst(r) && |w| <= 2
    ensures !ItemAt(w + r, 0)
  {
    hide OneLine;
    var x := w + r;
    assert forall k :: 0 <= k < |r| ==> x[|w| + k] == r[k];
    assert x[|w|] == r[0];
  }

  // ---- Ids ----

  lemma {:induction false} TrimKeepsKey(s: string)
    requires KeyFirst(s)
    ensures KeyAt(TrimSpace(s), 0)
    decreases |s|
  {
    var w := SpaceEnd(s, 0);
    if IsUnicodeSpace(s[0]) {
      SpaceEndIs(s[1..], 0, w - 1);
      TrimKeepsKey(s[1..]);
    } else if IsUnicodeSpace(s[|s| - 1]) {
      SpaceEndIs(s[..|s| - 1], 0, w);
      TrimKeepsKey(s[..|s| - 1]);
    }
  }

  /** The type pattern's first value is on the block's first line, with the id. */
  predicate ValueInId(t: string) {
    MatchAtStart(t).Match? && MatchAtStart(t).value < LineEnd(t, 0)
  }

  /** Then the id stays only if its value is, up to white space at the end, the replacement's first line. */
  predicate KeepsId(t: string, r: string) {
    ValueInId(t) ==> TrimEnd(FirstLine(r)) == TrimEnd(t[MatchAtStart(t).value..LineEnd(t, 0)])
  }

  /** Replacing types keeps a block's id exactly so. */
  lemma RetypedIdIff(t: string, r: string)
    ensures ResultId(ReplaceAll(t, r)) == ResultId(t) <==> KeepsId(t, r)
  {
    hide TrimSpace, TrimEnd, ReplaceAll, SpaceEnd, LineEnd;
    if MatchAtStart(t).NoMatch? {
      UnmatchedFirstLine(t, r);
    } else if ValueInId(t) {
      IdLines(t, r);
      var value, w := MatchAtStart(t).value, SpaceEnd(t, 0);
      var v := t[value..LineEnd(t, 0)];
      IdOfLine(t, v);
      IdOfLine(t, FirstLine(r));
      TrimEndsAgreeIff(t[w..value], v, FirstLine(r));
    } else {
      MatchedFirstLine(t, r);
    }
  }

  /** The first line before and after, when the value is on it. */
  lemma IdLines(t: string, r: string)
    requires ValueInId(t)
    ensures var value := MatchAtStart(t).value;
            && FirstLine(t) == t[..value] + t[value..LineEnd(t, 0)]
            && FirstLine(ReplaceAll(t, r)) == t[..value] + FirstLine(r)
  {
    hide SpaceEnd, LineEnd, ReplaceAll, StepText, StepEnd, OneLine, MatchAtStart;
    var Match(value, end) := MatchAtStart(t);
    StepOfMatch(t, r, value, end);
    ReplaceBegins(t, r);
    FirstLineAt(t, value);
    LineOfPrefix(t[..value], r, ReplaceAll(t, r));
  }

  lemma FirstLineAt(t: string, value: nat)
    requires value <= LineEnd(t, 0)
    ensures FirstLine(t) == t[..value] + t[value..LineEnd(t, 0)] && OneLine(t[..value])
  {
    hide LineEnd;
    assert forall k :: 0 <= k < value ==> t[..value][k] == t[k];
  }

  lemma LineOfPrefix(a: string, r: string, u: string)
    requires OneLine(a) && a + r <= u && (|a + r| < |u| ==> u[|a + r|] == '\n')
    ensures u[..LineEnd(u, 0)] == a + r[..LineEnd(r, 0)]
  {
    hide LineEnd;
    var n, ar := LineEnd(r, 0), a + r;
    assert forall k :: 0 <= k < |ar| ==> u[k] == ar[k];
    assert forall k :: 0 <= k < |r| ==> ar[|a| + k] == r[k];
    LineEndIs(u, 0, |a| + n);
    assert u[..|a| + n] == ar[..|a| + n] == a + r[..n];
  }

  lemma IdOfLine(t: string, x: string)
    requires MatchAtStart(t).Match?
    ensures var value, w := MatchAtStart(t).value, SpaceEnd(t, 0);
            w <= value && TrimSpace(t[..value] + x) == TrimEnd(t[w..value] + x)
  {
    MatchShape(t);
    hide MatchAtStart, LineEnd, TrimSpace, TrimEnd;
    var value, w := MatchAtStart(t).value, SpaceEnd(t, 0);
    var y := t[w..value] + x;
    assert t[..value] + x == t[..w] + y;
    TrimSpaceLeads(t[..w], y);
    assert y[0] == t[w] == 't';
    TrimSpaceIsTrimEnd(y);
  }

  /** A first line without the value stays. */
  lemma MatchedFirstLine(t: string, r: string)
    requires MatchAtStart(t).Match? && !ValueInId(t)
    ensures FirstLine(ReplaceAll(t, r)) == FirstLine(t)
  {
    hide MatchAtStart, SpaceEnd, LineEnd, ReplaceAll;
    MatchShape(t);
    MatchedShape(t, r);
    var u, n := ReplaceAll(t, r), LineEnd(t, 0);
    LineEndIs(u, 0, n);
    assert u[..n] == t[..n];
  }

  /** An id that is not a `type:` key has no value. */
  lemma OtherIdHasNoValue(t: string)
    requires !KeyAt(ResultId(t), 0)
    ensures !ValueInId(t)
  {
    hide MatchAtStart, SpaceEnd, LineEnd, TrimSpace;
    if ValueInId(t) {
      MatchShape(t);
      SpaceEndIs(t[..LineEnd(t, 0)], 0, SpaceEnd(t, 0));
      TrimKeepsKey(t[..LineEnd(t, 0)]);
    }
  }

  lemma UnmatchedFirstLine(t: string, r: string)
    requires MatchAtStart(t).NoMatch?
    ensures FirstLine(ReplaceAll(t, r)) == FirstLine(t)
  {
    hide MatchAtStart, SpaceEnd, LineEnd, ReplaceAll;
    ReplaceBegins(t, r);
    var u, n := ReplaceAll(t, r), LineEnd(t, 0);
    assert forall k :: 0 <= k < n ==> u[k] == t[..n][k];
    LineEndIs(u, 0, n);
    assert u[..n] == t[..n];
  }

  // ---- Notes ----

  /** What stands behind the line end where the note goes in: the note and the rest of the block. */
  function Below(block: string, note: string): string {
    NoteBody(note) + block[NoteAt(block)..]
  }

  /** The part of a block behind the point of insertion is empty or starts with an item head. */
  lemma RestOfBlock(block: string)
    ensures var rest := block[NoteAt(block)..];
            rest == "" || (rest[0] == '\n' && HeadAt(rest, 1) && rest == "\n" + rest[1..])
  {
    var i := NoteAt(block);
    if i < |block| {
      var x, rest := block[i..i + |ITEM_HEAD|], block[i..];
      assert x == ITEM_HEAD;
      assert forall j :: 0 <= j < 8 ==> x[j] == rest[j];
      assert rest[0] == x[0] && rest[1] == x[1] && rest[2] == x[2] && rest[3] == x[3];
      assert rest[4] == x[4] && rest[5] == x[5] && rest[6] == x[6] && rest[7] == x[7];
    }
  }

  lemma NoteBodyWholeIff(note: string)
    ensures Whole(NoteBody(note)) <==> Whole(note)
    ensures !ItemAt(NoteBody(note), 0)
  {
    var body := NOTE_INDENT + note;
    assert forall k :: 6 <= k < |body| ==> body[k] == note[k - 6];
    assert forall k :: 0 <= k < 6 ==> body[k] == ' ';
    WholeConcat(NOTE_INDENT, note);
    assert Whole(NOTE_LINE);
    WholeLines(NOTE_LINE, body);
  }

  /** The edit's note goes into the block. */
  predicate AddsNote(block: string, edit: ReviewerEdit) {
    edit.note != "" && !Contains(block, NOTE_MARK)
  }

  /** Inserting a note makes a separator exactly if the note holds one. */
  lemma NotedWholeIff(block: string, edit: ReviewerEdit)
    ensures Whole(WithNote(block, edit)) <==> Whole(block) && (AddsNote(block, edit) ==> Whole(edit.note))
  {
    if AddsNote(block, edit) {
      var i, body := NoteAt(block), NoteBody(edit.note);
      var rest := block[i..];
      NoteBodyWholeIff(edit.note);
      RestOfBlock(block);
      hide Whole, ItemAt, NoteBody, Contains;
      if rest == "" {
        InsertAtEnd(block, body);
        WholeLines(block, body);
      } else {
        BetweenWholeIff(block[..i], body, rest[1..]);
        NotedParts(block, i, body, rest[1..]);
      }
    }
  }

  lemma NotedParts(block: string, i: nat, body: string, c: string)
    requires i <= |block| && block[i..] == "\n" + c
    ensures block == block[..i] + "\n" + c
    ensures block[..i] + "\n" + (body + block[i..]) == block[..i] + "\n" + (body + "\n" + c)
  {
    assert block == block[..i] + block[i..];
    Regroup4(body, "\n", c);
    Regroup4(block[..i], "\n", c);
  }

  /** The same for a note between two parts of a block. */
  lemma BetweenWholeIff(a: string, body: string, c: string)
    requires !ItemAt(body, 0)
    ensures Whole(a + "\n" + (body + "\n" + c)) <==> Whole(a + "\n" + c) && Whole(body)
  {
    hide Whole, ItemAt;
    WholeLines(a, c);
    BelowWholeIff(body, c);
    WholeLines(a, body + "\n" + c);
  }

  lemma BelowWholeIff(body: string, c: string)
    requires !ItemAt(body, 0)
    ensures Whole(body + "\n" + c) <==> Whole(body) && Whole(c) && !ItemAt(c, 0)
    ensures !ItemAt(body + "\n" + c, 0)
  {
    WholeLines(body, c);
    var s := body + "\n" + c;
    assert forall k :: 0 <= k < |body| ==> s[k] == body[k];
    assert s[|body|] == '\n';
  }

  lemma NoteKeepsFirstLine(block: string, edit: ReviewerEdit)
    ensures FirstLine(WithNote(block, edit)) == FirstLine(block)
  {
    if WithNote(block, edit) != block {
      hide Contains, LineEnd, NoteBody;
      RestOfBlock(block);
      var i, u, n := NoteAt(block), WithNote(block, edit), LineEnd(block, 0);
      assert n <= i;
      assert forall k :: 0 <= k < i ==> u[k] == block[k];
      assert u[i] == '\n';
      LineEndIs(u, 0, n);
      assert u[..n] == block[..n];
    }
  }

  // ---- What an edit does to the structure ----

  function Edited(block: string, edit: ReviewerEdit): string {
    WithNote(WithType(block, edit), edit)
  }

  /**
   The block stays one block: the override, if it is used, neither holds a separator nor completes an item where a
   value of the block stands; the note, if it is added, holds no separator.
   */
  predicate StaysWhole(block: string, edit: ReviewerEdit) {
    && (edit.typeOverride != "" ==>
          (HasValue(block) ==> Whole(edit.typeOverride)) && !SomeCompletes(block, edit.typeOverride))
    && (AddsNote(WithType(block, edit), edit) ==> Whole(edit.note))
  }

  /** And it keeps its id: the id has no value that the override changes. */
  predicate StaysNamed(block: string, edit: ReviewerEdit) {
    edit.typeOverride != "" ==> KeepsId(block, edit.typeOverride)
  }

  /** Any edit of any block: exactly when it is still one block, and exactly when it has the same id. */
  lemma EditKeepsBlockIff(block: string, edit: ReviewerEdit)
    requires Whole(block)
    ensures Whole(Edited(block, edit)) <==> StaysWhole(block, edit)
    ensures ResultId(Edited(block, edit)) == ResultId(block) <==> StaysNamed(block, edit)
  {
    hide Whole, ReplaceAll, TrimSpace, FirstLine, WithNote, AddsNote, HasValue, SomeCompletes, KeepsId;
    var typed := WithType(block, edit);
    if edit.typeOverride != "" {
      TypedWholeIff(block, edit.typeOverride);
      RetypedIdIff(block, edit.typeOverride);
    }
    NotedWholeIff(typed, edit);
    NoteKeepsFirstLine(typed, edit);
  }

  /** What is asked of block `i` of a text, if its id has an edit. */
  predicate BlockStays(blocks: seq<string>, edits: map<string, ReviewerEdit>, i: nat) {
    0 < i < |blocks| && ResultId(blocks[i]) in edits ==> StaysWhole(blocks[i], edits[ResultId(blocks[i])])
  }

  predicate IdStays(blocks: seq<string>, edits: map<string, ReviewerEdit>, i: nat) {
    0 < i < |blocks| && ResultId(blocks[i]) in edits ==> StaysNamed(blocks[i], edits[ResultId(blocks[i])])
  }

  lemma EditedBlockIff(content: string, edits: map<string, ReviewerEdit>, i: nat)
    requires i < |Split(content, SEPARATOR)|
    ensures var blocks := Split(content, SEPARATOR);
            var edited := EditBlocks(blocks, edits);
            && (!Contains(edited[i], SEPARATOR) <==> BlockStays(blocks, edits, i))
            && (i > 0 ==> (ResultId(edited[i]) == ResultId(blocks[i]) <==> IdStays(blocks, edits, i)))
  {
    var blocks := Split(content, SEPARATOR);
    SplitPartsClean(content, SEPARATOR);
    assert blocks[i] in blocks;
    hide Split, ResultId, Contains, StaysWhole, StaysNamed, WithType, WithNote;
    WholeIsUnsplit(blocks[i]);
    WholeIsUnsplit(EditBlocks(blocks, edits)[i]);
    if i > 0 && ResultId(blocks[i]) in edits {
      EditKeepsBlockIff(blocks[i], edits[ResultId(blocks[i])]);
    }
  }

  lemma MergedIsJoined(content: string, input: EditsInput)
    requires input.Edits?
    ensures Merged(content, input) == Join(EditBlocks(Split(content, SEPARATOR), input.byId), SEPARATOR)
  {
    var blocks := Split(content, SEPARATOR);
    hide Split, Join, EditBlock;
    if input.byId == map[] || |blocks| < 2 {
      assert EditBlocks(blocks, input.byId) == blocks by {
        forall i | 0 < i < |blocks| ensures EditBlock(blocks[i], input.byId) == blocks[i] {
          NoEdits(blocks[i], input.byId);
        }
      }
      JoinSplit(content, SEPARATOR);
    }
  }

  lemma NoEdits(block: string, edits: map<string, ReviewerEdit>)
    ensures edits == map[] ==> EditBlock(block, edits) == block
  {
  }

  /** Splitting the merged text gives the edited blocks exactly if each of them stays one block. */
  lemma MergedBlocksIff(content: string, input: EditsInput)
    requires input.Edits?
    ensures var blocks := Split(content, SEPARATOR);
            var after := Split(Merged(content, input), SEPARATOR);
            && (after == EditBlocks(blocks, input.byId) <==>
                forall i: nat | i < |blocks| :: BlockStays(blocks, input.byId, i))
            && (|after| == |blocks| <==> after == EditBlocks(blocks, input.byId))
  {
    var blocks := Split(content, SEPARATOR);
    var edited := EditBlocks(blocks, input.byId);
    hide Split, Join, Contains, BlockStays, IdStays, EditBlocks, Merged;
    MergedIsJoined(content, input);
    SeparatorIsBorderless();
    forall i: nat | i < |blocks| ensures !Contains(edited[i], SEPARATOR) <==> BlockStays(blocks, input.byId, i) {
      EditedBlockIff(content, input.byId, i);
    }
    SplitJoinCount(edited, SEPARATOR);
    if forall i: nat | i < |blocks| :: BlockStays(blocks, input.byId, i) {
      forall part | part in edited ensures !Contains(part, SEPARATOR) {
        var i: nat :| i < |edited| && edited[i] == part;
      }
      SplitJoin(edited, SEPARATOR);
    }
  }

  /** Same preamble, number of blocks and ids in order, and every block whose id has no edit as it was. */
  predicate SameStructure(before: seq<string>, after: seq<string>, edits: map<string, ReviewerEdit>) {
    && |after| == |before| > 0 && after[0] == before[0]
    && (forall i | 0 < i < |before| :: ResultId(after[i]) == ResultId(before[i]))
    && (forall i | 0 < i < |before| && ResultId(before[i]) !in edits :: after[i] == before[i])
  }

  /** For every text and every edits: merging keeps the structure exactly if each edited block stays one and named. */
  lemma MergeKeepsStructureIff(content: string, input: EditsInput)
    requires input.Edits?
    ensures var before := Split(content, SEPARATOR);
            SameStructure(before, Split(Merged(content, input), SEPARATOR), input.byId) <==>
            forall i: nat | i < |before| :: BlockStays(before, input.byId, i) && IdStays(before, input.byId, i)
  {
    var before, after := Split(content, SEPARATOR), Split(Merged(content, input), SEPARATOR);
    MergedBlocksIff(content, input);
    hide Split, Join, Contains, BlockStays, IdStays, ResultId, Merged;
    if after == EditBlocks(before, input.byId) {
      forall i: nat | 0 < i < |before|
        ensures ResultId(after[i]) == ResultId(before[i]) <==> IdStays(before, input.byId, i)
      {
        EditedBlockIff(content, input.byId, i);
      }
      IdOfPreamble(before, input.byId);
    }
  }

  lemma IdOfPreamble(blocks: seq<string>, edits: map<string, ReviewerEdit>)
    ensures IdStays(blocks, edits, 0)
  {
  }

  // ---- Edits that keep the structure of every text ----

  /** A type override is one line of text that is not itself an item head, and no line of a note starts a new item. */
  predicate EditOk(edit: ReviewerEdit) {
    && (edit.typeOverride == "" || (PlainValue(edit.typeOverride) && !HeadFirst(edit.typeOverride)))
    && (edit.note == "" || Whole(edit.note))
  }

  /** An override that the edit of block `i` sets is one line that starts with a visible character. */
  predicate PlainOverride(blocks: seq<string>, edits: map<string, ReviewerEdit>, i: nat) {
    0 < i < |blocks| && ResultId(blocks[i]) in edits ==>
      edits[ResultId(blocks[i])].typeOverride == "" || PlainValue(edits[ResultId(blocks[i])].typeOverride)
  }

  /** Merging keeps the structure, and sets types to such values only. */
  ghost predicate Admissible(content: string, edits: map<string, ReviewerEdit>) {
    var blocks := Split(content, SEPARATOR);
    forall i: nat | i < |blocks| ::
      BlockStays(blocks, edits, i) && IdStays(blocks, edits, i) && PlainOverride(blocks, edits, i)
  }

  /** Such edits, by ids that are not themselves `type:` keys, are admissible whatever the text. */
  lemma OkEditsAreAdmissible(content: string, edits: map<string, ReviewerEdit>)
    requires forall id <- edits :: !KeyAt(id, 0) && EditOk(edits[id])
    ensures Admissible(content, edits)
  {
    hide Split, KeyAt, ResultId, WithType, HasValue, SomeCompletes, Contains, HeadFirst, PlainValue, Whole;
    var blocks := Split(content, SEPARATOR);
    forall i: nat | i < |blocks|
      ensures BlockStays(blocks, edits, i) && IdStays(blocks, edits, i) && PlainOverride(blocks, edits, i)
    {
      if 0 < i && ResultId(blocks[i]) in edits {
        OtherIdHasNoValue(blocks[i]);
        if edits[ResultId(blocks[i])].typeOverride != "" {
          PlainNeverCompletes(blocks[i], edits[ResultId(blocks[i])].typeOverride);
        }
      }
    }
  }

  // ---- Merging twice ----

  /**
   A second type pass leaves the note in `typed` alone: behind a `type:` key that waits for its value only if the
   override is the note's first line, which the key takes for its value, and the note's own types are the override too;
   elsewhere only if all the types in the note are, and one that its last line leaves waiting finds the override below.
   */
  predicate NoteFits(typed: string, edit: ReviewerEdit) {
    if Open(typed[..NoteAt(typed)])
    then edit.typeOverride == NOTE_VALUE && AllValuesAre(NOTE_INDENT + edit.note, edit.typeOverride)
    else AllValuesAre(NOTE_INDENT + edit.note + typed[NoteAt(typed)..], edit.typeOverride)
  }

  /** The one way a second merge differs: the edit sets a type and adds a note, and the note does not fit. */
  predicate Breaks(block: string, edit: ReviewerEdit) {
    && edit.typeOverride != "" && edit.note != ""
    && var typed := WithType(block, edit); !Contains(typed, NOTE_MARK) && !NoteFits(typed, edit)
  }

  lemma LineContainsMark(a: string, x: string)
    ensures Contains(a + "\n" + (NOTE_LINE + "\n" + x), NOTE_MARK)
  {
    var s, n := a + "\n" + (NOTE_LINE + "\n" + x), |a| + 5;
    assert s[n..n + |NOTE_MARK|] == NOTE_MARK;
    assert OccursAt(s, NOTE_MARK, n);
  }

  lemma BelowRegrouped(note: string, rest: string)
    ensures NoteBody(note) + rest == NOTE_LINE + "\n" + (NOTE_INDENT + note + rest)
  {
    hide NOTE_LINE, NOTE_INDENT;
    Regroup4(NOTE_LINE + "\n", NOTE_INDENT + note, rest);
  }

  /** The note's first line: four spaces, then its visible text; the note itself follows. */
  lemma NoteBodyShape(note: string)
    ensures var body := NoteBody(note);
            && SpaceEnd(body, 0) == 4 && LineEnd(body, 0) == |NOTE_LINE| == LineEnd(body, 4)
            && body[4..|NOTE_LINE|] == NOTE_VALUE && body[|NOTE_LINE| + 1..] == NOTE_INDENT + note
            && body == "    " + NOTE_VALUE + "\n" + (NOTE_INDENT + note)
  {
    var body := NoteBody(note);
    NoteLineShape(NOTE_LINE);
    assert body[..|NOTE_LINE|] == NOTE_LINE;
    assert body[4..|NOTE_LINE|] == NOTE_LINE[4..];
    hide NOTE_LINE, NOTE_VALUE, NOTE_INDENT;
    assert forall k :: 0 <= k < |NOTE_LINE| ==> body[k] == NOTE_LINE[k];
    SpaceEndIs(body, 0, 4);
    LineEndIs(body, 0, |NOTE_LINE|);
    LineEndIs(body, 4, |NOTE_LINE|);
  }

  lemma NoteLineShape(line: string)
    requires line == NOTE_LINE
    ensures line == "    " + NOTE_VALUE && line[4..] == NOTE_VALUE && |line| > 4
    ensures OneLine(line) && (forall k :: 0 <= k < 4 ==> IsSpace(line[k])) && !IsSpace(line[4])
  {
  }

  /** The note's first line is passed over. */
  lemma BelowScanned(note: string, rest: string, r: string)
    ensures AllValuesAre(NoteBody(note) + rest, r) <==> AllValuesAre(NOTE_INDENT + note + rest, r)
    ensures ReplaceAll(NoteBody(note) + rest, r) == NOTE_LINE + "\n" + ReplaceAll(NOTE_INDENT + note + rest, r)
  {
    NoteLineShape(NOTE_LINE);
    SpaceEndIs(NOTE_LINE, 0, 4);
    assert NOTE_LINE[4] == NOTE_VALUE[0] == 'r';
    hide NoteBody, SpaceEnd, AllValuesAre, ReplaceAll, NOTE_LINE, NOTE_INDENT;
    BelowRegrouped(note, rest);
    LineFixes(NOTE_LINE, NOTE_INDENT + note + rest, r);
  }

  /** An item head does not begin with a key; its visible text begins like one. */
  lemma HeadIsNoKey(c: string)
    requires HeadAt(c, 0)
    ensures SpaceEnd(c, 0) == 2 < |c| && !KeyFirst(c) && HeadFirst(FirstVisible(c))
  {
    SpaceEndIs(c, 0, 2);
    hide SpaceEnd, LineEnd;
    var v, e := FirstVisible(c), LineEnd(c, 2);
    assert e < |c| ==> c[e] == '\n';
    assert e >= 7;
    assert forall k :: 0 <= k < |v| ==> v[k] == c[k + 2];
  }

  lemma BelowIsNoKey(note: string, rest: string)
    ensures !KeyFirst(NoteBody(note) + rest)
  {
    NoteBodyShape(note);
    var s := NoteBody(note) + rest;
    hide SpaceEnd, LineEnd, NoteBody;
    assert forall k :: 0 <= k < 5 ==> s[k] == NoteBody(note)[k];
    SpaceEndIs(s, 0, 4);
    assert s[4] == NoteBody(note)[4..|NOTE_LINE|][0] == 'r';
  }

  lemma FirstPartFixed(typed: string, r: string)
    requires AllValuesAre(typed, r) && !Open(typed[..NoteAt(typed)])
    ensures AllValuesAre(typed[..NoteAt(typed)], r)
    ensures NoteAt(typed) < |typed| ==> AllValuesAre(typed[NoteAt(typed) + 1..], r)
  {
    hide AllValuesAre, NoteAt, Open, KeyFirst;
    var a, rest := typed[..NoteAt(typed)], typed[NoteAt(typed)..];
    RestOfBlock(typed);
    if rest == "" {
      assert a == typed;
    } else {
      assert typed == a + "\n" + rest[1..];
      RestIsItem(rest);
      AppendFixes(a, rest[1..], r);
    }
  }

  /** With the insertion point not in an open text, the noted block has no value left to replace if the note fits. */
  lemma NotedFixedIff(typed: string, edit: ReviewerEdit)
    requires AllValuesAre(typed, edit.typeOverride) && !Open(typed[..NoteAt(typed)])
    ensures var once := typed[..NoteAt(typed)] + "\n" + Below(typed, edit.note);
            AllValuesAre(once, edit.typeOverride) <==> NoteFits(typed, edit)
  {
    hide AllValuesAre, NoteBody, NoteAt, Open, KeyFirst;
    var a, rest, r := typed[..NoteAt(typed)], typed[NoteAt(typed)..], edit.typeOverride;
    FirstPartFixed(typed, r);
    BelowIsNoKey(edit.note, rest);
    AppendFixes(a, NoteBody(edit.note) + rest, r);
    BelowScanned(edit.note, rest, r);
  }

  /** And then a second type pass leaves the note's first line, whatever else it does. */
  lemma NotedKeepsMark(typed: string, edit: ReviewerEdit)
    requires AllValuesAre(typed, edit.typeOverride) && !Open(typed[..NoteAt(typed)])
    ensures var once := typed[..NoteAt(typed)] + "\n" + Below(typed, edit.note);
            Contains(ReplaceAll(once, edit.typeOverride), NOTE_MARK)
  {
    hide AllValuesAre, NoteBody, NoteAt, Open, KeyFirst, ReplaceAll, Contains;
    var a, rest, r := typed[..NoteAt(typed)], typed[NoteAt(typed)..], edit.typeOverride;
    FirstPartFixed(typed, r);
    BelowIsNoKey(edit.note, rest);
    AppendReplaces(a, NoteBody(edit.note) + rest, r);
    BelowScanned(edit.note, rest, r);
    LineContainsMark(a, ReplaceAll(NOTE_INDENT + edit.note + rest, r));
  }

  lemma RestIsItem(rest: string)
    requires HeadAt(rest, 1)
    ensures HeadAt(rest[1..], 0) && !KeyFirst(rest[1..])
  {
    HeadIsNoKey(rest[1..]);
  }

  /** Above an item head, a waiting key has that head's text for its value. */
  lemma OpenAboveItem(typed: string, r: string)
    requires AllValuesAre(typed, r) && Open(typed[..NoteAt(typed)]) && NoteAt(typed) < |typed|
    ensures HeadFirst(r) && DoneBefore(typed[..NoteAt(typed)], r)
  {
    hide AllValuesAre, NoteAt, Open, KeyFirst, HeadFirst, FirstVisible, DoneBefore;
    var a, rest := typed[..NoteAt(typed)], typed[NoteAt(typed)..];
    RestOfBlock(typed);
    assert typed == a + "\n" + rest[1..];
    RestIsItem(rest);
    HeadIsNoKey(rest[1..]);
    OpenForcesValue(a, rest[1..], r);
  }

  lemma HeadIsOneLine(s: string, i: nat)
    requires OccursAt(s, ITEM_HEAD, i)
    ensures i + 8 <= |s| && s[i] == '\n' && s[i + 3] == '-' && forall k :: i < k < i + 8 ==> s[k] != '\n'
  {
    var head := s[i..i + 8];
    assert head == ITEM_HEAD && forall k :: 0 <= k < 8 ==> head[k] == s[i + k];
    assert head[1] != '\n' && head[2] != '\n' && head[3] != '\n' && head[4] != '\n';
    assert head[5] != '\n' && head[6] != '\n' && head[7] != '\n';
    assert forall k :: i < k < i + 8 ==> s[k] == head[k - i];
  }

  lemma SameHeads(a: string, x: string, i: nat)
    ensures i + 8 <= |a| ==> (OccursAt(a + x, ITEM_HEAD, i) <==> OccursAt(a, ITEM_HEAD, i))
  {
    assert i + 8 <= |a| ==> a[i..i + 8] == (a + x)[i..i + 8];
  }

  /** Where `x` is put behind a text without item heads, in a line that is none itself, the first comes later. */
  lemma HeadsComeLater(a: string, x: string)
    requires "    -" <= x && forall k: nat :: !OccursAt(a, ITEM_HEAD, k)
    ensures NoteAt(a + "\n" + x) > |a| + 5
  {
    var s := a + "\n" + x;
    assert |ITEM_HEAD| == 8 && forall k :: 0 <= k < 5 ==> s[|a| + 1 + k] == x[..5][k];
    assert s[|a|] == '\n' && s[|a| + 1] == s[|a| + 2] == s[|a| + 3] == s[|a| + 4] == ' ' && s[|a| + 5] == '-';
    forall i: nat | i <= |a| + 5 ensures !OccursAt(s, ITEM_HEAD, i) {
      if i + 8 <= |a| {
        SameHeads(a, "\n" + x, i);
        assert s == a + ("\n" + x);
      } else if OccursAt(s, ITEM_HEAD, i) {
        HeadIsOneLine(s, i);
      }
    }
  }

  lemma NoHeadBefore(typed: string)
    ensures forall k: nat :: !OccursAt(typed[..NoteAt(typed)], ITEM_HEAD, k)
  {
    var a := typed[..NoteAt(typed)];
    forall k: nat ensures !OccursAt(a, ITEM_HEAD, k) {
      if OccursAt(a, ITEM_HEAD, k) {
        assert a[k..k + |ITEM_HEAD|] == typed[k..k + |ITEM_HEAD|];
        assert OccursAt(typed, ITEM_HEAD, k);
      }
    }
  }

  lemma NoteComesLater(a: string, x: string, edit: ReviewerEdit)
    requires "    -" <= x && forall k: nat :: !OccursAt(a, ITEM_HEAD, k)
    ensures var u := WithNote(a + "\n" + x, edit); |u| > |a| + 5 && u[|a| + 5] == '-'
  {
    var s := a + "\n" + x;
    HeadsComeLater(a, x);
    hide NoteAt, NoteBody, Contains;
    assert s[|a| + 5] == x[4] == '-';
    assert NoteAt(s) <= |s| && s[..NoteAt(s)][|a| + 5] == s[|a| + 5];
  }

  /** A note put between a waiting key and the item head that is its value: the next merge takes the note's line. */
  lemma AboveItemTwice(typed: string, edit: ReviewerEdit)
    requires edit.typeOverride != "" && edit.note != "" && AllValuesAre(typed, edit.typeOverride)
    requires Open(typed[..NoteAt(typed)]) && NoteAt(typed) < |typed|
    ensures var once := typed[..NoteAt(typed)] + "\n" + Below(typed, edit.note);
            Edited(once, edit) != once && !NoteFits(typed, edit)
  {
    hide AllValuesAre, Open, DoneBefore, ReplaceAll, Contains, NoteAt, WithNote, HeadFirst, Taken, NoteBody;
    var r, a, rest := edit.typeOverride, typed[..NoteAt(typed)], typed[NoteAt(typed)..];
    OpenAboveItem(typed, r);
    HeadIsNoNote(r);
    var below := NoteBody(edit.note) + rest;
    BelowShape(edit.note, rest);
    OpenReplaces(a, below, r);
    TakenShape(below, r);
    var x := Taken(below, r)[1..];
    assert a + Taken(below, r) == a + "\n" + x;
    NoHeadBefore(typed);
    NoteComesLater(a, x, edit);
    assert (a + "\n" + below)[|a| + 5] == below[4] == 'r';
  }

  lemma HeadIsNoNote(r: string)
    ensures HeadFirst(r) ==> r != NOTE_VALUE
  {
  }

  lemma BelowShape(note: string, rest: string)
    ensures var c := NoteBody(note) + rest; "    r" <= c && SpaceEnd(c, 0) == 4
  {
    NoteBodyShape(note);
    var body, c := NoteBody(note), NoteBody(note) + rest;
    hide NoteBody;
    assert |NOTE_LINE| > 5 && body[4..|NOTE_LINE|][0] == NOTE_VALUE[0] == 'r';
    assert forall k :: 0 <= k < 5 ==> c[k] == body[k];
    SpaceEndIs(c, 0, 4);
    assert body[..4] == "    ";
  }

  lemma TakenShape(c: string, r: string)
    requires SpaceEnd(c, 0) == 4 && "    " <= c && HeadFirst(r)
    ensures var t := Taken(c, r); t != "" && t[0] == '\n' && "    -" <= t[1..]
  {
    var t := Taken(c, r);
    TakenBegins(c, r);
    hide Taken;
    var p := "\n" + c[..4] + r;
    assert p[1] == c[0] == ' ' && p[2] == c[1] == ' ' && p[3] == c[2] == ' ' && p[4] == c[3] == ' ' && p[5] == r[0];
    assert p[..6] == t[..6];
    assert t[1] == ' ' && t[2] == ' ' && t[3] == ' ' && t[4] == ' ' && t[5] == '-';
  }

  lemma TakenBegins(c: string, r: string)
    ensures "\n" + c[..SpaceEnd(c, 0)] + r <= Taken(c, r)
  {
  }

  /** What a second type pass makes of a note under an open key. */
  lemma OpenNoteRetyped(typed: string, note: string, r: string)
    requires AllValuesAre(typed, r) && Open(typed)
    ensures ReplaceAll(typed + "\n" + NoteBody(note), r)
         == typed + ("\n    " + r + "\n" + ReplaceAll(NOTE_INDENT + note, r))
  {
    hide AllValuesAre, Open, KeyFirst, ReplaceAll;
    var body := NoteBody(note);
    NoteBodyShape(note);
    hide NoteBody, DoneBefore;
    AllAreDoneBefore(typed, r);
    OpenReplaces(typed, body, r);
    hide SpaceEnd, LineEnd;
    assert body[..4] == "    ";
    assert "\n" + body[..4] == "\n    ";
  }

  /** The note under the open key is kept exactly when its line is the override, and its types are. */
  lemma OpenNoteKept(typed: string, note: string, r: string)
    requires PlainValue(r)
    ensures typed + ("\n    " + r + "\n" + ReplaceAll(NOTE_INDENT + note, r)) == typed + "\n" + NoteBody(note) <==>
            r == NOTE_VALUE && AllValuesAre(NOTE_INDENT + note, r)
  {
    hide PlainValue, NoteBody, ReplaceAll, AllValuesAre;
    var x, d := typed + "\n    ", NOTE_INDENT + note;
    PlainIsOneLine(r);
    ReplaceFixesExactly(d, r);
    assert OneLine(NOTE_VALUE);
    Regroup5(typed, "\n    ", r, ReplaceAll(d, r));
    NoteBodyRegrouped(typed, note);
    hide NOTE_VALUE, NOTE_INDENT;
    SameLine(x, NOTE_VALUE, d, r, ReplaceAll(d, r));
  }

  lemma Regroup5(a: string, b: string, r: string, d: string)
    ensures a + (b + r + "\n" + d) == (a + b) + r + "\n" + d
  {
  }

  lemma NoteBodyRegrouped(typed: string, note: string)
    ensures typed + "\n" + NoteBody(note) == (typed + "\n    ") + NOTE_VALUE + "\n" + (NOTE_INDENT + note)
  {
    NoteBodyShape(note);
    hide SpaceEnd, LineEnd, NoteBody, NOTE_LINE, NOTE_VALUE, NOTE_INDENT;
    assert typed + "\n    " == typed + "\n" + "    ";
  }

  /** Editing an edited block again changes nothing exactly when the edit does not break it. */
  lemma EditTwice(block: string, edit: ReviewerEdit)
    requires edit.typeOverride == "" || PlainValue(edit.typeOverride)
    ensures Edited(Edited(block, edit), edit) == Edited(block, edit) <==> !Breaks(block, edit)
  {
    hide PlainValue, ReplaceAll, Contains, NoteFits, NoteBody, NoteAt, Whole;
    var typed := WithType(block, edit);
    if edit.typeOverride != "" {
      TypedIsFixed(block, edit);
    }
    if edit.note != "" && !Contains(typed, NOTE_MARK) {
      NotedHasMark(typed, edit);
      if edit.typeOverride != "" {
        NotedTwice(block, edit);
      }
    }
  }

  lemma NotedHasMark(typed: string, edit: ReviewerEdit)
    ensures Contains(typed[..NoteAt(typed)] + "\n" + Below(typed, edit.note), NOTE_MARK)
  {
    hide Contains, NoteAt, NOTE_MARK, NOTE_LINE, NOTE_INDENT;
    var rest := typed[NoteAt(typed)..];
    BelowRegrouped(edit.note, rest);
    LineContainsMark(typed[..NoteAt(typed)], NOTE_INDENT + edit.note + rest);
  }

  lemma TypedIsFixed(block: string, edit: ReviewerEdit)
    requires edit.typeOverride != "" && PlainValue(edit.typeOverride)
    ensures AllValuesAre(WithType(block, edit), edit.typeOverride)
    ensures WithType(WithType(block, edit), edit) == WithType(block, edit)
  {
    hide PlainValue, ReplaceAll, AllValuesAre;
    ReplaceSetsAll(block, edit.typeOverride);
    PlainIsOneLine(edit.typeOverride);
    ReplaceFixesExactly(WithType(block, edit), edit.typeOverride);
  }

  /** The case of a type, a note, and a block that has no note yet. */
  lemma NotedTwice(block: string, edit: ReviewerEdit)
    requires edit.typeOverride != "" && PlainValue(edit.typeOverride) && edit.note != ""
    requires !Contains(WithType(block, edit), NOTE_MARK)
    ensures Edited(Edited(block, edit), edit) == Edited(block, edit) <==> !Breaks(block, edit)
  {
    hide PlainValue, ReplaceAll, Contains, Open, NoteBody, NoteAt, Whole, AllValuesAre, NoteFits;
    var typed, r := WithType(block, edit), edit.typeOverride;
    var a, once := typed[..NoteAt(typed)], Edited(block, edit);
    TypedIsFixed(block, edit);
    NotedHasMark(typed, edit);
    PlainIsOneLine(r);
    if !Open(a) {
      NotedFixedIff(typed, edit);
      NotedKeepsMark(typed, edit);
      ReplaceFixesExactly(once, r);
    } else if NoteAt(typed) < |typed| {
      AboveItemTwice(typed, edit);
    } else {
      assert a == typed;
      InsertAtEnd(typed, NoteBody(edit.note));
      OpenTwice(typed, edit);
    }
  }

  lemma OpenTwice(typed: string, edit: ReviewerEdit)
    requires edit.typeOverride != "" && PlainValue(edit.typeOverride) && edit.note != ""
    requires Open(typed) && AllValuesAre(typed, edit.typeOverride) && NoteAt(typed) == |typed|
    ensures var once := typed + "\n" + NoteBody(edit.note);
            Contains(once, NOTE_MARK) ==> (Edited(once, edit) == once <==> NoteFits(typed, edit))
  {
    hide PlainValue, Contains, Open, NoteAt, Whole, AllValuesAre, ReplaceAll, NoteBody;
    var r, once := edit.typeOverride, typed + "\n" + NoteBody(edit.note);
    assert typed[..|typed|] == typed;
    OpenNoteRetyped(typed, edit.note, r);
    OpenNoteKept(typed, edit.note, r);
    var again := WithType(once, edit);
    if !Contains(again, NOTE_MARK) {
      assert |Edited(once, edit)| == |again| + 1 + |NoteBody(edit.note)|;
      assert |again| > |typed|;
    }
  }

  /** Merging twice is merging once, exactly when no edit breaks its block: for every text and all admissible edits. */
  lemma MergeTwice(content: string, input: EditsInput)
    requires input.Edits? && Admissible(content, input.byId)
    ensures var blocks := Split(content, SEPARATOR);
            Merged(Merged(content, input), input) == Merged(content, input) <==>
            forall i :: 0 < i < |blocks| && ResultId(blocks[i]) in input.byId ==>
                          !Breaks(blocks[i], input.byId[ResultId(blocks[i])])
  {
    var edits, blocks := input.byId, Split(content, SEPARATOR);
    var once, twice := EditBlocks(blocks, edits), EditBlocks(EditBlocks(blocks, edits), edits);
    hide Split, Join, ResultId, Contains, Merged, Breaks, WithType, WithNote, BlockStays, IdStays;
    MergedOnceAndTwice(content, input);
    forall i | 0 < i < |blocks|
      ensures twice[i] == once[i] <==>
              (ResultId(blocks[i]) in edits ==> !Breaks(blocks[i], edits[ResultId(blocks[i])]))
    {
      EditedBlockIff(content, edits, i);
      assert BlockStays(blocks, edits, i) && IdStays(blocks, edits, i) && PlainOverride(blocks, edits, i);
      if ResultId(blocks[i]) in edits {
        EditTwice(blocks[i], edits[ResultId(blocks[i])]);
      }
    }
  }

  /** In the merged text an edited block's values were all the override when the note, if any, was put in. */
  lemma MergedTypesAreSet(content: string, input: EditsInput, i: nat)
    requires input.Edits?
    requires var blocks := Split(content, SEPARATOR);
             && (forall j: nat | j < |blocks| :: BlockStays(blocks, input.byId, j))
             && 0 < i < |blocks| && ResultId(blocks[i]) in input.byId
             && PlainValue(input.byId[ResultId(blocks[i])].typeOverride)
    ensures var after, edit := Split(Merged(content, input), SEPARATOR),
                               input.byId[ResultId(Split(content, SEPARATOR)[i])];
            i < |after| && exists typed :: AllValuesAre(typed, edit.typeOverride) && after[i] == WithNote(typed, edit)
  {
    hide Split, Merged, BlockStays, ResultId, WithNote, ReplaceAll, AllValuesAre;
    var blocks := Split(content, SEPARATOR);
    MergedBlocksIff(content, input);
    TypedIsFixed(blocks[i], input.byId[ResultId(blocks[i])]);
  }

  /** Comparing the two merges is comparing their blocks. */
  lemma MergedOnceAndTwice(content: string, input: EditsInput)
    requires input.Edits?
    requires Admissible(content, input.byId)
    ensures var once := EditBlocks(Split(content, SEPARATOR), input.byId);
            Merged(Merged(content, input), input) == Merged(content, input) <==>
            EditBlocks(once, input.byId) == once
  {
    hide Split, Join, EditBlocks, Merged, Contains, BlockStays;
    var once := EditBlocks(Split(content, SEPARATOR), input.byId);
    var twice := EditBlocks(once, input.byId);
    MergedBlocksIff(content, input);
    MergedIsJoined(Merged(content, input), input);
    JoinSplit(Merged(content, input), SEPARATOR);
    if Merged(Merged(content, input), input) == Merged(content, input) {
      SeparatorIsBorderless();
      SplitJoinCount(twice, SEPARATOR);
      forall part | part in twice ensures !Contains(part, SEPARATOR) {
        var i: nat :| i < |twice| && twice[i] == part;
      }
      SplitJoin(twice, SEPARATOR);
    }
  }

  // ---- What goes wrong outside those conditions ----

  lemma OneBlock(block: string, edits: map<string, ReviewerEdit>)
    requires Whole(block)
    ensures Split(SEPARATOR + block, SEPARATOR) == ["", block]
    ensures edits != map[] ==> Merged(SEPARATOR + block, Edits(edits)) == SEPARATOR + EditBlock(block, edits)
  {
    hide Split, EditBlock, Contains;
    SeparatorIsBorderless();
    WholeIsUnsplit("");
    WholeIsUnsplit(block);
    assert Join(["", block], SEPARATOR) == SEPARATOR + block;
    SplitJoin(["", block], SEPARATOR);
    var edited := EditBlock(block, edits);
    assert EditBlocks(["", block], edits) == ["", edited];
    assert Join(["", edited], SEPARATOR) == "" + SEPARATOR + edited == SEPARATOR + edited;
  }

  const EMPTY_KEY_BLOCK := "r\n type:"
  const EMPTY_KEY_EDIT := ReviewerEdit("Gap", "ok")

  /** A block that ends in an empty `type:` key: the second merge writes over the note. */
  lemma EmptyTypeKeyBreaks()
    ensures var input := Edits(map["r" := EMPTY_KEY_EDIT]);
            var content := SEPARATOR + EMPTY_KEY_BLOCK;
            Admissible(content, input.byId) && Merged(Merged(content, input), input) != Merged(content, input)
  {
    hide Split, Merged, SEPARATOR, Breaks, EditOk, ResultId, Whole, Admissible, EMPTY_KEY_BLOCK, EMPTY_KEY_EDIT;
    EmptyKeyEditOk();
    EmptyKeyId();
    EmptyKeyStays();
    OneBlockTwice(EMPTY_KEY_BLOCK, "r", EMPTY_KEY_EDIT);
  }

  lemma OneBlockTwice(block: string, id: string, edit: ReviewerEdit)
    requires Whole(block) && ResultId(block) == id && !KeyAt(id, 0)
    requires EditOk(edit)
    ensures var content, input := SEPARATOR + block, Edits(map[id := edit]);
            && Admissible(content, input.byId)
            && (Merged(Merged(content, input), input) == Merged(content, input) <==> !Breaks(block, edit))
  {
    hide Split, Merged, SEPARATOR, Breaks, EditOk, ResultId, Whole, Admissible, KeyAt, PlainValue;
    var content, input := SEPARATOR + block, Edits(map[id := edit]);
    OneBlock(block, map[id := edit]);
    OkEditsAreAdmissible(content, input.byId);
    assert ["", block][1] == block;
    MergeTwice(content, input);
  }

  lemma EmptyKeyEditOk()
    ensures EditOk(EMPTY_KEY_EDIT) && !KeyAt("r", 0)
  {
  }

  lemma EmptyKeyId()
    ensures ResultId(EMPTY_KEY_BLOCK) == "r" && Whole(EMPTY_KEY_BLOCK)
  {
    LineEndIs(EMPTY_KEY_BLOCK, 0, 1);
    assert FirstLine(EMPTY_KEY_BLOCK) == "r";
  }

  lemma EmptyKeyStays()
    ensures Breaks(EMPTY_KEY_BLOCK, EMPTY_KEY_EDIT)
  {
    hide ReplaceAll, AllValuesAre, Open, IndexOf;
    EmptyKeyIsOpen(" type:");
    EmptyKeyHasNoMark();
    ReplaceFixesExactly(EMPTY_KEY_BLOCK, "Gap");
  }

  lemma EmptyKeyHasNoMark()
    ensures !Contains(EMPTY_KEY_BLOCK, NOTE_MARK)
    ensures EMPTY_KEY_BLOCK[..NoteAt(EMPTY_KEY_BLOCK)] == EMPTY_KEY_BLOCK
  {
    var block := EMPTY_KEY_BLOCK;
    assert |block| == |ITEM_HEAD| && block[0..8] == block && block[0] != ITEM_HEAD[0];
    assert !OccursAt(block, ITEM_HEAD, 0);
  }

  lemma EmptyKeyIsOpen(rest: string)
    requires rest == " type:"
    ensures Open(EMPTY_KEY_BLOCK) && AllValuesAre(EMPTY_KEY_BLOCK, "Gap")
  {
    var block := EMPTY_KEY_BLOCK;
    SpaceEndIs(block, 0, 0);
    LineEndIs(block, 0, 1);
    assert block[2..] == rest;
    SpaceEndIs(rest, 0, 1);
    SpaceEndIs(rest, 6, 6);
    assert BareKey(rest);
    BareKeyHasNoMatch(rest, "Gap");
    assert Open(rest);
  }

  const CROSSING_BLOCK := "r\n type:\n  v"
  const CROSSING_TYPED := "r\n type:\n  - id: x"

  /** An override that is an item head can start a new block. */
  lemma ItemOverrideAddsBlock()
    ensures var content, input := SEPARATOR + CROSSING_BLOCK, Edits(map["r" := ReviewerEdit("- id: x", "")]);
            |Split(Merged(content, input), SEPARATOR)| > |Split(content, SEPARATOR)|
  {
    hide ReplaceAll;
    var edits := map["r" := ReviewerEdit("- id: x", "")];
    ItemOverrideTyped();
    LineEndIs(CROSSING_BLOCK, 0, 1);
    assert FirstLine(CROSSING_BLOCK) == "r";
    assert EditBlock(CROSSING_BLOCK, edits) == CROSSING_TYPED;
    OneBlock(CROSSING_BLOCK, edits);
    ItemBlockSplits();
  }

  lemma ItemBlockSplits()
    ensures |Split(SEPARATOR + CROSSING_TYPED, SEPARATOR)| == 3
  {
    var parts := ["", "r\n type:", "x"];
    assert CROSSING_TYPED == parts[1] + SEPARATOR + parts[2];
    assert Whole(parts[0]) && Whole(parts[1]) && Whole(parts[2]);
    hide Split, Whole;
    SeparatorIsBorderless();
    WholeIsUnsplit(parts[0]);
    WholeIsUnsplit(parts[1]);
    WholeIsUnsplit(parts[2]);
    assert parts[1..] == [parts[1], parts[2]];
    assert Join(parts[1..], SEPARATOR) == CROSSING_TYPED;
    assert Join(parts, SEPARATOR) == SEPARATOR + CROSSING_TYPED;
    SplitJoin(parts, SEPARATOR);
  }

  lemma ItemOverrideTyped()
    ensures ReplaceAll(CROSSING_BLOCK, "- id: x") == CROSSING_TYPED
  {
    hide ReplaceAll, StepText, StepEnd;
    var rest, typed := " type:\n  v", " type:\n  - id: x";
    ItemOverrideFirstLine();
    ItemOverrideStep(rest);
    ReplaceFirst(CROSSING_BLOCK, "- id: x");
    assert CROSSING_BLOCK[2..] == rest;
    assert "r" + "\n" + typed == CROSSING_TYPED;
  }

  lemma ReplaceFirst(t: string, r: string)
    ensures StepEnd(t) < |t| ==> ReplaceAll(t, r) == StepText(t, r) + "\n" + ReplaceAll(t[StepEnd(t) + 1..], r)
  {
  }

  lemma ItemOverrideFirstLine()
    ensures StepEnd(CROSSING_BLOCK) == 1 && StepText(CROSSING_BLOCK, "- id: x") == "r"
  {
    SpaceEndIs(CROSSING_BLOCK, 0, 0);
    LineEndIs(CROSSING_BLOCK, 0, 1);
  }

  lemma ItemOverrideStep(rest: string)
    requires rest == " type:\n  v"
    ensures ReplaceAll(rest, "- id: x") == " type:\n  - id: x"
  {
    SpaceEndIs(rest, 0, 1);
    SpaceEndIs(rest, 6, 9);
    LineEndIs(rest, 9, 10);
    assert MatchAtStart(rest) == Match(9, 10);
  }

  /** An id that is itself a `type:` key is rewritten with the types, and the block has another id. */
  lemma TypeKeyIdIsRewritten()
    ensures ResultId(" type: a") == "type: a"
    ensures ResultId(EditBlock(" type: a", map["type: a" := ReviewerEdit("b", "")])) == "type: b"
  {
    var block := " type: a";
    TrimOneSpace("type: a");
    TrimOneSpace("type: b");
    LineEndIs(block, 0, 8);
    assert FirstLine(block) == block;
    SpaceEndIs(block, 0, 1);
    SpaceEndIs(block, 6, 7);
    LineEndIs(block, 7, 8);
    assert MatchAtStart(block) == Match(7, 8);
    assert ReplaceAll(block, "b") == " type: b";
    LineEndIs(" type: b", 0, 8);
    assert FirstLine(" type: b") == " type: b";
  }

  lemma TrimOneSpace(s: string)
    requires s != "" && !IsUnicodeSpace(s[0]) && !IsUnicodeSpace(s[|s| - 1])
    ensures TrimSpace(" " + s) == s
  {
    assert (" " + s)[1..] == s;
  }
}
