/** Reading a note back: what a reader of the merged YAML finds under a block's note key. */
module NoteReader {
  import opened Options
  import opened Text
  import opened TypePattern
  import opened DraftMerge

  /** How many spaces `t` begins with. */
  function Indent(t: string): (n: nat)
    ensures n <= |t| && (n < |t| ==> t[n] != ' ') && forall k | 0 <= k < n :: t[k] == ' '
  {
    if t == "" || t[0] != ' ' then 0 else Indent(t[1..]) + 1
  }

  /** The first line's text, behind its indentation, begins with the key. */
  predicate KeyLine(t: string) {
    OccursAt(t, "reviewer-note:", Indent(t))
  }

  /** What stands below the first line. */
  function LinesBelow(t: string): (below: string)
    ensures t != "" ==> |below| < |t|
  {
    if LineEnd(t, 0) == |t| then "" else t[LineEnd(t, 0) + 1..]
  }

  /** `block` from its first line with the key on. */
  function FromKey(block: string): string
    decreases |block|
  {
    if KeyLine(block) || LineEnd(block, 0) == |block| then block else FromKey(LinesBelow(block))
  }

  /** The leading lines indented further than the key, each without `cut` spaces, folded into one. */
  function Folded(t: string, key: nat, cut: nat): string
    decreases |t|
  {
    var line := FirstLine(t);
    if Indent(line) <= key then ""
    else
      var text := if cut <= Indent(line) then line[cut..] else line[Indent(line)..];
      var more := Folded(LinesBelow(t), key, cut);
      if more == "" then text else text + " " + more
  }

  /** The folded text under a block's note key, if it has one; the first line of the text sets its indentation. */
  function ReadNote(block: string): Option<string> {
    var t := FromKey(block);
    if !KeyLine(t) || FirstLine(t)[Indent(FirstLine(t))..] != "reviewer-note: >-" then None
    else Some(Folded(LinesBelow(t), Indent(t), Indent(LinesBelow(t))))
  }

  lemma IndentIs(t: string, n: nat)
    ensures n <= |t| && (n < |t| ==> t[n] != ' ') && (forall k | 0 <= k < n :: t[k] == ' ') ==> Indent(t) == n
  {
  }

  lemma LinesSplit(a: string, c: string)
    ensures OneLine(a) ==> LineEnd(a + "\n" + c, 0) == |a|
    ensures OneLine(a) ==> FirstLine(a + "\n" + c) == a && LinesBelow(a + "\n" + c) == c
  {
    if OneLine(a) {
      assert forall k | 0 <= k < |a| :: (a + "\n" + c)[k] == a[k];
      LineEndIs(a + "\n" + c, 0, |a|);
      assert (a + "\n" + c)[|a| + 1..] == c;
    }
  }

  lemma OneLineAlone(a: string)
    ensures OneLine(a) ==> FirstLine(a) == a && LinesBelow(a) == ""
  {
    if OneLine(a) {
      LineEndIs(a, 0, |a|);
    }
  }

  /** Where there is no key above, the reader comes to what is below. */
  lemma NoKeyAbove(a: string, c: string)
    ensures !Contains(a, NOTE_MARK) ==> !KeyLine(a + "\n" + c)
  {
    var s, n, m := a + "\n" + c, Indent(a + "\n" + c), |NOTE_MARK|;
    assert s[|a|] == '\n' && n <= |a|;
    if n + m <= |a| {
      assert s[n..n + m] == a[n..n + m];
      assert OccursAt(s, NOTE_MARK, n) ==> OccursAt(a, NOTE_MARK, n);
    } else if n + m <= |s| {
      assert s[n..n + m][|a| - n] == '\n';
      assert forall k | 0 <= k < m :: NOTE_MARK[k] != '\n';
    }
  }

  lemma LineEndAppended(a: string, c: string)
    ensures LineEnd(a + "\n" + c, 0) == LineEnd(a, 0)
  {
    hide LineEnd;
    assert forall k | 0 <= k < |a| :: (a + "\n" + c)[k] == a[k];
    LineEndIs(a + "\n" + c, 0, LineEnd(a, 0));
  }

  lemma DropAppended(a: string, c: string, n: nat)
    ensures n <= |a| ==> (a + "\n" + c)[n..] == a[n..] + "\n" + c
  {
  }

  lemma LinesOfAppended(a: string, c: string)
    ensures LineEnd(a, 0) == |a| ==> LinesBelow(a + "\n" + c) == c
    ensures LineEnd(a, 0) < |a| ==> LinesBelow(a + "\n" + c) == LinesBelow(a) + "\n" + c
  {
    LineEndAppended(a, c);
    hide LineEnd;
    if LineEnd(a, 0) == |a| {
      LinesSplit(a, c);
    } else {
      DropAppended(a, c, LineEnd(a, 0) + 1);
    }
  }

  lemma MarkInRest(a: string, e: nat)
    requires e <= |a| && !Contains(a, NOTE_MARK)
    ensures !Contains(a[e..], NOTE_MARK)
  {
    forall k ensures !OccursAt(a[e..], NOTE_MARK, k) {
      if OccursAt(a[e..], NOTE_MARK, k) {
        assert a[e..][k..k + |NOTE_MARK|] == a[e + k..e + k + |NOTE_MARK|];
        assert OccursAt(a, NOTE_MARK, e + k);
      }
    }
  }

  lemma {:induction false} KeyIsBelow(a: string, c: string)
    requires !Contains(a, NOTE_MARK)
    ensures FromKey(a + "\n" + c) == FromKey(c)
    decreases |a|
  {
    hide KeyLine, Contains, LineEnd, NOTE_MARK;
    NoKeyAbove(a, c);
    LineEndAppended(a, c);
    LinesOfAppended(a, c);
    if LineEnd(a, 0) < |a| {
      MarkInRest(a, LineEnd(a, 0) + 1);
      KeyIsBelow(LinesBelow(a), c);
    }
  }

  /** Folded text is one line. */
  lemma {:induction false} FoldedIsOneLine(t: string, key: nat, cut: nat)
    ensures OneLine(Folded(t, key, cut))
    decreases |t|
  {
    hide Indent, LineEnd, LinesBelow;
    if Indent(FirstLine(t)) > key {
      FoldedIsOneLine(LinesBelow(t), key, cut);
    }
  }

  lemma NoteIndent(note: string, rest: string)
    ensures OneLine(note) ==> OneLine(NOTE_INDENT + note)
    ensures rest == "" || rest[0] == '\n' ==> Indent(NOTE_INDENT + note + rest) == 6 + Indent(note)
    ensures (NOTE_INDENT + note)[6 + Indent(note)..] == note[Indent(note)..]
  {
    var t, n := NOTE_INDENT + note + rest, 6 + Indent(note);
    assert forall k | 0 <= k < n :: t[k] == ' ';
    assert n < |NOTE_INDENT + note| ==> t[n] == note[Indent(note)];
    IndentIs(t, n);
  }

  /** The text under the key is a one-line note without its leading spaces; nothing behind it is part of it. */
  lemma FoldedNote(note: string, rest: string)
    requires OneLine(note)
    requires rest == "" || (rest[0] == '\n' && HeadAt(rest, 1) && rest == "\n" + rest[1..])
    ensures var t := NOTE_INDENT + note + rest; Folded(t, 4, Indent(t)) == note[Indent(note)..]
  {
    var line, t := NOTE_INDENT + note, NOTE_INDENT + note + rest;
    NoteIndent(note, "");
    NoteIndent(note, rest);
    assert line + "" == line;
    hide Indent, HeadAt, NOTE_INDENT, FirstLine, LinesBelow;
    if rest == "" {
      OneLineAlone(line);
      NothingFolded("", 4, Indent(t));
    } else {
      assert t == line + "\n" + rest[1..];
      LinesSplit(line, rest[1..]);
      RestIsHead(rest);
      HeadEnds(rest[1..], Indent(t));
    }
  }

  lemma RestIsHead(rest: string)
    ensures HeadAt(rest, 1) ==> HeadAt(rest[1..], 0)
  {
  }

  lemma NothingFolded(t: string, key: nat, cut: nat)
    ensures t == "" ==> Folded(t, key, cut) == ""
  {
  }

  lemma HeadEnds(c: string, cut: nat)
    ensures HeadAt(c, 0) ==> Folded(c, 4, cut) == ""
  {
    if HeadAt(c, 0) {
      var line := FirstLine(c);
      assert LineEnd(c, 0) > 2;
      assert line[0] == ' ' && line[1] == ' ' && line[2] == '-';
      IndentIs(line, 2);
    }
  }

  /** The key's line: its indentation, and the key behind it. */
  lemma HeaderShape(line: string)
    requires line == "    reviewer-note: >-"
    ensures OneLine(line) && |line| == 21 && line[4..18] == "reviewer-note:" && line[4..] == "reviewer-note: >-"
    ensures line[0] == line[1] == line[2] == line[3] == ' ' != line[4]
  {
  }

  lemma KeyOfNote(line: string, u: string)
    requires line == "    reviewer-note: >-"
    ensures var c := line + "\n" + u;
            && KeyLine(c) && Indent(c) == Indent(line) == 4 && FirstLine(c) == line && LinesBelow(c) == u
  {
    HeaderShape(line);
    LinesSplit(line, u);
    SliceOfAppended(line, u, 4, 18);
    var c := line + "\n" + u;
    assert forall k | 0 <= k < 5 :: c[k] == line[k];
    IndentIs(c, 4);
    IndentIs(line, 4);
  }

  /** The reader finds the key of an added note four spaces in, and its text below. */
  lemma FromAddedNote(block: string, edit: ReviewerEdit)
    requires AddsNote(block, edit)
    ensures var t, u := FromKey(WithNote(block, edit)), NOTE_INDENT + edit.note + block[NoteAt(block)..];
            && KeyLine(t) && Indent(t) == 4 && FirstLine(t) == "    reviewer-note: >-" && LinesBelow(t) == u
  {
    assert NOTE_LINE == "    reviewer-note: >-";
    hide NoteAt, Contains, KeyLine, Indent, LineEnd, FirstLine, LinesBelow, NOTE_LINE, NOTE_INDENT, NOTE_MARK;
    var a, rest := block[..NoteAt(block)], block[NoteAt(block)..];
    BelowRegrouped(edit.note, rest);
    NoMarkAbove(block);
    KeyIsBelow(a, NoteBody(edit.note) + rest);
    KeyOfNote(NOTE_LINE, NOTE_INDENT + edit.note + rest);
  }

  lemma NoMarkAbove(block: string)
    ensures !Contains(block, NOTE_MARK) ==> !Contains(block[..NoteAt(block)], NOTE_MARK)
  {
    if !Contains(block, NOTE_MARK) {
      forall k ensures !OccursAt(block[..NoteAt(block)], NOTE_MARK, k) {
        if OccursAt(block[..NoteAt(block)], NOTE_MARK, k) {
          assert block[..NoteAt(block)][k..k + |NOTE_MARK|] == block[k..k + |NOTE_MARK|];
          assert OccursAt(block, NOTE_MARK, k);
        }
      }
    }
  }

  /** A note that is added is read back if and only if it is one line and does not begin with a space. */
  lemma NoteReadsBackIff(block: string, edit: ReviewerEdit)
    requires AddsNote(block, edit)
    ensures ReadNote(WithNote(block, edit)) == Some(edit.note) <==> OneLine(edit.note) && edit.note[0] != ' '
    ensures Indent(FromKey(WithNote(block, edit))) == 4
  {
    var t, note, rest := FromKey(WithNote(block, edit)), edit.note, block[NoteAt(block)..];
    FromAddedNote(block, edit);
    RestOfBlock(block);
    HeaderShape(FirstLine(t));
    IndentIs(FirstLine(t), 4);
    hide FromKey, WithNote, NoteAt, Contains, KeyLine, Indent, FirstLine, LinesBelow, NOTE_INDENT, HeadAt, Folded;
    FoldedIsOneLine(LinesBelow(t), 4, Indent(LinesBelow(t)));
    if OneLine(note) {
      FoldedNote(note, rest);
      Untrimmed(note);
    }
  }

  lemma Untrimmed(note: string)
    ensures note != "" ==> (note[Indent(note)..] == note <==> note[0] != ' ')
  {
  }

  /** So it is in the merged text, where the edits leave every block one block. */
  lemma MergedNoteReadsBackIff(content: string, input: EditsInput, i: nat)
    requires input.Edits?
    requires var blocks := Split(content, SEPARATOR);
             && (forall j: nat | j < |blocks| :: BlockStays(blocks, input.byId, j))
             && 0 < i < |blocks| && ResultId(blocks[i]) in input.byId
             && var edit := input.byId[ResultId(blocks[i])]; AddsNote(WithType(blocks[i], edit), edit)
    ensures var after, note := Split(Merged(content, input), SEPARATOR),
                               input.byId[ResultId(Split(content, SEPARATOR)[i])].note;
            i < |after| && (ReadNote(after[i]) == Some(note) <==> OneLine(note) && note[0] != ' ')
  {
    hide Split, Merged, BlockStays, ResultId, WithType, WithNote, ReadNote, AddsNote;
    var blocks := Split(content, SEPARATOR);
    var edit := input.byId[ResultId(blocks[i])];
    MergedBlocksIff(content, input);
    NoteReadsBackIff(WithType(blocks[i], edit), edit);
  }
}
