// The editing keys of an input area (src/hyper/dialog.c).
module InputEditing {
  import opened InputText
  import opened InputEdits
  import opened InputViews
  import opened InputLines
  import opened InputDeletion
  import opened InputJoining
  import opened InputBreaking
  import opened InputSlipping

  // ----- Return ----------------------------------------------------------------------------

  // Return at the front of a line that is not the first.
  method EnterAtFront(sym: InputItem) returns (ghost n: Line?)
    requires sym.Valid() && sym.at > 0 && sym.currLine.cursor == 0
    modifies sym, sym.repr, sym.slots.Keys
    ensures sym.Valid() && Inserts(old(sym.views), old(sym.Caret()), '\n', sym.views, sym.Caret(), sym.size)
    ensures sym.at == old(sym.at) + (if old(sym.views[sym.at-1].row.soft) then 0 else 1) && sym.currLine.cursor == 0
    ensures Grown(old(sym.repr), old(sym.slots.Keys), sym.repr, sym.slots.Keys, n)
    ensures n != null ==> fresh(n) && fresh(n.buffer)
  {
    n := null;
    PrevLine(sym, sym.at);
    if sym.currLine.prev.len > sym.size {
      sym.EnterAtWrap();
    } else {
      n := EnterAhead(sym);
    }
  }

  // At the front of a paragraph.
  method EnterAhead(sym: InputItem) returns (ghost n: Line?)
    requires sym.Valid() && sym.at > 0 && sym.currLine.cursor == 0 && !sym.views[sym.at-1].row.soft
    modifies sym, sym.repr, sym.slots.Keys
    ensures sym.Valid() && Inserts(old(sym.views), old(sym.Caret()), '\n', sym.views, sym.Caret(), sym.size)
    ensures sym.at == old(sym.at) + 1 && sym.currLine.cursor == 0
    ensures Grown(old(sym.repr), old(sym.slots.Keys), sym.repr, sym.slots.Keys, n)
    ensures n != null ==> fresh(n) && fresh(n.buffer)
  {
    LineBuffers(sym, sym.at);
    RowIsHeld(sym, sym.at);
    var l := sym.NewLine(sym.currLine.number);
    sym.EnterBlank(l);
    n := l;
  }

  // enter_new_line, but for the front of the first line and the last column of a soft one.
  method EnterNewLine(sym: InputItem) returns (ghost n: Line?)
    requires sym.Valid() && (sym.at == 0 ==> sym.currLine.cursor > 0)
    requires sym.views[sym.at].row.soft && sym.currLine.cursor > 0 ==>
               sym.currLine.cursor < sym.size && |ParaText(RowsOf(sym.views), sym.at)| - sym.currLine.cursor < 1024
    modifies sym, sym.repr, sym.slots.Keys
    ensures sym.Valid()
    ensures if old(sym.views[sym.at].row.soft && sym.currLine.cursor > 0)
            then Splits(old(sym.views), old(sym.at), old(sym.currLine.cursor), sym.views, sym.Caret(), sym.size)
            else Inserts(old(sym.views), old(sym.Caret()), '\n', sym.views, sym.Caret(), sym.size)
    ensures sym.currLine.cursor == 0
    ensures sym.at == if old(sym.currLine.cursor == 0 && sym.views[sym.at-1].row.soft) then old(sym.at) else old(sym.at) + 1
    ensures Grown(old(sym.repr), old(sym.slots.Keys), sym.repr, sym.slots.Keys, n)
    ensures n != null ==> fresh(n) && fresh(n.buffer)
  {
    var line := sym.currLine;
    RowIsHeld(sym, sym.at);
    if line.cursor == 0 {
      n := EnterAtFront(sym);
    } else if line.len > sym.size {
      n := ToughEnter(sym);
    } else {
      var l := sym.NewLine(line.number + 1);
      sym.EnterHard(l);
      n := l;
    }
  }

  lemma PrevLine(sym: InputItem, k: nat)
    requires sym.Chained() && WellWrapped(RowsOf(sym.views), sym.size) && 0 < k < |sym.chain|
    ensures sym.chain[k].prev == sym.chain[k-1]
    ensures sym.chain[k-1].len > sym.size <==> sym.views[k-1].row.soft
  {
    RowIsHeld(sym, k - 1);
    assert sym.chain[k].prev == At(sym.chain, k - 1);
  }

  // ----- Delete ----------------------------------------------------------------------------

  // delete_one_char: within a line, at the end of a paragraph, or at the end of the text.
  method DeleteOneChar(sym: InputItem) returns (done: bool, ghost o: nat)
    requires sym.Valid()
    requires AtParagraphEnd(sym) && sym.at + 1 < |sym.views| ==> |ParaText(RowsOf(sym.views), sym.at + 1)| < 1024
    modifies sym, sym.repr, sym.slots.Keys
    ensures var v, k, p := old(sym.views), old(sym.at), old(sym.currLine.cursor);
            if p < |v[k].row.chars| || v[k].row.soft then
              && done && o == old(sym.Caret()) - (if p == sym.size then 1 else 0)
              && Removes(v, k, o, sym.views, sym.size) && (sym.Valid() <==> !Empties(v, k))
            else if k + 1 < |v| then
              done && sym.Valid() && Joins(v, old(sym.Caret()), sym.views, sym.size, old(Shut(sym)))
            else
              !done && sym.Valid() && sym.views == v
    ensures sym.Anchored() && sym.Chained() && sym.Caret() == old(sym.Caret())
    ensures sym.at == old(sym.at) && sym.currLine.cursor == old(sym.currLine.cursor)
    ensures sym.repr == old(sym.repr) && sym.slots.Keys == old(sym.slots.Keys)
  {
    var line := sym.currLine;
    RowIsHeld(sym, sym.at);
    o := 0;
    done := true;
    if line.len != line.cursor {
      o := DeleteInLine(sym);
    } else {
      done := DeleteAtEnd(sym);
    }
  }

  method DeleteAtEnd(sym: InputItem) returns (done: bool)
    requires sym.Valid() && AtParagraphEnd(sym)
    requires sym.at + 1 < |sym.views| ==> |ParaText(RowsOf(sym.views), sym.at + 1)| < 1024
    modifies sym, sym.repr, sym.slots.Keys
    ensures sym.Valid() && sym.Caret() == old(sym.Caret()) && done == (old(sym.at) + 1 < old(|sym.views|))
    ensures sym.at == old(sym.at) && sym.currLine == old(sym.currLine)
    ensures sym.currLine.cursor == old(sym.currLine.cursor)
    ensures if done then Joins(old(sym.views), old(sym.Caret()), sym.views, sym.size, old(Shut(sym)))
            else sym.views == old(sym.views)
    ensures sym.repr == old(sym.repr) && sym.slots.Keys == old(sym.slots.Keys)
  {
    LineBuffers(sym, sym.at);
    if sym.currLine.next == null {
      done := false;
    } else {
      done := true;
      JoinHere(sym);
    }
  }

  ghost predicate AtParagraphEnd(sym: InputItem)
    reads sym, sym.repr, sym.slots.Keys
    requires sym.Valid()
  {
    sym.currLine.cursor == |sym.views[sym.at].row.chars| && !sym.views[sym.at].row.soft
  }

  ghost predicate Shut(sym: InputItem)
    reads sym, sym.repr, sym.slots.Keys
    requires sym.Valid()
  {
    sym.at + 1 < |sym.views| && Shuts(sym, sym.at)
  }

  // ----- Backspace -------------------------------------------------------------------------

  // The lines when Backspace is pressed at the front of line k: a soft line is pulled back,
  // whatever comes of it.
  ghost function PulledFirst(v: seq<View>, k: nat, size: nat): (w: seq<View>)
    requires WellWrapped(RowsOf(v), size) && k < |v|
    ensures |w| == |v|
  {
    if v[k].row.soft then
      PulledStays(v, k, size);
      PulledViewsKeep(v, k + 1, size);
      PulledViews(v, k + 1, size)
    else v
  }

  // The text of w, when Backspace has pulled line k of v back: a soft line loses the first
  // character of the line after it, and any other nothing.
  ghost predicate Pulls(v: seq<View>, k: nat, w: seq<View>, size: nat)
    requires k < |v|
  {
    if v[k].row.soft then Loses(TextOf(v), CaretOf(v, k, size), EndOf(v, k), Ample(v, k), TextOf(w))
    else TextOf(w) == TextOf(v)
  }

  lemma PulledFirstText(v: seq<View>, k: nat, size: nat)
    requires WellWrapped(RowsOf(v), size) && k < |v|
    ensures var w := PulledFirst(v, k, size);
            && |w| == |v| && WellWrapped(RowsOf(w), size) && Kept(v, w) && Pulls(v, k, w, size)
            && (TextOf(w) == TextOf(v) <==> !v[k].row.soft)
  {
    if v[k].row.soft {
      PulledSoftText(v, k, size);
      PulledFewer(v, k, size);
    }
  }

  lemma PulledSoftText(v: seq<View>, k: nat, size: nat)
    requires WellWrapped(RowsOf(v), size) && k < |v| && v[k].row.soft
    ensures var w := PulledFirst(v, k, size);
            |w| == |v| && WellWrapped(RowsOf(w), size) && Kept(v, w) && Pulls(v, k, w, size)
  {
    assert RowsOf(v)[k] == v[k].row;
    PulledSoftRows(v, k, size);
    PulledSoftKeeps(v, k, size);
    PulledLosesAt(RowsOf(v), k, size);
  }

  lemma PulledSoftRows(v: seq<View>, k: nat, size: nat)
    requires WellWrapped(RowsOf(v), size) && k < |v| && v[k].row.soft
    ensures k + 1 < |v| && v[k+1].row.chars != "" && PulledFirst(v, k, size) == PulledViews(v, k + 1, size)
    ensures RowsOf(PulledFirst(v, k, size)) == Pulled(RowsOf(v), k + 1, size)
  {
    PulledStays(v, k, size);
    PulledViewsRows(v, k + 1, size);
  }

  lemma PulledSoftKeeps(v: seq<View>, k: nat, size: nat)
    requires WellWrapped(RowsOf(v), size) && k < |v| && v[k].row.soft
    ensures |PulledFirst(v, k, size)| == |v| && Kept(v, PulledFirst(v, k, size))
  {
    PulledStays(v, k, size);
    PulledViewsKeep(v, k + 1, size);
  }

  lemma PulledFewer(v: seq<View>, k: nat, size: nat)
    requires WellWrapped(RowsOf(v), size) && k < |v| && v[k].row.soft
    ensures Letters(TextOf(PulledFirst(v, k, size))) == Letters(TextOf(v)) - 1
  {
    PulledStays(v, k, size);
    PulledViewsRows(v, k + 1, size);
    PulledLettersLost(RowsOf(v), k + 1, size);
  }

  lemma PulledFirstPlace(v: seq<View>, k: nat, size: nat)
    requires WellWrapped(RowsOf(v), size) && k < |v|
    ensures var w := PulledFirst(v, k, size);
            |w| == |v| && w[k].row.chars == v[k].row.chars && CaretOf(w, k, 0) == CaretOf(v, k, 0)
    ensures k > 0 ==> PulledFirst(v, k, size)[k-1].row == v[k-1].row
  {
    if v[k].row.soft {
      var rows, w := RowsOf(v), PulledViews(v, k + 1, size);
      PulledStays(v, k, size);
      PulledViewsRows(v, k + 1, size);
      PulledViewsKeep(v, k + 1, size);
      BeforeSame(RowsOf(w), rows, k);
      assert RowsOf(w)[k] == w[k].row && rows[k] == v[k].row;
      assert k > 0 ==> RowsOf(w)[k-1] == w[k-1].row && rows[k-1] == v[k-1].row;
    }
  }

  lemma PulledLettersLost(rows: seq<Row>, m: nat, size: nat)
    requires WellWrapped(rows, size) && 0 < m < |rows| && rows[m].chars != ""
    ensures Letters(Text(Pulled(rows, m, size))) == Letters(Text(rows)) - 1
  {
    var a := Pulled(rows, m, size);
    LettersOfText(a, 0, size);
    LettersOfText(rows, 0, size);
    PulledLoses(rows, m, size);
    CharsPrefix(a, rows, 0, m);
  }

  // The text of w, when line k of v was pulled back and then joined to the line before: the
  // newline at o is gone, and so is the character that comes after line k if that is soft.
  ghost predicate JoinsPulled(v: seq<View>, k: nat, o: nat, w: seq<View>, size: nat)
    requires k < |v|
  {
    if v[k].row.soft then LosesBoth(TextOf(v), CaretOf(v, k, size), EndOf(v, k), Ample(v, k), o, TextOf(w))
    else o < |TextOf(v)| && TextOf(w) == RemoveAt(TextOf(v), o)
  }

  // First the character at q goes, as in any deletion, and then the one at o.
  ghost predicate LosesBoth(t: string, q: nat, e: nat, ample: bool, o: nat, w: string) {
    q < e < |t| && o < |Lost(t, q, e, ample)| && w == RemoveAt(Lost(t, q, e, ample), o)
  }

  // That is the text without the newline exactly when the line was not soft.
  lemma BackJoins(v: seq<View>, k: nat, o: nat, w: seq<View>, size: nat, shut: bool)
    requires WellWrapped(RowsOf(v), size) && 0 < k < |v| && !v[k-1].row.soft
    requires Joins(PulledFirst(v, k, size), o, w, size, shut) && o == CaretOf(v, k, 0) - 1
    ensures JoinsPulled(v, k, o, w, size) && o < |TextOf(v)|
    ensures TextOf(w) == RemoveAt(TextOf(v), o) <==> !v[k].row.soft
  {
    PulledFirstText(v, k, size);
    NewlineBefore(v, k);
    JoinsAsPulled(v, k, o, PulledFirst(v, k, size), w, size);
    if v[k].row.soft {
      FewerLetters(v, k, o, w, size);
    }
  }

  lemma JoinsAsPulled(v: seq<View>, k: nat, o: nat, p: seq<View>, w: seq<View>, size: nat)
    requires k < |v| && Pulls(v, k, p, size) && o < |TextOf(p)| && TextOf(w) == RemoveAt(TextOf(p), o)
    ensures JoinsPulled(v, k, o, w, size)
  {
    if v[k].row.soft {
      LosesThenRemoves(TextOf(v), CaretOf(v, k, size), EndOf(v, k), Ample(v, k), TextOf(p), o, TextOf(w));
    }
  }

  lemma LosesThenRemoves(t: string, q: nat, e: nat, ample: bool, u: string, o: nat, w: string)
    requires Loses(t, q, e, ample, u) && o < |u| && w == RemoveAt(u, o)
    ensures LosesBoth(t, q, e, ample, o, w)
  {
  }

  lemma FewerLetters(v: seq<View>, k: nat, o: nat, w: seq<View>, size: nat)
    requires WellWrapped(RowsOf(v), size) && k < |v| && v[k].row.soft
    requires o < |TextOf(v)| && TextOf(v)[o] == '\n'
    requires var p := PulledFirst(v, k, size);
             o < |TextOf(p)| && TextOf(p)[o] == '\n' && TextOf(w) == RemoveAt(TextOf(p), o)
    ensures TextOf(w) != RemoveAt(TextOf(v), o)
  {
    PulledFewer(v, k, size);
    LettersRemoved(TextOf(PulledFirst(v, k, size)), o);
    LettersRemoved(TextOf(v), o);
  }

  lemma NewlineBefore(v: seq<View>, k: nat)
    requires 0 < k < |v| && !v[k-1].row.soft
    ensures 0 < CaretOf(v, k, 0) <= |TextOf(v)| && TextOf(v)[CaretOf(v, k, 0)-1] == '\n'
  {
    assert RowsOf(v)[k-1] == v[k-1].row;
    NewlineAtEnd(RowsOf(v), k - 1);
  }

  // Backspace at the front of abc, in lines of two: nothing comes before it, and c is lost.
  lemma FrontLosesLast()
    ensures var v := [View(Row("ab", true), 1, true), View(Row("c", false), 2, true)];
            && WellWrapped(RowsOf(v), 2) && TextOf(v) == "abc\n" && TextOf(PulledFirst(v, 0, 2)) == "ab\n\n"
  {
    var v := [View(Row("ab", true), 1, true), View(Row("c", false), 2, true)];
    var rows := RowsOf(v);
    assert rows == [Row("ab", true), Row("c", false)];
    PulledViewsRows(v, 1, 2);
    var r := Pulled(rows, 1, 2);
    assert r == [Row("ab", false), Row("", false)];
    assert From(r, 2) == "" && From(r, 1) == "\n" && From(rows, 2) == "" && From(rows, 1) == "c\n";
  }

  // Backspace at the front of abc, x in the line before: what is left is xab and an empty line.
  lemma BackspaceLosesLast(w: seq<View>, shut: bool)
    ensures var v := [View(Row("x", false), 1, true), View(Row("ab", true), 2, true), View(Row("c", false), 3, true)];
            && WellWrapped(RowsOf(v), 2) && TextOf(v) == "x\nabc\n"
            && (Joins(PulledFirst(v, 1, 2), 1, w, 2, shut) ==> TextOf(w) == "xab\n\n")
  {
    var v := [View(Row("x", false), 1, true), View(Row("ab", true), 2, true), View(Row("c", false), 3, true)];
    var rows := RowsOf(v);
    assert rows == [Row("x", false), Row("ab", true), Row("c", false)];
    assert From(rows, 3) == "" && From(rows, 2) == "c\n" && From(rows, 1) == "abc\n";
    PulledViewsRows(v, 2, 2);
    PulledBelow(rows);
    assert RemoveAt("x\nab\n\n", 1) == "xab\n\n";
  }

  lemma PulledBelow(rows: seq<Row>)
    requires rows == [Row("x", false), Row("ab", true), Row("c", false)]
    ensures WellWrapped(rows, 2) && Text(Pulled(rows, 2, 2)) == "x\nab\n\n"
  {
    var r := Pulled(rows, 2, 2);
    assert r == [Row("x", false), Row("ab", false), Row("", false)];
    assert From(r, 3) == "" && From(r, 2) == "\n" && From(r, 1) == "ab\n\n";
  }

  // back_over_eoln: the cursor goes to the end of the line before, which takes this one.
  method BackOverEoln(sym: InputItem) returns (ghost o: nat)
    requires sym.Valid() && sym.at > 0 && !sym.views[sym.at-1].row.soft && sym.currLine.cursor == 0
    requires |ParaText(RowsOf(sym.views), sym.at)| < 1024
    modifies sym, sym.repr, sym.slots.Keys
    ensures sym.Valid() && o == old(sym.Caret()) - 1 && sym.Caret() == o
    ensures Joins(old(sym.views), o, sym.views, sym.size, old(Shuts(sym, sym.at - 1)))
    ensures sym.at == old(sym.at) - 1 && sym.currLine == old(sym.chain[sym.at-1])
    ensures sym.currLine.cursor == old(|sym.views[sym.at-1].row.chars|)
    ensures var n := old(|Together(sym, sym.at - 1)|);
            n <= sym.size ==> CellsFrom(sym.currLine, n) == old(CellsFrom(sym.chain[sym.at-1], n))
    ensures sym.repr == old(sym.repr) && sym.slots.Keys == old(sym.slots.Keys)
  {
    ghost var v, k := sym.views, sym.at;
    PrevLine(sym, k);
    RowIsHeld(sym, k - 1);
    EndBefore(v, k, sym.size);
    var prev: Line := sym.currLine.prev;
    SeatAt(sym, prev, k - 1, prev.len);
    o := sym.Caret();
    JoinHere(sym);
  }

  lemma EndBefore(v: seq<View>, k: nat, size: nat)
    requires WellWrapped(RowsOf(v), size) && 0 < k < |v| && !v[k-1].row.soft
    ensures CaretOf(v, k - 1, |v[k-1].row.chars|) == CaretOf(v, k, 0) - 1
  {
    assert RowsOf(v)[k-1] == v[k-1].row;
  }

  // What Backspace does first: the rest of a soft line is moved back.
  method PullFirst(sym: InputItem)
    requires sym.Valid() && sym.currLine.cursor == 0
    modifies sym`views, sym.repr`len, sym.slots.Keys
    ensures sym.Valid() && sym.views == PulledFirst(old(sym.views), sym.at, sym.size) && sym.Caret() == old(sym.Caret())
    ensures old(sym.views[sym.at].row.soft) || unchanged(sym.slots.Keys)
  {
    ghost var v, k := sym.views, sym.at;
    PullRest(sym, sym.currLine, k);
    PulledFirstText(v, k, sym.size);
    PulledFirstPlace(v, k, sym.size);
  }

  method PullRest(sym: InputItem, line: Line, ghost k: nat)
    requires sym.Chained() && WellWrapped(RowsOf(sym.views), sym.size)
    requires k < |sym.chain| == |sym.views| && line == sym.chain[k]
    modifies sym`views, sym.repr`len, sym.slots.Keys
    ensures sym.Chained() && sym.views == PulledFirst(old(sym.views), k, sym.size)
    ensures old(sym.views[k].row.soft) || unchanged(sym.slots.Keys)
  {
    SoftHasNext(sym, k);
    if line.len > sym.size {
      ContinuesNext(sym, k);
      var c := MoveRestBack(sym, line.next, k + 1);
    }
  }

  // What Backspace does at the front of line k: nothing on the first line, one character less
  // where a line wraps into this one, and else one newline less, but for what pulling back a
  // soft line does first. Joined lines are all terminated exactly when shut.
  ghost predicate BacksFromFront(v: seq<View>, k: nat, o: int, caret: int, done: bool, w: seq<View>, now: int,
                                 size: nat, shut: bool)
    requires k < |v|
  {
    var backs :=
      if k == 0 then
        !done && now == caret && Pulls(v, k, w, size) && Kept(v, w) && (TextOf(w) == TextOf(v) <==> !v[k].row.soft)
      else
        && done && 0 <= o == caret - 1 == now
        && if v[k-1].row.soft then BacksAcross(v, k, o, w, size) else BacksOnto(v, k, o, w, size, shut);
    backs
  }

  ghost predicate BacksAcross(v: seq<View>, k: nat, o: nat, w: seq<View>, size: nat)
    requires 0 < k < |v|
  {
    var across := Kept(v, w) && if v[k].row.soft then Slips(v, k, o, w, size) else Removes(v, k - 1, o, w, size);
    across
  }

  ghost predicate BacksOnto(v: seq<View>, k: nat, o: nat, w: seq<View>, size: nat, shut: bool)
    requires k < |v|
  {
    var onto :=
      && JoinsPulled(v, k, o, w, size) && o < |TextOf(v)|
      && (TextOf(w) == RemoveAt(TextOf(v), o) <==> !v[k].row.soft)
      && (Numbered(v) ==> Numbered(w)) && (AllClosed(v) ==> (AllClosed(w) <==> v[k].row.soft || shut));
    onto
  }

  // Whether joining the line of the cursor to the one before leaves a terminator there.
  ghost predicate ShutBefore(sym: InputItem)
    reads sym, sym.repr, sym.slots.Keys
    requires sym.Valid()
  {
    sym.at > 0 && Shuts(sym, sym.at - 1)
  }

  // Where Backspace leaves the cursor: a column to the left, or, at the front of a line, in the
  // last column of the line before if that wraps, and else behind it.
  ghost predicate SeatedBack(v: seq<View>, k: nat, p: nat, at: nat, cursor: nat, size: nat)
    requires k < |v|
  {
    if p > 0 then at == k && cursor == p - 1
    else if k == 0 then at == 0 && cursor == 0
    else at == k - 1 && cursor == if v[k-1].row.soft then size - 1 else |v[k-1].row.chars|
  }

  // move_back_one_char. At the front of a soft line that itself continues another, the
  // width must be two for the count of its copy to make sense.
  method MoveBackOneChar(sym: InputItem) returns (done: bool, ghost o: nat)
    requires sym.Valid()
    requires sym.currLine.cursor == 0 && sym.at > 0 ==>
               if sym.views[sym.at-1].row.soft then sym.views[sym.at].row.soft ==> sym.size > 1
               else |ParaText(RowsOf(PulledFirst(sym.views, sym.at, sym.size)), sym.at)| < 1024
    modifies sym, sym.repr, sym.slots.Keys
    ensures sym.Anchored() && sym.Chained()
    ensures var v, k := old(sym.views), old(sym.at);
            if old(sym.currLine.cursor) > 0 then
              && done && o == old(sym.Caret()) - 1 && sym.Caret() == o
              && Removes(v, k, o, sym.views, sym.size) && (sym.Valid() <==> !Empties(v, k))
            else
              sym.Valid() && BacksFromFront(v, k, o, old(sym.Caret()), done, sym.views, sym.Caret(),
                                            sym.size, old(ShutBefore(sym)))
    ensures SeatedBack(old(sym.views), old(sym.at), old(sym.currLine.cursor), sym.at, sym.currLine.cursor, sym.size)
    ensures sym.repr == old(sym.repr) && sym.slots.Keys == old(sym.slots.Keys)
  {
    if sym.currLine.cursor > 0 {
      o := BackInLine(sym);
      done := true;
    } else {
      done, o := BackAtFront(sym);
    }
  }

  method BackAtFront(sym: InputItem) returns (done: bool, ghost o: nat)
    requires sym.Valid() && sym.currLine.cursor == 0
    requires sym.at > 0 ==>
               if sym.views[sym.at-1].row.soft then sym.views[sym.at].row.soft ==> sym.size > 1
               else |ParaText(RowsOf(PulledFirst(sym.views, sym.at, sym.size)), sym.at)| < 1024
    modifies sym, sym.repr, sym.slots.Keys
    ensures sym.Valid()
    ensures BacksFromFront(old(sym.views), old(sym.at), o, old(sym.Caret()), done, sym.views, sym.Caret(), sym.size,
                           old(ShutBefore(sym)))
    ensures SeatedBack(old(sym.views), old(sym.at), 0, sym.at, sym.currLine.cursor, sym.size)
    ensures sym.repr == old(sym.repr) && sym.slots.Keys == old(sym.slots.Keys)
  {
    StartsText(sym, sym.at);
    if sym.currLine.prev == null {
      PullAtStart(sym);
      done, o := false, 0;
    } else {
      o := BackToBefore(sym);
      done := true;
    }
  }

  method BackToBefore(sym: InputItem) returns (ghost o: nat)
    requires sym.Valid() && sym.currLine.cursor == 0 && sym.at > 0
    requires if sym.views[sym.at-1].row.soft then sym.views[sym.at].row.soft ==> sym.size > 1
             else |ParaText(RowsOf(PulledFirst(sym.views, sym.at, sym.size)), sym.at)| < 1024
    modifies sym, sym.repr, sym.slots.Keys
    ensures sym.Valid() && o == old(sym.Caret()) - 1 && sym.Caret() == o
    ensures var v, k := old(sym.views), old(sym.at);
            if v[k-1].row.soft then BacksAcross(v, k, o, sym.views, sym.size)
            else BacksOnto(v, k, o, sym.views, sym.size, old(ShutBefore(sym)))
    ensures SeatedBack(old(sym.views), old(sym.at), 0, sym.at, sym.currLine.cursor, sym.size)
    ensures sym.repr == old(sym.repr) && sym.slots.Keys == old(sym.slots.Keys)
  {
    PrevLine(sym, sym.at);
    if sym.currLine.prev.len <= sym.size {
      o := BackJoining(sym);
    } else {
      o := BackFromWrap(sym);
    }
  }

  method PullAtStart(sym: InputItem)
    requires sym.Valid() && sym.currLine.cursor == 0
    modifies sym`views, sym.repr`len, sym.slots.Keys
    ensures sym.Valid() && sym.Caret() == old(sym.Caret())
    ensures Pulls(old(sym.views), old(sym.at), sym.views, sym.size) && Kept(old(sym.views), sym.views)
    ensures TextOf(sym.views) == TextOf(old(sym.views)) <==> !old(sym.views[sym.at].row.soft)
  {
    PulledFirstText(sym.views, sym.at, sym.size);
    PullFirst(sym);
  }

  method BackFromWrap(sym: InputItem) returns (ghost o: nat)
    requires sym.Valid() && sym.at > 0 && sym.currLine.cursor == 0 && sym.views[sym.at-1].row.soft
    requires sym.views[sym.at].row.soft ==> sym.size > 1
    modifies sym`views, sym`currLine, sym`at, sym.repr`len, sym.repr`cursor, sym.slots.Keys
    ensures sym.Valid() && o == old(sym.Caret()) - 1 && sym.Caret() == o
    ensures sym.at == old(sym.at) - 1 && sym.currLine.cursor == sym.size - 1
    ensures BacksAcross(old(sym.views), old(sym.at), o, sym.views, sym.size)
  {
    SoftHasNext(sym, sym.at);
    if sym.currLine.len > sym.size {
      o := BackIntoSoft(sym);
    } else {
      o := BackAcrossWrap(sym);
    }
  }

  lemma StartsText(sym: InputItem, k: nat)
    requires sym.Chained() && k < |sym.chain|
    ensures sym.chain[k].prev == null <==> k == 0
  {
    assert sym.chain[k].prev == At(sym.chain, k - 1);
  }

  method BackJoining(sym: InputItem) returns (ghost o: nat)
    requires sym.Valid() && sym.at > 0 && sym.currLine.cursor == 0 && !sym.views[sym.at-1].row.soft
    requires |ParaText(RowsOf(PulledFirst(sym.views, sym.at, sym.size)), sym.at)| < 1024
    modifies sym, sym.repr, sym.slots.Keys
    ensures sym.Valid() && o == old(sym.Caret()) - 1 && sym.Caret() == o
    ensures BacksOnto(old(sym.views), old(sym.at), o, sym.views, sym.size, old(Shuts(sym, sym.at - 1)))
    ensures sym.at == old(sym.at) - 1 && sym.currLine.cursor == old(|sym.views[sym.at-1].row.chars|)
    ensures sym.repr == old(sym.repr) && sym.slots.Keys == old(sym.slots.Keys)
  {
    ghost var v, k, was := sym.views, sym.at, Shuts(sym, sym.at - 1);
    PulledFirstPlace(v, k, sym.size);
    PullFirst(sym);
    FullIsShut(sym, v, k);
    ghost var shut := Shuts(sym, k - 1);
    assert v[k].row.soft || shut == was;
    o := BackOverEoln(sym);
    JoinedOnto(v, k, o, sym.views, sym.size, shut, was);
  }

  // A soft line is full after it was pulled back, so that the joined text fills the line before.
  lemma FullIsShut(sym: InputItem, v: seq<View>, k: nat)
    requires sym.Valid() && WellWrapped(RowsOf(v), sym.size) && 0 < k < |v| && |sym.views| == |v|
    requires v[k].row.soft ==> sym.views[k].row.chars == v[k].row.chars
    ensures v[k].row.soft ==> Shuts(sym, k - 1)
  {
    if v[k].row.soft {
      assert RowsOf(v)[k] == v[k].row && RowsOf(sym.views)[k] == sym.views[k].row;
      TailOfPara(RowsOf(sym.views), k);
    }
  }

  lemma JoinedOnto(v: seq<View>, k: nat, o: nat, w: seq<View>, size: nat, shut: bool, was: bool)
    requires WellWrapped(RowsOf(v), size) && 0 < k < |v| && !v[k-1].row.soft
    requires Joins(PulledFirst(v, k, size), o, w, size, shut) && o == CaretOf(v, k, 0) - 1
    requires if v[k].row.soft then shut else shut == was
    ensures BacksOnto(v, k, o, w, size, was)
  {
    BackJoins(v, k, o, w, size, shut);
    PulledFirstText(v, k, size);
  }
}
