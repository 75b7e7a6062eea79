// Deleting a character, with what wraps behind it pulled back (src/hyper/dialog.c).
module InputDeletion {
  import opened Characters
  import opened InputText
  import opened InputEdits
  import opened InputViews
  import opened InputLines

  // ----- what becomes of the lines ---------------------------------------------------------

  // Line m and those that continue it give up the first character of line m.
  function PulledViews(v: seq<View>, m: nat, size: nat): seq<View>
    requires WellWrapped(RowsOf(v), size) && 0 < m < |v| && v[m].row.chars != ""
    decreases |v| - m
  {
    if v[m].row.soft then
      PulledStays(v, m, size);
      PulledViews(v[m := View(PulledRow(RowsOf(v), m), v[m].number, true)], m + 1, size)
    else if |v[m].row.chars| == 1 then
      v[m := View(Row("", false), v[m].number, true)][m-1 := View(Row(v[m-1].row.chars, false), v[m-1].number, true)]
    else
      v[m := View(Row(v[m].row.chars[1..], false), v[m].number, true)]
  }

  lemma PulledStays(v: seq<View>, m: nat, size: nat)
    requires WellWrapped(RowsOf(v), size) && m < |v| && v[m].row.soft
    ensures v[m].row.chars != "" && m + 1 < |v| && v[m+1].row.chars != ""
    ensures var r := PulledRow(RowsOf(v), m);
            var a := v[m := View(r, v[m].number, true)];
            RowsOf(a) == RowsOf(v)[m := r] && WellWrapped(RowsOf(a), size)
  {
    assert RowsOf(v)[m] == v[m].row;
    RowsOfUpdate(v, m, View(PulledRow(RowsOf(v), m), v[m].number, true));
    PulledRowIsWrapped(RowsOf(v), m, size);
  }

  lemma {:induction false} PulledViewsRows(v: seq<View>, m: nat, size: nat)
    requires WellWrapped(RowsOf(v), size) && 0 < m < |v| && v[m].row.chars != ""
    ensures RowsOf(PulledViews(v, m, size)) == Pulled(RowsOf(v), m, size)
    decreases |v| - m
  {
    if v[m].row.soft {
      PulledStays(v, m, size);
      PulledViewsRows(v[m := View(PulledRow(RowsOf(v), m), v[m].number, true)], m + 1, size);
    } else if |v[m].row.chars| == 1 {
      var a := v[m := View(Row("", false), v[m].number, true)];
      RowsOfUpdate(v, m, View(Row("", false), v[m].number, true));
      RowsOfUpdate(a, m - 1, View(Row(v[m-1].row.chars, false), v[m-1].number, true));
    } else {
      RowsOfUpdate(v, m, View(Row(v[m].row.chars[1..], false), v[m].number, true));
    }
  }

  lemma {:induction false} PulledViewsKeep(v: seq<View>, m: nat, size: nat)
    requires WellWrapped(RowsOf(v), size) && 0 < m < |v| && v[m].row.chars != ""
    ensures var w := PulledViews(v, m, size);
            |w| == |v| && forall k :: 0 <= k < |v| ==> w[k].number == v[k].number && (v[k].closed ==> w[k].closed)
    decreases |v| - m
  {
    if v[m].row.soft {
      PulledStays(v, m, size);
      PulledViewsKeep(v[m := View(PulledRow(RowsOf(v), m), v[m].number, true)], m + 1, size);
    }
  }

  // Line k loses its character at q.
  function DeletedViews(v: seq<View>, k: nat, q: nat, size: nat): seq<View>
    requires WellWrapped(RowsOf(v), size) && k < |v| && q < |v[k].row.chars|
  {
    var s := RemoveAt(v[k].row.chars, q);
    if v[k].row.soft then
      PulledStays(v, k, size);
      PulledViewsKeep(v, k + 1, size);
      var a := PulledViews(v, k + 1, size);
      a[k := View(Row(s + [v[k+1].row.chars[0]], a[k].row.soft), v[k].number, true)]
    else
      v[k := View(Row(s, false), v[k].number, true)]
  }

  lemma DeletedViewsRows(v: seq<View>, k: nat, q: nat, size: nat)
    requires WellWrapped(RowsOf(v), size) && k < |v| && q < |v[k].row.chars|
    ensures var w := DeletedViews(v, k, q, size);
            RowsOf(w) == Deleted(RowsOf(v), k, q, size) && Kept(v, w)
  {
    var s := RemoveAt(v[k].row.chars, q);
    if v[k].row.soft {
      PulledStays(v, k, size);
      PulledViewsRows(v, k + 1, size);
      PulledViewsKeep(v, k + 1, size);
      var a := PulledViews(v, k + 1, size);
      RowsOfUpdate(a, k, View(Row(s + [v[k+1].row.chars[0]], a[k].row.soft), v[k].number, true));
    } else {
      RowsOfUpdate(v, k, View(Row(s, false), v[k].number, true));
    }
  }

  // ----- one line ----------------------------------------------------------------------------

  // A soft line gives up its first character and takes c at its end.
  method PullLine(line: Line, c: char, ghost s: string, size: nat)
    requires line.Holds(Row(s, true), size) && size > 0
    modifies line.buffer
    ensures line.Holds(Row(s[1..] + [c], true), size)
  {
    CopyWithin(line.buffer, 0, 1, size - 1);
    line.buffer[size-1] := c;
    assert line.buffer[..size] == s[1..] + [c];
  }

  // A hard line gives up its first character.
  method DropFirst(line: Line, ghost s: string, ghost size: nat)
    requires line.Holds(Row(s, false), size) && s != ""
    modifies line`len, line.buffer
    ensures line.Holds(Row(s[1..], false), size) && line.Closed(size)
  {
    if line.len > 1 {
      CopyWithin(line.buffer, 0, 1, line.len - 1);
    }
    line.len := line.len - 1;
    line.buffer[line.len] := NUL;
    assert line.buffer[..line.len] == s[1..];
  }

  lemma ShutCells(b: string, s: string, q: nat, n: nat)
    requires q < |s| < |b| && |s| - 1 - q <= n <= |s| - q && b[..|s|] == s
    ensures Copied(b, q, q + 1, n)[|s|-1 := NUL][..|s|-1] == RemoveAt(s, q)
  {
    var l, r := Copied(b, q, q + 1, n)[|s|-1 := NUL][..|s|-1], RemoveAt(s, q);
    forall k | 0 <= k < |s| - 1 ensures l[k] == r[k] {
      assert b[k] == s[k] && b[k+1] == s[k+1];
    }
  }

  // A hard line loses its character at q.
  method CloseUp(line: Line, q: nat, n: nat, ghost s: string, ghost size: nat)
    requires line.Holds(Row(s, false), size) && q < |s| && |s| - 1 - q <= n <= |s| - q
    modifies line`len, line.buffer
    ensures line.Holds(Row(RemoveAt(s, q), false), size) && line.Closed(size)
  {
    ghost var b := line.buffer[..];
    assert b[..|s|] == s;
    ShutCells(b, s, q, n);
    CopyWithin(line.buffer, q, q + 1, n);
    line.len := line.len - 1;
    line.buffer[line.len] := NUL;
    assert line.buffer[..] == Copied(b, q, q + 1, n)[|s|-1 := NUL];
    assert line.buffer[..line.len] == line.buffer[..][..|s|-1];
  }

  lemma ClosedCells(b: string, s: string, q: nat, n: nat, c: char, size: nat)
    requires q < |s| == size < |b| && size - 1 - q <= n <= size - q && b[..size] == s
    ensures Copied(b, q, q + 1, n)[size-1 := c][..size] == RemoveAt(s, q) + [c]
  {
    var l, r := Copied(b, q, q + 1, n)[size-1 := c][..size], RemoveAt(s, q) + [c];
    forall k | 0 <= k < size ensures l[k] == r[k] {
      assert b[k] == s[k];
      assert k + 1 < size ==> b[k+1] == s[k+1];
    }
  }

  // A full line loses its character at q and takes c at its end.
  method CloseAndTake(line: Line, q: nat, n: nat, c: char, ghost s: string, ghost soft: bool, size: nat)
    requires line.Holds(Row(s, soft), size) && q < |s| == size && size - 1 - q <= n <= size - q
    modifies line.buffer
    ensures line.Holds(Row(RemoveAt(s, q) + [c], soft), size)
  {
    ghost var b := line.buffer[..];
    assert b[..size] == s;
    ClosedCells(b, s, q, n, c, size);
    CopyWithin(line.buffer, q, q + 1, n);
    line.buffer[size-1] := c;
    assert line.buffer[..] == Copied(b, q, q + 1, n)[size-1 := c];
    assert line.buffer[..size] == line.buffer[..][..size];
  }

  // ----- the rest of a paragraph -----------------------------------------------------------------

  method PullOne(sym: InputItem, line: Line, ghost m: nat)
    requires sym.Chained() && WellWrapped(RowsOf(sym.views), sym.size)
    requires m < |sym.chain| && line == sym.chain[m] && sym.views[m].row.soft
    modifies sym`views, line.buffer
    ensures sym.Shown()
    ensures sym.views == old(sym.views)[m := View(PulledRow(RowsOf(old(sym.views)), m), old(sym.views[m]).number, true)]
  {
    ghost var r := PulledRow(RowsOf(sym.views), m);
    NextIsHeld(sym, m);
    PullLine(line, line.next.buffer[0], sym.views[m].row.chars, sym.size);
    sym.views := sym.views[m := View(r, sym.views[m].number, true)];
  }

  // The line after a soft one is there, and begins with the first character of its row.
  lemma NextIsHeld(sym: InputItem, m: nat)
    requires sym.Chained() && WellWrapped(RowsOf(sym.views), sym.size)
    requires m < |sym.chain| && sym.views[m].row.soft
    ensures m + 1 < |sym.chain| && sym.chain[m].next == sym.chain[m+1]
    ensures sym.views[m+1].row.chars != "" && sym.chain[m+1].buffer.Length > 0
    ensures sym.chain[m+1].buffer[0] == sym.views[m+1].row.chars[0]
  {
    var r := sym.views[m+1].row;
    assert RowsOf(sym.views)[m] == sym.views[m].row && RowsOf(sym.views)[m+1] == r;
    assert sym.chain[m+1].Holds(r, sym.size);
    assert sym.chain[m+1].buffer[..|r.chars|] == r.chars;
  }

  method PullLast(sym: InputItem, line: Line, ghost m: nat)
    requires Continues(sym, line, m) && !sym.views[m].row.soft
    modifies sym`views, sym.repr`len, sym.slots.Keys
    ensures sym.Shown()
    ensures sym.views == PulledViews(old(sym.views), m, sym.size)
  {
    ghost var v, s := sym.views, sym.views[m].row.chars;
    DropLine(sym, line, m, s);
    if line.len == 0 {
      sym.HardenLine(line.prev, m - 1, v[m-1].row.chars);
    }
  }

  method DropLine(sym: InputItem, line: Line, ghost m: nat, ghost s: string)
    requires sym.Shown() && m < |sym.chain| && line == sym.chain[m] && sym.views[m].row == Row(s, false) && s != ""
    modifies sym`views, line`len, line.buffer
    ensures sym.Shown() && line.len == |s| - 1
    ensures sym.views == old(sym.views)[m := View(Row(s[1..], false), old(sym.views[m]).number, true)]
  {
    DropFirst(line, s, sym.size);
    sym.views := sym.views[m := View(Row(s[1..], false), sym.views[m].number, true)];
  }

  lemma SoftHasNext(sym: InputItem, m: nat)
    requires sym.Chained() && WellWrapped(RowsOf(sym.views), sym.size) && m < |sym.chain|
    ensures sym.views[m].row.soft <==> sym.chain[m].next != null && sym.chain[m].len > sym.size
  {
    assert RowsOf(sym.views)[m] == sym.views[m].row;
    assert sym.chain[m].Holds(sym.views[m].row, sym.size);
  }

  lemma PulledStep(v: seq<View>, m: nat, size: nat)
    requires WellWrapped(RowsOf(v), size) && 0 < m < |v| && v[m].row.chars != "" && v[m].row.soft
    ensures var a := v[m := View(PulledRow(RowsOf(v), m), v[m].number, true)];
            && WellWrapped(RowsOf(a), size) && m + 1 < |v| && a[m+1].row.chars != ""
            && PulledViews(a, m + 1, size) == PulledViews(v, m, size)
  {
    PulledStays(v, m, size);
  }

  // Line m continues the one before it.
  ghost predicate Continues(sym: InputItem, line: Line, m: nat)
    reads sym, sym.repr, sym.slots.Keys
  {
    var continues :=
      && sym.Chained() && WellWrapped(RowsOf(sym.views), sym.size)
      && 0 < m < |sym.chain| && |sym.views| == |sym.chain| && line == sym.chain[m]
      && sym.views[m-1].row.soft && sym.views[m].row.chars != "";
    continues
  }

  method PullOn(sym: InputItem, line: Line, ghost m: nat)
    requires Continues(sym, line, m) && sym.views[m].row.soft
    modifies sym`views, sym.slots.Keys
    ensures line.next != null && Continues(sym, line.next, m + 1)
    ensures PulledViews(sym.views, m + 1, sym.size) == PulledViews(old(sym.views), m, sym.size)
  {
    PulledStep(sym.views, m, sym.size);
    NextIsHeld(sym, m);
    PullOne(sym, line, m);
  }

  method PullSoft(sym: InputItem, line: Line, ghost k: nat) returns (l: Line, ghost m: nat)
    requires Continues(sym, line, k)
    modifies sym`views, sym.slots.Keys
    ensures Continues(sym, l, m) && !sym.views[m].row.soft
    ensures PulledViews(sym.views, m, sym.size) == PulledViews(old(sym.views), k, sym.size)
  {
    l, m := line, k;
    SoftHasNext(sym, m);
    while l.next != null && l.len > sym.size
      invariant Continues(sym, l, m)
      invariant PulledViews(sym.views, m, sym.size) == PulledViews(old(sym.views), k, sym.size)
      invariant sym.views[m].row.soft <==> l.next != null && l.len > sym.size
      decreases |sym.chain| - m
    {
      var next := l.next;
      PullOn(sym, l, m);
      l, m := next, m + 1;
      SoftHasNext(sym, m);
    }
  }

  // Moves the rest of a paragraph back by one character, and gives the character that came off.
  method MoveRestBack(sym: InputItem, line: Line, ghost k: nat) returns (c: char)
    requires Continues(sym, line, k)
    modifies sym`views, sym.repr`len, sym.slots.Keys
    ensures sym.Chained() && sym.views == PulledViews(old(sym.views), k, sym.size)
    ensures c == old(sym.views[k].row.chars[0])
  {
    NextIsHeld(sym, k - 1);
    c := line.buffer[0];
    PullAll(sym, line, k);
  }

  method PullAll(sym: InputItem, line: Line, ghost k: nat)
    requires Continues(sym, line, k)
    modifies sym`views, sym.repr`len, sym.slots.Keys
    ensures sym.Chained() && sym.views == PulledViews(old(sym.views), k, sym.size)
  {
    var l, m := PullSoft(sym, line, k);
    PullLast(sym, l, m);
  }

  // ----- deleting within a line --------------------------------------------------------------------

  method ShutHard(sym: InputItem, line: Line, q: nat, n: nat, ghost k: nat, ghost s: string)
    requires sym.Shown() && k < |sym.chain| && line == sym.chain[k] && sym.views[k].row == Row(s, false)
    requires q < |s| && |s| - 1 - q <= n <= |s| - q
    modifies sym`views, line`len, line.buffer
    ensures sym.Shown()
    ensures sym.views == old(sym.views)[k := View(Row(RemoveAt(s, q), false), old(sym.views[k]).number, true)]
  {
    CloseUp(line, q, n, s, sym.size);
    sym.views := sym.views[k := View(Row(RemoveAt(s, q), false), sym.views[k].number, true)];
  }

  method ShutFull(sym: InputItem, line: Line, q: nat, n: nat, c: char, ghost k: nat, ghost s: string, ghost soft: bool)
    requires sym.Shown() && k < |sym.chain| && line == sym.chain[k] && sym.views[k].row == Row(s, soft)
    requires q < |s| == sym.size && sym.size - 1 - q <= n <= sym.size - q
    modifies sym`views, line.buffer
    ensures sym.Shown()
    ensures sym.views == old(sym.views)[k := View(Row(RemoveAt(s, q) + [c], soft), old(sym.views[k]).number, true)]
  {
    CloseAndTake(line, q, n, c, s, soft, sym.size);
    sym.views := sym.views[k := View(Row(RemoveAt(s, q) + [c], soft), sym.views[k].number, true)];
  }

  // The character at q of line k goes; n is how many characters the copy moves.
  method TakeOut(sym: InputItem, line: Line, q: nat, n: nat, ghost k: nat)
    requires sym.Chained() && WellWrapped(RowsOf(sym.views), sym.size) && k < |sym.chain| && line == sym.chain[k]
    requires var len := |sym.views[k].row.chars|; q < len && len - 1 - q <= n <= len - q
    modifies sym`views, sym.repr`len, sym.slots.Keys
    ensures sym.Chained() && sym.views == DeletedViews(old(sym.views), k, q, sym.size)
  {
    ghost var s, soft := sym.views[k].row.chars, sym.views[k].row.soft;
    SoftHasNext(sym, k);
    if line.len > sym.size {
      ContinuesNext(sym, k);
      var c := MoveRestBack(sym, line.next, k + 1);
      PulledKeepsRow(old(sym.views), k, sym.size);
      ShutFull(sym, line, q, n, c, k, s, sym.views[k].row.soft);
    } else {
      ShutHard(sym, line, q, n, k, s);
    }
  }

  lemma ContinuesNext(sym: InputItem, k: nat)
    requires sym.Chained() && WellWrapped(RowsOf(sym.views), sym.size) && k < |sym.chain| && sym.views[k].row.soft
    ensures k + 1 < |sym.chain| && sym.chain[k].next == sym.chain[k+1] && Continues(sym, sym.chain[k+1], k + 1)
  {
    NextIsHeld(sym, k);
  }

  lemma PulledKeepsRow(v: seq<View>, k: nat, size: nat)
    requires WellWrapped(RowsOf(v), size) && k < |v| && v[k].row.soft
    ensures k + 1 < |v| && v[k+1].row.chars != "" && |v[k].row.chars| == size
    ensures var w := PulledViews(v, k + 1, size);
            |w| == |v| && w[k].row.chars == v[k].row.chars && w[k].number == v[k].number
  {
    PulledStays(v, k, size);
    PulledViewsRows(v, k + 1, size);
    PulledViewsKeep(v, k + 1, size);
    assert RowsOf(v)[k] == v[k].row;
    assert RowsOf(PulledViews(v, k + 1, size))[k] == PulledViews(v, k + 1, size)[k].row;
  }

  // ----- what deleting means for the text -------------------------------------------------------------

  // Whether a last line of one character, that continues another, would be emptied.
  ghost predicate Empties(v: seq<View>, k: nat)
    requires k < |v|
  {
    k > 0 && v[k-1].row.soft && !v[k].row.soft && |v[k].row.chars| == 1
  }

  // Whether the paragraph of line k has two characters in its last line, or ends in line k.
  ghost predicate Ample(v: seq<View>, k: nat)
    requires k < |v|
  {
    v[k].row.soft ==> TailLength(RowsOf(v), k) >= 2
  }

  // The place of the newline that ends the paragraph of line k.
  ghost function EndOf(v: seq<View>, k: nat): nat
    requires k < |v|
  {
    Close(RowsOf(v), k)
  }

  // The text loses the character at o, and gains a newline at the end of the paragraph when
  // the tail is not ample: it is that of v without the character exactly when it is. The
  // lines are well wrapped exactly when none was emptied, which is then the only one to change.
  ghost predicate Removes(v: seq<View>, k: nat, o: nat, w: seq<View>, size: nat)
    requires k < |v|
  {
    var removes :=
      && Loses(TextOf(v), o, EndOf(v, k), Ample(v, k), TextOf(w))
      && (TextOf(w) == RemoveAt(TextOf(v), o) <==> Ample(v, k))
      && (Empties(v, k) ==> RowsOf(w) == RowsOf(v)[k := Row("", false)])
      && (WellWrapped(RowsOf(w), size) <==> !Empties(v, k)) && Kept(v, w);
    removes
  }

  lemma DeletedViewsText(v: seq<View>, k: nat, q: nat, size: nat)
    requires WellWrapped(RowsOf(v), size) && k < |v| && q < |v[k].row.chars|
    ensures Removes(v, k, CaretOf(v, k, q), DeletedViews(v, k, q, size), size)
  {
    var rows := RowsOf(v);
    assert rows[k] == v[k].row && (k > 0 ==> rows[k-1] == v[k-1].row);
    DeletedViewsRows(v, k, q, size);
    DeletedLosesAt(rows, k, q, size);
    DeletedText(rows, k, q, size);
    if Empties(v, k) {
      EmptiedIsNot(rows, k, q, size);
    } else {
      DeletedIsWrapped(rows, k, q, size);
    }
  }

  lemma DeletedViewsPlace(v: seq<View>, k: nat, q: nat, size: nat)
    requires WellWrapped(RowsOf(v), size) && k < |v| && q < |v[k].row.chars|
    ensures var w := DeletedViews(v, k, q, size);
            && |w| == |v| && |w[k].row.chars| == |v[k].row.chars| - (if v[k].row.soft then 0 else 1)
            && forall col :: CaretOf(w, k, col) == CaretOf(v, k, col)
  {
    var w, rows := DeletedViews(v, k, q, size), RowsOf(v);
    assert rows[k] == v[k].row;
    DeletedViewsRows(v, k, q, size);
    BeforeSame(RowsOf(w), rows, k);
    assert w[k].row == RowsOf(w)[k];
  }

  lemma EmptiedIsNot(rows: seq<Row>, k: nat, q: nat, size: nat)
    requires WellWrapped(rows, size) && 0 < k < |rows| && q < |rows[k].chars| == 1 && rows[k-1].soft && !rows[k].soft
    ensures !WellWrapped(Deleted(rows, k, q, size), size)
  {
    var r := Deleted(rows, k, q, size);
    assert r[k-1] == rows[k-1] && r[k].chars == "";
  }

  // ----- Delete and Backspace within a line --------------------------------------------------------

  // After the character at q of line k went, the cursor being in column col.
  lemma SettleDeleted(sym: InputItem, v: seq<View>, k: nat, q: nat, col: nat)
    requires WellWrapped(RowsOf(v), sym.size) && k < |v| && q < |v[k].row.chars|
    requires col + (if v[k].row.soft then 0 else 1) <= |v[k].row.chars|
    requires sym.Anchored() && sym.Chained() && sym.views == DeletedViews(v, k, q, sym.size)
    requires sym.at == k && sym.currLine.cursor == col
    ensures sym.Valid() <==> !Empties(v, k)
    ensures Removes(v, k, CaretOf(v, k, q), sym.views, sym.size) && sym.Caret() == CaretOf(v, k, col)
    ensures CaretOf(v, k, q) - q == CaretOf(v, k, col) - col
  {
    DeletedViewsText(v, k, q, sym.size);
    DeletedViewsPlace(v, k, q, sym.size);
  }

  lemma RowIsHeld(sym: InputItem, k: nat)
    requires sym.Chained() && WellWrapped(RowsOf(sym.views), sym.size) && k < |sym.chain|
    ensures sym.chain[k].len == if sym.views[k].row.soft then sym.size + 1 else |sym.views[k].row.chars|
    ensures |sym.views[k].row.chars| <= sym.size && (sym.views[k].row.soft ==> |sym.views[k].row.chars| == sym.size)
  {
    assert RowsOf(sym.views)[k] == sym.views[k].row;
    assert sym.chain[k].Holds(sym.views[k].row, sym.size);
  }

  // Delete within a line that does not wrap: no other line is touched.
  method DeleteInHard(sym: InputItem) returns (ghost o: nat)
    requires sym.Valid() && sym.currLine.cursor < |sym.views[sym.at].row.chars| && !sym.views[sym.at].row.soft
    modifies sym`views, sym.currLine`len, sym.currLine.buffer
    ensures sym.Anchored() && sym.Chained() && (sym.Valid() <==> !Empties(old(sym.views), sym.at))
    ensures o == old(sym.Caret()) && Removes(old(sym.views), sym.at, o, sym.views, sym.size)
    ensures sym.Caret() == o
  {
    var line, p := sym.currLine, sym.currLine.cursor;
    ghost var v, k := sym.views, sym.at;
    RowIsHeld(sym, k);
    ShutHard(sym, line, p, line.len - p, k, v[k].row.chars);
    SettleDeleted(sym, v, k, p, p);
    o := CaretOf(v, k, p);
  }

  // Delete within a line that wraps. After its last column it takes the character before
  // the cursor.
  method DeleteInSoft(sym: InputItem) returns (ghost o: nat)
    requires sym.Valid() && sym.views[sym.at].row.soft
    modifies sym`views, sym.repr`len, sym.slots.Keys
    ensures sym.Anchored() && sym.Chained() && (sym.Valid() <==> !Empties(old(sym.views), sym.at))
    ensures o == old(sym.Caret()) - (if sym.currLine.cursor == sym.size then 1 else 0)
    ensures Removes(old(sym.views), sym.at, o, sym.views, sym.size)
    ensures sym.Caret() == old(sym.Caret())
  {
    var line, p := sym.currLine, sym.currLine.cursor;
    ghost var v, k := sym.views, sym.at;
    RowIsHeld(sym, k);
    var q := if p == sym.size then p - 1 else p;
    TakeOut(sym, line, q, sym.size - p, k);
    SettleDeleted(sym, v, k, q, p);
    o := CaretOf(v, k, q);
  }

  // Delete, the cursor not being at the end of a paragraph.
  method DeleteInLine(sym: InputItem) returns (ghost o: nat)
    requires sym.Valid() && (sym.currLine.cursor == |sym.views[sym.at].row.chars| ==> sym.views[sym.at].row.soft)
    modifies sym`views, sym.repr`len, sym.slots.Keys
    ensures sym.Anchored() && sym.Chained() && (sym.Valid() <==> !Empties(old(sym.views), sym.at))
    ensures o == old(sym.Caret()) - (if sym.currLine.cursor == sym.size then 1 else 0)
    ensures Removes(old(sym.views), sym.at, o, sym.views, sym.size)
    ensures sym.Caret() == old(sym.Caret())
  {
    RowIsHeld(sym, sym.at);
    if sym.currLine.len > sym.size {
      o := DeleteInSoft(sym);
    } else {
      o := DeleteInHard(sym);
    }
  }

  // Backspace, the cursor not being at the front of the line.
  method BackInLine(sym: InputItem) returns (ghost o: nat)
    requires sym.Valid() && sym.currLine.cursor > 0
    modifies sym`views, sym.repr`len, sym.repr`cursor, sym.slots.Keys
    ensures sym.Anchored() && sym.Chained() && (sym.Valid() <==> !Empties(old(sym.views), sym.at))
    ensures o == old(sym.Caret()) - 1 && Removes(old(sym.views), sym.at, o, sym.views, sym.size)
    ensures sym.Caret() == o && sym.currLine.cursor == old(sym.currLine.cursor) - 1
  {
    ghost var v, k := sym.views, sym.at;
    var q := TakeBefore(sym);
    o := CaretOf(v, k, q);
    SettleDeleted(sym, v, k, q, q);
  }

  method TakeBefore(sym: InputItem) returns (q: nat)
    requires sym.Valid() && sym.currLine.cursor > 0
    modifies sym`views, sym.repr`len, sym.repr`cursor, sym.slots.Keys
    ensures q == old(sym.currLine.cursor) - 1 < |old(sym.views[sym.at].row.chars)| && sym.currLine.cursor == q
    ensures sym.Anchored() && sym.Chained() && sym.views == DeletedViews(old(sym.views), sym.at, q, sym.size)
  {
    var line, p := sym.currLine, sym.currLine.cursor;
    RowIsHeld(sym, sym.at);
    var n := if line.len > sym.size then sym.size - p else line.len - p;
    q := p - 1;
    TakeOut(sym, line, q, n, sym.at);
    line.cursor := q;
  }

  // ----- Backspace from the last line of a paragraph into the line before ---------------------------

  // The last line of a paragraph gives its first character to the line before, in place of
  // the character that goes.
  method HandBack(sym: InputItem, line: Line, ghost k: nat)
    requires Continues(sym, line, k) && !sym.views[k].row.soft
    modifies sym`views, sym.repr`len, sym.slots.Keys
    ensures sym.Chained() && sym.views == DeletedViews(old(sym.views), k - 1, sym.size - 1, sym.size)
  {
    ghost var v, s := sym.views, sym.views[k-1].row.chars;
    NextIsHeld(sym, k - 1);
    PulledKeepsRow(v, k - 1, sym.size);
    var prev: Line := line.prev;
    var d := line.buffer[0];
    PullLast(sym, line, k);
    ShutFull(sym, prev, sym.size - 1, 0, d, k - 1, s, sym.views[k-1].row.soft);
  }

  method SeatAt(sym: InputItem, line: Line, ghost k: nat, col: nat)
    requires sym.Anchored() && k < |sym.chain| && line == sym.chain[k] && line in sym.repr
    modifies sym`currLine, sym`at, line`cursor
    ensures sym.Anchored() && sym.currLine == line && sym.at == k && line.cursor == col
  {
    sym.Seat(line, k);
    line.cursor := col;
  }

  method StepBack(sym: InputItem, line: Line)
    requires sym.Anchored() && Continues(sym, line, sym.at) && line == sym.currLine && !sym.views[sym.at].row.soft
    modifies sym`views, sym`currLine, sym`at, sym.repr`len, sym.repr`cursor, sym.slots.Keys
    ensures sym.Anchored() && sym.Chained() && sym.at == old(sym.at) - 1 && sym.currLine.cursor == sym.size - 1
    ensures sym.views == DeletedViews(old(sym.views), old(sym.at) - 1, sym.size - 1, sym.size)
  {
    var prev: Line := line.prev;
    HandBack(sym, line, sym.at);
    SeatAt(sym, prev, sym.at - 1, sym.size - 1);
  }

  // Backspace at the front of the last line of a paragraph that wraps.
  method BackAcrossWrap(sym: InputItem) returns (ghost o: nat)
    requires sym.Valid() && sym.at > 0 && sym.currLine.cursor == 0
    requires sym.views[sym.at-1].row.soft && !sym.views[sym.at].row.soft
    modifies sym`views, sym`currLine, sym`at, sym.repr`len, sym.repr`cursor, sym.slots.Keys
    ensures sym.Valid() && o == old(sym.Caret()) - 1 && sym.Caret() == o
    ensures Removes(old(sym.views), old(sym.at) - 1, o, sym.views, sym.size)
    ensures sym.at == old(sym.at) - 1 && sym.currLine.cursor == sym.size - 1
  {
    ghost var v, k := sym.views, sym.at;
    NextIsHeld(sym, k - 1);
    BeforeNext(v, k, sym.size);
    o := CaretOf(v, k - 1, sym.size - 1);
    StepBack(sym, sym.currLine);
    SettleBack(sym, v, k);
  }

  lemma SettleBack(sym: InputItem, v: seq<View>, k: nat)
    requires WellWrapped(RowsOf(v), sym.size) && 0 < k < |v| && v[k-1].row.soft
    requires |v[k-1].row.chars| == sym.size > 0
    requires sym.Anchored() && sym.Chained() && sym.views == DeletedViews(v, k - 1, sym.size - 1, sym.size)
    requires sym.at == k - 1 && sym.currLine.cursor == sym.size - 1
    ensures sym.Valid() && Removes(v, k - 1, CaretOf(v, k - 1, sym.size - 1), sym.views, sym.size)
    ensures sym.Caret() == CaretOf(v, k - 1, sym.size - 1)
  {
    SettleDeleted(sym, v, k - 1, sym.size - 1, sym.size - 1);
  }

  lemma BeforeNext(v: seq<View>, k: nat, size: nat)
    requires WellWrapped(RowsOf(v), size) && 0 < k < |v| && v[k-1].row.soft
    ensures CaretOf(v, k - 1, size - 1) == CaretOf(v, k, 0) - 1 && |v[k-1].row.chars| == size > 0
  {
    assert RowsOf(v)[k-1] == v[k-1].row;
  }
}
