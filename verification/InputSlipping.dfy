// Backspace at the front of a line that wraps and itself continues another
// (move_back_one_char in src/hyper/dialog.c).
module InputSlipping {
  import opened InputText
  import opened InputEdits
  import opened InputViews
  import opened InputLines
  import opened InputDeletion

  // ----- what becomes of the lines ---------------------------------------------------------

  // Line k - 1 loses its last character as it should, but one character of line k is copied
  // short: the last but one stays where it was.
  function SlippedViews(v: seq<View>, k: nat, size: nat): seq<View>
    requires WellWrapped(RowsOf(v), size) && 0 < k < |v| && v[k-1].row.soft && v[k].row.soft && size > 1
  {
    BeforeNext(v, k, size);
    DeletedViewsPlace(v, k - 1, size - 1, size);
    FullRows(v, k, size);
    var d := DeletedViews(v, k - 1, size - 1, size);
    if d[k].row.soft
    then d[k := View(Row(d[k].row.chars[size-2 := v[k].row.chars[size-2]], true), d[k].number, true)]
    else d
  }

  lemma FullRows(v: seq<View>, k: nat, size: nat)
    requires WellWrapped(RowsOf(v), size) && 0 < k < |v| && v[k-1].row.soft && v[k].row.soft && size > 1
    ensures |v[k-1].row.chars| == size && |v[k].row.chars| == size && k + 1 < |v| && v[k+1].row.chars != ""
    ensures var d := DeletedViews(v, k - 1, size - 1, size);
            && |d| == |v| && d[k].row.chars == v[k].row.chars[1..] + [v[k+1].row.chars[0]]
  {
    var rows := RowsOf(v);
    assert rows[k-1] == v[k-1].row && rows[k] == v[k].row && rows[k+1] == v[k+1].row;
    DeletedViewsRows(v, k - 1, size - 1, size);
    DeletedNext(rows, k, size);
    assert DeletedViews(v, k - 1, size - 1, size)[k].row == RowsOf(DeletedViews(v, k - 1, size - 1, size))[k];
  }

  lemma DeletedNext(rows: seq<Row>, k: nat, size: nat)
    requires WellWrapped(rows, size) && 0 < k < |rows| && rows[k-1].soft && rows[k].soft
    ensures Deleted(rows, k - 1, size - 1, size)[k].chars == PulledRow(rows, k).chars
  {
    PulledRowIsWrapped(rows, k, size);
    assert Pulled(rows, k, size) == Pulled(rows[k := PulledRow(rows, k)], k + 1, size);
  }

  lemma SlippedViewsKeep(v: seq<View>, k: nat, size: nat)
    requires WellWrapped(RowsOf(v), size) && 0 < k < |v| && v[k-1].row.soft && v[k].row.soft && size > 1
    ensures WellWrapped(RowsOf(SlippedViews(v, k, size)), size) && Kept(v, SlippedViews(v, k, size))
  {
    var d := DeletedViews(v, k - 1, size - 1, size);
    BeforeNext(v, k, size);
    FullRows(v, k, size);
    DeletedViewsText(v, k - 1, size - 1, size);
    if d[k].row.soft {
      SlipIsWrapped(v, k, d, size);
    }
  }

  // What the slip does to the text that deleting the character would leave.
  lemma SlipText(v: seq<View>, k: nat, size: nat)
    requires WellWrapped(RowsOf(v), size) && 0 < k < |v| && v[k-1].row.soft && v[k].row.soft && size > 1
    ensures |v[k-1].row.chars| == size == |v[k].row.chars|
    ensures var d, w, s := DeletedViews(v, k - 1, size - 1, size), SlippedViews(v, k, size), v[k].row.chars;
            var at := CaretOf(v, k, size - 2);
            && |d| == |v| && |TextOf(w)| == |TextOf(d)| && at < |TextOf(d)|
            && (if Hardens(v, k) then w == d && !Ample(v, k - 1)
                else && TextOf(w) == TextOf(d)[at := s[size-2]]
                     && (TextOf(w) == TextOf(d) <==> s[size-2] == s[size-1]))
  {
    BeforeNext(v, k, size);
    FullRows(v, k, size);
    HardensExactly(v, k, size);
    SlipPlace(v, k, size);
    if Hardens(v, k) {
      HardenedIsShort(v, k, size);
      SlipInText(v, k, size);
    } else {
      SlipChanges(DeletedViews(v, k - 1, size - 1, size), k, v[k].row.chars, v[k+1].row.chars[0], size);
    }
  }

  // Line k is to give its only continuation the one character that is left of the paragraph.
  ghost predicate Hardens(v: seq<View>, k: nat) {
    k + 1 < |v| && !v[k+1].row.soft && |v[k+1].row.chars| == 1
  }

  lemma HardensExactly(v: seq<View>, k: nat, size: nat)
    requires WellWrapped(RowsOf(v), size) && 0 < k < |v| && v[k-1].row.soft && v[k].row.soft && size > 1
    ensures |v[k-1].row.chars| == size && |DeletedViews(v, k - 1, size - 1, size)| == |v|
    ensures DeletedViews(v, k - 1, size - 1, size)[k].row.soft <==> !Hardens(v, k)
  {
    var rows := RowsOf(v);
    FullRows(v, k, size);
    DeletedViewsRows(v, k - 1, size - 1, size);
    assert rows[k-1] == v[k-1].row && rows[k] == v[k].row && rows[k+1] == v[k+1].row;
    PulledHardens(rows, k, size);
    assert RowsOf(DeletedViews(v, k - 1, size - 1, size))[k] == DeletedViews(v, k - 1, size - 1, size)[k].row;
  }

  lemma PulledHardens(rows: seq<Row>, k: nat, size: nat)
    requires WellWrapped(rows, size) && 0 < k < |rows| && rows[k-1].soft && rows[k].soft
    ensures k + 1 < |rows| && rows[k].chars != ""
    ensures Pulled(rows, k, size)[k].soft <==> !(!rows[k+1].soft && |rows[k+1].chars| == 1)
  {
    var a := rows[k := PulledRow(rows, k)];
    PulledRowIsWrapped(rows, k, size);
    assert Pulled(rows, k, size) == Pulled(a, k + 1, size);
    if rows[k+1].soft {
      PulledSoft(a, k, size);
    }
  }

  // Where the character is that the slip leaves.
  lemma SlipPlace(v: seq<View>, k: nat, size: nat)
    requires WellWrapped(RowsOf(v), size) && 0 < k < |v| && v[k-1].row.soft && v[k].row.soft && size > 1
    ensures |v[k-1].row.chars| == size && |DeletedViews(v, k - 1, size - 1, size)| == |v|
    ensures CaretOf(DeletedViews(v, k - 1, size - 1, size), k, size - 2) == CaretOf(v, k, size - 2)
  {
    StillSoft(v, k, size);
    DeletedViewsPlace(v, k - 1, size - 1, size);
    CaretAfterSoft(DeletedViews(v, k - 1, size - 1, size), k, size, size - 2);
    CaretAfterSoft(v, k, size, size - 2);
  }

  // The line before stays full and soft.
  lemma StillSoft(v: seq<View>, k: nat, size: nat)
    requires WellWrapped(RowsOf(v), size) && 0 < k < |v| && v[k-1].row.soft && v[k].row.soft && size > 1
    ensures |v[k-1].row.chars| == size
    ensures var d := DeletedViews(v, k - 1, size - 1, size);
            |d| == |v| && d[k-1].row.soft && |d[k-1].row.chars| == size
  {
    var d, rows := DeletedViews(v, k - 1, size - 1, size), RowsOf(v);
    FullRows(v, k, size);
    DeletedViewsRows(v, k - 1, size - 1, size);
    assert rows[k-1] == v[k-1].row && rows[k] == v[k].row && RowsOf(d)[k-1] == d[k-1].row;
    PulledSoft(rows, k - 1, size);
  }

  lemma CaretAfterSoft(v: seq<View>, k: nat, size: nat, col: nat)
    requires 0 < k < |v| && v[k-1].row.soft && |v[k-1].row.chars| == size
    ensures CaretOf(v, k, col) == CaretOf(v, k - 1, 0) + size + col
  {
    assert RowsOf(v)[k-1] == v[k-1].row;
  }

  lemma SlipInText(v: seq<View>, k: nat, size: nat)
    requires WellWrapped(RowsOf(v), size) && 0 < k < |v| && v[k-1].row.soft && v[k].row.soft && size > 1
    requires |v[k-1].row.chars| == size && k < |DeletedViews(v, k - 1, size - 1, size)|
    requires |DeletedViews(v, k - 1, size - 1, size)[k].row.chars| == size
    ensures CaretOf(DeletedViews(v, k - 1, size - 1, size), k, size - 2) <
            |TextOf(DeletedViews(v, k - 1, size - 1, size))|
  {
    var d := DeletedViews(v, k - 1, size - 1, size);
    assert RowsOf(d)[k] == d[k].row;
    SplitText(RowsOf(d), k);
  }

  lemma SlipChanges(d: seq<View>, k: nat, s: string, c: char, size: nat)
    requires |s| == size > 1 && k < |d| && d[k].row.soft && d[k].row.chars == s[1..] + [c]
    ensures var w := d[k := View(Row(d[k].row.chars[size-2 := s[size-2]], true), d[k].number, true)];
            && CaretOf(d, k, size - 2) < |TextOf(d)| && TextOf(w) == TextOf(d)[CaretOf(d, k, size - 2) := s[size-2]]
            && |TextOf(w)| == |TextOf(d)| && (TextOf(w) == TextOf(d) <==> s[size-2] == s[size-1])
  {
    RowsOfUpdate(d, k, View(Row(d[k].row.chars[size-2 := s[size-2]], true), d[k].number, true));
    ChangedText(RowsOf(d), k, size - 2, s[size-2]);
    assert d[k].row.chars[size-2] == s[size-1];
  }

  // What Backspace at the front of line k makes of the text: it loses the character at o, as
  // in any deletion, but the last character of line k is overwritten by the one before it,
  // unless line k is hardened. That is nothing else than the loss exactly when the two are the
  // same, and the last line of the paragraph holds two.
  ghost predicate Slips(v: seq<View>, k: nat, o: nat, w: seq<View>, size: nat) {
    var slips :=
      && 0 < k < |v| && |v[k].row.chars| == size > 1 && o < |TextOf(v)|
      && Overwrites(TextOf(v), o, EndOf(v, k - 1), Ample(v, k - 1), Hardens(v, k), CaretOf(v, k, size - 2),
                    v[k].row.chars[size-2], TextOf(w))
      && (TextOf(w) == RemoveAt(TextOf(v), o) <==>
            Ample(v, k - 1) && v[k].row.chars[size-2] == v[k].row.chars[size-1]);
    slips
  }

  // The text w is t without the character at o, as in any deletion, with x at position at
  // unless hardened.
  ghost predicate Overwrites(t: string, o: nat, e: nat, ample: bool, hard: bool, at: nat, x: char, w: string) {
    && o < e < |t| && at < |Lost(t, o, e, ample)|
    && w == if hard then Lost(t, o, e, ample) else Lost(t, o, e, ample)[at := x]
  }

  lemma OverwritesExactly(t: string, o: nat, e: nat, ample: bool, d: string, hard: bool, at: nat, x: char, y: char,
                          w: string)
    requires Loses(t, o, e, ample, d) && at < |d|
    requires if hard then w == d && !ample else w == d[at := x] && (w == d <==> x == y)
    ensures Overwrites(t, o, e, ample, hard, at, x, w) && (w == RemoveAt(t, o) <==> ample && x == y)
  {
    LosesExactly(t, o, e, ample, d);
    assert |w| == |d| == |t| - if ample then 1 else 0;
  }

  lemma SlippedViewsText(v: seq<View>, k: nat, o: nat, size: nat)
    requires WellWrapped(RowsOf(v), size) && 0 < k < |v| && v[k-1].row.soft && v[k].row.soft && size > 1
    requires o + 1 == CaretOf(v, k, 0)
    ensures Slips(v, k, o, SlippedViews(v, k, size), size)
  {
    BeforeNext(v, k, size);
    SlipText(v, k, size);
    assert o == CaretOf(v, k - 1, size - 1);
    DeletedViewsText(v, k - 1, size - 1, size);
    var d, s := DeletedViews(v, k - 1, size - 1, size), v[k].row.chars;
    OverwritesExactly(TextOf(v), o, EndOf(v, k - 1), Ample(v, k - 1), TextOf(d), Hardens(v, k), CaretOf(v, k, size - 2),
                      s[size-2], s[size-1], TextOf(SlippedViews(v, k, size)));
  }

  // Taking b from abcdef, in lines of two, doubles c and loses d.
  lemma SlipDoubles()
    ensures var v := [View(Row("ab", true), 1, true), View(Row("cd", true), 2, true), View(Row("ef", false), 3, true)];
            && WellWrapped(RowsOf(v), 2) && TextOf(v) == "abcdef\n" && TextOf(SlippedViews(v, 1, 2)) == "accef\n"
  {
  }

  lemma SlipIsWrapped(v: seq<View>, k: nat, d: seq<View>, size: nat)
    requires WellWrapped(RowsOf(v), size) && WellWrapped(RowsOf(d), size) && k < |v| == |d| && size > 1
    requires |v[k].row.chars| == size == |d[k].row.chars| && d[k].row.soft
    ensures var r := Row(d[k].row.chars[size-2 := v[k].row.chars[size-2]], true);
            var w := d[k := View(r, d[k].number, true)];
            && RowsOf(w) == RowsOf(d)[k := r] && WellWrapped(RowsOf(w), size) && Kept(d, w)
  {
    var r := Row(d[k].row.chars[size-2 := v[k].row.chars[size-2]], true);
    RowsOfUpdate(d, k, View(r, d[k].number, true));
    assert RowsOf(v)[k] == v[k].row && RowsOf(d)[k] == d[k].row;
    assert v[k].row.chars[size-2] in v[k].row.chars;
    assert forall c :: c in r.chars ==> c in d[k].row.chars || c == v[k].row.chars[size-2];
  }

  // Line k is hardened only when one character was left after it.
  lemma HardenedIsShort(v: seq<View>, k: nat, size: nat)
    requires WellWrapped(RowsOf(v), size) && 0 < k < |v| && v[k-1].row.soft && v[k].row.soft && size > 1
    requires |v[k-1].row.chars| == size && |v| == |DeletedViews(v, k - 1, size - 1, size)|
    requires !DeletedViews(v, k - 1, size - 1, size)[k].row.soft
    ensures !Ample(v, k - 1)
  {
    var rows := RowsOf(v);
    assert rows[k-1] == v[k-1].row && rows[k] == v[k].row;
    DeletedViewsRows(v, k - 1, size - 1, size);
    assert DeletedViews(v, k - 1, size - 1, size)[k].row == Deleted(rows, k - 1, size - 1, size)[k];
    PulledRowIsWrapped(rows, k, size);
    assert Pulled(rows, k, size) == Pulled(rows[k := PulledRow(rows, k)], k + 1, size);
    assert TailLength(rows, k - 1) == TailLength(rows, k) == TailLength(rows, k + 1);
    if TailLength(rows, k - 1) >= 2 {
      TailKept(rows, k, PulledRow(rows, k));
      PulledText(rows[k := PulledRow(rows, k)], k + 1, size);
    }
  }

  // ----- pulling leaves the lines before alone ----------------------------------------------------

  lemma {:induction false} PulledElsewhere(v: seq<View>, m: nat, j: nat, x: View, size: nat)
    requires WellWrapped(RowsOf(v), size) && j + 1 < m < |v| && v[m].row.chars != ""
    requires WellWrapped(RowsOf(v[j := x]), size)
    ensures j < |PulledViews(v, m, size)| && PulledViews(v[j := x], m, size) == PulledViews(v, m, size)[j := x]
    decreases |v| - m
  {
    PulledViewsKeep(v, m, size);
    if v[m].row.soft {
      PulledStays(v, m, size);
      PulledStays(v[j := x], m, size);
      var y := View(PulledRow(RowsOf(v), m), v[m].number, true);
      assert v[j := x][m := y] == v[m := y][j := x];
      PulledElsewhere(v[m := y], m + 1, j, x, size);
    }
  }

  // The line before the first that is pulled keeps what it is given, unless it is hardened.
  lemma PulledBefore(v: seq<View>, m: nat, x: View, size: nat)
    requires WellWrapped(RowsOf(v), size) && m + 1 < |v| && v[m+1].row.chars != ""
    requires WellWrapped(RowsOf(v[m := x]), size) && v[m].row.soft && x.row.soft && x.closed
    ensures var w := PulledViews(v, m + 1, size);
            && m < |w|
            && PulledViews(v[m := x], m + 1, size) == w[m := View(Row(x.row.chars, w[m].row.soft), x.number, true)]
  {
    PulledViewsKeep(v, m + 1, size);
    if v[m+1].row.soft {
      PulledStays(v, m + 1, size);
      PulledStays(v[m := x], m + 1, size);
      var y := View(PulledRow(RowsOf(v), m + 1), v[m+1].number, true);
      assert v[m := x][m+1 := y] == v[m+1 := y][m := x];
      PulledElsewhere(v[m+1 := y], m + 2, m, x, size);
      PulledKeepsSoft(v, m, size);
    }
  }

  lemma PulledKeepsSoft(v: seq<View>, m: nat, size: nat)
    requires WellWrapped(RowsOf(v), size) && m + 1 < |v| && v[m+1].row.soft && v[m].row.soft && v[m+1].row.chars != ""
    ensures m < |PulledViews(v, m + 1, size)| && PulledViews(v, m + 1, size)[m].row.soft
  {
    PulledViewsKeep(v, m + 1, size);
    PulledViewsRows(v, m + 1, size);
    PulledSoft(RowsOf(v), m, size);
    assert RowsOf(PulledViews(v, m + 1, size))[m] == PulledViews(v, m + 1, size)[m].row;
  }

  lemma PulledSoft(rows: seq<Row>, m: nat, size: nat)
    requires WellWrapped(rows, size) && m + 1 < |rows| && rows[m+1].soft && rows[m].soft
    ensures rows[m+1].chars != "" && Pulled(rows, m + 1, size)[m].soft
  {
    PulledRowIsWrapped(rows, m + 1, size);
    assert Pulled(rows, m + 1, size) == Pulled(rows[m+1 := PulledRow(rows, m + 1)], m + 2, size);
  }

  lemma {:induction false} PulledUntouched(v: seq<View>, m: nat, size: nat)
    requires WellWrapped(RowsOf(v), size) && 0 < m < |v| && v[m].row.chars != ""
    ensures |PulledViews(v, m, size)| == |v| && forall j :: 0 <= j < m - 1 ==> PulledViews(v, m, size)[j] == v[j]
    decreases |v| - m
  {
    if v[m].row.soft {
      PulledStays(v, m, size);
      PulledUntouched(v[m := View(PulledRow(RowsOf(v), m), v[m].number, true)], m + 1, size);
    }
  }

  // The line after the first character went, c at its end, copied one character short.
  function SlippedRow(s: string, c: char): string
    requires |s| > 1
  {
    (s[1..] + [c])[|s|-2 := s[|s|-2]]
  }

  // What pulling leaves of line k, after its own first character went too.
  function ShiftedRow(a: View, c: char): Row
    requires |a.row.chars| > 1
  {
    Row(if a.row.soft then SlippedRow(a.row.chars, c) else a.row.chars[1..] + [c], a.row.soft)
  }

  // The two lines, once what follows them is pulled back.
  lemma SlippedIs(v: seq<View>, k: nat, size: nat)
    requires WellWrapped(RowsOf(v), size) && 0 < k < |v| && v[k-1].row.soft && v[k].row.soft && size > 1
    ensures |v[k-1].row.chars| == size == |v[k].row.chars| && k + 1 < |v| && v[k+1].row.chars != ""
    ensures var a := PulledViews(v, k + 1, size);
            && |a| == |v| && a[k-1] == v[k-1] && a[k].row.chars == v[k].row.chars
            && SlippedViews(v, k, size) ==
               a[k := View(ShiftedRow(a[k], v[k+1].row.chars[0]), a[k].number, true)]
                [k-1 := View(Row(RemoveAt(v[k-1].row.chars, size - 1) + [v[k].row.chars[0]], true), v[k-1].number,
                  true)]
  {
    var a, rows := PulledViews(v, k + 1, size), RowsOf(v);
    var x := View(PulledRow(rows, k), v[k].number, true);
    FullRows(v, k, size);
    PulledStays(v, k, size);
    PulledUntouched(v, k + 1, size);
    PulledKeepsRow(v, k, size);
    PulledBefore(v, k, x, size);
    assert rows[k] == v[k].row && rows[k+1] == v[k+1].row;
    assert PulledViews(v, k, size) == a[k := View(Row(x.row.chars, a[k].row.soft), v[k].number, true)];
  }

  // ----- the lines themselves --------------------------------------------------------------------

  lemma SlippedAt(s: string, c: char)
    requires |s| > 1
    ensures |SlippedRow(s, c)| == |s|
    ensures forall j :: 0 <= j < |s| - 2 ==> SlippedRow(s, c)[j] == s[j+1]
    ensures SlippedRow(s, c)[|s|-2] == s[|s|-2] && SlippedRow(s, c)[|s|-1] == c
  {
  }

  method SlipLine(line: Line, c: char, ghost s: string, ghost t: string, size: nat)
    requires line.Holds(Row(s, true), size) && size > 1 && |t| == size
    requires (forall j :: 0 <= j < size - 2 ==> t[j] == s[j+1]) && t[size-2] == s[size-2] && t[size-1] == c
    modifies line.buffer
    ensures line.Holds(Row(t, true), size)
  {
    assert line.buffer[..size] == s;
    assert forall j :: 0 <= j < size ==> line.buffer[j] == s[j];
    CopyWithin(line.buffer, 0, 1, size - 2);
    line.buffer[size-1] := c;
    forall j | 0 <= j < size ensures line.buffer[j] == t[j] {
      if j < size - 2 {
        assert line.buffer[j] == old(line.buffer[j+1]) == s[j+1];
      } else if j == size - 2 {
        assert line.buffer[j] == old(line.buffer[j]) == s[j];
      }
    }
    assert line.buffer[..size] == t;
  }

  method SlipOne(sym: InputItem, line: Line, c: char, ghost k: nat, ghost s: string)
    requires sym.Shown() && k < |sym.chain| && line == sym.chain[k]
    requires sym.views[k].row == Row(s, true) && |s| == sym.size > 1
    modifies sym`views, line.buffer
    ensures sym.Shown()
    ensures sym.views == old(sym.views)[k := View(Row(SlippedRow(s, c), true), old(sym.views[k]).number, true)]
  {
    SlippedAt(s, c);
    SlipLine(line, c, s, SlippedRow(s, c), sym.size);
    sym.views := sym.views[k := View(Row(SlippedRow(s, c), true), sym.views[k].number, true)];
  }

  // The line gives up its first character and takes c: one copied short when it is still soft.
  method ShiftOne(sym: InputItem, line: Line, c: char, ghost k: nat, ghost s: string)
    requires sym.Shown() && k < |sym.chain| && line == sym.chain[k]
    requires sym.views[k].row.chars == s && |s| == sym.size > 1
    requires sym.views[k].row.soft <==> line.len > sym.size
    modifies sym`views, line.buffer
    ensures sym.Shown()
    ensures var v := old(sym.views);
            k < |v| && sym.views == v[k := View(ShiftedRow(v[k], c), v[k].number, true)]
  {
    if line.len <= sym.size {
      assert RemoveAt(s, 0) == s[1..];
      ShutFull(sym, line, 0, sym.size - 1, c, k, s, false);
    } else {
      SlipOne(sym, line, c, k, s);
    }
  }

  // The two lines change, when what follows them is pulled back.
  // The lines w are a, with the slip of line k and what it makes of the line before, which
  // held sp: c and d come from the line after and from line k.
  ghost predicate SlipPlan(a: seq<View>, k: nat, c: char, d: char, sp: string, w: seq<View>, size: nat) {
    var plan :=
      && 0 < k < |a| && a[k-1].row == Row(sp, true) && |a[k].row.chars| == size == |sp| > 1
      && w == a[k := View(ShiftedRow(a[k], c), a[k].number, true)]
               [k-1 := View(Row(RemoveAt(sp, size - 1) + [d], true), a[k-1].number, true)];
    plan
  }

  lemma SlipPlanned(v: seq<View>, k: nat, size: nat)
    requires WellWrapped(RowsOf(v), size) && 0 < k < |v| && v[k-1].row.soft && v[k].row.soft && size > 1
    ensures k + 1 < |v| && v[k+1].row.chars != "" && |v[k].row.chars| == size
    ensures SlipPlan(PulledViews(v, k + 1, size), k, v[k+1].row.chars[0], v[k].row.chars[0], v[k-1].row.chars,
                     SlippedViews(v, k, size), size)
  {
    SlippedIs(v, k, size);
  }

  method SlipPair(sym: InputItem, line: Line, prev: Line, c: char, d: char, ghost k: nat, ghost sp: string,
                  ghost w: seq<View>)
    requires sym.Chained() && SlipPlan(sym.views, k, c, d, sp, w, sym.size)
    requires 0 < k < |sym.chain| && line == sym.chain[k] && prev == sym.chain[k-1]
    modifies sym`views, sym.repr`len, sym.slots.Keys
    ensures sym.Chained() && sym.views == w
  {
    RowIsHeldAt(sym, k);
    ShiftOne(sym, line, c, k, sym.views[k].row.chars);
    ShutFull(sym, prev, sym.size - 1, 0, d, k - 1, sp, true);
  }

  lemma SlipReady(sym: InputItem, line: Line, k: nat)
    requires Continues(sym, line, k) && sym.views[k].row.soft
    ensures line.prev == sym.chain[k-1] && line.buffer.Length > 0 && line.buffer[0] == sym.views[k].row.chars[0]
    ensures k + 1 < |sym.chain| && line.next == sym.chain[k+1] && Continues(sym, sym.chain[k+1], k + 1)
  {
    NextIsHeld(sym, k - 1);
    ContinuesNext(sym, k);
    PrevIs(sym, k);
  }

  lemma PrevIs(sym: InputItem, k: nat)
    requires sym.Chained() && 0 < k < |sym.chain|
    ensures sym.chain[k].prev == sym.chain[k-1]
  {
    assert sym.chain[k].prev == At(sym.chain, k - 1);
  }

  method SlipBack(sym: InputItem, line: Line, ghost k: nat, ghost w: seq<View>)
    requires Continues(sym, line, k) && sym.views[k].row.soft && sym.size > 1
    requires w == SlippedViews(sym.views, k, sym.size)
    modifies sym`views, sym.repr`len, sym.slots.Keys
    ensures sym.Chained() && sym.views == w
  {
    ghost var v, sp := sym.views, sym.views[k-1].row.chars;
    SlipPlanned(v, k, sym.size);
    SlipReady(sym, line, k);
    var prev: Line, d := line.prev, line.buffer[0];
    var c := MoveRestBack(sym, line.next, k + 1);
    assert SlipPlan(sym.views, k, c, d, sp, w, sym.size);
    SlipPair(sym, line, prev, c, d, k, sp, w);
  }

  lemma RowIsHeldAt(sym: InputItem, k: nat)
    requires sym.Shown() && k < |sym.chain|
    ensures |sym.views| == |sym.chain| && (sym.views[k].row.soft <==> sym.chain[k].len > sym.size)
  {
    assert sym.chain[k].Holds(sym.views[k].row, sym.size);
  }

  lemma SlippedPlace(v: seq<View>, k: nat, size: nat)
    requires WellWrapped(RowsOf(v), size) && 0 < k < |v| && v[k-1].row.soft && v[k].row.soft && size > 1
    ensures var w := SlippedViews(v, k, size);
            && |w| == |v| && size - 1 <= |w[k-1].row.chars| && CaretOf(w, k - 1, size - 1) == CaretOf(v, k, 0) - 1
  {
    BeforeNext(v, k, size);
    DeletedViewsPlace(v, k - 1, size - 1, size);
    SlippedSame(v, k, size);
    CaretSame(SlippedViews(v, k, size), DeletedViews(v, k - 1, size - 1, size), k - 1, size - 1);
  }

  // Only line k tells the slip from the deletion.
  lemma SlippedSame(v: seq<View>, k: nat, size: nat)
    requires WellWrapped(RowsOf(v), size) && 0 < k < |v| && v[k-1].row.soft && v[k].row.soft && size > 1
    ensures |v[k-1].row.chars| == size
    ensures var w, d := SlippedViews(v, k, size), DeletedViews(v, k - 1, size - 1, size);
            |w| == |d| == |v| && forall j :: 0 <= j < |v| && j != k ==> w[j] == d[j]
  {
    BeforeNext(v, k, size);
    FullRows(v, k, size);
  }

  lemma CaretSame(a: seq<View>, b: seq<View>, k: nat, col: nat)
    requires k < |a| && k < |b| && forall j :: 0 <= j < k ==> a[j] == b[j]
    ensures CaretOf(a, k, col) == CaretOf(b, k, col)
  {
    BeforeSame(RowsOf(a), RowsOf(b), k);
  }

  lemma SettleSlipped(sym: InputItem, v: seq<View>, k: nat)
    requires WellWrapped(RowsOf(v), sym.size) && 0 < k < |v| && v[k-1].row.soft && v[k].row.soft && sym.size > 1
    requires sym.Anchored() && sym.Chained() && sym.views == SlippedViews(v, k, sym.size)
    requires sym.at == k - 1 && sym.currLine.cursor == sym.size - 1
    ensures sym.Valid() && Kept(v, sym.views) && sym.Caret() == CaretOf(v, k, 0) - 1
    ensures Slips(v, k, sym.Caret(), sym.views, sym.size)
  {
    SlippedViewsKeep(v, k, sym.size);
    SlippedPlace(v, k, sym.size);
    SlippedOutcome(v, k, sym.size, sym.Caret(), sym.views);
  }

  lemma SlippedOutcome(v: seq<View>, k: nat, size: nat, o: nat, w: seq<View>)
    requires WellWrapped(RowsOf(v), size) && 0 < k < |v| && v[k-1].row.soft && v[k].row.soft && size > 1
    requires w == SlippedViews(v, k, size) && o == CaretOf(v, k, 0) - 1
    ensures Slips(v, k, o, w, size)
  {
    SlippedViewsText(v, k, o, size);
  }

  // Backspace at the front of such a line.
  method BackIntoSoft(sym: InputItem) returns (ghost o: nat)
    requires sym.Valid() && sym.at > 0 && sym.currLine.cursor == 0 && sym.size > 1
    requires sym.views[sym.at-1].row.soft && sym.views[sym.at].row.soft
    modifies sym`views, sym`currLine, sym`at, sym.repr`len, sym.repr`cursor, sym.slots.Keys
    ensures sym.Valid() && Kept(old(sym.views), sym.views) && o == old(sym.Caret()) - 1 && sym.Caret() == o
    ensures Slips(old(sym.views), old(sym.at), o, sym.views, sym.size)
    ensures sym.at == old(sym.at) - 1 && sym.currLine.cursor == sym.size - 1
  {
    ghost var v, k := sym.views, sym.at;
    NextIsHeld(sym, k - 1);
    SlipStep(sym, sym.currLine);
    SettleSlipped(sym, v, k);
    o := sym.Caret();
  }

  method SlipStep(sym: InputItem, line: Line)
    requires sym.Anchored() && Continues(sym, line, sym.at) && line == sym.currLine
    requires sym.views[sym.at].row.soft && sym.size > 1
    modifies sym`views, sym`currLine, sym`at, sym.repr`len, sym.repr`cursor, sym.slots.Keys
    ensures sym.Anchored() && sym.Chained() && sym.at == old(sym.at) - 1 && sym.currLine.cursor == sym.size - 1
    ensures sym.views == SlippedViews(old(sym.views), old(sym.at), sym.size)
  {
    var prev: Line := line.prev;
    SlipBack(sym, line, sym.at, SlippedViews(sym.views, sym.at, sym.size));
    SeatAt(sym, prev, sym.at - 1, sym.size - 1);
  }
}
