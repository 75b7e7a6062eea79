// A text that prints with characters deleted long before (src/hyper/dialog.c,
// src/hyper/spadint.c).
module InputRemnants {
  import opened Characters
  import opened InputText
  import opened InputEdits
  import opened InputViews
  import opened InputLines
  import opened InputDeletion
  import opened InputJoining
  import opened InputEditing
  import opened InputLoading
  import opened InputPrinting

  function Hard(s: string): Row {
    Row(s, false)
  }

  lemma TextOfTwo(a: string, b: string)
    ensures Text([Hard(a), Hard(b)]) == a + "\n" + b + "\n"
  {
    FromConcat([Hard(a)], [Hard(b)], 0);
    assert [Hard(a)] + [Hard(b)] == [Hard(a), Hard(b)];
    TextOfOne(Hard(a));
    TextOfOne(Hard(b));
    assert a + "\n" + (b + "\n") == a + "\n" + b + "\n";
  }

  // The rows of an area ten wide, and the place of its cursor.
  ghost predicate Stage(sym: InputItem, rows: seq<Row>, k: nat, col: nat)
    reads sym, sym.repr, sym.slots.Keys
  {
    var stage :=
      && sym.Valid() && sym.size == 10 && RowsOf(sym.views) == rows
      && sym.at == k && sym.currLine.cursor == col;
    stage
  }

  // The first line has e, f and a terminator in columns 4 to 6.
  ghost predicate Remnant(line: Line)
    reads line.buffer
  {
    line.buffer.Length == 12 && line.buffer[4] == 'e' && line.buffer[5] == 'f' && line.buffer[6] == NUL
  }

  lemma OneRow(v: seq<View>, s: string, size: nat)
    requires WellWrapped(RowsOf(v), size) && |s| <= size && NUL !in s && '\n' !in s && TextOf(v) == s + "\n"
    ensures RowsOf(v) == [Hard(s)] && |v| == 1
  {
    TextOfOne(Hard(s));
    OneLayout(RowsOf(v), [Hard(s)], size);
  }

  lemma TwoRows(v: seq<View>, a: string, b: string, size: nat)
    requires WellWrapped(RowsOf(v), size) && |a| <= size && NUL !in a && '\n' !in a
    requires |b| <= size && NUL !in b && '\n' !in b && TextOf(v) == a + "\n" + b + "\n"
    ensures RowsOf(v) == [Hard(a), Hard(b)] && |v| == 2
  {
    TextOfTwo(a, b);
    OneLayout(RowsOf(v), [Hard(a), Hard(b)], size);
  }

  lemma LoadedRemnant(sym: InputItem)
    requires Loaded(sym, "abcdef") && sym.size == 10
    ensures RowsOf(sym.views) == [Hard("abcdef")] && sym.at == 0 && |sym.chain| == 1 && Remnant(sym.currLine)
  {
    OneRow(sym.views, "abcdef", 10);
    assert sym.chain[0].Shows(sym.views[0], 10);
    assert RowsOf(sym.views)[0] == sym.views[0].row;
    var b := sym.chain[0].buffer;
    assert b[..6] == "abcdef";
    assert b[4] == b[..6][4] && b[5] == b[..6][5];
  }

  method LoadAtThree(sym: InputItem)
    requires sym.size == 10
    modifies sym
    ensures Stage(sym, [Hard("abcdef")], 0, 3) && Remnant(sym.currLine) && fresh(sym.repr) && fresh(sym.slots.Keys)
  {
    InitializeDefault(sym, "abcdef");
    LoadedRemnant(sym);
    assert RowsOf(sym.views)[0] == sym.views[0].row;
    SeatAt(sym, sym.currLine, 0, 3);
  }

  // Return after the third character: the columns past it keep what they held.
  lemma SplitRows(v: seq<View>, w: seq<View>, o: nat, caret: nat)
    requires RowsOf(v) == [Hard("abcdef")] && o == CaretOf(v, 0, 3) && Inserts(v, o, '\n', w, caret, 10)
    ensures RowsOf(w) == [Hard("abc"), Hard("def")]
  {
    TextOfOne(Hard("abcdef"));
    assert Before(RowsOf(v), 0) == "";
    InsertBetween("abc", '\n', "def\n");
    assert TextOf(v) == "abc" + "def\n";
    assert TextOf(w) == "abc" + "\n" + "def" + "\n";
    TwoRows(w, "abc", "def", 10);
  }

  method SplitAtThree(sym: InputItem)
    requires Stage(sym, [Hard("abcdef")], 0, 3) && Remnant(sym.currLine)
    modifies sym, sym.repr, sym.slots.Keys
    ensures Stage(sym, [Hard("abc"), Hard("def")], 1, 0) && Remnant(sym.chain[0])
    ensures fresh(sym.repr - old(sym.repr)) && fresh(sym.slots.Keys - old(sym.slots.Keys))
  {
    ghost var v, l := sym.views, sym.currLine;
    assert RowsOf(v)[0] == v[0].row;
    var n := sym.NewLine(sym.currLine.number + 1);
    sym.EnterHard(n);
    SplitRows(v, sym.views, CaretOf(v, 0, 3), sym.Caret());
    assert sym.chain[0] == l;
  }

  lemma DeletedRows(v: seq<View>, w: seq<View>, s: string)
    requires |s| <= 3 && RowsOf(v) == [Hard("abc"), Hard(s)] && s != "" && NUL !in s && '\n' !in s
    requires Removes(v, 1, CaretOf(v, 1, 0), w, 10) && !Empties(v, 1)
    ensures RowsOf(w) == [Hard("abc"), Hard(s[1..])]
  {
    TextOfTwo("abc", s);
    assert RowsOf(v)[1] == v[1].row && Before(RowsOf(v), 0) == "";
    assert Before(RowsOf(v), 1) == "abc\n";
    assert TextOf(w) == "abc" + "\n" + s[1..] + "\n";
    TwoRows(w, "abc", s[1..], 10);
  }

  // Delete on the second line leaves the first as it is.
  method DeleteBelow(sym: InputItem, ghost s: string)
    requires Stage(sym, [Hard("abc"), Hard(s)], 1, 0) && Remnant(sym.chain[0])
    requires 0 < |s| <= 3 && NUL !in s && '\n' !in s
    modifies sym`views, sym.repr`len, sym.slots.Keys
    ensures Stage(sym, [Hard("abc"), Hard(s[1..])], 1, 0) && Remnant(sym.chain[0])
  {
    ghost var v := sym.views;
    assert RowsOf(v)[1] == v[1].row && RowsOf(v)[0] == v[0].row;
    assert sym.slots[sym.chain[0].buffer] == 0 && sym.slots[sym.chain[1].buffer] == 1;
    ghost var o := DeleteInHard(sym);
    DeletedRows(v, sym.views, s);
  }

  lemma JoinedRows(v: seq<View>, w: seq<View>, o: nat, shut: bool)
    requires RowsOf(v) == [Hard("abc"), Hard("f")] && o == CaretOf(v, 1, 0) - 1 && Joins(v, o, w, 10, shut)
    ensures RowsOf(w) == [Hard("abcf")] && |w| == 1
  {
    TextOfTwo("abc", "f");
    assert Before(RowsOf(v), 0) == "" && Before(RowsOf(v), 1) == "abc\n";
    assert TextOf(w) == "abcf" + "\n";
    OneRow(w, "abcf", 10);
  }

  // Backspace at the front of the second line.
  method JoinAtThree(sym: InputItem)
    requires Stage(sym, [Hard("abc"), Hard("f")], 1, 0) && Remnant(sym.chain[0])
    modifies sym, sym.repr, sym.slots.Keys
    ensures sym.Valid() && sym.size == 10 && RowsOf(sym.views) == [Hard("abcf")] && Remnant(sym.chain[0])
  {
    ghost var v, l := sym.views, sym.chain[0];
    assert RowsOf(v)[0] == v[0].row && RowsOf(v)[1] == v[1].row;
    assert Together(sym, 0) == "abcf";
    ghost var tail, shut := CellsFrom(l, 4), Shuts(sym, 0);
    ghost var o := BackOverEoln(sym);
    JoinedRows(v, sym.views, o, shut);
    assert CellsFrom(l, 4) == tail && tail[0] == 'e' && tail[1] == 'f' && tail[2] == NUL;
  }

  lemma RemnantOutput(v: seq<View>, cells: seq<string>)
    requires |v| == |cells| == 1 && |cells[0]| == 10 && cells[0][..6] == "abcfef" && cells[0][6] == NUL
    ensures Output(v, cells, 1) == "abcfef"
  {
    UpToNulIs(cells[0], 6);
    assert NUL !in "abcfef";
    assert Output(v, cells, 0) == "" && Break(v, 0) == "";
    assert Unescaped("abcfef") == "abcfef";
  }

  lemma RemnantHeld(sym: InputItem)
    requires sym.Valid() && sym.size == 10 && RowsOf(sym.views) == [Hard("abcf")] && Remnant(sym.chain[0])
    ensures |sym.views| == 1 && !AllClosed(sym.views) && sym.chain[0].buffer[..4] == "abcf"
  {
    assert RowsOf(sym.views)[0] == sym.views[0].row;
    LineHolds(sym, 0);
    assert !sym.views[0].closed;
  }

  lemma RemnantCells(b: seq<char>)
    requires |b| == 12 && b[..4] == "abcf" && b[4] == 'e' && b[5] == 'f' && b[6] == NUL
    ensures b[..10][..6] == "abcfef" && b[..10][6] == NUL
  {
    assert b[..10][..6] == b[..4] + [b[4], b[5]];
  }

  lemma RemnantShows(sym: InputItem, cells: seq<string>)
    requires sym.Valid() && sym.size == 10 && RowsOf(sym.views) == [Hard("abcf")] && Remnant(sym.chain[0])
    requires Columns(sym, cells)
    ensures Output(sym.views, cells, |cells|) == "abcfef" && !AllClosed(sym.views)
  {
    RemnantHeld(sym);
    RemnantCells(sym.chain[0].buffer[..]);
    assert cells[0] == sym.chain[0].buffer[..][..10];
    RemnantOutput(sym.views, cells);
  }

  // Return, Delete twice, and Backspace.
  method EditToRemnant(sym: InputItem)
    requires Stage(sym, [Hard("abcdef")], 0, 3) && Remnant(sym.currLine)
    modifies sym, sym.repr, sym.slots.Keys
    ensures sym.Valid() && RowsOf(sym.views) == [Hard("abcf")] && Remnant(sym.chain[0])
  {
    SplitAtThree(sym);
    DeleteBelow(sym, "def");
    DeleteBelow(sym, "ef");
    JoinAtThree(sym);
  }

  // abcdef is loaded, Return is pressed after its third character, Delete twice, and
  // Backspace: the text is abcf, and abcfef is what is printed.
  method PrintsRemnant(sym: InputItem) returns (out: string)
    requires sym.size == 10
    modifies sym
    ensures sym.Valid() && TextOf(sym.views) == "abcf\n" && !AllClosed(sym.views) && out == "abcfef"
  {
    LoadAtThree(sym);
    EditToRemnant(sym);
    TextOfOne(Hard("abcf"));
    ghost var cells;
    out, cells := PrintString(sym);
    RemnantShows(sym, cells);
  }
}
