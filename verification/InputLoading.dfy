// Loading a text into an input area and printing it again (src/hyper/parse-input.c,
// src/hyper/spadint.c).
module InputLoading {
  import opened Characters
  import opened InputText
  import opened InputEdits
  import opened InputViews
  import opened InputLines
  import opened InputDeletion
  import opened InputJoining

  // ----- laying out a text -------------------------------------------------------------------

  // The first i characters of s are in the rows done and the part cur of the next row.
  ghost predicate Loading(done: seq<Row>, cur: string, s: string, i: nat, size: nat) {
    var loading :=
      && size > 0 && i <= |s| && NUL !in s && |cur| <= size && NUL !in cur && '\n' !in cur
      && (forall k :: 0 <= k < |done| ==> |done[k].chars| <= size && NUL !in done[k].chars && '\n' !in done[k].chars)
      && (forall k :: 0 <= k < |done| && done[k].soft ==>
            |done[k].chars| == size && (k + 1 < |done| ==> done[k+1].chars != ""))
      && (done != [] && done[|done|-1].soft && cur == "" ==> i < |s| && s[i] != '\n')
      && Before(done, |done|) + cur == s[..i];
    loading
  }

  lemma BeforeDone(done: seq<Row>, r: Row)
    ensures Before(done + [r], |done| + 1) == Before(done, |done|) + r.chars + End(r)
  {
    BeforeSame(done, done + [r], |done|);
  }

  lemma LoadNone(s: string, size: nat)
    requires size > 0 && NUL !in s
    ensures Loading([], "", s, 0, size)
  {
  }

  lemma LoadChar(done: seq<Row>, cur: string, s: string, i: nat, size: nat)
    requires Loading(done, cur, s, i, size) && i < |s| && s[i] != '\n' && |cur| < size
    ensures Loading(done, cur + [s[i]], s, i + 1, size)
  {
    Regroup2(Before(done, |done|), cur, [s[i]]);
    assert s[..i] + [s[i]] == s[..i+1];
  }

  lemma LoadNewline(done: seq<Row>, cur: string, s: string, i: nat, size: nat)
    requires Loading(done, cur, s, i, size) && i < |s| && s[i] == '\n'
    ensures Loading(done + [Row(cur, false)], "", s, i + 1, size)
  {
    BeforeDone(done, Row(cur, false));
    assert s[..i] + "\n" + "" == s[..i+1];
  }

  lemma LoadWrap(done: seq<Row>, cur: string, s: string, i: nat, size: nat)
    requires Loading(done, cur, s, i, size) && i < |s| && s[i] != '\n' && |cur| == size
    ensures Loading(done + [Row(cur, true)], "", s, i, size)
  {
    BeforeDone(done, Row(cur, true));
    assert s[..i] + "" + "" == s[..i];
  }

  lemma LoadEnd(done: seq<Row>, cur: string, s: string, size: nat)
    requires Loading(done, cur, s, |s|, size)
    ensures var rows := done + [Row(cur, false)]; WellWrapped(rows, size) && Text(rows) == s + "\n"
  {
    var rows := done + [Row(cur, false)];
    BeforeDone(done, Row(cur, false));
    SplitText(rows, |rows|);
    assert s[..|s|] == s && s + "\n" + "" == s + "\n";
  }

  // ----- the lines while a text is loaded --------------------------------------------------------

  // The rows done and the part cur are in the lines, the last of which is curr.
  ghost predicate Filling(sym: InputItem, curr: Line, done: seq<Row>, cur: string)
    reads sym, sym.repr, sym.slots.Keys
  {
    var filling :=
      && sym.Anchored() && sym.Chained() && sym.at == 0
      && |sym.views| == |sym.chain| == |done| + 1 && curr == sym.chain[|done|] && curr in sym.repr
      && (forall k :: 0 <= k < |done| ==> sym.views[k].row == done[k] && sym.views[k].closed)
      && Numbered(sym.views) && curr.number == |done| + 1 && sym.views[|done|].row == Row("", false)
      && curr.buffer.Length == sym.size + 2 && |cur| <= sym.size && curr.buffer[..|cur|] == cur
      && (forall k :: |cur| <= k < sym.size + 2 ==> curr.buffer[k] == NUL);
    filling
  }

  method StoreChar(sym: InputItem, curr: Line, bp: nat, c: char, ghost done: seq<Row>, ghost cur: string)
    requires Filling(sym, curr, done, cur) && bp == |cur| < sym.size
    modifies sym`views, sym.slots.Keys
    ensures Filling(sym, curr, done, cur + [c])
  {
    LineHolds(sym, |done|);
    curr.buffer[bp] := c;
    assert curr.buffer[..0] == "";
    sym.views := sym.views[|done| := View(Row("", false), sym.views[|done|].number, curr.Closed(sym.size))];
  }

  method TerminateLine(curr: Line, bp: nat, soft: bool, ghost r: Row, size: nat)
    requires curr.buffer.Length == size + 2 && bp == |r.chars| <= size && curr.buffer[..bp] == r.chars
    requires soft == r.soft && (soft ==> bp == size)
    modifies curr`len, curr.buffer
    ensures curr.Holds(r, size) && curr.Closed(size)
  {
    if soft {
      curr.Wrap(r.chars, size);
    } else {
      curr.len := bp;
      curr.buffer[bp] := NUL;
      assert curr.buffer[..bp] == r.chars;
    }
  }

  // The last line becomes row r, and is terminated.
  method CloseLine(sym: InputItem, curr: Line, bp: nat, soft: bool, ghost done: seq<Row>, ghost r: Row)
    requires Filling(sym, curr, done, r.chars) && bp == |r.chars| && soft == r.soft && (soft ==> bp == sym.size)
    modifies sym`views, sym.repr`len, sym.slots.Keys
    ensures sym.Anchored() && sym.Chained() && sym.at == 0 && |sym.views| == |done| + 1
    ensures sym.views == old(sym.views)[|done| := View(r, old(sym.views)[|done|].number, true)]
  {
    LineHolds(sym, |done|);
    TerminateLine(curr, bp, soft, r, sym.size);
    sym.views := sym.views[|done| := View(r, sym.views[|done|].number, true)];
  }

  method StartLine(sym: InputItem, curr: Line, ghost done: seq<Row>, ghost r: Row) returns (n: Line)
    requires sym.Anchored() && sym.Chained() && sym.at == 0 && |sym.views| == |sym.chain| == |done| + 1
    requires curr == sym.chain[|done|] && sym.numLines == |done| + 1
    requires forall k :: 0 <= k < |done| ==> sym.views[k].row == done[k] && sym.views[k].closed
    requires Numbered(sym.views) && sym.views[|done|].row == r && sym.views[|done|].closed
    modifies sym`chain, sym`repr, sym`views, sym`slots, sym`numLines, sym.repr`next, sym.repr`prev
    ensures Filling(sym, n, done + [r], "")
    ensures sym.repr == old(sym.repr) + {n} && sym.slots.Keys == old(sym.slots.Keys) + {n.buffer}
    ensures fresh(n) && fresh(n.buffer)
  {
    n := sym.NewLine(sym.numLines + 1);
    AddLast(sym, curr, n, done, r);
  }

  method AddLast(sym: InputItem, curr: Line, n: Line, ghost done: seq<Row>, ghost r: Row)
    requires sym.Anchored() && sym.Chained() && sym.at == 0 && |sym.views| == |sym.chain| == |done| + 1
    requires curr == sym.chain[|done|]
    requires forall k :: 0 <= k < |done| ==> sym.views[k].row == done[k] && sym.views[k].closed
    requires Numbered(sym.views) && sym.views[|done|].row == r && sym.views[|done|].closed
    requires n !in sym.repr && n.buffer !in sym.slots
    requires n.Holds(Row("", false), sym.size) && n.Blank() && n.number == |done| + 2
    modifies sym`chain, sym`repr, sym`views, sym`slots, sym`numLines, sym.repr`next, sym.repr`prev, n`next, n`prev
    ensures Filling(sym, n, done + [r], "")
    ensures sym.repr == old(sym.repr) + {n} && sym.slots.Keys == old(sym.slots.Keys) + {n.buffer}
  {
    sym.AddAfter(curr, n, |done|, View(Row("", false), n.number, true));
    assert n.buffer[..0] == "";
  }

  // Ends a line and starts the next.
  method NextLine(sym: InputItem, curr: Line, bp: nat, soft: bool, ghost done: seq<Row>, ghost r: Row) returns (n: Line)
    requires Filling(sym, curr, done, r.chars) && bp == |r.chars| && soft == r.soft && (soft ==> bp == sym.size)
    modifies sym`chain, sym`repr, sym`views, sym`slots, sym`numLines
    modifies sym.repr`next, sym.repr`prev, sym.repr`len, sym.slots.Keys
    ensures Filling(sym, n, done + [r], "")
    ensures sym.repr == old(sym.repr) + {n} && sym.slots.Keys == old(sym.slots.Keys) + {n.buffer}
    ensures fresh(n) && fresh(n.buffer)
  {
    CloseLine(sym, curr, bp, soft, done, r);
    n := StartLine(sym, curr, done, r);
  }

  ghost predicate Loads(sym: InputItem, curr: Line, bp: nat, done: seq<Row>, cur: string, buff: string, i: nat)
    reads sym, sym.repr, sym.slots.Keys
  {
    var loads := Filling(sym, curr, done, cur) && bp == |cur| && Loading(done, cur, buff, i, sym.size);
    loads
  }

  // One character goes in, or one line ends. Lines that came to the item are new.
  method FirstLine(sym: InputItem, ghost buff: string) returns (first: Line)
    requires sym.size > 0 && NUL !in buff
    modifies sym
    ensures Loads(sym, first, 0, [], "", buff, 0) && fresh(sym.repr) && fresh(sym.slots.Keys)
  {
    first := sym.NewLine(1);
    assert first.buffer[..0] == "";
    SetFirst(sym, first, buff);
  }

  method SetFirst(sym: InputItem, first: Line, ghost buff: string)
    requires sym.size > 0 && NUL !in buff && first.Holds(Row("", false), sym.size) && first.Blank() && first.number == 1
    requires first.next == null && first.prev == null
    modifies sym
    ensures Loads(sym, first, 0, [], "", buff, 0) && sym.repr == {first} && sym.slots.Keys == {first.buffer}
  {
    sym.currLine, sym.lines, sym.numLines := first, first, 1;
    sym.at, sym.chain, sym.repr, sym.slots := 0, [first], {first}, map[first.buffer := 0];
    sym.views := [View(Row("", false), 1, true)];
    LoadNone(buff, sym.size);
    FirstIsFilling(sym, first);
  }

  lemma FirstIsFilling(sym: InputItem, first: Line)
    requires sym.size > 0 && first.Holds(Row("", false), sym.size) && first.Blank() && first.number == 1
    requires first.next == null && first.prev == null
    requires sym.currLine == first && sym.lines == first && sym.numLines == 1 && sym.at == 0 && sym.chain == [first]
    requires sym.repr == {first} && sym.slots == map[first.buffer := 0] && sym.views == [View(Row("", false), 1, true)]
    ensures Filling(sym, first, [], "")
  {
    assert first.Shows(View(Row("", false), 1, true), sym.size);
  }

  // What is left to do when i characters are loaded and the line holds bp of them.
  lemma FillDown(sym: InputItem, curr: Line, done: seq<Row>, cur: string, s: string)
    requires Filling(sym, curr, done, cur) && Loading(done, cur, s, |s|, sym.size)
    ensures var w := sym.views[|done| := View(Row(cur, false), sym.views[|done|].number, true)];
            && WellWrapped(RowsOf(w), sym.size) && TextOf(w) == s + "\n" && Numbered(w) && AllClosed(w)
            && |w| == |done| + 1 && w[|done|].row.chars == cur && CaretOf(w, |done|, |cur|) == |s|
  {
    var w := sym.views[|done| := View(Row(cur, false), sym.views[|done|].number, true)];
    LoadEnd(done, cur, s, sym.size);
    assert RowsOf(w) == done + [Row(cur, false)];
    BeforeSame(RowsOf(w), done, |done|);
    assert s[..|s|] == s;
  }

  function Steps(buff: string, i: nat, bp: nat, size: nat): nat
    requires i <= |buff|
  {
    2 * (|buff| - i) + if bp == size then 1 else 0
  }

  // The line ends: before a newline, which is passed over, or because it is full.
  method EndStep(sym: InputItem, curr: Line, bp: nat, i: nat, buff: string, ghost done: seq<Row>, ghost cur: string)
    returns (n: Line, i': nat, ghost r: Row)
    requires Loads(sym, curr, bp, done, cur, buff, i) && i < |buff| && (buff[i] == '\n' || bp == sym.size)
    modifies sym, sym.repr, sym.slots.Keys
    ensures Loads(sym, n, 0, done + [r], "", buff, i') && i' == (if buff[i] == '\n' then i + 1 else i)
    ensures fresh(n) && fresh(n.buffer)
    ensures sym.repr == old(sym.repr) + {n} && sym.slots.Keys == old(sym.slots.Keys) + {n.buffer}
  {
    var soft := buff[i] != '\n';
    r := Row(cur, soft);
    if soft {
      LoadWrap(done, cur, buff, i, sym.size);
      i' := i;
    } else {
      LoadNewline(done, cur, buff, i, sym.size);
      i' := i + 1;
    }
    n := NextLine(sym, curr, bp, soft, done, r);
  }

  // One character goes in, or one line ends.
  method LoadStep(sym: InputItem, curr: Line, bp: nat, i: nat, buff: string, ghost done: seq<Row>, ghost cur: string)
    returns (curr': Line, bp': nat, i': nat, ghost done': seq<Row>, ghost cur': string,
             ghost nl: set<Line>, ghost nb: set<array<char>>)
    requires Loads(sym, curr, bp, done, cur, buff, i) && i < |buff|
    modifies sym, sym.repr, sym.slots.Keys
    ensures Loads(sym, curr', bp', done', cur', buff, i')
    ensures i' <= |buff| && Steps(buff, i', bp', sym.size) < Steps(buff, i, bp, sym.size)
    ensures fresh(nl) && fresh(nb) && sym.repr == old(sym.repr) + nl && sym.slots.Keys == old(sym.slots.Keys) + nb
  {
    if buff[i] == '\n' || bp == sym.size {
      ghost var r;
      curr', i', r := EndStep(sym, curr, bp, i, buff, done, cur);
      bp', done', cur', nl, nb := 0, done + [r], "", {curr'}, {curr'.buffer};
    } else {
      LoadChar(done, cur, buff, i, sym.size);
      StoreChar(sym, curr, bp, buff[i], done, cur);
      curr', bp', i', done', cur', nl, nb := curr, bp + 1, i + 1, done, cur + [buff[i]], {}, {};
    }
  }

  // The text is in the lines, which count from one and are terminated; the cursor is at the end.
  ghost predicate Loaded(sym: InputItem, buff: string)
    reads sym, sym.repr, sym.slots.Keys
  {
    var loaded :=
      && sym.Valid() && TextOf(sym.views) == buff + "\n" && sym.Caret() == |buff|
      && Numbered(sym.views) && AllClosed(sym.views);
    loaded
  }

  method FinishLoading(sym: InputItem, curr: Line, bp: nat, buff: string, ghost done: seq<Row>, ghost cur: string)
    requires Loads(sym, curr, bp, done, cur, buff, |buff|)
    modifies sym`views, sym`currLine, sym`at, sym.repr`len, sym.repr`cursor, sym.slots.Keys
    ensures Loaded(sym, buff)
  {
    FillDown(sym, curr, done, cur, buff);
    CloseLine(sym, curr, bp, false, done, Row(cur, false));
    SeatAt(sym, curr, |done|, bp);
  }

  method LoadAll(sym: InputItem, first: Line, buff: string)
    returns (curr: Line, bp: nat, ghost done: seq<Row>, ghost cur: string, ghost ls: set<Line>,
             ghost bs: set<array<char>>)
    requires Loads(sym, first, 0, [], "", buff, 0)
    modifies sym, sym.repr, sym.slots.Keys
    ensures Loads(sym, curr, bp, done, cur, buff, |buff|)
    ensures fresh(ls) && fresh(bs) && sym.repr == old(sym.repr) + ls && sym.slots.Keys == old(sym.slots.Keys) + bs
  {
    var i: nat := 0;
    curr, bp, done, cur, ls, bs := first, 0, [], "", {}, {};
    while i < |buff|
      invariant i <= |buff| && Loads(sym, curr, bp, done, cur, buff, i)
      invariant fresh(ls) && fresh(bs) && sym.repr == old(sym.repr) + ls && sym.slots.Keys == old(sym.slots.Keys) + bs
      decreases Steps(buff, i, bp, sym.size)
    {
      ghost var nl, nb;
      curr, bp, i, done, cur, nl, nb := LoadStep(sym, curr, bp, i, buff, done, cur);
      ls, bs := ls + nl, bs + nb;
    }
  }

  method FillIn(sym: InputItem, first: Line, buff: string) returns (ghost ls: set<Line>, ghost bs: set<array<char>>)
    requires Loads(sym, first, 0, [], "", buff, 0)
    modifies sym, sym.repr, sym.slots.Keys
    ensures Loaded(sym, buff)
    ensures fresh(ls) && fresh(bs) && sym.repr == old(sym.repr) + ls && sym.slots.Keys == old(sym.slots.Keys) + bs
  {
    var curr, bp;
    ghost var done, cur;
    curr, bp, done, cur, ls, bs := LoadAll(sym, first, buff);
    FinishLoading(sym, curr, bp, buff, done, cur);
  }

  // initialize_default: the text, a line for each row of it, the cursor at its end.
  method InitializeDefault(sym: InputItem, buff: string)
    requires sym.size > 0 && NUL !in buff
    modifies sym
    ensures Loaded(sym, buff) && fresh(sym.repr) && fresh(sym.slots.Keys)
  {
    var first := FirstLine(sym, buff);
    ghost var ls, bs := FillIn(sym, first, buff);
  }

  // However an area came by its text, the text stands in the rows that loading it would give:
  // the keys that keep an area valid never leave it wrapped in another way.
  lemma EditedIsLoaded(sym: InputItem, loaded: InputItem, buff: string)
    requires sym.Valid() && Loaded(loaded, buff) && sym.size == loaded.size && TextOf(sym.views) == buff + "\n"
    ensures RowsOf(sym.views) == RowsOf(loaded.views)
  {
    OneLayout(RowsOf(sym.views), RowsOf(loaded.views), sym.size);
  }
}
