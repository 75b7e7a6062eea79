// Breaking a paragraph where it wraps (tough_enter in src/hyper/dialog.c).
module InputBreaking {
  import opened Characters
  import opened CArithmetic
  import opened InputText
  import opened InputViews
  import opened InputLines
  import opened InputDeletion
  import opened InputJoining

  // Lines m to e take the text q from o on, and a new line after them what does not fit.
  function PouredTo(v: seq<View>, m: nat, e: nat, q: string, o: nat, size: nat): seq<View>
    requires m <= e < |v| && o <= |q| && size > 0 && |Wrap(q, o, size)| >= e + 1 - m
    decreases e - m
  {
    WrapStep(q, o, size);
    if m < e then
      PouredTo(v[m := View(Row(q[o..o+size], true), v[m].number, true)], m + 1, e, q, o + size, size)
    else if |q| - o <= size then
      v[e := View(Row(q[o..], false), v[e].number, true)]
    else
      Put(v[e := View(Row(q[o..o+size], true), v[e].number, true)], e + 1,
          View(Row(q[o+size..], false), v[e].number + 1, true))
  }

  lemma OneRow(q: string, o: nat, size: nat)
    requires size > 0 && o <= |q|
    ensures |Wrap(q, o, size)| == 1 <==> |q| - o <= size
  {
  }

  // In w, lines m to e of v have given way to lines with the rows given, numbered on.
  ghost predicate Took(v: seq<View>, m: nat, e: nat, rows: seq<Row>, w: seq<View>)
    requires m <= e < |v|
  {
    && |w| == |v| - (e + 1 - m) + |rows|
    && (forall k :: 0 <= k < m ==> w[k] == v[k])
    && (forall k :: m <= k < m + |rows| ==>
          w[k] == View(rows[k-m], if k <= e then v[k].number else v[e].number + 1, true))
    && (forall k :: m + |rows| <= k < |w| ==> w[k] == v[k - m - |rows| + e + 1])
  }

  lemma TookSingle(v: seq<View>, e: nat, r: Row)
    requires e < |v|
    ensures Took(v, e, e, [r], v[e := View(r, v[e].number, true)])
  {
  }

  lemma TookPair(v: seq<View>, e: nat, r: Row, s: Row)
    requires e < |v|
    ensures Took(v, e, e, [r, s], Put(v[e := View(r, v[e].number, true)], e + 1, View(s, v[e].number + 1, true)))
  {
  }

  lemma PouredToLast(v: seq<View>, e: nat, q: string, o: nat, size: nat)
    requires e < |v| && o <= |q| && size > 0 && 1 <= |Wrap(q, o, size)| <= 2
    ensures Took(v, e, e, Wrap(q, o, size), PouredTo(v, e, e, q, o, size))
  {
    WrapStep(q, o, size);
    if |q| - o > size {
      OneRow(q, o + size, size);
      assert Wrap(q, o, size) == [Row(q[o..o+size], true), Row(q[o+size..], false)];
      TookPair(v, e, Row(q[o..o+size], true), Row(q[o+size..], false));
    } else {
      TookSingle(v, e, Row(q[o..], false));
    }
  }

  lemma TookOne(v: seq<View>, m: nat, e: nat, r: Row, rest: seq<Row>, w: seq<View>)
    requires m < e < |v| && Took(v[m := View(r, v[m].number, true)], m + 1, e, rest, w)
    ensures Took(v, m, e, [r] + rest, w)
  {
    var rows := [r] + rest;
    forall k | m <= k < m + |rows|
      ensures w[k] == View(rows[k-m], if k <= e then v[k].number else v[e].number + 1, true)
    {
      if k > m {
        assert rows[k-m] == rest[k-(m+1)];
      }
    }
  }

  lemma {:induction false} PouredToParts(v: seq<View>, m: nat, e: nat, q: string, o: nat, size: nat)
    requires m <= e < |v| && o <= |q| && size > 0 && e + 1 - m <= |Wrap(q, o, size)| <= e + 2 - m
    ensures Took(v, m, e, Wrap(q, o, size), PouredTo(v, m, e, q, o, size))
    decreases e - m
  {
    WrapStep(q, o, size);
    if m < e {
      var r := Row(q[o..o+size], true);
      PouredToParts(v[m := View(r, v[m].number, true)], m + 1, e, q, o + size, size);
      TookOne(v, m, e, r, Wrap(q, o + size, size), PouredTo(v, m, e, q, o, size));
    } else {
      PouredToLast(v, e, q, o, size);
    }
  }

  // Line k ends at column p, and the lines after it to e take the rest of the paragraph.
  function ToughViews(v: seq<View>, k: nat, p: nat, e: nat, q: string, size: nat): seq<View>
    requires k < e < |v| && p <= |v[k].row.chars| && size > 0 && |Wrap(q, 0, size)| >= e - k
  {
    PouredTo(v[k := View(Row(v[k].row.chars[..p], false), v[k].number, true)], k + 1, e, q, 0, size)
  }

  // The rest of a paragraph, shifted, needs its lines or one more.
  lemma ToughRoom(rows: seq<Row>, k: nat, p: nat, q: string, size: nat)
    requires WellWrapped(rows, size) && k < |rows| && rows[k].soft && 0 < p <= size
    requires q == ParaText(rows, k)[p..]
    ensures k + 1 < |rows| && |rows[k].chars| == size && q == rows[k].chars[p..] + ParaText(rows, k + 1)
    ensures var e := ParaEnd(rows, k + 1) - 1;
            && ParaEnd(rows, k) == e + 1 && k < e < |rows| && e - k <= |Wrap(q, 0, size)| <= e - k + 1
            && Broken(rows, k, p, size) ==
               rows[..k] + ([Row(rows[k].chars[..p], false)] + Wrap(q, 0, size)) + rows[e+1..]
  {
    assert ParaText(rows, k) == rows[k].chars + ParaText(rows, k + 1);
    WrapRoom(rows, k + 1, q, 0, size);
  }

  lemma HeadInPlace(v: seq<View>, k: nat, e: nat, u: seq<View>, head: View, w: seq<Row>, r: seq<View>)
    requires k < e < |v| && u == v[k := head] && Took(u, k + 1, e, w, r)
    ensures InPlace(v, k, e, [head.row] + w, r)
  {
    var b := [head.row] + w;
    forall j | k <= j < k + |b| ensures r[j].row == b[j-k] {
      if j > k {
        assert b[j-k] == w[j-(k+1)];
      }
    }
  }

  lemma ToughViewsParts(v: seq<View>, k: nat, p: nat, e: nat, q: string, size: nat)
    requires k < e < |v| && p <= |v[k].row.chars| && size > 0 && e - k <= |Wrap(q, 0, size)| <= e - k + 1
    ensures InPlace(v, k, e, [Row(v[k].row.chars[..p], false)] + Wrap(q, 0, size), ToughViews(v, k, p, e, q, size))
  {
    var head := View(Row(v[k].row.chars[..p], false), v[k].number, true);
    var u := v[k := head];
    PouredToParts(u, k + 1, e, q, 0, size);
    HeadInPlace(v, k, e, u, head, Wrap(q, 0, size), PouredTo(u, k + 1, e, q, 0, size));
  }

  lemma ToughViewsRows(v: seq<View>, k: nat, p: nat, e: nat, q: string, size: nat)
    requires WellWrapped(RowsOf(v), size) && k < |v| && v[k].row.soft && 0 < p <= size
    requires q == ParaText(RowsOf(v), k)[p..] && e == ParaEnd(RowsOf(v), k) - 1
    ensures k < e < |v| && |v[k].row.chars| == size && e - k <= |Wrap(q, 0, size)| <= e - k + 1
    ensures RowsOf(ToughViews(v, k, p, e, q, size)) == Broken(RowsOf(v), k, p, size)
  {
    assert RowsOf(v)[k] == v[k].row;
    ToughRoom(RowsOf(v), k, p, q, size);
    ToughViewsParts(v, k, p, e, q, size);
    InPlaceRows(v, k, e, [Row(v[k].row.chars[..p], false)] + Wrap(q, 0, size), ToughViews(v, k, p, e, q, size));
  }

  // Whether the rest of the paragraph from column p of line k on is too long for the lines
  // that come after k in it.
  predicate Spills(v: seq<View>, k: nat, p: nat, size: nat)
    requires k < |v|
  {
    |ParaText(RowsOf(v), k)| - p > (ParaEnd(RowsOf(v), k) - 1 - k) * size
  }

  lemma {:induction false} WrapExceeds(q: string, o: nat, size: nat, n: nat)
    requires size > 0 && o <= |q| && n > 0
    ensures |Wrap(q, o, size)| > n <==> |q| - o > n * size
    decreases n
  {
    WrapStep(q, o, size);
    Products(n, size);
    if |q| - o > size && n > 1 {
      WrapExceeds(q, o + size, size, n - 1);
    } else if |q| - o > size {
      OneRow(q, o + size, size);
    }
  }

  lemma Products(n: nat, size: nat)
    requires n > 0
    ensures n * size >= size && (n - 1) * size == n * size - size
  {
    ProductOrder(1, n, size);
  }

  // Lines keep their numbers, and one that is added at e has the next after the line before.
  ghost predicate NumbersKept(v: seq<View>, w: seq<View>, e: nat) {
    && |v| <= |w| <= |v| + 1 && 0 < e <= |v|
    && forall j :: 0 <= j < |w| ==>
         w[j].number == if j < e then v[j].number else if |w| == |v| then v[j].number
                        else if j == e then v[e-1].number + 1 else v[j-1].number
  }

  // Breaking line k at column p: the text gains a newline there. A line is added exactly
  // when the rest of the paragraph spills, and the numbers stay consecutive exactly when it
  // does not or no line follows: a new line goes on from the one before it, and those after
  // it keep their numbers. Every line is terminated if all were.
  ghost predicate Splits(v: seq<View>, k: nat, p: nat, w: seq<View>, caret: nat, size: nat)
    requires k < |v|
  {
    var o, spills := CaretOf(v, k, p), Spills(v, k, p, size);
    var splits :=
      && WellWrapped(RowsOf(w), size) && o <= |TextOf(v)| && caret == o + 1 && TextOf(w) == InsertAt(TextOf(v), o, '\n')
      && |w| == |v| + (if spills then 1 else 0)
      && (AllClosed(v) ==> AllClosed(w)) && NumbersKept(v, w, ParaEnd(RowsOf(v), k))
      && (Numbered(v) ==> (Numbered(w) <==> !spills || ParaEnd(RowsOf(v), k) == |v|));
    splits
  }

  lemma ToughViewsKeep(v: seq<View>, k: nat, p: nat, e: nat, q: string, size: nat)
    requires k < e < |v| && p <= |v[k].row.chars| && size > 0 && e - k <= |Wrap(q, 0, size)| <= e - k + 1
    ensures var w := ToughViews(v, k, p, e, q, size);
            && k + 1 < |w| == |v| + (if |q| > (e - k) * size then 1 else 0)
            && (AllClosed(v) ==> AllClosed(w)) && NumbersKept(v, w, e + 1)
            && (Numbered(v) ==> (Numbered(w) <==> |q| <= (e - k) * size || e + 1 == |v|))
  {
    var a, w := v[k := View(Row(v[k].row.chars[..p], false), v[k].number, true)], ToughViews(v, k, p, e, q, size);
    PouredToParts(a, k + 1, e, q, 0, size);
    WrapExceeds(q, 0, size, e - k);
    TookNumbers(v, k, e, Wrap(q, 0, size), a, w);
  }

  // Numbers after a new line are one short.
  lemma TookNumbers(v: seq<View>, k: nat, e: nat, rows: seq<Row>, a: seq<View>, w: seq<View>)
    requires k < e < |v| == |a| && e - k <= |rows| <= e - k + 1 && Took(a, k + 1, e, rows, w)
    requires forall j :: 0 <= j < |v| ==> a[j].number == v[j].number && (v[j].closed ==> a[j].closed)
    ensures k + 1 < |w| == |v| + (if |rows| > e - k then 1 else 0) && (AllClosed(v) ==> AllClosed(w))
    ensures NumbersKept(v, w, e + 1) && (Numbered(v) ==> (Numbered(w) <==> |rows| == e - k || e + 1 == |v|))
  {
    if Numbered(v) && |rows| > e - k && e + 1 < |v| {
      assert w[e+2] == a[e+1];
      assert w[e+2].number == e + 2;
    }
  }

  lemma ToughViewsText(v: seq<View>, k: nat, p: nat, e: nat, q: string, size: nat)
    requires WellWrapped(RowsOf(v), size) && k < |v| && v[k].row.soft && 0 < p < size
    requires q == ParaText(RowsOf(v), k)[p..] && e == ParaEnd(RowsOf(v), k) - 1
    ensures k < e < |v| && |v[k].row.chars| == size && e - k <= |Wrap(q, 0, size)| <= e - k + 1
    ensures var w := ToughViews(v, k, p, e, q, size);
            k + 1 < |w| && Splits(v, k, p, w, CaretOf(w, k + 1, 0), size)
  {
    assert RowsOf(v)[k] == v[k].row;
    ToughViewsRows(v, k, p, e, q, size);
    ToughViewsKeep(v, k, p, e, q, size);
    BrokenText(RowsOf(v), k, p, size);
    assert |q| == |ParaText(RowsOf(v), k)| - p;
  }

  // The numbers go wrong: in three lines, a break after the first character of the first
  // spills the second over into a new line that has the number of the third.
  lemma SpillMisnumbers()
    ensures var v := [View(Row("ab", true), 1, true), View(Row("cd", false), 2, true), View(Row("e", false), 3, true)];
            && WellWrapped(RowsOf(v), 2) && Numbered(v) && Spills(v, 0, 1, 2)
            && forall w, caret :: Splits(v, 0, 1, w, caret, 2) ==> !Numbered(w)
  {
    var v := [View(Row("ab", true), 1, true), View(Row("cd", false), 2, true), View(Row("e", false), 3, true)];
    var rows := RowsOf(v);
    assert rows == [Row("ab", true), Row("cd", false), Row("e", false)];
    assert ParaText(rows, 1) == "cd" && ParaEnd(rows, 1) == 2;
    assert ParaText(rows, 0) == "abcd" && ParaEnd(rows, 0) == 2;
  }

  // ----- the lines themselves --------------------------------------------------------------------

  method EndLine(sym: InputItem, line: Line, p: nat, ghost k: nat, ghost s: string)
    requires sym.Chained() && k < |sym.chain| && line == sym.chain[k] && sym.views[k].row.chars == s && p <= |s|
    modifies sym`views, line`len, line.buffer
    ensures sym.Chained()
    ensures sym.views == old(sym.views)[k := View(Row(s[..p], false), old(sym.views)[k].number, true)]
  {
    LineHolds(sym, k);
    assert line.buffer[..p] == s[..p];
    line.len := p;
    line.buffer[p] := NUL;
    assert line.buffer[..p] == s[..p];
    sym.views := sym.views[k := View(Row(s[..p], false), sym.views[k].number, true)];
  }

  // Lines m to e are still to take the text from at on, and give the lines w.
  ghost predicate Shifting(sym: InputItem, l: Line, m: nat, e: nat, buff: array<char>, tr: nat, q: string, w: seq<View>)
    reads sym, sym.repr, sym.slots.Keys, buff
  {
    var shifting :=
      && sym.size > 0 && sym.Chained() && buff !in sym.slots && Carries(buff, q) && tr <= |q|
      && m <= e < |sym.chain| && l == sym.chain[m] && |sym.views| == |sym.chain|
      && e + 1 - m <= |Wrap(q, tr, sym.size)| <= e + 2 - m
      && PouredTo(sym.views, m, e, q, tr, sym.size) == w;
    shifting
  }

  lemma ShiftRoom(m: nat, e: nat, q: string, o: nat, size: nat)
    requires m < e && o <= |q| && size > 0 && e + 1 - m <= |Wrap(q, o, size)| <= e + 2 - m
    ensures |q| - o > size && e + 1 - (m + 1) <= |Wrap(q, o + size, size)| <= e + 2 - (m + 1)
  {
    WrapStep(q, o, size);
  }

  lemma ShiftStep(v: seq<View>, m: nat, e: nat, q: string, o: nat, size: nat, r: View)
    requires m < e < |v| && o + size < |q| && size > 0 && e + 1 - m <= |Wrap(q, o, size)|
    requires e + 1 - (m + 1) <= |Wrap(q, o + size, size)| && r == View(Row(q[o..o+size], true), v[m].number, true)
    ensures PouredTo(v, m, e, q, o, size) == PouredTo(v[m := r], m + 1, e, q, o + size, size)
  {
  }

  method ShiftLine(sym: InputItem, line: Line, buff: array<char>, at: nat, ghost m: nat, ghost e: nat,
                   ghost q: string, ghost w: seq<View>)
    returns (l: Line, tr: nat, ghost n: nat)
    requires Shifting(sym, line, m, e, buff, at, q, w) && m < e
    modifies sym`views, sym.repr`len, sym.slots.Keys
    ensures n == m + 1 && Shifting(sym, l, n, e, buff, tr, q, w)
  {
    n := m + 1;
    ShiftRoom(m, e, q, at, sym.size);
    ghost var r := View(Row(q[at..at+sym.size], true), sym.views[m].number, true);
    ShiftStep(sym.views, m, e, q, at, sym.size, r);
    LineBuffers(sym, m);
    tr := PourOne(sym, line, buff, at, m, q, r);
    l := line.next;
  }

  method ShiftLines(sym: InputItem, first: Line, last: Line, buff: array<char>, ghost k: nat, ghost e: nat,
                    ghost q: string, ghost w: seq<View>)
    returns (tr: nat)
    requires Shifting(sym, first, k, e, buff, 0, q, w) && last == sym.chain[e]
    modifies sym`views, sym.repr`len, sym.slots.Keys
    ensures Shifting(sym, last, e, e, buff, tr, q, w)
  {
    var l: Line := first;
    ghost var m := k;
    tr := 0;
    while l != last
      invariant Shifting(sym, l, m, e, buff, tr, q, w)
      decreases e - m
    {
      OneLine(sym, m, e);
      l, tr, m := ShiftLine(sym, l, buff, tr, m, e, q, w);
    }
    OneLine(sym, m, e);
  }

  lemma OneLine(sym: InputItem, m: nat, e: nat)
    requires sym.Chained() && m < |sym.chain| && e < |sym.chain|
    ensures sym.chain[m] == sym.chain[e] <==> m == e
  {
    assert sym.slots[sym.chain[m].buffer] == m && sym.slots[sym.chain[e].buffer] == e;
  }

  lemma ShiftEnd(v: seq<View>, e: nat, q: string, o: nat, size: nat)
    requires e < |v| && o <= |q| && size > 0 && 1 <= |Wrap(q, o, size)| <= 2
    ensures if |q| - o <= size
            then PouredTo(v, e, e, q, o, size) == v[e := View(Row(q[o..], false), v[e].number, true)]
            else
              && |q| - (o + size) <= size
              && PouredTo(v, e, e, q, o, size) ==
                 Put(v[e := View(Row(q[o..o+size], true), v[e].number, true)], e + 1,
                     View(Row(q[o+size..], false), v[e].number + 1, true))
  {
    WrapStep(q, o, size);
    if |q| - o > size {
      OneRow(q, o + size, size);
    }
  }

  // A new line takes what is left of the text.
  method RestLine(sym: InputItem, number: int, buff: array<char>, at: nat, ghost q: string) returns (n: Line)
    requires sym.size > 0 && Carries(buff, q) && at <= |q| <= at + sym.size
    ensures fresh(n) && fresh(n.buffer) && n.Shows(View(Row(q[at..], false), number, true), sym.size) && n.cursor == 0
  {
    n := new Line(sym.size);
    n.number := number;
    var bp, tr := FillLine(n.buffer, 0, sym.size, buff, at, q);
    n.len := bp;
    assert q[at..tr] == q[at..];
    assert n.buffer[..bp] == q[at..];
  }

  // Links a new line after line e, which is not before the cursor's.
  method Append(sym: InputItem, line: Line, n: Line, ghost e: nat, ghost v: View)
    requires sym.Anchored() && sym.Chained() && sym.at <= e < |sym.chain| && line == sym.chain[e]
    requires n !in sym.repr && n.buffer !in sym.slots && n.Shows(v, sym.size)
    modifies sym`chain, sym`repr, sym`views, sym`slots, sym`numLines, sym.repr`next, sym.repr`prev, n`next, n`prev
    ensures sym.Anchored() && sym.Chained() && sym.views == Put(old(sym.views), e + 1, v)
    ensures sym.repr == old(sym.repr) + {n} && sym.slots.Keys == old(sym.slots.Keys) + {n.buffer}
    ensures sym.chain == Put(old(sym.chain), e + 1, n)
  {
    sym.AddAfter(line, n, e, v);
  }

  // What an item consists of, with a line n more unless there is none.
  ghost predicate Grown(r0: set<Line>, b0: set<array<char>>, r1: set<Line>, b1: set<array<char>>, n: Line?) {
    var grown := if n == null then r1 == r0 && b1 == b0 else r1 == r0 + {n} && b1 == b0 + {n.buffer};
    grown
  }

  method Overflow(sym: InputItem, last: Line, buff: array<char>, at: nat, ghost e: nat, ghost q: string,
                  ghost w: seq<View>)
    returns (ghost n: Line?)
    requires sym.Anchored() && sym.Chained() && sym.at < e < |sym.chain| && last == sym.chain[e]
    requires sym.size > 0 && Carries(buff, q) && at <= |q| <= at + sym.size
    requires e < |sym.views| && w == Put(sym.views, e + 1, View(Row(q[at..], false), last.number + 1, true))
    modifies sym`chain, sym`repr, sym`views, sym`slots, sym`numLines, sym.repr`next, sym.repr`prev
    ensures sym.Anchored() && sym.Chained() && sym.views == w
    ensures Grown(old(sym.repr), old(sym.slots.Keys), sym.repr, sym.slots.Keys, n)
    ensures n != null ==> fresh(n) && fresh(n.buffer)
  {
    var l := RestLine(sym, last.number + 1, buff, at, q);
    Append(sym, last, l, e, View(Row(q[at..], false), last.number + 1, true));
    n := l;
  }

  // The lines w are u, with a line more for the rest of the text if there is more.
  ghost predicate LeavesRest(u: seq<View>, e: nat, q: string, tr: nat, size: nat, number: int, more: bool, w: seq<View>)
  {
    var rest :=
      && e < |u| && tr <= |q| <= tr + size && (more <==> tr < |q|)
      && w == if more then Put(u, e + 1, View(Row(q[tr..], false), number + 1, true)) else u;
    rest
  }

  // The last line r takes what fits, and a new line the rest.
  lemma ShiftedEnd(v: seq<View>, e: nat, q: string, o: nat, size: nat, r: View, tr: nat, w: seq<View>)
    requires e < |v| && o <= |q| && size > 0 && 1 <= |Wrap(q, o, size)| <= 2 && PouredTo(v, e, e, q, o, size) == w
    requires r == View(if |q| - o <= size then Row(q[o..], false) else Row(q[o..o+size], true), v[e].number, true)
    requires tr == o + Min(size, |q| - o)
    ensures LeavesRest(v[e := r], e, q, tr, size, v[e].number, tr < |q|, w)
  {
    ShiftEnd(v, e, q, o, size);
  }

  // Puts what fits of the text into the last line, and tells whether more is left.
  method ShiftInto(sym: InputItem, last: Line, buff: array<char>, at: nat, ghost e: nat, ghost q: string,
                   ghost w: seq<View>)
    returns (more: bool, tr: nat)
    requires Shifting(sym, last, e, e, buff, at, q, w)
    modifies sym`views, last`len, last.buffer
    ensures sym.Chained() && LeavesRest(sym.views, e, q, tr, sym.size, last.number, more, w)
  {
    ghost var v := sym.views;
    ghost var r := if |q| - at <= sym.size then Row(q[at..], false) else Row(q[at..at+sym.size], true);
    LineHolds(sym, e);
    tr := PourOne(sym, last, buff, at, e, q, View(r, v[e].number, true));
    ShiftedEnd(v, e, q, at, sym.size, View(r, v[e].number, true), tr, w);
    CarriedAt(buff, q, tr);
    more := buff[tr] != NUL;
  }

  method ShiftLast(sym: InputItem, last: Line, buff: array<char>, at: nat, ghost e: nat, ghost q: string,
                   ghost w: seq<View>)
    returns (ghost n: Line?)
    requires sym.Anchored() && sym.at < e && Shifting(sym, last, e, e, buff, at, q, w)
    modifies sym`chain, sym`repr, sym`views, sym`slots, sym`numLines
    modifies sym.repr`next, sym.repr`prev, sym.repr`len, sym.slots.Keys
    ensures sym.Anchored() && sym.Chained() && sym.views == w
    ensures Grown(old(sym.repr), old(sym.slots.Keys), sym.repr, sym.slots.Keys, n)
    ensures n != null ==> fresh(n) && fresh(n.buffer)
  {
    var more, tr := ShiftInto(sym, last, buff, at, e, q, w);
    n := null;
    if more {
      n := Overflow(sym, last, buff, tr, e, q, w);
    }
  }

  // What breaking line k at column p will do: the text q, of which x comes from line k, goes
  // to the lines up to e and gives the lines w.
  ghost predicate Plan(v: seq<View>, k: nat, p: nat, e: nat, q: string, x: string, w: seq<View>, size: nat) {
    var rows := RowsOf(v);
    var plan :=
      && WellWrapped(rows, size) && k + 1 < |v| && p <= |v[k].row.chars| == size
      && x == v[k].row.chars[p..] && q == x + ParaText(rows, k + 1) && NUL !in q
      && e == ParaEnd(rows, k + 1) - 1 && k < e < |v| && e - k <= |Wrap(q, 0, size)| <= e - k + 1
      && w == ToughViews(v, k, p, e, q, size);
    plan
  }

  lemma ToughReady(v: seq<View>, k: nat, p: nat, e: nat, q: string, size: nat)
    requires WellWrapped(RowsOf(v), size) && k < |v| && v[k].row.soft && 0 < p < size
    requires q == ParaText(RowsOf(v), k)[p..] && e == ParaEnd(RowsOf(v), k) - 1
    ensures |v[k].row.chars| == size && k < e < |v| && |Wrap(q, 0, size)| >= e - k
    ensures var w := ToughViews(v, k, p, e, q, size);
            && Plan(v, k, p, e, q, v[k].row.chars[p..], w, size)
            && k + 1 < |w| && Splits(v, k, p, w, CaretOf(w, k + 1, 0), size)
  {
    var rows := RowsOf(v);
    assert rows[k] == v[k].row;
    ToughRoom(rows, k, p, q, size);
    ParaIsPlain(rows, k, size);
    ToughViewsText(v, k, p, e, q, size);
    ToughViewsKeep(v, k, p, e, q, size);
  }

  // The cursor is in the line to be broken, and the buffer has room for its rest.
  ghost predicate Ready(sym: InputItem, line: Line, buff: array<char>, k: nat, p: nat, e: nat, q: string, x: string,
                        w: seq<View>)
    reads sym, sym.repr, sym.slots.Keys
  {
    var ready :=
      && sym.Anchored() && sym.Chained() && k == sym.at && line == sym.chain[k] && |sym.chain| == |sym.views|
      && Plan(sym.views, k, p, e, q, x, w, sym.size) && k + 1 < |w| && |q| < buff.Length && buff !in sym.slots;
    ready
  }

  // The line k ends at column p, and the buffer has the rest of its paragraph.
  ghost predicate Taken(sym: InputItem, v: seq<View>, k: nat, p: nat, e: nat, buff: array<char>, q: string, last: Line)
    reads sym, sym.repr, sym.slots.Keys, buff
  {
    var taken :=
      && sym.Chained() && Carries(buff, q) && buff !in sym.slots && e < |sym.chain| && last == sym.chain[e]
      && k < |v| == |sym.chain| && p <= |v[k].row.chars|
      && sym.views == v[k := View(Row(v[k].row.chars[..p], false), v[k].number, true)];
    taken
  }

  lemma RestReady(sym: InputItem, line: Line, buff: array<char>, k: nat, p: nat, e: nat, q: string, x: string,
                  w: seq<View>)
    requires Ready(sym, line, buff, k, p, e, q, x, w)
    ensures k + 1 < |sym.chain| && line == sym.chain[k] && line.next == sym.chain[k+1] && line.buffer in sym.slots
    ensures p <= sym.size < line.buffer.Length && line.buffer[p..sym.size] == x && |x| + 1 <= buff.Length
  {
    LineHolds(sym, k);
    LineBuffers(sym, k);
    Columns(line.buffer, sym.size, p, sym.views[k].row.chars);
  }

  lemma RestGathers(sym: InputItem, line: Line, buff: array<char>, k: nat, p: nat, e: nat, q: string, x: string,
                    w: seq<View>, next: Line, tr: nat)
    requires Ready(sym, line, buff, k, p, e, q, x, w) && k + 1 < |sym.chain| && next == sym.chain[k+1]
    requires tr <= buff.Length && buff[..tr] == x
    ensures Gathering(sym, buff, x, k + 1, next, tr, k + 1)
    ensures q == x + ParaText(RowsOf(sym.views), k + 1) && |q| < buff.Length && NUL !in q
    ensures e == ParaEnd(RowsOf(sym.views), k + 1) - 1
  {
  }

  // Gathers the rest of the paragraph from the cursor on.
  method GatherRest(sym: InputItem, line: Line, p: nat, buff: array<char>, ghost k: nat, ghost e: nat, ghost q: string,
                    ghost x: string, ghost w: seq<View>)
    returns (last: Line)
    requires Ready(sym, line, buff, k, p, e, q, x, w)
    modifies buff
    ensures sym.Chained() && Carries(buff, q) && e < |sym.chain| && last == sym.chain[e]
  {
    RestReady(sym, line, buff, k, p, e, q, x, w);
    var tr := CopyOut(line.buffer, p, sym.size, buff, 0);
    assert buff[..tr] == x;
    RestGathers(sym, line, buff, k, p, e, q, x, w, line.next, tr);
    ghost var e1;
    last, e1 := GatherText(sym, line.next, buff, tr, x, k + 1, q);
    assert e1 == e;
  }

  // Gathers that rest, and ends the line of the cursor there.
  method TakeRest(sym: InputItem, line: Line, p: nat, buff: array<char>, ghost k: nat, ghost e: nat, ghost q: string,
                  ghost x: string, ghost w: seq<View>)
    returns (last: Line)
    requires Ready(sym, line, buff, k, p, e, q, x, w)
    modifies sym`views, line`len, line.buffer, buff
    ensures Taken(sym, old(sym.views), k, p, e, buff, q, last)
  {
    InItem(sym, k);
    last := GatherRest(sym, line, p, buff, k, e, q, x, w);
    EndLine(sym, line, p, k, sym.views[k].row.chars);
  }

  lemma Columns(b: array<char>, size: nat, p: nat, s: string)
    requires p <= size <= b.Length && b[..size] == s
    ensures b[p..size] == s[p..]
  {
  }

  // Lines k + 1 to e take the text in the buffer, and a new one what does not fit.
  method ShiftAll(sym: InputItem, first: Line, last: Line, buff: array<char>, ghost e: nat, ghost q: string,
                  ghost w: seq<View>)
    returns (ghost n: Line?)
    requires sym.Anchored() && sym.at < e && Shifting(sym, first, sym.at + 1, e, buff, 0, q, w) && last == sym.chain[e]
    modifies sym`chain, sym`repr, sym`views, sym`slots, sym`numLines
    modifies sym.repr`next, sym.repr`prev, sym.repr`len, sym.slots.Keys
    ensures sym.Anchored() && sym.Chained() && sym.views == w
    ensures Grown(old(sym.repr), old(sym.slots.Keys), sym.repr, sym.slots.Keys, n)
    ensures n != null ==> fresh(n) && fresh(n.buffer)
  {
    var tr := ShiftLines(sym, first, last, buff, sym.at + 1, e, q, w);
    n := ShiftLast(sym, last, buff, tr, e, q, w);
  }

  lemma SettleDetached(sym: InputItem, v: seq<View>, k: nat, p: nat, e: nat, buff: array<char>, q: string, x: string,
                       w: seq<View>, last: Line)
    requires Plan(v, k, p, e, q, x, w, sym.size) && Taken(sym, v, k, p, e, buff, q, last)
    ensures k + 1 < |sym.chain| && Shifting(sym, sym.chain[k+1], k + 1, e, buff, 0, q, w)
    ensures sym.chain[k].next == sym.chain[k+1] && e < |sym.chain| && last == sym.chain[e]
  {
    LineBuffers(sym, k);
  }

  method Detach(sym: InputItem, line: Line, buff: array<char>, ghost k: nat, p: nat, ghost e: nat, ghost q: string,
                ghost x: string, ghost w: seq<View>)
    returns (first: Line, last: Line)
    requires Ready(sym, line, buff, k, p, e, q, x, w)
    modifies sym`views, line`len, line.buffer, buff
    ensures sym.Anchored() && sym.at == k < e
    ensures Shifting(sym, first, k + 1, e, buff, 0, q, w) && last == sym.chain[e]
  {
    ghost var v := sym.views;
    last := TakeRest(sym, line, p, buff, k, e, q, x, w);
    SettleDetached(sym, v, k, p, e, buff, q, x, w, last);
    first := line.next;
  }

  // The lines of the item after the rest of the paragraph moved down.
  method MoveDown(sym: InputItem, line: Line, buff: array<char>, ghost k: nat, p: nat, ghost e: nat, ghost q: string,
                  ghost x: string, ghost w: seq<View>)
    returns (ghost n: Line?)
    requires Ready(sym, line, buff, k, p, e, q, x, w)
    modifies buff
    modifies sym`chain, sym`repr, sym`views, sym`slots, sym`numLines
    modifies sym.repr`next, sym.repr`prev, sym.repr`len, sym.slots.Keys
    ensures sym.Anchored() && sym.Chained() && sym.views == w
    ensures Grown(old(sym.repr), old(sym.slots.Keys), sym.repr, sym.slots.Keys, n)
    ensures n != null ==> fresh(n) && fresh(n.buffer)
  {
    InItem(sym, k);
    var first, last := Detach(sym, line, buff, k, p, e, q, x, w);
    n := ShiftAll(sym, first, last, buff, e, q, w);
  }

  lemma InItem(sym: InputItem, k: nat)
    requires sym.Chained() && k < |sym.chain|
    ensures sym.chain[k] in sym.repr && sym.chain[k].buffer in sym.slots
  {
  }

  method Descend(sym: InputItem, line: Line, buff: array<char>, ghost k: nat, p: nat, ghost e: nat, ghost q: string,
                 ghost x: string, ghost w: seq<View>)
    returns (ghost n: Line?)
    requires Ready(sym, line, buff, k, p, e, q, x, w)
    modifies sym, sym.repr, sym.slots.Keys, buff
    ensures sym.Anchored() && sym.Chained() && sym.views == w && sym.at == k + 1 && sym.currLine.cursor == 0
    ensures Grown(old(sym.repr), old(sym.slots.Keys), sym.repr, sym.slots.Keys, n)
    ensures n != null ==> fresh(n) && fresh(n.buffer)
  {
    n := MoveDown(sym, line, buff, k, p, e, q, x, w);
    NextInItem(sym, k);
    SeatAt(sym, sym.currLine.next, k + 1, 0);
  }

  lemma NextInItem(sym: InputItem, k: nat)
    requires sym.Anchored() && sym.Chained() && k == sym.at && k + 1 < |sym.views|
    ensures k + 1 < |sym.chain| && sym.currLine.next == sym.chain[k+1] && sym.chain[k+1] in sym.repr
  {
    LineBuffers(sym, k);
  }

  lemma SettleSplit(sym: InputItem, v: seq<View>, k: nat, p: nat, w: seq<View>)
    requires k < |v| && k + 1 < |w| && Splits(v, k, p, w, CaretOf(w, k + 1, 0), sym.size)
    requires sym.Anchored() && sym.Chained() && sym.views == w && sym.at == k + 1 && sym.currLine.cursor == 0
    ensures sym.Valid() && Splits(v, k, p, sym.views, sym.Caret(), sym.size) && sym.at == k + 1
  {
  }

  // Return strictly inside a line that wraps.
  method ToughEnter(sym: InputItem) returns (ghost n: Line?)
    requires sym.Valid() && sym.views[sym.at].row.soft && 0 < sym.currLine.cursor < sym.size
    requires |ParaText(RowsOf(sym.views), sym.at)| - sym.currLine.cursor < 1024
    modifies sym, sym.repr, sym.slots.Keys
    ensures sym.Valid()
    ensures Splits(old(sym.views), old(sym.at), old(sym.currLine.cursor), sym.views, sym.Caret(), sym.size)
    ensures sym.at == old(sym.at) + 1 && sym.currLine.cursor == 0
    ensures Grown(old(sym.repr), old(sym.slots.Keys), sym.repr, sym.slots.Keys, n)
    ensures n != null ==> fresh(n) && fresh(n.buffer)
  {
    var line, p := sym.currLine, sym.currLine.cursor;
    ghost var v, k := sym.views, sym.at;
    ghost var q, e := ParaText(RowsOf(v), k)[p..], ParaEnd(RowsOf(v), k) - 1;
    ToughReady(v, k, p, e, q, sym.size);
    ghost var w := ToughViews(v, k, p, e, q, sym.size);
    var buff := new char[1024];
    n := Descend(sym, line, buff, k, p, e, q, v[k].row.chars[p..], w);
    SettleSplit(sym, v, k, p, w);
  }
}
