// Joining and breaking paragraphs that wrap, by way of a buffer (src/hyper/dialog.c).
module InputJoining {
  import opened Characters
  import opened CArithmetic
  import opened InputText
  import opened InputEdits
  import opened InputViews
  import opened InputLines
  import opened InputDeletion

  // ----- pouring a text into lines -----------------------------------------------------------

  // Lines m and on take the text t from o on. Whether the last one is closed is told apart
  // when it is line m.
  function Poured(v: seq<View>, m: nat, t: string, o: nat, size: nat, shut: bool): seq<View>
    requires size > 0 && o <= |t| && m + |Wrap(t, o, size)| <= |v|
    decreases |t| - o
  {
    if |t| - o <= size then
      v[m := View(Row(t[o..], false), v[m].number, shut)]
    else
      Poured(v[m := View(Row(t[o..o+size], true), v[m].number, true)], m + 1, t, o + size, size, true)
  }

  lemma {:induction false} PouredParts(v: seq<View>, m: nat, t: string, o: nat, size: nat, shut: bool)
    requires size > 0 && o <= |t| && m + |Wrap(t, o, size)| <= |v|
    ensures var w, rows := Poured(v, m, t, o, size, shut), Wrap(t, o, size);
            && |w| == |v|
            && (forall k :: 0 <= k < m || m + |rows| <= k < |v| ==> w[k] == v[k])
            && (forall k :: m <= k < m + |rows| ==>
                  w[k] == View(rows[k-m], v[k].number, |t| - o <= size ==> shut))
    decreases |t| - o
  {
    if |t| - o > size {
      var a := v[m := View(Row(t[o..o+size], true), v[m].number, true)];
      PouredParts(a, m + 1, t, o + size, size, true);
      var w, rows, rest := Poured(v, m, t, o, size, shut), Wrap(t, o, size), Wrap(t, o + size, size);
      assert rows == [Row(t[o..o+size], true)] + rest;
      forall k | m <= k < m + |rows| ensures w[k] == View(rows[k-m], v[k].number, true) {
        if k > m {
          assert rows[k-m] == rest[k-(m+1)];
        }
      }
    }
  }

  lemma WrapStep(t: string, o: nat, size: nat)
    requires size > 0 && o <= |t|
    ensures |Wrap(t, o, size)| == if |t| - o <= size then 1 else 1 + |Wrap(t, o + size, size)|
  {
  }

  lemma ParaStep(rows: seq<Row>, k: nat, size: nat)
    requires WellWrapped(rows, size) && k < |rows|
    ensures if rows[k].soft
            then k + 1 < |rows| && |ParaText(rows, k)| == size + |ParaText(rows, k + 1)|
              && |ParaText(rows, k + 1)| > 0 && ParaEnd(rows, k) == ParaEnd(rows, k + 1)
            else |ParaText(rows, k)| <= size && ParaEnd(rows, k) == k + 1
  {
    if rows[k].soft {
      ParaIsPlain(rows, k + 1, size);
    }
  }

  // A text as long as a paragraph and up to one line more wraps into as many lines as the
  // paragraph has, or one more.
  lemma {:induction false} WrapRoom(rows: seq<Row>, k: nat, t: string, o: nat, size: nat)
    requires WellWrapped(rows, size) && k < |rows| && o <= |t|
    requires |ParaText(rows, k)| <= |t| - o <= |ParaText(rows, k)| + size
    ensures ParaEnd(rows, k) - k <= |Wrap(t, o, size)| <= ParaEnd(rows, k) - k + 1
    decreases |rows| - k
  {
    ParaStep(rows, k, size);
    WrapStep(t, o, size);
    if rows[k].soft {
      WrapRoom(rows, k + 1, t, o + size, size);
    } else if |t| - o > size {
      WrapStep(t, o + size, size);
    }
  }

  // Line k takes the paragraph after it, which ends with line e; e goes when nothing is
  // left for it.
  function JoinedViews(v: seq<View>, k: nat, e: nat, t: string, size: nat, shut: bool, left: bool): seq<View>
    requires size > 0 && k < e < |v| && e - k <= |Wrap(t, 0, size)| <= e - k + 1
  {
    var a := v[e := View(Row("", false), v[e].number, left)];
    var w := Poured(a, k, t, 0, size, shut);
    PouredParts(a, k, t, 0, size, shut);
    if k + |Wrap(t, 0, size)| <= e then Renumbered(Cut(w, e), e, |v| - 1, -1) else w
  }

  // What is in r: the rows w in place of those of lines k to e.
  ghost predicate InPlace(v: seq<View>, k: nat, e: nat, w: seq<Row>, r: seq<View>)
    requires k <= e < |v|
  {
    && |r| == |v| - (e + 1 - k) + |w|
    && (forall j :: 0 <= j < k ==> r[j].row == v[j].row)
    && (forall j :: k <= j < k + |w| ==> r[j].row == w[j-k])
    && (forall j :: k + |w| <= j < |r| ==> r[j].row == v[j - k - |w| + e + 1].row)
  }

  lemma InPlaceRows(v: seq<View>, k: nat, e: nat, w: seq<Row>, r: seq<View>)
    requires k <= e < |v| && InPlace(v, k, e, w, r)
    ensures RowsOf(r) == RowsOf(v)[..k] + w + RowsOf(v)[e+1..]
  {
    var a, b := RowsOf(r), RowsOf(v)[..k] + w + RowsOf(v)[e+1..];
    RewrappedParts(RowsOf(v), k, e + 1, w);
    assert |a| == |b|;
    forall j | 0 <= j < |a| ensures a[j] == b[j] {
      assert a[j] == r[j].row;
    }
  }

  lemma CutInPlace(v: seq<View>, k: nat, e: nat, w: seq<Row>, p: seq<View>)
    requires k < e < |v| == |p| && k + |w| == e
    requires forall j :: 0 <= j < k || e < j < |v| ==> p[j].row == v[j].row
    requires forall j :: k <= j < e ==> p[j].row == w[j-k]
    ensures InPlace(v, k, e, w, Renumbered(Cut(p, e), e, |v| - 1, -1))
  {
  }

  lemma JoinedViewsParts(v: seq<View>, k: nat, e: nat, t: string, size: nat, shut: bool, left: bool)
    requires size > 0 && k < e < |v| && e - k <= |Wrap(t, 0, size)| <= e - k + 1
    ensures InPlace(v, k, e, Wrap(t, 0, size), JoinedViews(v, k, e, t, size, shut, left))
  {
    var a := v[e := View(Row("", false), v[e].number, left)];
    PouredParts(a, k, t, 0, size, shut);
    if k + |Wrap(t, 0, size)| <= e {
      CutInPlace(v, k, e, Wrap(t, 0, size), Poured(a, k, t, 0, size, shut));
    }
  }

  // The lines of the two paragraphs are enough, and at most one is left over.
  lemma JoinedRoom(rows: seq<Row>, k: nat, t: string, size: nat)
    requires WellWrapped(rows, size) && k + 1 < |rows| && t == rows[k].chars + ParaText(rows, k + 1)
    ensures var e := ParaEnd(rows, k + 1) - 1;
            && k < e < |rows| && e - k <= |Wrap(t, 0, size)| <= e - k + 1
            && Joined(rows, k, size) == rows[..k] + Wrap(t, 0, size) + rows[e+1..]
  {
    WrapRoom(rows, k + 1, t, 0, size);
  }

  lemma JoinedViewsRows(v: seq<View>, k: nat, e: nat, t: string, size: nat, shut: bool, left: bool)
    requires WellWrapped(RowsOf(v), size) && k + 1 < |v| && t == v[k].row.chars + ParaText(RowsOf(v), k + 1)
    requires e == ParaEnd(RowsOf(v), k + 1) - 1
    ensures k < e < |v| && e - k <= |Wrap(t, 0, size)| <= e - k + 1
    ensures RowsOf(JoinedViews(v, k, e, t, size, shut, left)) == Joined(RowsOf(v), k, size)
  {
    JoinedRoom(RowsOf(v), k, t, size);
    JoinedViewsParts(v, k, e, t, size, shut, left);
    InPlaceRows(v, k, e, Wrap(t, 0, size), JoinedViews(v, k, e, t, size, shut, left));
  }

  // The numbers stay consecutive; a line is left without a terminator at most where the
  // two paragraphs met.
  lemma JoinedViewsKeep(v: seq<View>, k: nat, e: nat, t: string, size: nat, shut: bool, left: bool)
    requires size > 0 && k < e < |v| && e - k <= |Wrap(t, 0, size)| <= e - k + 1
    ensures var w := JoinedViews(v, k, e, t, size, shut, left);
            && (Numbered(v) ==> Numbered(w))
            && (AllClosed(v) ==> (AllClosed(w) <==> (|t| <= size ==> shut)))
            && |w| == (if k + |Wrap(t, 0, size)| <= e then |v| - 1 else |v|)
  {
    var a := v[e := View(Row("", false), v[e].number, left)];
    var w, n := Poured(a, k, t, 0, size, shut), |Wrap(t, 0, size)|;
    PouredParts(a, k, t, 0, size, shut);
    forall j | 0 <= j < |v|
      ensures w[j].number == v[j].number && (v[j].closed && j != k && (j != e || k + n > e) ==> w[j].closed)
    {
      if k <= j < k + n {
        assert w[j].number == a[j].number;
      }
    }
    assert w[k].closed == (|t| <= size ==> shut);
    TidiedKeep(v, k, e, w, n, |t| <= size ==> shut);
  }

  lemma TidiedKeep(v: seq<View>, k: nat, e: nat, w: seq<View>, n: nat, shut: bool)
    requires k < e < |v| == |w| && e - k <= n && w[k].closed == shut
    requires forall j :: 0 <= j < |v| ==> w[j].number == v[j].number
    requires forall j :: 0 <= j < |v| && v[j].closed && j != k && (j != e || k + n > e) ==> w[j].closed
    ensures var r := if k + n <= e then Renumbered(Cut(w, e), e, |v| - 1, -1) else w;
            (Numbered(v) ==> Numbered(r)) && (AllClosed(v) ==> (AllClosed(r) <==> shut))
  {
    var r := if k + n <= e then Renumbered(Cut(w, e), e, |v| - 1, -1) else w;
    assert r[k].closed == w[k].closed;
  }

  // ----- gathering a paragraph in a buffer -----------------------------------------------------

  // Copies columns lo to hi of a line into a buffer.
  method CopyOut(from: array<char>, lo: nat, hi: nat, buff: array<char>, at: nat) returns (tr: nat)
    requires from != buff && lo <= hi <= from.Length && at + hi - lo <= buff.Length
    modifies buff
    ensures tr == at + hi - lo && buff[..tr] == old(buff[..at]) + from[lo..hi]
    ensures lo == 0 ==> from[lo..hi] == from[..hi]
  {
    tr := at;
    var bp := lo;
    while bp < hi
      invariant lo <= bp <= hi && tr == at + bp - lo
      invariant buff[..tr] == old(buff[..at]) + from[lo..bp]
    {
      buff[tr] := from[bp];
      Extended(buff, tr, old(buff[..at]), from, lo, bp);
      tr, bp := tr + 1, bp + 1;
    }
  }

  lemma Extended(b: array<char>, tr: nat, x: string, from: array<char>, lo: nat, bp: nat)
    requires tr < b.Length && lo <= bp < from.Length && b[..tr] == x + from[lo..bp] && b[tr] == from[bp]
    ensures b[..tr+1] == x + from[lo..bp+1]
  {
  }

  // The buffer has what comes before line e of the text x and the paragraph from line k on.
  ghost predicate Gathering(sym: InputItem, buff: array<char>, x: string, k: nat, last: Line, tr: nat, e: nat)
    reads sym, sym.repr, sym.slots.Keys, buff
  {
    var rows := RowsOf(sym.views);
    var gathering :=
      && sym.Chained() && WellWrapped(rows, sym.size) && |rows| == |sym.chain| && buff !in sym.slots
      && k < |rows| && e < |rows| && last == sym.chain[e] && ParaEnd(rows, e) == ParaEnd(rows, k)
      && tr <= buff.Length && buff[..tr] + ParaText(rows, e) == x + ParaText(rows, k)
      && |x| + |ParaText(rows, k)| <= buff.Length;
    gathering
  }

  method GatherLine(sym: InputItem, buff: array<char>, ghost x: string, ghost k: nat, line: Line, at: nat, ghost m: nat)
    returns (last: Line, tr: nat, ghost e: nat)
    requires Gathering(sym, buff, x, k, line, at, m) && line.len > sym.size
    modifies buff
    ensures e == m + 1 && Gathering(sym, buff, x, k, last, tr, e)
  {
    ghost var rows, y := RowsOf(sym.views), buff[..at];
    LineText(sym, m);
    LengthsAgree(y, ParaText(rows, m), x, ParaText(rows, k));
    tr := CopyOut(line.buffer, 0, sym.size, buff, at);
    Regroup2(y, rows[m].chars, ParaText(rows, m + 1));
    last, e := line.next, m + 1;
  }

  lemma LengthsAgree(a: string, b: string, c: string, d: string)
    requires a + b == c + d
    ensures |a| + |b| == |c| + |d|
  {
  }

  method GatherLast(sym: InputItem, buff: array<char>, ghost x: string, ghost k: nat, line: Line, at: nat, ghost m: nat)
    returns (tr: nat)
    requires Gathering(sym, buff, x, k, line, at, m) && line.len <= sym.size
    modifies buff
    ensures sym.Chained() && m == ParaEnd(RowsOf(sym.views), k) - 1 && tr <= buff.Length
    ensures buff[..tr] == x + ParaText(RowsOf(sym.views), k)
  {
    ghost var rows, y := RowsOf(sym.views), buff[..at];
    LineText(sym, m);
    LengthsAgree(y, ParaText(rows, m), x, ParaText(rows, k));
    tr := CopyOut(line.buffer, 0, line.len, buff, at);
  }

  // Copies a paragraph from line k on into a buffer, and gives the last line of it.
  method Gather(sym: InputItem, line: Line, buff: array<char>, at: nat, ghost x: string, ghost k: nat)
    returns (last: Line, tr: nat, ghost e: nat)
    requires Gathering(sym, buff, x, k, line, at, k)
    modifies buff
    ensures sym.Chained() && e == ParaEnd(RowsOf(sym.views), k) - 1 && last == sym.chain[e]
    ensures tr <= buff.Length && buff[..tr] == x + ParaText(RowsOf(sym.views), k)
  {
    last, tr, e := line, at, k;
    while last.len > sym.size
      invariant Gathering(sym, buff, x, k, last, tr, e)
      decreases |sym.chain| - e
    {
      last, tr, e := GatherLine(sym, buff, x, k, last, tr, e);
    }
    tr := GatherLast(sym, buff, x, k, last, tr, e);
  }

  lemma LineText(sym: InputItem, e: nat)
    requires sym.Chained() && WellWrapped(RowsOf(sym.views), sym.size) && e < |sym.chain|
    ensures |sym.views| == |sym.chain| && sym.chain[e].buffer in sym.slots
    ensures sym.chain[e].len > sym.size ==>
              && e + 1 < |sym.chain| && sym.chain[e].next == sym.chain[e+1]
              && sym.chain[e].buffer.Length > sym.size
              && sym.chain[e].buffer[..sym.size] == RowsOf(sym.views)[e].chars
              && ParaText(RowsOf(sym.views), e) == RowsOf(sym.views)[e].chars + ParaText(RowsOf(sym.views), e + 1)
              && ParaEnd(RowsOf(sym.views), e) == ParaEnd(RowsOf(sym.views), e + 1)
    ensures sym.chain[e].len <= sym.size ==>
              && sym.chain[e].buffer.Length > sym.chain[e].len
              && sym.chain[e].buffer[..sym.chain[e].len] == ParaText(RowsOf(sym.views), e)
              && ParaEnd(RowsOf(sym.views), e) == e + 1
  {
    var rows := RowsOf(sym.views);
    assert rows[e] == sym.views[e].row;
    assert sym.chain[e].Holds(rows[e], sym.size);
    SoftHasNext(sym, e);
    if sym.chain[e].len <= sym.size {
      assert ParaText(rows, e) == rows[e].chars;
    }
  }

  // ----- pouring a buffer back into lines ----------------------------------------------------------

  // A buffer with the text q and a terminator.
  ghost predicate Carries(buff: array<char>, q: string)
    reads buff
  {
    var carries := |q| < buff.Length && buff[..|q|] == q && buff[|q|] == NUL && NUL !in q;
    carries
  }

  lemma CarriedAt(buff: array<char>, q: string, tr: nat)
    requires Carries(buff, q) && tr <= |q|
    ensures tr < buff.Length && (buff[tr] == NUL <==> tr == |q|) && (tr < |q| ==> buff[tr] == q[tr])
  {
    if tr < |q| {
      assert buff[tr] == buff[..|q|][tr];
      assert q[tr] in q;
    }
  }

  // Fills a line from column b on, up to its edge or the end of the text.
  method FillLine(to: array<char>, b: nat, size: nat, buff: array<char>, at: nat, ghost q: string)
    returns (bp: nat, tr: nat)
    requires to != buff && b <= size < to.Length && Carries(buff, q) && at <= |q|
    modifies to
    ensures bp == b + Min(size - b, |q| - at) && tr == at + Min(size - b, |q| - at)
    ensures to[..bp] == old(to[..b]) + q[at..tr]
    ensures forall j :: bp <= j < to.Length ==> to[j] == old(to[j])
  {
    bp, tr := b, at;
    CarriedAt(buff, q, tr);
    while bp < size && buff[tr] != NUL
      invariant b <= bp <= size && tr == at + (bp - b) && tr <= |q|
      invariant buff[tr] == NUL <==> tr == |q|
      invariant to[..bp] == old(to[..b]) + q[at..tr]
      invariant forall j :: bp <= j < to.Length ==> to[j] == old(to[j])
      decreases size - bp
    {
      CarriedAt(buff, q, tr);
      to[bp] := buff[tr];
      Appended(to, bp, old(to[..b]), q, at, tr);
      bp, tr := bp + 1, tr + 1;
      CarriedAt(buff, q, tr);
    }
  }

  lemma Appended(to: array<char>, bp: nat, x: string, q: string, at: nat, tr: nat)
    requires bp < to.Length && at <= tr < |q| && to[..bp] == x + q[at..tr] && to[bp] == q[tr]
    ensures to[..bp+1] == x + q[at..tr+1]
  {
  }

  // A line takes what fits of the text from tr on, and wraps when more is left.
  method PourLine(line: Line, size: nat, buff: array<char>, at: nat, ghost q: string) returns (tr: nat)
    requires line.buffer != buff && line.buffer.Length == size + 2 && Carries(buff, q) && at <= |q|
    modifies line`len, line.buffer
    ensures tr == at + Min(size, |q| - at) && line.Closed(size)
    ensures line.Holds(if |q| - at <= size then Row(q[at..], false) else Row(q[at..tr], true), size)
  {
    var bp;
    bp, tr := FillLine(line.buffer, 0, size, buff, at, q);
    CarriedAt(buff, q, tr);
    assert line.buffer[..bp] == q[at..tr];
    if buff[tr] != NUL {
      line.Wrap(q[at..tr], size);
    } else {
      line.len := bp;
      line.buffer[bp] := NUL;
      assert line.buffer[..bp] == q[at..tr] == q[at..];
    }
  }

  // The first line already holds x, and is not terminated anew when all of the text fits.
  method PourFirst(line: Line, size: nat, buff: array<char>, ghost x: string, ghost q: string)
    returns (tr: nat, ghost shut: bool)
    requires line.buffer != buff && line.Holds(Row(x, false), size) && Carries(buff, q)
    modifies line`len, line.buffer
    ensures tr == Min(size - |x|, |q|)
    ensures shut == (|x| + |q| >= size || old(line.buffer[|x| + |q|]) == NUL)
    ensures line.Closed(size) == (|x| + |q| <= size ==> shut)
    ensures line.Holds(if |x| + |q| <= size then Row(x + q, false) else Row((x + q)[..size], true), size)
    ensures |x| + |q| <= size ==>
              forall j :: |x| + |q| <= j < line.buffer.Length ==> line.buffer[j] == old(line.buffer[j])
  {
    var bp;
    shut := |x| + |q| >= size || line.buffer[|x| + |q|] == NUL;
    bp, tr := FillLine(line.buffer, line.len, size, buff, 0, q);
    CarriedAt(buff, q, tr);
    FirstPart(x, q, size);
    if buff[tr] == NUL {
      line.len := bp;
    } else {
      line.Wrap((x + q)[..size], size);
    }
  }

  lemma FirstPart(x: string, q: string, size: nat)
    requires |x| <= size
    ensures if |x| + |q| <= size then q[0..Min(size - |x|, |q|)] == q
            else x + q[0..Min(size - |x|, |q|)] == (x + q)[..size]
  {
  }

  method PourOne(sym: InputItem, line: Line, buff: array<char>, at: nat, ghost m: nat, ghost q: string, ghost v: View)
    returns (tr: nat)
    requires sym.Chained() && m < |sym.chain| && line == sym.chain[m] && buff !in sym.slots
    requires Carries(buff, q) && at <= |q|
    requires var r := if |q| - at <= sym.size then Row(q[at..], false) else Row(q[at..at+sym.size], true);
             v == View(r, sym.views[m].number, true)
    modifies sym`views, line`len, line.buffer
    ensures sym.Chained() && sym.views == old(sym.views)[m := v] && tr == at + Min(sym.size, |q| - at)
  {
    tr := PourLine(line, sym.size, buff, at, q);
    sym.views := sym.views[m := v];
  }

  // What is still to be poured gives the lines w.
  ghost predicate Pouring(sym: InputItem, l: Line?, m: nat, buff: array<char>, tr: nat, x: string, q: string,
                          w: seq<View>)
    reads sym, sym.repr, sym.slots.Keys, buff
  {
    var pouring :=
      && sym.size > 0 && sym.Chained() && buff !in sym.slots && Carries(buff, q) && tr <= |q|
      && if tr == |q| then sym.views == w
         else
           && m < |sym.chain| && l == sym.chain[m] && m + |Wrap(x + q, |x| + tr, sym.size)| <= |sym.views|
           && Poured(sym.views, m, x + q, |x| + tr, sym.size, true) == w;
    pouring
  }

  lemma PourStep(v: seq<View>, m: nat, x: string, q: string, tr: nat, size: nat)
    requires size > 0 && tr < |q| && m + |Wrap(x + q, |x| + tr, size)| <= |v|
    ensures if |q| - tr <= size
            then Poured(v, m, x + q, |x| + tr, size, true) == v[m := View(Row(q[tr..], false), v[m].number, true)]
            else
              && m + 1 + |Wrap(x + q, |x| + tr + size, size)| <= |v|
              && Poured(v, m, x + q, |x| + tr, size, true) ==
                 Poured(v[m := View(Row(q[tr..tr+size], true), v[m].number, true)], m + 1, x + q,
                        |x| + tr + size, size, true)
  {
    WrapStep(x + q, |x| + tr, size);
    Sliced(x, q, tr, if |q| - tr <= size then |q| else tr + size);
  }

  lemma Sliced(x: string, q: string, a: nat, b: nat)
    requires a <= b <= |q|
    ensures (x + q)[|x|+a..|x|+b] == q[a..b] && (x + q)[|x|+a..] == q[a..]
  {
  }

  method PourNext(sym: InputItem, line: Line, buff: array<char>, at: nat, ghost m: nat, ghost x: string,
                  ghost q: string, ghost w: seq<View>)
    returns (l: Line?, tr: nat, ghost n: nat)
    requires Pouring(sym, line, m, buff, at, x, q, w) && at < |q|
    modifies sym`views, sym.repr`len, sym.slots.Keys
    ensures at < tr && Pouring(sym, l, n, buff, tr, x, q, w)
  {
    n := m + 1;
    PourStep(sym.views, m, x, q, at, sym.size);
    ghost var r := if |q| - at <= sym.size then Row(q[at..], false) else Row(q[at..at+sym.size], true);
    tr := PourOne(sym, line, buff, at, m, q, View(r, sym.views[m].number, true));
    l := line.next;
  }

  method PourRest(sym: InputItem, line: Line?, buff: array<char>, at: nat, ghost k: nat, ghost x: string,
                  ghost q: string, ghost w: seq<View>)
    requires Pouring(sym, line, k, buff, at, x, q, w)
    modifies sym`views, sym.repr`len, sym.slots.Keys
    ensures sym.Chained() && sym.views == w
  {
    var l, tr := line, at;
    ghost var m := k;
    CarriedAt(buff, q, tr);
    while buff[tr] != NUL
      invariant Pouring(sym, l, m, buff, tr, x, q, w) && tr < buff.Length && (buff[tr] == NUL <==> tr == |q|)
      decreases |q| - tr
    {
      l, tr, m := PourNext(sym, l, buff, tr, m, x, q, w);
      CarriedAt(buff, q, tr);
    }
  }

  lemma PourTopStep(v: seq<View>, k: nat, x: string, q: string, size: nat, shut: bool)
    requires |x| <= size && size > 0 && k + |Wrap(x + q, 0, size)| <= |v|
    ensures var t, w := x + q, Poured(v, k, x + q, 0, size, shut);
            if |t| <= size then w == v[k := View(Row(t, false), v[k].number, shut)]
            else
              && k + 1 + |Wrap(t, size, size)| <= |v|
              && w == Poured(v[k := View(Row(t[..size], true), v[k].number, true)], k + 1, t, size, size, true)
  {
    var t := x + q;
    WrapStep(t, 0, size);
    assert t[0..] == t && (|t| > size ==> t[0..size] == t[..size]);
  }

  // The cells of a line from column m on.
  ghost function CellsFrom(line: Line, m: nat): seq<char>
    reads line.buffer
  {
    if m <= line.buffer.Length then line.buffer[m..] else []
  }

  method PourTopLine(sym: InputItem, line: Line, buff: array<char>, ghost k: nat, ghost x: string, ghost q: string,
                     ghost shut: bool, ghost r: Row, ghost tail: string)
    returns (tr: nat)
    requires sym.Chained() && k < |sym.chain| && line == sym.chain[k] && sym.views[k].row == Row(x, false)
    requires buff !in sym.slots && Carries(buff, q) && |x| <= sym.size && line.buffer.Length == sym.size + 2
    requires CellsFrom(line, |x| + |q|) == tail
    requires shut == (|x| + |q| >= sym.size || line.buffer[|x| + |q|] == NUL)
    requires r == if |x| + |q| <= sym.size then Row(x + q, false) else Row((x + q)[..sym.size], true)
    modifies sym`views, line`len, line.buffer
    ensures sym.Chained() && tr == Min(sym.size - |x|, |q|)
    ensures sym.views == old(sym.views)[k := View(r, old(sym.views[k]).number, |x| + |q| <= sym.size ==> shut)]
    ensures |x| + |q| <= sym.size ==> CellsFrom(line, |x| + |q|) == tail
  {
    ghost var done;
    tr, done := PourFirst(line, sym.size, buff, x, q);
    sym.views := sym.views[k := View(r, sym.views[k].number, |x| + |q| <= sym.size ==> shut)];
  }

  // Fills line k, which ends a paragraph with the text x, with the first of q.
  method PourTop(sym: InputItem, line: Line, buff: array<char>, ghost k: nat, ghost x: string, ghost q: string,
                 ghost shut: bool, ghost w: seq<View>, ghost tail: string)
    returns (tr: nat)
    requires CellsFrom(line, |x| + |q|) == tail
    requires sym.size > 0 && sym.Chained() && k < |sym.chain|
    requires line == sym.chain[k] && sym.views[k].row == Row(x, false)
    requires buff !in sym.slots && Carries(buff, q) && |x| <= sym.size && line.buffer.Length == sym.size + 2
    requires shut == (|x| + |q| >= sym.size || line.buffer[|x| + |q|] == NUL)
    requires k + |Wrap(x + q, 0, sym.size)| <= |sym.views| && w == Poured(sym.views, k, x + q, 0, sym.size, shut)
    modifies sym`views, line`len, line.buffer
    ensures Pouring(sym, line.next, k + 1, buff, tr, x, q, w)
    ensures |x| + |q| <= sym.size ==> CellsFrom(line, |x| + |q|) == tail && tr == |q|
  {
    ghost var t := x + q;
    PourTopStep(sym.views, k, x, q, sym.size, shut);
    ghost var r := if |t| <= sym.size then Row(t, false) else Row(t[..sym.size], true);
    tr := PourTopLine(sym, line, buff, k, x, q, shut, r, tail);
  }

  // Lines k to e take x and q together, and e, which was empty, goes if nothing came to it.
  method Refill(sym: InputItem, line: Line, buff: array<char>, ghost k: nat, ghost e: nat,
                ghost x: string, ghost q: string, ghost shut: bool, ghost w: seq<View>, ghost tail: string)
    requires CellsFrom(line, |x| + |q|) == tail
    requires sym.size > 0 && sym.Chained() && k < e < |sym.chain|
    requires line == sym.chain[k] && sym.views[k].row == Row(x, false)
    requires buff !in sym.slots && Carries(buff, q) && |x| <= sym.size && line.buffer.Length == sym.size + 2
    requires shut == (|x| + |q| >= sym.size || line.buffer[|x| + |q|] == NUL)
    requires k + |Wrap(x + q, 0, sym.size)| <= |sym.views| && w == Poured(sym.views, k, x + q, 0, sym.size, shut)
    modifies sym`views, sym.repr`len, sym.slots.Keys
    ensures sym.Chained() && sym.views == w
    ensures |x| + |q| <= sym.size ==> CellsFrom(line, |x| + |q|) == tail
  {
    var tr := PourTop(sym, line, buff, k, x, q, shut, w, tail);
    CarriedAt(buff, q, tr);
    if buff[tr] != NUL {
      PourRest(sym, line.next, buff, tr, k + 1, x, q, w);
    }
  }

  method EmptyLine(sym: InputItem, line: Line, ghost k: nat) returns (ghost left: bool)
    requires sym.Chained() && k < |sym.chain| && line == sym.chain[k]
    modifies sym`views, line`len
    ensures sym.Chained()
    ensures sym.views == old(sym.views)[k := View(Row("", false), old(sym.views[k]).number, left)]
  {
    line.len := 0;
    assert line.buffer[..0] == "";
    left := line.Closed(sym.size);
    sym.views := sym.views[k := View(Row("", false), sym.views[k].number, left)];
  }

  // Takes out the line that the paragraph no longer needs.
  method DropLast(sym: InputItem, last: Line, ghost e: nat)
    requires sym.Anchored() && sym.Chained() && sym.at < e < |sym.chain| && last == sym.chain[e]
    modifies sym`chain, sym`views, sym`slots, sym`numLines, sym.repr`next, sym.repr`prev, sym.repr`number
    ensures sym.Anchored() && sym.Chained() && sym.slots.Keys == old(sym.slots.Keys)
    ensures sym.views == Renumbered(Cut(old(sym.views), e), e, |old(sym.views)| - 1, -1)
  {
    sym.Unlink(last, e);
    sym.DecLineNumbers(last.next, e);
  }

  // ----- joining two paragraphs ------------------------------------------------------------------

  // Gathers the paragraph from line k on after what is in the buffer, and ends it.
  method GatherText(sym: InputItem, first: Line, buff: array<char>, at: nat, ghost x: string, ghost k: nat,
                    ghost q: string)
    returns (last: Line, ghost e: nat)
    requires Gathering(sym, buff, x, k, first, at, k)
    requires q == x + ParaText(RowsOf(sym.views), k) && |q| < buff.Length && NUL !in q
    modifies buff
    ensures sym.Chained() && e == ParaEnd(RowsOf(sym.views), k) - 1 && last == sym.chain[e]
    ensures Carries(buff, q)
  {
    var tr;
    last, tr, e := Gather(sym, first, buff, at, x, k);
    buff[tr] := NUL;
  }

  // Gathers a paragraph in a buffer and leaves its last line empty.
  method TakeParagraph(sym: InputItem, first: Line, buff: array<char>, ghost k: nat, ghost q: string)
    returns (last: Line, ghost e: nat, ghost left: bool)
    requires sym.Chained() && WellWrapped(RowsOf(sym.views), sym.size) && k < |sym.chain| && first == sym.chain[k]
    requires |RowsOf(sym.views)| == |sym.chain| && buff !in sym.slots
    requires q == ParaText(RowsOf(sym.views), k) && |q| < buff.Length
    modifies sym`views, sym.repr`len, buff
    ensures sym.Chained() && e == ParaEnd(RowsOf(old(sym.views)), k) - 1 && last == sym.chain[e]
    ensures sym.views == old(sym.views)[e := View(Row("", false), old(sym.views)[e].number, left)]
    ensures Carries(buff, q)
  {
    ParaIsPlain(RowsOf(sym.views), k, sym.size);
    assert q == "" + q;
    last, e := GatherText(sym, first, buff, 0, "", k, q);
    left := EmptyLine(sym, last, e);
  }

  lemma LineBuffers(sym: InputItem, k: nat)
    requires sym.Chained() && k < |sym.chain|
    ensures |sym.views| == |sym.chain| && sym.chain[k].buffer.Length == sym.size + 2
    ensures sym.chain[k].next == At(sym.chain, k + 1)
    ensures sym.chain[k].len == 0 <==> sym.views[k].row == Row("", false)
  {
    assert sym.chain[k].Holds(sym.views[k].row, sym.size);
  }

  lemma LineHolds(sym: InputItem, k: nat)
    requires sym.Chained() && k < |sym.chain|
    ensures |sym.views| == |sym.chain| && sym.chain[k].Shows(sym.views[k], sym.size) && sym.chain[k].buffer in sym.slots
    ensures sym.chain[k].buffer.Length == sym.size + 2 && |sym.views[k].row.chars| <= sym.size
    ensures sym.chain[k].buffer[..|sym.views[k].row.chars|] == sym.views[k].row.chars
  {
    assert sym.chain[k].Holds(sym.views[k].row, sym.size);
  }

  // Line k ends a paragraph and takes the next one, which ends with line e; t is their text.
  ghost predicate JoinPlan(v: seq<View>, k: nat, e: nat, t: string, size: nat) {
    var plan :=
      && WellWrapped(RowsOf(v), size) && k + 1 < |v| && !v[k].row.soft && |v[k].row.chars| <= size
      && |ParaText(RowsOf(v), k + 1)| < 1024 && e == ParaEnd(RowsOf(v), k + 1) - 1
      && t == v[k].row.chars + ParaText(RowsOf(v), k + 1) && NUL !in t && '\n' !in t
      && size > 0 && k < e < |v| && e - k <= |Wrap(t, 0, size)| <= e - k + 1;
    plan
  }

  // Line k has the cells tail where its text will end, and a terminator there exactly if shut.
  ghost predicate JoinLine(sym: InputItem, line: Line, k: nat, t: string, shut: bool, tail: seq<char>)
    reads sym, line.buffer
  {
    var joining :=
      && k < |sym.chain| && line == sym.chain[k] && line.buffer.Length == sym.size + 2
      && shut == (|t| >= sym.size || line.buffer[|t|] == NUL) && CellsFrom(line, |t|) == tail;
    joining
  }

  // Gathers the paragraph that line k is to take.
  method TakeNext(sym: InputItem, line: Line, buff: array<char>, ghost k: nat, ghost e: nat, ghost t: string,
                  ghost q: string)
    returns (last: Line, ghost left: bool)
    requires sym.Chained() && JoinPlan(sym.views, k, e, t, sym.size) && k < |sym.chain| && line == sym.chain[k]
    requires q == ParaText(RowsOf(sym.views), k + 1) && buff !in sym.slots && buff.Length == 1024
    modifies sym`views, sym.repr`len, buff
    ensures sym.Chained() && Carries(buff, q) && k < e < |sym.chain| && last == sym.chain[e]
    ensures JoinPlan(old(sym.views), k, e, t, sym.size)
    ensures sym.views == old(sym.views)[e := View(Row("", false), old(sym.views)[e].number, left)]
  {
    LineBuffers(sym, k);
    ghost var e0;
    last, e0, left := TakeParagraph(sym, line.next, buff, k + 1, q);
  }

  // Line k takes the paragraph after it; the last line of that may be left empty.
  method JoinText(sym: InputItem, line: Line, ghost k: nat, ghost e: nat, ghost t: string, ghost shut: bool,
                  ghost tail: string)
    returns (last: Line, ghost left: bool)
    requires sym.Chained() && JoinPlan(sym.views, k, e, t, sym.size) && JoinLine(sym, line, k, t, shut, tail)
    modifies sym`views, sym.repr`len, sym.slots.Keys
    ensures |t| <= sym.size ==> CellsFrom(line, |t|) == tail
    ensures sym.Chained() && e < |sym.chain| && last == sym.chain[e] && JoinPlan(old(sym.views), k, e, t, sym.size)
    ensures var v := old(sym.views);
            sym.views == Poured(v[e := View(Row("", false), v[e].number, left)], k, t, 0, sym.size, shut)
  {
    ghost var x, q := sym.views[k].row.chars, ParaText(RowsOf(sym.views), k + 1);
    var buff := new char[1024];
    last, left := TakeNext(sym, line, buff, k, e, t, q);
    Refill(sym, line, buff, k, e, x, q, shut, Poured(sym.views, k, t, 0, sym.size, shut), tail);
  }

  // Something came to line e exactly when the text has as many lines.
  lemma LastTaken(v: seq<View>, k: nat, e: nat, t: string, size: nat, shut: bool, left: bool)
    requires size > 0 && k < e < |v| && e - k <= |Wrap(t, 0, size)| <= e - k + 1
    requires NUL !in t && '\n' !in t
    ensures var w := Poured(v[e := View(Row("", false), v[e].number, left)], k, t, 0, size, shut);
            var gone := k + |Wrap(t, 0, size)| <= e;
            && |w| == |v| && (w[e].row == Row("", false) <==> gone)
            && JoinedViews(v, k, e, t, size, shut, left) == if gone then Renumbered(Cut(w, e), e, |w| - 1, -1) else w
  {
    PouredParts(v[e := View(Row("", false), v[e].number, left)], k, t, 0, size, shut);
    WrapIsFull(t, 0, size);
  }

  lemma {:induction false} WrapIsFull(t: string, o: nat, size: nat)
    requires size > 0 && o <= |t|
    ensures var w := Wrap(t, o, size); forall j :: 0 < j < |w| ==> w[j].chars != ""
    decreases |t| - o
  {
    if |t| - o > size {
      WrapIsFull(t, o + size, size);
      var w, rest := Wrap(t, o, size), Wrap(t, o + size, size);
      assert w == [Row(t[o..o+size], true)] + rest;
      FirstRow(t, o + size, size);
      forall j | 0 < j < |w| ensures w[j].chars != "" {
        assert w[j] == rest[j-1];
      }
    }
  }

  lemma FirstRow(t: string, o: nat, size: nat)
    requires size > 0 && o < |t|
    ensures Wrap(t, o, size)[0].chars != ""
  {
  }

  // The last line of the second paragraph goes when nothing came to it.
  method Tidy(sym: InputItem, last: Line, ghost e: nat, ghost gone: bool, ghost w: seq<View>)
    requires sym.Anchored() && sym.Chained() && sym.at < e < |sym.chain| && last == sym.chain[e]
    requires last.len == 0 <==> gone
    requires e < |sym.views| && w == if gone then Renumbered(Cut(sym.views, e), e, |sym.views| - 1, -1) else sym.views
    modifies sym`chain, sym`views, sym`slots, sym`numLines, sym.repr`next, sym.repr`prev, sym.repr`number
    ensures sym.Anchored() && sym.Chained() && sym.slots.Keys == old(sym.slots.Keys) && sym.views == w
  {
    if last.len == 0 {
      DropLast(sym, last, e);
    }
  }

  method TidyJoined(sym: InputItem, last: Line, ghost v: seq<View>, ghost k: nat, ghost e: nat, ghost t: string,
                    ghost shut: bool, ghost left: bool)
    requires sym.Anchored() && sym.Chained() && sym.at <= k && e < |sym.chain| && last == sym.chain[e]
    requires JoinPlan(v, k, e, t, sym.size)
    requires sym.views == Poured(v[e := View(Row("", false), v[e].number, left)], k, t, 0, sym.size, shut)
    modifies sym`chain, sym`views, sym`slots, sym`numLines, sym.repr`next, sym.repr`prev, sym.repr`number
    ensures sym.Anchored() && sym.Chained() && sym.slots.Keys == old(sym.slots.Keys)
    ensures sym.views == JoinedViews(v, k, e, t, sym.size, shut, left)
  {
    LastTaken(v, k, e, t, sym.size, shut, left);
    LineBuffers(sym, e);
    Tidy(sym, last, e, k + |Wrap(t, 0, sym.size)| <= e, JoinedViews(v, k, e, t, sym.size, shut, left));
  }

  method JoinLines(sym: InputItem, line: Line, ghost k: nat, ghost e: nat, ghost t: string, ghost shut: bool,
                   ghost tail: string)
    returns (ghost left: bool)
    requires sym.Anchored() && sym.Chained() && sym.at <= k
    requires JoinPlan(sym.views, k, e, t, sym.size) && JoinLine(sym, line, k, t, shut, tail)
    modifies sym`chain, sym`views, sym`slots, sym`numLines, sym.slots.Keys
    modifies sym.repr`next, sym.repr`prev, sym.repr`number, sym.repr`len
    ensures |t| <= sym.size ==> CellsFrom(line, |t|) == tail
    ensures sym.Anchored() && sym.Chained() && sym.slots.Keys == old(sym.slots.Keys)
    ensures JoinPlan(old(sym.views), k, e, t, sym.size)
    ensures sym.views == JoinedViews(old(sym.views), k, e, t, sym.size, shut, left)
  {
    var last;
    last, left := JoinText(sym, line, k, e, t, shut, tail);
    TidyJoined(sym, last, old(sym.views), k, e, t, shut, left);
  }

  // ----- what joining means for the text -------------------------------------------------------------

  // The text loses the newline at o; all lines are terminated if they were, exactly when shut.
  ghost predicate Joins(v: seq<View>, o: nat, w: seq<View>, size: nat, shut: bool) {
    var joins :=
      && WellWrapped(RowsOf(w), size) && o < |TextOf(v)| && TextOf(v)[o] == '\n' && TextOf(w) == RemoveAt(TextOf(v), o)
      && (Numbered(v) ==> Numbered(w)) && (AllClosed(v) ==> (AllClosed(w) <==> shut));
    joins
  }

  lemma JoinedViewsText(v: seq<View>, k: nat, e: nat, t: string, size: nat, shut: bool, left: bool)
    requires WellWrapped(RowsOf(v), size) && k + 1 < |v| && t == v[k].row.chars + ParaText(RowsOf(v), k + 1)
    requires !v[k].row.soft && e == ParaEnd(RowsOf(v), k + 1) - 1 && (|t| >= size ==> shut)
    ensures k < e < |v| && e - k <= |Wrap(t, 0, size)| <= e - k + 1
    ensures Joins(v, CaretOf(v, k, |v[k].row.chars|), JoinedViews(v, k, e, t, size, shut, left), size, shut)
  {
    var rows := RowsOf(v);
    assert rows[k] == v[k].row;
    JoinedViewsRows(v, k, e, t, size, shut, left);
    JoinedText(rows, k, size);
    JoinedViewsKeep(v, k, e, t, size, shut, left);
    NewlineAtEnd(rows, k);
  }

  lemma JoinedViewsPlace(v: seq<View>, k: nat, e: nat, t: string, size: nat, shut: bool, left: bool)
    requires WellWrapped(RowsOf(v), size) && k + 1 < |v| && t == v[k].row.chars + ParaText(RowsOf(v), k + 1)
    requires !v[k].row.soft && e == ParaEnd(RowsOf(v), k + 1) - 1
    ensures k < e < |v| && e - k <= |Wrap(t, 0, size)| <= e - k + 1
    ensures var w := JoinedViews(v, k, e, t, size, shut, left);
            && k < |w| && |v[k].row.chars| <= |w[k].row.chars|
            && forall col :: CaretOf(w, k, col) == CaretOf(v, k, col)
  {
    var rows := RowsOf(v);
    assert rows[k] == v[k].row;
    JoinedViewsRows(v, k, e, t, size, shut, left);
    JoinedText(rows, k, size);
    JoinedViewsParts(v, k, e, t, size, shut, left);
  }

  // What lines k and on will hold of the two paragraphs.
  ghost function Together(sym: InputItem, k: nat): string
    reads sym`views
    requires k + 1 < |sym.views|
  {
    sym.views[k].row.chars + ParaText(RowsOf(sym.views), k + 1)
  }

  // Whether the joined text will be followed by a terminator: it fills its first line, or
  // a terminator is already there.
  ghost predicate Shuts(sym: InputItem, k: nat)
    reads sym, sym.repr, sym.slots.Keys
    requires sym.Chained() && k + 1 < |sym.views|
  {
    var t := Together(sym, k);
    |t| >= sym.size || (|t| < sym.chain[k].buffer.Length && sym.chain[k].buffer[|t|] == NUL)
  }

  lemma SettleJoined(sym: InputItem, v: seq<View>, k: nat, e: nat, t: string, col: nat, shut: bool, left: bool)
    requires WellWrapped(RowsOf(v), sym.size) && k + 1 < |v| && t == v[k].row.chars + ParaText(RowsOf(v), k + 1)
    requires !v[k].row.soft && e == ParaEnd(RowsOf(v), k + 1) - 1 && (|t| >= sym.size ==> shut)
    requires k < e < |v| && e - k <= |Wrap(t, 0, sym.size)| <= e - k + 1 && col == |v[k].row.chars|
    requires sym.Anchored() && sym.Chained() && sym.views == JoinedViews(v, k, e, t, sym.size, shut, left)
    requires sym.at == k && sym.currLine.cursor == col
    ensures sym.Valid() && Joins(v, CaretOf(v, k, col), sym.views, sym.size, shut) && sym.Caret() == CaretOf(v, k, col)
  {
    JoinedViewsText(v, k, e, t, sym.size, shut, left);
    JoinedViewsPlace(v, k, e, t, sym.size, shut, left);
  }

  lemma JoinReady(sym: InputItem, k: nat, t: string)
    requires sym.Chained() && WellWrapped(RowsOf(sym.views), sym.size) && k + 1 < |sym.chain|
    requires |sym.views| == |sym.chain| && !sym.views[k].row.soft && t == Together(sym, k)
    ensures var e := ParaEnd(RowsOf(sym.views), k + 1) - 1;
            k < e < |sym.views| && e - k <= |Wrap(t, 0, sym.size)| <= e - k + 1
    ensures NUL !in t && '\n' !in t && sym.size > 0 && |sym.views[k].row.chars| <= sym.size
    ensures sym.chain[k].buffer.Length == sym.size + 2
    ensures Shuts(sym, k) <==> |t| >= sym.size || sym.chain[k].buffer[|t|] == NUL
  {
    var rows := RowsOf(sym.views);
    assert rows[k] == sym.views[k].row;
    LineBuffers(sym, k);
    ParaIsPlain(rows, k + 1, sym.size);
    JoinedRoom(rows, k, t, sym.size);
  }

  // The line of the cursor, which ends a paragraph where the cursor is, takes the next one.
  method JoinHere(sym: InputItem)
    requires sym.Valid() && sym.at + 1 < |sym.views| && !sym.views[sym.at].row.soft
    requires sym.currLine.cursor == |sym.views[sym.at].row.chars|
    requires |ParaText(RowsOf(sym.views), sym.at + 1)| < 1024
    modifies sym`chain, sym`views, sym`slots, sym`numLines, sym.slots.Keys
    modifies sym.repr`next, sym.repr`prev, sym.repr`number, sym.repr`len
    ensures sym.Valid() && sym.slots.Keys == old(sym.slots.Keys)
    ensures Joins(old(sym.views), old(sym.Caret()), sym.views, sym.size, old(Shuts(sym, sym.at)))
    ensures sym.Caret() == old(sym.Caret()) && sym.currLine == old(sym.currLine) && sym.at == old(sym.at)
    ensures old(|Together(sym, sym.at)|) <= sym.size ==>
              CellsFrom(sym.currLine, old(|Together(sym, sym.at)|)) ==
                old(CellsFrom(sym.currLine, |Together(sym, sym.at)|))
  {
    ghost var v, k, col := sym.views, sym.at, sym.currLine.cursor;
    ghost var t, e, shut := Together(sym, k), ParaEnd(RowsOf(v), k + 1) - 1, Shuts(sym, k);
    ghost var tail := CellsFrom(sym.currLine, |t|);
    JoinReady(sym, k, t);
    ghost var left := JoinLines(sym, sym.currLine, k, e, t, shut, tail);
    SettleJoined(sym, v, k, e, t, col, shut, left);
  }
}
