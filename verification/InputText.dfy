// Plain text as rows of an input area: paragraphs wrapped at a fixed width
// (src/hyper/dialog.c, src/hyper/parse-input.c).
module InputText {
  import opened Characters

  // A soft row is full and continues on the next row; a hard row ends its paragraph.
  datatype Row = Row(chars: string, soft: bool)

  function End(r: Row): string {
    if r.soft then "" else "\n"
  }

  // The text of the rows from k on, every paragraph closed by a newline.
  function From(rows: seq<Row>, k: nat): string
    requires k <= |rows|
    decreases |rows| - k
  {
    if k == |rows| then "" else rows[k].chars + End(rows[k]) + From(rows, k + 1)
  }

  // The text of the rows before k.
  function Before(rows: seq<Row>, k: nat): string
    requires k <= |rows|
  {
    if k == 0 then "" else Before(rows, k - 1) + rows[k-1].chars + End(rows[k-1])
  }

  function Text(rows: seq<Row>): string {
    From(rows, 0)
  }

  // Where the text cursor is: a row and a column of it.
  function Offset(rows: seq<Row>, k: nat, col: nat): nat
    requires k <= |rows|
  {
    |Before(rows, k)| + col
  }

  function InsertAt(t: string, o: nat, c: char): string
    requires o <= |t|
  {
    t[..o] + [c] + t[o..]
  }

  function RemoveAt(t: string, o: nat): string
    requires o < |t|
  {
    t[..o] + t[o+1..]
  }

  // Full soft rows, each continued by a row that is not empty, and a last row that is
  // hard. Neither NUL nor newline is ever stored in a row.
  ghost predicate WellWrapped(rows: seq<Row>, size: nat) {
    var wrapped :=
      && size > 0 && rows != []
      && (forall k :: 0 <= k < |rows| ==> |rows[k].chars| <= size && NUL !in rows[k].chars && '\n' !in rows[k].chars)
      && (forall k :: 0 <= k < |rows| && rows[k].soft ==>
            |rows[k].chars| == size && k + 1 < |rows| && rows[k+1].chars != "");
    wrapped
  }

  // ----- cutting and pasting texts --------------------------------------------------------

  lemma {:induction false} SplitText(rows: seq<Row>, k: nat)
    requires k <= |rows|
    ensures Text(rows) == Before(rows, k) + From(rows, k)
  {
    if k > 0 {
      SplitText(rows, k - 1);
      Regroup(Before(rows, k - 1), rows[k-1].chars, End(rows[k-1]), From(rows, k));
    }
  }

  lemma Regroup(a: string, b: string, c: string, d: string)
    ensures a + (b + c + d) == (a + b + c) + d
  {
  }

  lemma {:induction false} BeforeSame(a: seq<Row>, b: seq<Row>, k: nat)
    requires k <= |a| && k <= |b| && forall j :: 0 <= j < k ==> a[j] == b[j]
    ensures Before(a, k) == Before(b, k)
  {
    if k > 0 {
      BeforeSame(a, b, k - 1);
    }
  }

  lemma {:induction false} FromSame(a: seq<Row>, b: seq<Row>, i: nat, j: nat)
    requires i <= |a| && j <= |b| && |a| - i == |b| - j
    requires forall k :: i <= k < |a| ==> a[k] == b[k - i + j]
    ensures From(a, i) == From(b, j)
    decreases |a| - i
  {
    if i < |a| {
      FromSame(a, b, i + 1, j + 1);
    }
  }

  lemma InsertBetween(x: string, c: char, y: string)
    ensures InsertAt(x + y, |x|, c) == x + [c] + y
  {
    assert (x + y)[..|x|] == x && (x + y)[|x|..] == y;
  }

  lemma RemoveBetween(x: string, c: char, y: string)
    ensures RemoveAt(x + [c] + y, |x|) == x + y
  {
    assert (x + [c] + y)[..|x|] == x && (x + [c] + y)[|x|+1..] == y;
  }

  lemma Regroup2(a: string, x: string, y: string)
    ensures a + (x + y) == (a + x) + y
  {
  }

  // The text is the same before row k, and continues with x and y.
  lemma TextParts(rows: seq<Row>, k: nat, x: string, y: string)
    requires k <= |rows| && From(rows, k) == x + y
    ensures Text(rows) == (Before(rows, k) + x) + y
  {
    SplitText(rows, k);
    Regroup2(Before(rows, k), x, y);
  }

  // Rows that differ only from row k on, where the text gains a character after x.
  lemma TextInserted(a: seq<Row>, b: seq<Row>, k: nat, x: string, c: char, y: string)
    requires k <= |a| && k <= |b| && forall j :: 0 <= j < k ==> a[j] == b[j]
    requires From(a, k) == x + y && From(b, k) == x + [c] + y
    ensures Before(a, k) == Before(b, k) && Offset(a, k, |x|) <= |Text(a)|
    ensures Text(b) == InsertAt(Text(a), Offset(a, k, |x|), c)
  {
    BeforeSame(a, b, k);
    TextParts(a, k, x, y);
    Regroup2(x, [c], y);
    TextParts(b, k, x, [c] + y);
    InsertBetween(Before(a, k) + x, c, y);
    Regroup2(Before(a, k) + x, [c], y);
  }

  // Rows that differ only from row k on, where the text loses the character after x.
  lemma TextRemoved(a: seq<Row>, b: seq<Row>, k: nat, x: string, c: char, y: string)
    requires k <= |a| && k <= |b| && forall j :: 0 <= j < k ==> a[j] == b[j]
    requires From(a, k) == x + [c] + y && From(b, k) == x + y
    ensures Before(a, k) == Before(b, k) && Offset(a, k, |x|) < |Text(a)|
    ensures Text(b) == RemoveAt(Text(a), Offset(a, k, |x|))
  {
    BeforeSame(a, b, k);
    TextParts(b, k, x, y);
    Regroup2(x, [c], y);
    TextParts(a, k, x, [c] + y);
    RemoveBetween(Before(a, k) + x, c, y);
    Regroup2(Before(a, k) + x, [c], y);
  }

  // ----- wrapping one paragraph ----------------------------------------------------------------

  // The rows of a paragraph from position o of its text on.
  function Wrap(s: string, o: nat, size: nat): seq<Row>
    requires size > 0 && o <= |s|
    decreases |s| - o
  {
    if |s| - o <= size then [Row(s[o..], false)]
    else [Row(s[o..o+size], true)] + Wrap(s, o + size, size)
  }

  // a, with everything from row i to row j replaced by the rows of a paragraph.
  function Rewrapped(a: seq<Row>, i: nat, j: nat, s: string, size: nat): seq<Row>
    requires i <= j <= |a| && size > 0
  {
    a[..i] + Wrap(s, 0, size) + a[j..]
  }

  lemma {:induction false} FromConcat(a: seq<Row>, b: seq<Row>, k: nat)
    requires k <= |a|
    ensures From(a + b, k) == From(a, k) + Text(b)
    decreases |a| - k
  {
    if k == |a| {
      FromSame(a + b, b, |a|, 0);
    } else {
      FromConcat(a, b, k + 1);
      Regroup2(a[k].chars + End(a[k]), From(a, k + 1), Text(b));
    }
  }

  lemma Chop(s: string, o: nat, p: nat)
    requires o <= p <= |s|
    ensures s[o..p] + s[p..] == s[o..]
  {
  }

  lemma TextOfOne(r: Row)
    ensures Text([r]) == r.chars + End(r)
  {
    assert Text([r]) == r.chars + End(r) + From([r], 1);
  }

  // A wrapped paragraph reads as its text and a newline.
  lemma {:induction false} WrapText(s: string, o: nat, size: nat)
    requires size > 0 && o <= |s|
    ensures Text(Wrap(s, o, size)) == s[o..] + "\n"
    decreases |s| - o
  {
    if |s| - o > size {
      var head := Row(s[o..o+size], true);
      WrapText(s, o + size, size);
      FromConcat([head], Wrap(s, o + size, size), 0);
      TextOfOne(head);
      Regroup2(s[o..o+size], s[o+size..], "\n");
      Chop(s, o, o + size);
    } else {
      TextOfOne(Row(s[o..], false));
    }
  }

  // Wrapping keeps rows full, and leaves none empty but that of an empty paragraph.
  lemma {:induction false} WrapIsWrapped(s: string, o: nat, size: nat)
    requires size > 0 && o <= |s| && NUL !in s && '\n' !in s
    ensures WellWrapped(Wrap(s, o, size), size) && !Wrap(s, o, size)[|Wrap(s, o, size)|-1].soft
    ensures Wrap(s, o, size)[0].chars == "" <==> o == |s|
    decreases |s| - o
  {
    if |s| - o > size {
      WrapIsWrapped(s, o + size, size);
    }
  }

  lemma RewrappedParts(a: seq<Row>, i: nat, j: nat, w: seq<Row>)
    requires i <= j <= |a|
    ensures var b := a[..i] + w + a[j..];
            && |b| == |a| - (j - i) + |w|
            && (forall k :: 0 <= k < i ==> b[k] == a[k])
            && (forall k :: i <= k < i + |w| ==> b[k] == w[k-i])
            && (forall k :: i + |w| <= k < |b| ==> b[k] == a[k - i - |w| + j])
  {
  }

  lemma FromReplaced(a: seq<Row>, i: nat, j: nat, w: seq<Row>)
    requires i <= j <= |a|
    ensures From(a[..i] + w + a[j..], i) == Text(w) + From(a, j)
  {
    var b := a[..i] + w + a[j..];
    RewrappedParts(a, i, j, w);
    FromSame(b, w + a[j..], i, 0);
    FromConcat(w, a[j..], 0);
    FromSame(a[j..], a, 0, j);
  }

  // ----- paragraphs ----------------------------------------------------------------------------

  // The row after the paragraph that row k belongs to.
  function ParaEnd(rows: seq<Row>, k: nat): (e: nat)
    requires k < |rows|
    ensures k < e <= |rows| && forall m :: k <= m < e - 1 ==> rows[m].soft
    decreases |rows| - k
  {
    if rows[k].soft && k + 1 < |rows| then ParaEnd(rows, k + 1) else k + 1
  }

  // The text of a paragraph from row k on.
  function ParaText(rows: seq<Row>, k: nat): string
    requires k < |rows|
    decreases |rows| - k
  {
    rows[k].chars + if rows[k].soft && k + 1 < |rows| then ParaText(rows, k + 1) else ""
  }

  lemma {:induction false} ParaFrom(rows: seq<Row>, k: nat, size: nat)
    requires WellWrapped(rows, size) && k < |rows|
    ensures From(rows, k) == ParaText(rows, k) + "\n" + From(rows, ParaEnd(rows, k))
    decreases |rows| - k
  {
    if rows[k].soft {
      ParaFrom(rows, k + 1, size);
      Regroup3(rows[k].chars, ParaText(rows, k + 1), "\n", From(rows, ParaEnd(rows, k)));
    } else {
      assert ParaText(rows, k) == rows[k].chars;
    }
  }

  lemma Regroup3(a: string, b: string, c: string, d: string)
    ensures a + "" + (b + c + d) == (a + b) + c + d
  {
  }

  lemma {:induction false} ParaIsPlain(rows: seq<Row>, k: nat, size: nat)
    requires WellWrapped(rows, size) && k < |rows|
    ensures NUL !in ParaText(rows, k) && '\n' !in ParaText(rows, k)
    ensures rows[k].chars != "" ==> ParaText(rows, k) != ""
    decreases |rows| - k
  {
    if rows[k].soft {
      ParaIsPlain(rows, k + 1, size);
    }
  }

  // Replacing rows i to j by well wrapped rows keeps the rows well wrapped, unless a soft
  // row would be continued by an empty one.
  lemma ReplacedIsWrapped(a: seq<Row>, i: nat, j: nat, w: seq<Row>, size: nat)
    requires WellWrapped(a, size) && i <= j <= |a| && WellWrapped(w, size)
    requires i > 0 && a[i-1].soft ==> w[0].chars != ""
    ensures WellWrapped(a[..i] + w + a[j..], size)
  {
    RewrappedParts(a, i, j, w);
    var b := a[..i] + w + a[j..];
    forall k | 0 <= k < |b| && b[k].soft
      ensures |b[k].chars| == size && k + 1 < |b| && b[k+1].chars != ""
    {
      if k < i {
        assert b[k] == a[k];
      } else if k < i + |w| {
        assert b[k] == w[k-i];
      } else {
        assert b[k] == a[k - i - |w| + j];
      }
    }
  }

  // ----- typing a character on a hard row --------------------------------------------------------

  function Typed(rows: seq<Row>, i: nat, p: nat, c: char, size: nat): seq<Row>
    requires i < |rows| && p <= |rows[i].chars| && size > 0
  {
    Rewrapped(rows, i, i + 1, InsertAt(rows[i].chars, p, c), size)
  }

  lemma TypedText(rows: seq<Row>, i: nat, p: nat, c: char, size: nat)
    requires WellWrapped(rows, size) && i < |rows| && p <= |rows[i].chars| && !rows[i].soft
    requires c != NUL && c != '\n'
    ensures WellWrapped(Typed(rows, i, p, c, size), size)
    ensures Offset(rows, i, p) <= |Text(rows)|
    ensures Text(Typed(rows, i, p, c, size)) == InsertAt(Text(rows), Offset(rows, i, p), c)
    ensures Before(Typed(rows, i, p, c, size), i) == Before(rows, i)
    ensures |rows[i].chars| == size ==>
              |Typed(rows, i, p, c, size)| == |rows| + 1
              && |Before(Typed(rows, i, p, c, size), i + 1)| == Offset(rows, i, size)
  {
    var b, s := Typed(rows, i, p, c, size), rows[i].chars;
    var t := InsertAt(s, p, c);
    var x, y := s[..p], s[p..] + "\n" + From(rows, i + 1);
    WrapIsWrapped(t, 0, size);
    ReplacedIsWrapped(rows, i, i + 1, Wrap(t, 0, size), size);
    RewrappedParts(rows, i, i + 1, Wrap(t, 0, size));
    FromReplaced(rows, i, i + 1, Wrap(t, 0, size));
    WrapText(t, 0, size);
    SplicedText(s, p, c, From(rows, i + 1));
    TextInserted(rows, b, i, x, c, y);
  }

  lemma SplicedText(s: string, p: nat, c: char, rest: string)
    requires p <= |s|
    ensures s + "\n" + rest == s[..p] + (s[p..] + "\n" + rest)
    ensures InsertAt(s, p, c)[0..] + "\n" + rest == s[..p] + [c] + (s[p..] + "\n" + rest)
  {
  }

  // ----- joining and splitting paragraphs ---------------------------------------------------------

  function Joined(rows: seq<Row>, i: nat, size: nat): seq<Row>
    requires i + 1 < |rows| && size > 0
  {
    Rewrapped(rows, i, ParaEnd(rows, i + 1), rows[i].chars + ParaText(rows, i + 1), size)
  }

  // Joining removes exactly the newline at the end of hard row i.
  lemma JoinedText(rows: seq<Row>, i: nat, size: nat)
    requires WellWrapped(rows, size) && i + 1 < |rows| && !rows[i].soft
    ensures WellWrapped(Joined(rows, i, size), size)
    ensures Offset(rows, i, |rows[i].chars|) < |Text(rows)|
    ensures Text(Joined(rows, i, size)) == RemoveAt(Text(rows), Offset(rows, i, |rows[i].chars|))
    ensures Before(Joined(rows, i, size), i) == Before(rows, i)
  {
    var b, e := Joined(rows, i, size), ParaEnd(rows, i + 1);
    var x, q := rows[i].chars, ParaText(rows, i + 1);
    ParaIsPlain(rows, i + 1, size);
    WrapIsWrapped(x + q, 0, size);
    ReplacedIsWrapped(rows, i, e, Wrap(x + q, 0, size), size);
    RewrappedParts(rows, i, e, Wrap(x + q, 0, size));
    FromReplaced(rows, i, e, Wrap(x + q, 0, size));
    WrapText(x + q, 0, size);
    ParaFrom(rows, i + 1, size);
    JoinedParts(x, q, From(rows, e));
    TextRemoved(rows, b, i, x, '\n', q + "\n" + From(rows, e));
  }

  lemma JoinedParts(x: string, q: string, rest: string)
    ensures x + "\n" + (q + "\n" + rest) == x + ['\n'] + (q + "\n" + rest)
    ensures (x + q)[0..] + "\n" + rest == x + (q + "\n" + rest)
  {
  }

  // ----- breaking a paragraph -------------------------------------------------------------------

  function Broken(rows: seq<Row>, i: nat, p: nat, size: nat): seq<Row>
    requires i < |rows| && p <= |rows[i].chars| && size > 0
  {
    rows[..i] + ([Row(rows[i].chars[..p], false)] + Wrap(ParaText(rows, i)[p..], 0, size)) + rows[ParaEnd(rows, i)..]
  }

  lemma BrokenText(rows: seq<Row>, i: nat, p: nat, size: nat)
    requires WellWrapped(rows, size) && i < |rows| && 0 < p <= |rows[i].chars|
    ensures WellWrapped(Broken(rows, i, p, size), size)
    ensures Offset(rows, i, p) <= |Text(rows)|
    ensures Text(Broken(rows, i, p, size)) == InsertAt(Text(rows), Offset(rows, i, p), '\n')
    ensures |Before(Broken(rows, i, p, size), i + 1)| == Offset(rows, i, p) + 1
  {
    var b, e, q := Broken(rows, i, p, size), ParaEnd(rows, i), ParaText(rows, i);
    var x, t := rows[i].chars[..p], q[p..];
    var head := Row(x, false);
    var w := [head] + Wrap(t, 0, size);
    ParaIsPlain(rows, i, size);
    WrapIsWrapped(t, 0, size);
    ReplacedIsWrapped(rows, i, e, w, size);
    RewrappedParts(rows, i, e, w);
    BrokenFrom(rows, i, p, size);
    TextInserted(rows, b, i, x, '\n', t + "\n" + From(rows, e));
    assert b[i] == head;
  }

  lemma BrokenFrom(rows: seq<Row>, i: nat, p: nat, size: nat)
    requires WellWrapped(rows, size) && i < |rows| && 0 < p <= |rows[i].chars|
    ensures |ParaText(rows, i)| >= p
    ensures var x, t, e := rows[i].chars[..p], ParaText(rows, i)[p..], ParaEnd(rows, i);
            && From(rows, i) == x + (t + "\n" + From(rows, e))
            && From(Broken(rows, i, p, size), i) == x + ['\n'] + (t + "\n" + From(rows, e))
  {
    var e, q := ParaEnd(rows, i), ParaText(rows, i);
    var x, t := rows[i].chars[..p], q[p..];
    var w := [Row(x, false)] + Wrap(t, 0, size);
    assert Broken(rows, i, p, size) == rows[..i] + w + rows[e..];
    FromReplaced(rows, i, e, w);
    TextBehind(x, t, size);
    ParaFrom(rows, i, size);
    ParaHead(rows, i, p);
    BrokenParts(x, t, q, From(rows, e));
  }

  lemma ParaHead(rows: seq<Row>, i: nat, p: nat)
    requires i < |rows| && p <= |rows[i].chars|
    ensures p <= |ParaText(rows, i)| && ParaText(rows, i) == rows[i].chars[..p] + ParaText(rows, i)[p..]
  {
  }

  lemma TextBehind(x: string, t: string, size: nat)
    requires size > 0
    ensures Text([Row(x, false)] + Wrap(t, 0, size)) == x + "\n" + (t[0..] + "\n")
  {
    FromConcat([Row(x, false)], Wrap(t, 0, size), 0);
    TextOfOne(Row(x, false));
    WrapText(t, 0, size);
  }

  lemma BrokenParts(x: string, t: string, q: string, rest: string)
    requires q == x + t
    ensures q + "\n" + rest == x + (t + "\n" + rest)
    ensures x + "\n" + (t[0..] + "\n") + rest == x + ['\n'] + (t + "\n" + rest)
  {
    assert t[0..] == t;
  }

  lemma HardenedText(rows: seq<Row>, i: nat, size: nat)
    requires WellWrapped(rows, size) && 0 < i < |rows| && rows[i-1].soft
    ensures var b := rows[i-1 := Row(rows[i-1].chars, false)];
            && WellWrapped(b, size)
            && Offset(rows, i, 0) <= |Text(rows)|
            && Text(b) == InsertAt(Text(rows), Offset(rows, i, 0), '\n')
            && |Before(b, i)| == Offset(rows, i, 0) + 1
  {
    var x := rows[i-1].chars;
    var b := rows[i-1 := Row(x, false)];
    FromSame(b, rows, i, i);
    TextInserted(rows, b, i - 1, x, '\n', From(rows, i));
  }

  lemma BlankText(rows: seq<Row>, i: nat, size: nat)
    requires WellWrapped(rows, size) && i < |rows| && (i > 0 ==> !rows[i-1].soft)
    ensures var b := rows[..i] + [Row("", false)] + rows[i..];
            && WellWrapped(b, size)
            && Offset(rows, i, 0) <= |Text(rows)|
            && Text(b) == InsertAt(Text(rows), Offset(rows, i, 0), '\n')
            && |Before(b, i + 1)| == Offset(rows, i, 0) + 1
  {
    var w := [Row("", false)];
    var b := rows[..i] + w + rows[i..];
    ReplacedIsWrapped(rows, i, i, w, size);
    RewrappedParts(rows, i, i, w);
    FromReplaced(rows, i, i, w);
    TextOfOne(w[0]);
    TextInserted(rows, b, i, "", '\n', From(rows, i));
    assert b[i] == w[0];
  }
}
