// What is known of the lines of an input area, and what edits make of it
// (src/hyper/dialog.c).
module InputViews {
  import opened Characters
  import opened InputText

  // What is known of a line: its row, its number, and whether a terminator follows its text.
  datatype View = View(row: Row, number: int, closed: bool)

  function Put<T>(s: seq<T>, k: nat, x: T): (r: seq<T>)
    requires k <= |s|
    ensures |r| == |s| + 1
    ensures forall j :: 0 <= j < |r| ==> r[j] == if j < k then s[j] else if j == k then x else s[j-1]
  {
    s[..k] + [x] + s[k..]
  }

  // The sequence s without its element k.
  function Cut<T>(s: seq<T>, k: nat): (r: seq<T>)
    requires k < |s|
    ensures |r| == |s| - 1
    ensures forall j :: 0 <= j < |r| ==> r[j] == if j < k then s[j] else s[j+1]
  {
    s[..k] + s[k+1..]
  }

  function RowsOf(views: seq<View>): (r: seq<Row>)
    ensures |r| == |views| && forall k :: 0 <= k < |r| ==> r[k] == views[k].row
  {
    seq(|views|, k requires 0 <= k < |views| => views[k].row)
  }

  ghost function TextOf(views: seq<View>): string {
    Text(RowsOf(views))
  }

  ghost function CaretOf(views: seq<View>, k: nat, col: nat): nat
    requires k < |views|
  {
    Offset(RowsOf(views), k, col)
  }

  // The numbers of lines k to m moved by d.
  function Renumbered(views: seq<View>, k: nat, m: nat, d: int): (r: seq<View>)
    ensures |r| == |views|
    ensures forall j :: 0 <= j < |r| ==>
              r[j] == if k <= j < m then views[j].(number := views[j].number + d) else views[j]
  {
    seq(|views|, j requires 0 <= j < |views| =>
          if k <= j < m then views[j].(number := views[j].number + d) else views[j])
  }

  lemma RenumberedNext(views: seq<View>, k: nat, m: nat, d: int)
    requires k <= m < |views|
    ensures var r := Renumbered(views, k, m, d);
            Renumbered(views, k, m + 1, d) == r[m := r[m].(number := r[m].number + d)]
  {
  }

  lemma RenumberedNone(views: seq<View>, k: nat, d: int)
    ensures Renumbered(views, k, k, d) == views
  {
  }

  ghost predicate Numbered(views: seq<View>) {
    forall k :: 0 <= k < |views| ==> views[k].number == k + 1
  }

  ghost predicate AllClosed(views: seq<View>) {
    forall k :: 0 <= k < |views| ==> views[k].closed
  }

  // What an edit leaves as it was: consecutive numbers, and terminated lines.
  ghost predicate Kept(v: seq<View>, w: seq<View>) {
    (Numbered(v) ==> Numbered(w)) && (AllClosed(v) ==> AllClosed(w))
  }

  // Well wrapped lines whose text has c put in at o, the caret after it.
  ghost predicate Inserts(v: seq<View>, o: nat, c: char, w: seq<View>, caret: nat, size: nat) {
    var inserts :=
      && WellWrapped(RowsOf(w), size) && o <= |TextOf(v)| && caret == o + 1
      && TextOf(w) == InsertAt(TextOf(v), o, c) && Kept(v, w);
    inserts
  }

  // ----- typing a character ----------------------------------------------------------------

  lemma TypedInLine(rows: seq<Row>, i: nat, p: nat, c: char, size: nat)
    requires i < |rows| && p <= |rows[i].chars| < size
    ensures Typed(rows, i, p, c, size) == rows[i := Row(InsertAt(rows[i].chars, p, c), false)]
  {
    var t := InsertAt(rows[i].chars, p, c);
    assert t[0..] == t;
  }

  lemma TypedInFull(rows: seq<Row>, i: nat, p: nat, c: char, size: nat)
    requires i < |rows| && p <= |rows[i].chars| == size && size > 0
    ensures var t := InsertAt(rows[i].chars, p, c);
            Typed(rows, i, p, c, size) == Put(rows[i := Row(t[..size], true)], i + 1, Row([t[size]], false))
  {
    var t := InsertAt(rows[i].chars, p, c);
    assert Wrap(t, size, size) == [Row(t[size..], false)];
    assert t[size..] == [t[size]];
    assert Wrap(t, 0, size) == [Row(t[..size], true), Row([t[size]], false)];
  }

  // Line k full with the first of t, and its last character on a line of its own.
  function SpiltViews(views: seq<View>, k: nat, t: string, number: int, size: nat): seq<View>
    requires k < |views| && |t| == size + 1
  {
    Put(views[k := views[k].(row := Row(t[..size], true))], k + 1, View(Row([t[size]], false), number, true))
  }

  lemma RowsOfUpdate(views: seq<View>, k: nat, v: View)
    requires k < |views|
    ensures RowsOf(views[k := v]) == RowsOf(views)[k := v.row]
  {
  }

  lemma RowsOfPut(views: seq<View>, k: nat, v: View)
    requires k <= |views|
    ensures RowsOf(Put(views, k, v)) == Put(RowsOf(views), k, v.row)
  {
  }

  lemma RowsOfRenumbered(views: seq<View>, k: nat, m: nat, d: int)
    ensures RowsOf(Renumbered(views, k, m, d)) == RowsOf(views)
    ensures AllClosed(views) ==> AllClosed(Renumbered(views, k, m, d))
  {
  }

  // A line with room takes the character.
  lemma TypedLineViews(v: seq<View>, k: nat, p: nat, c: char, size: nat)
    requires WellWrapped(RowsOf(v), size) && k < |v| && p <= |v[k].row.chars| < size && !v[k].row.soft
    requires c != NUL && c != '\n'
    ensures var r := Row(InsertAt(v[k].row.chars, p, c), false);
            var w := v[k := View(r, v[k].number, v[k].closed || |r.chars| == size)];
            Inserts(v, CaretOf(v, k, p), c, w, CaretOf(w, k, p + 1), size)
  {
    var r := Row(InsertAt(v[k].row.chars, p, c), false);
    TypedInLine(RowsOf(v), k, p, c, size);
    TypedText(RowsOf(v), k, p, c, size);
    RowsOfUpdate(v, k, View(r, v[k].number, v[k].closed || |r.chars| == size));
  }

  // A full line pushes its last character onto a new line.
  lemma TypedFullViews(v: seq<View>, k: nat, p: nat, c: char, size: nat)
    requires WellWrapped(RowsOf(v), size) && k < |v| && p <= |v[k].row.chars| == size && !v[k].row.soft
    requires c != NUL && c != '\n'
    ensures var t := InsertAt(v[k].row.chars, p, c);
            var w := SpiltViews(Renumbered(v, k + 1, |v|, 1), k, t, v[k].number + 1, size);
            var caret := if p < size - 1 then CaretOf(w, k, p + 1) else CaretOf(w, k + 1, p + 1 - size);
            Inserts(v, CaretOf(v, k, p), c, w, caret, size)
  {
    var t := InsertAt(v[k].row.chars, p, c);
    var a := Renumbered(v, k + 1, |v|, 1);
    var w := SpiltViews(a, k, t, v[k].number + 1, size);
    TypedInFull(RowsOf(v), k, p, c, size);
    TypedText(RowsOf(v), k, p, c, size);
    RowsOfRenumbered(v, k + 1, |v|, 1);
    RowsOfUpdate(a, k, a[k].(row := Row(t[..size], true)));
    RowsOfPut(a[k := a[k].(row := Row(t[..size], true))], k + 1, View(Row([t[size]], false), v[k].number + 1, true));
    SpiltKeeps(v, k, t, size);
  }

  lemma SpiltKeeps(v: seq<View>, k: nat, t: string, size: nat)
    requires k < |v| && |t| == size + 1
    ensures Kept(v, SpiltViews(Renumbered(v, k + 1, |v|, 1), k, t, v[k].number + 1, size))
  {
  }

  // ----- Return -----------------------------------------------------------------------------

  // Line k ends at column p, and the rest of its text s is on a line of its own.
  function BrokenViews(views: seq<View>, k: nat, s: string, p: nat, number: int): seq<View>
    requires k < |views| && p <= |s|
  {
    Put(views[k := View(Row(s[..p], false), views[k].number, true)], k + 1, View(Row(s[p..], false), number, true))
  }

  lemma BrokenHard(rows: seq<Row>, i: nat, p: nat, size: nat)
    requires WellWrapped(rows, size) && i < |rows| && p <= |rows[i].chars| && !rows[i].soft
    ensures Broken(rows, i, p, size) ==
            Put(rows[i := Row(rows[i].chars[..p], false)], i + 1, Row(rows[i].chars[p..], false))
  {
    var s := rows[i].chars;
    assert ParaText(rows, i) == s;
    assert Wrap(s[p..], 0, size) == [Row(s[p..], false)];
  }

  // A line that does not wrap is broken at column p.
  lemma BrokenViewsText(v: seq<View>, k: nat, p: nat, size: nat)
    requires WellWrapped(RowsOf(v), size) && k < |v| && 0 < p <= |v[k].row.chars| && !v[k].row.soft
    ensures var b := BrokenViews(v, k, v[k].row.chars, p, v[k].number + 1);
            var w := Renumbered(b, k + 2, |b|, 1);
            Inserts(v, CaretOf(v, k, p), '\n', w, CaretOf(w, k + 1, 0), size)
  {
    var s := v[k].row.chars;
    var b := BrokenViews(v, k, s, p, v[k].number + 1);
    BrokenHard(RowsOf(v), k, p, size);
    BrokenText(RowsOf(v), k, p, size);
    RowsOfUpdate(v, k, View(Row(s[..p], false), v[k].number, true));
    RowsOfPut(v[k := View(Row(s[..p], false), v[k].number, true)], k + 1,
              View(Row(s[p..], false), v[k].number + 1, true));
    RowsOfRenumbered(b, k + 2, |b|, 1);
    BrokenKeeps(v, k, s, p);
  }

  lemma BrokenKeeps(v: seq<View>, k: nat, s: string, p: nat)
    requires k < |v| && p <= |s|
    ensures var b := BrokenViews(v, k, s, p, v[k].number + 1);
            Kept(v, Renumbered(b, k + 2, |b|, 1))
  {
  }

  // A soft line becomes hard, the cursor being at the front of the line after it.
  lemma HardenedViews(v: seq<View>, k: nat, size: nat)
    requires WellWrapped(RowsOf(v), size) && 0 < k < |v| && v[k-1].row.soft
    ensures var w := v[k-1 := View(Row(v[k-1].row.chars, false), v[k-1].number, true)];
            Inserts(v, CaretOf(v, k, 0), '\n', w, CaretOf(w, k, 0), size)
  {
    var r := Row(v[k-1].row.chars, false);
    RowsOfUpdate(v, k - 1, View(r, v[k-1].number, true));
    assert RowsOf(v)[k-1] == v[k-1].row;
    HardenedText(RowsOf(v), k, size);
    HardenedKeeps(v, k);
  }

  lemma HardenedKeeps(v: seq<View>, k: nat)
    requires 0 < k < |v|
    ensures Kept(v, v[k-1 := View(Row(v[k-1].row.chars, false), v[k-1].number, true)])
  {
  }

  // An empty line comes before line k.
  function BlankViews(v: seq<View>, k: nat): seq<View>
    requires k < |v|
  {
    var b := Put(v, k, View(Row("", false), v[k].number, true));
    Renumbered(b, k + 1, |b|, 1)
  }

  lemma BlankViewsText(v: seq<View>, k: nat, size: nat)
    requires WellWrapped(RowsOf(v), size) && k < |v| && (k > 0 ==> !v[k-1].row.soft)
    ensures Inserts(v, CaretOf(v, k, 0), '\n', BlankViews(v, k), CaretOf(BlankViews(v, k), k + 1, 0), size)
  {
    var b := Put(v, k, View(Row("", false), v[k].number, true));
    RowsOfPut(v, k, View(Row("", false), v[k].number, true));
    RowsOfRenumbered(b, k + 1, |b|, 1);
    BlankText(RowsOf(v), k, size);
    BlankKeeps(v, k);
  }

  lemma BlankKeeps(v: seq<View>, k: nat)
    requires k < |v|
    ensures Kept(v, BlankViews(v, k))
  {
  }
}
