// Deletions that cross wraps, the uniqueness of a layout, and printing
// (src/hyper/dialog.c, src/hyper/spadint.c).
module InputEdits {
  import opened InputText

  // ----- pulling a paragraph back by one character -------------------------------------------

  // Row m without its first character, and with the first of the row that continues it.
  function PulledRow(rows: seq<Row>, m: nat): (r: Row)
    requires m < |rows| && rows[m].chars != ""
    requires rows[m].soft ==> m + 1 < |rows| && rows[m+1].chars != ""
  {
    if rows[m].soft then Row(rows[m].chars[1..] + [rows[m+1].chars[0]], true)
    else Row(rows[m].chars[1..], false)
  }

  lemma PulledRowIsWrapped(rows: seq<Row>, m: nat, size: nat)
    requires WellWrapped(rows, size) && m < |rows| && rows[m].soft
    ensures WellWrapped(rows[m := PulledRow(rows, m)], size)
  {
    assert rows[m+1].chars[0] in rows[m+1].chars;
  }

  // Row m and the rows that continue it give up the first character of row m. A last row
  // left empty stays, and hardens the row before it.
  function Pulled(rows: seq<Row>, m: nat, size: nat): (r: seq<Row>)
    requires WellWrapped(rows, size) && 0 < m < |rows| && rows[m].chars != ""
    ensures WellWrapped(r, size)
    ensures |r| == |rows| && forall k :: 0 <= k < m - 1 ==> r[k] == rows[k]
    ensures r[m-1].chars == rows[m-1].chars
    decreases |rows| - m
  {
    if rows[m].soft then
      PulledRowIsWrapped(rows, m, size);
      Pulled(rows[m := PulledRow(rows, m)], m + 1, size)
    else if |rows[m].chars| == 1 then
      rows[m := Row("", false)][m-1 := Row(rows[m-1].chars, false)]
    else
      rows[m := PulledRow(rows, m)]
  }

  // The length of the last row of the paragraph of row m.
  function TailLength(rows: seq<Row>, m: nat): nat
    requires m < |rows|
    decreases |rows| - m
  {
    if rows[m].soft && m + 1 < |rows| then TailLength(rows, m + 1) else |rows[m].chars|
  }

  lemma TailKept(rows: seq<Row>, m: nat, r: Row)
    requires m + 1 < |rows|
    ensures TailLength(rows[m := r], m + 1) == TailLength(rows, m + 1)
  {
    TailSame(rows, rows[m := r], m + 1);
  }

  lemma {:induction false} TailSame(a: seq<Row>, b: seq<Row>, m: nat)
    requires |a| == |b| && m < |a| && forall k :: m <= k < |a| ==> a[k] == b[k]
    ensures TailLength(a, m) == TailLength(b, m)
    decreases |a| - m
  {
    if a[m].soft && m + 1 < |a| {
      TailSame(a, b, m + 1);
    }
  }

  // With two characters in the last row, no character is lost and none comes twice.
  lemma {:induction false} PulledText(rows: seq<Row>, m: nat, size: nat)
    requires WellWrapped(rows, size) && 0 < m < |rows| && rows[m].chars != "" && TailLength(rows, m) >= 2
    ensures [rows[m].chars[0]] + From(Pulled(rows, m, size), m) == From(rows, m)
    ensures Pulled(rows, m, size)[m-1] == rows[m-1]
    decreases |rows| - m
  {
    var r := Pulled(rows, m, size);
    if rows[m].soft {
      var moved := PulledRow(rows, m);
      var a := rows[m := moved];
      PulledRowIsWrapped(rows, m, size);
      TailKept(rows, m, moved);
      PulledText(a, m + 1, size);
      FromSame(a, rows, m + 1, m + 1);
      FirstPassedOn(rows, r, m);
    } else {
      FromSame(r, rows, m + 1, m + 1);
      assert [rows[m].chars[0]] + rows[m].chars[1..] == rows[m].chars;
    }
  }

  lemma FirstPassedOn(rows: seq<Row>, r: seq<Row>, m: nat)
    requires m + 1 < |rows| == |r| && rows[m].chars != "" && rows[m+1].chars != "" && rows[m].soft
    requires r[m] == PulledRow(rows, m) && [rows[m+1].chars[0]] + From(r, m + 1) == From(rows, m + 1)
    ensures [rows[m].chars[0]] + From(r, m) == From(rows, m)
  {
    var c, s, d, rest := rows[m].chars[0], rows[m].chars[1..], rows[m+1].chars[0], From(r, m + 1);
    assert [c] + s == rows[m].chars;
    PassedOn(c, s, d, rest);
  }

  lemma PassedOn(c: char, s: string, d: char, rest: string)
    ensures [c] + ((s + [d]) + "" + rest) == ([c] + s) + "" + ([d] + rest)
  {
  }

  // A last row of one character is left empty, and reads as a newline too many.
  lemma {:induction false} PulledEmpties(rows: seq<Row>, m: nat, size: nat)
    requires WellWrapped(rows, size) && 0 < m < |rows| && rows[m-1].soft && TailLength(rows, m) == 1
    ensures |From(Pulled(rows, m, size), m - 1)| == |From(rows, m - 1)|
    decreases |rows| - m
  {
    var r := Pulled(rows, m, size);
    if rows[m].soft {
      var moved := PulledRow(rows, m);
      var a := rows[m := moved];
      PulledRowIsWrapped(rows, m, size);
      TailKept(rows, m, moved);
      PulledEmpties(a, m + 1, size);
      FromSame(a, rows, m + 1, m + 1);
    } else {
      FromSame(r, rows, m + 1, m + 1);
    }
  }

  lemma ParaAfter(rows: seq<Row>, m: nat, r: Row)
    requires m + 1 < |rows|
    ensures ParaText(rows[m := r], m + 1) == ParaText(rows, m + 1) && ParaEnd(rows[m := r], m + 1) == ParaEnd(rows, m + 1)
    ensures From(rows[m := r], ParaEnd(rows, m + 1)) == From(rows, ParaEnd(rows, m + 1))
  {
    ParaSame(rows, rows[m := r], m + 1);
    FromSame(rows[m := r], rows, ParaEnd(rows, m + 1), ParaEnd(rows, m + 1));
  }

  lemma {:induction false} ParaSame(a: seq<Row>, b: seq<Row>, m: nat)
    requires |a| == |b| && m < |a| && forall k :: m <= k < |a| ==> a[k] == b[k]
    ensures ParaText(a, m) == ParaText(b, m) && ParaEnd(a, m) == ParaEnd(b, m)
    decreases |a| - m
  {
    if a[m].soft && m + 1 < |a| {
      ParaSame(a, b, m + 1);
    }
  }

  lemma PulledOn(s: string, t: string, d: char)
    requires s != "" && t != "" && t[0] == d
    ensures (s[1..] + [d]) + t[1..] == (s + t)[1..]
  {
  }

  // What it reads as: the paragraph without its first character from row m on, and two newlines.
  lemma {:induction false} PulledEmptiesText(rows: seq<Row>, m: nat, size: nat)
    requires WellWrapped(rows, size) && 0 < m < |rows| && rows[m-1].soft && TailLength(rows, m) == 1
    ensures rows[m].chars != "" && ParaText(rows, m) != "" && ParaText(rows, m)[0] == rows[m].chars[0]
    ensures From(Pulled(rows, m, size), m - 1) ==
            rows[m-1].chars + (ParaText(rows, m)[1..] + "\n" + "\n" + From(rows, ParaEnd(rows, m)))
    decreases |rows| - m
  {
    var r := Pulled(rows, m, size);
    var rest := From(rows, ParaEnd(rows, m));
    if rows[m].soft {
      var moved := PulledRow(rows, m);
      var a := rows[m := moved];
      PulledRowIsWrapped(rows, m, size);
      TailKept(rows, m, moved);
      ParaAfter(rows, m, moved);
      PulledEmptiesText(a, m + 1, size);
      var q := ParaText(rows, m + 1);
      PulledOn(rows[m].chars, q, rows[m+1].chars[0]);
      assert ParaText(rows, m) == rows[m].chars + q;
      Regroup4(moved.chars, q[1..], rest);
      assert From(r, m) == ParaText(rows, m)[1..] + "\n" + "\n" + rest;
      Hangs(r[m-1].chars, From(r, m));
    } else {
      FromSame(r, rows, m + 1, m + 1);
      assert ParaText(rows, m) == rows[m].chars;
      Hardened(rows[m-1].chars, ParaText(rows, m)[1..], rest);
    }
  }

  lemma Hangs(s: string, t: string)
    ensures s + "" + t == s + t
  {
  }

  lemma Regroup4(a: string, b: string, rest: string)
    ensures a + (b + "\n" + "\n" + rest) == (a + b) + "\n" + "\n" + rest
  {
  }

  lemma Hardened(s: string, t: string, rest: string)
    requires t == ""
    ensures s + "\n" + ("" + "\n" + rest) == s + (t + "\n" + "\n" + rest)
  {
  }

  // The place of the newline that ends the paragraph of row k.
  function Close(rows: seq<Row>, k: nat): nat
    requires k < |rows|
  {
    Offset(rows, k, |ParaText(rows, k)|)
  }

  // The text t without the character at o, and with a newline more at e, unless the tail of
  // the paragraph that ends there is ample.
  function Lost(t: string, o: nat, e: nat, ample: bool): string
    requires o < e < |t|
  {
    RemoveAt(if ample then t else InsertAt(t, e, '\n'), o)
  }

  ghost predicate Loses(t: string, o: nat, e: nat, ample: bool, u: string) {
    o < e < |t| && t[e] == '\n' && u == Lost(t, o, e, ample)
  }

  lemma LosesExactly(t: string, o: nat, e: nat, ample: bool, u: string)
    requires Loses(t, o, e, ample, u)
    ensures u == RemoveAt(t, o) <==> ample
  {
    assert |u| == |t| - if ample then 1 else 0;
  }

  function Ending(ample: bool): string {
    if ample then "\n" else "\n\n"
  }

  // Rows that differ only from row k on, where the text loses the character c.
  lemma LosesHere(a: seq<Row>, b: seq<Row>, k: nat, x: string, c: char, y: string, rest: string, ample: bool)
    requires k < |a| && k <= |b| && forall j :: 0 <= j < k ==> a[j] == b[j]
    requires |ParaText(a, k)| == |x| + 1 + |y| && From(a, k) == (x + [c] + y) + "\n" + rest
    requires From(b, k) == x + (y + Ending(ample) + rest)
    ensures Loses(Text(a), Offset(a, k, |x|), Close(a, k), ample, Text(b))
  {
    BeforeSame(a, b, k);
    SplitText(a, k);
    SplitText(b, k);
    assert Whole(Before(a, k), x, c, y, rest, ample, Text(a), Text(b), Offset(a, k, |x|), Close(a, k));
    LosesParts(Before(a, k), x, c, y, rest, ample, Text(a), Text(b), Offset(a, k, |x|), Close(a, k));
  }

  ghost predicate Whole(before: string, x: string, c: char, y: string, rest: string, ample: bool, t: string, u: string,
                        o: nat, e: nat)
  {
    && t == before + ((x + [c] + y) + "\n" + rest) && u == before + (x + (y + Ending(ample) + rest))
    && o == |before| + |x| && e == |before| + (|x| + 1 + |y|)
  }

  lemma LosesParts(before: string, x: string, c: char, y: string, rest: string, ample: bool, t: string, u: string,
                   o: nat, e: nat)
    requires Whole(before, x, c, y, rest, ample, t, u, o, e)
    ensures Loses(t, o, e, ample, u)
  {
    LosesSlices(before, x, c, y, rest, (x + [c] + y) + "\n" + rest);
    AroundLost(before, x, y, rest);
    if !ample {
      InsertedSlices(t, o, e, before + x, y, "\n" + rest);
    }
  }

  lemma AroundLost(before: string, x: string, y: string, rest: string)
    ensures before + (x + (y + Ending(true) + rest)) == (before + x) + (y + "\n" + rest)
    ensures before + (x + (y + Ending(false) + rest)) == (before + x) + (y + "\n" + ("\n" + rest))
  {
  }

  lemma LosesSlices(before: string, x: string, c: char, y: string, rest: string, a: string)
    requires a == (x + [c] + y) + "\n" + rest
    ensures var t, o, e := before + a, |before| + |x|, |before| + (|x| + 1 + |y|);
            && o < e < |t| && t[e] == '\n' && t[..o] == before + x && t[o+1..e] == y && t[e..] == "\n" + rest
            && t[o+1..] == y + "\n" + rest
  {
  }

  lemma InsertedSlices(t: string, o: nat, e: nat, x: string, y: string, z: string)
    requires o < e < |t| && t[..o] == x && t[o+1..e] == y && t[e..] == z
    ensures RemoveAt(InsertAt(t, e, '\n'), o) == x + (y + "\n" + z)
  {
    var i := InsertAt(t, e, '\n');
    assert i[..o] == t[..o];
    assert i[o+1..] == t[o+1..e] + ['\n'] + t[e..];
  }

  // Pulling the rows behind soft row k: the first character after the row is lost.
  lemma PulledLosesAt(rows: seq<Row>, k: nat, size: nat)
    requires WellWrapped(rows, size) && k + 1 < |rows| && rows[k].soft
    ensures Loses(Text(rows), Offset(rows, k, size), Close(rows, k), TailLength(rows, k) >= 2,
                  Text(Pulled(rows, k + 1, size)))
  {
    var r, s, q := Pulled(rows, k + 1, size), rows[k].chars, ParaText(rows, k + 1);
    var rest, ample := From(rows, ParaEnd(rows, k)), TailLength(rows, k) >= 2;
    ParaFrom(rows, k, size);
    ParaStarts(rows, k + 1);
    TakenApart(s, q);
    if ample {
      PulledAmpleFrom(rows, k, size);
    } else {
      TailIsNotEmpty(rows, k, size);
      PulledEmptiesText(rows, k + 1, size);
      TwoNewlines(q[1..], rest);
    }
    LosesHere(rows, r, k, s, q[0], q[1..], rest, ample);
  }

  lemma PulledAmpleFrom(rows: seq<Row>, k: nat, size: nat)
    requires WellWrapped(rows, size) && k + 1 < |rows| && rows[k].soft && TailLength(rows, k) >= 2
    ensures var q := ParaText(rows, k + 1);
            q != "" && From(Pulled(rows, k + 1, size), k) ==
                       rows[k].chars + (q[1..] + Ending(true) + From(rows, ParaEnd(rows, k)))
  {
    var r, q := Pulled(rows, k + 1, size), ParaText(rows, k + 1);
    ParaStarts(rows, k + 1);
    ParaFrom(rows, k + 1, size);
    PulledText(rows, k + 1, size);
    AfterFirst(q, From(rows, ParaEnd(rows, k)), From(r, k + 1));
    Hangs(rows[k].chars, From(r, k + 1));
  }

  lemma TakenApart(s: string, q: string)
    requires q != ""
    ensures s + [q[0]] + q[1..] == s + q
  {
  }

  lemma ParaStarts(rows: seq<Row>, k: nat)
    requires k < |rows| && rows[k].chars != ""
    ensures ParaText(rows, k) != "" && ParaText(rows, k)[0] == rows[k].chars[0]
  {
  }

  lemma AfterFirst(q: string, rest: string, t: string)
    requires q != "" && [q[0]] + t == q + "\n" + rest
    ensures t == q[1..] + "\n" + rest
  {
    assert ([q[0]] + t)[1..] == t;
    assert (q + "\n" + rest)[1..] == q[1..] + "\n" + rest;
  }

  lemma TwoNewlines(q: string, rest: string)
    ensures q + "\n" + "\n" + rest == q + Ending(false) + rest
  {
  }

  // ----- deleting a character within a row -----------------------------------------------------

  // Row i loses its character at p; a soft row takes one from the row that continues it.
  function Deleted(rows: seq<Row>, i: nat, p: nat, size: nat): (r: seq<Row>)
    requires WellWrapped(rows, size) && i < |rows| && p < |rows[i].chars|
    ensures |r| == |rows|
  {
    var s := RemoveAt(rows[i].chars, p);
    if rows[i].soft then
      var a := Pulled(rows, i + 1, size);
      a[i := Row(s + [rows[i+1].chars[0]], a[i].soft)]
    else
      rows[i := Row(s, false)]
  }

  lemma RemovedParts(s: string, p: nat, tail: string)
    requires p < |s|
    ensures s + tail == s[..p] + [s[p]] + (s[p+1..] + tail)
    ensures RemoveAt(s, p) + tail == s[..p] + (s[p+1..] + tail)
    ensures forall c :: c in RemoveAt(s, p) ==> c in s
  {
  }

  lemma DeletedIsWrapped(rows: seq<Row>, i: nat, p: nat, size: nat)
    requires WellWrapped(rows, size) && i < |rows| && p < |rows[i].chars|
    requires i > 0 && rows[i-1].soft && !rows[i].soft ==> |rows[i].chars| > 1
    ensures WellWrapped(Deleted(rows, i, p, size), size)
    ensures Before(Deleted(rows, i, p, size), i) == Before(rows, i)
  {
    RemovedParts(rows[i].chars, p, "");
    BeforeSame(Deleted(rows, i, p, size), rows, i);
    if rows[i].soft {
      assert rows[i+1].chars[0] in rows[i+1].chars;
    }
  }

  lemma DeletedHard(rows: seq<Row>, i: nat, p: nat, size: nat)
    requires WellWrapped(rows, size) && i < |rows| && p < |rows[i].chars| && !rows[i].soft
    ensures Offset(rows, i, p) < |Text(rows)|
    ensures Text(Deleted(rows, i, p, size)) == RemoveAt(Text(rows), Offset(rows, i, p))
  {
    var r, s := Deleted(rows, i, p, size), rows[i].chars;
    FromSame(r, rows, i + 1, i + 1);
    RemovedParts(s, p, "\n" + From(rows, i + 1));
    Reparenthesize(s, "\n", From(rows, i + 1));
    Reparenthesize(RemoveAt(s, p), "\n", From(rows, i + 1));
    TextRemoved(rows, r, i, s[..p], s[p], s[p+1..] + ("\n" + From(rows, i + 1)));
  }

  lemma SoftFrom(rows: seq<Row>, i: nat)
    requires i < |rows| && rows[i].soft
    ensures From(rows, i) == rows[i].chars + From(rows, i + 1)
  {
  }

  // Seen from row i on, a soft row has only lost the character at p.
  lemma DeletedFrom(rows: seq<Row>, i: nat, p: nat, size: nat)
    requires WellWrapped(rows, size) && i < |rows| && p < size && rows[i].soft && TailLength(rows, i) >= 2
    ensures From(Deleted(rows, i, p, size), i) == RemoveAt(rows[i].chars, p) + From(rows, i + 1)
  {
    var r, a := Deleted(rows, i, p, size), Pulled(rows, i + 1, size);
    PulledText(rows, i + 1, size);
    FromSame(r, a, i + 1, i + 1);
    TakenOn(RemoveAt(rows[i].chars, p), rows[i+1].chars[0], From(a, i + 1));
  }

  lemma DeletedSoft(rows: seq<Row>, i: nat, p: nat, size: nat)
    requires WellWrapped(rows, size) && i < |rows| && p < size && rows[i].soft && TailLength(rows, i) >= 2
    ensures Offset(rows, i, p) < |Text(rows)|
    ensures Text(Deleted(rows, i, p, size)) == RemoveAt(Text(rows), Offset(rows, i, p))
  {
    var r, s, rest := Deleted(rows, i, p, size), rows[i].chars, From(rows, i + 1);
    DeletedFrom(rows, i, p, size);
    SoftFrom(rows, i);
    RemovedParts(s, p, rest);
    TextRemoved(rows, r, i, s[..p], s[p], s[p+1..] + rest);
  }

  lemma DeletedEmpties(rows: seq<Row>, i: nat, p: nat, size: nat)
    requires WellWrapped(rows, size) && i < |rows| && p < size && rows[i].soft && TailLength(rows, i) == 1
    ensures |Text(Deleted(rows, i, p, size))| == |Text(rows)| > Offset(rows, i, p)
  {
    var r, a := Deleted(rows, i, p, size), Pulled(rows, i + 1, size);
    PulledEmpties(rows, i + 1, size);
    FromSame(r, a, i + 1, i + 1);
    SplitText(rows, i);
    SplitText(r, i);
    BeforeSame(r, rows, i);
  }

  // Deleting within a row removes that character from the text and nothing else, exactly
  // when the row is hard or the last row of its paragraph holds two characters.
  lemma DeletedText(rows: seq<Row>, i: nat, p: nat, size: nat)
    requires WellWrapped(rows, size) && i < |rows| && p < |rows[i].chars|
    ensures Offset(rows, i, p) < |Text(rows)|
    ensures Text(Deleted(rows, i, p, size)) == RemoveAt(Text(rows), Offset(rows, i, p))
       <==> (rows[i].soft ==> TailLength(rows, i) >= 2)
  {
    if !rows[i].soft {
      DeletedHard(rows, i, p, size);
    } else if TailLength(rows, i) >= 2 {
      DeletedSoft(rows, i, p, size);
    } else {
      TailIsNotEmpty(rows, i, size);
      DeletedEmpties(rows, i, p, size);
    }
  }

  // And what it does to the text in every case.
  lemma DeletedLosesAt(rows: seq<Row>, i: nat, p: nat, size: nat)
    requires WellWrapped(rows, size) && i < |rows| && p < |rows[i].chars|
    ensures Loses(Text(rows), Offset(rows, i, p), Close(rows, i), rows[i].soft ==> TailLength(rows, i) >= 2,
                  Text(Deleted(rows, i, p, size)))
  {
    var r, s, q := Deleted(rows, i, p, size), rows[i].chars, ParaText(rows, i);
    var rest, ample := From(rows, ParaEnd(rows, i)), rows[i].soft ==> TailLength(rows, i) >= 2;
    ParaFrom(rows, i, size);
    TailOfPara(rows, i);
    if rows[i].soft {
      DeletedSoftFrom(rows, i, p, size);
    } else {
      DeletedHardFrom(rows, i, p, size);
    }
    RemovedTail(s, p, q[|s|..], Ending(ample), rest);
    LosesHere(rows, r, i, s[..p], s[p], s[p+1..] + q[|s|..], rest, ample);
  }

  lemma TailOfPara(rows: seq<Row>, i: nat)
    requires i < |rows|
    ensures var s, q := rows[i].chars, ParaText(rows, i);
            |s| <= |q| && q == s + q[|s|..]
            && q[|s|..] == if rows[i].soft && i + 1 < |rows| then ParaText(rows, i + 1) else ""
  {
  }

  lemma RemovedTail(s: string, p: nat, t: string, end: string, rest: string)
    requires p < |s|
    ensures RemoveAt(s, p) + t + end + rest == s[..p] + ((s[p+1..] + t) + end + rest)
    ensures s + t == s[..p] + [s[p]] + (s[p+1..] + t)
  {
  }

  lemma DeletedHardFrom(rows: seq<Row>, i: nat, p: nat, size: nat)
    requires WellWrapped(rows, size) && i < |rows| && p < |rows[i].chars| && !rows[i].soft
    ensures From(Deleted(rows, i, p, size), i) ==
            RemoveAt(rows[i].chars, p) + "" + Ending(true) + From(rows, ParaEnd(rows, i))
  {
    var r, t := Deleted(rows, i, p, size), RemoveAt(rows[i].chars, p);
    assert r == rows[i := Row(t, false)];
    FromSame(r, rows, i + 1, i + 1);
    Hangs(t, "\n");
  }

  lemma DeletedSoftFrom(rows: seq<Row>, i: nat, p: nat, size: nat)
    requires WellWrapped(rows, size) && i < |rows| && p < |rows[i].chars| && rows[i].soft
    ensures From(Deleted(rows, i, p, size), i) ==
            RemoveAt(rows[i].chars, p) + ParaText(rows, i + 1) + Ending(TailLength(rows, i) >= 2)
            + From(rows, ParaEnd(rows, i))
  {
    var t, q, rest := RemoveAt(rows[i].chars, p), ParaText(rows, i + 1), From(rows, ParaEnd(rows, i));
    if TailLength(rows, i) >= 2 {
      DeletedFrom(rows, i, p, size);
      ParaFrom(rows, i + 1, size);
      FourParts(t, q, "\n", rest);
    } else {
      TailIsNotEmpty(rows, i, size);
      DeletedEmptyFrom(rows, i, p, size);
    }
  }

  lemma FourParts(a: string, b: string, c: string, d: string)
    ensures a + (b + c + d) == a + b + c + d
  {
  }

  lemma DeletedEmptyFrom(rows: seq<Row>, i: nat, p: nat, size: nat)
    requires WellWrapped(rows, size) && i < |rows| && p < |rows[i].chars| && rows[i].soft && TailLength(rows, i) == 1
    ensures From(Deleted(rows, i, p, size), i) ==
            RemoveAt(rows[i].chars, p) + ParaText(rows, i + 1) + Ending(false) + From(rows, ParaEnd(rows, i))
  {
    var t, rest := RemoveAt(rows[i].chars, p), From(rows, ParaEnd(rows, i));
    var r, a := Deleted(rows, i, p, size), Pulled(rows, i + 1, size);
    var q := ParaText(rows, i + 1);
    PulledEmptiesText(rows, i + 1, size);
    FromSame(r, a, i + 1, i + 1);
    FourLeft(rows[i].chars, End(a[i]), From(a, i + 1));
    SameRest(rows[i].chars, End(a[i]) + From(a, i + 1), q[1..] + "\n" + "\n" + rest);
    TakenAgain(t, q, End(a[i]), From(a, i + 1), rest);
  }

  lemma FourLeft(a: string, b: string, c: string)
    ensures a + b + c == a + (b + c)
  {
  }

  lemma SameRest(s: string, t: string, u: string)
    requires s + t == s + u
    ensures t == u
  {
    assert (s + t)[|s|..] == t && (s + u)[|s|..] == u;
  }

  lemma TakenAgain(t: string, q: string, end: string, more: string, rest: string)
    requires q != "" && end + more == q[1..] + "\n" + "\n" + rest
    ensures (t + [q[0]]) + end + more == t + q + Ending(false) + rest
  {
    FourLeft(t + [q[0]], end, more);
    TakenApart(t, q);
    FourLeft(t + [q[0]], q[1..], "\n" + "\n" + rest);
    assert q[1..] + "\n" + "\n" + rest == q[1..] + ("\n" + "\n" + rest);
    assert t + q + Ending(false) + rest == (t + q) + ("\n" + "\n" + rest);
  }

  // Taking a from abc, in lines of two, leaves bc and an empty line.
  lemma DeletionAddsNewline()
    ensures var rows := [Row("ab", true), Row("c", false)];
            WellWrapped(rows, 2) && Text(rows) == "abc\n" && Text(Deleted(rows, 0, 0, 2)) == "bc\n\n"
  {
    var rows := [Row("ab", true), Row("c", false)];
    var r := Deleted(rows, 0, 0, 2);
    assert Pulled(rows, 1, 2) == [Row("ab", false), Row("", false)];
    assert RemoveAt("ab", 0) + [rows[1].chars[0]] == "bc";
    assert r == [Row("bc", false), Row("", false)];
    assert From(r, 2) == "" && From(r, 1) == "\n" && From(rows, 2) == "" && From(rows, 1) == "c\n";
  }

  lemma Reparenthesize(a: string, b: string, c: string)
    ensures a + b + c == a + (b + c)
  {
  }

  lemma TakenOn(s: string, d: char, rest: string)
    ensures (s + [d]) + "" + rest == s + ([d] + rest)
  {
  }

  lemma {:induction false} TailIsNotEmpty(rows: seq<Row>, m: nat, size: nat)
    requires WellWrapped(rows, size) && m < |rows| && rows[m].chars != ""
    ensures TailLength(rows, m) > 0
    decreases |rows| - m
  {
    if rows[m].soft {
      TailIsNotEmpty(rows, m + 1, size);
    }
  }

  // ----- changing one character --------------------------------------------------------------

  lemma TextAround(rows: seq<Row>, k: nat)
    requires k < |rows|
    ensures Text(rows) == Before(rows, k) + (rows[k].chars + End(rows[k]) + From(rows, k + 1))
  {
    SplitText(rows, k);
  }

  lemma ChangedText(rows: seq<Row>, k: nat, col: nat, x: char)
    requires k < |rows| && col < |rows[k].chars|
    ensures var r := rows[k := Row(rows[k].chars[col := x], rows[k].soft)];
            && Offset(rows, k, col) < |Text(rows)| && Text(r) == Text(rows)[Offset(rows, k, col) := x]
            && (Text(r) == Text(rows) <==> x == rows[k].chars[col])
  {
    var r := rows[k := Row(rows[k].chars[col := x], rows[k].soft)];
    TextAround(rows, k);
    TextAround(r, k);
    BeforeSame(r, rows, k);
    FromSame(r, rows, k + 1, k + 1);
    assert r[k] == Row(rows[k].chars[col := x], rows[k].soft);
    ReplacedChar(Before(rows, k), rows[k].chars, End(rows[k]), From(rows, k + 1), col, x);
  }

  lemma ReplacedChar(a: string, s: string, end: string, b: string, col: nat, x: char)
    requires col < |s|
    ensures a + (s[col := x] + end + b) == (a + (s + end + b))[|a|+col := x]
    ensures a + (s[col := x] + end + b) == a + (s + end + b) <==> x == s[col]
  {
    var t, u := a + (s[col := x] + end + b), a + (s + end + b);
    assert t[|a|+col] == x && u[|a|+col] == s[col];
    if x == s[col] {
      assert s[col := x] == s;
    }
  }

  // ----- the characters of a text that are not newlines -----------------------------------------

  function Letters(t: string): nat {
    if t == "" then 0 else (if t[0] == '\n' then 0 else 1) + Letters(t[1..])
  }

  lemma {:induction false} LettersConcat(a: string, b: string)
    ensures Letters(a + b) == Letters(a) + Letters(b)
  {
    if a == "" {
      assert a + b == b;
    } else {
      assert (a + b)[1..] == a[1..] + b;
      LettersConcat(a[1..], b);
    }
  }

  lemma {:induction false} LettersOfRow(s: string)
    requires '\n' !in s
    ensures Letters(s) == |s| && Letters(s + "\n") == |s| && Letters(s + "") == |s|
  {
    if s != "" {
      LettersOfRow(s[1..]);
    }
    LettersConcat(s, "\n");
    assert s + "" == s;
  }

  function CharsFrom(rows: seq<Row>, k: nat): nat
    requires k <= |rows|
    decreases |rows| - k
  {
    if k == |rows| then 0 else |rows[k].chars| + CharsFrom(rows, k + 1)
  }

  lemma {:induction false} LettersOfText(rows: seq<Row>, k: nat, size: nat)
    requires WellWrapped(rows, size) && k <= |rows|
    ensures Letters(From(rows, k)) == CharsFrom(rows, k)
    decreases |rows| - k
  {
    if k < |rows| {
      LettersOfText(rows, k + 1, size);
      LettersConcat(rows[k].chars + End(rows[k]), From(rows, k + 1));
      LettersOfRow(rows[k].chars);
    }
  }

  lemma {:induction false} CharsSame(a: seq<Row>, b: seq<Row>, k: nat)
    requires |a| == |b| && k <= |a| && forall j :: k <= j < |a| ==> a[j].chars == b[j].chars
    ensures CharsFrom(a, k) == CharsFrom(b, k)
    decreases |a| - k
  {
    if k < |a| {
      CharsSame(a, b, k + 1);
    }
  }

  lemma {:induction false} PulledLoses(rows: seq<Row>, m: nat, size: nat)
    requires WellWrapped(rows, size) && 0 < m < |rows| && rows[m].chars != ""
    ensures CharsFrom(Pulled(rows, m, size), m) + 1 == CharsFrom(rows, m)
    decreases |rows| - m
  {
    var r := Pulled(rows, m, size);
    if rows[m].soft {
      var a := rows[m := PulledRow(rows, m)];
      PulledRowIsWrapped(rows, m, size);
      PulledLoses(a, m + 1, size);
      CharsSame(a, rows, m + 1);
    } else {
      CharsSame(r, rows, m + 1);
    }
  }

  lemma {:induction false} CharsPrefix(a: seq<Row>, b: seq<Row>, k: nat, m: nat)
    requires |a| == |b| && k <= m <= |a| && forall j :: k <= j < m ==> a[j].chars == b[j].chars
    ensures CharsFrom(a, k) - CharsFrom(b, k) == CharsFrom(a, m) - CharsFrom(b, m)
    decreases m - k
  {
    if k < m {
      CharsPrefix(a, b, k + 1, m);
    }
  }

  lemma LettersRemoved(t: string, o: nat)
    requires o < |t|
    ensures Letters(RemoveAt(t, o)) == Letters(t) - if t[o] == '\n' then 0 else 1
  {
    LettersConcat(t[..o], t[o+1..]);
    LettersConcat(t[..o], t[o..]);
    assert t[..o] + t[o..] == t;
  }

  // ----- a newline ------------------------------------------------------------------------------

  lemma NewlineAtEnd(rows: seq<Row>, i: nat)
    requires i < |rows| && !rows[i].soft
    ensures Offset(rows, i, |rows[i].chars|) < |Text(rows)|
    ensures Text(rows)[Offset(rows, i, |rows[i].chars|)] == '\n'
  {
    SplitText(rows, i);
  }

  // ----- a text has one layout ---------------------------------------------------------------------

  lemma SameHead(s: string, x: char, t: string, s': string, x': char, t': string)
    requires s + [x] + t == s' + [x'] + t' && |s| == |s'|
    ensures s == s' && x == x' && t == t'
  {
    var a, b := s + [x] + t, s' + [x'] + t';
    assert a[..|s|] == s && b[..|s|] == s';
    assert a[|s|] == x && b[|s|] == x';
    assert a[|s|+1..] == t && b[|s|+1..] == t';
  }

  lemma CharAfter(s: string, x: char, t: string, s': string, t': string)
    requires s + [x] + t == s' + t'
    ensures |s| < |s'| ==> s'[|s|] == x
  {
    if |s| < |s'| {
      assert (s + [x] + t)[|s|] == x;
      assert (s' + t')[|s|] == s'[|s|];
    }
  }

  // What a row and what follows it look like, with the character after the row picked out.
  lemma RowShape(rows: seq<Row>, i: nat, size: nat) returns (x: char, t: string)
    requires WellWrapped(rows, size) && i < |rows|
    ensures From(rows, i) == rows[i].chars + [x] + t
    ensures if rows[i].soft then x != '\n' && From(rows, i + 1) == [x] + t
            else x == '\n' && From(rows, i + 1) == t
  {
    var s := rows[i].chars;
    if rows[i].soft {
      var next := rows[i+1].chars;
      assert next[0] in next;
      x, t := next[0], next[1..] + End(rows[i+1]) + From(rows, i + 2);
      assert From(rows, i + 1) == [x] + t;
      Regroup2(s, [x], t);
      assert s + "" == s;
    } else {
      x, t := '\n', From(rows, i + 1);
    }
  }

  // Of two well wrapped layouts with the same text from some row on, the rows from there
  // are the same: the text alone determines where lines break.
  lemma {:induction false} SameLayout(a: seq<Row>, i: nat, b: seq<Row>, j: nat, size: nat)
    requires WellWrapped(a, size) && WellWrapped(b, size) && i <= |a| && j <= |b|
    requires From(a, i) == From(b, j)
    ensures a[i..] == b[j..]
    decreases |a| - i
  {
    if i < |a| && j < |b| {
      SameRow(a, i, b, j, size);
      SameLayout(a, i + 1, b, j + 1, size);
      assert a[i..] == [a[i]] + a[i+1..] && b[j..] == [b[j]] + b[j+1..];
    } else if i < |a| {
      var _, _ := RowShape(a, i, size);
    } else if j < |b| {
      var _, _ := RowShape(b, j, size);
    }
  }

  lemma SameRow(a: seq<Row>, i: nat, b: seq<Row>, j: nat, size: nat)
    requires WellWrapped(a, size) && WellWrapped(b, size) && i < |a| && j < |b|
    requires From(a, i) == From(b, j)
    ensures a[i] == b[j] && From(a, i + 1) == From(b, j + 1)
  {
    var x, t := RowShape(a, i, size);
    var y, u := RowShape(b, j, size);
    var s, s' := a[i].chars, b[j].chars;
    Regroup2(s, [x], t);
    Regroup2(s', [y], u);
    if !a[i].soft {
      LongerBeforeNewline(s, t, s', y, u);
    }
    if !b[j].soft {
      LongerBeforeNewline(s', u, s, x, t);
    }
    SameHead(s, x, t, s', y, u);
  }

  // A row that a newline follows is at least as long as any other with the same text, and
  // longer when that other is not followed by a newline.
  lemma LongerBeforeNewline(s: string, t: string, s': string, y: char, u: string)
    requires s + ['\n'] + t == s' + [y] + u && '\n' !in s'
    ensures |s| >= |s'| && (|s| == |s'| ==> y == '\n')
  {
    Regroup2(s', [y], u);
    CharAfter(s, '\n', t, s', [y] + u);
    if |s| == |s'| {
      SameHead(s, '\n', t, s', y, u);
    }
  }

  // Whatever edits led to it, a text stands in the rows that loading it would give.
  lemma OneLayout(a: seq<Row>, b: seq<Row>, size: nat)
    requires WellWrapped(a, size) && WellWrapped(b, size) && Text(a) == Text(b)
    ensures a == b
  {
    SameLayout(a, 0, b, 0, size);
    assert a[0..] == a && b[0..] == b;
  }
}
