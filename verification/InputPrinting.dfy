// Printing the text of an input area (src/hyper/spadint.c).
module InputPrinting {
  import opened Characters
  import opened InputText
  import opened InputViews
  import opened InputLines
  import opened InputDeletion
  import opened InputJoining
  import opened InputLoading

  // The two characters that stand for a quote and a backslash.
  const QUOTE_MARK: char := '\U{7F}'
  const BACKSLASH_MARK: char := '\U{80}'

  function FunnyUnescape(c: char): char {
    if c == QUOTE_MARK then '\"' else if c == BACKSLASH_MARK then '\\' else c
  }

  function FunnyEscape(c: char): char {
    if c == '\"' then QUOTE_MARK else if c == '\\' then BACKSLASH_MARK else c
  }

  function Escaped(s: string): (t: string)
    ensures |t| == |s| && forall k :: 0 <= k < |s| ==> t[k] == FunnyEscape(s[k])
  {
    seq(|s|, k requires 0 <= k < |s| => FunnyEscape(s[k]))
  }

  function Unescaped(s: string): (t: string)
    ensures |t| == |s| && forall k :: 0 <= k < |s| ==> t[k] == FunnyUnescape(s[k])
  {
    seq(|s|, k requires 0 <= k < |s| => FunnyUnescape(s[k]))
  }

  lemma UnescapedConcat(a: string, b: string)
    ensures Unescaped(a + b) == Unescaped(a) + Unescaped(b)
  {
  }

  // Only texts without the two marks come out as they are.
  lemma UnescapedIsSame(s: string)
    ensures Unescaped(s) == s <==> QUOTE_MARK !in s && BACKSLASH_MARK !in s
  {
    if QUOTE_MARK in s || BACKSLASH_MARK in s {
      var k :| 0 <= k < |s| && (s[k] == QUOTE_MARK || s[k] == BACKSLASH_MARK);
      assert Unescaped(s)[k] != s[k];
    }
  }

  // Quotes, code 34, are what was a quote or code 127, and backslashes, code 92, what was one
  // or code 128; everything else is as it was.
  lemma UnescapedAt(s: string, k: nat)
    requires k < |s|
    ensures var c, d := s[k] as int, Unescaped(s)[k] as int;
            && (d == 34 <==> c == 34 || c == 127) && (d == 92 <==> c == 92 || c == 128)
            && (d == c <==> c != 127 && c != 128)
  {
  }

  // Escaped text has neither quotes nor backslashes. Undoing it gives the text back exactly
  // when that had none of the marks; escaping what was undone, when it had none of these two.
  lemma EscapesUndone(s: string)
    ensures '\"' !in Escaped(s) && '\\' !in Escaped(s)
    ensures Unescaped(Escaped(s)) == s <==> QUOTE_MARK !in s && BACKSLASH_MARK !in s
    ensures Escaped(Unescaped(s)) == s <==> '\"' !in s && '\\' !in s
  {
    if QUOTE_MARK in s || BACKSLASH_MARK in s {
      var k :| 0 <= k < |s| && (s[k] == QUOTE_MARK || s[k] == BACKSLASH_MARK);
      assert Unescaped(Escaped(s))[k] != s[k];
    }
    if '\"' in s || '\\' in s {
      var k :| 0 <= k < |s| && (s[k] == '\"' || s[k] == '\\');
      assert Escaped(Unescaped(s))[k] != s[k];
    }
  }

  // A string in an array, and what follows its terminator.
  ghost predicate HoldsString(s: array<char>, n: nat)
    reads s
  {
    n < s.Length && s[n] == NUL && NUL !in s[..n]
  }

  // escape_string, in place.
  method EscapeString(s: array<char>, ghost n: nat)
    requires HoldsString(s, n)
    modifies s
    ensures s[..] == Escaped(old(s[..n])) + old(s[n..])
  {
    var i := 0;
    while s[i] != NUL
      invariant i <= n && forall k :: 0 <= k < i ==> s[k] == FunnyEscape(old(s[k]))
      invariant forall k :: i <= k < s.Length ==> s[k] == old(s[k])
      decreases n - i
    {
      s[i] := FunnyEscape(s[i]);
      i := i + 1;
    }
    assert i == n && s[..n] == Escaped(old(s[..n])) && s[n..] == old(s[n..]);
  }

  // unescape_string, in place.
  method UnescapeString(s: array<char>, ghost n: nat)
    requires HoldsString(s, n)
    modifies s
    ensures s[..] == Unescaped(old(s[..n])) + old(s[n..])
  {
    var i := 0;
    while s[i] != NUL
      invariant i <= n && forall k :: 0 <= k < i ==> s[k] == FunnyUnescape(old(s[k]))
      invariant forall k :: i <= k < s.Length ==> s[k] == old(s[k])
      decreases n - i
    {
      s[i] := FunnyUnescape(s[i]);
      i := i + 1;
    }
    assert i == n && s[..n] == Unescaped(old(s[..n])) && s[n..] == old(s[n..]);
  }

  // The text of the first m rows as it is printed: no newline after the last row of all.
  ghost function Sought(rows: seq<Row>, m: nat): string
    requires m <= |rows|
  {
    if m < |rows| || m == 0 then Before(rows, m) else Before(rows, m - 1) + rows[m-1].chars
  }

  lemma SoughtNext(rows: seq<Row>, m: nat)
    requires m < |rows|
    ensures Sought(rows, m + 1) == Sought(rows, m) + rows[m].chars + if m + 1 < |rows| then End(rows[m]) else ""
  {
    assert Sought(rows, m) == Before(rows, m);
    if m + 1 == |rows| {
      assert Before(rows, m) + rows[m].chars + "" == Before(rows, m) + rows[m].chars;
    }
  }

  lemma SoughtAll(rows: seq<Row>, size: nat)
    requires WellWrapped(rows, size)
    ensures Sought(rows, |rows|) + "\n" == Text(rows)
  {
    SplitText(rows, |rows|);
    assert !rows[|rows|-1].soft;
    assert Before(rows, |rows|) + "" == Before(rows, |rows|);
  }

  // What comes before the first terminator.
  function UpToNul(cells: string): string {
    if cells == "" || cells[0] == NUL then "" else [cells[0]] + UpToNul(cells[1..])
  }

  lemma {:induction false} UpToNulIs(cells: string, n: nat)
    requires n <= |cells| && NUL !in cells[..n] && (n < |cells| ==> cells[n] == NUL)
    ensures UpToNul(cells) == cells[..n]
  {
    if n > 0 {
      assert cells[0] in cells[..n];
      assert cells[1..][..n-1] == cells[1..n] && cells[..n] == [cells[0]] + cells[1..n];
      UpToNulIs(cells[1..], n - 1);
    }
  }

  // What is in a line up to a terminator or its edge.
  method PrintLine(line: Line, size: nat) returns (t: string, ghost n: nat)
    requires line.buffer.Length == size + 2
    ensures n <= size && t == Unescaped(line.buffer[..n]) == Unescaped(UpToNul(line.buffer[..size]))
    ensures (n < size ==> line.buffer[n] == NUL) && NUL !in line.buffer[..n]
  {
    t, n := "", 0;
    var s := 0;
    assert Unescaped(line.buffer[..0]) == "";
    while line.buffer[s] != NUL && s < size
      invariant n == s <= size && t == Unescaped(line.buffer[..s]) && NUL !in line.buffer[..s]
      decreases size - s
    {
      assert line.buffer[..s+1] == line.buffer[..s] + [line.buffer[s]];
      UnescapedConcat(line.buffer[..s], [line.buffer[s]]);
      t := t + [FunnyUnescape(line.buffer[s])];
      s := s + 1;
      n := s;
    }
    assert line.buffer[..size][..n] == line.buffer[..n];
    UpToNulIs(line.buffer[..size], n);
  }

  // A line prints as its row and nothing more exactly when it is closed.
  method PrintRow(line: Line, size: nat, ghost r: Row) returns (t: string)
    requires line.Holds(r, size) && NUL !in r.chars
    ensures t == Unescaped(UpToNul(line.buffer[..size]))
    ensures if line.Closed(size) then t == Unescaped(r.chars) else |t| > |r.chars|
  {
    ghost var n;
    t, n := PrintLine(line, size);
    RowPrinted(line, size, r, n);
  }

  lemma RowPrinted(line: Line, size: nat, r: Row, n: nat)
    requires line.Holds(r, size) && NUL !in r.chars && n <= size
    requires (n < size ==> line.buffer[n] == NUL) && NUL !in line.buffer[..n]
    ensures if line.Closed(size) then line.buffer[..n] == r.chars else n > |r.chars|
  {
    var m := |r.chars|;
    assert line.buffer[..m] == r.chars;
    NotBefore(line.buffer, n, m);
    NotBefore(line.buffer, m, n);
  }

  lemma NotBefore(b: array<char>, n: nat, m: nat)
    requires n <= b.Length && m <= b.Length && NUL !in b[..m]
    ensures n < m ==> b[n] != NUL
  {
    if n < m {
      assert b[n] == b[..m][n];
      assert b[..m][n] in b[..m];
    }
  }

  // What is printed of the first m lines: what is sought if they are closed, and else more.
  ghost predicate Printed(out: string, v: seq<View>, m: nat)
    requires m <= |v|
  {
    if forall k :: 0 <= k < m ==> v[k].closed then out == Unescaped(Sought(RowsOf(v), m))
    else |out| > |Sought(RowsOf(v), m)|
  }

  lemma PrintedNone(v: seq<View>)
    ensures Printed("", v, 0)
  {
    assert Unescaped("") == "";
  }

  lemma PrintedNext(out: string, t: string, v: seq<View>, m: nat)
    requires m < |v| && Printed(out, v, m)
    requires if v[m].closed then t == Unescaped(v[m].row.chars) else |t| > |v[m].row.chars|
    ensures Printed(out + t + Break(v, m), v, m + 1)
  {
    var rows, more := RowsOf(v), Break(v, m);
    SoughtNext(rows, m);
    assert Sought(rows, m + 1) == Sought(rows, m) + v[m].row.chars + more;
    if forall k :: 0 <= k < m + 1 ==> v[k].closed {
      UnescapedParts(Sought(rows, m), v[m].row.chars, more);
    }
  }

  lemma UnescapedParts(a: string, b: string, more: string)
    requires more == "" || more == "\n"
    ensures Unescaped(a + b + more) == Unescaped(a) + Unescaped(b) + more
  {
    UnescapedConcat(a, b);
    UnescapedConcat(a + b, more);
    assert Unescaped(more) == more;
  }

  function Break(v: seq<View>, m: nat): string
    requires m < |v|
  {
    if !v[m].row.soft && m + 1 < |v| then "\n" else ""
  }

  // The first m lines as they are printed, each up to its first terminator.
  ghost function Output(v: seq<View>, cells: seq<string>, m: nat): string
    requires m <= |v| == |cells|
  {
    if m == 0 then "" else Output(v, cells, m - 1) + Unescaped(UpToNul(cells[m-1])) + Break(v, m - 1)
  }

  // The columns of the lines.
  ghost predicate Columns(sym: InputItem, cells: seq<string>)
    reads sym`chain, sym`views, sym`slots, sym.slots.Keys
  {
    && |cells| == |sym.chain| == |sym.views|
    && forall k :: 0 <= k < |cells| ==>
         var b := sym.chain[k].buffer; b in sym.slots && b.Length == sym.size + 2 && cells[k] == b[..sym.size]
  }

  ghost method ReadColumns(sym: InputItem) returns (cells: seq<string>)
    requires sym.Chained()
    ensures Columns(sym, cells)
  {
    cells := [];
    while |cells| < |sym.chain|
      invariant |cells| <= |sym.chain| == |sym.views|
      invariant forall k :: 0 <= k < |cells| ==>
                  var b := sym.chain[k].buffer; b in sym.slots && b.Length == sym.size + 2 && cells[k] == b[..sym.size]
    {
      LineHolds(sym, |cells|);
      cells := cells + [sym.chain[|cells|].buffer[..sym.size]];
    }
  }

  // The first m lines are printed.
  ghost predicate PrintedTo(sym: InputItem, curr: Line?, m: nat, out: string, cells: seq<string>)
    reads sym, sym.repr, sym.slots.Keys
  {
    var printed :=
      && sym.Chained() && WellWrapped(RowsOf(sym.views), sym.size) && Columns(sym, cells)
      && m <= |sym.chain| == |sym.views| && curr == At(sym.chain, m)
      && Printed(out, sym.views, m) && out == Output(sym.views, cells, m);
    printed
  }

  // Prints an input area, each line up to its first terminator and a newline for each
  // paragraph but the last: the text exactly when every line is terminated.
  method PrintString(sym: InputItem) returns (out: string, ghost cells: seq<string>)
    requires sym.Valid()
    ensures Columns(sym, cells) && out == Output(sym.views, cells, |cells|)
    ensures |TextOf(sym.views)| > 0
    ensures var t := TextOf(sym.views); out == Unescaped(t[..|t|-1]) <==> AllClosed(sym.views)
  {
    var curr := sym.lines;
    ghost var m := 0;
    out := "";
    cells := ReadColumns(sym);
    PrintedNone(sym.views);
    while curr != null
      invariant PrintedTo(sym, curr, m, out, cells)
      decreases |sym.chain| - m
    {
      out := PrintNext(sym, curr, out, m, cells);
      curr, m := curr.next, m + 1;
    }
    PrintedAll(out, sym.views, m, sym.size);
  }

  lemma PrintedAll(out: string, v: seq<View>, m: nat, size: nat)
    requires WellWrapped(RowsOf(v), size) && m == |v| && Printed(out, v, m)
    ensures var t := TextOf(v); |t| > 0 && (out == Unescaped(t[..|t|-1]) <==> AllClosed(v))
  {
    var t := TextOf(v);
    SoughtAll(RowsOf(v), size);
    assert t[..|t|-1] == Sought(RowsOf(v), |v|);
  }

  method PrintNext(sym: InputItem, line: Line, out: string, ghost m: nat, ghost cells: seq<string>)
    returns (out': string)
    requires PrintedTo(sym, line, m, out, cells)
    ensures PrintedTo(sym, line.next, m + 1, out', cells) && m < |sym.chain|
  {
    LineBuffers(sym, m);
    RowIsHeld(sym, m);
    LineHolds(sym, m);
    assert RowsOf(sym.views)[m] == sym.views[m].row;
    var t := PrintRow(line, sym.size, sym.views[m].row);
    PrintedNext(out, t, sym.views, m);
    out' := out + t;
    if line.len <= sym.size && line.next != null {
      out' := out' + "\n";
    } else {
      assert out' + "" == out';
    }
  }

  // A text that is loaded and printed comes out with its escapes undone: as it went in, exactly when it has neither
  // of the two marks.
  method LoadAndPrint(sym: InputItem, s: string) returns (out: string)
    requires sym.size > 0 && NUL !in s
    modifies sym
    ensures out == Unescaped(s)
    ensures out == s <==> QUOTE_MARK !in s && BACKSLASH_MARK !in s
  {
    InitializeDefault(sym, s);
    ghost var cells;
    out, cells := PrintString(sym);
    assert (s + "\n")[..|s|] == s;
    UnescapedIsSame(s);
  }
}
