// The input areas of a page: doubly linked lines of fixed width that hold wrapped text
// (src/hyper/dialog.c, src/hyper/parse-input.c, src/hyper/spadint.c, src/hyper/mem.c).
module InputLines {
  import opened Characters
  import opened InputText
  import opened InputViews

  class Line {
    const buffer: array<char>
    var len: nat
    var cursor: nat
    var number: int
    var prev: Line?
    var next: Line?

    // alloc_inputline: a line of blanked width, with room for a wrap mark and a terminator.
    constructor (size: nat)
      ensures fresh(buffer) && buffer.Length == size + 2
      ensures forall k :: 0 <= k < size + 2 ==> buffer[k] == NUL
      ensures len == 0 && cursor == 0 && prev == null && next == null
    {
      buffer := new char[size + 2];
      len, cursor, number, prev, next := 0, 0, 0, null, null;
      new;
      var i := 0;
      while i < size + 2
        invariant 0 <= i <= size + 2
        invariant forall k :: 0 <= k < i ==> buffer[k] == NUL
        modifies buffer
      {
        buffer[i] := NUL;
        i := i + 1;
      }
    }

    // A soft line is marked in the column after its last.
    ghost predicate Holds(r: Row, size: nat)
      reads this`len, buffer
    {
      && buffer.Length == size + 2
      && if r.soft then len == size + 1 && |r.chars| == size && buffer[..size] == r.chars && buffer[size] == '_'
         else len == |r.chars| <= size && buffer[..len] == r.chars
    }

    // Nothing but the text shows when the line is printed up to a terminator.
    ghost predicate Closed(size: nat)
      reads this`len, buffer
    {
      buffer.Length == size + 2 && (len < size ==> buffer[len] == NUL)
    }

    ghost predicate Blank()
      reads buffer
    {
      forall k :: 0 <= k < buffer.Length ==> buffer[k] == NUL
    }

    ghost predicate Shows(v: View, size: nat)
      reads this`len, this`number, buffer
    {
      var shows := Holds(v.row, size) && number == v.number && v.closed == Closed(size);
      shows
    }

    // Moves the characters from column p on up, and puts one there.
    method Insert(p: nat, c: char, ghost s: string, ghost size: nat)
      requires Holds(Row(s, false), size) && p <= |s| < size
      modifies this`len, this`cursor, buffer
      ensures Holds(Row(InsertAt(s, p, c), false), size) && cursor == p + 1
      ensures Closed(size) == (old(Closed(size)) || |s| + 1 == size)
    {
      ghost var b := buffer[..];
      assert b[..|s|] == s;
      len := len + 1;
      CopyUp(buffer, p, len - p + 1);
      buffer[p] := c;
      cursor := p + 1;
      MadeRoom(b, s, p, c, buffer[..]);
      assert buffer[..len] == buffer[..][..|s|+1];
    }

    // Makes a line of which all columns are in use a soft one.
    method Wrap(ghost s: string, size: nat)
      requires buffer.Length == size + 2 && |s| == size && buffer[..size] == s
      modifies this`len, buffer
      ensures Holds(Row(s, true), size)
    {
      buffer[size] := '_';
      buffer[size+1] := NUL;
      len := size + 1;
      assert buffer[..size] == s;
    }

    // Ends a paragraph with a line that wrapped.
    method Harden(ghost s: string, size: nat)
      requires Holds(Row(s, true), size)
      modifies this`len, buffer
      ensures Holds(Row(s, false), size) && Closed(size)
    {
      buffer[size] := NUL;
      len := size;
      assert buffer[..size] == s;
    }

    // Puts a character in an empty line.
    method Start(c: char, ghost size: nat)
      requires size > 0 && Holds(Row("", false), size)
      modifies this`len, buffer
      ensures Holds(Row([c], false), size)
      ensures old(Blank()) ==> Closed(size)
    {
      buffer[0] := c;
      len := 1;
      assert buffer[..1] == [c];
    }

    // Moves the characters from column p on up, the last over the edge, and puts one there.
    method Shove(p: nat, c: char, ghost s: string, size: nat)
      requires Holds(Row(s, false), size) && p < |s| == size
      modifies this`len, buffer
      ensures Holds(Row(InsertAt(s, p, c)[..size], true), size)
    {
      ghost var b := buffer[..];
      assert b[..size] == s;
      ShovedCells(b, s, p, c, size);
      CopyWithin(buffer, p + 1, p, size - p);
      buffer[p] := c;
      assert buffer[..] == Copied(b, p + 1, p, size - p)[p := c];
      assert buffer[..size] == buffer[..][..size];
      Wrap(InsertAt(s, p, c)[..size], size);
    }

    // A full line takes a character at column p and pushes its last one onto an empty line.
    method Spill(n: Line, p: nat, c: char, ghost s: string, size: nat)
      requires Holds(Row(s, false), size) && p <= |s| == size && size > 0
      requires n != this && n.buffer != buffer && n.Holds(Row("", false), size)
      modifies this`len, this`cursor, buffer, n`len, n`cursor, n.buffer
      ensures Holds(Row(InsertAt(s, p, c)[..size], true), size)
      ensures n.Holds(Row([InsertAt(s, p, c)[size]], false), size)
      ensures if p >= size - 1 then n.cursor == p + 1 - size else cursor == p + 1
      ensures old(n.Blank()) ==> n.Closed(size)
    {
      if p >= size {
        n.cursor := 1;
        n.Start(c, size);
        assert InsertAt(s, p, c)[..size] == s;
        Wrap(s, size);
      } else {
        n.Start(buffer[size-1], size);
        Shoved(s, p, c);
        Shove(p, c, s, size);
        if p < size - 1 {
          cursor := p + 1;
        } else {
          n.cursor := 0;
        }
      }
    }
  }

  // Moves the characters of a line from column p on to an empty line.
  method Carry(line: Line, n: Line, p: nat, ghost s: string, ghost size: nat)
    requires line.Holds(Row(s, false), size) && p <= |s| && n != line && n.buffer != line.buffer
    requires n.Holds(Row("", false), size) && n.Blank()
    modifies line`len, line.buffer, n`len, n`cursor, n.buffer
    ensures line.Holds(Row(s[..p], false), size) && line.Closed(size)
    ensures forall j :: p < j < line.buffer.Length ==> line.buffer[j] == old(line.buffer[j])
    ensures n.Holds(Row(s[p..], false), size) && n.Closed(size) && n.cursor == 0
  {
    var l := line.len;
    forall k | 0 <= k < l - p {
      n.buffer[k] := line.buffer[p+k];
    }
    assert n.buffer[..l-p] == s[p..];
    line.len := p;
    line.buffer[p] := NUL;
    n.len, n.cursor := l - p, 0;
    assert line.buffer[..p] == s[..p];
  }

  lemma MadeRoom(b: string, s: string, p: nat, c: char, d: string)
    requires p <= |s| < |b| == |d| && b[..|s|] == s
    requires d[p] == c && (forall k :: 0 <= k < p ==> d[k] == b[k]) && forall k :: p < k <= |s| ==> d[k] == b[k-1]
    ensures d[..|s|+1] == InsertAt(s, p, c)
  {
    assert d[..p] == b[..p] == s[..p];
    assert d[p+1..|s|+1] == b[p..|s|] == s[p..];
    assert d[..|s|+1] == d[..p] + [d[p]] + d[p+1..|s|+1];
  }

  lemma Shoved(s: string, p: nat, c: char)
    requires p <= |s|
    ensures |InsertAt(s, p, c)| == |s| + 1
    ensures forall k :: 0 <= k <= |s| ==> InsertAt(s, p, c)[k] == if k < p then s[k] else if k == p then c else s[k-1]
  {
  }

  // Copies n characters one place up, last first.
  method CopyUp(b: array<char>, p: nat, n: nat)
    requires p + n < b.Length
    modifies b
    ensures forall k :: 0 <= k < b.Length ==> b[k] == old(if p < k <= p + n then b[k-1] else b[k])
  {
    var i := n;
    while i > 0
      invariant 0 <= i <= n
      invariant forall k :: 0 <= k < b.Length ==> b[k] == old(if p + i < k <= p + n then b[k-1] else b[k])
    {
      i := i - 1;
      b[p + 1 + i] := b[p + i];
    }
  }

  // The text b with n characters from one place copied to another.
  ghost function Copied(b: string, to: nat, from: nat, n: nat): (r: string)
    requires to + n <= |b| && from + n <= |b|
    ensures |r| == |b| && forall k :: 0 <= k < |b| ==> r[k] == if to <= k < to + n then b[k - to + from] else b[k]
  {
    b[..to] + b[from..from+n] + b[to+n..]
  }

  lemma ShovedCells(b: string, s: string, p: nat, c: char, size: nat)
    requires p < |s| == size < |b| && b[..size] == s
    ensures Copied(b, p + 1, p, size - p)[p := c][..size] == InsertAt(s, p, c)[..size]
  {
    var l, r := Copied(b, p + 1, p, size - p)[p := c][..size], InsertAt(s, p, c)[..size];
    forall k | 0 <= k < size ensures l[k] == r[k] {
      assert b[k] == s[k];
      assert k > 0 ==> b[k-1] == s[k-1];
    }
  }

  // strncpy within a buffer, in whatever order leaves the source characters intact.
  method CopyWithin(b: array<char>, to: nat, from: nat, n: nat)
    requires to + n <= b.Length && from + n <= b.Length
    modifies b
    ensures b[..] == Copied(old(b[..]), to, from, n)
    ensures forall k :: 0 <= k < b.Length ==> b[k] == old(if to <= k < to + n then b[k - to + from] else b[k])
  {
    forall k | to <= k < to + n {
      b[k] := b[k - to + from];
    }
  }

  ghost function Moved(slots: map<array<char>, nat>, k: nat, b: array<char>): (r: map<array<char>, nat>)
    ensures r.Keys == slots.Keys + {b} && r[b] == k + 1
    ensures forall c :: c in slots && c != b ==> r[c] == if slots[c] > k then slots[c] + 1 else slots[c]
  {
    (map c | c in slots :: if slots[c] > k then slots[c] + 1 else slots[c])[b := k + 1]
  }

  function At(s: seq<Line>, k: int): Line? {
    if 0 <= k < |s| then s[k] else null
  }

  // Every line has a buffer of its own, whose place is known.
  ghost predicate PlacedIn(chain: seq<Line>, repr: set<Line>, slots: map<array<char>, nat>) {
    forall k :: 0 <= k < |chain| ==> chain[k] in repr && chain[k].buffer in slots && slots[chain[k].buffer] == k
  }

  ghost predicate LinkedIn(chain: seq<Line>, repr: set<Line>, slots: map<array<char>, nat>)
    reads repr`next, repr`prev
  {
    var linked :=
      && PlacedIn(chain, repr, slots)
      && (forall k {:trigger chain[k].next} :: 0 <= k < |chain| ==> chain[k].next == At(chain, k + 1))
      && (forall k {:trigger chain[k].prev} :: 0 <= k < |chain| ==> chain[k].prev == At(chain, k - 1));
    linked
  }

  ghost predicate ShownIn(chain: seq<Line>, views: seq<View>, repr: set<Line>, slots: map<array<char>, nat>, size: nat)
    reads repr`len, repr`number, slots.Keys
  {
    var shown :=
      && |views| == |chain| && PlacedIn(chain, repr, slots)
      && forall k :: 0 <= k < |chain| ==> chain[k].Shows(views[k], size);
    shown
  }

  lemma PlacedPut(chain: seq<Line>, repr: set<Line>, slots: map<array<char>, nat>, k: nat, n: Line)
    requires PlacedIn(chain, repr, slots) && k < |chain| && n.buffer !in slots
    ensures PlacedIn(Put(chain, k + 1, n), repr + {n}, Moved(slots, k, n.buffer))
  {
  }

  lemma ShownPut(chain: seq<Line>, views: seq<View>, repr: set<Line>, slots: map<array<char>, nat>, size: nat,
                 k: nat, n: Line, v: View)
    requires ShownIn(chain, views, repr, slots, size) && k < |chain| && n.buffer !in slots && n.Shows(v, size)
    ensures ShownIn(Put(chain, k + 1, n), Put(views, k + 1, v), repr + {n}, Moved(slots, k, n.buffer), size)
  {
    PlacedPut(chain, repr, slots, k, n);
  }

  lemma LinkedPut(chain: seq<Line>, repr: set<Line>, slots: map<array<char>, nat>, k: nat, n: Line)
    requires PlacedIn(chain, repr, slots) && k < |chain| && n.buffer !in slots
    requires n.next == At(chain, k + 1) && n.prev == chain[k]
    requires forall j {:trigger chain[j].next} :: 0 <= j < |chain| ==>
               chain[j].next == if j == k then n else At(chain, j + 1)
    requires forall j {:trigger chain[j].prev} :: 0 <= j < |chain| ==>
               chain[j].prev == if j == k + 1 then n else At(chain, j - 1)
    ensures LinkedIn(Put(chain, k + 1, n), repr + {n}, Moved(slots, k, n.buffer))
  {
    PlacedPut(chain, repr, slots, k, n);
  }

  ghost function Closing(slots: map<array<char>, nat>, k: nat): (r: map<array<char>, nat>)
    ensures r.Keys == slots.Keys
    ensures forall c :: c in slots ==> r[c] == if slots[c] > k then slots[c] - 1 else slots[c]
  {
    map c | c in slots :: if slots[c] > k then slots[c] - 1 else slots[c]
  }

  lemma PlacedCut(chain: seq<Line>, repr: set<Line>, slots: map<array<char>, nat>, k: nat)
    requires PlacedIn(chain, repr, slots) && k < |chain|
    ensures PlacedIn(Cut(chain, k), repr, Closing(slots, k))
  {
  }

  lemma ShownCut(chain: seq<Line>, views: seq<View>, repr: set<Line>, slots: map<array<char>, nat>, size: nat, k: nat)
    requires ShownIn(chain, views, repr, slots, size) && k < |chain|
    ensures ShownIn(Cut(chain, k), Cut(views, k), repr, Closing(slots, k), size)
  {
    PlacedCut(chain, repr, slots, k);
  }

  lemma LinkedCut(chain: seq<Line>, repr: set<Line>, slots: map<array<char>, nat>, k: nat)
    requires PlacedIn(chain, repr, slots) && 0 < k < |chain|
    requires forall j {:trigger chain[j].next} :: 0 <= j < |chain| && j != k ==>
               chain[j].next == if j == k - 1 then At(chain, k + 1) else At(chain, j + 1)
    requires forall j {:trigger chain[j].prev} :: 0 <= j < |chain| && j != k ==>
               chain[j].prev == if j == k + 1 then chain[k-1] else At(chain, j - 1)
    ensures LinkedIn(Cut(chain, k), repr, Closing(slots, k))
  {
    PlacedCut(chain, repr, slots, k);
  }

  class InputItem {
    const size: nat
    var numLines: int
    var lines: Line?
    var currLine: Line?
    ghost var chain: seq<Line>
    ghost var views: seq<View>
    ghost var at: nat
    ghost var repr: set<Line>
    ghost var slots: map<array<char>, nat>

    // An input area of a given width, not yet loaded.
    constructor (size: nat)
      ensures this.size == size
    {
      this.size := size;
      numLines, lines, currLine := 0, null, null;
      chain, views, at, repr, slots := [], [], 0, {}, map[];
    }

    ghost predicate Linked()
      reads this`chain, this`repr, this`slots, repr`next, repr`prev
    {
      LinkedIn(chain, repr, slots)
    }

    // A new line that is not part of the item yet.
    ghost predicate Spare(n: Line)
      reads this`repr, this`slots, n`len, n.buffer
    {
      var spare := n !in repr && n.buffer !in slots && n.Holds(Row("", false), size) && n.Blank();
      spare
    }

    ghost predicate Shown()
      reads this`chain, this`views, this`repr, this`slots, repr`len, repr`number, slots.Keys
    {
      ShownIn(chain, views, repr, slots, size)
    }

    ghost predicate Chained()
      reads this`chain, this`views, this`repr, this`slots, repr`next, repr`prev, repr`len, repr`number, slots.Keys
    {
      var chained := Linked() && Shown();
      chained
    }

    // What the item itself holds agrees with the chain.
    ghost predicate Anchored()
      reads this`numLines, this`lines, this`currLine, this`chain, this`repr, this`at
    {
      var anchored :=
        && size > 0 && |chain| > 0 && numLines == |chain|
        && lines == chain[0] && at < |chain| && currLine == chain[at] && chain[at] in repr;
      anchored
    }

    ghost predicate Valid()
      reads this, repr, slots.Keys
    {
      var valid :=
        && Anchored() && Chained() && WellWrapped(RowsOf(views), size)
        && currLine.cursor <= |views[at].row.chars|;
      valid
    }

    // The place of the text cursor in the text.
    ghost function Caret(): nat
      reads this, repr`cursor
      requires at < |views| && currLine in repr
    {
      CaretOf(views, at, currLine.cursor)
    }

    // ----- the chain of lines ---------------------------------------------------------------

    method Renumber(l: Line, ghost k: nat, d: int)
      requires Shown() && k < |chain| && l == chain[k]
      modifies this`views, l`number
      ensures Shown() && views == old(views)[k := old(views[k]).(number := old(views[k]).number + d)]
    {
      l.number := l.number + d;
      views := views[k := views[k].(number := views[k].number + d)];
    }

    // Lines k to m have their new numbers, and l is line m.
    ghost predicate Renumbering(l: Line?, was: seq<View>, k: nat, m: nat, d: int)
      reads this`chain, this`views, this`repr, this`slots, repr`next, repr`prev, repr`len, repr`number, slots.Keys
    {
      var renumbering :=
        && Chained() && k <= m <= |chain| == |was| && l == At(chain, m) && views == Renumbered(was, k, m, d);
      renumbering
    }

    method RenumberNext(l: Line, ghost was: seq<View>, ghost k: nat, ghost m: nat, d: int)
      returns (next: Line?, ghost n: nat)
      requires Renumbering(l, was, k, m, d)
      modifies this`views, repr`number
      ensures n == m + 1 <= |chain| && Renumbering(next, was, k, n, d)
    {
      RenumberedNext(was, k, m, d);
      Renumber(l, m, d);
      next, n := l.next, m + 1;
    }

    method IncLineNumbers(line: Line?, ghost k: nat)
      requires Chained() && k <= |chain| && line == At(chain, k)
      modifies this`views, repr`number
      ensures Chained() && views == Renumbered(old(views), k, |old(views)|, 1)
    {
      var l := line;
      ghost var m, was := k, views;
      RenumberedNone(was, k, 1);
      while l != null
        invariant Renumbering(l, was, k, m, 1)
        decreases |chain| - m
      {
        l, m := RenumberNext(l, was, k, m, 1);
      }
    }

    method DecLineNumbers(line: Line?, ghost k: nat)
      requires Chained() && k <= |chain| && line == At(chain, k)
      modifies this`views, repr`number
      ensures Chained() && views == Renumbered(old(views), k, |old(views)|, -1)
    {
      var l := line;
      ghost var m, was := k, views;
      RenumberedNone(was, k, -1);
      while l != null
        invariant Renumbering(l, was, k, m, -1)
        decreases |chain| - m
      {
        l, m := RenumberNext(l, was, k, m, -1);
      }
    }

    method Relink(line: Line, n: Line, ghost k: nat)
      requires Linked() && k < |chain| && line == chain[k] && n !in repr
      modifies repr`next, repr`prev, n`next, n`prev
      ensures n.next == At(chain, k + 1) && n.prev == line
      ensures forall j {:trigger chain[j].next} :: 0 <= j < |chain| ==>
                chain[j].next == if j == k then n else At(chain, j + 1)
      ensures forall j {:trigger chain[j].prev} :: 0 <= j < |chain| ==>
                chain[j].prev == if j == k + 1 then n else At(chain, j - 1)
    {
      n.next := line.next;
      n.prev := line;
      if line.next != null {
        line.next.prev := n;
      }
      line.next := n;
    }

    // Links a line after line k.
    method LinkAfter(line: Line, n: Line, ghost k: nat)
      requires Linked() && k < |chain| && line == chain[k]
      requires n !in repr && n.buffer !in slots
      modifies this`chain, this`repr, this`slots, this`numLines, repr`next, repr`prev, n`next, n`prev
      ensures Linked()
      ensures chain == Put(old(chain), k + 1, n) && repr == old(repr) + {n} && slots == Moved(old(slots), k, n.buffer)
      ensures numLines == old(numLines) + 1
    {
      ghost var c, s, h := chain, slots, repr;
      Relink(line, n, k);
      numLines := numLines + 1;
      chain, repr, slots := Put(c, k + 1, n), h + {n}, Moved(s, k, n.buffer);
      LinkedPut(c, h, s, k, n);
    }

    method RelinkBefore(line: Line, n: Line, ghost k: nat)
      requires Linked() && k + 1 < |chain| && line == chain[k+1] && n !in repr
      modifies repr`next, repr`prev, n`next, n`prev
      ensures n.next == At(chain, k + 1) && n.prev == chain[k]
      ensures forall j {:trigger chain[j].next} :: 0 <= j < |chain| ==>
                chain[j].next == if j == k then n else At(chain, j + 1)
      ensures forall j {:trigger chain[j].prev} :: 0 <= j < |chain| ==>
                chain[j].prev == if j == k + 1 then n else At(chain, j - 1)
    {
      n.next := line;
      n.prev := line.prev;
      line.prev := n;
      if n.prev != null {
        n.prev.next := n;
      }
    }

    // Links a line before line k + 1.
    method LinkBefore(line: Line, n: Line, ghost k: nat)
      requires Linked() && k + 1 < |chain| && line == chain[k+1]
      requires n !in repr && n.buffer !in slots
      modifies this`chain, this`repr, this`slots, this`numLines, repr`next, repr`prev, n`next, n`prev
      ensures Linked()
      ensures chain == Put(old(chain), k + 1, n) && repr == old(repr) + {n} && slots == Moved(old(slots), k, n.buffer)
      ensures numLines == old(numLines) + 1
    {
      ghost var c, s, h := chain, slots, repr;
      RelinkBefore(line, n, k);
      numLines := numLines + 1;
      chain, repr, slots := Put(c, k + 1, n), h + {n}, Moved(s, k, n.buffer);
      LinkedPut(c, h, s, k, n);
    }

    // Links a line with view v before line k + 1.
    method AddBefore(line: Line, n: Line, ghost k: nat, ghost v: View)
      requires Chained() && k + 1 < |chain| && line == chain[k+1]
      requires n !in repr && n.buffer !in slots && n.Shows(v, size)
      modifies this`chain, this`repr, this`views, this`slots, this`numLines, repr`next, repr`prev, n`next, n`prev
      ensures Chained()
      ensures chain == Put(old(chain), k + 1, n) && views == Put(old(views), k + 1, v)
      ensures repr == old(repr) + {n} && slots.Keys == old(slots.Keys) + {n.buffer}
      ensures numLines == old(numLines) + 1
    {
      ghost var c, s, h := chain, slots, repr;
      LinkBefore(line, n, k);
      ShownPut(c, views, h, s, size, k, n, v);
      views := Put(views, k + 1, v);
    }

    // Links a line with view v after line k.
    method AddAfter(line: Line, n: Line, ghost k: nat, ghost v: View)
      requires Chained() && k < |chain| && line == chain[k]
      requires n !in repr && n.buffer !in slots && n.Shows(v, size)
      modifies this`chain, this`repr, this`views, this`slots, this`numLines, repr`next, repr`prev, n`next, n`prev
      ensures Chained()
      ensures chain == Put(old(chain), k + 1, n) && views == Put(old(views), k + 1, v)
      ensures repr == old(repr) + {n} && slots.Keys == old(slots.Keys) + {n.buffer}
      ensures numLines == old(numLines) + 1
    {
      ghost var c, s, h := chain, slots, repr;
      LinkAfter(line, n, k);
      ShownPut(c, views, h, s, size, k, n, v);
      views := Put(views, k + 1, v);
    }

    method Bypass(line: Line, ghost k: nat)
      requires Linked() && 0 < k < |chain| && line == chain[k]
      modifies repr`next, repr`prev
      ensures forall j {:trigger chain[j].next} :: 0 <= j < |chain| && j != k ==>
                chain[j].next == if j == k - 1 then At(chain, k + 1) else At(chain, j + 1)
      ensures forall j {:trigger chain[j].prev} :: 0 <= j < |chain| && j != k ==>
                chain[j].prev == if j == k + 1 then chain[k-1] else At(chain, j - 1)
      ensures line.next == At(chain, k + 1)
    {
      line.prev.next := line.next;
      if line.next != null {
        line.next.prev := line.prev;
      }
    }

    // Takes line k out of the chain.
    method Unlink(line: Line, ghost k: nat)
      requires Chained() && 0 < k < |chain| && line == chain[k]
      modifies this`chain, this`views, this`slots, this`numLines, repr`next, repr`prev
      ensures Chained() && chain == Cut(old(chain), k) && views == Cut(old(views), k)
      ensures slots.Keys == old(slots.Keys) && numLines == old(numLines) - 1
      ensures line.next == At(chain, k)
    {
      ghost var c, s, v := chain, slots, views;
      UnlinkFrom(line, k);
      ShownCut(c, v, repr, s, size, k);
      views := Cut(v, k);
      numLines := numLines - 1;
    }

    method UnlinkFrom(line: Line, ghost k: nat)
      requires Linked() && 0 < k < |chain| && line == chain[k]
      modifies this`chain, this`slots, repr`next, repr`prev
      ensures Linked() && chain == Cut(old(chain), k) && slots == Closing(old(slots), k)
      ensures line.next == At(chain, k)
    {
      ghost var c, s := chain, slots;
      Bypass(line, k);
      LinkedCut(c, repr, s, k);
      chain, slots := Cut(c, k), Closing(s, k);
    }

    // Puts the cursor on line k.
    method Seat(line: Line, ghost k: nat)
      requires size > 0 && k < |chain| && line == chain[k] && line in repr && lines == chain[0] && numLines == |chain|
      modifies this`currLine, this`at
      ensures Anchored() && currLine == line && at == k
    {
      currLine := line;
      at := k;
    }

    // ----- typing a character ---------------------------------------------------------------

    method InsertInLine(line: Line, c: char, ghost k: nat, ghost r: Row)
      requires Shown() && k < |chain| && line == chain[k]
      requires line.cursor <= |views[k].row.chars| < size && !views[k].row.soft
      requires r == Row(InsertAt(views[k].row.chars, line.cursor, c), false)
      modifies this`views, line`len, line`cursor, line.buffer
      ensures Shown() && line.cursor == old(line.cursor) + 1
      ensures views == old(views)[k := View(r, old(views[k]).number, old(views[k]).closed || |r.chars| == size)]
    {
      line.Insert(line.cursor, c, views[k].row.chars, size);
      views := views[k := View(r, views[k].number, views[k].closed || |r.chars| == size)];
    }

    method SpillOnto(line: Line, n: Line, c: char, ghost k: nat, ghost t: string)
      requires Shown() && k < |chain| && line == chain[k]
      requires line.cursor <= |views[k].row.chars| == size && !views[k].row.soft
      requires Spare(n)
      requires size > 0 && t == InsertAt(views[k].row.chars, line.cursor, c)
      modifies this`views, line`len, line`cursor, line.buffer, n`len, n`cursor, n.buffer
      ensures Shown() && n.Shows(View(Row([t[size]], false), n.number, true), size)
      ensures views == old(views)[k := old(views[k]).(row := Row(t[..size], true))]
      ensures if old(line.cursor) >= size - 1 then n.cursor == old(line.cursor) + 1 - size
              else line.cursor == old(line.cursor) + 1
    {
      line.Spill(n, line.cursor, c, views[k].row.chars, size);
      views := views[k := views[k].(row := Row(t[..size], true))];
    }

    // A full line pushes its last character onto a new line, which is linked after it.
    method InsertInFull(line: Line, n: Line, c: char, ghost k: nat, ghost v0: seq<View>, ghost t: string)
      requires Chained() && k < |chain| && line == chain[k]
      requires line.cursor <= |views[k].row.chars| == size && !views[k].row.soft
      requires Spare(n)
      requires size > 0 && t == InsertAt(views[k].row.chars, line.cursor, c) && v0 == views
      modifies this`chain, this`repr, this`views, this`slots, this`numLines, repr`next, repr`prev, n`next, n`prev
      modifies line`len, line`cursor, line.buffer, n`len, n`cursor, n.buffer
      ensures Chained()
      ensures chain == Put(old(chain), k + 1, n) && views == SpiltViews(v0, k, t, n.number, size)
      ensures repr == old(repr) + {n} && slots.Keys == old(slots.Keys) + {n.buffer}
      ensures numLines == old(numLines) + 1
      ensures if old(line.cursor) >= size - 1 then n.cursor == old(line.cursor) + 1 - size
              else line.cursor == old(line.cursor) + 1
    {
      SpillOnto(line, n, c, k, t);
      AddAfter(line, n, k, View(Row([t[size]], false), n.number, true));
    }

    method TypeInFull(n: Line, c: char, ghost v0: seq<View>, ghost t: string)
      requires Anchored() && Chained() && currLine.cursor <= |views[at].row.chars| == size && !views[at].row.soft
      requires Spare(n)
      requires v0 == views && t == InsertAt(views[at].row.chars, currLine.cursor, c)
      modifies this`chain, this`repr, this`views, this`slots, this`numLines, this`currLine, this`at
      modifies repr`next, repr`prev, repr`len, repr`cursor, slots.Keys, n`next, n`prev, n`len, n`cursor, n.buffer
      ensures Anchored() && Chained()
      ensures views == SpiltViews(v0, old(at), t, n.number, size)
      ensures var p, k := old(currLine.cursor), old(at);
              var placed := if p < size - 1 then at == k && currLine.cursor == p + 1
                            else at == k + 1 && currLine.cursor == p + 1 - size;
              placed
      ensures repr == old(repr) + {n} && slots.Keys == old(slots.Keys) + {n.buffer}
    {
      var line, p := currLine, currLine.cursor;
      ghost var k := at;
      InsertInFull(line, n, c, k, v0, t);
      var over := p >= size - 1;
      Seat(if over then n else line, if over then k + 1 else k);
    }

    method NewLine(number: int) returns (n: Line)
      ensures fresh(n) && fresh(n.buffer) && n.Holds(Row("", false), size) && n.Blank() && n.number == number
      ensures n.next == null && n.prev == null
    {
      n := new Line(size);
      n.number := number;
      assert n.buffer[..0] == "";
    }

    lemma SettleShort(v: seq<View>, k: nat, p: nat, c: char, r: Row)
      requires WellWrapped(RowsOf(v), size) && k < |v| && p <= |v[k].row.chars| < size && !v[k].row.soft
      requires c != NUL && c != '\n' && Anchored() && Chained()
      requires r == Row(InsertAt(v[k].row.chars, p, c), false)
      requires views == v[k := View(r, v[k].number, v[k].closed || |r.chars| == size)]
      requires at == k && currLine.cursor == p + 1
      ensures Valid() && Inserts(v, CaretOf(v, k, p), c, views, Caret(), size)
    {
      TypedLineViews(v, k, p, c, size);
    }

    method InsertShort(c: char)
      requires Valid() && !views[at].row.soft && |views[at].row.chars| < size && c != NUL && c != '\n'
      modifies this`views, currLine`len, currLine`cursor, currLine.buffer
      ensures Valid() && Inserts(old(views), old(Caret()), c, views, Caret(), size)
      ensures currLine.cursor == old(currLine.cursor) + 1
    {
      ghost var v, k, p := views, at, currLine.cursor;
      ghost var r := Row(InsertAt(v[k].row.chars, p, c), false);
      InsertInLine(currLine, c, k, r);
      SettleShort(v, k, p, c, r);
    }

    lemma SettleFull(v: seq<View>, k: nat, p: nat, c: char, t: string, number: int)
      requires WellWrapped(RowsOf(v), size) && k < |v| && p <= |v[k].row.chars| == size && !v[k].row.soft
      requires c != NUL && c != '\n' && Anchored() && Chained()
      requires t == InsertAt(v[k].row.chars, p, c) && number == v[k].number + 1
      requires views == SpiltViews(Renumbered(v, k + 1, |v|, 1), k, t, number, size)
      requires var placed := if p < size - 1 then at == k && currLine.cursor == p + 1
                             else at == k + 1 && currLine.cursor == p + 1 - size;
               placed
      ensures Valid() && Inserts(v, CaretOf(v, k, p), c, views, Caret(), size)
    {
      TypedFullViews(v, k, p, c, size);
    }

    method InsertFull(n: Line, c: char)
      requires Valid() && !views[at].row.soft && |views[at].row.chars| == size && c != NUL && c != '\n'
      requires Spare(n) && n.number == currLine.number + 1
      modifies this, repr, slots.Keys, n, n.buffer
      ensures Valid() && Inserts(old(views), old(Caret()), c, views, Caret(), size)
      ensures SeatedAfter(old(at), old(currLine.cursor), true)
      ensures repr == old(repr) + {n} && slots.Keys == old(slots.Keys) + {n.buffer}
    {
      ghost var v, k, p, number := views, at, currLine.cursor, n.number;
      ghost var t := InsertAt(v[k].row.chars, p, c);
      assert number == v[k].number + 1;
      IncLineNumbers(currLine.next, at + 1);
      TypeInFull(n, c, views, t);
      SettleFull(v, k, p, c, t, number);
    }

    // The cursor goes on by a column, or to the line that a full one spilt onto.
    ghost predicate SeatedAfter(k: nat, p: nat, full: bool)
      reads this`at, this`currLine, this`repr, repr`cursor
    {
      && currLine in repr
      && if full && p >= size - 1 then at == k + 1 && currLine.cursor == p + 1 - size
         else at == k && currLine.cursor == p + 1
    }

    // insert_buffer on a line that does not wrap: the character comes in at the cursor.
    method InsertBuffer(c: char)
      requires Valid() && !views[at].row.soft && c != NUL && c != '\n'
      modifies this, repr, slots.Keys
      ensures Valid() && Inserts(old(views), old(Caret()), c, views, Caret(), size)
      ensures SeatedAfter(old(at), old(currLine.cursor), old(|views[at].row.chars| == size))
      ensures fresh(repr - old(repr)) && fresh(slots.Keys - old(slots.Keys))
    {
      if currLine.len < size {
        InsertShort(c);
      } else {
        InsertAnew(c);
      }
    }

    method InsertAnew(c: char)
      requires Valid() && !views[at].row.soft && |views[at].row.chars| == size && c != NUL && c != '\n'
      modifies this, repr, slots.Keys
      ensures Valid() && Inserts(old(views), old(Caret()), c, views, Caret(), size)
      ensures SeatedAfter(old(at), old(currLine.cursor), true)
      ensures fresh(repr - old(repr)) && fresh(slots.Keys - old(slots.Keys))
    {
      var n := NewLine(currLine.number + 1);
      InsertFull(n, c);
    }

    // ----- Return ---------------------------------------------------------------------------

    method CarryOnto(line: Line, n: Line, ghost k: nat, ghost s: string)
      requires Shown() && k < |chain| && line == chain[k]
      requires views[k].row == Row(s, false) && line.cursor <= |s|
      requires Spare(n)
      modifies this`views, line`len, line.buffer, n`len, n`cursor, n.buffer
      ensures Shown() && n.Shows(View(Row(s[line.cursor..], false), n.number, true), size) && n.cursor == 0
      ensures forall j :: line.cursor < j < line.buffer.Length ==> line.buffer[j] == old(line.buffer[j])
      ensures views == old(views)[k := View(Row(s[..line.cursor], false), old(views[k]).number, true)]
    {
      Carry(line, n, line.cursor, s, size);
      views := views[k := View(Row(s[..line.cursor], false), views[k].number, true)];
    }

    // The cells of a line past column p are what they were.
    ghost predicate Uncut(line: Line, p: nat, cells: seq<char>)
      reads line.buffer
    {
      |cells| == line.buffer.Length && forall j :: p < j < |cells| ==> line.buffer[j] == cells[j]
    }

    method BreakLine(n: Line, ghost v0: seq<View>, ghost s: string)
      requires Anchored() && Chained() && views[at].row == Row(s, false) && currLine.cursor <= |s|
      requires Spare(n) && v0 == views
      modifies this`chain, this`repr, this`views, this`slots, this`numLines, this`currLine, this`at
      modifies repr`next, repr`prev, repr`len, currLine.buffer, n`next, n`prev, n`len, n`cursor, n.buffer
      ensures Anchored() && Chained() && at == old(at) + 1 && currLine == n && n.cursor == 0
      ensures chain == Put(old(chain), old(at) + 1, n)
      ensures views == BrokenViews(v0, old(at), s, old(currLine.cursor), n.number)
      ensures Uncut(old(currLine), old(currLine.cursor), old(currLine.buffer[..]))
      ensures repr == old(repr) + {n} && slots.Keys == old(slots.Keys) + {n.buffer}
    {
      var line, p := currLine, currLine.cursor;
      ghost var k := at;
      CarryOnto(line, n, k, s);
      LinkCarried(line, n, k, View(Row(s[p..], false), n.number, true));
    }

    // Links a line after that of the cursor, which moves there.
    method LinkCarried(line: Line, n: Line, ghost k: nat, ghost v: View)
      requires Anchored() && Chained() && k == at && line == chain[k]
      requires n !in repr && n.buffer !in slots && n.Shows(v, size)
      modifies this`chain, this`repr, this`views, this`slots, this`numLines, this`currLine, this`at
      modifies repr`next, repr`prev, n`next, n`prev
      ensures Anchored() && Chained() && at == k + 1 && currLine == n
      ensures chain == Put(old(chain), k + 1, n) && k < |old(views)| && views == Put(old(views), k + 1, v)
      ensures repr == old(repr) + {n} && slots.Keys == old(slots.Keys) + {n.buffer}
    {
      AddAfter(line, n, k, v);
      Seat(n, k + 1);
    }

    lemma SettleBroken(v: seq<View>, k: nat, p: nat, b: seq<View>, number: int)
      requires WellWrapped(RowsOf(v), size) && k < |v| && 0 < p <= |v[k].row.chars| && !v[k].row.soft
      requires Anchored() && Chained() && number == v[k].number + 1
      requires b == BrokenViews(v, k, v[k].row.chars, p, number) && views == Renumbered(b, k + 2, |b|, 1)
      requires at == k + 1 && currLine.cursor == 0
      ensures Valid() && Inserts(v, CaretOf(v, k, p), '\n', views, Caret(), size)
    {
      BrokenViewsText(v, k, p, size);
    }

    // Return on a line that does not wrap. The cells past the cursor stay as they were.
    method EnterHard(n: Line)
      requires Valid() && !views[at].row.soft && currLine.cursor > 0
      requires Spare(n) && n.number == currLine.number + 1
      modifies this, repr`next, repr`prev, repr`len, repr`number, currLine.buffer, n, n.buffer
      ensures Valid() && Inserts(old(views), old(Caret()), '\n', views, Caret(), size)
      ensures Uncut(old(currLine), old(currLine.cursor), old(currLine.buffer[..]))
      ensures chain == Put(old(chain), old(at) + 1, n) && at == old(at) + 1 && currLine.cursor == 0
      ensures repr == old(repr) + {n} && slots.Keys == old(slots.Keys) + {n.buffer}
    {
      ghost var v, k, p, number := views, at, currLine.cursor, n.number;
      assert number == v[k].number + 1;
      BreakLine(n, v, v[k].row.chars);
      ghost var b := views;
      IncLineNumbers(n.next, k + 2);
      SettleBroken(v, k, p, b, number);
    }

    method HardenLine(line: Line, ghost k: nat, ghost s: string)
      requires Shown() && k < |chain| && line == chain[k] && views[k].row == Row(s, true)
      modifies this`views, line`len, line.buffer
      ensures Shown() && views == old(views)[k := View(Row(s, false), old(views[k]).number, true)]
    {
      line.Harden(s, size);
      views := views[k := View(Row(s, false), views[k].number, true)];
    }

    // Return at the front of a line that continues another.
    method EnterAtWrap()
      requires Valid() && at > 0 && views[at-1].row.soft && currLine.cursor == 0
      modifies this`views, currLine.prev`len, currLine.prev.buffer
      ensures Valid() && Inserts(old(views), old(Caret()), '\n', views, Caret(), size)
    {
      HardenedViews(views, at, size);
      HardenLine(currLine.prev, at - 1, views[at-1].row.chars);
    }

    method BlankLine(n: Line, ghost v0: seq<View>)
      requires Anchored() && Chained() && at > 0 && v0 == views
      requires Spare(n)
      modifies this`chain, this`repr, this`views, this`slots, this`numLines, this`currLine, this`at
      modifies repr`next, repr`prev, n`next, n`prev
      ensures Anchored() && Chained() && at == old(at) + 1 && currLine == old(currLine) && n.next == currLine
      ensures views == Put(v0, old(at), View(Row("", false), n.number, true))
      ensures repr == old(repr) + {n} && slots.Keys == old(slots.Keys) + {n.buffer}
    {
      var line := currLine;
      ghost var k := at;
      AddBefore(line, n, k - 1, View(Row("", false), n.number, true));
      Seat(line, k + 1);
      assert chain[k] == n && chain[k+1] == line;
    }

    lemma SettleBlank(v: seq<View>, k: nat, b: seq<View>, number: int)
      requires WellWrapped(RowsOf(v), size) && k < |v| && (k > 0 ==> !v[k-1].row.soft)
      requires Anchored() && Chained() && number == v[k].number
      requires b == Put(v, k, View(Row("", false), number, true)) && views == Renumbered(b, k + 1, |b|, 1)
      requires at == k + 1 && currLine.cursor == 0
      ensures Valid() && Inserts(v, CaretOf(v, k, 0), '\n', views, Caret(), size)
    {
      BlankViewsText(v, k, size);
    }

    // Return at the front of a line that begins a paragraph, but not of the first.
    method EnterBlank(n: Line)
      requires Valid() && at > 0 && !views[at-1].row.soft && currLine.cursor == 0
      requires Spare(n) && n.number == currLine.number
      modifies this, repr, slots.Keys, n, n.buffer
      ensures Valid() && Inserts(old(views), old(Caret()), '\n', views, Caret(), size)
      ensures at == old(at) + 1 && currLine == old(currLine) && currLine.cursor == 0
      ensures repr == old(repr) + {n} && slots.Keys == old(slots.Keys) + {n.buffer}
    {
      ghost var v, k, number := views, at, n.number;
      assert number == v[k].number;
      BlankLine(n, v);
      ghost var b := views;
      assert b == Put(v, k, View(Row("", false), number, true));
      IncLineNumbers(n.next, k + 1);
      SettleBlank(v, k, b, number);
    }
  }
}
