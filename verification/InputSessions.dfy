// Runs over sequences of editing keys (src/hyper/dialog.c).
module InputSessions {
  import opened Characters
  import opened InputText
  import opened InputEdits
  import opened InputViews
  import opened InputLines
  import opened InputDeletion
  import opened InputSlipping
  import opened InputJoining
  import opened InputBreaking
  import opened InputEditing
  import opened InputLoading

  datatype Key = Letter(c: char) | Return | Delete | Backspace

  // ----- what the keys stand for -----------------------------------------------------------------

  // A text that ends in a newline, and a place in it.
  datatype Editor = Editor(text: string, caret: nat) {
    predicate Valid() {
      caret < |text|
    }

    function Press(key: Key): (e: Editor)
      requires Valid()
      ensures e.Valid()
    {
      match key
      case Letter(c) => Editor(InsertAt(text, caret, c), caret + 1)
      case Return => Editor(InsertAt(text, caret, '\n'), caret + 1)
      case Delete => if caret + 1 < |text| then Editor(RemoveAt(text, caret), caret) else this
      case Backspace => if caret > 0 then Editor(RemoveAt(text, caret - 1), caret - 1) else this
    }

    // The first n keys, one after the other.
    function PressAll(keys: seq<Key>, n: nat): (e: Editor)
      requires Valid() && n <= |keys|
      ensures e.Valid()
    {
      if n == 0 then this else PressAll(keys, n - 1).Press(keys[n-1])
    }
  }

  ghost function Reading(v: seq<View>, k: nat, p: nat): Editor
    requires k < |v|
  {
    Editor(TextOf(v), CaretOf(v, k, p))
  }

  lemma FromNotEmpty(rows: seq<Row>, k: nat, size: nat)
    requires WellWrapped(rows, size) && k < |rows|
    ensures From(rows, k) != ""
  {
  }

  // The caret is before the end of the text, and by more than one if the line goes on or
  // another one follows.
  lemma CaretInText(v: seq<View>, k: nat, p: nat, size: nat)
    requires WellWrapped(RowsOf(v), size) && k < |v| && p <= |v[k].row.chars|
    ensures Reading(v, k, p).Valid()
    ensures p < |v[k].row.chars| || k + 1 < |v| ==>
              CaretOf(v, k, p) + 1 < |TextOf(v)| || (v[k].row.soft && p == |v[k].row.chars|)
    ensures p == |v[k].row.chars| && k + 1 == |v| ==> CaretOf(v, k, p) + 1 == |TextOf(v)|
    ensures CaretOf(v, k, p) == 0 <==> k == 0 && p == 0
  {
    var rows := RowsOf(v);
    assert rows[k] == v[k].row;
    SplitText(rows, k);
    if k + 1 < |v| {
      FromNotEmpty(rows, k + 1, size);
    }
    if k > 0 {
      assert rows[k-1].soft ==> |rows[k-1].chars| == size;
    }
  }

  // ----- when a key does what it stands for ---------------------------------------------------------

  // The key is one that the editing methods cover at line k and column p.
  ghost predicate Covers(v: seq<View>, k: nat, p: nat, key: Key, size: nat)
    requires k < |v| && WellWrapped(RowsOf(v), size)
  {
    var soft, s := v[k].row.soft, v[k].row.chars;
    match key
    case Letter(c) => !soft && c != NUL && c != '\n'
    case Return => (k == 0 ==> p > 0) && (soft && p > 0 ==> p < size && |ParaText(RowsOf(v), k)| - p < 1024)
    case Delete => p < |s| || soft || (k + 1 < |v| ==> |ParaText(RowsOf(v), k + 1)| < 1024)
    case Backspace =>
      p > 0 || k == 0 ||
      (if v[k-1].row.soft then soft ==> size > 1 else |ParaText(RowsOf(PulledFirst(v, k, size)), k)| < 1024)
  }

  // And the conditions hold under which they leave the text, the wrapping and the caret that
  // it stands for.
  ghost predicate Works(v: seq<View>, k: nat, p: nat, key: Key, size: nat)
    requires k < |v|
  {
    var soft, s := v[k].row.soft, v[k].row.chars;
    match key
    case Letter(c) => !soft && c != NUL && c != '\n'
    case Return => (k == 0 ==> p > 0) && (soft && p > 0 ==> p < size && |ParaText(RowsOf(v), k)| - p < 1024)
    case Delete =>
      if p < |s| || soft then Ample(v, k) && !Empties(v, k) && (0 < p == |s| ==> Twins(v, k))
      else k + 1 < |v| ==> |ParaText(RowsOf(v), k + 1)| < 1024
    case Backspace =>
      if p > 0 then Ample(v, k) && !Empties(v, k)
      else if k == 0 then !soft
      else if v[k-1].row.soft then
        Ample(v, k - 1) && (soft ==> 1 < size == |s| && s[size-2] == s[size-1])
      else !soft && |ParaText(RowsOf(v), k)| < 1024
  }

  // The last character of line k and the first of the next are the same, so that it does not
  // matter which of them goes.
  ghost predicate Twins(v: seq<View>, k: nat)
    requires k < |v|
  {
    var s := v[k].row.chars;
    k + 1 < |v| && s != "" && v[k+1].row.chars != "" && s[|s|-1] == v[k+1].row.chars[0]
  }

  lemma WorksIsCovered(v: seq<View>, k: nat, p: nat, key: Key, size: nat)
    requires k < |v| && WellWrapped(RowsOf(v), size) && Works(v, k, p, key, size)
    ensures Covers(v, k, p, key, size)
  {
  }

  // ----- one key -----------------------------------------------------------------------------------------

  method PressLetter(sym: InputItem, c: char)
    requires sym.Valid() && Works(sym.views, sym.at, sym.currLine.cursor, Letter(c), sym.size)
    modifies sym, sym.repr, sym.slots.Keys
    ensures Pressed(sym, old(sym.views), old(sym.at), old(sym.currLine.cursor), Letter(c))
    ensures fresh(sym.repr - old(sym.repr)) && fresh(sym.slots.Keys - old(sym.slots.Keys))
  {
    CaretInText(sym.views, sym.at, sym.currLine.cursor, sym.size);
    sym.InsertBuffer(c);
  }

  // The area is valid, and reads as it should after the key.
  ghost predicate Pressed(sym: InputItem, v: seq<View>, k: nat, p: nat, key: Key)
    reads sym, sym.repr, sym.slots.Keys
  {
    var pressed :=
      && sym.Valid() && k < |v| && Reading(v, k, p).Valid()
      && Reading(sym.views, sym.at, sym.currLine.cursor) == Reading(v, k, p).Press(key);
    pressed
  }

  method PressReturn(sym: InputItem)
    requires sym.Valid() && Works(sym.views, sym.at, sym.currLine.cursor, Return, sym.size)
    modifies sym, sym.repr, sym.slots.Keys
    ensures Pressed(sym, old(sym.views), old(sym.at), old(sym.currLine.cursor), Return)
    ensures fresh(sym.repr - old(sym.repr)) && fresh(sym.slots.Keys - old(sym.slots.Keys))
  {
    CaretInText(sym.views, sym.at, sym.currLine.cursor, sym.size);
    ghost var n := EnterNewLine(sym);
  }

  // ----- exactly when Delete and Backspace do what they stand for ---------------------------------

  lemma RemoveTwin(t: string, o: nat)
    requires o + 1 < |t|
    ensures RemoveAt(t, o) == RemoveAt(t, o + 1) <==> t[o] == t[o+1]
  {
    assert RemoveAt(t, o)[o] == t[o+1] && RemoveAt(t, o + 1)[o] == t[o];
    if t[o] == t[o+1] {
      assert t[..o+1] == t[..o] + [t[o]] && t[o+1..] == [t[o+1]] + t[o+2..];
    }
  }

  // The characters on both sides of a wrap.
  lemma AroundWrap(v: seq<View>, k: nat, size: nat)
    requires WellWrapped(RowsOf(v), size) && k < |v| && v[k].row.soft
    ensures k + 1 < |v| && v[k+1].row.chars != "" && |v[k].row.chars| == size > 0
    ensures var c := CaretOf(v, k, size);
            && 0 < c < |TextOf(v)| - 1 && TextOf(v)[c-1] == v[k].row.chars[size-1]
            && TextOf(v)[c] == v[k+1].row.chars[0]
  {
    var rows := RowsOf(v);
    assert rows[k] == v[k].row && rows[k+1] == v[k+1].row;
    SplitText(rows, k);
    StartsWith(rows, k + 1, size);
    AroundJoint(Before(rows, k), rows[k].chars, From(rows, k + 1));
  }

  lemma StartsWith(rows: seq<Row>, k: nat, size: nat)
    requires WellWrapped(rows, size) && k < |rows| && rows[k].chars != ""
    ensures |From(rows, k)| > 1 && From(rows, k)[0] == rows[k].chars[0]
  {
    if rows[k].soft {
      FromNotEmpty(rows, k + 1, size);
    }
  }

  lemma AroundJoint(before: string, s: string, rest: string)
    requires s != "" && rest != ""
    ensures var t, c := before + (s + "" + rest), |before| + |s|;
            c < |t| && |t| == c + |rest| && t[c-1] == s[|s|-1] && t[c] == rest[0]
  {
  }

  // The place of the character that Delete removes.
  ghost function Place(v: seq<View>, k: nat, p: nat, size: nat): int
    requires k < |v|
  {
    CaretOf(v, k, p) - if p == size then 1 else 0
  }

  // What Delete is known to do within a line comes to what it stands for exactly when it works.
  lemma DeleteExactly(v: seq<View>, k: nat, p: nat, o: nat, w: seq<View>, size: nat)
    requires WellWrapped(RowsOf(v), size) && k < |v| && p <= |v[k].row.chars|
    requires p < |v[k].row.chars| || v[k].row.soft
    requires o == Place(v, k, p, size) && Removes(v, k, o, w, size)
    ensures Reading(v, k, p).Valid()
    ensures Works(v, k, p, Delete, size) <==>
              && WellWrapped(RowsOf(w), size)
              && Editor(TextOf(w), CaretOf(v, k, p)) == Reading(v, k, p).Press(Delete)
  {
    CaretInText(v, k, p, size);
    assert RowsOf(v)[k] == v[k].row;
    if p == size {
      DeleteBehind(v, k, o, w, size);
    }
  }

  // After the last column of a line that wraps, Delete takes the character before the cursor,
  // which is as good as the one after it when they are the same.
  lemma DeleteBehind(v: seq<View>, k: nat, o: nat, w: seq<View>, size: nat)
    requires WellWrapped(RowsOf(v), size) && k < |v| && v[k].row.soft
    requires o == CaretOf(v, k, size) - 1 && Removes(v, k, o, w, size)
    ensures o + 2 < |TextOf(v)|
    ensures TextOf(w) == RemoveAt(TextOf(v), o + 1) <==> Ample(v, k) && Twins(v, k)
  {
    AroundWrap(v, k, size);
    RemoveTwin(TextOf(v), o);
    LostLength(TextOf(v), o, EndOf(v, k), Ample(v, k), TextOf(w));
  }

  lemma LostLength(t: string, o: nat, e: nat, ample: bool, u: string)
    requires Loses(t, o, e, ample, u)
    ensures |u| == |t| - if ample then 1 else 0
  {
  }

  method PressDelete(sym: InputItem)
    requires sym.Valid() && Covers(sym.views, sym.at, sym.currLine.cursor, Delete, sym.size)
    modifies sym, sym.repr, sym.slots.Keys
    ensures Pressed(sym, old(sym.views), old(sym.at), old(sym.currLine.cursor), Delete) <==>
            old(Works(sym.views, sym.at, sym.currLine.cursor, Delete, sym.size))
    ensures sym.repr == old(sym.repr) && sym.slots.Keys == old(sym.slots.Keys)
  {
    ghost var v, k, p, size := sym.views, sym.at, sym.currLine.cursor, sym.size;
    CaretInText(v, k, p, size);
    var done;
    ghost var o;
    done, o := DeleteOneChar(sym);
    if p < |v[k].row.chars| || v[k].row.soft {
      DeleteExactly(v, k, p, o, sym.views, size);
    }
  }

  // What Backspace is known to do comes to what it stands for exactly when it works.
  lemma BackspaceExactly(v: seq<View>, k: nat, p: nat, o: int, done: bool, w: seq<View>, now: nat, size: nat,
                         shut: bool)
    requires WellWrapped(RowsOf(v), size) && k < |v| && p <= |v[k].row.chars| && Covers(v, k, p, Backspace, size)
    requires if p > 0 then 0 <= o == CaretOf(v, k, p) - 1 == now && Removes(v, k, o, w, size)
             else WellWrapped(RowsOf(w), size) && BacksFromFront(v, k, o, CaretOf(v, k, p), done, w, now, size, shut)
    ensures Reading(v, k, p).Valid()
    ensures Works(v, k, p, Backspace, size) <==>
              WellWrapped(RowsOf(w), size) && Editor(TextOf(w), now) == Reading(v, k, p).Press(Backspace)
  {
    CaretInText(v, k, p, size);
    if p == 0 {
      BackAtFrontExactly(v, k, o, done, w, now, size, shut);
    }
  }

  lemma BackAtFrontExactly(v: seq<View>, k: nat, o: int, done: bool, w: seq<View>, now: nat, size: nat, shut: bool)
    requires WellWrapped(RowsOf(v), size) && k < |v| && Covers(v, k, 0, Backspace, size)
    requires BacksFromFront(v, k, o, CaretOf(v, k, 0), done, w, now, size, shut) && Reading(v, k, 0).Valid()
    ensures Works(v, k, 0, Backspace, size) <==> Editor(TextOf(w), now) == Reading(v, k, 0).Press(Backspace)
  {
    CaretInText(v, k, 0, size);
    if k > 0 {
      BackBeforeExactly(v, k, o, w, size, shut);
    }
  }

  lemma BackBeforeExactly(v: seq<View>, k: nat, o: nat, w: seq<View>, size: nat, shut: bool)
    requires WellWrapped(RowsOf(v), size) && 0 < k < |v| && Covers(v, k, 0, Backspace, size)
    requires if v[k-1].row.soft then BacksAcross(v, k, o, w, size) else BacksOnto(v, k, o, w, size, shut)
    ensures o < |TextOf(v)|
    ensures Works(v, k, 0, Backspace, size) <==> TextOf(w) == RemoveAt(TextOf(v), o)
  {
    if v[k-1].row.soft {
      AcrossExactly(v, k, o, w, size);
    } else {
      OntoExactly(v, k, o, w, size, shut);
    }
  }

  lemma AcrossExactly(v: seq<View>, k: nat, o: nat, w: seq<View>, size: nat)
    requires WellWrapped(RowsOf(v), size) && 0 < k < |v| && v[k-1].row.soft && BacksAcross(v, k, o, w, size)
    ensures o < |TextOf(v)|
    ensures Works(v, k, 0, Backspace, size) <==> TextOf(w) == RemoveAt(TextOf(v), o)
  {
  }

  lemma OntoExactly(v: seq<View>, k: nat, o: nat, w: seq<View>, size: nat, shut: bool)
    requires WellWrapped(RowsOf(v), size) && 0 < k < |v| && !v[k-1].row.soft && BacksOnto(v, k, o, w, size, shut)
    requires Covers(v, k, 0, Backspace, size)
    ensures o < |TextOf(v)|
    ensures Works(v, k, 0, Backspace, size) <==> TextOf(w) == RemoveAt(TextOf(v), o)
  {
  }

  method PressBackspace(sym: InputItem)
    requires sym.Valid() && Covers(sym.views, sym.at, sym.currLine.cursor, Backspace, sym.size)
    modifies sym, sym.repr, sym.slots.Keys
    ensures Pressed(sym, old(sym.views), old(sym.at), old(sym.currLine.cursor), Backspace) <==>
            old(Works(sym.views, sym.at, sym.currLine.cursor, Backspace, sym.size))
    ensures sym.repr == old(sym.repr) && sym.slots.Keys == old(sym.slots.Keys)
  {
    ghost var v, k, p, shut := sym.views, sym.at, sym.currLine.cursor, ShutBefore(sym);
    var done;
    ghost var o;
    done, o := MoveBackOneChar(sym);
    BackspaceExactly(v, k, p, o, done, sym.views, sym.Caret(), sym.size, shut);
  }

  // ----- telling whether a key works -----------------------------------------------------------------------

  // How long the rest of a paragraph is, and its last line.
  method Measure(sym: InputItem, line: Line, ghost k: nat) returns (length: nat, tail: nat)
    requires sym.Chained() && WellWrapped(RowsOf(sym.views), sym.size) && k < |sym.chain| && line == sym.chain[k]
    ensures k < |sym.views|
    ensures length == |ParaText(RowsOf(sym.views), k)| && tail == TailLength(RowsOf(sym.views), k)
  {
    ghost var rows, m := RowsOf(sym.views), k;
    var l: Line := line;
    length := 0;
    LineBuffers(sym, k);
    while l.len > sym.size
      invariant m < |sym.chain| == |rows| && l == sym.chain[m] && Measured(rows, k, m, length)
      decreases |sym.chain| - m
    {
      MeasuredLine(sym, m);
      length := length + sym.size;
      l, m := l.next, m + 1;
    }
    MeasuredLine(sym, m);
    length := length + l.len;
    tail := l.len;
  }

  // length is what the lines k to m of a paragraph add up to.
  ghost predicate Measured(rows: seq<Row>, k: nat, m: nat, length: nat)
    requires k < |rows| && m < |rows|
  {
    var measured :=
      length + |ParaText(rows, m)| == |ParaText(rows, k)| && TailLength(rows, m) == TailLength(rows, k);
    measured
  }

  lemma MeasuredLine(sym: InputItem, m: nat)
    requires sym.Chained() && WellWrapped(RowsOf(sym.views), sym.size) && m < |sym.chain|
    ensures |sym.views| == |sym.chain|
    ensures var rows, line := RowsOf(sym.views), sym.chain[m];
            if line.len > sym.size then
              && m + 1 < |sym.chain| && line.next == sym.chain[m+1] && TailLength(rows, m) == TailLength(rows, m + 1)
              && |ParaText(rows, m)| == sym.size + |ParaText(rows, m + 1)|
            else
              |ParaText(rows, m)| == line.len && TailLength(rows, m) == line.len
  {
    LineText(sym, m);
    RowIsHeld(sym, m);
    assert RowsOf(sym.views)[m] == sym.views[m].row;
  }

  // Whether the line of the cursor wraps, and the one before it into this one.
  method Wraps(sym: InputItem) returns (soft: bool, back: bool, first: bool)
    requires sym.Valid()
    ensures soft == sym.views[sym.at].row.soft && first == (sym.at == 0)
    ensures sym.currLine.len == if soft then sym.size + 1 else |sym.views[sym.at].row.chars|
    ensures back == (sym.at > 0 && sym.views[sym.at-1].row.soft)
  {
    RowIsHeld(sym, sym.at);
    StartsText(sym, sym.at);
    soft, first := sym.currLine.len > sym.size, sym.currLine.prev == null;
    back := false;
    if !first {
      PrevLine(sym, sym.at);
      back := sym.currLine.prev.len > sym.size;
    }
  }

  method CanReturn(sym: InputItem) returns (works: bool)
    requires sym.Valid()
    ensures works == Works(sym.views, sym.at, sym.currLine.cursor, Return, sym.size)
  {
    var soft, back, first := Wraps(sym);
    var p := sym.currLine.cursor;
    works := !first || p > 0;
    if works && soft && p > 0 {
      var length, tail := Measure(sym, sym.currLine, sym.at);
      works := p < sym.size && length - p < 1024;
    }
  }

  method CanDelete(sym: InputItem) returns (works: bool)
    requires sym.Valid()
    ensures works == Works(sym.views, sym.at, sym.currLine.cursor, Delete, sym.size)
  {
    var soft, back, first := Wraps(sym);
    var line, p := sym.currLine, sym.currLine.cursor;
    if soft {
      var length, tail := Measure(sym, line, sym.at);
      var twins := AreTwins(sym);
      works := tail >= 2 && (p < sym.size || twins);
    } else if p < line.len {
      works := !(back && line.len == 1);
    } else {
      LineBuffers(sym, sym.at);
      works := true;
      if line.next != null {
        var length, tail := Measure(sym, line.next, sym.at + 1);
        works := length < 1024;
      }
    }
  }

  method AreTwins(sym: InputItem) returns (twins: bool)
    requires sym.Valid() && sym.views[sym.at].row.soft
    ensures twins == Twins(sym.views, sym.at) && |sym.views[sym.at].row.chars| == sym.size
  {
    NextIsHeld(sym, sym.at);
    LineHolds(sym, sym.at);
    RowIsHeld(sym, sym.at);
    twins := sym.currLine.buffer[sym.size-1] == sym.currLine.next.buffer[0];
  }

  method CanBackspace(sym: InputItem) returns (works: bool)
    requires sym.Valid()
    ensures works == Works(sym.views, sym.at, sym.currLine.cursor, Backspace, sym.size)
  {
    var soft, back, first := Wraps(sym);
    var line := sym.currLine;
    var length, tail := Measure(sym, line, sym.at);
    if line.cursor > 0 {
      works := if soft then tail >= 2 else !(back && line.len == 1);
    } else if first {
      works := !soft;
    } else if back {
      TailBehind(sym.views, sym.at, sym.size);
      LineHolds(sym, sym.at);
      works := tail >= 2 && (!soft || (sym.size > 1 && line.buffer[sym.size-2] == line.buffer[sym.size-1]));
    } else {
      works := !soft && length < 1024;
    }
  }

  lemma TailBehind(v: seq<View>, k: nat, size: nat)
    requires WellWrapped(RowsOf(v), size) && 0 < k < |v| && v[k-1].row.soft
    ensures TailLength(RowsOf(v), k - 1) == TailLength(RowsOf(v), k)
    ensures v[k].row.soft ==> |v[k].row.chars| == size
  {
    assert RowsOf(v)[k-1] == v[k-1].row && RowsOf(v)[k] == v[k].row;
  }

  method CanPress(sym: InputItem, key: Key) returns (works: bool)
    requires sym.Valid()
    ensures works == Works(sym.views, sym.at, sym.currLine.cursor, key, sym.size)
  {
    match key
    case Letter(c) =>
      var soft, back, first := Wraps(sym);
      works := !soft && c != NUL && c != '\n';
    case Return =>
      works := CanReturn(sym);
    case Delete =>
      works := CanDelete(sym);
    case Backspace =>
      works := CanBackspace(sym);
  }

  // ----- sessions --------------------------------------------------------------------------------------------

  // A key that the editing methods cover does what it stands for exactly when it works.
  method Press(sym: InputItem, key: Key)
    requires sym.Valid() && Covers(sym.views, sym.at, sym.currLine.cursor, key, sym.size)
    modifies sym, sym.repr, sym.slots.Keys
    ensures Pressed(sym, old(sym.views), old(sym.at), old(sym.currLine.cursor), key) <==>
            old(Works(sym.views, sym.at, sym.currLine.cursor, key, sym.size))
    ensures fresh(sym.repr - old(sym.repr)) && fresh(sym.slots.Keys - old(sym.slots.Keys))
  {
    match key
    case Letter(c) =>
      PressLetter(sym, c);
    case Return =>
      PressReturn(sym);
    case Delete =>
      PressDelete(sym);
    case Backspace =>
      PressBackspace(sym);
  }

  // The area reads as e, and its rows are the only ones with that text.
  ghost predicate Reads(sym: InputItem, e: Editor)
    reads sym, sym.repr, sym.slots.Keys
  {
    && sym.Valid() && Reading(sym.views, sym.at, sym.currLine.cursor) == e
    && forall rows :: WellWrapped(rows, sym.size) && Text(rows) == e.text ==> rows == RowsOf(sym.views)
  }

  lemma ReadsAs(sym: InputItem, e: Editor)
    requires sym.Valid() && Reading(sym.views, sym.at, sym.currLine.cursor) == e
    ensures e.Valid() && Reads(sym, e)
  {
    CaretInText(sym.views, sym.at, sym.currLine.cursor, sym.size);
    forall rows | WellWrapped(rows, sym.size) && Text(rows) == e.text
      ensures rows == RowsOf(sym.views)
    {
      OneLayout(rows, RowsOf(sym.views), sym.size);
    }
  }

  // The first n keys have been pressed.
  ghost predicate Edited(sym: InputItem, start: Editor, keys: seq<Key>, n: nat)
    reads sym, sym.repr, sym.slots.Keys
  {
    var edited :=
      && n <= |keys| && start.Valid() && sym.Valid()
      && Reading(sym.views, sym.at, sym.currLine.cursor) == start.PressAll(keys, n);
    edited
  }

  lemma EditedNext(sym: InputItem, start: Editor, keys: seq<Key>, n: nat, m: nat, v: seq<View>, k: nat, p: nat)
    requires n < |keys| && m == n + 1 && start.Valid() && Pressed(sym, v, k, p, keys[n])
    requires k < |v| && Reading(v, k, p) == start.PressAll(keys, n)
    ensures Edited(sym, start, keys, m)
  {
  }

  method PressNext(sym: InputItem, keys: seq<Key>, n: nat, ghost start: Editor) returns (m: nat)
    requires n < |keys| && Edited(sym, start, keys, n)
    requires Works(sym.views, sym.at, sym.currLine.cursor, keys[n], sym.size)
    modifies sym, sym.repr, sym.slots.Keys
    ensures m == n + 1 && Edited(sym, start, keys, m)
    ensures fresh(sym.repr - old(sym.repr)) && fresh(sym.slots.Keys - old(sym.slots.Keys))
  {
    m := n + 1;
    ghost var v, k, p := sym.views, sym.at, sym.currLine.cursor;
    WorksIsCovered(v, k, p, keys[n], sym.size);
    Press(sym, keys[n]);
    EditedNext(sym, start, keys, n, m, v, k, p);
  }

  // Presses keys until one would not do what it stands for, which the source does not look
  // for: up to there the text and the caret are those of the keys, and the rows those of the
  // text.
  method PressFrom(sym: InputItem, keys: seq<Key>, from: nat, ghost start: Editor) returns (n: nat)
    requires Edited(sym, start, keys, from)
    modifies sym, sym.repr, sym.slots.Keys
    ensures from <= n <= |keys| && start.Valid() && Reads(sym, start.PressAll(keys, n))
    ensures n < |keys| ==> !Works(sym.views, sym.at, sym.currLine.cursor, keys[n], sym.size)
    decreases |keys| - from
  {
    n := from;
    ReadsAs(sym, start.PressAll(keys, n));
    if n < |keys| {
      var works := CanPress(sym, keys[n]);
      if works {
        n := PressNext(sym, keys, n, start);
        n := PressFrom(sym, keys, n, start);
      }
    }
  }

  // A text is loaded and edited.
  method LoadAndEdit(sym: InputItem, s: string, keys: seq<Key>) returns (n: nat)
    requires sym.size > 0 && NUL !in s
    modifies sym
    ensures n <= |keys| && Editor(s + "\n", |s|).Valid() && Reads(sym, Editor(s + "\n", |s|).PressAll(keys, n))
    ensures n < |keys| ==> !Works(sym.views, sym.at, sym.currLine.cursor, keys[n], sym.size)
  {
    InitializeDefault(sym, s);
    n := PressFrom(sym, keys, 0, Editor(s + "\n", |s|));
  }
}
