// In-place removal of TeX markup from a search hit (src/hyper/hthits.c).
module Untex {
  import opened Characters

  predicate IsAlpha(c: char) {
    'A' <= c <= 'Z' || 'a' <= c <= 'z'
  }

  predicate IsMarkup(c: char) {
    c == '\\' || c == '%' || c == '{' || c == '}' || c == '#'
  }

  // The first position from i on that holds no letter.
  function AfterLetters(s: string, i: nat): (j: nat)
    requires i <= |s|
    ensures i <= j <= |s|
    decreases |s| - i
  {
    if i < |s| && IsAlpha(s[i]) then AfterLetters(s, i + 1) else i
  }

  // The position just past the piece of markup that starts at i. An escaped percent
  // sign still opens a comment.
  function AfterMarkup(s: string, i: nat): (j: nat)
    requires i < |s| && IsMarkup(s[i])
    ensures i < j <= |s|
  {
    if s[i] == '\\' then
      if i + 1 < |s| && s[i+1] == '%' then i + 1 else AfterLetters(s, i + 1)
    else if s[i] == '%' then AfterComment(s, i + 1)
    else i + 1
  }

  // The text of s from position i on, each piece of markup replaced by one blank.
  function Plain(s: string, i: nat := 0): string
    requires i <= |s|
    decreases |s| - i
  {
    if i == |s| then []
    else if IsMarkup(s[i]) then [' '] + Plain(s, AfterMarkup(s, i))
    else [s[i]] + Plain(s, i + 1)
  }

  ghost predicate MarkupFree(s: string) {
    forall i :: 0 <= i < |s| ==> !IsMarkup(s[i])
  }

  lemma {:induction false} PlainIsMarkupFree(s: string, i: nat)
    requires i <= |s|
    ensures MarkupFree(Plain(s, i)) && |Plain(s, i)| <= |s| - i
    decreases |s| - i
  {
    if i < |s| {
      PlainIsMarkupFree(s, if IsMarkup(s[i]) then AfterMarkup(s, i) else i + 1);
    }
  }

  lemma {:induction false} PlainFixesMarkupFree(s: string, i: nat)
    requires i <= |s| && MarkupFree(s)
    ensures Plain(s, i) == s[i..]
    decreases |s| - i
  {
    if i < |s| {
      PlainFixesMarkupFree(s, i + 1);
    }
  }

  // A second pass changes nothing.
  lemma PlainIdempotent(s: string)
    ensures Plain(Plain(s)) == Plain(s)
  {
    PlainIsMarkupFree(s, 0);
    PlainFixesMarkupFree(Plain(s), 0);
  }

  lemma {:induction false} MarkupStopsAtNewline(a: string, b: string, i: nat)
    requires i <= |a|
    ensures var s := a + ['\n'] + b;
            AfterLetters(s, i) == AfterLetters(a, i) && AfterComment(s, i) == AfterComment(a, i)
    decreases |a| - i
  {
    if i < |a| {
      MarkupStopsAtNewline(a, b, i + 1);
    }
  }

  lemma {:induction false} MarkupShifts(a: string, b: string, i: nat)
    requires i <= |b|
    ensures AfterLetters(a + b, |a| + i) == |a| + AfterLetters(b, i)
    ensures AfterComment(a + b, |a| + i) == |a| + AfterComment(b, i)
    decreases |b| - i
  {
    if i < |b| {
      MarkupShifts(a, b, i + 1);
    }
  }

  // The position after the piece of markup or the character at i.
  function Next(s: string, i: nat): (j: nat)
    requires i < |s|
    ensures i < j <= |s|
  {
    if IsMarkup(s[i]) then AfterMarkup(s, i) else i + 1
  }

  function Head(s: string, i: nat): string
    requires i < |s|
  {
    [if IsMarkup(s[i]) then ' ' else s[i]]
  }

  lemma PlainStep(s: string, i: nat, j: nat)
    requires i < |s| && j == Next(s, i)
    ensures Plain(s, i) == Head(s, i) + Plain(s, j)
  {
  }

  lemma StepShifts(a: string, b: string, i: nat)
    requires i < |b|
    ensures Head(a + b, |a| + i) == Head(b, i) && Next(a + b, |a| + i) == |a| + Next(b, i)
  {
    MarkupShifts(a, b, i + 1);
    assert (a + b)[|a|+i] == b[i];
    assert i + 1 < |b| ==> (a + b)[|a|+i+1] == b[i+1];
  }

  lemma {:induction false} PlainShifts(a: string, b: string, i: nat)
    requires i <= |b|
    ensures Plain(a + b, |a| + i) == Plain(b, i)
    decreases |b| - i
  {
    if i < |b| {
      var j := Next(b, i);
      StepShifts(a, b, i);
      PlainStep(a + b, |a| + i, |a| + j);
      PlainStep(b, i, j);
      PlainShifts(a, b, j);
    }
  }

  lemma StepStops(a: string, b: string, i: nat)
    requires i < |a|
    ensures var s := a + ['\n'] + b; Head(s, i) == Head(a, i) && Next(s, i) == Next(a, i)
  {
    MarkupStopsAtNewline(a, b, i + 1);
  }

  lemma {:induction false} PlainSplitsAtNewline(a: string, b: string, i: nat)
    requires i <= |a|
    ensures Plain(a + ['\n'] + b, i) == Plain(a, i) + ['\n'] + Plain(b)
    decreases |a| - i
  {
    var s := a + ['\n'] + b;
    if i == |a| {
      PlainStep(s, i, i + 1);
      PlainShifts(a + ['\n'], b, 0);
    } else {
      var j := Next(a, i);
      StepStops(a, b, i);
      PlainStep(s, i, j);
      PlainStep(a, i, j);
      PlainSplitsAtNewline(a, b, j);
      Reparenthesize(Head(a, i), Plain(a, j), ['\n'], Plain(b));
    }
  }

  lemma Reparenthesize(h: string, x: string, y: string, z: string)
    ensures h + (x + y + z) == (h + x) + y + z
  {
  }

  // Markup never reaches past the end of its line: a text is cleaned line by line.
  lemma PlainIsLineLocal(a: string, b: string)
    ensures Plain(a + ['\n'] + b) == Plain(a) + ['\n'] + Plain(b)
  {
    PlainSplitsAtNewline(a, b, 0);
  }

  // ----- what a text with markup is made of ------------------------------------------------------

  // The letters by their codes: 26 from A on, and 26 from a on.
  predicate IsLetter(c: char) {
    0 <= c as int - 65 < 26 || 0 <= c as int - 97 < 26
  }

  // A text taken apart: ordinary characters, braces and number signs, control words and
  // comments.
  datatype Piece = Ordinary(c: char) | Sign(c: char) | Control(word: string) | Comment(text: string)

  function PieceText(p: Piece): string {
    match p
    case Ordinary(c) => [c]
    case Sign(c) => [c]
    case Control(word) => "\\" + word
    case Comment(text) => "%" + text
  }

  function PieceMeaning(p: Piece): string {
    if p.Ordinary? then [p.c] else " "
  }

  // A control word is as many letters as there are, perhaps none; a comment goes on to the
  // end of its line.
  ghost predicate Stands(p: Piece, rest: string) {
    match p
    case Ordinary(c) => c !in "\\%{}#"
    case Sign(c) => c in "{}#"
    case Control(word) => (forall k :: 0 <= k < |word| ==> IsLetter(word[k])) && (rest == "" || !IsLetter(rest[0]))
    case Comment(text) => '\n' !in text && (rest == "" || rest[0] == '\n')
  }

  function Written(pieces: seq<Piece>): string {
    if pieces == [] then "" else PieceText(pieces[0]) + Written(pieces[1..])
  }

  function Meant(pieces: seq<Piece>): string {
    if pieces == [] then "" else PieceMeaning(pieces[0]) + Meant(pieces[1..])
  }

  ghost predicate Proper(pieces: seq<Piece>) {
    pieces == [] || (Stands(pieces[0], Written(pieces[1..])) && Proper(pieces[1..]))
  }

  lemma AlphaIsLetter(c: char)
    ensures IsAlpha(c) <==> IsLetter(c)
  {
  }

  lemma {:induction false} LettersAre(s: string, i: nat)
    requires i <= |s|
    ensures var j := AfterLetters(s, i);
            (forall k :: i <= k < j ==> IsLetter(s[k])) && (j == |s| || !IsLetter(s[j]))
    decreases |s| - i
  {
    if i < |s| {
      AlphaIsLetter(s[i]);
      if IsAlpha(s[i]) {
        LettersAre(s, i + 1);
      }
    }
  }

  lemma {:induction false} CommentIs(s: string, i: nat)
    requires i <= |s|
    ensures var j := AfterComment(s, i);
            (forall k :: i <= k < j ==> s[k] != '\n') && (j == |s| || s[j] == '\n')
    decreases |s| - i
  {
    if i < |s| && s[i] != '\n' {
      CommentIs(s, i + 1);
    }
  }

  lemma MarkupIs(s: string, i: nat)
    requires i < |s| && IsMarkup(s[i])
    ensures var j := AfterMarkup(s, i);
            && (s[i] == '\\' ==> (forall k :: i < k < j ==> IsLetter(s[k])) && (j == |s| || !IsLetter(s[j])))
            && (s[i] == '%' ==> (forall k :: i < k < j ==> s[k] != '\n') && (j == |s| || s[j] == '\n'))
            && (s[i] != '\\' && s[i] != '%' ==> j == i + 1)
  {
    LettersAre(s, i + 1);
    CommentIs(s, i + 1);
    AlphaIsLetter('%');
  }

  lemma TakeFront(s: string, i: nat, x: string, y: string)
    requires i <= |s| && s[i..] == x + y
    ensures i + |x| <= |s| && s[i+|x|..] == y && forall k :: i <= k < i + |x| ==> s[k] == x[k-i]
    ensures y != "" ==> i + |x| < |s| && s[i+|x|] == y[0]
  {
    assert s[i..][|x|..] == y;
    forall k | i <= k < i + |x| ensures s[k] == x[k-i] {
      assert s[i..][k-i] == x[k-i];
    }
  }

  // A piece is passed over as one, and replaced by what it stands for.
  lemma PieceStep(s: string, i: nat, p: Piece, rest: string)
    requires i <= |s| && s[i..] == PieceText(p) + rest && Stands(p, rest)
    ensures i < |s| && Next(s, i) == i + |PieceText(p)| && Head(s, i) == PieceMeaning(p)
  {
    TakeFront(s, i, PieceText(p), rest);
    assert s[i] == PieceText(p)[0];
    if IsMarkup(s[i]) {
      MarkupIs(s, i);
      MarkupEnd(s, i, AfterMarkup(s, i), p, rest);
    }
  }

  // Where a control word or a comment ends is settled by its characters and the next one.
  lemma MarkupEnd(s: string, i: nat, j: nat, p: Piece, rest: string)
    requires !p.Ordinary? && Stands(p, rest) && i < j <= |s|
    requires var n := |PieceText(p)|;
             && i + n <= |s| && (forall k :: i <= k < i + n ==> s[k] == PieceText(p)[k-i])
             && (if rest == "" then i + n == |s| else i + n < |s| && s[i+n] == rest[0])
    requires s[i] == '\\' ==> (forall k :: i < k < j ==> IsLetter(s[k])) && (j == |s| || !IsLetter(s[j]))
    requires s[i] == '%' ==> (forall k :: i < k < j ==> s[k] != '\n') && (j == |s| || s[j] == '\n')
    requires s[i] != '\\' && s[i] != '%' ==> j == i + 1
    ensures j == i + |PieceText(p)|
  {
    assert s[i] == PieceText(p)[0];
  }

  lemma {:induction false} PlainOfWritten(s: string, i: nat, pieces: seq<Piece>)
    requires i <= |s| && s[i..] == Written(pieces) && Proper(pieces)
    ensures Plain(s, i) == Meant(pieces)
    decreases |pieces|
  {
    if pieces == [] {
      assert i == |s|;
    } else {
      var p, rest := pieces[0], pieces[1..];
      PieceStep(s, i, p, Written(rest));
      TakeFront(s, i, PieceText(p), Written(rest));
      PlainStep(s, i, i + |PieceText(p)|);
      PlainOfWritten(s, i + |PieceText(p)|, rest);
    }
  }

  lemma FirstPiece(s: string, i: nat) returns (p: Piece)
    requires i < |s|
    ensures s[i..Next(s, i)] == PieceText(p) && Stands(p, s[Next(s, i)..])
  {
    var j := Next(s, i);
    if s[i] == '\\' {
      MarkupIs(s, i);
      p := Control(s[i+1..j]);
      assert s[i..j] == [s[i]] + s[i+1..j];
    } else if s[i] == '%' {
      MarkupIs(s, i);
      p := Comment(s[i+1..j]);
      assert s[i..j] == [s[i]] + s[i+1..j];
    } else {
      p := if IsMarkup(s[i]) then Sign(s[i]) else Ordinary(s[i]);
    }
  }

  lemma {:induction false} TakeApart(s: string, i: nat) returns (pieces: seq<Piece>)
    requires i <= |s|
    ensures Proper(pieces) && Written(pieces) == s[i..]
    decreases |s| - i
  {
    if i == |s| {
      pieces := [];
    } else {
      var p := FirstPiece(s, i);
      var j := Next(s, i);
      var rest := TakeApart(s, j);
      pieces := [p] + rest;
      assert pieces[0] == p && pieces[1..] == rest;
      assert s[i..] == s[i..j] + s[j..];
    }
  }

  // So every text can be taken apart like that, and is cleaned to what its pieces stand for.
  lemma PlainExactly(s: string, out: string)
    ensures Plain(s) == out <==> exists pieces :: Proper(pieces) && Written(pieces) == s && Meant(pieces) == out
  {
    assert s[0..] == s;
    var pieces := TakeApart(s, 0);
    PlainOfWritten(s, 0, pieces);
    forall pieces | Proper(pieces) && Written(pieces) == s
      ensures Plain(s) == Meant(pieces)
    {
      PlainOfWritten(s, 0, pieces);
    }
  }

  // ----- in place --------------------------------------------------------------------------------

  // The array holds text from index from up to a terminator at index |text|.
  ghost predicate Holds(s: array<char>, from: nat, text: string)
    reads s
  {
    && from <= |text| < s.Length
    && s[|text|] == NUL
    && forall k :: from <= k < |text| ==> s[k] == text[k] != NUL
  }

  // Overwrites the string in place; the write position d trails the read position p.
  method UntexBuf(s: array<char>, ghost text: string) returns (d: nat)
    requires Holds(s, 0, text)
    modifies s
    ensures d <= |text| && s[..d] == Plain(text) && s[d] == NUL
    ensures forall k :: d < k < s.Length ==> s[k] == old(s[k])
  {
    var p := 0;
    d := 0;
    while s[p] != NUL
      invariant d <= p && Holds(s, p, text)
      invariant s[..d] + Plain(text, p) == Plain(text)
      invariant forall k :: d <= k < s.Length ==> s[k] == old(s[k])
      decreases |text| - p
    {
      ghost var done := s[..d];
      var c;
      c, p := ReadOne(s, p, text);
      s[d] := c;
      OneWritten(s, d, done, c, Plain(text, p));
      d := d + 1;
    }
    s[d] := NUL;
  }

  lemma OneWritten(s: array<char>, d: nat, done: string, c: char, rest: string)
    requires d < s.Length && s[..d] == done && s[d] == c
    ensures s[..d+1] + rest == done + ([c] + rest)
  {
    assert s[..d+1] == done + [c];
  }

  // One turn of the loop's switch: the character to write and the position to go on from.
  method ReadOne(s: array<char>, from: nat, ghost text: string) returns (c: char, p: nat)
    requires Holds(s, from, text) && s[from] != NUL
    ensures from < p <= |text|
    ensures Plain(text, from) == [c] + Plain(text, p)
  {
    c := s[from];
    if c == '\\' {
      p := SkipControlWord(s, from, text);
      c := ' ';
    } else if c == '%' {
      p := SkipComment(s, from, text);
      c := ' ';
    } else {
      p := from + 1;
      if c == '{' || c == '}' || c == '#' {
        c := ' ';
      }
    }
  }

  method SkipControlWord(s: array<char>, from: nat, ghost text: string) returns (p: nat)
    requires Holds(s, from, text) && s[from] == '\\'
    ensures p == AfterMarkup(text, from)
  {
    p := from + 1;
    if s[p] != '%' {
      while IsAlpha(s[p])
        invariant from < p <= |text|
        invariant AfterLetters(text, p) == AfterLetters(text, from + 1)
        decreases |text| - p
      {
        p := p + 1;
      }
    }
  }

  method SkipComment(s: array<char>, from: nat, ghost text: string) returns (p: nat)
    requires Holds(s, from, text) && s[from] == '%'
    ensures p == AfterMarkup(text, from)
  {
    p := from + 1;
    while s[p] != NUL && s[p] != '\n'
      invariant from < p <= |text|
      invariant AfterComment(text, p) == AfterComment(text, from + 1)
      decreases |text| - p
    {
      p := p + 1;
    }
  }
}
