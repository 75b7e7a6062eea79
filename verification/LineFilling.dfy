// Greedy filling of lines with words (compute_word_extent in src/hyper/extent1.c,
// total_width and start_newline in src/hyper/extent2.c).
module LineFilling {

  const INTER_WORD_SPACE: int := 5

  // The width of a word in its font, and whether the source had space in front of it.
  datatype Word = Word(width: nat, space: bool)

  datatype Margins = Margins(left: int, right: int)

  // Where the next word would go. inLine says that something is already on the line.
  datatype Pen = Pen(x: int, line: nat, inLine: bool)

  // The width of the words from i on that follow without space.
  function TotalWidth(ws: seq<Word>, i: nat): nat
    requires i <= |ws|
    decreases |ws| - i
  {
    if i == |ws| || ws[i].space then 0 else ws[i].width + TotalWidth(ws, i + 1)
  }

  function WidthOf(ws: seq<Word>, i: nat, j: nat): nat
    requires i <= j <= |ws|
  {
    if i == j then 0 else WidthOf(ws, i, j - 1) + ws[j-1].width
  }

  // It is the sum of the widths up to the next word that has space, or to the last.
  lemma {:induction false} TotalWidthIs(ws: seq<Word>, i: nat, j: nat)
    requires i <= j <= |ws| && (forall k :: i <= k < j ==> !ws[k].space) && (j == |ws| || ws[j].space)
    ensures TotalWidth(ws, i) == WidthOf(ws, i, j)
    decreases j - i
  {
    if i < j {
      TotalWidthIs(ws, i + 1, j);
      FirstWidth(ws, i, j);
    }
  }

  lemma {:induction false} FirstWidth(ws: seq<Word>, i: nat, j: nat)
    requires i < j <= |ws|
    ensures WidthOf(ws, i, j) == ws[i].width + WidthOf(ws, i + 1, j)
  {
    if i + 1 < j {
      FirstWidth(ws, i, j - 1);
    }
  }

  function WordX(m: Margins, w: Word, pen: Pen, newline: bool): int {
    if newline then m.left else if pen.inLine && w.space then pen.x + INTER_WORD_SPACE else pen.x
  }

  function Place(m: Margins, w: Word, pen: Pen, newline: bool): Pen {
    Pen(WordX(m, w, pen, newline) + w.width, if newline then pen.line + 1 else pen.line, true)
  }

  // The pen after the first n words, for any choice of the words that start a new line.
  function Follow(m: Margins, ws: seq<Word>, start: Pen, newlines: seq<bool>, n: nat): Pen
    requires n <= |ws| == |newlines|
  {
    if n == 0 then start
    else Place(m, ws[n-1], Follow(m, ws, start, newlines, n - 1), newlines[n-1])
  }

  // The rule of compute_word_extent: break when the run that starts here would end
  // beyond the right margin.
  predicate MustBreak(m: Margins, ws: seq<Word>, i: nat, pen: Pen)
    requires i < |ws|
  {
    pen.inLine && WordX(m, ws[i], pen, false) + ws[i].width + TotalWidth(ws, i + 1) > m.right
  }

  function Greedy(m: Margins, ws: seq<Word>, start: Pen, n: nat): Pen
    requires n <= |ws|
  {
    if n == 0 then start
    else
      var pen := Greedy(m, ws, start, n - 1);
      Place(m, ws[n-1], pen, MustBreak(m, ws, n - 1, pen))
  }

  predicate Breaks(m: Margins, ws: seq<Word>, start: Pen, i: nat)
    requires i < |ws|
  {
    MustBreak(m, ws, i, Greedy(m, ws, start, i))
  }

  // The unspaced words from i on fit on a line of their own.
  predicate RunFits(m: Margins, ws: seq<Word>, i: nat)
    requires i < |ws|
  {
    m.left + ws[i].width + TotalWidth(ws, i + 1) <= m.right
  }

  ghost predicate RunsFit(m: Margins, ws: seq<Word>) {
    forall i :: 0 <= i < |ws| ==> RunFits(m, ws, i)
  }

  // The words start on a line of their own or continue a line.
  predicate AtStart(m: Margins, start: Pen) {
    start.inLine || start.x == m.left
  }

  // Once a run that fits has been started at word a, there is room for the rest of it,
  // whatever comes before it.
  lemma {:induction false} RoomForRun(m: Margins, ws: seq<Word>, start: Pen, a: nat, n: nat)
    requires a < n <= |ws| && RunFits(m, ws, a) && AtStart(m, start)
    requires forall i :: a < i < n ==> !ws[i].space
    ensures var pen := Greedy(m, ws, start, n); pen.inLine && pen.x + TotalWidth(ws, n) <= m.right
  {
    if a + 1 < n {
      RoomForRun(m, ws, start, a, n - 1);
    }
  }

  // An unspaced word never starts a line, if from the word before it on its run fits.
  lemma RunsStayTogether(m: Margins, ws: seq<Word>, start: Pen, i: nat)
    requires 0 < i < |ws| && !ws[i].space && RunFits(m, ws, i - 1) && AtStart(m, start)
    ensures !Breaks(m, ws, start, i)
  {
    RoomForRun(m, ws, start, i - 1, i);
  }

  lemma {:induction false} NeverLeftOfMargin(m: Margins, ws: seq<Word>, start: Pen, n: nat)
    requires n <= |ws| && m.left <= start.x
    ensures m.left <= Greedy(m, ws, start, n).x
  {
    if n > 0 {
      NeverLeftOfMargin(m, ws, start, n - 1);
    }
  }

  // In a stream that starts within the margins, those are the only words that do not.
  lemma RunsSplitExactly(m: Margins, ws: seq<Word>, start: Pen, i: nat)
    requires 0 < i < |ws| && !ws[i].space && AtStart(m, start) && m.left <= start.x
    ensures Breaks(m, ws, start, i) <==> !RunFits(m, ws, i - 1)
  {
    NeverLeftOfMargin(m, ws, start, i - 1);
    if RunFits(m, ws, i - 1) {
      RunsStayTogether(m, ws, start, i);
    }
  }

  // A word from which on its run fits ends by the right margin.
  lemma WordEndsByMargin(m: Margins, ws: seq<Word>, start: Pen, i: nat)
    requires i < |ws| && RunFits(m, ws, i) && AtStart(m, start)
    ensures Greedy(m, ws, start, i + 1).x <= m.right
  {
    RoomForRun(m, ws, start, i, i + 1);
  }

  // If all runs fit, so does every word.
  lemma WordsEndByMargin(m: Margins, ws: seq<Word>, start: Pen)
    requires RunsFit(m, ws) && AtStart(m, start)
    ensures forall i :: 0 < i <= |ws| ==> Greedy(m, ws, start, i).x <= m.right
  {
    forall i | 0 < i <= |ws|
      ensures Greedy(m, ws, start, i).x <= m.right
    {
      assert RunFits(m, ws, i - 1);
      WordEndsByMargin(m, ws, start, i - 1);
    }
  }

  function GreedyX(m: Margins, ws: seq<Word>, start: Pen, i: nat): int
    requires i < |ws|
  {
    WordX(m, ws[i], Greedy(m, ws, start, i), Breaks(m, ws, start, i))
  }

  // Later words are on later lines or further right, beyond the space if they have one.
  lemma {:induction false} WordsInOrder(m: Margins, ws: seq<Word>, start: Pen, i: nat, j: nat)
    requires i < j < |ws|
    ensures var a, b := Greedy(m, ws, start, i + 1), Greedy(m, ws, start, j + 1);
            || a.line < b.line
            || (a.line == b.line && GreedyX(m, ws, start, i) + ws[i].width <= GreedyX(m, ws, start, j)
                && (ws[j].space ==>
                      GreedyX(m, ws, start, i) + ws[i].width + INTER_WORD_SPACE <= GreedyX(m, ws, start, j)))
    decreases j
  {
    if i + 1 < j {
      WordsInOrder(m, ws, start, i, j - 1);
    }
  }

  // ----- no other layout uses fewer lines ---------------------------------------------------

  // A competing layout breaks only where there is space, or before the first word.
  ghost predicate RespectsRuns(ws: seq<Word>, newlines: seq<bool>)
    requires |ws| == |newlines|
  {
    forall i :: 0 < i < |ws| && newlines[i] ==> ws[i].space
  }

  ghost predicate Fits(m: Margins, ws: seq<Word>, start: Pen, newlines: seq<bool>)
    requires |ws| == |newlines|
  {
    forall n :: 0 < n <= |ws| ==> Follow(m, ws, start, newlines, n).x <= m.right
  }

  lemma {:induction false} RestOfRunFits(m: Margins, ws: seq<Word>, start: Pen, newlines: seq<bool>, n: nat)
    requires 0 < n <= |ws| == |newlines| && RespectsRuns(ws, newlines) && Fits(m, ws, start, newlines)
    ensures Follow(m, ws, start, newlines, n).x + TotalWidth(ws, n) <= m.right
    decreases |ws| - n
  {
    if n < |ws| && !ws[n].space {
      RestOfRunFits(m, ws, start, newlines, n + 1);
    }
  }

  predicate Ahead(a: Pen, b: Pen) {
    a.line < b.line || (a.line == b.line && a.x <= b.x)
  }

  lemma {:induction false} BeyondLeft(m: Margins, ws: seq<Word>, start: Pen, newlines: seq<bool>, n: nat)
    requires n <= |ws| == |newlines|
    ensures var pen := Follow(m, ws, start, newlines, n);
            pen.line >= start.line && (pen.line > start.line ==> pen.x >= m.left) && (n > 0 ==> pen.inLine)
  {
    if n > 0 {
      BeyondLeft(m, ws, start, newlines, n - 1);
    }
  }

  lemma {:induction false} GreedyNotBefore(m: Margins, ws: seq<Word>, start: Pen, n: nat)
    requires n <= |ws|
    ensures var pen := Greedy(m, ws, start, n); pen.line >= start.line && (n > 0 ==> pen.inLine)
  {
    if n > 0 {
      GreedyNotBefore(m, ws, start, n - 1);
    }
  }

  // After every word the greedy pen is on an earlier line, or no further along.
  lemma {:induction false} GreedyStaysAhead(m: Margins, ws: seq<Word>, start: Pen, newlines: seq<bool>, n: nat)
    requires n <= |ws| == |newlines| && RespectsRuns(ws, newlines) && Fits(m, ws, start, newlines)
    ensures Ahead(Greedy(m, ws, start, n), Follow(m, ws, start, newlines, n))
  {
    if n > 0 {
      var i := n - 1;
      GreedyStaysAhead(m, ws, start, newlines, i);
      RestOfRunFits(m, ws, start, newlines, n);
      BeyondLeft(m, ws, start, newlines, i);
      GreedyNotBefore(m, ws, start, i);
    }
  }

  // No layout that fits and respects runs uses fewer lines, even if some runs would not
  // fit on a line of their own.
  lemma FewestLines(m: Margins, ws: seq<Word>, start: Pen, newlines: seq<bool>)
    requires |ws| == |newlines| && RespectsRuns(ws, newlines) && Fits(m, ws, start, newlines)
    ensures Greedy(m, ws, start, |ws|).line <= Follow(m, ws, start, newlines, |ws|).line
  {
    GreedyStaysAhead(m, ws, start, newlines, |ws|);
  }

  // The greedy layout as a choice of line starts.
  function GreedyNewlines(m: Margins, ws: seq<Word>, start: Pen): seq<bool> {
    seq(|ws|, i requires 0 <= i < |ws| => Breaks(m, ws, start, i))
  }

  lemma {:induction false} GreedyFollows(m: Margins, ws: seq<Word>, start: Pen, n: nat)
    requires n <= |ws|
    ensures Greedy(m, ws, start, n) == Follow(m, ws, start, GreedyNewlines(m, ws, start), n)
  {
    if n > 0 {
      GreedyFollows(m, ws, start, n - 1);
    }
  }

  // The greedy layout is itself one of the layouts it is compared with.
  lemma GreedyCompetes(m: Margins, ws: seq<Word>, start: Pen)
    requires RunsFit(m, ws) && AtStart(m, start)
    ensures RespectsRuns(ws, GreedyNewlines(m, ws, start)) && Fits(m, ws, start, GreedyNewlines(m, ws, start))
    ensures Greedy(m, ws, start, |ws|) == Follow(m, ws, start, GreedyNewlines(m, ws, start), |ws|)
  {
    forall i | 0 < i < |ws| && Breaks(m, ws, start, i)
      ensures ws[i].space
    {
      if !ws[i].space {
        assert RunFits(m, ws, i - 1);
        RunsStayTogether(m, ws, start, i);
      }
    }
    WordsEndByMargin(m, ws, start);
    forall n | 0 <= n <= |ws|
      ensures Greedy(m, ws, start, n) == Follow(m, ws, start, GreedyNewlines(m, ws, start), n)
    {
      GreedyFollows(m, ws, start, n);
    }
  }

  // ----- coordinates ------------------------------------------------------------------------

  // What the words find before them: where they start, and whether the line is in use, how
  // high it and the lines after it are, and how far above the text position a word is put.
  datatype Setting = Setting(m: Margins, x: int, y: int, inLine: bool, first: int, line: int, off: int)

  // Where word k would go on the line of the word before it, whose x is in xs.
  function Onward(s: Setting, ws: seq<Word>, xs: seq<int>, k: nat): int
    requires k < |ws| == |xs|
  {
    (if k == 0 then s.x else xs[k-1] + ws[k-1].width)
    + (if ws[k].space && (k > 0 || s.inLine) then INTER_WORD_SPACE else 0)
  }

  // Word k does not: with all that follows it without space, it would go beyond the margin.
  predicate Starts(s: Setting, ws: seq<Word>, xs: seq<int>, k: nat)
    requires k < |ws| == |xs|
  {
    (k > 0 || s.inLine) && Onward(s, ws, xs, k) + ws[k].width + TotalWidth(ws, k + 1) > s.m.right
  }

  // Word k is on the line that the words started on.
  ghost predicate OnFirstLine(s: Setting, ws: seq<Word>, xs: seq<int>, k: nat)
    requires k <= |ws| == |xs|
  {
    forall j :: 0 <= j < k ==> !Starts(s, ws, xs, j)
  }

  // How far word k is below the one before it.
  ghost function Drop(s: Setting, ws: seq<Word>, xs: seq<int>, k: nat): int
    requires k < |ws| == |xs|
  {
    if !Starts(s, ws, xs, k) then 0 else if OnFirstLine(s, ws, xs, k) then s.first else s.line
  }

  // The coordinates of the words, each told from the word before it.
  ghost predicate Flows(s: Setting, ws: seq<Word>, xs: seq<int>, ys: seq<int>) {
    |xs| == |ys| == |ws| && forall k :: 0 <= k < |ws| ==> FlowsOn(s, ws, xs, ys, k)
  }

  ghost predicate FlowsOn(s: Setting, ws: seq<Word>, xs: seq<int>, ys: seq<int>, k: nat)
    requires k < |ws| == |xs| == |ys|
  {
    && xs[k] == (if Starts(s, ws, xs, k) then s.m.left else Onward(s, ws, xs, k))
    && ys[k] == (if k == 0 then s.y - s.off else ys[k-1]) + Drop(s, ws, xs, k)
  }

  // Words do not go up, and a word that starts a line, with those after it, is below all
  // before it.
  lemma {:induction false} LinesApart(s: Setting, ws: seq<Word>, xs: seq<int>, ys: seq<int>, i: nat, j: nat)
    requires Flows(s, ws, xs, ys) && i < j < |ws| && s.first > 0 && s.line > 0
    ensures ys[i] <= ys[j]
    ensures ys[i] < ys[j] <==> exists k :: i < k <= j && Starts(s, ws, xs, k)
    decreases j
  {
    if i + 1 < j {
      LinesApart(s, ws, xs, ys, i, j - 1);
    }
    assert FlowsOn(s, ws, xs, ys, j);
  }

  // ----- the formatter --------------------------------------------------------------------

  class TextNode {
    const word: Word
    var x: int
    var y: int

    constructor (word: Word)
      ensures this.word == word
    {
      this.word := word;
    }
  }

  // The words of a stream of nodes.
  function Words(nodes: seq<TextNode>): seq<Word> {
    seq(|nodes|, i requires 0 <= i < |nodes| => nodes[i].word)
  }

  class Formatter {
    const margins: Margins
    const lineHeight: int
    const wordOffHeight: int
    var textX: int
    var textY: int
    var inLine: bool
    var presentLineHeight: int

    constructor (margins: Margins, lineHeight: int, wordOffHeight: int, textX: int, textY: int, inLine: bool,
                 presentLineHeight: int)
      ensures this.margins == margins && this.lineHeight == lineHeight && this.wordOffHeight == wordOffHeight
      ensures this.textX == textX && this.textY == textY
      ensures this.inLine == inLine && this.presentLineHeight == presentLineHeight
    {
      this.margins, this.lineHeight, this.wordOffHeight := margins, lineHeight, wordOffHeight;
      this.textX, this.textY, this.inLine, this.presentLineHeight := textX, textY, inLine, presentLineHeight;
    }

    method StartNewline(distance: int)
      modifies this`textY, this`presentLineHeight, this`inLine
      ensures textY == old(textY) + distance && presentLineHeight == lineHeight && !inLine
    {
      textY := textY + distance;
      presentLineHeight := lineHeight;
      inLine := false;
    }

    // How far it goes before there is white space.
    method WidthAhead(nodes: seq<TextNode>, from: nat) returns (width: nat)
      requires from <= |nodes|
      ensures width == TotalWidth(Words(nodes), from)
    {
      var i := from;
      width := 0;
      while i < |nodes| && !nodes[i].word.space
        invariant from <= i <= |nodes|
        invariant width + TotalWidth(Words(nodes), i) == TotalWidth(Words(nodes), from)
      {
        width := width + nodes[i].word.width;
        i := i + 1;
      }
    }

    // Line k of the stream, counted from the line the stream started on.
    function Baseline(top: int, firstHeight: int, k: nat): int {
      if k == 0 then top else top + firstHeight + (k - 1) * lineHeight
    }

    ghost predicate PenIs(pen: Pen, top: int, firstHeight: int)
      reads this
    {
      && textX == pen.x && inLine == pen.inLine
      && textY == Baseline(top, firstHeight, pen.line)
      && presentLineHeight == if pen.line == 0 then firstHeight else lineHeight
    }

    method ComputeWordExtent(nodes: seq<TextNode>, i: nat, ghost pen: Pen, ghost top: int, ghost firstHeight: int)
      requires i < |nodes| && PenIs(pen, top, firstHeight)
      modifies this, nodes[i]
      ensures var brk := MustBreak(margins, Words(nodes), i, pen);
              && PenIs(Place(margins, nodes[i].word, pen, brk), top, firstHeight)
              && nodes[i].x == WordX(margins, nodes[i].word, pen, brk)
              && nodes[i].y == textY - wordOffHeight
    {
      var node := nodes[i];
      var width := node.word.width;
      if inLine && node.word.space {
        width := width + INTER_WORD_SPACE;
      }
      var next := WidthAhead(nodes, i + 1);
      if textX + width + next > margins.right && inLine {
        StartNewline(presentLineHeight);
        textX := margins.left;
      }
      if inLine && node.word.space {
        textX := textX + INTER_WORD_SPACE;
      }
      node.x := textX;
      node.y := textY - wordOffHeight;
      textX := textX + node.word.width;
      inLine := true;
    }

    // The pens between the words of a stream, and the breaks and coordinates that they mean.
    ghost predicate Traced(ws: seq<Word>, pens: seq<Pen>, xs: seq<int>, ys: seq<int>, top: int, firstHeight: int) {
      && |pens| == |ws| + 1 && |xs| == |ys| == |ws|
      && forall i :: 0 <= i < |ws| ==> TracedAt(ws, i, pens[i], pens[i+1], xs[i], ys[i], top, firstHeight)
    }

    ghost predicate TracedAt(ws: seq<Word>, i: nat, pen: Pen, next: Pen, x: int, y: int, top: int, firstHeight: int)
      requires i < |ws|
    {
      var brk := MustBreak(margins, ws, i, pen);
      && next == Place(margins, ws[i], pen, brk)
      && x == WordX(margins, ws[i], pen, brk)
      && y == Baseline(top, firstHeight, next.line) - wordOffHeight
    }

    method PlaceNode(nodes: seq<TextNode>, i: nat, ghost ws: seq<Word>, ghost pen: Pen, ghost next: Pen,
                     ghost x: int, ghost y: int, ghost top: int, ghost firstHeight: int)
      requires i < |nodes| && ws == Words(nodes) && PenIs(pen, top, firstHeight)
      requires TracedAt(ws, i, pen, next, x, y, top, firstHeight)
      modifies this, nodes[i]
      ensures PenIs(next, top, firstHeight) && nodes[i].x == x && nodes[i].y == y
    {
      ComputeWordExtent(nodes, i, pen, top, firstHeight);
    }

    method PlaceNodes(nodes: seq<TextNode>, ghost ws: seq<Word>, ghost pens: seq<Pen>,
                      ghost xs: seq<int>, ghost ys: seq<int>, ghost top: int, ghost firstHeight: int)
      requires forall i, j :: 0 <= i < j < |nodes| ==> nodes[i] != nodes[j]
      requires ws == Words(nodes) && |ws| == |nodes| && Traced(ws, pens, xs, ys, top, firstHeight)
      requires PenIs(pens[0], top, firstHeight)
      modifies this, nodes
      ensures PenIs(pens[|nodes|], top, firstHeight)
      ensures forall k :: 0 <= k < |nodes| ==> nodes[k].x == xs[k] && nodes[k].y == ys[k]
    {
      for i := 0 to |nodes|
        invariant PenIs(pens[i], top, firstHeight)
        invariant forall k :: 0 <= k < i ==> nodes[k].x == xs[k] && nodes[k].y == ys[k]
      {
        PlaceNode(nodes, i, ws, pens[i], pens[i+1], xs[i], ys[i], top, firstHeight);
      }
    }

    // The coordinates of word k in the greedy layout.
    ghost function LayoutX(ws: seq<Word>, start: Pen): seq<int> {
      seq(|ws|, k requires 0 <= k < |ws| => GreedyX(margins, ws, start, k))
    }

    ghost function LayoutY(ws: seq<Word>, start: Pen, top: int, firstHeight: int): seq<int> {
      seq(|ws|, k requires 0 <= k < |ws| =>
        Baseline(top, firstHeight, Greedy(margins, ws, start, k + 1).line) - wordOffHeight)
    }

    ghost function TheSetting(): Setting
      reads this
    {
      Setting(margins, textX, textY, inLine, presentLineHeight, lineHeight, wordOffHeight)
    }

    // The greedy layout: every word breaks as its coordinates say.
    lemma LayoutBreaks(ws: seq<Word>, s: Setting, k: nat)
      requires k < |ws| && s.m == margins
      ensures var xs, start := LayoutX(ws, Pen(s.x, 0, s.inLine)), Pen(s.x, 0, s.inLine);
              && (Starts(s, ws, xs, k) <==> Breaks(margins, ws, start, k))
              && xs[k] == (if Starts(s, ws, xs, k) then margins.left else Onward(s, ws, xs, k))
    {
      var start := Pen(s.x, 0, s.inLine);
      var xs := LayoutX(ws, start);
      GreedyNotBefore(margins, ws, start, k);
      if k > 0 {
        assert Greedy(margins, ws, start, k).x == xs[k-1] + ws[k-1].width;
      }
    }

    // The line of a word is the first until one breaks.
    lemma {:induction false} FirstLine(ws: seq<Word>, start: Pen, n: nat)
      requires n <= |ws| && start.line == 0
      ensures Greedy(margins, ws, start, n).line == 0 <==> forall j :: 0 <= j < n ==> !Breaks(margins, ws, start, j)
    {
      if n > 0 {
        FirstLine(ws, start, n - 1);
        assert Greedy(margins, ws, start, n).line
               == Greedy(margins, ws, start, n - 1).line + if Breaks(margins, ws, start, n - 1) then 1 else 0;
      }
    }

    lemma StillFirst(ws: seq<Word>, s: Setting, n: nat)
      requires n <= |ws| && s.m == margins
      ensures var start := Pen(s.x, 0, s.inLine);
              OnFirstLine(s, ws, LayoutX(ws, start), n) <==> Greedy(margins, ws, start, n).line == 0
    {
      var start := Pen(s.x, 0, s.inLine);
      FirstLine(ws, start, n);
      forall j | 0 <= j < n
        ensures Starts(s, ws, LayoutX(ws, start), j) <==> Breaks(margins, ws, start, j)
      {
        LayoutBreaks(ws, s, j);
      }
    }

    lemma LayoutDrops(ws: seq<Word>, s: Setting, k: nat)
      requires k < |ws| && s.m == margins && s.line == lineHeight && s.off == wordOffHeight
      ensures var start := Pen(s.x, 0, s.inLine);
              var xs, ys := LayoutX(ws, start), LayoutY(ws, start, s.y, s.first);
              ys[k] == (if k == 0 then s.y - s.off else ys[k-1]) + Drop(s, ws, xs, k)
    {
      LayoutBreaks(ws, s, k);
      StillFirst(ws, s, k);
      NextBaseline(s.y, s.first, Greedy(margins, ws, Pen(s.x, 0, s.inLine), k).line);
    }

    lemma NextBaseline(top: int, firstHeight: int, n: nat)
      ensures Baseline(top, firstHeight, 0) == top
      ensures Baseline(top, firstHeight, n + 1) ==
              Baseline(top, firstHeight, n) + if n == 0 then firstHeight else lineHeight
    {
      assert n > 0 ==> n * lineHeight == (n - 1) * lineHeight + lineHeight;
    }

    lemma LayoutFlows(ws: seq<Word>, s: Setting)
      requires s.m == margins && s.line == lineHeight && s.off == wordOffHeight
      ensures Flows(s, ws, LayoutX(ws, Pen(s.x, 0, s.inLine)), LayoutY(ws, Pen(s.x, 0, s.inLine), s.y, s.first))
    {
      var xs, ys := LayoutX(ws, Pen(s.x, 0, s.inLine)), LayoutY(ws, Pen(s.x, 0, s.inLine), s.y, s.first);
      forall k | 0 <= k < |ws|
        ensures FlowsOn(s, ws, xs, ys, k)
      {
        LayoutBreaks(ws, s, k);
        LayoutDrops(ws, s, k);
      }
    }

    // The position after the words: behind the last one, on its line.
    lemma LayoutEnds(ws: seq<Word>, s: Setting)
      requires ws != [] && s.m == margins && s.line == lineHeight && s.off == wordOffHeight
      ensures var start, n := Pen(s.x, 0, s.inLine), |ws|;
              var pen := Greedy(margins, ws, start, n);
              && pen.inLine && pen.x == LayoutX(ws, start)[n-1] + ws[n-1].width
              && Baseline(s.y, s.first, pen.line) == LayoutY(ws, start, s.y, s.first)[n-1] + s.off
              && (pen.line == 0 <==> OnFirstLine(s, ws, LayoutX(ws, start), n))
    {
      StillFirst(ws, s, |ws|);
    }

    // The position that the words xs and ys leave.
    ghost predicate Leaves(s: Setting, ws: seq<Word>, xs: seq<int>, ys: seq<int>)
      requires |ws| == |xs| == |ys|
      reads this
    {
      var n := |ws|;
      && textX == (if n == 0 then s.x else xs[n-1] + ws[n-1].width)
      && textY == (if n == 0 then s.y else ys[n-1] + s.off)
      && inLine == (n > 0 || s.inLine)
      && presentLineHeight == if OnFirstLine(s, ws, xs, n) then s.first else s.line
    }

    // Every node gets the coordinates of the greedy layout: they flow on from word to word.
    method ComputeTextExtent(nodes: seq<TextNode>) returns (ghost xs: seq<int>, ghost ys: seq<int>)
      requires forall i, j :: 0 <= i < j < |nodes| ==> nodes[i] != nodes[j]
      modifies this, nodes
      ensures |xs| == |ys| == |nodes| && forall k :: 0 <= k < |nodes| ==> nodes[k].x == xs[k] && nodes[k].y == ys[k]
      ensures Flows(old(TheSetting()), Words(nodes), xs, ys) && Leaves(old(TheSetting()), Words(nodes), xs, ys)
      ensures var ws, start := Words(nodes), Pen(old(textX), 0, old(inLine));
              xs == LayoutX(ws, start) && ys == LayoutY(ws, start, old(textY), old(presentLineHeight))
    {
      ghost var ws, start, top, first := Words(nodes), Pen(textX, 0, inLine), textY, presentLineHeight;
      ghost var s := TheSetting();
      ghost var pens := GreedyPens(ws, start, top, first);
      xs, ys := LayoutX(ws, start), LayoutY(ws, start, top, first);
      PlaceNodes(nodes, ws, pens, xs, ys, top, first);
      LayoutFlows(ws, s);
      if nodes != [] {
        LayoutEnds(ws, s);
      }
    }

    lemma GreedyPens(ws: seq<Word>, start: Pen, top: int, firstHeight: int) returns (pens: seq<Pen>)
      ensures Traced(ws, pens, LayoutX(ws, start), LayoutY(ws, start, top, firstHeight), top, firstHeight)
      ensures pens[0] == start && pens[|ws|] == Greedy(margins, ws, start, |ws|)
    {
      pens := seq(|ws| + 1, k requires 0 <= k <= |ws| => Greedy(margins, ws, start, k));
    }
  }
}
