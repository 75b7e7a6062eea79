// Placing the entries of a \table (compute_table_extent in src/hyper/extent1.c).
module TableLayout {

  import opened CArithmetic

  const MIN_INTER_COLUMN_SPACE: int := 10

  // How many groups of at most size hold n things.
  function Groups(n: nat, size: nat): nat
    requires size > 0
  {
    if n % size == 0 then n / size else n / size + 1
  }

  // The first estimate of the column count, from the widest entry.
  function Estimate(screen: nat, widest: nat): (c: nat)
    ensures c > 0
  {
    var c := screen / (widest + MIN_INTER_COLUMN_SPACE);
    if c == 0 then 1 else c
  }

  function Lines(n: nat, screen: nat, widest: nat): nat {
    Groups(n, Estimate(screen, widest))
  }

  function Columns(n: nat, screen: nat, widest: nat): nat
    requires n > 0
  {
    GroupsCover(n, Estimate(screen, widest));
    Groups(n, Lines(n, screen, widest))
  }

  function ColumnWidth(n: nat, screen: nat, widest: nat): nat
    requires n > 0
  {
    GroupsCover(n, Estimate(screen, widest));
    GroupsCover(n, Lines(n, screen, widest));
    screen / Columns(n, screen, widest)
  }

  // ----- ceiling division ---------------------------------------------------------

  // Groups is the least number of groups that is enough.
  lemma GroupsCover(n: nat, size: nat)
    requires size > 0
    ensures n <= Groups(n, size) * size < n + size
    ensures n > 0 ==> Groups(n, size) > 0
  {
    QuotientBounds(n, size);
    assert (n / size + 1) * size == n / size * size + size;
  }

  lemma GroupsLeast(n: nat, size: nat, k: nat)
    requires size > 0 && n <= k * size
    ensures Groups(n, size) <= k
  {
    GroupsCover(n, size);
    ProductOrder(k, Groups(n, size) - 1, size);
    assert (Groups(n, size) - 1) * size == Groups(n, size) * size - size;
  }

  // ----- the shape of the table --------------------------------------------------------

  // The second division never asks for more columns than the first; all entries have a
  // cell, and every column has an entry.
  lemma Shape(n: nat, screen: nat, widest: nat)
    requires n > 0
    ensures var lines, columns := Lines(n, screen, widest), Columns(n, screen, widest);
            && 0 < lines && 0 < columns <= Estimate(screen, widest)
            && (columns - 1) * lines < n <= columns * lines
  {
    var e, lines := Estimate(screen, widest), Lines(n, screen, widest);
    GroupsCover(n, e);
    GroupsLeast(n, lines, e);
    LastGroupUsed(n, lines);
  }

  lemma LastGroupUsed(n: nat, size: nat)
    requires n > 0 && size > 0
    ensures 0 < Groups(n, size) && (Groups(n, size) - 1) * size < n <= Groups(n, size) * size
  {
    GroupsCover(n, size);
    assert (Groups(n, size) - 1) * size == Groups(n, size) * size - size;
  }

  lemma LinesOfEstimate(n: nat, screen: nat, widest: nat, lines: nat)
    requires n <= Estimate(screen, widest) * lines
    ensures Lines(n, screen, widest) <= lines
  {
    GroupsLeast(n, Estimate(screen, widest), lines);
  }

  // No layout is shorter whose columns all have room on the screen for the widest entry and
  // the gap.
  lemma FewestLines(n: nat, screen: nat, widest: nat, cols: nat, lines: nat)
    requires cols > 0 && cols * (widest + MIN_INTER_COLUMN_SPACE) <= screen && n <= cols * lines
    ensures Lines(n, screen, widest) <= lines
  {
    QuotientAtLeast(screen, widest + MIN_INTER_COLUMN_SPACE, cols);
    assert cols <= Estimate(screen, widest);
    ProductOrder(cols, Estimate(screen, widest), lines);
    LinesOfEstimate(n, screen, widest, lines);
  }

  // The layout is itself one of these, if any is; otherwise it is a single column.
  lemma LayoutFits(n: nat, screen: nat, widest: nat)
    requires n > 0
    ensures var columns, need := Columns(n, screen, widest), widest + MIN_INTER_COLUMN_SPACE;
            if need <= screen then columns * need <= screen else columns == 1 && Lines(n, screen, widest) == n
  {
    var need, e := widest + MIN_INTER_COLUMN_SPACE, Estimate(screen, widest);
    Shape(n, screen, widest);
    QuotientBounds(screen, need);
    if need <= screen {
      QuotientAtLeast(screen, need, 1);
      ProductOrder(Columns(n, screen, widest), e, need);
    } else {
      TooWide(screen, need);
      GroupsCover(n, 1);
    }
  }

  lemma TooWide(screen: nat, need: nat)
    requires screen < need
    ensures screen / need == 0
  {
    QuotientBounds(screen, need);
    if screen / need > 0 {
      ProductOrder(1, screen / need, need);
    }
  }

  // The columns stay on the screen and leave less than a pixel each; they are wide enough for
  // the widest entry and the gap exactly when a single column is.
  lemma Widths(n: nat, screen: nat, widest: nat)
    requires n > 0
    ensures var columns, w := Columns(n, screen, widest), ColumnWidth(n, screen, widest);
            && columns * w <= screen < columns * w + columns
            && (widest + MIN_INTER_COLUMN_SPACE <= w <==> widest + MIN_INTER_COLUMN_SPACE <= screen)
  {
    Shape(n, screen, widest);
    var need, columns := widest + MIN_INTER_COLUMN_SPACE, Columns(n, screen, widest);
    QuotientBounds(screen, columns);
    ProductOrder(1, columns, screen / columns);
    if need <= screen {
      EnoughRoom(screen, need, columns);
    }
  }

  lemma EnoughRoom(screen: nat, need: nat, columns: nat)
    requires 0 < need <= screen && 0 < columns <= (if screen / need == 0 then 1 else screen / need)
    ensures need <= screen / columns
  {
    QuotientBounds(screen, need);
    ProductOrder(columns, if screen / need == 0 then 1 else screen / need, need);
    assert columns * need <= screen;
    QuotientAtLeast(screen, columns, need);
  }

  lemma QuotientAtLeast(n: nat, d: nat, k: nat)
    requires d > 0 && d * k <= n
    ensures k <= n / d
  {
    QuotientBounds(n, d);
    ProductOrder(n / d + 1, k, d);
    assert (n / d + 1) * d == n / d * d + d;
  }

  // ----- the cells ---------------------------------------------------------------------

  function Widest(widths: seq<nat>): nat {
    if widths == [] then 0
    else
      var m := Widest(widths[..|widths|-1]);
      if widths[|widths|-1] > m then widths[|widths|-1] else m
  }

  lemma {:induction false} WidestIsMaximum(widths: seq<nat>)
    ensures forall k :: 0 <= k < |widths| ==> widths[k] <= Widest(widths)
    ensures widths != [] ==> Widest(widths) in widths
  {
    if widths != [] {
      WidestIsMaximum(widths[..|widths|-1]);
    }
  }

  // The cells of a table of n entries. Entries run down the columns; grown[k] is the
  // extra height of an entry that takes more than one line, which only a single column
  // makes room for.
  datatype Grid = Grid(columns: nat, lines: nat, pitch: nat, indent: int, top: int, line: nat, grown: seq<nat>) {
    ghost predicate Valid() {
      && 0 < columns && 0 < lines
      && (columns - 1) * lines < |grown| <= columns * lines
    }

    function X(k: nat): int
      requires lines > 0
    {
      indent + k / lines * pitch
    }

    function Y(k: nat): int
      requires lines > 0 && k <= |grown|
    {
      if columns == 1 then top + k * line + Sum(grown[..k]) else top + k % lines * line
    }
  }

  function TableGrid(screen: nat, indent: int, top: int, line: nat, widths: seq<nat>, grown: seq<nat>): (g: Grid)
    requires |widths| == |grown| > 0
    ensures g.Valid() && g.columns * g.pitch <= screen
  {
    var n, widest := |grown|, Widest(widths);
    Shape(n, screen, widest);
    Widths(n, screen, widest);
    Grid(Columns(n, screen, widest), Lines(n, screen, widest), ColumnWidth(n, screen, widest), indent, top, line, grown)
  }

  lemma QuotientOrder(j: nat, k: nat, d: nat)
    requires d > 0 && j <= k
    ensures j / d <= k / d
    ensures j / d == k / d ==> k % d - j % d == k - j
  {
    QuotientBounds(j, d);
    QuotientBounds(k, d);
    ProductOrder(k / d + 1, j / d, d);
    assert (k / d + 1) * d == k / d * d + d;
  }

  // Entries in different columns are at least min_inter_column_space apart as soon as
  // the widest entry fits on the screen with its gap.
  lemma ColumnsApart(screen: nat, indent: int, top: int, line: nat, widths: seq<nat>, grown: seq<nat>, j: nat, k: nat)
    requires |widths| == |grown| && j < k < |grown|
    requires Widest(widths) + MIN_INTER_COLUMN_SPACE <= screen
    ensures var g := TableGrid(screen, indent, top, line, widths, grown);
            j / g.lines != k / g.lines ==> g.X(j) + widths[j] + MIN_INTER_COLUMN_SPACE <= g.X(k)
  {
    var g := TableGrid(screen, indent, top, line, widths, grown);
    QuotientOrder(j, k, g.lines);
    Widths(|grown|, screen, Widest(widths));
    WidestIsMaximum(widths);
    ProductOrder(j / g.lines, k / g.lines, g.pitch);
  }

  lemma {:induction false} SumGrows(s: seq<nat>, i: nat, j: nat)
    requires i < j <= |s|
    ensures Sum(s[..i]) + s[i] <= Sum(s[..j])
  {
    assert s[..j][..j-1] == s[..j-1];
    if i + 1 < j {
      SumGrows(s, i, j - 1);
    }
  }

  // Entries in the same column are on different lines, in order; a single column also
  // leaves room for what an entry grew by.
  lemma RowsApart(g: Grid, j: nat, k: nat)
    requires g.Valid() && j < k < |g.grown| && j / g.lines == k / g.lines
    ensures g.Y(j) + g.line <= g.Y(k)
    ensures g.columns == 1 ==> g.Y(j) + g.grown[j] + g.line <= g.Y(k)
  {
    if g.columns == 1 {
      ProductOrder(j, k, g.line);
      SumGrows(g.grown, j, k);
    } else {
      QuotientOrder(j, k, g.lines);
      ProductOrder(j % g.lines, k % g.lines, g.line);
    }
  }

  lemma NextInSingleColumn(g: Grid, k: nat)
    requires g.Valid() && g.columns == 1 && k < |g.grown|
    ensures g.Y(0) == g.top && g.Y(k + 1) == g.Y(k) + g.grown[k] + g.line
  {
    assert g.grown[..k+1][..k] == g.grown[..k];
    assert (k + 1) * g.line == k * g.line + g.line;
  }

  lemma NextQuotient(k: nat, d: nat)
    requires d > 0
    ensures if (k + 1) % d == 0 then (k + 1) / d == k / d + 1 else (k + 1) / d == k / d && (k + 1) % d == k % d + 1
  {
    QuotientBounds(k, d);
    if k % d + 1 == d {
      QuotientUnique(k + 1, k / d + 1, 0, d);
      assert (k / d + 1) * d == k / d * d + d;
    } else {
      QuotientUnique(k + 1, k / d, k % d + 1, d);
    }
  }

  // The first entry is at the top of the first column. Each is below the one before it, or at
  // the top of the next column when the lines are used up.
  lemma NextCell(g: Grid, k: nat)
    requires g.Valid() && k + 1 < |g.grown|
    ensures g.X(0) == g.indent && g.Y(0) == g.top
    ensures if (k + 1) % g.lines == 0 then g.X(k + 1) == g.X(k) + g.pitch && g.Y(k + 1) == g.top
            else && g.X(k + 1) == g.X(k)
                 && g.Y(k + 1) == g.Y(k) + g.line + if g.columns == 1 then g.grown[k] else 0
  {
    QuotientUnique(0, 0, 0, g.lines);
    NextQuotient(k, g.lines);
    CellInGrid(|g.grown|, g.lines, g.columns, k + 1);
    if g.columns == 1 {
      NextInSingleColumn(g, k);
    } else {
      assert (k / g.lines + 1) * g.pitch == k / g.lines * g.pitch + g.pitch;
      assert (k % g.lines + 1) * g.line == k % g.lines * g.line + g.line;
    }
  }

  lemma CellInGrid(n: nat, lines: nat, columns: nat, k: nat)
    requires lines > 0 && k < n <= columns * lines
    ensures k / lines < columns
  {
    QuotientBounds(k, lines);
    ProductOrder(columns, k / lines, lines);
  }

  lemma ColumnInScreen(x: nat, columns: nat, pitch: nat, screen: nat)
    requires x < columns && columns * pitch <= screen
    ensures 0 <= x * pitch && x * pitch + pitch <= screen
  {
    ProductOrder(x, columns, pitch);
  }

  // Each entry lies in a column of the grid, and each column lies on the screen.
  lemma CellOnScreen(g: Grid, screen: nat, k: nat)
    requires g.Valid() && g.columns * g.pitch <= screen && k < |g.grown|
    ensures k / g.lines < g.columns && g.indent <= g.X(k) && g.X(k) + g.pitch <= g.indent + screen
  {
    CellInGrid(|g.grown|, g.lines, g.columns, k);
    ColumnInScreen(k / g.lines, g.columns, g.pitch, screen);
  }

  // ----- the formatter ------------------------------------------------------------------

  class Formatter {
    const lineHeight: nat
    const indent: int
    var textX: int
    var textY: int
    var inLine: bool
    var presentLineHeight: int
    var xs: seq<int>
    var ys: seq<int>

    constructor (lineHeight: nat, indent: int, textX: int, textY: int, inLine: bool)
      ensures this.lineHeight == presentLineHeight == lineHeight && this.indent == indent
      ensures this.textX == textX && this.textY == textY && this.inLine == inLine && xs == ys == []
    {
      this.lineHeight, this.indent := lineHeight, indent;
      this.textX, this.textY, this.inLine := textX, textY, inLine;
      presentLineHeight, xs, ys := lineHeight, [], [];
    }

    method StartNewline(distance: int)
      modifies this`textY, this`presentLineHeight, this`inLine
      ensures textY == old(textY) + distance && presentLineHeight == lineHeight && !inLine
    {
      textY := textY + distance;
      presentLineHeight := lineHeight;
      inLine := false;
    }

    method MaxWidth(widths: seq<nat>) returns (m: nat)
      ensures m == Widest(widths)
    {
      m := 0;
      for k := 0 to |widths|
        invariant m == Widest(widths[..k])
      {
        assert widths[..k+1][..k] == widths[..k];
        if widths[k] > m {
          m := widths[k];
        }
      }
      assert widths[..|widths|] == widths;
    }

    // The first n entries are in their cells.
    ghost predicate Placed(g: Grid, n: nat)
      requires g.lines > 0
      reads this`xs, this`ys
    {
      && n <= |g.grown| && |xs| == |ys| == n
      && forall k :: 0 <= k < n ==> xs[k] == g.X(k) && ys[k] == g.Y(k)
    }

    // Lays out column x; each entry of a single column starts below the previous one.
    method FillColumn(g: Grid, x: nat)
      requires g.Valid() && g.line == lineHeight && g.indent == indent
      requires x < g.columns && x * g.lines < |g.grown| && Placed(g, x * g.lines)
      modifies this`textX, this`textY, this`xs, this`ys
      ensures Placed(g, if (x + 1) * g.lines <= |g.grown| then (x + 1) * g.lines else |g.grown|)
      ensures g.columns == 1 ==> textY + lineHeight == g.Y(|g.grown|)
    {
      var y, n := 0, x * g.lines;
      while y < g.lines && n < |g.grown|
        invariant y <= g.lines && n == x * g.lines + y <= |g.grown| && Placed(g, n)
        invariant g.columns == 1 && y > 0 ==> textY + lineHeight == g.Y(n)
      {
        PlaceEntry(g, x, y, n);
        y, n := y + 1, n + 1;
      }
      assert (x + 1) * g.lines == x * g.lines + g.lines;
    }

    method PlaceEntry(g: Grid, x: nat, y: nat, n: nat)
      requires g.Valid() && g.line == lineHeight && g.indent == indent
      requires x < g.columns && y < g.lines && n == x * g.lines + y < |g.grown| && Placed(g, n)
      requires g.columns == 1 && y > 0 ==> textY + lineHeight == g.Y(n)
      modifies this`textX, this`textY, this`xs, this`ys
      ensures Placed(g, n + 1)
      ensures g.columns == 1 ==> textY + lineHeight == g.Y(n + 1)
    {
      QuotientUnique(n, x, y, g.lines);
      if g.columns == 1 {
        NextInSingleColumn(g, n);
      }
      if g.columns == 1 && y > 0 {
        textY := textY + lineHeight;
      } else {
        textY := g.top + y * lineHeight;
      }
      textX := indent + x * g.pitch;
      xs, ys := xs + [textX], ys + [textY];
      textY := textY + g.grown[n];
    }

    // The two ceiling divisions: entries over estimated columns, then over lines.
    method Dimensions(n: nat, screen: nat, widest: nat) returns (columns: nat, lines: nat)
      requires n > 0
      ensures columns == Columns(n, screen, widest) > 0 && lines == Lines(n, screen, widest) > 0
    {
      Shape(n, screen, widest);
      columns := screen / (widest + MIN_INTER_COLUMN_SPACE);
      if columns == 0 {
        columns := 1;
      }
      lines := n / columns;
      if n % columns != 0 {
        lines := lines + 1;
      }
      columns := n / lines;
      if n % lines != 0 {
        columns := columns + 1;
      }
    }

    // grown[k] stands for what the layout of entry k itself adds to textY.
    method ComputeTableExtent(screen: nat, widths: seq<nat>, grown: seq<nat>) returns (ghost g: Grid, height: nat)
      requires |widths| == |grown| > 0 && xs == ys == []
      modifies this
      ensures var top := old(textY) + (if old(inLine) then old(presentLineHeight) else 0);
              g == TableGrid(screen, indent, top, lineHeight, widths, grown)
      ensures Placed(g, |grown|)
      ensures height == g.lines * lineHeight && textX == indent && !inLine
      ensures textY == if g.columns == 1 then g.Y(|grown|) else g.top + height
    {
      var widest := MaxWidth(widths);
      var columns, lines := Dimensions(|widths|, screen, widest);
      if inLine {
        StartNewline(presentLineHeight);
      }
      var top := textY;
      var grid := Grid(columns, lines, screen / columns, indent, top, lineHeight, grown);
      g := TableGrid(screen, indent, top, lineHeight, widths, grown);
      FillColumns(grid);
      height := LeaveTable(grid);
    }

    // The pen goes below the table.
    method LeaveTable(g: Grid) returns (height: nat)
      requires g.Valid() && g.line == lineHeight && g.indent == indent && Placed(g, |g.grown|)
      requires g.columns == 1 ==> textY + lineHeight == g.Y(|g.grown|)
      modifies this`textX, this`textY, this`inLine
      ensures Placed(g, |g.grown|) && height == g.lines * lineHeight && textX == indent && !inLine
      ensures textY == if g.columns == 1 then g.Y(|g.grown|) else g.top + height
    {
      height := g.lines * lineHeight;
      textX := indent;
      textY := if g.columns == 1 then textY + lineHeight else g.top + height;
      inLine := false;
    }

    method FillColumns(g: Grid)
      requires g.Valid() && g.line == lineHeight && g.indent == indent && xs == ys == []
      modifies this`textX, this`textY, this`xs, this`ys
      ensures Placed(g, |g.grown|)
      ensures g.columns == 1 ==> textY + lineHeight == g.Y(|g.grown|)
    {
      var x := 0;
      while x < g.columns
        invariant x <= g.columns
        invariant Placed(g, if x * g.lines <= |g.grown| then x * g.lines else |g.grown|)
        invariant g.columns == 1 && x > 0 ==> textY + lineHeight == g.Y(|g.grown|)
      {
        ProductOrder(x, g.columns - 1, g.lines);
        FillColumn(g, x);
        x := x + 1;
      }
    }
  }
}
