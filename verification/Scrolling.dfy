// Scroll bar arithmetic (src/hyper/scrollbar.c): pixel offsets under the truncating
// division of C.
module Scrolling {

  import opened CArithmetic

  const SCROLL_TOP_MARGIN: int := 5

  // The page margins, the border and the height of an arrow button, all in pixels.
  datatype Frame = Frame(top: int, bottom: int, border: int, arrow: int) {
    // Height of the bar between the arrows, before the correction for the top margin.
    function BareBar(): int { bottom - top - 2 * arrow - 2 * border }

    // Whole lines that fit between the margins, in pixels.
    function View(lineHeight: int): int
      requires lineHeight > 0
    {
      var room := bottom - top - SCROLL_TOP_MARGIN;
      room - CMod(room, lineHeight)
    }
  }

  // What the scroll actions read: the page, the view of it, and the scroll bar.
  datatype Geometry = Geometry(line: int, page: int, view: int, bar: int, scroller: int) {
    // The page is longer than the view, the view shows at least one whole line, and the
    // scroller has the height that calculateScrollBarMeasures gives it.
    ghost predicate Scrollable() {
      && 0 < line <= view < page
      && scroller == 1 + 2 * SCROLL_TOP_MARGIN + CDiv((bar - 2 * SCROLL_TOP_MARGIN) * view, page)
    }

    // How far the page extends below the view.
    function Slack(): int { page - view }
  }

  // Offsets are zero or negative; the page has been moved up by -off pixels.
  datatype Position = Position(off: int, top: int)

  datatype Action = LineUp | LineDown | PageUp | PageDown | Home | Click(y: int)

  function RoundUp(height: int, line: int): int
    requires line > 0
  {
    var rem := CMod(height, line);
    if rem == 0 then height else height - rem + line
  }

  // The offset for a press at height y of the bar, when the scroller fits below it.
  function ClickTarget(g: Geometry, y: int): int
    requires g.line > 0 && g.bar > 0
  {
    var t := CDiv(-g.page * y, g.bar);
    t - CMod(t, g.line)
  }

  function ScrollerTop(g: Geometry, off: int): int
    requires g.page > 0
  {
    CDiv(g.bar * -off, g.page)
  }

  // Redrawing the page at an offset moves the scroller along.
  function MovedTo(g: Geometry, off: int): Position
    requires g.page > 0
  {
    Position(off, ScrollerTop(g, off))
  }

  function Step(g: Geometry, p: Position, a: Action): Position
    requires g.Scrollable()
  {
    match a
    case LineUp =>
      if p.off == 0 then p else MovedTo(g, Min(p.off + g.line, 0))
    case LineDown =>
      if -p.off >= g.Slack() then p else MovedTo(g, p.off - g.line)
    case PageUp =>
      if p.off == 0 then p else MovedTo(g, Min(p.off + RoundUp(g.view, g.line) - g.line, 0))
    case PageDown =>
      if -p.off >= g.Slack() then p
      else MovedTo(g, -Min(-p.off + RoundUp(g.view, g.line) - g.line, g.Slack()))
    case Home =>
      if p.off == 0 then p else MovedTo(g, 0)
    case Click(y) =>
      if y < 0 then if p.top == 0 then p else MovedTo(g, 0)
      else if y + g.scroller > g.bar then
        if g.bar - g.scroller == p.top then p
        else MovedTo(g, -g.Slack() - CMod(-g.Slack(), g.line))
      else
        FittingPressNeedsBar(g, y);
        var t := ClickTarget(g, y);
        if p.off == t then p else MovedTo(g, t)
  }

  function Run(g: Geometry, p: Position, actions: seq<Action>): Position
    requires g.Scrollable()
    decreases |actions|
  {
    if actions == [] then p else Run(g, Step(g, p, actions[0]), actions[1..])
  }

  // ----- arithmetic ---------------------------------------------------------------

  // Rounding to whole lines is toward zero, so a non-positive offset stays one.
  lemma RoundedOffset(t: int, line: int)
    requires t <= 0 && line > 0
    ensures (t - CMod(t, line)) % line == 0
    ensures t <= t - CMod(t, line) <= 0
    ensures t - CMod(t, line) < t + line
  {
    var q, r := (-t) / line, (-t) % line;
    QuotientBounds(-t, line);
    ProductOrder(0, q, line);
    assert t + r == (-q) * line + 0;
    QuotientUnique(t + r, -q, 0, line);
  }

  // ----- the scroller -------------------------------------------------------------

  // A bar shorter than its margins takes less than itself off the scroller.
  lemma ShortBar(bare: int, view: int, page: int)
    requires bare < 0 < view < page
    ensures CDiv(bare * view, page) >= bare
  {
    var n := -bare;
    ProductOrder(view, page, n);
    assert bare * view == -(view * n);
    assert view * n <= page * n == n * page && (n + 1) * page == n * page + page;
    QuotientBelow(view * n, page, n + 1);
  }

  // A press within the bar never divides by an empty bar.
  lemma FittingPressNeedsBar(g: Geometry, y: int)
    requires g.Scrollable() && y >= 0 && y + g.scroller <= g.bar
    ensures g.bar > 2 * SCROLL_TOP_MARGIN
  {
    if g.bar < 2 * SCROLL_TOP_MARGIN {
      ShortBar(g.bar - 2 * SCROLL_TOP_MARGIN, g.view, g.page);
    }
  }

  // A press that leaves room for the scroller, with the truncation left out.
  lemma PressBelowSlack(g: Geometry, y: int)
    requires g.Scrollable() && y >= 0 && y + g.scroller <= g.bar
    ensures g.bar > 0 && 0 <= g.page * y < g.Slack() * g.bar
  {
    FittingPressNeedsBar(g, y);
    var bare := g.bar - 2 * SCROLL_TOP_MARGIN;
    ProductOrder(0, bare, g.view);
    ShareAbovePress(g.bar, bare, g.view, g.page, y);
  }

  lemma ShareAbovePress(bar: int, bare: int, view: int, page: int, y: int)
    requires 0 <= bare <= bar && 0 < view < page && 0 <= y <= bare - bare * view / page - 1
    ensures 0 <= page * y < (page - view) * bar
  {
    var share := bare * view / page;
    QuotientBounds(bare * view, page);
    ProductOrder(y + 1, bare - share, page);
    ProductOrder(0, y, page);
    ProductOrder(bare, bar, page - view);
    Distributes(y, 1, page);
    Distributes(bare - share, share, page);
    Distributes(page - view, view, bare);
    Commutes(y, page);
    Commutes(bare, page);
    Commutes(bare, view);
    Commutes(bare, page - view);
    Commutes(bar, page - view);
  }

  // The truncated share of a product that is not positive.
  lemma ShareOfNegative(a: int, b: int, d: int)
    requires a <= 0 <= b && d > 0
    ensures CDiv(a * b, d) == -((-a) * b / d)
  {
    ProductOrder(0, -a, b);
    Distributes(a, -a, b);
    QuotientBelow(0, d, 1);
    QuotientBelow(0, d, 0);
  }

  // It moves the page to a whole number of lines and never past the last view.
  lemma ClickBound(g: Geometry, y: int)
    requires g.Scrollable() && y >= 0 && y + g.scroller <= g.bar
    ensures g.bar > 0
    ensures var t := ClickTarget(g, y);
            t % g.line == 0 && 0 <= -t < g.Slack() && -t <= g.page * y / g.bar < -t + g.line
  {
    PressBelowSlack(g, y);
    var moved := g.page * y;
    QuotientBelow(moved, g.bar, g.Slack());
    QuotientBelow(moved, g.bar, 0);
    ShareOfNegative(-g.page, y, g.bar);
    RoundedOffset(-(moved / g.bar), g.line);
  }

  // ----- every run of scroll actions -------------------------------------------------

  // The page is never above its first line nor a full line past its last view, and the
  // scroller shows where it is.
  ghost predicate Settled(g: Geometry, p: Position)
    requires g.page > 0
  {
    0 <= -p.off < g.Slack() + g.line && p.top == ScrollerTop(g, p.off)
  }

  lemma RoundUpFixesLines(g: Geometry)
    requires g.Scrollable() && g.view % g.line == 0
    ensures RoundUp(g.view, g.line) == g.view
  {
  }

  lemma StepKeepsSettled(g: Geometry, p: Position, a: Action)
    requires g.Scrollable() && g.view % g.line == 0 && Settled(g, p)
    ensures Settled(g, Step(g, p, a))
  {
    if a.Click? {
      if 0 <= a.y && a.y + g.scroller <= g.bar {
        ClickBound(g, a.y);
      } else {
        RoundedOffset(-g.Slack(), g.line);
      }
    }
  }

  lemma {:induction false} RunKeepsSettled(g: Geometry, p: Position, actions: seq<Action>)
    requires g.Scrollable() && g.view % g.line == 0 && Settled(g, p)
    ensures Settled(g, Run(g, p, actions))
    decreases |actions|
  {
    if actions != [] {
      StepKeepsSettled(g, p, actions[0]);
      RunKeepsSettled(g, Step(g, p, actions[0]), actions[1..]);
    }
  }

  function PageDowns(g: Geometry, p: Position, n: nat): Position
    requires g.Scrollable()
    decreases n
  {
    if n == 0 then p else PageDowns(g, Step(g, p, PageDown), n - 1)
  }

  // Each page keeps one line of the previous page in view, until the bottom is reached.
  lemma {:induction false} PageDownsReach(g: Geometry, p: Position, n: nat)
    requires g.Scrollable() && g.view % g.line == 0 && 0 <= -p.off <= g.Slack()
    ensures -PageDowns(g, p, n).off == Min(-p.off + n * (g.view - g.line), g.Slack())
    decreases n
  {
    if n > 0 {
      var stride := g.view - g.line;
      var q := Step(g, p, PageDown);
      PageDownsReach(g, q, n - 1);
      ProductOrder(0, n - 1, stride);
      assert n * stride == (n - 1) * stride + stride;
    }
  }

  // The bottom is reached in exactly the number of strides that cover the slack; a view
  // of a single line never gets there.
  lemma BottomReached(g: Geometry, p: Position, n: nat)
    requires g.Scrollable() && g.view % g.line == 0 && 0 <= -p.off <= g.Slack()
    ensures -PageDowns(g, p, n).off == g.Slack() <==> g.Slack() + p.off <= n * (g.view - g.line)
    ensures g.view > g.line ==>
              exists k: nat :: k <= g.Slack() + p.off && -PageDowns(g, p, k).off == g.Slack()
  {
    PageDownsReach(g, p, n);
    var k := g.Slack() + p.off;
    PageDownsReach(g, p, k);
    if g.view > g.line {
      ProductOrder(1, g.view - g.line, k);
      assert -PageDowns(g, p, k).off == g.Slack();
    }
  }

  function PageUps(g: Geometry, p: Position, n: nat): Position
    requires g.Scrollable()
    decreases n
  {
    if n == 0 then p else PageUps(g, Step(g, p, PageUp), n - 1)
  }

  // The same on the way up, until the top is reached.
  lemma {:induction false} PageUpsReach(g: Geometry, p: Position, n: nat)
    requires g.Scrollable() && g.view % g.line == 0 && p.off <= 0
    ensures PageUps(g, p, n).off == Min(p.off + n * (g.view - g.line), 0)
    decreases n
  {
    if n > 0 {
      var stride := g.view - g.line;
      var q := Step(g, p, PageUp);
      PageUpsReach(g, q, n - 1);
      ProductOrder(0, n - 1, stride);
      assert n * stride == (n - 1) * stride + stride;
    }
  }

  // Page up undoes page down exactly when that began at the top or was not cut short at the
  // bottom, and page down undoes page up exactly when that was not cut short at the top.
  lemma PagesUndo(g: Geometry, p: Position)
    requires g.Scrollable() && g.view % g.line == 0 && Settled(g, p) && -p.off < g.Slack()
    ensures var stride := g.view - g.line;
            && (Step(g, Step(g, p, PageDown), PageUp) == p <==> p.off == 0 || -p.off + stride <= g.Slack())
            && (Step(g, Step(g, p, PageUp), PageDown) == p <==> -p.off >= stride)
  {
    var down, up := Step(g, p, PageDown), Step(g, p, PageUp);
    StepKeepsSettled(g, p, PageDown);
    StepKeepsSettled(g, p, PageUp);
    StepKeepsSettled(g, down, PageUp);
    StepKeepsSettled(g, up, PageDown);
    PagesBack(g, p.off, down.off, up.off);
    assert Step(g, down, PageUp).off == Min(down.off + (g.view - g.line), 0);
  }

  // Where a page down and a page up lead, and what undoing them comes to.
  lemma PagesBack(g: Geometry, off: int, down: int, up: int)
    requires g.Scrollable() && 0 <= -off < g.Slack()
    requires down == -Min(-off + g.view - g.line, g.Slack()) && up == Min(off + g.view - g.line, 0)
    ensures Min(down + g.view - g.line, 0) == off <==> off == 0 || -off + g.view - g.line <= g.Slack()
    ensures -up < g.Slack() && (-Min(-up + g.view - g.line, g.Slack()) == off <==> -off >= g.view - g.line)
  {
  }

  // Home shows the first line, with the scroller at the top.
  lemma HomeIsTop(g: Geometry, p: Position)
    requires g.Scrollable() && Settled(g, p)
    ensures Step(g, p, Home) == Position(0, 0)
  {
    QuotientUnique(0, 0, 0, g.page);
    assert g.bar * 0 == 0;
  }

  // A press above the bar leaves the scroller at the top. It shows the first line unless the
  // scroller was at the top of a page that was scrolled.
  lemma PressAbove(g: Geometry, p: Position, y: int)
    requires g.Scrollable() && Settled(g, p) && y < 0
    ensures var q := Step(g, p, Click(y));
            && q.top == 0 && q.off in {0, p.off} && (q.off == 0 <==> p.off == 0 || p.top != 0)
  {
    HomeIsTop(g, p);
  }

  // A press where the scroller does not fit below scrolls to the last whole number of lines
  // that is not past the last view, unless the scroller was as low as it goes.
  lemma PressBelow(g: Geometry, p: Position, y: int)
    requires g.Scrollable() && Settled(g, p) && y >= 0 && y + g.scroller > g.bar
    ensures var q := Step(g, p, Click(y));
            if p.top == g.bar - g.scroller then q == p
            else q.off % g.line == 0 && g.Slack() - g.line < -q.off <= g.Slack() && q.top == ScrollerTop(g, q.off)
  {
    RoundedOffset(-g.Slack(), g.line);
  }

  // Line up undoes line down whenever line down moved; line down undoes line up exactly
  // when line up was not cut short at the top.
  lemma LinesUndo(g: Geometry, p: Position)
    requires g.Scrollable() && Settled(g, p)
    ensures -p.off < g.Slack() ==> Step(g, Step(g, p, LineDown), LineUp) == p
    ensures Step(g, Step(g, p, LineUp), LineDown) == p <==> -p.off >= g.line
  {
  }

  // ----- laying out the scroll bar -----------------------------------------------------

  // The result of calculateScrollBarMeasures for a page that needs a scroll bar.
  function MeasuredGeometry(f: Frame, line: int, page: int): (g: Geometry)
    requires line > 0 && page > 0
  {
    var view := f.View(line);
    Geometry(line, page, view, f.BareBar() + 2 * SCROLL_TOP_MARGIN,
             1 + 2 * SCROLL_TOP_MARGIN + CDiv(f.BareBar() * view, page))
  }

  function Clamped(g: Geometry, off: int): int {
    if -off > g.Slack() then -g.Slack() else off
  }

  lemma ViewHoldsLine(f: Frame, line: int)
    requires 0 < line <= f.bottom - f.top - SCROLL_TOP_MARGIN
    ensures line <= f.View(line) && f.View(line) % line == 0
  {
    var room := f.bottom - f.top - SCROLL_TOP_MARGIN;
    QuotientBounds(room, line);
    QuotientBelow(room, line, 1);
    QuotientUnique(f.View(line), room / line, 0, line);
    ProductSign(room / line, line);
  }

  // The view is as many whole lines as there is room for, and the bar, but for the correction,
  // is what arrows and borders leave. The scroller, but for the correction, is the share of
  // that bar that the view is of the page.
  lemma MeasuredFills(f: Frame, line: int, page: int)
    requires 0 < line <= f.bottom - f.top - SCROLL_TOP_MARGIN && f.View(line) < page && f.BareBar() >= 0
    ensures page > 0
    ensures var g := MeasuredGeometry(f, line, page);
            && g.view % line == 0 && g.view <= f.bottom - f.top - SCROLL_TOP_MARGIN < g.view + line
            && g.bar - 2 * SCROLL_TOP_MARGIN + 2 * f.arrow + 2 * f.border == f.bottom - f.top
            && var bare, share := g.bar - 2 * SCROLL_TOP_MARGIN, g.scroller - 2 * SCROLL_TOP_MARGIN - 1;
               share * page <= bare * g.view < share * page + page
  {
    ViewHoldsLine(f, line);
    QuotientBounds(f.bottom - f.top - SCROLL_TOP_MARGIN, line);
    ProductOrder(0, f.BareBar(), f.View(line));
    QuotientBounds(f.BareBar() * f.View(line), page);
  }

  // A bar laid out for a page longer than the view obeys Scrollable.
  lemma MeasuredIsScrollable(f: Frame, line: int, page: int)
    requires 0 < line <= f.bottom - f.top - SCROLL_TOP_MARGIN && f.View(line) < page
    ensures page > 0 && MeasuredGeometry(f, line, page).Scrollable()
  {
    ViewHoldsLine(f, line);
  }

  // The correction for integer error lets the scroller overhang a bar that is not empty by
  // at most twice the top margin.
  lemma ScrollerOverhang(g: Geometry, off: int)
    requires g.Scrollable() && 0 <= -off <= g.Slack() && g.bar > 0
    ensures 0 <= ScrollerTop(g, off)
    ensures ScrollerTop(g, off) + g.scroller <= g.bar + 2 * SCROLL_TOP_MARGIN
  {
    var bare := g.bar - 2 * SCROLL_TOP_MARGIN;
    if bare >= 0 {
      SharesBelowBar(g.bar, bare, g.view, g.page, -off);
      TwoQuotientsBelow(g.bar * -off, bare * g.view, g.page, g.bar);
    } else {
      SharesBelowBar(g.bar, 0, g.view, g.page, -off);
      TwoQuotientsBelow(g.bar * -off, 0, g.page, g.bar);
      ShareNotPositive(bare, g.view, g.page);
    }
  }

  lemma ShareNotPositive(bare: int, view: int, page: int)
    requires bare < 0 < view < page
    ensures CDiv(bare * view, page) <= 0
  {
    ProductOrder(bare, -1, view);
    QuotientBelow(-(bare * view), page, 0);
  }

  // A bar that is empty or of negative height keeps the bound exactly when what truncation
  // gives back of the two shares makes up for it. An empty one does for a page of at most
  // twice the top margin's number of views; for a longer page none does.
  lemma EmptyBarOverhang(g: Geometry, off: int)
    requires g.Scrollable() && 0 <= -off <= g.Slack() && g.bar <= 0
    ensures ScrollerTop(g, off) + g.scroller <= g.bar + 2 * SCROLL_TOP_MARGIN <==>
            1 - g.bar <= (-g.bar) * (-off) / g.page + (2 * SCROLL_TOP_MARGIN - g.bar) * g.view / g.page
    ensures g.page > 2 * SCROLL_TOP_MARGIN * g.view ==>
              ScrollerTop(g, off) + g.scroller > g.bar + 2 * SCROLL_TOP_MARGIN
    ensures g.bar == 0 && g.page <= 2 * SCROLL_TOP_MARGIN * g.view ==>
              ScrollerTop(g, off) + g.scroller <= g.bar + 2 * SCROLL_TOP_MARGIN
  {
    ShareOfNegative(g.bar, -off, g.page);
    ShareOfNegative(g.bar - 2 * SCROLL_TOP_MARGIN, g.view, g.page);
    if g.page > 2 * SCROLL_TOP_MARGIN * g.view {
      SharesOfNegativeBelow(-g.bar, 2 * SCROLL_TOP_MARGIN, g.view, g.page, -off);
    } else if g.bar == 0 {
      QuotientBelow(2 * SCROLL_TOP_MARGIN * g.view, g.page, 1);
      QuotientBelow(0, g.page, 0);
    }
  }

  lemma SharesOfNegativeBelow(depth: int, margin: int, view: int, page: int, up: int)
    requires depth >= 0 && margin >= 0 && 0 < view < page && 0 <= up <= page - view && margin * view < page
    ensures depth * up / page + (margin + depth) * view / page < depth + 1
  {
    ProductOrder(0, up, depth);
    ProductOrder(up, page - view, depth);
    ProductOrder(0, margin + depth, view);
    Distributes(margin, depth, view);
    Distributes(page - view, view, depth);
    Distributes(depth, 1, page);
    Commutes(depth, up);
    Commutes(depth, view);
    Commutes(depth, page);
    TwoQuotientsBelow(depth * up, (margin + depth) * view, page, depth + 1);
  }

  // Windows whose measures overhang an empty bar, and one of negative height.
  lemma EmptyBarOverhangs()
    ensures var g := MeasuredGeometry(Frame(0, 10, 0, 10), 5, 100);
            g.Scrollable() && g.bar == 0 && ScrollerTop(g, 0) + g.scroller > g.bar + 2 * SCROLL_TOP_MARGIN
    ensures var g := MeasuredGeometry(Frame(0, 10, 1, 10), 5, 100);
            g.Scrollable() && g.bar < 0 && ScrollerTop(g, 0) + g.scroller > g.bar + 2 * SCROLL_TOP_MARGIN
  {
  }

  // Where a redraw puts the scroller: at the top exactly while less than a pixel's worth of
  // page is scrolled, never higher for a page that is scrolled further.
  lemma ScrollerFollowsPage(g: Geometry, off: int, further: int)
    requires g.Scrollable() && g.bar > 0 && 0 <= -off <= -further
    ensures 0 <= ScrollerTop(g, off) <= ScrollerTop(g, further)
    ensures g.page * ScrollerTop(g, off) <= g.bar * -off < g.page * (ScrollerTop(g, off) + 1)
    ensures ScrollerTop(g, off) == 0 <==> g.bar * -off < g.page
  {
    RaisedBar(g.bar, -off, -further);
    ShareBrackets(g.bar * -off, g.bar * -further, g.page);
  }

  lemma RaisedBar(bar: int, up: int, further: int)
    requires bar > 0 && 0 <= up <= further
    ensures 0 <= bar * up <= bar * further
  {
    ProductOrder(0, up, bar);
    ProductOrder(up, further, bar);
    assert bar * up == up * bar && bar * further == further * bar;
  }

  lemma ShareBrackets(a: int, b: int, d: int)
    requires d > 0 && 0 <= a <= b
    ensures 0 <= a / d <= b / d && d * (a / d) <= a < d * (a / d + 1)
    ensures a / d == 0 <==> a < d
  {
    QuotientBounds(a, d);
    QuotientBelow(a, d, 0);
    QuotientBelow(a, d, 1);
    QuotientBelow(b, d, a / d);
    assert d * (a / d) == a / d * d && d * (a / d + 1) == a / d * d + d;
  }

  lemma SharesBelowBar(bar: int, bare: int, view: int, page: int, up: int)
    requires 0 <= bare < bar && 0 < view < page && 0 <= up <= page - view
    ensures 0 <= bar * up && 0 <= bare * view && bar * up + bare * view < bar * page
  {
    assert bar * up <= bar * (page - view);
    assert bare * view < bar * view;
    assert bar * (page - view) == bar * page - bar * view;
  }

  lemma TwoQuotientsBelow(a: int, b: int, d: int, k: int)
    requires d > 0 && a >= 0 && b >= 0 && a + b < k * d
    ensures 0 <= a / d && a / d + b / d < k
  {
    QuotientBounds(a, d);
    QuotientBounds(b, d);
    QuotientBelow(a, d, 0);
    var x := a / d + b / d;
    assert x * d == a / d * d + b / d * d;
    ProductOrder(k, x, d);
  }

  lemma BarBrackets(bar: int, moved: int, up: int, line: int)
    requires bar > 0 && 0 <= up <= moved / bar < up + line
    ensures 0 <= bar * up <= moved < bar * up + line * bar
  {
    QuotientBounds(moved, bar);
    var q := moved / bar;
    ProductOrder(up, q, bar);
    ProductOrder(q, up + line, bar);
    Distributes(up, line, bar);
    Commutes(up, bar);
  }

  lemma PageBrackets(above: int, page: int, y: int, k: int)
    requires page > 0 && 0 <= above <= page * y < above + k
    ensures above / page <= y && (y - above / page - 1) * page < k
  {
    QuotientBounds(above, page);
    QuotientBelow(above, page, y + 1);
    assert (y + 1) * page == page * y + page;
    assert (y - above / page - 1) * page == page * y - above / page * page - page;
  }

  // A press puts the scroller at the press, or above it by at most one pixel more than
  // one line of the page is worth on the bar; laying out the bar again keeps it there.
  lemma PressMovesScroller(g: Geometry, p: Position, y: int)
    requires g.Scrollable() && Settled(g, p) && y >= 0 && y + g.scroller <= g.bar
    ensures var q := Step(g, p, Click(y));
            && q.top <= y && (y - q.top - 1) * g.page < g.line * g.bar
            && MovedTo(g, Clamped(g, q.off)) == q
  {
    ClickBound(g, y);
    var up := -ClickTarget(g, y);
    BarBrackets(g.bar, g.page * y, up, g.line);
    PageBrackets(g.bar * up, g.page, y, g.line * g.bar);
  }

  // ----- the window ----------------------------------------------------------------------

  class ScrollWindow {
    const line: int
    var page: int
    var view: int
    var bar: int
    var scroller: int
    var top: int
    var off: int

    function Geo(): Geometry
      reads this
    {
      Geometry(line, page, view, bar, scroller)
    }

    function Pos(): Position
      reads this
    {
      Position(off, top)
    }

    // A page that fits in the view stays put; a longer one is settled on its scroll bar.
    ghost predicate Valid()
      reads this
    {
      && 0 < line <= view && view % line == 0
      && (page <= view ==> off == 0)
      && (page > view ==> Geo().Scrollable() && Settled(Geo(), Pos()))
    }

    constructor (line: int)
      ensures this.line == line && off == 0
    {
      this.line := line;
      page, view, bar, scroller, top, off := 0, 0, 0, 0, 0, 0;
    }

    // Called whenever the page or the window has changed size.
    method CalculateMeasures(f: Frame, newPage: int)
      requires 0 < line <= f.bottom - f.top - SCROLL_TOP_MARGIN && off <= 0
      modifies this
      ensures Valid() && page == newPage && view == f.View(line)
      ensures page > view ==>
                && Geo() == MeasuredGeometry(f, line, newPage)
                && Pos() == MovedTo(Geo(), Clamped(Geo(), old(off)))
                && -off == Min(-old(off), page - view)
    {
      page := newPage;
      view := f.bottom - f.top - SCROLL_TOP_MARGIN;
      view := view - CMod(view, line);
      ViewHoldsLine(f, line);
      if view >= page {
        off := 0;
        return;
      }
      MeasuredIsScrollable(f, line, page);
      bar := f.bottom - f.top - 2 * f.arrow - 2 * f.border;
      scroller := 1 + 2 * SCROLL_TOP_MARGIN + CDiv(bar * view, page);
      if -off > page - view {
        off := -(page - view);
      }
      bar := bar + 2 * SCROLL_TOP_MARGIN;
      MoveScroller();
    }

    method MoveScroller()
      requires page > 0
      modifies this`top
      ensures top == ScrollerTop(Geo(), off)
    {
      var t := bar * (-off);
      top := CDiv(t, page);
    }

    method ScrollUp()
      requires Valid()
      modifies this`off, this`top
      ensures Valid()
      ensures Pos() == if page <= view then old(Pos()) else Step(Geo(), old(Pos()), LineUp)
    {
      if off != 0 {
        off := off + line;
        if off > 0 {
          off := 0;
        }
        MoveScroller();
      }
    }

    method ScrollUpPage()
      requires Valid()
      modifies this`off, this`top
      ensures Valid()
      ensures Pos() == if page <= view then old(Pos()) else Step(Geo(), old(Pos()), PageUp)
    {
      if off != 0 {
        off := off + (RoundUp(view, line) - line);
        if off > 0 {
          off := 0;
        }
        MoveScroller();
      }
    }

    method ScrollToFirstPage()
      requires Valid()
      modifies this`off, this`top
      ensures Valid()
      ensures Pos() == if page <= view then old(Pos()) else Step(Geo(), old(Pos()), Home)
    {
      if off != 0 {
        off := 0;
        MoveScroller();
      }
    }

    method ScrollDown()
      requires Valid()
      modifies this`off, this`top
      ensures Valid()
      ensures Pos() == if page <= view then old(Pos()) else Step(Geo(), old(Pos()), LineDown)
    {
      if -off < page - view {
        off := off - line;
        MoveScroller();
      }
    }

    method ScrollDownPage()
      requires Valid()
      modifies this`off, this`top
      ensures Valid()
      ensures Pos() == if page <= view then old(Pos()) else Step(Geo(), old(Pos()), PageDown)
    {
      if -off < page - view {
        off := off - (RoundUp(view, line) - line);
        if -off > page - view {
          off := -(page - view);
        }
        MoveScroller();
      }
    }

    // The scroll bar is on screen only for a page longer than the view.
    method ScrollScroller(y: int)
      requires Valid() && page > view
      modifies this`off, this`top
      ensures Valid() && Pos() == Step(Geo(), old(Pos()), Click(y))
    {
      StepKeepsSettled(Geo(), Pos(), Click(y));
      if y < 0 {
        if top == 0 {
          return;
        }
        off := 0;
      } else if y + scroller > bar {
        if bar - scroller == top {
          return;
        }
        off := -(page - view);
        off := off - CMod(off, line);
      } else {
        FittingPressNeedsBar(Geo(), y);
        var t := -page * y;
        t := CDiv(t, bar);
        t := t - CMod(t, line);
        if off == t {
          return;
        }
        off, top := t, y;
      }
      MoveScroller();
    }
  }
}
