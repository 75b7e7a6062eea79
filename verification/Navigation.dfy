// The memo and downlink stacks of a window (src/hyper/event.c).
module Navigation {
  import opened Wrappers

  const MAX_MEMO_DEPTH: nat := 25
  const MAX_DOWNLINK_DEPTH: nat := 50

  // The stacks as the arrays hold them: entries at and above an index are stale but not
  // gone. tops records the downlink index at each memolink.
  datatype Nav<P> = Nav(page: P, memo: seq<P>, tops: seq<nat>, memoIndex: nat, down: seq<P>, downIndex: nat) {
    ghost predicate Valid() {
      && |memo| == |tops| == MAX_MEMO_DEPTH && memoIndex <= MAX_MEMO_DEPTH
      && |down| == MAX_DOWNLINK_DEPTH && downIndex <= MAX_DOWNLINK_DEPTH
      && forall i :: 0 <= i < memoIndex ==> tops[i] <= MAX_DOWNLINK_DEPTH
    }

    // The downlink index below which uplink must not pop.
    function Mark(): nat
      requires memoIndex <= |tops|
    {
      if memoIndex == 0 then 0 else tops[memoIndex-1]
    }

    // need_up_button: whether the window offers an up button.
    predicate NeedUpButton()
      requires memoIndex <= |tops|
    {
      if memoIndex == 0 then downIndex > 0 else downIndex >= tops[memoIndex-1]
    }
  }

  datatype Op<P> = Link(target: P) | Downlink(target: P) | Memolink(target: P) | Up | Return

  function PushDown<P>(n: Nav<P>): Nav<P>
    requires n.Valid()
  {
    if n.downIndex == MAX_DOWNLINK_DEPTH then n
    else n.(down := n.down[n.downIndex := n.page], downIndex := n.downIndex + 1)
  }

  function PushMemo<P>(n: Nav<P>): Nav<P>
    requires n.Valid()
  {
    if n.memoIndex == MAX_MEMO_DEPTH then n
    else
      n.(memo := n.memo[n.memoIndex := n.page], tops := n.tops[n.memoIndex := n.downIndex],
         memoIndex := n.memoIndex + 1)
  }

  function PopMemo<P>(n: Nav<P>): Nav<P>
    requires n.Valid()
  {
    if n.memoIndex == 0 then n
    else n.(page := n.memo[n.memoIndex-1], memoIndex := n.memoIndex - 1, downIndex := n.tops[n.memoIndex-1])
  }

  function PopDown<P>(n: Nav<P>): Nav<P>
    requires n.Valid()
  {
    if n.downIndex == 0 then PopMemo(n)
    else n.(page := n.down[n.downIndex-1], downIndex := n.downIndex - 1)
  }

  // Following one link, including the change of page by the event handler.
  function Step<P>(n: Nav<P>, op: Op<P>): (r: Nav<P>)
    requires n.Valid()
    ensures r.Valid()
  {
    match op
    case Link(target) => n.(page := target)
    case Downlink(target) => PushDown(n).(page := target)
    case Memolink(target) => PushMemo(n).(page := target)
    case Up => PopDown(n)
    case Return => PopMemo(n)
  }

  function Run<P>(n: Nav<P>, ops: seq<Op<P>>): (r: Nav<P>)
    requires n.Valid()
    ensures r.Valid()
    decreases |ops|
  {
    if ops == [] then n else Run(Step(n, ops[0]), ops[1..])
  }

  // ----- the stacks as sequences ------------------------------------------------------------

  datatype Memo<P> = Memo(page: P, depth: nat)

  // A window as its user sees it: the page on display, the pages that the up button leads
  // back through, and those that returns lead to, each with how many of the former there were.
  datatype View<P> = View(page: P, down: seq<P>, memos: seq<Memo<P>>) {
    function Back(): View<P> {
      if memos == [] then this
      else
        var last := memos[|memos|-1];
        View(last.page, if last.depth <= |down| then down[..last.depth] else down, memos[..|memos|-1])
    }

    function Follow(op: Op<P>): View<P> {
      match op
      case Link(target) => View(target, down, memos)
      case Downlink(target) => View(target, if |down| < MAX_DOWNLINK_DEPTH then down + [page] else down, memos)
      case Memolink(target) =>
        View(target, down, if |memos| < MAX_MEMO_DEPTH then memos + [Memo(page, |down|)] else memos)
      case Up => if down == [] then Back() else View(down[|down|-1], down[..|down|-1], memos)
      case Return => Back()
    }

    function FollowAll(ops: seq<Op<P>>): View<P>
      decreases |ops|
    {
      if ops == [] then this else Follow(ops[0]).FollowAll(ops[1..])
    }
  }

  function Seen<P>(n: Nav<P>): View<P>
    requires n.Valid()
  {
    View(n.page, n.down[..n.downIndex],
         seq(n.memoIndex, i requires 0 <= i < n.memoIndex => Memo(n.memo[i], n.tops[i])))
  }

  // A step shows the page that it should and leaves both stacks as it should, unless it is a
  // return after uplinks that went below what was there at the memolink.
  lemma StepIsSeen<P>(n: Nav<P>, op: Op<P>)
    requires n.Valid() && (op.Return? || (op.Up? && n.downIndex == 0) ==> n.Mark() <= n.downIndex)
    ensures Seen(Step(n, op)) == Seen(n).Follow(op)
  {
    if op.Memolink? && n.memoIndex < MAX_MEMO_DEPTH {
      assert Seen(Step(n, op)).memos == Seen(n).memos + [Memo(n.page, n.downIndex)];
    } else if op.Downlink? && n.downIndex < MAX_DOWNLINK_DEPTH {
      assert Seen(Step(n, op)).down == Seen(n).down + [n.page];
    } else if (op.Return? || (op.Up? && n.downIndex == 0)) && n.memoIndex > 0 {
      assert Seen(Step(n, op)).memos == Seen(n).memos[..n.memoIndex-1];
      assert Seen(Step(n, op)).down == Seen(n).down[..n.tops[n.memoIndex-1]];
    }
  }

  // No return of the run comes after such uplinks.
  ghost predicate ReturnsAbove<P>(n: Nav<P>, ops: seq<Op<P>>)
    requires n.Valid()
    decreases |ops|
  {
    ops == [] ||
    ((ops[0].Return? || (ops[0].Up? && n.downIndex == 0) ==> n.Mark() <= n.downIndex)
     && ReturnsAbove(Step(n, ops[0]), ops[1..]))
  }

  lemma {:induction false} RunIsSeen<P>(n: Nav<P>, ops: seq<Op<P>>)
    requires n.Valid() && ReturnsAbove(n, ops)
    ensures Seen(Run(n, ops)) == Seen(n).FollowAll(ops)
    decreases |ops|
  {
    if ops != [] {
      StepIsSeen(n, ops[0]);
      RunIsSeen(Step(n, ops[0]), ops[1..]);
    }
  }

  // ----- returning --------------------------------------------------------------------------

  // A run that stays inside depth memolinks: no uplink pops below the current mark, no
  // return leaves the depth, and no memolink is refused.
  ghost predicate WellNested<P>(n: Nav<P>, depth: nat, ops: seq<Op<P>>)
    requires n.Valid()
    decreases |ops|
  {
    if ops == [] then n.memoIndex == depth
    else
      && (ops[0].Up? ==> n.downIndex > n.Mark())
      && (ops[0].Return? ==> n.memoIndex > depth)
      && (ops[0].Memolink? ==> n.memoIndex < MAX_MEMO_DEPTH)
      && WellNested(Step(n, ops[0]), depth, ops[1..])
  }

  // What a run inside depth memolinks keeps of the state it started from.
  ghost predicate Keeps<P>(base: Nav<P>, n: Nav<P>)
    requires base.Valid() && n.Valid()
  {
    && base.memoIndex <= n.memoIndex && base.downIndex <= n.downIndex
    && n.memo[..base.memoIndex] == base.memo[..base.memoIndex]
    && n.tops[..base.memoIndex] == base.tops[..base.memoIndex]
    && n.down[..base.downIndex] == base.down[..base.downIndex]
    && forall i :: base.memoIndex <= i < n.memoIndex ==> n.tops[i] >= base.downIndex
  }

  lemma StepKeeps<P>(base: Nav<P>, n: Nav<P>, op: Op<P>)
    requires base.Valid() && n.Valid() && Keeps(base, n)
    requires base.memoIndex > 0 && base.tops[base.memoIndex-1] == base.downIndex
    requires op.Up? ==> n.downIndex > n.Mark()
    requires op.Return? ==> n.memoIndex > base.memoIndex
    ensures Keeps(base, Step(n, op))
  {
    if op.Up? {
      assert n.tops[..base.memoIndex][base.memoIndex-1] == base.downIndex;
    }
  }

  lemma {:induction false} RunKeeps<P>(base: Nav<P>, n: Nav<P>, ops: seq<Op<P>>)
    requires base.Valid() && n.Valid() && Keeps(base, n)
    requires base.memoIndex > 0 && base.tops[base.memoIndex-1] == base.downIndex
    requires WellNested(n, base.memoIndex, ops)
    ensures Keeps(base, Run(n, ops)) && Run(n, ops).memoIndex == base.memoIndex
    decreases |ops|
  {
    if ops != [] {
      StepKeeps(base, n, ops[0]);
      RunKeeps(base, Step(n, ops[0]), ops[1..]);
    }
  }

  // Returning from a memolink undoes everything done since: the page and both stacks
  // are as they were.
  lemma ReturnRestores<P>(s: Nav<P>, target: P, ops: seq<Op<P>>)
    requires s.Valid() && s.memoIndex < MAX_MEMO_DEPTH
    requires WellNested(Step(s, Memolink(target)), s.memoIndex + 1, ops)
    ensures var r := Step(Run(Step(s, Memolink(target)), ops), Return);
            && r.page == s.page
            && r.downIndex == s.downIndex && r.down[..s.downIndex] == s.down[..s.downIndex]
            && r.memoIndex == s.memoIndex && r.memo[..s.memoIndex] == s.memo[..s.memoIndex]
            && r.tops[..s.memoIndex] == s.tops[..s.memoIndex]
  {
    var base := Step(s, Memolink(target));
    RunKeeps(base, base, ops);
    var n := Run(base, ops);
    var d := s.memoIndex;
    assert n.memo[d] == n.memo[..d+1][d] == base.memo[d];
    assert n.tops[d] == n.tops[..d+1][d] == base.tops[d];
    assert n.memo[..d] == n.memo[..d+1][..d] == base.memo[..d+1][..d] == s.memo[..d];
    assert n.tops[..d] == n.tops[..d+1][..d] == base.tops[..d+1][..d] == s.tops[..d];
  }

  // An uplink undoes a downlink, unless the downlink was refused for want of room: then
  // it goes back to the page that filled the stack.
  lemma UpUndoesDown<P>(s: Nav<P>, target: P)
    requires s.Valid()
    ensures s.downIndex < MAX_DOWNLINK_DEPTH ==>
              var r := Step(Step(s, Downlink(target)), Up);
              r.page == s.page && r.downIndex == s.downIndex && r.down[..s.downIndex] == s.down[..s.downIndex]
    ensures s.downIndex == MAX_DOWNLINK_DEPTH ==>
              var r := Step(Step(s, Downlink(target)), Up);
              r.page == s.down[MAX_DOWNLINK_DEPTH-1] && r.downIndex == MAX_DOWNLINK_DEPTH - 1
  {
  }

  // ----- uplinks below the mark -----------------------------------------------------------

  // need_up_button compares with >=: it offers an uplink that pops below the mark, where
  // the window was memolinked from, exactly when nothing was downlinked since.
  lemma UpButtonBelowMark<P>(n: Nav<P>)
    requires n.Valid()
    ensures n.NeedUpButton() && n.downIndex <= n.Mark() <==> n.memoIndex > 0 && n.downIndex == n.Mark()
    ensures n.downIndex > n.Mark() ==> n.NeedUpButton()
  {
  }

  // A run that never returns from depth memolinks, however far its uplinks pop. On an
  // empty downlink stack an uplink is a return.
  ghost predicate Stays<P>(n: Nav<P>, depth: nat, ops: seq<Op<P>>)
    requires n.Valid()
    decreases |ops|
  {
    if ops == [] then n.memoIndex == depth
    else
      && (ops[0].Return? || (ops[0].Up? && n.downIndex == 0) ==> n.memoIndex > depth)
      && Stays(Step(n, ops[0]), depth, ops[1..])
  }

  // The page that a run last pushes into slot j of the downlink stack, if it pushes one.
  function LastPushed<P>(n: Nav<P>, ops: seq<Op<P>>, j: nat): Option<P>
    requires n.Valid()
    decreases |ops|
  {
    if ops == [] then None
    else
      match LastPushed(Step(n, ops[0]), ops[1..], j)
      case Some(p) => Some(p)
      case None => if ops[0].Downlink? && n.downIndex == j < MAX_DOWNLINK_DEPTH then Some(n.page) else None
  }

  lemma {:induction false} SlotAfter<P>(n: Nav<P>, ops: seq<Op<P>>, j: nat)
    requires n.Valid() && j < MAX_DOWNLINK_DEPTH
    ensures Run(n, ops).down[j] ==
            match LastPushed(n, ops, j) case Some(p) => p case None => n.down[j]
    decreases |ops|
  {
    if ops != [] {
      SlotAfter(Step(n, ops[0]), ops[1..], j);
    }
  }

  lemma {:induction false} StaysKeeps<P>(base: Nav<P>, n: Nav<P>, depth: nat, ops: seq<Op<P>>)
    requires base.Valid() && n.Valid() && depth <= base.memoIndex && depth <= n.memoIndex && Stays(n, depth, ops)
    requires n.memo[..depth] == base.memo[..depth] && n.tops[..depth] == base.tops[..depth]
    ensures var r := Run(n, ops);
            r.memoIndex == depth && r.memo[..depth] == base.memo[..depth] && r.tops[..depth] == base.tops[..depth]
    decreases |ops|
  {
    if ops != [] {
      StaysKeeps(base, Step(n, ops[0]), depth, ops[1..]);
    }
  }

  // Returning after any such run restores the page, the memo stack and the downlink index;
  // the downlink stack comes back exactly when every slot below the mark that was pushed
  // into last received the page it had held. Entries that are popped stay in the array, so
  // uplinks alone do no harm.
  lemma ReturnRestoresExactly<P>(s: Nav<P>, target: P, ops: seq<Op<P>>)
    requires s.Valid() && s.memoIndex < MAX_MEMO_DEPTH
    requires Stays(Step(s, Memolink(target)), s.memoIndex + 1, ops)
    ensures var base := Step(s, Memolink(target));
            var r := Step(Run(base, ops), Return);
            && r.page == s.page && r.downIndex == s.downIndex
            && r.memoIndex == s.memoIndex && r.memo[..s.memoIndex] == s.memo[..s.memoIndex]
            && r.tops[..s.memoIndex] == s.tops[..s.memoIndex]
            && (r.down[..s.downIndex] == s.down[..s.downIndex] <==>
                  forall j :: 0 <= j < s.downIndex ==> LastPushed(base, ops, j) in [None, Some(s.down[j])])
  {
    var base := Step(s, Memolink(target));
    var n, d, t := Run(base, ops), s.memoIndex, s.downIndex;
    StaysKeeps(base, base, d + 1, ops);
    assert n.memo[d] == n.memo[..d+1][d] == base.memo[d] && n.tops[d] == n.tops[..d+1][d] == base.tops[d];
    assert n.memo[..d] == n.memo[..d+1][..d] && base.memo[..d+1][..d] == s.memo[..d];
    assert n.tops[..d] == n.tops[..d+1][..d] && base.tops[..d+1][..d] == s.tops[..d];
    forall j | 0 <= j < t
      ensures n.down[j] == s.down[j] <==> LastPushed(base, ops, j) in [None, Some(s.down[j])]
    {
      SlotAfter(base, ops, j);
    }
    assert n.down[..t] == s.down[..t] <==> forall j :: 0 <= j < t ==> n.down[j] == s.down[j];
  }

  // One run that the button admits at every uplink and that loses an entry.
  lemma UpButtonLosesPage<P>(s: Nav<P>, a: P, b: P, c: P)
    requires s.Valid() && s.memoIndex < MAX_MEMO_DEPTH && 0 < s.downIndex && c != s.down[s.downIndex-1]
    ensures var n := Step(s, Memolink(a));
            var r := Step(Step(Step(Step(n, Up), Link(c)), Downlink(b)), Return);
            n.NeedUpButton() && r.downIndex == s.downIndex && r.down[s.downIndex-1] == c
  {
  }

  // ----- the window ----------------------------------------------------------------------

  class Page {
    const name: string
    const generated: bool
    var scrollOff: int

    constructor (name: string, generated: bool)
      ensures this.name == name && this.generated == generated && scrollOff == 0
    {
      this.name, this.generated, scrollOff := name, generated, 0;
    }
  }

  class HDWindow {
    var page: Page
    var pageTable: set<Page>
    const memoStack: array<Page>
    const downLinkStack: array<Page>
    const downLinkStackTop: array<nat>
    var memoStackIndex: nat
    var downLinkStackIndex: nat

    function Abs(): Nav<Page>
      reads this, memoStack, downLinkStack, downLinkStackTop
    {
      Nav(page, memoStack[..], downLinkStackTop[..], memoStackIndex, downLinkStack[..], downLinkStackIndex)
    }

    ghost predicate Valid()
      reads this, memoStack, downLinkStack, downLinkStackTop
    {
      && memoStack != downLinkStack
      && Abs().Valid()
    }

    constructor (front: Page)
      ensures Valid() && page == front && memoStackIndex == 0 && downLinkStackIndex == 0
      ensures fresh(memoStack) && fresh(downLinkStack) && fresh(downLinkStackTop)
    {
      page, pageTable := front, {front};
      memoStack := new Page[MAX_MEMO_DEPTH](_ => front);
      downLinkStack := new Page[MAX_DOWNLINK_DEPTH](_ => front);
      downLinkStackTop := new nat[MAX_MEMO_DEPTH](_ => 0);
      memoStackIndex, downLinkStackIndex := 0, 0;
    }

    // The effect of closing a set of pages: each is scrolled back to its first line, and
    // generated pages can no longer be found by name.
    twostate predicate Closed(killed: set<Page>)
      reads this, killed
    {
      && pageTable == old(pageTable) - (set p | p in killed && p.generated)
      && forall p :: p in killed ==> p.scrollOff == 0
    }

    method KillPage(p: Page)
      modifies this`pageTable, p
      ensures pageTable == old(pageTable) - (if p.generated then {p} else {}) && p.scrollOff == 0
    {
      p.scrollOff := 0;
      if p.generated {
        pageTable := pageTable - {p};
      }
    }

    method Downlink()
      requires Valid()
      modifies this`downLinkStackIndex, downLinkStack
      ensures Valid() && Abs() == PushDown(old(Abs()))
    {
      if downLinkStackIndex != MAX_DOWNLINK_DEPTH {
        downLinkStack[downLinkStackIndex] := page;
        downLinkStackIndex := downLinkStackIndex + 1;
      }
    }

    method Memolink()
      requires Valid()
      modifies this`memoStackIndex, memoStack, downLinkStackTop
      ensures Valid() && Abs() == PushMemo(old(Abs()))
    {
      if memoStackIndex != MAX_MEMO_DEPTH {
        memoStack[memoStackIndex] := page;
        downLinkStackTop[memoStackIndex] := downLinkStackIndex;
        memoStackIndex := memoStackIndex + 1;
      }
    }

    // The pages on the downlink stack from index top up to its current index.
    function Above(top: nat): set<Page>
      requires downLinkStackIndex <= downLinkStack.Length
      reads this`downLinkStackIndex, downLinkStack
    {
      set i | top <= i < downLinkStackIndex :: downLinkStack[i]
    }

    // Every page above the last recorded top, and the current one.
    function Abandoned(): set<Page>
      requires Valid() && memoStackIndex > 0
      reads this, memoStack, downLinkStack, downLinkStackTop
    {
      {page} + Above(downLinkStackTop[memoStackIndex-1])
    }

    // They are the page on display and those that the downlink stack holds from the last
    // recorded top on.
    lemma AbandonedExactly(p: Page)
      requires Valid() && memoStackIndex > 0
      ensures p in Abandoned() <==>
              p == page ||
              exists i :: downLinkStackTop[memoStackIndex-1] <= i < downLinkStackIndex && downLinkStack[i] == p
    {
    }

    method KillAbove(top: nat)
      requires downLinkStackIndex <= downLinkStack.Length
      modifies this`pageTable, Above(top)
      ensures Closed(old(Above(top)))
    {
      ghost var killed := {};
      var i := downLinkStackIndex;
      while i > top
        invariant i <= downLinkStackIndex
        invariant killed == set k | top <= k < downLinkStackIndex && i <= k :: downLinkStack[k]
        invariant Closed(killed)
      {
        i := i - 1;
        KillPage(downLinkStack[i]);
        killed := killed + {downLinkStack[i]};
      }
    }

    // Returns null, having changed nothing, when there is no memolink to return from.
    method ReturnLink() returns (target: Page?)
      requires Valid()
      modifies this, if memoStackIndex > 0 then Abandoned() else {}
      ensures Valid() && page == old(page)
      ensures memoStack[..] == old(memoStack[..]) && downLinkStack[..] == old(downLinkStack[..])
      ensures target == null <==> old(memoStackIndex) == 0
      ensures target == null ==> Abs() == old(Abs()) && pageTable == old(pageTable)
      ensures target != null ==> Abs().(page := target) == PopMemo(old(Abs())) && Closed(old(Abandoned()))
    {
      if memoStackIndex == 0 {
        return null;
      }
      KillPage(page);
      KillAbove(downLinkStackTop[memoStackIndex-1]);
      memoStackIndex := memoStackIndex - 1;
      downLinkStackIndex := downLinkStackTop[memoStackIndex];
      target := memoStack[memoStackIndex];
    }

    method UpLink() returns (target: Page?)
      requires Valid()
      modifies this, if downLinkStackIndex > 0 then {page} else if memoStackIndex > 0 then Abandoned() else {}
      ensures Valid() && page == old(page)
      ensures target == null <==> old(memoStackIndex) == 0 && old(downLinkStackIndex) == 0
      ensures target == null ==> Abs() == old(Abs()) && pageTable == old(pageTable)
      ensures target != null ==> Abs().(page := target) == PopDown(old(Abs()))
      ensures target != null ==> Closed(if old(downLinkStackIndex) > 0 then {old(page)} else old(Abandoned()))
    {
      if downLinkStackIndex == 0 {
        target := ReturnLink();
      } else {
        KillPage(page);
        downLinkStackIndex := downLinkStackIndex - 1;
        target := downLinkStack[downLinkStackIndex];
      }
    }

    // The pages that following a link closes.
    function Leaving(op: Op<Page>): set<Page>
      requires Valid()
      reads this, memoStack, downLinkStack, downLinkStackTop
    {
      if op.Up? && downLinkStackIndex > 0 then {page}
      else if (op.Up? || op.Return?) && memoStackIndex > 0 then Abandoned()
      else {}
    }

    // The event handler: a null result leaves the current page on display.
    method Follow(op: Op<Page>)
      requires Valid()
      modifies this, memoStack, downLinkStack, downLinkStackTop, Leaving(op)
      ensures Valid() && Abs() == Step(old(Abs()), op) && Closed(old(Leaving(op)))
    {
      match op
      case Link(target) =>
        page := target;
      case Downlink(target) =>
        Downlink();
        page := target;
      case Memolink(target) =>
        Memolink();
        page := target;
      case Up =>
        var target := UpLink();
        if target != null {
          page := target;
        }
      case Return =>
        var target := ReturnLink();
        if target != null {
          page := target;
        }
    }
  }
}
