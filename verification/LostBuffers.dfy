// What losing a page's buffer in the middle of a call does to the order of its commands
// (src/hyper/spadint.c).
module LostBuffers {
  import opened Scheduling

  // ----- the condition -----------------------------------------------------------------------

  // After labels k to i of c have been asked for, label i is still not provided.
  ghost predicate Open(g: Graph, c: nat, k: nat, i: nat)
    requires g.Valid() && c < |g.commands| && k <= i < |g.Labels(c)|
  {
    var ls := g.Labels(c);
    ls[i] in g.binder && g.binder[ls[i]] !in g.Pending(Elements(ls[k..i]), {})
  }

  // A loss can strike at label i of c: it is open to all that was asked for since the first
  // label, or since a label where a loss can strike.
  ghost predicate Strikes(g: Graph, c: nat, i: nat)
    requires g.Valid() && c < |g.commands| && i < |g.Labels(c)|
    decreases i
  {
    exists k :: 0 <= k <= i && Open(g, c, k, i) && (k == 0 || (k < i && Strikes(g, c, k)))
  }

  // A command and those that it needs.
  ghost function Involved(g: Graph, c: nat): set<nat>
    requires g.Valid() && c < |g.commands|
  {
    {c} + g.Pending(g.FreeOf(c), {})
  }

  // Wherever a loss can strike in a call for c, what was asked for before is sent again.
  ghost predicate AsksAgain(g: Graph, c: nat)
    requires g.Valid() && c < |g.commands|
  {
    forall d, i :: d in Involved(g, c) && 0 <= d < |g.commands| && 0 <= i < |g.Labels(d)| && Strikes(g, d, i) ==>
      g.Resent(d, i)
  }

  // No loss, at any probes, breaks the order of a buffer in a call for c.
  ghost predicate NeverBreaks(g: Graph, c: nat)
    requires g.Valid() && c < |g.commands|
  {
    forall immediate, was, probes :: g.Within(was) && g.InOrder(was) ==>
      g.InOrder(g.Issue(c, immediate, was, probes).log)
  }

  // ----- asking again keeps the order ----------------------------------------------------------

  lemma InvolvedBelow(g: Graph, c: nat, l: string)
    requires g.Valid() && c < |g.commands| && l in g.FreeOf(c) && l in g.binder
    ensures Involved(g, g.binder[l]) <= Involved(g, c)
  {
    assert g.NeedsOf({l}) <= g.NeedsOf(g.FreeOf(c));
    g.PendingWithin({l}, g.FreeOf(c));
    g.PendingOfLabel(l, {});
  }

  lemma AsksAgainBelow(g: Graph, c: nat, l: string)
    requires g.Valid() && c < |g.commands| && l in g.FreeOf(c) && l in g.binder && AsksAgain(g, c)
    ensures AsksAgain(g, g.binder[l])
  {
    InvolvedBelow(g, c, l);
  }

  // A label that is not done is not provided by what has been provided.
  lemma NotProvided(g: Graph, was: seq<Sent>, log: seq<Sent>, labels: set<string>, l: string)
    requires g.Valid() && g.Within(was) && g.Provides(was, log, labels) && l in g.binder && l !in g.Done(log)
    ensures g.binder[l] !in g.Pending(labels, {})
  {
    if g.binder[l] in g.Pending(labels, {}) {
      var m :| m in g.NeedsOf(labels) && m in g.binder && g.binder[m] == g.binder[l];
      var k :| k in labels && k in g.binder && m in {k} + g.Needs(g.binder[k]);
      g.DoneIsClosed(log, k);
      g.DoneIsSent(log, m);
      g.DoneIsSent(log, l);
    }
  }

  // The place of the last loss is one where a loss can strike, and covered.
  ghost predicate Struck(g: Graph, c: nat, n: nat, lost: Loss)
    requires g.Valid() && c < |g.commands| && n <= |g.Labels(c)|
  {
    var struck :=
      lost.LostAt? ==>
        && lost.path != [] && lost.path[0] < n && g.Leads(c, lost.path) && Strikes(g, c, lost.path[0])
        && g.Covered(g.binder[g.Labels(c)[lost.path[0]]], lost.path[1..]);
    struck
  }

  // Where the labels begin that the buffer has been asked for since it was last lost.
  ghost function Since(lost: Loss): nat
    requires lost.LostAt? ==> lost.path != []
  {
    if lost.NoLoss? then 0 else lost.path[0]
  }

  lemma SuppliedSince(g: Graph, c: nat, n: nat, was: seq<Sent>, s: Course)
    requires g.Valid() && c < |g.commands| && n <= |g.Labels(c)| && g.Within(was) && g.Within(s.log)
    requires g.InOrder(was) && g.Supplied(was, s.log, c, n, s.lost) && Struck(g, c, n, s.lost)
    ensures s.lost.LostAt? ==> s.lost.path != []
    ensures Since(s.lost) <= n
    ensures g.InOrder(s.log)
    ensures g.Provides(if s.lost.NoLoss? then was else [], s.log, Elements(g.Labels(c)[Since(s.lost)..n]))
  {
    assert g.Labels(c)[..n] == g.Labels(c)[0..n];
  }

  lemma StrikesNext(g: Graph, c: nat, n: nat, was: seq<Sent>, s: Course)
    requires g.Valid() && c < |g.commands| && n < |g.Labels(c)| && g.Within(was) && g.Within(s.log)
    requires g.InOrder(was) && g.Supplied(was, s.log, c, n, s.lost) && Struck(g, c, n, s.lost)
    requires g.Labels(c)[n] in g.binder && g.Labels(c)[n] !in g.Done(s.log)
    ensures Strikes(g, c, n)
  {
    var k := if s.lost.NoLoss? then 0 else s.lost.path[0];
    SuppliedSince(g, c, n, was, s);
    NotProvided(g, if s.lost.NoLoss? then was else [], s.log, Elements(g.Labels(c)[k..n]), g.Labels(c)[n]);
    assert Open(g, c, k, n);
  }

  lemma StruckNext(g: Graph, c: nat, n: nat, before: Loss, inner: Loss)
    requires g.Valid() && c < |g.commands| && n < |g.Labels(c)| && g.Labels(c)[n] in g.binder
    requires Struck(g, c, n, before) && (inner.LostAt? ==> Strikes(g, c, n))
    requires inner.LostAt? ==>
               g.Leads(g.binder[g.Labels(c)[n]], inner.path) && g.Covered(g.binder[g.Labels(c)[n]], inner.path)
    ensures Struck(g, c, n + 1, Nested(n, before, inner))
  {
    if inner.LostAt? {
      var p := [n] + inner.path;
      assert p[0] == n && p[1..] == inner.path;
    }
  }

  lemma {:induction false} IssueCovered(g: Graph, c: nat, immediate: bool, was: seq<Sent>, probes: seq<bool>)
    requires g.Valid() && c < |g.commands| && AsksAgain(g, c) && g.Within(was) && g.InOrder(was)
    ensures var lost := g.Issue(c, immediate, was, probes).lost;
            lost.LostAt? ==> g.Leads(c, lost.path) && g.Covered(c, lost.path)
    decreases g.rank[c], |probes|, 1, 0
  {
    if probes != [] && !probes[0] {
      IssueCovered(g, c, immediate, [], probes[1..]);
    } else {
      var rest := if probes == [] then [] else probes[1..];
      AskStruck(g, c, |g.Labels(c)|, was, rest);
      assert c in Involved(g, c);
    }
  }

  lemma {:induction false} AskStruck(g: Graph, c: nat, m: nat, was: seq<Sent>, probes: seq<bool>)
    requires g.Valid() && c < |g.commands| && AsksAgain(g, c) && m <= |g.Labels(c)| && g.Within(was) && g.InOrder(was)
    ensures Struck(g, c, m, g.Ask(c, m, was, probes).lost)
    decreases g.rank[c], |probes|, 0, m
  {
    if m > 0 {
      var n := m - 1;
      var s, l := g.Ask(c, n, was, probes), g.Labels(c)[n];
      AskStruck(g, c, n, was, probes);
      g.AskNext(c, n, m, was, probes, s);
      if l in g.binder && l !in g.Done(s.log) {
        g.AskSupplies(c, n, was, probes);
        SuppliedSince(g, c, n, was, s);
        StrikesNext(g, c, n, was, s);
        AsksAgainBelow(g, c, l);
        IssueCovered(g, g.binder[l], true, s.log, s.probes);
        StruckNext(g, c, n, s.lost, g.Issue(g.binder[l], true, s.log, s.probes).lost);
      }
    }
  }

  lemma AskingAgainKeepsOrder(g: Graph, c: nat)
    requires g.Valid() && c < |g.commands| && AsksAgain(g, c)
    ensures NeverBreaks(g, c)
  {
    forall immediate, was, probes | g.Within(was) && g.InOrder(was)
      ensures g.InOrder(g.Issue(c, immediate, was, probes).log)
    {
      IssueCovered(g, c, immediate, was, probes);
      g.IssueOrder(c, immediate, was, probes);
    }
  }

  // ----- a run without a loss --------------------------------------------------------------------

  // What a buffer that stays alive has received after a call for c.
  ghost function Alive(g: Graph, c: nat, immediate: bool, was: seq<Sent>): (log: seq<Sent>)
    requires g.Valid() && c < |g.commands| && g.Within(was)
    ensures g.Within(log) && |was| < |log|
    decreases g.rank[c], 1, 0
  {
    AliveAsk(g, c, 0, |g.Labels(c)|, was) + [Sent(c, immediate, g.commands[c].source)]
  }

  // And after being asked for the labels m to n of c.
  ghost function AliveAsk(g: Graph, c: nat, m: nat, n: nat, was: seq<Sent>): (log: seq<Sent>)
    requires g.Valid() && c < |g.commands| && m <= n <= |g.Labels(c)| && g.Within(was)
    ensures g.Within(log) && |was| <= |log|
    decreases g.rank[c], 0, n
  {
    if n == m then was
    else
      var s, l := AliveAsk(g, c, m, n - 1, was), g.Labels(c)[n-1];
      assert l in g.FreeOf(c);
      if l in g.binder && l !in g.Done(s) then Alive(g, g.binder[l], true, s) else s
  }

  function Trues(n: nat): (r: seq<bool>)
    ensures |r| == n && forall k :: 0 <= k < n ==> r[k]
  {
    seq(n, _ => true)
  }

  lemma TruesSplit(a: nat, b: nat, n: nat, t: seq<bool>)
    requires n == a + b
    ensures Trues(n) + t == Trues(a) + (Trues(b) + t)
  {
  }

  // A call takes one probe for each command that it sends, and leaves the others unread.
  lemma {:induction false} IssueAlive(g: Graph, c: nat, immediate: bool, was: seq<Sent>, t: seq<bool>)
    requires g.Valid() && c < |g.commands| && g.Within(was)
    ensures var log := Alive(g, c, immediate, was);
            g.Issue(c, immediate, was, Trues(|log| - |was|) + t) == Course(log, t, NoLoss)
    decreases g.rank[c], 1, 0
  {
    var n := |g.Labels(c)|;
    var more := AliveAsk(g, c, 0, n, was);
    var a := |more| - |was|;
    var rest := Trues(a) + t;
    TruesSplit(1, a, a + 1, t);
    assert (Trues(1) + rest)[0] && (Trues(1) + rest)[1..] == rest;
    AskAlive(g, c, 0, n, was, rest, Course(was, rest, NoLoss), more, a, t);
  }

  // The same of the labels m to n, for which a probes are taken.
  lemma {:induction false} AskAlive(g: Graph, c: nat, m: nat, n: nat, was: seq<Sent>, probes: seq<bool>, s: Course,
                                    more: seq<Sent>, a: nat, t: seq<bool>)
    requires g.Valid() && c < |g.commands| && m <= n <= |g.Labels(c)| && g.Within(was) && g.Within(s.log)
    requires g.Ask(c, m, was, probes) == s && more == AliveAsk(g, c, m, n, s.log) && a == |more| - |s.log|
    requires s.probes == Trues(a) + t
    ensures g.Ask(c, n, was, probes) == Course(more, t, s.lost)
    decreases g.rank[c], 0, n
  {
    if n == m {
      assert Trues(0) + t == t;
    } else {
      var k := n - 1;
      var log := AliveAsk(g, c, m, k, s.log);
      GrowsOn(g, c, m, k, n, s.log, log, more);
      var b, d := |log| - |s.log|, |more| - |log|;
      var rest := Trues(d) + t;
      TruesSplit(b, d, a, t);
      AskAlive(g, c, m, k, was, probes, s, log, b, rest);
      if Asked(g, c, k, log) {
        IssueAlive(g, g.binder[g.Labels(c)[k]], true, log, t);
      }
      AliveNext(g, c, k, n, was, probes, Course(log, rest, s.lost), more, t);
    }
  }

  ghost predicate Asked(g: Graph, c: nat, i: nat, log: seq<Sent>)
    requires c < |g.commands| && i < |g.Labels(c)| && g.Within(log)
  {
    var asked := g.Labels(c)[i] in g.binder && g.Labels(c)[i] !in g.Done(log);
    asked
  }

  lemma AliveNext(g: Graph, c: nat, k: nat, n: nat, was: seq<Sent>, probes: seq<bool>, s: Course, more: seq<Sent>,
                  t: seq<bool>)
    requires g.Valid() && c < |g.commands| && k < |g.Labels(c)| && n == k + 1 && g.Within(was)
    requires s == g.Ask(c, k, was, probes) && |s.log| <= |more| && s.probes == Trues(|more| - |s.log|) + t
    requires if Asked(g, c, k, s.log)
             then g.Issue(g.binder[g.Labels(c)[k]], true, s.log, s.probes) == Course(more, t, NoLoss)
             else more == s.log
    ensures g.Ask(c, n, was, probes) == Course(more, t, s.lost)
  {
    g.AskNext(c, k, n, was, probes, s);
    assert Trues(0) + t == t;
  }

  lemma GrowsOn(g: Graph, c: nat, m: nat, k: nat, n: nat, was: seq<Sent>, log: seq<Sent>, more: seq<Sent>)
    requires g.Valid() && c < |g.commands| && m <= k < n <= |g.Labels(c)| && n == k + 1 && g.Within(was)
    requires log == AliveAsk(g, c, m, k, was) && more == AliveAsk(g, c, m, n, was)
    ensures g.Within(log) && |was| <= |log| <= |more|
    ensures var l := g.Labels(c)[k];
            if Asked(g, c, k, log)
            then
              && 0 <= g.binder[l] < |g.commands| && g.rank[g.binder[l]] < g.rank[c]
              && more == Alive(g, g.binder[l], true, log)
            else more == log
  {
    assert g.Labels(c)[k] in g.FreeOf(c);
  }

  // ----- a run with a loss where one can strike ----------------------------------------------------

  // A probe that finds the buffer dead at label i, the call for which goes on as inner says.
  lemma LostHere(g: Graph, c: nat, i: nat, probes: seq<bool>, s: Course, t: seq<bool>)
    requires g.Valid() && c < |g.commands| && i < |g.Labels(c)| && g.Within(s.log)
    requires s == g.Ask(c, i, [], probes) && s.probes == [false] + t
    requires g.Labels(c)[i] in g.binder && g.Labels(c)[i] !in g.Done(s.log)
    ensures var r := g.Issue(g.binder[g.Labels(c)[i]], true, [], t);
            g.Ask(c, i + 1, [], probes) == Course(r.log, r.probes, LostAt([i] + Later(LostAt([]), r.lost).path))
  {
    g.AskNext(c, i, i + 1, [], probes, s);
    assert s.probes[0] == false && s.probes[1..] == t;
  }

  // What has been asked for since the last loss has not provided label i.
  lemma StillOpen(g: Graph, c: nat, k: nat, i: nat, probes: seq<bool>)
    requires g.Valid() && c < |g.commands| && k <= i < |g.Labels(c)| && Open(g, c, k, i)
    requires g.Ask(c, i, [], probes).lost == LostAt([k]) || (k == 0 && g.Ask(c, i, [], probes).lost == NoLoss)
    ensures g.Labels(c)[i] !in g.Done(g.Ask(c, i, [], probes).log)
  {
    var ls, s := g.Labels(c), g.Ask(c, i, [], probes);
    g.AskSupplies(c, i, [], probes);
    assert ls[..i] == ls[0..i];
    if s.lost.LostAt? {
      assert s.lost.path[0] == k && s.lost.path[1..] == [];
    }
    g.SentOnly(s.log, Elements(ls[k..i]), ls[i]);
  }

  // Probes that bring the call to label i with the probes t to come, the label not being done.
  lemma {:induction false} Reach(g: Graph, c: nat, k: nat, i: nat, t: seq<bool>) returns (probes: seq<bool>)
    requires g.Valid() && c < |g.commands| && k <= i < |g.Labels(c)| && Open(g, c, k, i)
    requires k == 0 || (k < i && Strikes(g, c, k))
    ensures var s := g.Ask(c, i, [], probes);
            s.probes == t && g.Labels(c)[i] !in g.Done(s.log)
    decreases i, 0
  {
    if k == 0 {
      var more := AliveAsk(g, c, 0, i, []);
      probes := Trues(|more|) + t;
      AskAlive(g, c, 0, i, [], probes, Course([], probes, NoLoss), more, |more|, t);
    } else {
      var log := Alive(g, g.binder[g.Labels(c)[k]], true, []);
      var more := AliveAsk(g, c, k + 1, i, log);
      var a := |more| - |log|;
      probes := Strike(g, c, k, Trues(a) + t);
      AskAlive(g, c, k + 1, i, [], probes, Course(log, Trues(a) + t, LostAt([k])), more, a, t);
    }
    StillOpen(g, c, k, i, probes);
  }

  // Probes that lose the buffer at label i, and leave the probes t.
  lemma {:induction false} Strike(g: Graph, c: nat, i: nat, t: seq<bool>) returns (probes: seq<bool>)
    requires g.Valid() && c < |g.commands| && i < |g.Labels(c)| && Strikes(g, c, i)
    ensures g.Labels(c)[i] in g.binder
    ensures g.Ask(c, i + 1, [], probes) == Course(Alive(g, g.binder[g.Labels(c)[i]], true, []), t, LostAt([i]))
    decreases i, 1
  {
    var k :| 0 <= k <= i && Open(g, c, k, i) && (k == 0 || (k < i && Strikes(g, c, k)));
    var d := g.binder[g.Labels(c)[i]];
    var rest := Trues(|Alive(g, d, true, [])|) + t;
    probes := Reach(g, c, k, i, [false] + rest);
    LostOnce(g, c, i, probes, g.Ask(c, i, [], probes), rest, t);
  }

  // After the loss at label i the buffer stays alive.
  lemma LostOnce(g: Graph, c: nat, i: nat, probes: seq<bool>, s: Course, rest: seq<bool>, t: seq<bool>)
    requires g.Valid() && c < |g.commands| && i < |g.Labels(c)| && g.Within(s.log)
    requires s == g.Ask(c, i, [], probes) && s.probes == [false] + rest
    requires g.Labels(c)[i] in g.binder && g.Labels(c)[i] !in g.Done(s.log)
    requires rest == Trues(|Alive(g, g.binder[g.Labels(c)[i]], true, [])|) + t
    ensures g.Ask(c, i + 1, [], probes) == Course(Alive(g, g.binder[g.Labels(c)[i]], true, []), t, LostAt([i]))
  {
    LostHere(g, c, i, probes, s, rest);
    IssueAlive(g, g.binder[g.Labels(c)[i]], true, [], t);
    assert [i] + [] == [i];
  }

  // ----- losing the order ---------------------------------------------------------------------------

  // Without probes the buffer stays alive.
  lemma {:induction false} NoMoreLosses(g: Graph, c: nat, m: nat, n: nat, probes: seq<bool>)
    requires g.Valid() && c < |g.commands| && m <= n <= |g.Labels(c)| && g.Ask(c, m, [], probes).probes == []
    ensures var s, r := g.Ask(c, m, [], probes), g.Ask(c, n, [], probes);
            r.probes == [] && r.lost == s.lost
    decreases n
  {
    if m < n {
      NoMoreLosses(g, c, m, n - 1, probes);
      var s, l := g.Ask(c, n - 1, [], probes), g.Labels(c)[n-1];
      g.AskNext(c, n - 1, n, [], probes, s);
      if l in g.binder && l !in g.Done(s.log) {
        g.IssueAnswers(g.binder[l], true, s.log, s.probes);
      }
    }
  }

  // A call that is lost at such a path ends out of order.
  lemma LostForGood(g: Graph, c: nat, m: nat, path: seq<nat>, probes: seq<bool>)
    requires g.Valid() && c < |g.commands| && m <= |g.Labels(c)| && g.Ask(c, m, [], probes).probes == []
    requires g.Ask(c, m, [], probes).lost == LostAt(path) && (g.Leads(c, path) ==> !g.Covered(c, path))
    ensures var r := g.Issue(c, true, [], [true] + probes);
            r.probes == [] && !g.InOrder(r.log)
  {
    NoMoreLosses(g, c, m, |g.Labels(c)|, probes);
    assert ([true] + probes)[1..] == probes;
    g.IssueOrder(c, true, [], [true] + probes);
  }

  // A call for c that breaks the order at its label i.
  lemma BreakHere(g: Graph, c: nat, i: nat) returns (probes: seq<bool>)
    requires g.Valid() && c < |g.commands| && i < |g.Labels(c)| && Strikes(g, c, i) && !g.Resent(c, i)
    ensures var r := g.Issue(c, true, [], probes);
            r.probes == [] && !g.InOrder(r.log)
  {
    var p := Strike(g, c, i, []);
    g.OneStep(c, i);
    LostForGood(g, c, i + 1, [i], p);
    probes := [true] + p;
  }

  lemma PendingIsDefined(g: Graph, l: string, d: nat)
    requires g.Valid() && d in g.Pending({l}, {})
    ensures l in g.binder
  {
  }

  lemma SomethingNeeds(g: Graph, labels: set<string>, d: nat)
    requires g.Valid() && d in g.Pending(labels, {})
    ensures exists l :: l in labels
  {
  }

  lemma PendingSplits(g: Graph, s: set<string>, t: set<string>, all: set<string>, d: nat)
    requires g.Valid() && all == s + t && d in g.Pending(all, {})
    ensures d in g.Pending(s, {}) || d in g.Pending(t, {})
  {
    g.PendingOfUnion2(s, t);
  }

  lemma NeedsLast(g: Graph, ls: seq<string>, n: nat, d: nat)
    requires g.Valid() && n <= |ls| && d in g.Pending(Elements(ls[0..n]), {})
    ensures n > 0 && (d in g.Pending(Elements(ls[0..n-1]), {}) || d in g.Pending({ls[n-1]}, {}))
  {
    SomethingNeeds(g, Elements(ls[0..n]), d);
    g.ElementsNext(ls, 0, n - 1);
    PendingSplits(g, Elements(ls[0..n-1]), {ls[n-1]}, Elements(ls[0..n]), d);
  }

  // The first of the first n labels that need d.
  lemma {:induction false} FirstNeed(g: Graph, ls: seq<string>, n: nat, d: nat) returns (j: nat)
    requires g.Valid() && n <= |ls| && d in g.Pending(Elements(ls[0..n]), {})
    ensures j < n && d in g.Pending({ls[j]}, {}) && d !in g.Pending(Elements(ls[0..j]), {})
  {
    NeedsLast(g, ls, n, d);
    if d in g.Pending(Elements(ls[0..n-1]), {}) {
      j := FirstNeed(g, ls, n - 1, d);
    } else {
      j := n - 1;
    }
  }

  // It is open, as what provides it provides d as well.
  lemma FirstNeedIsOpen(g: Graph, c: nat, j: nat, d: nat)
    requires g.Valid() && c < |g.commands| && j < |g.Labels(c)| && d in g.Pending({g.Labels(c)[j]}, {})
    requires d !in g.Pending(Elements(g.Labels(c)[0..j]), {})
    ensures Open(g, c, 0, j)
  {
    var l := g.Labels(c)[j];
    PendingIsDefined(g, l, d);
    if g.binder[l] in g.Pending(Elements(g.Labels(c)[0..j]), {}) {
      g.PendingNested(Elements(g.Labels(c)[0..j]), l);
    }
  }

  // A call for c that breaks the order in a call for d, which c needs.
  lemma {:induction false} BreakBelow(g: Graph, c: nat, d: nat, i: nat) returns (probes: seq<bool>)
    requires g.Valid() && c < |g.commands| && d in Involved(g, c) && d < |g.commands| && i < |g.Labels(d)|
    requires Strikes(g, d, i) && !g.Resent(d, i)
    ensures var r := g.Issue(c, true, [], probes);
            r.probes == [] && !g.InOrder(r.log)
    decreases g.rank[c]
  {
    if d == c {
      probes := BreakHere(g, c, i);
    } else {
      var ls := g.Labels(c);
      assert ls[0..|ls|] == ls;
      var j := FirstNeed(g, ls, |ls|, d);
      FirstNeedIsOpen(g, c, j, d);
      assert ls[j] in g.FreeOf(c);
      g.PendingOfLabel(ls[j], {});
      var below := BreakBelow(g, g.binder[ls[j]], d, i);
      probes := BreakAt(g, c, j, below);
    }
  }

  // What breaks a call for the binder of label j, after a loss there, breaks the call for c.
  lemma BreakAt(g: Graph, c: nat, j: nat, below: seq<bool>) returns (probes: seq<bool>)
    requires g.Valid() && c < |g.commands| && j < |g.Labels(c)| && Open(g, c, 0, j)
    requires var r := g.Issue(g.binder[g.Labels(c)[j]], true, [], below);
             r.probes == [] && !g.InOrder(r.log)
    ensures var r := g.Issue(c, true, [], probes);
            r.probes == [] && !g.InOrder(r.log)
  {
    var e := g.binder[g.Labels(c)[j]];
    var r := g.Issue(e, true, [], below);
    g.IssueOrder(e, true, [], below);
    var p := Reach(g, c, 0, j, [false] + below);
    LostHere(g, c, j, p, g.Ask(c, j, [], p), below);
    var path := [j] + r.lost.path;
    assert path[0] == j && path[1..] == r.lost.path;
    LostForGood(g, c, j + 1, path, p);
    probes := [true] + p;
  }

  lemma NeverBreaksAsksAgain(g: Graph, c: nat, d: nat, i: nat)
    requires g.Valid() && c < |g.commands| && NeverBreaks(g, c)
    requires d in Involved(g, c) && d < |g.commands| && i < |g.Labels(d)| && Strikes(g, d, i)
    ensures g.Resent(d, i)
  {
    if !g.Resent(d, i) {
      var probes := BreakBelow(g, c, d, i);
      assert g.InOrder([]) && g.Within([]);
    }
  }

  // No loss can break the order in a call for c exactly when all that it involves asks again,
  // wherever a loss can strike, for what it had asked for before.
  lemma NeverBreaksExactly(g: Graph, c: nat)
    requires g.Valid() && c < |g.commands|
    ensures NeverBreaks(g, c) <==> AsksAgain(g, c)
  {
    if AsksAgain(g, c) {
      AskingAgainKeepsOrder(g, c);
    }
    if NeverBreaks(g, c) {
      forall d, i | d in Involved(g, c) && 0 <= d < |g.commands| && 0 <= i < |g.Labels(d)| && Strikes(g, d, i)
        ensures g.Resent(d, i)
      {
        NeverBreaksAsksAgain(g, c, d, i);
      }
    }
  }

  // ----- whole pages ------------------------------------------------------------------------------------

  // No sequence of requests, with any losses, breaks the order of a buffer.
  ghost predicate PageNeverBreaks(g: Graph)
    requires g.Valid()
  {
    forall was, requests :: g.Within(was) && g.InOrder(was) && g.Askable(requests) ==>
      g.InOrder(g.Received(was, requests, |requests|))
  }

  // On the whole page, what was asked for before a label where a loss can strike is sent
  // again for the labels from there on.
  ghost predicate PageAsksAgain(g: Graph)
    requires g.Valid()
  {
    forall c, i :: 0 <= c < |g.commands| && 0 <= i < |g.Labels(c)| && Strikes(g, c, i) ==> g.Resent(c, i)
  }

  lemma {:induction false} SessionKeepsOrder(g: Graph, was: seq<Sent>, requests: seq<Request>, n: nat)
    requires g.Valid() && g.Within(was) && g.InOrder(was) && g.Askable(requests) && n <= |requests|
    requires forall i :: 0 <= i < n ==> AsksAgain(g, requests[i].command)
    ensures g.InOrder(g.Received(was, requests, n))
  {
    if n > 0 {
      SessionKeepsOrder(g, was, requests, n - 1);
      var q := requests[n-1];
      AskingAgainKeepsOrder(g, q.command);
    }
  }

  lemma OneRequest(g: Graph, was: seq<Sent>, requests: seq<Request>)
    requires g.Valid() && g.Within(was) && |requests| == 1 && g.Askable(requests)
    ensures var q := requests[0];
            g.Received(was, requests, 1) == g.Issue(q.command, q.immediate, was, q.probes).log
  {
    assert g.Received(was, requests, 0) == was;
    assert g.Received(was, requests, 1) == g.Reply(was, requests, 0).log;
  }

  lemma PageNeverBreaksAt(g: Graph, c: nat)
    requires g.Valid() && PageNeverBreaks(g) && c < |g.commands|
    ensures NeverBreaks(g, c)
  {
    forall immediate, was, probes | g.Within(was) && g.InOrder(was)
      ensures g.InOrder(g.Issue(c, immediate, was, probes).log)
    {
      var requests := [Request(c, immediate, probes)];
      OneRequest(g, was, requests);
    }
  }

  // The pages on which no losses in any session can break the order.
  lemma PageNeverBreaksExactly(g: Graph)
    requires g.Valid()
    ensures PageNeverBreaks(g) <==> PageAsksAgain(g)
  {
    if PageAsksAgain(g) {
      forall was, requests | g.Within(was) && g.InOrder(was) && g.Askable(requests)
        ensures g.InOrder(g.Received(was, requests, |requests|))
      {
        SessionKeepsOrder(g, was, requests, |requests|);
      }
    }
    if PageNeverBreaks(g) {
      forall c, i | 0 <= c < |g.commands| && 0 <= i < |g.Labels(c)| && Strikes(g, c, i)
        ensures g.Resent(c, i)
      {
        PageNeverBreaksAt(g, c);
        NeverBreaksAsksAgain(g, c, c, i);
      }
    }
  }

  // ----- a page that breaks -----------------------------------------------------------------------------

  // A command that needs a and b. Losing the buffer when b is asked for leaves a behind.
  ghost function TwoNeeds(): Graph {
    Graph([Command([Text, Bound(["a"])], false), Command([Text, Bound(["b"])], false),
           Command([Text, Free(["a", "b"])], false)],
          map["a" := 0, "b" := 1], [0, 0, 1])
  }

  lemma TwoNeedsLabels()
    ensures var g := TwoNeeds();
            && (g.FreeOf(0) == {} && g.BoundOf(0) == {"a"}) && (g.FreeOf(1) == {} && g.BoundOf(1) == {"b"})
            && (g.FreeOf(2) == {"a", "b"} && g.BoundOf(2) == {})
            && g.Labels(0) == [] && g.Labels(1) == [] && g.Labels(2) == ["a", "b"]
  {
    var g := TwoNeeds();
    assert FreeList(g.commands[0].body, 1) == [] && FreeList(g.commands[1].body, 1) == [];
    assert FreeList(g.commands[2].body, 1) == [] && g.Labels(2) == ["a", "b"];
    assert BoundUpTo(g.commands[0].body, 0) == {} && BoundUpTo(g.commands[0].body, 1) == {};
    assert BoundUpTo(g.commands[1].body, 0) == {} && BoundUpTo(g.commands[1].body, 1) == {};
    assert BoundUpTo(g.commands[2].body, 0) == {} && BoundUpTo(g.commands[2].body, 1) == {};
  }

  lemma TwoNeedsValid()
    ensures TwoNeeds().Valid()
  {
    TwoNeedsLabels();
  }

  lemma LossNotCovered()
    ensures var g := TwoNeeds();
            g.Valid() && g.Leads(2, [1]) && !g.Covered(2, [1]) && g.Leads(2, [0]) && g.Covered(2, [0])
  {
    var g := TwoNeeds();
    TwoNeedsLabels();
    TwoNeedsValid();
    g.OneStep(2, 0);
    g.OneStep(2, 1);
    var later := g.Labels(2)[1..];
    assert later == ["b"] && Elements(later) == {"b"};
    g.PendingOfLabel("b", {});
    g.PendingOfNothing({});
    assert g.binder[g.Labels(2)[0]] == 0 && 0 !in g.Pending(Elements(later), {});
    assert !g.Resent(2, 1);
  }

  // A command without needs, in a buffer that is alive.
  lemma IssueAlone(g: Graph, c: nat, was: seq<Sent>, probes: seq<bool>)
    requires g.Valid() && c < |g.commands| && g.Labels(c) == [] && g.Within(was) && (probes == [] || probes[0])
    ensures var rest := if probes == [] then [] else probes[1..];
            g.Issue(c, true, was, probes) == Course(was + [Sent(c, true, g.commands[c].source)], rest, NoLoss)
  {
  }

  // The third probe, that for the second label, finds the buffer dead: the command is sent
  // without the first label it needs.
  lemma LossBreaksOrder()
    ensures var g := TwoNeeds(); g.Valid() && !g.InOrder(g.Issue(2, true, [], [true, true, false]).log)
  {
    var g := TwoNeeds();
    TwoNeedsLabels();
    LossNotCovered();
    AskBoth(g);
    assert [true, true, false][1..] == [true, false];
    g.IssueOrder(2, true, [], [true, true, false]);
  }

  lemma AskBoth(g: Graph)
    requires g == TwoNeeds()
    ensures g.Valid() && |g.Labels(2)| == 2 && g.Ask(2, 2, [], [true, false]).lost == LostAt([1])
  {
    var first := AskFirst(g);
    TwoNeedsLabels();
    assert [false][1..] == [];
    IssueAlone(g, 1, [], []);
    assert g.Issue(1, true, first.log, first.probes).lost == LostAt([]);
    g.AskNext(2, 1, 2, [], [true, false], first);
    assert [1] + [] == [1];
  }

  lemma AskFirst(g: Graph) returns (first: Course)
    requires g == TwoNeeds()
    ensures g.Valid() && 1 <= |g.Labels(2)| && first == g.Ask(2, 1, [], [true, false])
    ensures first == Course([Sent(0, true, false)], [false], NoLoss)
  {
    TwoNeedsLabels();
    TwoNeedsValid();
    first := g.Ask(2, 1, [], [true, false]);
    assert [true, false][1..] == [false];
    g.AskNext(2, 0, 1, [], [true, false], Course([], [true, false], NoLoss));
    assert g.Done([]) == {};
    IssueAlone(g, 0, [], [true, false]);
  }
}
