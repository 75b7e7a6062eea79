// Issuing a page's commands together with the commands they depend on
// (src/hyper/spadint.c, with add_dependencies in src/hyper/parse-aux.c).
module Scheduling {

  // Only the word nodes of a label list matter; a list holds their texts.
  datatype Node = Free(labels: seq<string>) | Bound(labels: seq<string>) | Text

  // The nodes of a \spadcommand, \spadgraph or \spadsrc up to its end token.
  datatype Command = Command(body: seq<Node>, source: bool)

  // An entry of the label table: the command that binds the label, and whether it has
  // been sent to the page's buffer.
  datatype Depend = Depend(spadcom: nat, executed: bool)

  // What goes to the buffer: a command, with a newline when it is immediate, by way of a
  // file when it is a source pile.
  datatype Sent = Sent(command: nat, immediate: bool, pile: bool)

  function Elements(s: seq<string>): set<string> {
    set l | l in s
  }

  // The free labels of the first n nodes, as they stand.
  function FreeList(body: seq<Node>, n: nat): seq<string>
    requires n <= |body|
  {
    // the search for dependencies skips the first node of the body
    if n <= 1 then []
    else FreeList(body, n - 1) + if body[n-1].Free? then body[n-1].labels else []
  }

  function BoundLabels(node: Node): set<string> {
    if node.Bound? then Elements(node.labels) else {}
  }

  function BoundUpTo(body: seq<Node>, n: nat): set<string>
    requires n <= |body|
  {
    if n == 0 then {}
    else BoundUpTo(body, n - 1) + BoundLabels(body[n-1])
  }

  function FreeIn(c: Command): set<string> {
    Elements(FreeList(c.body, |c.body|))
  }

  function BoundIn(c: Command): set<string> {
    BoundUpTo(c.body, |c.body|)
  }

  lemma {:induction false} BoundUpToHas(body: seq<Node>, n: nat, l: string)
    requires n <= |body|
    ensures l in BoundUpTo(body, n) <==>
            exists i, j :: 0 <= i < n && body[i].Bound? && 0 <= j < |body[i].labels| && body[i].labels[j] == l
  {
    if n > 0 {
      BoundUpToHas(body, n - 1, l);
      var node := body[n-1];
      if l in BoundLabels(node) {
        var j :| 0 <= j < |node.labels| && node.labels[j] == l;
        assert body[n-1].Bound? && body[n-1].labels[j] == l;
      }
    }
  }

  // The label is one of the words of a \bound in the body of the command.
  ghost predicate Binds(c: Command, l: string) {
    exists i, j :: 0 <= i < |c.body| && c.body[i].Bound? && 0 <= j < |c.body[i].labels| && c.body[i].labels[j] == l
  }

  // The label is one of the words of a \free after the first node of the body.
  ghost predicate Wants(c: Command, l: string) {
    exists i, j :: 1 <= i < |c.body| && c.body[i].Free? && 0 <= j < |c.body[i].labels| && c.body[i].labels[j] == l
  }

  lemma BoundInExactly(c: Command, l: string)
    ensures l in BoundIn(c) <==> Binds(c, l)
  {
    BoundUpToHas(c.body, |c.body|, l);
  }

  lemma {:induction false} FreeListHas(body: seq<Node>, n: nat, l: string)
    requires n <= |body|
    ensures l in FreeList(body, n) <==>
            exists i, j :: 1 <= i < n && body[i].Free? && 0 <= j < |body[i].labels| && body[i].labels[j] == l
  {
    if n > 1 {
      FreeListHas(body, n - 1, l);
      var node := body[n-1];
      if node.Free? && l in node.labels {
        var j :| 0 <= j < |node.labels| && node.labels[j] == l;
        assert body[n-1].Free? && body[n-1].labels[j] == l;
      }
    }
  }

  lemma FreeInExactly(c: Command, l: string)
    ensures l in FreeIn(c) <==> Wants(c, l)
  {
    FreeListHas(c.body, |c.body|, l);
  }

  lemma {:induction false} FreeListGrows(body: seq<Node>, m: nat, n: nat)
    requires m <= n <= |body|
    ensures FreeList(body, m) <= FreeList(body, n)
  {
    if m < n {
      FreeListGrows(body, m, n - 1);
    }
  }

  // A command that the user asks for, and what the probes find meanwhile.
  datatype Request = Request(command: nat, immediate: bool, probes: seq<bool>)

  // Where the buffer was last found dead during a call: nowhere, or on the way down a path
  // of labels; the empty path stands for the probe of the call itself.
  datatype Loss = NoLoss | LostAt(path: seq<nat>)

  // What a call leaves: what the buffer has received, the probes to come, and the loss.
  datatype Course = Course(log: seq<Sent>, probes: seq<bool>, lost: Loss)

  // The probes that were made between a and b found a dead buffer exactly if one is lost.
  ghost predicate Probed(a: seq<bool>, b: seq<bool>, lost: Loss) {
    && |b| <= |a| && a[|a|-|b|..] == b
    && (lost.NoLoss? <==> forall k :: 0 <= k < |a| - |b| ==> a[k])
  }

  // Where the buffer was last lost, after a label n whose own call lost it as inner says.
  ghost function Nested(n: nat, before: Loss, inner: Loss): Loss {
    if inner.NoLoss? then before else LostAt([n] + inner.path)
  }

  ghost function Later(x: Loss, y: Loss): Loss {
    if y.NoLoss? then x else y
  }

  lemma ProbedBoth(a: seq<bool>, b: seq<bool>, c: seq<bool>, x: Loss, y: Loss)
    requires Probed(a, b, x) && Probed(b, c, y)
    ensures Probed(a, c, Later(x, y))
  {
    var m, n := |a| - |b|, |b| - |c|;
    forall k | 0 <= k < n
      ensures a[m+k] == b[k]
    {
      assert a[m..][k] == a[m+k];
    }
    assert a[m+n..] == a[m..][n..];
    if y.NoLoss? && x.NoLoss? {
      forall k | 0 <= k < m + n
        ensures a[k]
      {
        assert k >= m ==> a[m+(k-m)] == b[k-m];
      }
    }
  }

  // The labels are needed in the order in which they are written, those of node i after
  // those of the nodes before it.
  lemma NodeLabels(body: seq<Node>, i: nat)
    requires 1 <= i < |body|
    ensures var ls, n := FreeList(body, |body|), |FreeList(body, i)|;
            && |FreeList(body, i + 1)| <= |ls|
            && if body[i].Free? then
                 && |FreeList(body, i + 1)| == n + |body[i].labels|
                 && forall j :: 0 <= j < |body[i].labels| ==> ls[n+j] == body[i].labels[j]
               else FreeList(body, i + 1) == FreeList(body, i)
  {
    FreeListGrows(body, i + 1, |body|);
  }

  // ----- the dependency graph -------------------------------------------------------------

  datatype Graph = Graph(commands: seq<Command>, binder: map<string, nat>, rank: seq<nat>) {

    function FreeOf(c: nat): set<string>
      requires c < |commands|
    {
      FreeIn(commands[c])
    }

    function BoundOf(c: nat): set<string>
      requires c < |commands|
    {
      BoundIn(commands[c])
    }

    // Every label is bound by exactly one command, and rank witnesses that the graph of
    // free and bound labels has no cycle.
    ghost predicate Valid() {
      && |rank| == |commands|
      && (forall c :: 0 <= c < |commands| ==> commands[c].body != [])
      && (forall l :: l in binder ==> binder[l] < |commands| && l in BoundOf(binder[l]))
      && (forall c, l :: 0 <= c < |commands| && l in BoundOf(c) ==> l in binder && binder[l] == c)
      && (forall c, l :: 0 <= c < |commands| && l in FreeOf(c) && l in binder ==> rank[binder[l]] < rank[c])
    }

    // The labels that command c needs, directly or through other commands.
    ghost function Needs(c: nat): set<string>
      requires Valid() && c < |commands|
      decreases rank[c]
    {
      set l, m | l in FreeOf(c) && l in binder && m in {l} + Needs(binder[l]) :: m
    }

    ghost function NeedsOf(labels: set<string>): set<string>
      requires Valid()
    {
      set l, m | l in labels && l in binder && m in {l} + Needs(binder[l]) :: m
    }

    // The commands that provide the labels, but for labels that are done.
    ghost function Pending(labels: set<string>, done: set<string>): set<nat>
      requires Valid()
    {
      set l | l in NeedsOf(labels) && l !in done && l in binder :: binder[l]
    }

    // The labels bound by a sequence of sent commands.
    ghost function Done(log: seq<Sent>): set<string>
      requires Within(log)
    {
      if log == [] then {} else Done(log[..|log|-1]) + BoundOf(log[|log|-1].command)
    }

    ghost predicate Within(log: seq<Sent>) {
      forall i :: 0 <= i < |log| ==> log[i].command < |commands|
    }

    // Every command comes after the commands that bind its defined free labels.
    ghost predicate InOrder(log: seq<Sent>)
      requires Within(log)
    {
      log == [] ||
      (var n := |log| - 1;
       InOrder(log[..n]) && forall l :: l in FreeOf(log[n].command) && l in binder ==> l in Done(log[..n]))
    }

    lemma {:induction false} NeedsOfFree(c: nat)
      requires Valid() && c < |commands|
      ensures Needs(c) == NeedsOf(FreeOf(c))
    {
    }

    lemma {:induction false} NeedsRank(c: nat, m: string)
      requires Valid() && c < |commands| && m in Needs(c)
      ensures m in binder && rank[binder[m]] < rank[c]
      decreases rank[c]
    {
      var l :| l in FreeOf(c) && l in binder && m in {l} + Needs(binder[l]);
      if m != l {
        NeedsRank(binder[l], m);
      }
    }

    lemma {:induction false} DoneMember(log: seq<Sent>, l: string) returns (i: nat)
      requires Within(log) && l in Done(log)
      ensures i < |log| && l in BoundOf(log[i].command)
    {
      var n := |log| - 1;
      if l in BoundOf(log[n].command) {
        i := n;
      } else {
        i := DoneMember(log[..n], l);
      }
    }

    lemma {:induction false} DoneHas(log: seq<Sent>, i: nat)
      requires Within(log) && i < |log|
      ensures BoundOf(log[i].command) <= Done(log)
    {
      var n := |log| - 1;
      if i < n {
        DoneHas(log[..n], i);
      }
    }

    lemma {:induction false} DonePrefix(log: seq<Sent>, n: nat)
      requires Within(log) && n <= |log|
      ensures Done(log[..n]) <= Done(log)
    {
      if n < |log| {
        var m := |log| - 1;
        assert log[..m][..n] == log[..n];
        DonePrefix(log[..m], n);
      } else {
        assert log[..n] == log;
      }
    }

    // InOrder, spelled out: whatever is sent at i finds each defined free label bound
    // by something sent before.
    lemma {:induction false} InOrderAt(log: seq<Sent>, i: nat, l: string) returns (j: nat)
      requires Within(log) && InOrder(log) && i < |log|
      requires l in FreeOf(log[i].command) && l in binder
      ensures j < i && l in BoundOf(log[j].command)
    {
      var n := |log| - 1;
      if i == n {
        j := DoneMember(log[..n], l);
      } else {
        j := InOrderAt(log[..n], i, l);
      }
    }

    // Closure: once a label is done, everything its command needs is done.
    lemma {:induction false} DoneIsClosed(log: seq<Sent>, l: string)
      requires Valid() && Within(log) && InOrder(log) && l in Done(log) && l in binder
      ensures Needs(binder[l]) <= Done(log)
      decreases rank[binder[l]]
    {
      var c := binder[l];
      var i := DoneMember(log, l);
      assert log[i].command == c;
      forall f | f in FreeOf(c) && f in binder
        ensures f in Done(log) && Needs(binder[f]) <= Done(log)
      {
        var j := InOrderAt(log, i, f);
        DoneHas(log, j);
        DoneIsClosed(log, f);
      }
    }
  
    // ----- what one call sends ---------------------------------------------------------

    ghost function Commands(sent: seq<Sent>): set<nat> {
      set i | 0 <= i < |sent| :: sent[i].command
    }

    ghost predicate NoneTwice(sent: seq<Sent>) {
      forall i, j :: 0 <= i < j < |sent| ==> sent[i].command != sent[j].command
    }

    // From position n on, the log holds immediate commands, as a pile when they are source.
    ghost predicate WellFormed(log: seq<Sent>, n: nat)
      requires Within(log)
    {
      forall i :: n <= i < |log| ==> log[i].immediate && log[i].pile == commands[log[i].command].source
    }

    // log grew by exactly the commands that provide the labels and were not done, each
    // sent once and in due form.
    ghost predicate Provides(was: seq<Sent>, log: seq<Sent>, labels: set<string>)
      requires Valid() && Within(was)
    {
      && was <= log && Within(log) && InOrder(log)
      && Commands(log[|was|..]) == Pending(labels, Done(was))
      && NoneTwice(log[|was|..])
      && WellFormed(log, |was|)
      && forall l :: l in labels && l in binder ==> l in Done(log)
    }

    lemma {:induction false} DoneAppend(log: seq<Sent>, more: seq<Sent>)
      requires Within(log) && Within(more)
      ensures Within(log + more) && Done(log + more) == Done(log) + Done(more)
      decreases |more|
    {
      if more == [] {
        assert log + more == log;
      } else {
        var n := |more| - 1;
        assert (log + more)[..|log| + n] == log + more[..n];
        DoneAppend(log, more[..n]);
      }
    }

    // Labels already done, or not in the table, ask for nothing.
    lemma ProvidesNothing(log: seq<Sent>, l: string)
      requires Valid() && Within(log) && InOrder(log)
      requires l in binder ==> l in Done(log)
      ensures Provides(log, log, {l})
    {
      if l in binder {
        DoneIsClosed(log, l);
        assert NeedsOf({l}) <= Done(log);
      } else {
        assert NeedsOf({l}) == {};
      }
      assert log[|log|..] == [];
      assert Commands(log[|log|..]) == {} == Pending({l}, Done(log));
    }

    // Providing one set of labels and then another provides both.
    lemma ProvidesBoth(a: seq<Sent>, b: seq<Sent>, c: seq<Sent>, s: set<string>, t: set<string>)
      requires Valid() && Within(a) && Provides(a, b, s) && Provides(b, c, t)
      ensures Provides(a, c, s + t)
    {
      var x, y := b[|a|..], c[|b|..];
      assert c[|a|..] == x + y;
      assert b == a + x && c == b + y;
      DoneAppend(a, x);
      DoneAppend(b, y);
      NeedsOfUnion(s, t);
      PendingAfter(x, s, t, Done(a), Done(b));
      CommandsAppend(x, y);
      forall i, j | 0 <= i < |x| && 0 <= j < |y|
        ensures x[i].command != y[j].command
      {
        assert y[j].command in Commands(y);
        PendingNotIn(x, i, t, Done(b), y[j].command);
      }
    }

    lemma CommandsAppend(x: seq<Sent>, y: seq<Sent>)
      ensures Commands(x + y) == Commands(x) + Commands(y)
    {
      forall k | k in Commands(x) + Commands(y)
        ensures k in Commands(x + y)
      {
        if k in Commands(x) {
          var i :| 0 <= i < |x| && x[i].command == k;
          assert (x + y)[i] == x[i];
        } else {
          var i :| 0 <= i < |y| && y[i].command == k;
          assert (x + y)[|x| + i] == y[i];
        }
      }
    }

    lemma NeedsOfUnion(s: set<string>, t: set<string>)
      requires Valid()
      ensures NeedsOf(s + t) == NeedsOf(s) + NeedsOf(t)
    {
    }

    // A command of the second round was not already sent in the first.
    lemma PendingNotIn(x: seq<Sent>, i: nat, t: set<string>, done: set<string>, k: nat)
      requires Valid() && Within(x) && i < |x| && Done(x) <= done && k in Pending(t, done)
      ensures x[i].command != k
    {
      var l :| l in NeedsOf(t) && l !in done && l in binder && binder[l] == k;
      DoneHas(x, i);
    }

    // What is left of both rounds after the first is exactly the second.
    lemma PendingAfter(x: seq<Sent>, s: set<string>, t: set<string>, done: set<string>, then': set<string>)
      requires Valid() && Within(x) && Commands(x) == Pending(s, done) && then' == done + Done(x)
      ensures Pending(s + t, done) == Pending(s, done) + Pending(t, then')
    {
      NeedsOfUnion(s, t);
      forall l | l in NeedsOf(t) && l !in done && l in binder
        ensures binder[l] in Pending(s, done) + Pending(t, then')
      {
        if l in then' {
          var i := DoneMember(x, l);
          assert x[i].command in Commands(x);
        }
      }
    }

    // A call for command c extended the log of the buffer from was to log: the commands it
    // needs and, last, the command itself.
    ghost predicate Issued(was: seq<Sent>, log: seq<Sent>, c: nat, immediate: bool)
      requires Valid() && Within(was) && c < |commands|
    {
      && log != [] && log[|log|-1] == Sent(c, immediate, commands[c].source)
      && Provides(was, log[..|log|-1], FreeOf(c))
    }

    // One call keeps the order of the log: the command comes after all it needs.
    lemma IssuedInOrder(was: seq<Sent>, log: seq<Sent>, c: nat, immediate: bool)
      requires Valid() && Within(was) && c < |commands| && Issued(was, log, c, immediate)
      ensures was <= log && Within(log) && InOrder(log)
      ensures Done(log) == Done(log[..|log|-1]) + BoundOf(c)
    {
    }

    // One call sends the command and the binders of the labels it needs that were not
    // done, each once.
    lemma IssuedExactly(was: seq<Sent>, log: seq<Sent>, c: nat, immediate: bool)
      requires Valid() && Within(was) && c < |commands| && Issued(was, log, c, immediate)
      ensures was <= log && NoneTwice(log[|was|..])
      ensures Commands(log[|was|..]) == Pending(FreeOf(c), Done(was)) + {c}
    {
      var before, e := log[..|log|-1], log[|log|-1];
      var x := before[|was|..];
      assert log[|was|..] == x + [e];
      CommandsAppend(x, [e]);
      CommandsOfOne(e);
      PendingWithout(c, Done(was));
      forall i | 0 <= i < |x|
        ensures x[i].command != c
      {
        assert x[i].command in Commands(x);
      }
    }

    lemma CommandsOfOne(e: Sent)
      ensures Commands([e]) == {e.command}
    {
      assert [e][0].command in Commands([e]);
    }

    // No command provides what it needs itself.
    lemma PendingWithout(c: nat, done: set<string>)
      requires Valid() && c < |commands|
      ensures c !in Pending(FreeOf(c), done)
    {
      NeedsOfFree(c);
      forall l | l in Needs(c)
        ensures l in binder && rank[binder[l]] < rank[c]
      {
        NeedsRank(c, l);
      }
    }

    lemma NeedsOfLabel(l: string)
      requires Valid() && l in binder
      ensures NeedsOf({l}) == {l} + Needs(binder[l])
    {
      var whole := {l} + Needs(binder[l]);
      NeedsOfOne({l}, l, whole);
    }

    lemma NeedsOfOne(labels: set<string>, l: string, whole: set<string>)
      requires Valid() && l in binder && labels == {l} && whole == {l} + Needs(binder[l])
      ensures NeedsOf(labels) == whole
    {
      assert l in labels;
      forall m | m in NeedsOf(labels)
        ensures m in whole
      {
        var k :| k in labels && k in binder && m in {k} + Needs(binder[k]);
      }
    }

    lemma PendingOfLabel(l: string, done: set<string>)
      requires Valid() && l in binder && l !in done
      ensures Pending({l}, done) == Pending(FreeOf(binder[l]), done) + {binder[l]}
    {
      NeedsOfFree(binder[l]);
      NeedsOfLabel(l);
      PendingOfUnion(l, NeedsOf({l}), NeedsOf(FreeOf(binder[l])), done);
    }

    lemma PendingOfUnion(l: string, all: set<string>, rest: set<string>, done: set<string>)
      requires Valid() && l in binder && l !in done && all == {l} + rest
      ensures (set m | m in all && m !in done && m in binder :: binder[m]) ==
              (set m | m in rest && m !in done && m in binder :: binder[m]) + {binder[l]}
    {
      forall m | m in all && m !in done && m in binder
        ensures m == l || m in rest
      {
      }
    }

    lemma IssuedForm(was: seq<Sent>, log: seq<Sent>, c: nat)
      requires Valid() && Within(was) && c < |commands| && Issued(was, log, c, true)
      ensures WellFormed(log, |was|)
    {
    }

    // Issuing the binder of a label that is not done provides the label.
    lemma IssuedProvides(was: seq<Sent>, log: seq<Sent>, l: string, c: nat)
      requires Valid() && Within(was) && l in binder && l !in Done(was) && c == binder[l]
      requires Issued(was, log, c, true)
      ensures Provides(was, log, {l})
    {
      IssuedExactly(was, log, c, true);
      IssuedInOrder(was, log, c, true);
      IssuedForm(was, log, c);
      PendingOfLabel(l, Done(was));
    }

    // ----- losing the buffer in the middle of a call ---------------------------------------

    // The free labels of a command, in the order in which they are asked for.
    function Labels(c: nat): seq<string>
      requires c < |commands|
    {
      FreeList(commands[c].body, |commands[c].body|)
    }

    // Each position of the path picks a label that a command needs, and the rest goes on
    // from the command that binds it.
    ghost predicate Leads(c: nat, path: seq<nat>)
      requires Valid() && c < |commands|
      decreases |path|
    {
      path == [] ||
      (path[0] < |Labels(c)| && Labels(c)[path[0]] in binder && Leads(binder[Labels(c)[path[0]]], path[1..]))
    }

    // What c asked for before its label i is sent again for the labels from there on.
    ghost predicate Resent(c: nat, i: nat)
      requires Valid() && c < |commands| && i <= |Labels(c)|
    {
      var ls := Labels(c);
      forall j :: 0 <= j < i && ls[j] in binder ==> binder[ls[j]] in Pending(Elements(ls[i..]), {})
    }

    // And so on for every command on the way.
    ghost predicate Covered(c: nat, path: seq<nat>)
      requires Valid() && c < |commands| && Leads(c, path)
      decreases |path|
    {
      path == [] || (Resent(c, path[0]) && Covered(binder[Labels(c)[path[0]]], path[1..]))
    }

    // A call for command c when the buffer has received was. The next probe may find the
    // buffer dead: then a new one is given the command and what it needs, but not what the
    // commands that wait for it had asked for before.
    ghost function Issue(c: nat, immediate: bool, was: seq<Sent>, probes: seq<bool>): (r: Course)
      requires Valid() && c < |commands| && Within(was)
      ensures Within(r.log) && |r.probes| <= |probes|
      decreases rank[c], |probes|, 1, 0
    {
      if probes != [] && !probes[0] then
        var r := Issue(c, immediate, [], probes[1..]);
        r.(lost := Later(LostAt([]), r.lost))
      else
        var r := Ask(c, |Labels(c)|, was, if probes == [] then [] else probes[1..]);
        r.(log := r.log + [Sent(c, immediate, commands[c].source)])
    }

    // The first n labels that command c needs are asked for, those that are not done.
    ghost function Ask(c: nat, n: nat, was: seq<Sent>, probes: seq<bool>): (r: Course)
      requires Valid() && c < |commands| && n <= |Labels(c)| && Within(was)
      ensures Within(r.log) && |r.probes| <= |probes|
      decreases rank[c], |probes|, 0, n
    {
      if n == 0 then Course(was, probes, NoLoss)
      else
        var s, l := Ask(c, n - 1, was, probes), Labels(c)[n-1];
        assert l in FreeOf(c);
        if l in binder && l !in Done(s.log) then
          var r := Issue(binder[l], true, s.log, s.probes);
          r.(lost := Nested(n - 1, s.lost, r.lost))
        else s
    }

    lemma {:induction false} OrderPrefix(a: seq<Sent>, b: seq<Sent>)
      requires Within(a) && Within(b) && a <= b && InOrder(b)
      ensures InOrder(a)
      decreases |b|
    {
      if a != b {
        OrderPrefix(a, b[..|b|-1]);
      }
    }

    // The log grew, and provides the labels if it was in order.
    ghost predicate Grown(was: seq<Sent>, log: seq<Sent>, labels: set<string>)
      requires Valid() && Within(was) && Within(log)
    {
      was <= log && (InOrder(was) ==> Provides(was, log, labels))
    }

    lemma GrownBoth(a: seq<Sent>, b: seq<Sent>, c: seq<Sent>, s: set<string>, t: set<string>, u: set<string>)
      requires Valid() && Within(a) && Within(b) && Within(c) && Grown(a, b, s) && Grown(b, c, t) && u == s + t
      ensures Grown(a, c, u)
    {
      if InOrder(a) {
        ProvidesBoth(a, b, c, s, t);
      }
    }

    // The first n labels of c have been asked for since the log was start. If the buffer was
    // lost at one of them, what follows is provided in order, or the order is broken.
    ghost predicate Supplied(start: seq<Sent>, log: seq<Sent>, c: nat, n: nat, lost: Loss)
      requires Valid() && Within(start) && Within(log) && c < |commands| && n <= |Labels(c)|
    {
      var ls := Labels(c);
      match lost
      case NoLoss => Grown(start, log, Elements(ls[..n]))
      case LostAt(path) =>
        && path != [] && path[0] < n && Leads(c, path)
        && if Covered(binder[ls[path[0]]], path[1..])
           then Provides([], log, Elements(ls[path[0]..n]))
           else !InOrder(log)
    }

    // What a call for command c made of the log.
    ghost predicate Outcome(was: seq<Sent>, log: seq<Sent>, c: nat, immediate: bool, lost: Loss)
      requires Valid() && Within(was) && Within(log) && c < |commands|
    {
      var outcome :=
        && log != [] && log[|log|-1] == Sent(c, immediate, commands[c].source)
        && match lost
           case NoLoss => was < log && (InOrder(was) ==> Issued(was, log, c, immediate))
           case LostAt(path) =>
             Leads(c, path) && if Covered(c, path) then Issued([], log, c, immediate) else !InOrder(log);
      outcome
    }

    // When the order survives: without a loss it is that of before; otherwise it depends only
    // on where the buffer was last lost, and on the page.
    lemma OutcomeOrder(was: seq<Sent>, log: seq<Sent>, c: nat, immediate: bool, lost: Loss)
      requires Valid() && Within(was) && Within(log) && c < |commands| && Outcome(was, log, c, immediate, lost)
      ensures InOrder(log) <==> match lost case NoLoss => InOrder(was) case LostAt(path) => Covered(c, path)
    {
      if lost.NoLoss? {
        if InOrder(log) {
          OrderPrefix(was, log);
        } else if InOrder(was) {
          IssuedInOrder(was, log, c, immediate);
        }
      } else if Covered(c, lost.path) {
        IssuedInOrder([], log, c, immediate);
      }
    }

    lemma ElementsNext(ls: seq<string>, i: nat, n: nat)
      requires i <= n < |ls|
      ensures Elements(ls[i..n+1]) == Elements(ls[i..n]) + {ls[n]}
    {
      assert ls[i..n+1] == ls[i..n] + [ls[n]];
    }

    // A label that was done already, or has been provided without a loss.
    lemma SuppliedNext(start: seq<Sent>, log: seq<Sent>, more: seq<Sent>, c: nat, n: nat, lost: Loss)
      requires Valid() && Within(start) && Within(log) && Within(more) && c < |commands| && n < |Labels(c)|
      requires Supplied(start, log, c, n, lost) && Grown(log, more, {Labels(c)[n]})
      ensures Supplied(start, more, c, n + 1, lost)
    {
      var ls := Labels(c);
      match lost
      case NoLoss =>
        ElementsNext(ls, 0, n);
        assert ls[0..n] == ls[..n] && ls[0..n+1] == ls[..n+1];
        GrownBoth(start, log, more, Elements(ls[..n]), {ls[n]}, Elements(ls[..n+1]));
      case LostAt(path) =>
        ElementsNext(ls, path[0], n);
        if Covered(binder[ls[path[0]]], path[1..]) {
          GrownBoth([], log, more, Elements(ls[path[0]..n]), {ls[n]}, Elements(ls[path[0]..n+1]));
        } else if InOrder(more) {
          OrderPrefix(log, more);
        }
    }

    // A label at which, or below which, the buffer was lost.
    lemma SuppliedAnew(start: seq<Sent>, log: seq<Sent>, more: seq<Sent>, c: nat, n: nat, path: seq<nat>)
      requires Valid() && Within(start) && Within(log) && Within(more) && c < |commands| && n < |Labels(c)|
      requires Labels(c)[n] in binder && Outcome(log, more, binder[Labels(c)[n]], true, LostAt(path))
      ensures Supplied(start, more, c, n + 1, LostAt([n] + path))
    {
      var ls := Labels(c);
      var d, p := binder[ls[n]], [n] + path;
      assert p[0] == n && p[1..] == path;
      ElementsNext(ls, n, n);
      if Covered(d, path) {
        IssuedProvides([], more, ls[n], d);
        assert ls[n..n] == [];
        assert Elements(ls[n..n+1]) == {ls[n]};
      }
    }

    lemma LabelGrown(was: seq<Sent>, log: seq<Sent>, l: string)
      requires Valid() && Within(was) && Within(log) && l in binder && l !in Done(was)
      requires Outcome(was, log, binder[l], true, NoLoss)
      ensures Grown(was, log, {l})
    {
      if InOrder(was) {
        IssuedProvides(was, log, l, binder[l]);
      }
    }

    lemma NothingGrown(log: seq<Sent>, l: string)
      requires Valid() && Within(log) && (l in binder ==> l in Done(log))
      ensures Grown(log, log, {l})
    {
      if InOrder(log) {
        ProvidesNothing(log, l);
      }
    }

    // A command brings with it everything that the command itself needs.
    lemma {:induction false} NeedsNested(c: nat, m: string)
      requires Valid() && c < |commands| && m in Needs(c)
      ensures m in binder && Needs(binder[m]) <= Needs(c)
      decreases rank[c]
    {
      var l :| l in FreeOf(c) && l in binder && m in {l} + Needs(binder[l]);
      if m != l {
        NeedsNested(binder[l], m);
      }
    }

    lemma PendingOfNothing(done: set<string>)
      requires Valid()
      ensures Pending({}, done) == {}
    {
      assert NeedsOf({}) == {};
    }

    lemma NeedsWithin(labels: set<string>, m: string)
      requires Valid() && m in NeedsOf(labels)
      ensures m in binder && Needs(binder[m]) <= NeedsOf(labels)
    {
      var k :| k in labels && k in binder && m in {k} + Needs(binder[k]);
      if m != k {
        NeedsNested(binder[k], m);
      }
      assert Needs(binder[m]) <= {k} + Needs(binder[k]);
    }

    lemma PendingWithin(s: set<string>, t: set<string>)
      requires Valid() && NeedsOf(s) <= NeedsOf(t)
      ensures Pending(s, {}) <= Pending(t, {})
    {
    }

    lemma PendingNested(labels: set<string>, l: string)
      requires Valid() && l in binder && binder[l] in Pending(labels, {})
      ensures Pending({l}, {}) <= Pending(labels, {})
    {
      var m :| m in NeedsOf(labels) && m in binder && binder[m] == binder[l];
      NeedsWithin(labels, m);
      NeedsOfFree(binder[l]);
      PendingWithin(FreeOf(binder[l]), labels);
      PendingOfLabel(l, {});
    }

    lemma PendingOfUnion2(s: set<string>, t: set<string>)
      requires Valid()
      ensures Pending(s + t, {}) == Pending(s, {}) + Pending(t, {})
    {
      NeedsOfUnion(s, t);
    }

    lemma AddsNothing(l: string, later: set<string>, more: set<string>)
      requires Valid() && later <= more && (l in binder ==> binder[l] in Pending(later, {}))
      ensures Pending({l} + more, {}) == Pending(more, {})
    {
      PendingOfUnion2({l}, more);
      assert NeedsOf(later) <= NeedsOf(more);
      PendingWithin(later, more);
      if l in binder {
        PendingNested(later, l);
      } else {
        assert NeedsOf({l}) == {};
      }
    }

    // What came before label i adds nothing when it is sent again anyway.
    lemma {:induction false} ResentAddsNothing(c: nat, i: nat, j: nat)
      requires Valid() && c < |commands| && j <= i <= |Labels(c)| && Resent(c, i)
      ensures var ls := Labels(c); Pending(Elements(ls[j..i]) + Elements(ls[i..]), {}) == Pending(Elements(ls[i..]), {})
      decreases i - j
    {
      var ls := Labels(c);
      if j < i {
        ResentAddsNothing(c, i, j + 1);
        var more := Elements(ls[j+1..i]) + Elements(ls[i..]);
        ElementsFirst(ls, j, i, Elements(ls[i..]));
        AddsNothing(ls[j], Elements(ls[i..]), more);
      }
    }

    lemma ElementsFirst(ls: seq<string>, j: nat, i: nat, more: set<string>)
      requires j < i <= |ls|
      ensures Elements(ls[j..i]) + more == {ls[j]} + (Elements(ls[j+1..i]) + more)
    {
      assert ls[j..i] == [ls[j]] + ls[j+1..i];
    }

    lemma DoneIsSent(log: seq<Sent>, l: string)
      requires Valid() && Within(log) && l in binder
      ensures l in Done(log) <==> binder[l] in Commands(log)
    {
      if l in Done(log) {
        var i := DoneMember(log, l);
        assert log[i].command in Commands(log);
      }
      if binder[l] in Commands(log) {
        var i :| 0 <= i < |log| && log[i].command == binder[l];
        DoneHas(log, i);
      }
    }

    lemma SentOnly(log: seq<Sent>, labels: set<string>, l: string)
      requires Valid() && Within(log) && Provides([], log, labels) && l in binder
      ensures l in Done(log) <==> binder[l] in Pending(labels, {})
    {
      DoneIsSent(log, l);
      assert log[0..] == log && Done([]) == {};
    }

    // The labels from i on provide all of them exactly when what came before is sent again.
    lemma ProvidesFrom(log: seq<Sent>, c: nat, i: nat)
      requires Valid() && Within(log) && c < |commands| && i <= |Labels(c)|
      requires Provides([], log, Elements(Labels(c)[i..]))
      ensures if Resent(c, i) then Provides([], log, FreeOf(c))
              else exists l :: l in FreeOf(c) && l in binder && l !in Done(log)
    {
      var ls := Labels(c);
      assert ls == ls[0..i] + ls[i..] && FreeOf(c) == Elements(ls[0..i]) + Elements(ls[i..]);
      forall j | 0 <= j < i && ls[j] in binder
        ensures ls[j] in Done(log) <==> binder[ls[j]] in Pending(Elements(ls[i..]), {})
      {
        SentOnly(log, Elements(ls[i..]), ls[j]);
      }
      if Resent(c, i) {
        ResentAddsNothing(c, i, 0);
      }
    }

    lemma DoneNext(log: seq<Sent>, e: Sent)
      requires Within(log) && e.command < |commands|
      ensures Within(log + [e]) && Done(log + [e]) == Done(log) + BoundOf(e.command)
    {
      assert (log + [e])[..|log|] == log;
    }

    // The command itself is sent after its labels.
    lemma SuppliedSent(start: seq<Sent>, log: seq<Sent>, c: nat, immediate: bool, lost: Loss)
      requires Valid() && Within(start) && Within(log) && c < |commands| && Supplied(start, log, c, |Labels(c)|, lost)
      ensures Within(log + [Sent(c, immediate, commands[c].source)])
      ensures Outcome(start, log + [Sent(c, immediate, commands[c].source)], c, immediate, lost)
    {
      var ls, all := Labels(c), log + [Sent(c, immediate, commands[c].source)];
      assert all[..|all|-1] == log && ls[..|ls|] == ls;
      match lost
      case NoLoss =>
      case LostAt(path) =>
        assert ls[path[0]..|ls|] == ls[path[0]..];
        if Covered(binder[ls[path[0]]], path[1..]) {
          ProvidesFrom(log, c, path[0]);
        }
    }

    // A call that finds the buffer dead starts again with a new one.
    lemma OutcomeAnew(was: seq<Sent>, log: seq<Sent>, c: nat, immediate: bool, inner: Loss)
      requires Valid() && Within(was) && Within(log) && c < |commands| && Outcome([], log, c, immediate, inner)
      ensures Outcome(was, log, c, immediate, Later(LostAt([]), inner))
    {
    }

    lemma NothingAsked(was: seq<Sent>, c: nat)
      requires Valid() && Within(was) && c < |commands|
      ensures Supplied(was, was, c, 0, NoLoss)
    {
      assert was[|was|..] == [];
      assert NeedsOf({}) == {};
      assert Labels(c)[..0] == [];
    }

    lemma AskNext(c: nat, n: nat, m: nat, was: seq<Sent>, probes: seq<bool>, s: Course)
      requires Valid() && c < |commands| && n < |Labels(c)| && m == n + 1 && Within(was) && s == Ask(c, n, was, probes)
      ensures Labels(c)[n] in FreeOf(c)
      ensures var l := Labels(c)[n];
              Ask(c, m, was, probes) ==
              if l in binder && l !in Done(s.log) then
                var r := Issue(binder[l], true, s.log, s.probes);
                r.(lost := Nested(n, s.lost, r.lost))
              else s
    {
    }

    // A call that has done what it should, as far as losses allow.
    ghost predicate Answers(was: seq<Sent>, probes: seq<bool>, c: nat, immediate: bool, r: Course)
      requires Valid() && Within(was) && c < |commands|
    {
      var answers := Within(r.log) && Outcome(was, r.log, c, immediate, r.lost) && Probed(probes, r.probes, r.lost);
      answers
    }

    ghost predicate Supplies(was: seq<Sent>, probes: seq<bool>, c: nat, n: nat, r: Course)
      requires Valid() && Within(was) && c < |commands| && n <= |Labels(c)|
    {
      var supplies := Within(r.log) && Supplied(was, r.log, c, n, r.lost) && Probed(probes, r.probes, r.lost);
      supplies
    }

    lemma DeadAnswers(c: nat, immediate: bool, was: seq<Sent>, probes: seq<bool>, r: Course)
      requires Valid() && c < |commands| && Within(was) && probes != [] && !probes[0]
      requires Answers([], probes[1..], c, immediate, r)
      ensures Answers(was, probes, c, immediate, r.(lost := Later(LostAt([]), r.lost)))
    {
      OutcomeAnew(was, r.log, c, immediate, r.lost);
      ProbedBoth(probes, probes[1..], r.probes, LostAt([]), r.lost);
    }

    lemma AliveAnswers(c: nat, immediate: bool, was: seq<Sent>, probes: seq<bool>, rest: seq<bool>, r: Course)
      requires Valid() && c < |commands| && Within(was) && (probes != [] ==> probes[0])
      requires rest == (if probes == [] then [] else probes[1..]) && Supplies(was, rest, c, |Labels(c)|, r)
      ensures Answers(was, probes, c, immediate, r.(log := r.log + [Sent(c, immediate, commands[c].source)]))
    {
      SuppliedSent(was, r.log, c, immediate, r.lost);
      ProbedBoth(probes, rest, r.probes, NoLoss, r.lost);
    }

    // What any call does: without a loss, the log grows by exactly what is needed, and the
    // command; otherwise that is true of the new buffer, or its order is broken.
    lemma {:induction false} IssueAnswers(c: nat, immediate: bool, was: seq<Sent>, probes: seq<bool>)
      requires Valid() && c < |commands| && Within(was)
      ensures Answers(was, probes, c, immediate, Issue(c, immediate, was, probes))
      decreases rank[c], |probes|, 1, 0
    {
      if probes != [] && !probes[0] {
        IssueAnswers(c, immediate, [], probes[1..]);
        DeadAnswers(c, immediate, was, probes, Issue(c, immediate, [], probes[1..]));
      } else {
        var rest := if probes == [] then [] else probes[1..];
        AskSupplies(c, |Labels(c)|, was, rest);
        AliveAnswers(c, immediate, was, probes, rest, Ask(c, |Labels(c)|, was, rest));
      }
    }

    lemma {:induction false} AskSupplies(c: nat, m: nat, was: seq<Sent>, probes: seq<bool>)
      requires Valid() && c < |commands| && m <= |Labels(c)| && Within(was)
      ensures Supplies(was, probes, c, m, Ask(c, m, was, probes))
      decreases rank[c], |probes|, 0, m
    {
      if m == 0 {
        NothingAsked(was, c);
      } else {
        var n := m - 1;
        var s, l := Ask(c, n, was, probes), Labels(c)[n];
        AskSupplies(c, n, was, probes);
        AskNext(c, n, m, was, probes, s);
        if l in binder && l !in Done(s.log) {
          IssueAnswers(binder[l], true, s.log, s.probes);
          SuppliesLabel(c, n, m, was, probes, s, Issue(binder[l], true, s.log, s.probes));
        } else {
          SuppliesNothing(c, n, m, was, probes, s);
        }
      }
    }

    lemma SuppliesLabel(c: nat, n: nat, m: nat, was: seq<Sent>, probes: seq<bool>, s: Course, r: Course)
      requires Valid() && c < |commands| && n < |Labels(c)| && m == n + 1 && Within(was)
      requires Supplies(was, probes, c, n, s) && Labels(c)[n] in binder && Labels(c)[n] !in Done(s.log)
      requires Answers(s.log, s.probes, binder[Labels(c)[n]], true, r)
      ensures Supplies(was, probes, c, m, r.(lost := Nested(n, s.lost, r.lost)))
    {
      SuppliedLabel(was, s.log, r.log, c, n, s.lost, r.lost);
      ProbedBoth(probes, s.probes, r.probes, s.lost, r.lost);
    }

    lemma SuppliesNothing(c: nat, n: nat, m: nat, was: seq<Sent>, probes: seq<bool>, s: Course)
      requires Valid() && c < |commands| && n < |Labels(c)| && m == n + 1 && Within(was)
      requires Supplies(was, probes, c, n, s) && (Labels(c)[n] in binder ==> Labels(c)[n] in Done(s.log))
      ensures Supplies(was, probes, c, m, s)
    {
      NothingGrown(s.log, Labels(c)[n]);
      SuppliedNext(was, s.log, s.log, c, n, s.lost);
    }

    lemma SuppliedLabel(start: seq<Sent>, log: seq<Sent>, more: seq<Sent>, c: nat, n: nat, before: Loss, inner: Loss)
      requires Valid() && Within(start) && Within(log) && Within(more) && c < |commands| && n < |Labels(c)|
      requires Supplied(start, log, c, n, before) && Labels(c)[n] in binder && Labels(c)[n] !in Done(log)
      requires Outcome(log, more, binder[Labels(c)[n]], true, inner)
      ensures Supplied(start, more, c, n + 1, Nested(n, before, inner))
    {
      if inner.NoLoss? {
        LabelGrown(log, more, Labels(c)[n]);
        SuppliedNext(start, log, more, c, n, before);
      } else {
        SuppliedAnew(start, log, more, c, n, inner.path);
      }
    }

    // When the order survives a call: without a loss it is that of before; otherwise it depends
    // only on where the buffer was last lost, and on the page.
    lemma IssueOrder(c: nat, immediate: bool, was: seq<Sent>, probes: seq<bool>)
      requires Valid() && c < |commands| && Within(was)
      ensures var r := Issue(c, immediate, was, probes);
              InOrder(r.log) <==> match r.lost
                                  case NoLoss => InOrder(was)
                                  case LostAt(path) => Leads(c, path) && Covered(c, path)
    {
      var r := Issue(c, immediate, was, probes);
      IssueAnswers(c, immediate, was, probes);
      OutcomeOrder(was, r.log, c, immediate, r.lost);
    }

    // A call that loses no buffer, from a log in order: the log grows by the binders of the
    // needed labels that were not done and, last, the command, each once, and stays in order.
    lemma IssueWithoutLoss(c: nat, immediate: bool, was: seq<Sent>, probes: seq<bool>)
      requires Valid() && c < |commands| && Within(was) && InOrder(was)
      requires Issue(c, immediate, was, probes).lost == NoLoss
      ensures var log := Issue(c, immediate, was, probes).log;
              && |was| < |log| && was <= log && InOrder(log) && log[|log|-1] == Sent(c, immediate, commands[c].source)
              && NoneTwice(log[|was|..]) && Commands(log[|was|..]) == Pending(FreeOf(c), Done(was)) + {c}
              && c !in Pending(FreeOf(c), Done(was))
              && WellFormed(log[..|log|-1], |was|)
    {
      var log := Issue(c, immediate, was, probes).log;
      IssueAnswers(c, immediate, was, probes);
      IssuedInOrder(was, log, c, immediate);
      IssuedExactly(was, log, c, immediate);
      PendingWithout(c, Done(was));
    }

    // ----- any sequence of requests ----------------------------------------------------------

    ghost predicate Askable(requests: seq<Request>) {
      forall i :: 0 <= i < |requests| ==> requests[i].command < |commands|
    }

    // What the n-th request does, after those before it.
    ghost function Reply(was: seq<Sent>, requests: seq<Request>, n: nat): (r: Course)
      requires Valid() && Within(was) && Askable(requests) && n < |requests|
      ensures Within(r.log)
      decreases n, 1
    {
      var q := requests[n];
      Issue(q.command, q.immediate, Received(was, requests, n), q.probes)
    }

    // What the buffer has received after n requests.
    ghost function Received(was: seq<Sent>, requests: seq<Request>, n: nat): (log: seq<Sent>)
      requires Valid() && Within(was) && Askable(requests) && n <= |requests|
      ensures Within(log)
      decreases n, 0
    {
      if n == 0 then was else Reply(was, requests, n - 1).log
    }

    // The order is kept by the last of n requests with a loss, or by the start.
    ghost predicate Survives(was: seq<Sent>, requests: seq<Request>, n: nat)
      requires Valid() && Within(was) && Askable(requests) && n <= |requests|
    {
      if n == 0 then InOrder(was)
      else
        var lost := Reply(was, requests, n - 1).lost;
        if lost.NoLoss? then Survives(was, requests, n - 1)
        else Leads(requests[n-1].command, lost.path) && Covered(requests[n-1].command, lost.path)
    }

    lemma {:induction false} SurvivesExactly(was: seq<Sent>, requests: seq<Request>, n: nat)
      requires Valid() && Within(was) && Askable(requests) && n <= |requests|
      ensures InOrder(Received(was, requests, n)) <==> Survives(was, requests, n)
    {
      if n > 0 {
        SurvivesExactly(was, requests, n - 1);
        var q := requests[n-1];
        IssueOrder(q.command, q.immediate, Received(was, requests, n - 1), q.probes);
      }
    }

    lemma OneStep(c: nat, i: nat)
      requires Valid() && c < |commands| && i < |Labels(c)| && Labels(c)[i] in binder
      ensures Leads(c, [i]) && (Covered(c, [i]) <==> Resent(c, i))
    {
      var path: seq<nat> := [i];
      assert path[0] == i && path[1..] == [];
    }
  }

  // ----- the label table -----------------------------------------------------------------

  // A later binding of a label hides the earlier one.
  function Rebind(binder: map<string, nat>, labels: set<string>, c: nat): map<string, nat> {
    binder + map l | l in labels :: c
  }

  lemma RebindTwice(binder: map<string, nat>, s: set<string>, t: set<string>, c: nat)
    ensures Rebind(Rebind(binder, s, c), t, c) == Rebind(binder, s + t, c)
  {
  }

  // The command that bound each label last, over the first n commands of the page.
  function Newest(commands: seq<Command>, n: nat): map<string, nat>
    requires n <= |commands|
  {
    if n == 0 then map[] else Rebind(Newest(commands, n - 1), BoundIn(commands[n-1]), n - 1)
  }

  // No two commands of the page bind the same label.
  ghost predicate UniqueLabels(commands: seq<Command>) {
    forall c, d :: 0 <= c < d < |commands| ==> BoundIn(commands[c]) !! BoundIn(commands[d])
  }

  // rank falls along every dependency, so no command needs itself.
  ghost predicate Acyclic(commands: seq<Command>, rank: seq<nat>) {
    && |rank| == |commands|
    && forall c, d, l ::
         0 <= c < |commands| && 0 <= d < |commands| && l in FreeIn(commands[c]) && l in BoundIn(commands[d])
         ==> rank[d] < rank[c]
  }

  lemma {:induction false} NewestBinds(commands: seq<Command>, n: nat, l: string)
    requires n <= |commands|
    ensures l in Newest(commands, n) ==>
              var c := Newest(commands, n)[l]; c < n && l in BoundIn(commands[c])
    ensures forall c :: 0 <= c < n && l in BoundIn(commands[c]) ==>
              l in Newest(commands, n) && c <= Newest(commands, n)[l]
  {
    if n > 0 {
      NewestBinds(commands, n - 1, l);
    }
  }

  // With unique labels the table maps each label to the one command that binds it.
  lemma NewestIsBinder(commands: seq<Command>, l: string)
    requires UniqueLabels(commands)
    ensures forall c :: 0 <= c < |commands| ==>
              (l in BoundIn(commands[c]) <==> l in Newest(commands, |commands|) && Newest(commands, |commands|)[l] == c)
  {
    NewestBinds(commands, |commands|, l);
  }

  lemma BindersAreBound(g: Graph)
    requires UniqueLabels(g.commands) && g.binder == Newest(g.commands, |g.commands|)
    ensures forall l :: l in g.binder ==> g.binder[l] < |g.commands| && l in g.BoundOf(g.binder[l])
  {
    forall l | l in g.binder
      ensures g.binder[l] < |g.commands| && l in g.BoundOf(g.binder[l])
    {
      NewestBinds(g.commands, |g.commands|, l);
    }
  }

  lemma BoundHaveBinders(g: Graph)
    requires UniqueLabels(g.commands) && g.binder == Newest(g.commands, |g.commands|)
    ensures forall c, l :: 0 <= c < |g.commands| && l in g.BoundOf(c) ==> l in g.binder && g.binder[l] == c
  {
    forall c, l | 0 <= c < |g.commands| && l in g.BoundOf(c)
      ensures l in g.binder && g.binder[l] == c
    {
      NewestIsBinder(g.commands, l);
    }
  }

  lemma RanksFall(g: Graph)
    requires UniqueLabels(g.commands) && Acyclic(g.commands, g.rank) && g.binder == Newest(g.commands, |g.commands|)
    ensures forall c, l :: 0 <= c < |g.commands| && l in g.FreeOf(c) && l in g.binder ==>
              g.binder[l] < |g.commands| && g.rank[g.binder[l]] < g.rank[c]
  {
    BindersAreBound(g);
    forall c, l | 0 <= c < |g.commands| && l in g.FreeOf(c) && l in g.binder
      ensures g.rank[g.binder[l]] < g.rank[c]
    {
      assert l in BoundIn(g.commands[g.binder[l]]) && l in FreeIn(g.commands[c]);
    }
  }

  // The label table of a page is the graph the scheduler needs as soon as labels are
  // bound once and dependencies are acyclic.
  lemma NewestIsValid(g: Graph)
    requires UniqueLabels(g.commands) && Acyclic(g.commands, g.rank)
    requires g.binder == Newest(g.commands, |g.commands|)
    requires forall c :: 0 <= c < |g.commands| ==> g.commands[c].body != []
    ensures g.Valid()
  {
    BindersAreBound(g);
    BoundHaveBinders(g);
    RanksFall(g);
  }

  ghost predicate Unmarked(depend: map<string, Depend>, binder: map<string, nat>) {
    && depend.Keys == binder.Keys
    && forall l :: l in depend ==> depend[l] == Depend(binder[l], false)
  }

  method AddDependencies(depend: map<string, Depend>, cur: nat, labels: seq<string>, ghost binder: map<string, nat>)
    returns (d: map<string, Depend>)
    requires Unmarked(depend, binder)
    ensures Unmarked(d, Rebind(binder, Elements(labels), cur))
  {
    d := depend;
    for j := 0 to |labels|
      invariant Unmarked(d, Rebind(binder, Elements(labels[..j]), cur))
    {
      UnmarkedInsert(d, Rebind(binder, Elements(labels[..j]), cur), labels[j], cur);
      d := d[labels[j] := Depend(cur, false)];
      RebindTwice(binder, Elements(labels[..j]), {labels[j]}, cur);
      assert Elements(labels[..j+1]) == Elements(labels[..j]) + {labels[j]};
    }
    assert labels[..|labels|] == labels;
  }

  lemma UnmarkedInsert(depend: map<string, Depend>, binder: map<string, nat>, l: string, cur: nat)
    requires Unmarked(depend, binder)
    ensures Unmarked(depend[l := Depend(cur, false)], Rebind(binder, {l}, cur))
  {
  }

  method AddCommand(depend: map<string, Depend>, cur: nat, body: seq<Node>, ghost binder: map<string, nat>)
    returns (d: map<string, Depend>)
    requires Unmarked(depend, binder)
    ensures Unmarked(d, Rebind(binder, BoundUpTo(body, |body|), cur))
  {
    d := depend;
    for i := 0 to |body|
      invariant Unmarked(d, Rebind(binder, BoundUpTo(body, i), cur))
    {
      if body[i].Bound? {
        RebindTwice(binder, BoundUpTo(body, i), Elements(body[i].labels), cur);
        d := AddDependencies(d, cur, body[i].labels, Rebind(binder, BoundUpTo(body, i), cur));
      }
    }
  }

  // The table holds the labels written at the \bound nodes of the page, each with the last
  // command that has it there, and unmarked.
  ghost predicate TableOf(commands: seq<Command>, depend: map<string, Depend>) {
    && (forall l, c :: 0 <= c < |commands| && Binds(commands[c], l) ==> l in depend && c <= depend[l].spadcom)
    && (forall l :: l in depend ==>
          && depend[l].spadcom < |commands| && Binds(commands[depend[l].spadcom], l) && !depend[l].executed)
  }

  lemma NewestTable(commands: seq<Command>, depend: map<string, Depend>)
    requires Unmarked(depend, Newest(commands, |commands|))
    ensures TableOf(commands, depend)
  {
    forall l
      ensures forall c :: 0 <= c < |commands| && Binds(commands[c], l) ==> l in depend && c <= depend[l].spadcom
      ensures l in depend ==> depend[l].spadcom < |commands| && Binds(commands[depend[l].spadcom], l)
    {
      NewestBinds(commands, |commands|, l);
      forall c | 0 <= c < |commands|
        ensures Binds(commands[c], l) <==> l in BoundIn(commands[c])
      {
        BoundInExactly(commands[c], l);
      }
    }
  }

  method ParseCommands(commands: seq<Command>) returns (depend: map<string, Depend>)
    ensures Unmarked(depend, Newest(commands, |commands|))
    ensures TableOf(commands, depend)
  {
    depend := map[];
    for c := 0 to |commands|
      invariant Unmarked(depend, Newest(commands, c))
    {
      depend := AddCommand(depend, c, commands[c].body, Newest(commands, c));
    }
    NewestTable(commands, depend);
  }

  function Executed(depend: map<string, Depend>): set<string> {
    set l | l in depend && depend[l].executed
  }

  lemma MarkedPut(depend: map<string, Depend>, l: string, mark: bool)
    requires l in depend
    ensures Executed(depend[l := depend[l].(executed := mark)]) ==
            if mark then Executed(depend) + {l} else Executed(depend) - {l}
  {
  }

  lemma MarkedMore(marked: set<string>, s: set<string>, t: set<string>, known: set<string>)
    ensures marked + s * known + t * known == marked + (s + t) * known
  {
  }

  // ----- the page ---------------------------------------------------------------------------

  class Page {
    const commands: seq<Command>
    ghost const graph: Graph
    var depend: map<string, Depend>
    // The page's buffer, and everything sent to it since it was started.
    var sock: bool
    var log: seq<Sent>
    // The server that has to be there before anything is sent.
    const menuServerOpened: bool
    const serverAnswers: bool
    var spadSocket: bool
    // Whether the next probes find the buffer alive; after them it stays alive.
    var probes: seq<bool>

    // A page as parsing leaves it, with no buffer yet.
    constructor (commands: seq<Command>, ghost rank: seq<nat>, menuServerOpened: bool, serverAnswers: bool)
      requires UniqueLabels(commands) && Acyclic(commands, rank)
      requires forall c :: 0 <= c < |commands| ==> commands[c].body != []
      ensures Valid() && Ordered() && this.commands == commands && !sock && log == []
      ensures graph == Graph(commands, Newest(commands, |commands|), rank)
    {
      NewestIsValid(Graph(commands, Newest(commands, |commands|), rank));
      this.commands, graph := commands, Graph(commands, Newest(commands, |commands|), rank);
      this.menuServerOpened, this.serverAnswers := menuServerOpened, serverAnswers;
      spadSocket, sock, log, probes := false, false, [], [];
      var d := ParseCommands(commands);
      depend := d;
    }

    // The table that parsing built, whatever its marks.
    ghost predicate Table()
      reads this`depend
    {
      && graph.Valid() && graph.commands == commands
      && depend.Keys == graph.binder.Keys
      && forall l :: l in depend ==> depend[l].spadcom == graph.binder[l]
    }

    function Marked(): set<string>
      reads this`depend
    {
      Executed(depend)
    }

    // The marks are the labels bound by what the buffer has received.
    ghost predicate Valid()
      reads this
    {
      var valid := Table() && graph.Within(log) && Marked() == if sock then graph.Done(log) else {};
      valid
    }

    ghost function Received(): seq<Sent>
      reads this`sock, this`log
    {
      if sock then log else []
    }

    // Whatever the buffer has received came after what it needs.
    ghost predicate Ordered()
      reads this
      requires Valid()
    {
      sock ==> graph.InOrder(log)
    }

    // Closure: a marked label has everything its command needs marked.
    lemma MarkedIsClosed(l: string)
      requires Valid() && Ordered() && l in Marked()
      ensures graph.Needs(graph.binder[l]) <= Marked()
    {
      graph.DoneIsClosed(log, l);
    }

    ghost predicate CanConnect()
      reads this
    {
      menuServerOpened && (spadSocket || serverAnswers)
    }

    // Connected, with a buffer.
    ghost predicate Live()
      reads this
    {
      menuServerOpened && spadSocket && sock
    }

    method ConnectSpad() returns (connected: bool)
      modifies this`spadSocket
      ensures connected == old(CanConnect()) == (menuServerOpened && (old(spadSocket) || serverAnswers))
      ensures if connected then menuServerOpened && spadSocket else spadSocket == old(spadSocket)
    {
      if !menuServerOpened {
        return false;
      }
      if !spadSocket {
        spadSocket := serverAnswers;
      }
      connected := spadSocket;
    }

    method ClearExecutionMarks()
      requires Table()
      modifies this`depend
      ensures Table() && Marked() == {}
    {
      var rest := depend.Keys;
      while rest != {}
        invariant Table() && rest <= depend.Keys && Marked() <= rest
        decreases rest
      {
        var l :| l in rest;
        MarkedPut(depend, l, false);
        depend := depend[l := depend[l].(executed := false)];
        rest := rest - {l};
      }
    }

    method MarkLabels(labels: seq<string>)
      requires Table()
      modifies this`depend
      ensures Table() && Marked() == old(Marked()) + (Elements(labels) * graph.binder.Keys)
    {
      for j := 0 to |labels|
        invariant Table() && Marked() == old(Marked()) + (Elements(labels[..j]) * graph.binder.Keys)
      {
        MarkLabel(labels[j]);
        assert Elements(labels[..j+1]) == Elements(labels[..j]) + {labels[j]};
      }
      assert labels[..|labels|] == labels;
    }

    method MarkLabel(l: string)
      requires Table()
      modifies this`depend
      ensures Table() && Marked() == old(Marked()) + ({l} * graph.binder.Keys)
    {
      if l in depend {
        MarkedPut(depend, l, true);
        depend := depend[l := depend[l].(executed := true)];
      }
    }

    method MarkNodes(body: seq<Node>)
      requires Table()
      modifies this`depend
      ensures Table() && Marked() == old(Marked()) + (BoundUpTo(body, |body|) * graph.binder.Keys)
    {
      for i := 0 to |body|
        invariant Table() && Marked() == old(Marked()) + (BoundUpTo(body, i) * graph.binder.Keys)
      {
        MarkNode(body[i]);
        MarkedMore(old(Marked()), BoundUpTo(body, i), BoundLabels(body[i]), graph.binder.Keys);
      }
    }

    method MarkNode(node: Node)
      requires Table()
      modifies this`depend
      ensures Table() && Marked() == old(Marked()) + (BoundLabels(node) * graph.binder.Keys)
    {
      if node.Bound? {
        MarkLabels(node.labels);
      }
    }

    method MarkAsExecuted(c: nat)
      requires Table() && c < |commands|
      modifies this`depend
      ensures Table() && Marked() == old(Marked()) + graph.BoundOf(c)
      ensures forall l :: l in Marked() <==> l in old(Marked()) || Binds(commands[c], l)
    {
      MarkNodes(commands[c].body);
      assert graph.BoundOf(c) <= graph.binder.Keys;
      forall l
        ensures l in graph.BoundOf(c) <==> Binds(commands[c], l)
      {
        BoundInExactly(commands[c], l);
      }
    }
  
    // A new buffer has received nothing.
    method StartUserBuffer()
      modifies this`sock, this`log
      ensures sock && log == []
    {
      sock, log := true, [];
    }

    // Whether the buffer answers the test line.
    method TestLine() returns (alive: bool)
      modifies this`probes
      ensures alive == (old(probes) == [] || old(probes)[0])
      ensures probes == if old(probes) == [] then [] else old(probes)[1..]
    {
      alive := true;
      if probes != [] {
        alive := probes[0];
        probes := probes[1..];
      }
    }

    // Sends command c to the page's buffer, after everything it needs.
    method IssueSpadcommand(c: nat, immediate: bool)
      requires Valid() && c < |commands|
      modifies this
      ensures Valid()
      ensures !old(CanConnect()) ==>
                && depend == old(depend) && log == old(log) && probes == old(probes)
                && sock == old(sock) && spadSocket == old(spadSocket)
      ensures old(CanConnect()) ==> Live() && Shows(graph.Issue(c, immediate, old(Received()), old(probes)))
      decreases graph.rank[c], |probes|, 5
    {
      var connected := ConnectSpad();
      if connected {
        if !sock {
          StartUserBuffer();
        }
        var alive := TestLine();
        if alive {
          SendAfterNeeds(c, immediate);
        } else {
          StartAgain(c, immediate);
        }
      }
    }

    // What the buffer has received and the probes to come.
    ghost predicate Shows(r: Course)
      reads this`log, this`probes
    {
      log == r.log && probes == r.probes
    }

    method StartAgain(c: nat, immediate: bool)
      requires Valid() && Live() && c < |commands|
      modifies this
      ensures Valid() && Live() && Shows(graph.Issue(c, immediate, [], old(probes)))
      decreases graph.rank[c], |probes|, 6
    {
      sock := false;
      ClearExecutionMarks();
      assert Received() == [] && CanConnect();
      IssueSpadcommand(c, immediate);
    }

    method SendAfterNeeds(c: nat, immediate: bool)
      requires Valid() && Live() && c < |commands|
      modifies this
      ensures Valid() && Live()
      ensures var r := graph.Ask(c, |graph.Labels(c)|, old(log), old(probes));
              Shows(r.(log := r.log + [Sent(c, immediate, commands[c].source)]))
      decreases graph.rank[c], |probes|, 4
    {
      IssueDependentCommands(c);
      graph.DoneNext(log, Sent(c, immediate, commands[c].source));
      Send(c, immediate);
    }

    method Send(c: nat, immediate: bool)
      requires Table() && graph.Within(log) && sock && c < |commands| && Marked() == graph.Done(log)
      requires var e := Sent(c, immediate, commands[c].source);
               graph.Within(log + [e]) && graph.Done(log + [e]) == graph.Done(log) + graph.BoundOf(c)
      modifies this`log, this`depend
      ensures Valid() && log == old(log) + [Sent(c, immediate, commands[c].source)]
    {
      log := log + [Sent(c, immediate, commands[c].source)];
      MarkAsExecuted(c);
    }

    // The first n labels that c needs have been asked for.
    ghost predicate Underway(start: seq<Sent>, first: seq<bool>, c: nat, n: nat)
      reads this
    {
      var underway :=
        && Valid() && Live() && c < |commands| && n <= |graph.Labels(c)| && graph.Within(start)
        && Shows(graph.Ask(c, n, start, first)) && |probes| <= |first|;
      underway
    }

    method IssueDependentCommands(c: nat)
      requires Valid() && Live() && c < |commands|
      modifies this
      ensures Underway(old(log), old(probes), c, |graph.Labels(c)|)
      decreases graph.rank[c], |probes|, 3
    {
      ghost var n := 0;
      for i := 1 to |commands[c].body|
        invariant n == |FreeList(commands[c].body, i)| && Underway(old(log), old(probes), c, n)
      {
        n := IssueNode(old(log), old(probes), c, i, n);
      }
    }

    method IssueNode(ghost start: seq<Sent>, ghost first: seq<bool>, c: nat, i: nat, ghost n: nat)
      returns (ghost m: nat)
      requires c < |commands| && 1 <= i < |commands[c].body| && n == |FreeList(commands[c].body, i)|
      requires Underway(start, first, c, n)
      modifies this
      ensures m == |FreeList(commands[c].body, i + 1)|
      ensures |probes| <= |old(probes)| && Underway(start, first, c, m)
      decreases graph.rank[c], |probes|, 2
    {
      m := n;
      var node := commands[c].body[i];
      NodeLabels(commands[c].body, i);
      if node.Free? {
        m := IssueLabels(start, first, c, node.labels, n);
      }
    }

    method IssueLabels(ghost start: seq<Sent>, ghost first: seq<bool>, c: nat, labels: seq<string>, ghost n: nat)
      returns (ghost m: nat)
      requires Underway(start, first, c, n)
      requires n + |labels| <= |graph.Labels(c)| && forall j :: 0 <= j < |labels| ==> graph.Labels(c)[n+j] == labels[j]
      modifies this
      ensures m == n + |labels| && |probes| <= |old(probes)| && Underway(start, first, c, m)
      decreases graph.rank[c], |probes|, 1
    {
      m := n;
      for j := 0 to |labels|
        invariant m == n + j && |probes| <= |old(probes)| && Underway(start, first, c, m)
      {
        m := IssueLabel(start, first, c, labels[j], m);
      }
    }

    // An undefined label is reported and skipped; a marked one needs nothing.
    method IssueLabel(ghost start: seq<Sent>, ghost first: seq<bool>, c: nat, l: string, ghost n: nat)
      returns (ghost m: nat)
      requires Underway(start, first, c, n) && n < |graph.Labels(c)| && l == graph.Labels(c)[n]
      modifies this
      ensures m == n + 1 && |probes| <= |old(probes)| && Underway(start, first, c, m)
      decreases graph.rank[c], |probes|, 0
    {
      m := n + 1;
      graph.AskNext(c, n, m, start, first, graph.Ask(c, n, start, first));
      if l in depend && !depend[l].executed {
        IssueSpadcommand(depend[l].spadcom, true);
      }
    }

    // Any sequence of requests, the buffer being lost at any probe of any of them: the log is
    // in order afterwards exactly as the last request with a loss has left it.
    method Session(requests: seq<Request>)
      requires Valid() && graph.Askable(requests)
      modifies this
      ensures Valid() && CanConnect() == old(CanConnect())
      ensures CanConnect() ==> Received() == graph.Received(old(Received()), requests, |requests|)
      ensures CanConnect() ==> (Ordered() <==> graph.Survives(old(Received()), requests, |requests|))
      ensures !CanConnect() ==> depend == old(depend) && log == old(log) && sock == old(sock)
    {
      ghost var was := Received();
      for i := 0 to |requests|
        invariant Valid() && CanConnect() == old(CanConnect())
        invariant CanConnect() ==> Received() == graph.Received(was, requests, i)
        invariant !CanConnect() ==> depend == old(depend) && log == old(log) && sock == old(sock)
      {
        probes := requests[i].probes;
        IssueSpadcommand(requests[i].command, requests[i].immediate);
        assert graph.Received(was, requests, i + 1) == graph.Reply(was, requests, i).log;
      }
      graph.SurvivesExactly(was, requests, |requests|);
    }
  }
}
