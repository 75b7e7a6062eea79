// Splitting source text into fragments by the off-side rule (src/io/InputFragment.cxx).
module Fragments {

  datatype LineKind = Ordinary | Description | Meta | Ignorable

  datatype Line = Line(text: string, number: nat, indent: nat, kind: LineKind) {
    // The line asks for the next line to be spliced on to it.
    predicate Continues() {
      text != "" && text[|text|-1] == '_'
    }
  }

  predicate IsBlank(c: char) {
    c == ' ' || c == '\t'
  }

  // ----- a single line -------------------------------------------------------------------

  // The number of characters before the trailing blanks, among the first n.
  function TrimmedLength(s: string, n: nat): (m: nat)
    requires n <= |s|
    ensures m <= n && (forall i :: m <= i < n ==> IsBlank(s[i])) && (m > 0 ==> !IsBlank(s[m-1]))
  {
    if n > 0 && IsBlank(s[n-1]) then TrimmedLength(s, n - 1) else n
  }

  // The first position from i on that does not hold a blank.
  function Indentation(s: string, i: nat := 0): (j: nat)
    requires i <= |s|
    ensures i <= j <= |s| && (forall k :: i <= k < j ==> IsBlank(s[k])) && (j < |s| ==> !IsBlank(s[j]))
    decreases |s| - i
  {
    if i < |s| && IsBlank(s[i]) then Indentation(s, i + 1) else i
  }

  predicate Doubled(s: string, i: nat, c: char) {
    i + 1 < |s| && s[i] == c && s[i+1] == c
  }

  function KindOf(s: string, indent: nat): LineKind {
    if Doubled(s, indent, '-') then Ignorable
    else if Doubled(s, indent, '+') then Description
    else if indent == 0 && s != "" && s[0] == ')' then Meta
    else Ordinary
  }

  // A line as read, without its trailing blanks and with its indentation and kind.
  function Dressed(raw: string, number: nat): Line {
    var s := raw[..TrimmedLength(raw, |raw|)];
    Line(s, number, Indentation(s), KindOf(s, Indentation(s)))
  }

  // Only an entirely blank line is trimmed to nothing, and only such a line is indented
  // past its end.
  lemma DressedBlank(raw: string, number: nat)
    ensures var l := Dressed(raw, number);
            && (l.text == "" <==> forall i :: 0 <= i < |raw| ==> IsBlank(raw[i]))
            && (l.indent >= |l.text| <==> l.text == "")
  {
    var l := Dressed(raw, number);
    if l.text != "" {
      assert raw[|l.text|-1] == l.text[|l.text|-1];
    }
  }

  ghost predicate AllBlank(w: string) {
    forall c :: c in w ==> c == ' ' || c == '\t'
  }

  // A text that does not begin or end with a blank.
  ghost predicate Solid(s: string) {
    s != "" && s[0] != ' ' && s[0] != '\t' && s[|s|-1] != ' ' && s[|s|-1] != '\t'
  }

  lemma TrimmedIs(raw: string, n: nat, m: nat)
    requires m <= n <= |raw| && (forall i :: m <= i < n ==> IsBlank(raw[i])) && (m > 0 ==> !IsBlank(raw[m-1]))
    ensures TrimmedLength(raw, n) == m
  {
    if n > m {
      TrimmedIs(raw, n - 1, m);
    }
  }

  // A line is its blanks in front, what is between, and blanks behind: it loses those behind,
  // is indented by those in front, and is told by what is between: two hyphens make it one to
  // ignore, two plus signs a description, and a parenthesis with no blank before it a line for
  // the reader.
  lemma DressedExactly(raw: string, number: nat, front: string, core: string, back: string)
    requires raw == front + core + back && AllBlank(front) && AllBlank(back) && Solid(core)
    ensures var l := Dressed(raw, number);
            && l.text == front + core && l.indent == |front| && l.number == number
            && l.kind == if "--" <= core then Ignorable else if "++" <= core then Description
                         else if core[0] == ')' && front == "" then Meta else Ordinary
  {
    var m := |front + core|;
    assert raw[..m] == front + core && raw[m..] == back;
    forall i | m <= i < |raw| ensures IsBlank(raw[i]) {
      assert raw[i] == raw[m..][i-m] && raw[i] in back;
    }
    assert raw[m-1] == (front + core)[m-1] == core[|core|-1];
    TrimmedIs(raw, |raw|, m);
    IndentationIs(front, core);
  }

  lemma IndentationIs(front: string, core: string)
    requires AllBlank(front) && Solid(core)
    ensures var s := front + core; Indentation(s) == |front| && s[|front|] == core[0] && s != ""
    ensures var s := front + core; |core| > 1 ==> s[|front|+1] == core[1]
  {
    var s := front + core;
    var j := Indentation(s);
    assert s[|front|] == core[0];
    assert forall k :: 0 <= k < |front| ==> s[k] == front[k] && front[k] in front;
  }

  // Every line that is not blank can be taken apart like that.
  lemma TakenApart(raw: string) returns (front: string, core: string, back: string)
    requires Dressed(raw, 0).text != ""
    ensures raw == front + core + back && AllBlank(front) && AllBlank(back) && Solid(core)
  {
    var m := TrimmedLength(raw, |raw|);
    var j := Indentation(raw[..m]);
    DressedBlank(raw, 0);
    front, core, back := raw[..j], raw[j..m], raw[m..];
    CoreIsSolid(raw, j, m);
    assert forall k :: 0 <= k < j ==> raw[..m][k] == raw[k];
  }

  lemma CoreIsSolid(raw: string, j: nat, m: nat)
    requires j < m <= |raw| && !IsBlank(raw[j]) && !IsBlank(raw[m-1])
    ensures Solid(raw[j..m])
  {
  }

  method PropUp(raw: string, number: nat) returns (l: Line)
    ensures l == Dressed(raw, number)
  {
    var n: nat := |raw|;
    while n > 0 && IsBlank(raw[n-1])
      invariant n <= |raw| && TrimmedLength(raw, n) == TrimmedLength(raw, |raw|)
    {
      n := n - 1;
    }
    var s := raw[..n];
    var indent: nat := 0;
    while indent < |s| && IsBlank(s[indent])
      invariant indent <= |s| && Indentation(s, indent) == Indentation(s)
    {
      indent := indent + 1;
    }
    var kind;
    if Doubled(s, indent, '-') {
      kind := Ignorable;
    } else if Doubled(s, indent, '+') {
      kind := Description;
    } else if indent == 0 && s != "" && s[0] == ')' {
      kind := Meta;
    } else {
      kind := Ordinary;
    }
    l := Line(s, number, indent, kind);
  }

  // ----- the stream of lines ---------------------------------------------------------------

  // The lines from position i on that are not entirely blank, dressed up.
  function Kept(raw: seq<string>, i: nat): seq<Line>
    requires i <= |raw|
    decreases |raw| - i
  {
    if i == |raw| then []
    else if Dressed(raw[i], i + 1).text == "" then Kept(raw, i + 1)
    else [Dressed(raw[i], i + 1)] + Kept(raw, i + 1)
  }

  // They are the lines of the input that are not blank, each once and in order, numbered from
  // one in the input.
  lemma KeptExactly(raw: seq<string>)
    ensures forall k :: 0 <= k < |Kept(raw, 0)| ==> KeptFrom(raw, 0, Kept(raw, 0)[k])
    ensures forall j, k :: 0 <= j < k < |Kept(raw, 0)| ==> Kept(raw, 0)[j].number < Kept(raw, 0)[k].number
    ensures forall n :: 0 <= n < |raw| && Dressed(raw[n], n + 1).text != "" ==> Dressed(raw[n], n + 1) in Kept(raw, 0)
  {
    KeptAre(raw, 0);
    KeptInOrder(raw, 0);
    forall n | 0 <= n < |raw| && Dressed(raw[n], n + 1).text != ""
      ensures Dressed(raw[n], n + 1) in Kept(raw, 0)
    {
      KeptHas(raw, 0, n);
    }
  }

  // The line is one of the input from position i on.
  ghost predicate KeptFrom(raw: seq<string>, i: nat, l: Line) {
    i < l.number <= |raw| && l == Dressed(raw[l.number-1], l.number) && l.text != ""
  }

  lemma {:induction false} KeptAre(raw: seq<string>, i: nat)
    requires i <= |raw|
    ensures forall k :: 0 <= k < |Kept(raw, i)| ==> KeptFrom(raw, i, Kept(raw, i)[k])
    decreases |raw| - i
  {
    if i < |raw| {
      KeptAre(raw, i + 1);
    }
  }

  lemma {:induction false} KeptInOrder(raw: seq<string>, i: nat)
    requires i <= |raw|
    ensures forall j, k :: 0 <= j < k < |Kept(raw, i)| ==> Kept(raw, i)[j].number < Kept(raw, i)[k].number
    decreases |raw| - i
  {
    if i < |raw| {
      KeptInOrder(raw, i + 1);
      KeptAre(raw, i + 1);
      var rest := Kept(raw, i + 1);
      forall k | 0 <= k < |rest|
        ensures i + 1 < rest[k].number
      {
        assert KeptFrom(raw, i + 1, rest[k]);
      }
    }
  }

  lemma {:induction false} KeptHas(raw: seq<string>, i: nat, n: nat)
    requires i <= n < |raw| && Dressed(raw[n], n + 1).text != ""
    ensures Dressed(raw[n], n + 1) in Kept(raw, i)
    decreases |raw| - i
  {
    if i < n {
      KeptHas(raw, i + 1, n);
    }
  }

  // An unindented ordinary line starts a new fragment, unless it is spliced on to the
  // line before it.
  predicate Opener(ls: seq<Line>, i: nat)
    requires i < |ls|
  {
    ls[i].kind.Ordinary? && ls[i].indent == 0 && (i == 0 || !ls[i-1].Continues())
  }

  function NextOpener(ls: seq<Line>, i: nat): (k: nat)
    requires i <= |ls|
    ensures i <= k <= |ls| && (k < |ls| ==> Opener(ls, k))
    ensures forall j :: i <= j < k ==> !Opener(ls, j)
    decreases |ls| - i
  {
    if i == |ls| || Opener(ls, i) then i else NextOpener(ls, i + 1)
  }

  // The lines whose indentation is compared with that of the lines before them.
  predicate Measured(ls: seq<Line>, i: nat)
    requires i < |ls|
  {
    && (i == 0 || !ls[i-1].Continues())
    && !ls[i].kind.Ignorable? && !ls[i].kind.Meta?
    && !(ls[i].kind.Description? && ls[i].indent == 0)
  }

  // They are the ordinary lines and the indented descriptions that no underscore splices on to
  // the line before them.
  lemma MeasuredExactly(ls: seq<Line>, i: nat)
    requires i < |ls|
    ensures Measured(ls, i) <==>
              && (ls[i].kind.Ordinary? || (ls[i].kind.Description? && ls[i].indent > 0))
              && (i > 0 ==> ls[i-1].text == "" || ls[i-1].text[|ls[i-1].text|-1] != '_')
  {
  }

  // The first measured line before position k, or k.
  function FirstMeasured(ls: seq<Line>, k: nat): (f: nat)
    requires k <= |ls|
    ensures f <= k && (f < k ==> Measured(ls, f)) && forall i :: 0 <= i < f ==> !Measured(ls, i)
  {
    if k == 0 then 0
    else
      var f := FirstMeasured(ls, k - 1);
      if f < k - 1 || Measured(ls, k - 1) then f else k
  }

  // No measured line before position k is indented less than the first measured line.
  ghost predicate StaysIndented(ls: seq<Line>, k: nat)
    requires k <= |ls|
  {
    var f := FirstMeasured(ls, k);
    forall i :: f < i < k && Measured(ls, i) ==> ls[f].indent <= ls[i].indent
  }

  lemma {:induction false} StaysIndentedBefore(ls: seq<Line>, m: nat, k: nat)
    requires m <= k <= |ls| && StaysIndented(ls, k)
    ensures StaysIndented(ls, m)
  {
    if m < k {
      StaysIndentedBefore(ls, m, k - 1);
    }
  }

  lemma FirstMeasuredIs(ls: seq<Line>, k: nat, f: nat)
    requires f <= k <= |ls| && (f < k ==> Measured(ls, f)) && forall i :: 0 <= i < f ==> !Measured(ls, i)
    ensures FirstMeasured(ls, k) == f
  {
    assert FirstMeasured(ls, k) == f;
  }

  // The index in a sequence of what has index i once element c is left out, and back.
  function Past(c: nat, i: nat): nat {
    if i < c then i else i + 1
  }

  function Short(c: nat, i: nat): nat
    requires i != c
  {
    if i < c then i else i - 1
  }

  function Without(ls: seq<Line>, c: nat): (r: seq<Line>)
    requires c < |ls|
    ensures |r| == |ls| - 1 && forall i :: 0 <= i < |r| ==> r[i] == ls[Past(c, i)]
  {
    ls[..c] + ls[c+1..]
  }

  // Comments that are ignored, lines for the reader and descriptions in column 0 do not
  // matter, unless they splice: without one, the other lines open fragments and are measured
  // as before, and are as well indented.
  lemma AsideDoesNotMatter(ls: seq<Line>, c: nat)
    requires c < |ls| && !ls[c].Continues() && (c > 0 ==> !ls[c-1].Continues())
    requires ls[c].kind.Ignorable? || ls[c].kind.Meta? || (ls[c].kind.Description? && ls[c].indent == 0)
    ensures !Opener(ls, c)
    ensures var r := Without(ls, c);
            && (forall i :: 0 <= i < |r| ==> (Opener(r, i) <==> Opener(ls, Past(c, i))))
            && (StaysIndented(r, |r|) <==> StaysIndented(ls, |ls|))
  {
    var r := Without(ls, c);
    AsideShifts(ls, c);
    AsideFirst(ls, c, r);
    if StaysIndented(ls, |ls|) {
      AsideOut(ls, c, r, FirstMeasured(r, |r|));
    }
    if StaysIndented(r, |r|) {
      AsideIn(ls, c, r, FirstMeasured(r, |r|));
    }
  }

  // The measured lines of ls and r are the same, line c not being one.
  ghost predicate Shifted(ls: seq<Line>, c: nat, r: seq<Line>) {
    && c < |ls| && r == Without(ls, c) && !Measured(ls, c)
    && forall i :: 0 <= i < |r| ==> (Measured(r, i) <==> Measured(ls, Past(c, i)))
  }

  lemma AsideShifts(ls: seq<Line>, c: nat)
    requires c < |ls| && !ls[c].Continues() && (c > 0 ==> !ls[c-1].Continues())
    requires ls[c].kind.Ignorable? || ls[c].kind.Meta? || (ls[c].kind.Description? && ls[c].indent == 0)
    ensures !Opener(ls, c) && Shifted(ls, c, Without(ls, c))
    ensures var r := Without(ls, c);
            forall i :: 0 <= i < |r| ==> (Opener(r, i) <==> Opener(ls, Past(c, i)))
  {
    var r := Without(ls, c);
    forall i | 0 <= i < |r|
      ensures Measured(r, i) <==> Measured(ls, Past(c, i))
      ensures Opener(r, i) <==> Opener(ls, Past(c, i))
    {
      assert i > 0 ==> r[i-1] == ls[Past(c, i - 1)];
    }
  }

  lemma AsideBack(ls: seq<Line>, c: nat, r: seq<Line>, i: nat)
    requires Shifted(ls, c, r) && i < |ls| && i != c
    ensures Short(c, i) < |r| && r[Short(c, i)] == ls[i] && (Measured(ls, i) <==> Measured(r, Short(c, i)))
  {
    assert Past(c, Short(c, i)) == i;
  }

  // The first measured line is the same.
  lemma AsideFirst(ls: seq<Line>, c: nat, r: seq<Line>)
    requires Shifted(ls, c, r)
    ensures FirstMeasured(ls, |ls|) == Past(c, FirstMeasured(r, |r|))
  {
    var f := FirstMeasured(r, |r|);
    forall i | 0 <= i < Past(c, f)
      ensures !Measured(ls, i)
    {
      if i != c {
        AsideBack(ls, c, r, i);
      }
    }
    FirstMeasuredIs(ls, |ls|, Past(c, f));
  }

  lemma AsideOut(ls: seq<Line>, c: nat, r: seq<Line>, f: nat)
    requires Shifted(ls, c, r) && f == FirstMeasured(r, |r|) && FirstMeasured(ls, |ls|) == Past(c, f)
    requires StaysIndented(ls, |ls|)
    ensures StaysIndented(r, |r|)
  {
    forall i | f < i < |r| && Measured(r, i)
      ensures r[f].indent <= r[i].indent
    {
      assert Past(c, f) < Past(c, i) && Measured(ls, Past(c, i));
    }
  }

  lemma AsideIn(ls: seq<Line>, c: nat, r: seq<Line>, f: nat)
    requires Shifted(ls, c, r) && f == FirstMeasured(r, |r|) && FirstMeasured(ls, |ls|) == Past(c, f)
    requires StaysIndented(r, |r|)
    ensures StaysIndented(ls, |ls|)
  {
    forall i | Past(c, f) < i < |ls| && Measured(ls, i)
      ensures ls[Past(c, f)].indent <= ls[i].indent
    {
      AsideBack(ls, c, r, i);
      assert f < Short(c, i) && r[f] == ls[Past(c, f)];
    }
  }

  // A second line that is indented less than the first, and is not an opener.
  lemma DedentIsUndefined()
    ensures var ls := Kept(["  a", " b"], 0); NextOpener(ls, 0) == 2 == |ls| && !StaysIndented(ls, 2)
  {
    var a, b := Dressed("  a", 1), Dressed(" b", 2);
    assert a == Line("  a", 1, 2, Ordinary) && b == Line(" b", 2, 1, Ordinary);
    assert Kept(["  a", " b"], 1) == [b];
    assert Kept(["  a", " b"], 0) == [a, b];
    assert FirstMeasured([a, b], 0) == 0 && FirstMeasured([a, b], 1) == 0;
    assert Measured([a, b], 1);
  }

  // ----- the indentation stack ---------------------------------------------------------------

  // What becomes of a line. Underflow stands for asking an empty stack for its top, which
  // C++ leaves undefined.
  datatype Verdict = Keep(indents: seq<nat>) | Stop | Underflow

  function PopTo(indents: seq<nat>, indent: nat): Verdict {
    if indents == [] then Underflow
    else if indent < indents[|indents|-1] then PopTo(indents[..|indents|-1], indent)
    else Keep(indents)
  }

  function Judge(spliced: bool, l: Line, indents: seq<nat>): Verdict {
    if spliced || l.kind.Ignorable? || l.kind.Meta? || (l.kind.Description? && l.indent == 0) then Keep(indents)
    else if l.indent == 0 then Stop
    else if indents == [] then Keep([l.indent])
    else if l.indent > indents[|indents|-1] then Keep(indents + [l.indent])
    else PopTo(indents, l.indent)
  }

  ghost predicate Increasing(indents: seq<nat>) {
    forall i, j :: 0 <= i < j < |indents| ==> indents[i] < indents[j]
  }

  // Popping keeps the stack increasing and its bottom, and empties it only for an
  // indentation below the bottom.
  lemma {:induction false} PopToKeepsBottom(indents: seq<nat>, indent: nat)
    requires indents != [] && Increasing(indents)
    ensures PopTo(indents, indent).Underflow? <==> indent < indents[0]
    ensures !PopTo(indents, indent).Stop?
    ensures PopTo(indents, indent).Keep? ==>
              var rest := PopTo(indents, indent).indents;
              rest != [] && rest <= indents && rest[|rest|-1] <= indent
  {
    var n := |indents| - 1;
    if indent < indents[n] && n > 0 {
      PopToKeepsBottom(indents[..n], indent);
    }
  }

  // The stack stays strictly increasing over a whole fragment; once it holds something
  // its bottom stays, so that with a bottom of 0 nothing is ever undefined.
  lemma JudgeKeepsStack(spliced: bool, l: Line, indents: seq<nat>)
    requires Increasing(indents)
    ensures var v := Judge(spliced, l, indents);
            && (v.Keep? ==> Increasing(v.indents) && (indents != [] ==> v.indents != [] && v.indents[0] == indents[0]))
            && (v.Underflow? ==> indents != [] && 0 < l.indent < indents[0])
  {
    if indents != [] {
      PopToKeepsBottom(indents, l.indent);
    }
  }

  method Place(spliced: bool, l: Line, was: seq<nat>) returns (v: Verdict)
    ensures v == Judge(spliced, l, was)
  {
    var indents := was;
    if spliced {
    } else if l.kind.Ignorable? {
    } else if l.kind.Meta? {
    } else if l.kind.Description? && l.indent == 0 {
    } else if indents == [] {
      if l.indent == 0 {
        return Stop;
      }
      indents := indents + [l.indent];
    } else if l.indent == 0 {
      return Stop;
    } else if l.indent > indents[|indents|-1] {
      indents := indents + [l.indent];
    } else {
      while indents != [] && l.indent < indents[|indents|-1]
        invariant PopTo(indents, l.indent) == PopTo(was, l.indent)
      {
        indents := indents[..|indents|-1];
      }
      if indents == [] {
        return Underflow;
      }
    }
    v := Keep(indents);
  }

  // ----- reading fragments -----------------------------------------------------------------------

  // The stack after reading the lines before position m, where the first start lines
  // were there to begin with.
  function Scan(ls: seq<Line>, start: nat, m: nat): Verdict
    requires start <= m <= |ls| && start <= 1
  {
    if m == start then Keep(if start == 1 && ls[0].kind.Ordinary? then [ls[0].indent] else [])
    else
      match Scan(ls, start, m - 1)
      case Keep(indents) => Judge(m > 1 && ls[m-2].Continues(), ls[m-1], indents)
      case v => v
  }

  // A line held back from the previous fragment is an unindented ordinary line.
  ghost predicate GoodStart(ls: seq<Line>, start: nat) {
    start <= 1 && start <= |ls| && (start == 1 && |ls| > 1 ==> Opener(ls, 0))
  }

  // The stack is empty until the first measured line and has that line's indentation at
  // its bottom ever after.
  ghost predicate StackFits(ls: seq<Line>, m: nat, indents: seq<nat>)
    requires m <= |ls|
  {
    && Increasing(indents)
    && (indents == [] <==> FirstMeasured(ls, m) == m)
    && (indents != [] ==> indents[0] == ls[FirstMeasured(ls, m)].indent)
    && StaysIndented(ls, m)
  }

  // One more line keeps the fit; it stops the fragment exactly when it is an opener and
  // underflows exactly when it is indented less than the first measured line.
  lemma JudgeFits(ls: seq<Line>, m: nat, indents: seq<nat>)
    requires m < |ls| && StackFits(ls, m, indents)
    ensures var v := Judge(m > 0 && ls[m-1].Continues(), ls[m], indents);
            && (v.Stop? ==> Opener(ls, m))
            && (v.Keep? ==> !Opener(ls, m) && StackFits(ls, m + 1, v.indents))
            && (v.Underflow? ==> !Opener(ls, m) && !StaysIndented(ls, m + 1))
  {
    var v := Judge(m > 0 && ls[m-1].Continues(), ls[m], indents);
    JudgeKeepsStack(m > 0 && ls[m-1].Continues(), ls[m], indents);
    if indents != [] && Measured(ls, m) {
      PopToKeepsBottom(indents, ls[m].indent);
    }
  }

  // As long as the scan goes on, no opener has been read and the stack fits.
  lemma {:induction false} ScanFits(ls: seq<Line>, start: nat, m: nat)
    requires start <= m <= |ls| && GoodStart(ls, start) && |ls| > start && Scan(ls, start, m).Keep?
    ensures StackFits(ls, m, Scan(ls, start, m).indents)
    ensures NextOpener(ls, start) == NextOpener(ls, m)
  {
    if m == start {
      assert FirstMeasured(ls, 0) == 0;
    } else {
      ScanFits(ls, start, m - 1);
      JudgeFits(ls, m - 1, Scan(ls, start, m - 1).indents);
      NextOpenerStep(ls, start, m - 1);
    }
  }

  lemma {:induction false} NextOpenerStep(ls: seq<Line>, start: nat, m: nat)
    requires start <= m < |ls| && NextOpener(ls, start) == NextOpener(ls, m) && !Opener(ls, m)
    ensures NextOpener(ls, start) == NextOpener(ls, m + 1)
  {
  }

  // Where the scan ends: at an opener or at the end of the lines it stops, having found
  // them well indented; it underflows only when they are not.
  lemma ScanEnds(ls: seq<Line>, start: nat, m: nat, k: nat)
    requires start <= m <= |ls| && GoodStart(ls, start) && Scan(ls, start, m).Keep? && k == NextOpener(ls, start)
    ensures m <= k && StaysIndented(ls, m)
    ensures m < |ls| && Scan(ls, start, m + 1).Stop? ==> k == m && Opener(ls, m)
    ensures m < |ls| && Scan(ls, start, m + 1).Underflow? ==> !StaysIndented(ls, k)
  {
    if |ls| > start {
      ScanFits(ls, start, m);
      if m < |ls| {
        JudgeFits(ls, m, Scan(ls, start, m).indents);
        if Scan(ls, start, m + 1).Underflow? && StaysIndented(ls, k) {
          StaysIndentedBefore(ls, m + 1, k);
        }
      }
    } else {
      assert m == start;
    }
  }

  // The lines cut before each opener; the first start lines are not looked at.
  function Split(ls: seq<Line>, start: nat): seq<seq<Line>>
    requires start <= 1 && start <= |ls|
    decreases |ls|, 1 - start
  {
    var k := NextOpener(ls, start);
    if k == |ls| then [ls] else [ls[..k]] + Split(ls[k..], 1)
  }

  function Concat(fragments: seq<seq<Line>>): seq<Line> {
    if fragments == [] then [] else fragments[0] + Concat(fragments[1..])
  }

  // No line is lost, repeated or moved.
  lemma {:induction false} SplitConserves(ls: seq<Line>, start: nat)
    requires start <= 1 && start <= |ls|
    ensures Concat(Split(ls, start)) == ls
    decreases |ls|, 1 - start
  {
    var k := NextOpener(ls, start);
    if k < |ls| {
      SplitConserves(ls[k..], 1);
      assert ([ls[..k]] + Split(ls[k..], 1))[1..] == Split(ls[k..], 1);
    }
  }

  // An unindented ordinary line is the first of its fragment or spliced on to the line
  // before it, and every fragment but the first starts with one.
  lemma {:induction false} SplitAtOpeners(ls: seq<Line>, start: nat, f: nat, i: nat)
    requires start <= 1 && start <= |ls| && f < |Split(ls, start)| && i < |Split(ls, start)[f]|
    ensures var l := Split(ls, start)[f];
            && (0 < i && l[i].kind.Ordinary? && l[i].indent == 0 ==> l[i-1].text != "" && "_" == l[i-1].text[|l[i-1].text|-1..])
            && (0 < f && i == 0 ==> l[0].kind.Ordinary? && l[0].indent == 0)
    decreases |ls|, 1 - start
  {
    var k := NextOpener(ls, start);
    if f > 0 {
      SplitAtOpeners(ls[k..], 1, f - 1, i);
      if i == 0 && f == 1 {
        assert Split(ls[k..], 1)[0][0] == ls[k];
      }
    } else if i > 0 {
      assert !Opener(ls, i);
    }
  }

  lemma OpenerKeepsIndented(ls: seq<Line>, k: nat)
    requires ls != [] && Opener(ls, 0) && k <= |ls|
    ensures StaysIndented(ls, k)
  {
    OpenerMeasuredFirst(ls, k);
  }

  lemma {:induction false} OpenerMeasuredFirst(ls: seq<Line>, k: nat)
    requires ls != [] && Opener(ls, 0) && k <= |ls|
    ensures FirstMeasured(ls, k) == 0
  {
    if k > 0 {
      OpenerMeasuredFirst(ls, k - 1);
    }
  }

  class SourceInput {
    // The lines of the input, whether the last of them ends in a newline, and how many
    // have been read.
    const raw: seq<string>
    const terminated: bool
    var pos: nat
    var eof: bool
    var line: Line

    constructor (raw: seq<string>, terminated: bool)
      requires !terminated ==> raw != []
      ensures Valid() && Stream() == Kept(raw, 0) && Pending() == []
      ensures this.raw == raw && this.terminated == terminated
    {
      this.raw, this.terminated, pos, eof := raw, terminated, 0, false;
      line := Line("", 0, 0, Ordinary);
    }

    // The line that ended the previous fragment, if there is one.
    function Pending(): seq<Line>
      reads this
    {
      if line.text == "" then [] else [line]
    }

    // Everything still to be delivered.
    function Stream(): seq<Line>
      requires pos <= |raw|
      reads this
    {
      Pending() + Kept(raw, pos)
    }

    function Last(): Line
      requires raw != []
    {
      Dressed(raw[|raw|-1], |raw|)
    }

    // What reading leaves behind at the end: nothing, or an unterminated last line.
    function Residue(): seq<Line>
      requires !terminated ==> raw != []
    {
      if terminated || Last().text == "" then [] else [Last()]
    }

    // The end of the input is met while reading an unterminated last line, and otherwise
    // by failing to read one more.
    ghost predicate Cursor()
      reads this
    {
      && pos <= |raw| && line.number == pos
      && if terminated then eof ==> pos == |raw| && line.text == ""
         else raw != [] && (eof <==> pos == |raw|) && (eof ==> line == Last())
    }

    ghost predicate Valid()
      reads this
    {
      Cursor() && (line.text != "" && !eof ==> line.kind.Ordinary? && line.indent == 0)
    }

    // std::getline: on failure the line is erased, except when the end of the input had
    // already been met.
    method GetLine() returns (ok: bool, text: string)
      requires pos <= |raw| && (eof ==> pos == |raw|)
      modifies this`pos, this`eof, this`line
      ensures ok == (old(pos) < |raw|)
      ensures ok ==> pos == old(pos) + 1 && text == raw[old(pos)] && line == old(line)
      ensures ok ==> eof == (pos == |raw| && !terminated)
      ensures !ok ==> pos == old(pos) && eof && line == if old(eof) then old(line) else old(line).(text := "")
    {
      text := "";
      ok := pos < |raw|;
      if ok {
        text, pos := raw[pos], pos + 1;
        eof := pos == |raw| && !terminated;
      } else if !eof {
        line, eof := line.(text := ""), true;
      }
    }

    // The fragment holds the first lines of ls and the input the rest.
    ghost predicate Reading(ls: seq<Line>, fragment: seq<Line>)
      reads this
    {
      Cursor() && fragment + Kept(raw, pos) == ls
    }

    // One turn of the loop, up to the judgement of the line.
    method NextLine(ghost ls: seq<Line>, ghost fragment: seq<Line>) returns (ok: bool)
      requires Reading(ls, fragment)
      modifies this`pos, this`eof, this`line
      ensures !ok ==> Cursor() && fragment == ls && eof && Pending() == Residue()
      ensures ok ==> pos == old(pos) + 1
      ensures ok && line.indent >= |line.text| ==> Reading(ls, fragment)
      ensures ok && line.indent < |line.text| ==>
                line.text != "" && Reading(ls, fragment + [line]) && ls == fragment + Stream()
    {
      var text;
      ok, text := GetLine();
      if ok {
        line := PropUp(text, line.number + 1);
        DressedBlank(text, line.number);
        assert fragment + ([line] + Kept(raw, pos)) == (fragment + [line]) + Kept(raw, pos);
      }
    }

    // The fragment has been read and its lines have been judged to leave this stack.
    ghost predicate Filling(ls: seq<Line>, start: nat, fragment: seq<Line>, indents: seq<nat>)
      reads this
    {
      var filling :=
        && Reading(ls, fragment) && start <= |fragment| && start <= 1 && |fragment| <= |ls|
        && Scan(ls, start, |fragment|) == Keep(indents);
      filling
    }

    // The input has ended, or the line after the fragment has been read and judged.
    ghost predicate Filled(ls: seq<Line>, start: nat, fragment: seq<Line>, last: Turned)
      reads this
    {
      var filled :=
        && start <= |fragment| && start <= 1 && fragment <= ls && Scan(ls, start, |fragment|).Keep?
        && (last.Ended? ==> Cursor() && fragment == ls && eof && Pending() == Residue())
        && (last.Judged? ==>
              && line.text != "" && Reading(ls, fragment + [line]) && ls == fragment + Stream() && |fragment| < |ls|
              && last.verdict == Scan(ls, start, |fragment| + 1));
      filled
    }

    // One turn of the loop.
    method Turn(fragment: seq<Line>, indents: seq<nat>, ghost ls: seq<Line>, ghost start: nat) returns (t: Turned)
      requires Filling(ls, start, fragment, indents)
      modifies this`pos, this`eof, this`line
      ensures Filled(ls, start, fragment, t)
      ensures !t.Ended? ==> pos == old(pos) + 1 <= |raw|
      ensures t.Skipped? ==> Filling(ls, start, fragment, indents)
      ensures t.Judged? && t.verdict.Keep? ==> Filling(ls, start, fragment + [line], t.verdict.indents)
    {
      var ok := NextLine(ls, fragment);
      if !ok {
        return Ended;
      }
      if line.indent >= |line.text| {
        return Skipped;
      }
      assert ls[|fragment|] == line;
      var v := Place(fragment != [] && fragment[|fragment|-1].Continues(), line, indents);
      t := Judged(v);
    }

    // The fragment starts with the line that ended the previous one.
    method Begin() returns (fragment: seq<Line>, indents: seq<nat>)
      requires Valid()
      ensures fragment == Pending() && Reading(Stream(), fragment)
      ensures Scan(Stream(), |fragment|, |fragment|) == Keep(indents) && GoodStart(Stream(), |fragment|)
    {
      indents, fragment := [], [];
      if line.text != "" {
        if line.kind.Ordinary? {
          indents := indents + [line.indent];
        }
        fragment := fragment + [line];
      }
    }

    // The loop: turns until the input ends or a line is not kept.
    method Fill(ghost ls: seq<Line>, ghost start: nat, first: seq<Line>, bottom: seq<nat>)
      returns (fragment: seq<Line>, last: Turned)
      requires Filling(ls, start, first, bottom)
      modifies this`pos, this`eof, this`line
      ensures Filled(ls, start, fragment, last)
      ensures last.Ended? || (last.Judged? && !last.verdict.Keep?)
    {
      fragment := first;
      var stack := bottom;
      last := Skipped;
      while true
        invariant Filling(ls, start, fragment, stack)
        decreases |raw| - pos
      {
        last := Turn(fragment, stack, ls, start);
        if last.Ended? || (last.Judged? && !last.verdict.Keep?) {
          return;
        }
        if last.Judged? {
          stack, fragment := last.verdict.indents, fragment + [line];
        }
      }
    }

    lemma SettleGet(ls: seq<Line>, start: nat, k: nat, fragment: seq<Line>, last: Turned)
      requires GoodStart(ls, start) && k == NextOpener(ls, start) && Filled(ls, start, fragment, last)
      requires last.Ended? || (last.Judged? && !last.verdict.Keep?)
      ensures last.Ended? || last.verdict.Stop? <==> StaysIndented(ls, k)
      ensures last.Ended? || last.verdict.Stop? ==> Valid() && fragment == ls[..k]
      ensures last.Ended? ==> k == |ls| && eof && Pending() == Residue()
      ensures last.Judged? && last.verdict.Stop? ==> k < |ls| && Pending() == [ls[k]] && Stream() == ls[k..]
    {
      ScanEnds(ls, start, |fragment|, k);
      if last.Judged? {
        assert ls[|fragment|] == line && ls[|fragment|..] == Stream();
      }
    }

    // One call delivers the lines up to the next opener, which it holds back.
    method Get() returns (fragment: seq<Line>, defined: bool, ghost k: nat)
      requires Valid()
      modifies this`pos, this`eof, this`line
      ensures k == NextOpener(old(Stream()), |old(Pending())|)
      ensures defined <==> StaysIndented(old(Stream()), k)
      ensures defined ==> Valid() && fragment == old(Stream())[..k]
      ensures defined && k < |old(Stream())| ==> Pending() == [old(Stream())[k]] && Stream() == old(Stream())[k..]
      ensures defined && k == |old(Stream())| ==> eof && Pending() == Residue()
    {
      ghost var ls, start := Stream(), |Pending()|;
      k := NextOpener(ls, start);
      var first, indents := Begin();
      var last;
      fragment, last := Fill(ls, start, first, indents);
      SettleGet(ls, start, k, fragment, last);
      defined := last.Ended? || last.verdict.Stop?;
    }

    // One call seen as one step of the split.
    method GetStep() returns (fragment: seq<Line>, defined: bool)
      requires Valid() && Residue() == []
      modifies this`pos, this`eof, this`line
      ensures defined <==> StaysIndented(old(Stream()), NextOpener(old(Stream()), |old(Pending())|))
      ensures defined ==> Valid() && (if line.text == "" then eof else Opener(Stream(), 0))
      ensures defined ==>
                Split(old(Stream()), |old(Pending())|) ==
                [fragment] + if line.text == "" then [] else Split(Stream(), 1)
      ensures defined && line.text != "" && old(line.text) != "" ==> |Stream()| < |old(Stream())|
    {
      ghost var ls, k;
      ls := Stream();
      fragment, defined, k := Get();
      if defined && k == |ls| {
        assert fragment == ls;
      }
    }

    // Calling until nothing is held back delivers the whole input, split at its openers.
    method GetAll() returns (fragments: seq<seq<Line>>, defined: bool)
      requires Valid() && Residue() == []
      modifies this`pos, this`eof, this`line
      ensures defined <==> StaysIndented(old(Stream()), NextOpener(old(Stream()), |old(Pending())|))
      ensures defined ==> fragments == Split(old(Stream()), |old(Pending())|) && eof && Pending() == []
    {
      var fragment;
      fragment, defined := GetStep();
      fragments := [fragment];
      if defined {
        var rest := GetRest();
        fragments := fragments + rest;
      }
    }

    method GetRest() returns (fragments: seq<seq<Line>>)
      requires Valid() && Residue() == [] && if line.text == "" then eof else Opener(Stream(), 0)
      modifies this`pos, this`eof, this`line
      ensures fragments == if old(line.text) == "" then [] else Split(old(Stream()), 1)
      ensures eof && Pending() == []
      decreases if line.text == "" then 0 else |Stream()|
    {
      if line.text == "" {
        return [];
      }
      OpenerKeepsIndented(Stream(), NextOpener(Stream(), 1));
      var fragment, _ := GetStep();
      var rest := GetRest();
      fragments := [fragment] + rest;
    }

    // A line that is left over at the end of the input is delivered again by every call.
    method GetAtEnd() returns (fragment: seq<Line>)
      requires Valid() && eof
      modifies this`pos, this`eof, this`line
      ensures Valid() && eof && fragment == old(Pending()) && Pending() == old(Pending())
    {
      ghost var k;
      var defined;
      fragment, defined, k := Get();
    }
  }

  datatype Turned = Ended | Skipped | Judged(verdict: Verdict)
}
