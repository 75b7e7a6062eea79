// Rewriting the page database when a file is added or deleted (src/hyper/htadd.c).
module PageDatabase {
  import opened Characters
  import opened Wrappers

  // The entry of one file: its name, its modification time, and the list of its pages
  // up to the tab that starts the next entry.
  datatype Record = Record(name: string, mtime: nat, body: string)

  predicate IsWhite(c: char) {
    c == ' ' || c == '\t' || c == '\n'
  }

  predicate IsReserved(c: char) {
    c == '%' || c == '\\' || c == '{' || c == '}'
  }

  // w stands in s at position i.
  ghost predicate At(s: string, i: nat, w: string) {
    i + |w| <= |s| && forall k :: i <= k < i + |w| ==> s[k] == w[k-i]
  }

  lemma AtConcat(s: string, i: nat, u: string, v: string)
    requires At(s, i, u + v)
    ensures At(s, i, u) && At(s, i + |u|, v)
  {
    assert forall k :: i <= k < i + |u| ==> s[k] == (u + v)[k-i];
    assert forall k :: i + |u| <= k < i + |u| + |v| ==> s[k] == (u + v)[k-i];
  }

  // ----- numerals -------------------------------------------------------------------------

  // printf's %d
  function Numeral(n: nat): (s: string)
    ensures s != "" && forall k :: 0 <= k < |s| ==> IsDigit(s[k])
  {
    if n < 10 then ['0' + n as char] else Numeral(n / 10) + ['0' + (n % 10) as char]
  }

  lemma {:induction false} AtoiConcat(s: string, i: nat, mid: nat, end: nat, n: nat)
    requires i <= mid <= end <= |s| && forall k :: i <= k < mid ==> IsDigit(s[k])
    ensures Atoi(s, i, end, n) == Atoi(s, mid, end, Atoi(s, i, mid, n))
    decreases mid - i
  {
    if i < mid {
      AtoiConcat(s, i + 1, mid, end, 10 * n + DigitValue(s[i]));
    }
  }

  // A number is read in decimal: each digit adds its value to ten times what comes before.
  lemma AtoiLast(s: string, i: nat, end: nat)
    requires i < end <= |s| && forall k :: i <= k < end ==> '0' <= s[k] <= '9'
    ensures Atoi(s, i, end) == 10 * Atoi(s, i, end - 1) + (s[end-1] as int - 48)
  {
    AtoiConcat(s, i, end - 1, end, 0);
  }

  // A numeral in a text reads back as its number.
  lemma {:induction false} AtoiOfNumeral(s: string, i: nat, n: nat)
    requires At(s, i, Numeral(n))
    ensures Atoi(s, i, i + |Numeral(n)|) == n
    decreases n
  {
    var end := i + |Numeral(n)|;
    if n >= 10 {
      AtConcat(s, i, Numeral(n / 10), ['0' + (n % 10) as char]);
      AtoiOfNumeral(s, i, n / 10);
      AtoiConcat(s, i, end - 1, end, 0);
    }
  }

  // ----- reading entries --------------------------------------------------------------------

  function SkipWhite(s: string, i: nat): (j: nat)
    requires i <= |s|
    ensures i <= j <= |s| && (j < |s| ==> !IsWhite(s[j])) && forall k :: i <= k < j ==> IsWhite(s[k])
    decreases |s| - i
  {
    if i < |s| && IsWhite(s[i]) then SkipWhite(s, i + 1) else i
  }

  function WordEnd(s: string, i: nat): (j: nat)
    requires i <= |s|
    ensures i <= j <= |s| && (j < |s| ==> IsWhite(s[j])) && forall k :: i <= k < j ==> !IsWhite(s[k])
    decreases |s| - i
  {
    if i < |s| && !IsWhite(s[i]) then WordEnd(s, i + 1) else i
  }

  function NextTab(s: string, i: nat): (j: nat)
    requires i <= |s|
    ensures i <= j <= |s| && (j < |s| ==> s[j] == '\t') && forall k :: i <= k < j ==> s[k] != '\t'
    decreases |s| - i
  {
    if i < |s| && s[i] != '\t' then NextTab(s, i + 1) else i
  }

  datatype Header = Header(name: string, mtime: nat, next: nat)

  // The name and time after a tab, with the delimiter after the time left unread. None is
  // the error exit: no name, or one that starts with a reserved character. Where the time
  // is missing, the scanner still holds the name, which is read as a number instead.
  function HeaderAt(s: string, i: nat): (h: Option<Header>)
    requires i <= |s|
    ensures h.Some? ==> i < h.value.next <= |s|
  {
    var a := SkipWhite(s, i);
    if a == |s| || IsReserved(s[a]) then None
    else
      var b := WordEnd(s, a);
      var m := SkipWhite(s, b);
      if m == |s| then Some(Header(s[a..b], Atoi(s, a, b), m))
      else Some(Header(s[a..b], Atoi(s, m, WordEnd(s, m)), WordEnd(s, m)))
  }

  ghost predicate AllWhite(w: string) {
    forall c :: c in w ==> c in " \t\n"
  }

  ghost predicate NoneWhite(w: string) {
    forall c :: c in w ==> c !in " \t\n"
  }

  // The error exit is taken exactly when only white space is left, or when one of four
  // characters comes first after white space.
  lemma HeaderMissing(s: string, i: nat)
    requires i <= |s|
    ensures HeaderAt(s, i).None? <==>
            AllWhite(s[i..]) ||
            exists a :: i <= a < |s| && AllWhite(s[i..a]) && s[a] in "%\\{}"
  {
    var a := SkipWhite(s, i);
    assert forall k :: i <= k < a ==> s[k] == s[i..a][k-i];
    if a == |s| {
      assert s[i..] == s[i..a];
    } else {
      assert s[a] in s[i..] by { assert s[i..][a-i] == s[a]; }
      forall b | i <= b < |s| && AllWhite(s[i..b]) && s[b] in "%\\{}"
        ensures a == b
      {
        FirstNotWhite(s, i, b);
      }
    }
  }

  lemma FirstNotWhite(s: string, i: nat, b: nat)
    requires i <= b <= |s| && AllWhite(s[i..b]) && (b < |s| ==> s[b] !in " \t\n")
    ensures SkipWhite(s, i) == b
  {
    forall k | i <= k < b
      ensures IsWhite(s[k])
    {
      assert s[i..b][k-i] == s[k] && s[k] in s[i..b];
    }
  }

  lemma FirstWhite(s: string, i: nat, b: nat)
    requires i <= b <= |s| && NoneWhite(s[i..b]) && (b < |s| ==> s[b] in " \t\n")
    ensures WordEnd(s, i) == b
  {
    forall k | i <= k < b
      ensures !IsWhite(s[k])
    {
      assert s[i..b][k-i] == s[k] && s[k] in s[i..b];
    }
  }

  // Otherwise the name is the first word and the time the number that the second one starts
  // with, whatever white space is around them; without a second word it is that of the name.
  lemma HeaderOfWords(s: string, i: nat, a: nat, b: nat, m: nat, e: nat)
    requires i <= a < b <= m <= e <= |s| && AllWhite(s[i..a]) && NoneWhite(s[a..b]) && AllWhite(s[b..m])
    requires NoneWhite(s[m..e]) && (e < |s| ==> s[e] in " \t\n") && (m == e ==> e == |s|) && (b == m ==> m == |s|)
    requires s[a] !in "%\\{}"
    ensures HeaderAt(s, i) == Some(Header(s[a..b], if m < e then Atoi(s, m, e) else Atoi(s, a, b), e))
  {
    assert s[a] in s[a..b] by { assert s[a..b][0] == s[a]; }
    assert b < m ==> s[b] in " \t\n" by { assert b < m ==> s[b..m][0] == s[b]; }
    assert m < e ==> s[m] !in " \t\n" by { assert m < e ==> s[m..e][0] == s[m]; }
    FirstNotWhite(s, i, a);
    FirstWhite(s, a, b);
    FirstNotWhite(s, b, m);
    FirstWhite(s, m, e);
  }

  datatype Entry = Entry(record: Record, next: nat)

  // The entry whose tab is at position i, up to the next tab.
  function EntryAt(s: string, i: nat): (e: Option<Entry>)
    requires i < |s|
    ensures e.Some? ==> i < e.value.next <= |s| && (e.value.next < |s| ==> s[e.value.next] == '\t')
  {
    match HeaderAt(s, i + 1)
    case None => None
    case Some(h) => Some(Entry(Record(h.name, h.mtime, s[h.next..NextTab(s, h.next)]), NextTab(s, h.next)))
  }

  // The entries read so far and those from position i on, where i is at a tab or at the
  // end.
  function Parse(s: string, i: nat, rs: seq<Record>): Option<seq<Record>>
    requires i <= |s|
    decreases |s| - i
  {
    if i == |s| then Some(rs)
    else
      match EntryAt(s, i)
      case None => None
      case Some(e) => Parse(s, e.next, rs + [e.record])
  }

  // ----- writing entries ------------------------------------------------------------------------

  function Render(r: Record): string {
    ['\t'] + r.name + [' '] + Numeral(r.mtime) + r.body
  }

  // The text of the entries from position k on.
  function RenderAll(rs: seq<Record>, k: nat := 0): string
    requires k <= |rs|
    decreases |rs| - k
  {
    if k == |rs| then "" else Render(rs[k]) + RenderAll(rs, k + 1)
  }

  // An entry that reads back as itself.
  predicate Good(r: Record) {
    && r.name != "" && !IsReserved(r.name[0])
    && (forall k :: 0 <= k < |r.name| ==> !IsWhite(r.name[k]))
    && (forall k :: 0 <= k < |r.body| ==> r.body[k] != '\t')
    && (r.body != "" ==> IsWhite(r.body[0]))
  }

  lemma {:induction false} RenderAppend(rs: seq<Record>, r: Record, k: nat)
    requires k <= |rs|
    ensures RenderAll(rs + [r], k) == RenderAll(rs, k) + Render(r)
    decreases |rs| - k
  {
    var w := Render(r);
    if k < |rs| {
      RenderAppend(rs, r, k + 1);
      assert Render(rs[k]) + (RenderAll(rs, k + 1) + w) == (Render(rs[k]) + RenderAll(rs, k + 1)) + w;
    } else {
      assert RenderAll(rs + [r], k) == w + RenderAll(rs + [r], k + 1) == w;
    }
  }

  lemma {:induction false} WordEndsAt(s: string, i: nat, e: nat)
    requires i <= e <= |s| && (forall k :: i <= k < e ==> !IsWhite(s[k])) && (e < |s| ==> IsWhite(s[e]))
    ensures WordEnd(s, i) == e
    decreases e - i
  {
    if i < e {
      WordEndsAt(s, i + 1, e);
    }
  }

  lemma {:induction false} TabAt(s: string, i: nat, e: nat)
    requires i <= e <= |s| && (forall k :: i <= k < e ==> s[k] != '\t') && (e < |s| ==> s[e] == '\t')
    ensures NextTab(s, i) == e
    decreases e - i
  {
    if i < e {
      TabAt(s, i + 1, e);
    }
  }

  // The parts of a rendered entry that starts at position i of a text.
  lemma RenderedParts(s: string, i: nat, r: Record)
    requires At(s, i, Render(r))
    ensures |Render(r)| == 2 + |r.name| + |Numeral(r.mtime)| + |r.body|
    ensures At(s, i + 1, r.name) && s[i + 1 + |r.name|] == ' ' && At(s, i + 2 + |r.name|, Numeral(r.mtime))
    ensures s[i] == '\t' && At(s, i + 2 + |r.name| + |Numeral(r.mtime)|, r.body)
  {
    var tab, blank: string := ['\t'], [' '];
    AtConcat(s, i, tab + r.name + blank + Numeral(r.mtime), r.body);
    AtConcat(s, i, tab + r.name + blank, Numeral(r.mtime));
    AtConcat(s, i, tab + r.name, blank);
    AtConcat(s, i, tab, r.name);
  }

  lemma HeaderFound(s: string, a: nat, b: nat, e: nat)
    requires a < b && b + 1 < e <= |s| && !IsReserved(s[a]) && s[b] == ' '
    requires (forall k :: a <= k < b ==> !IsWhite(s[k])) && (forall k :: b < k < e ==> !IsWhite(s[k]))
    requires e < |s| ==> IsWhite(s[e])
    ensures HeaderAt(s, a) == Some(Header(s[a..b], Atoi(s, b + 1, e), e))
  {
    WordEndsAt(s, a, b);
    WordEndsAt(s, b + 1, e);
  }

  lemma RenderedHeader(s: string, i: nat, r: Record)
    requires Good(r) && At(s, i, Render(r))
    requires i + |Render(r)| < |s| ==> s[i + |Render(r)|] == '\t'
    ensures HeaderAt(s, i + 1) == Some(Header(r.name, r.mtime, i + 2 + |r.name| + |Numeral(r.mtime)|))
  {
    RenderedWords(s, i, r);
    RenderedName(s, i, r);
    RenderedEnd(s, i, r);
    HeaderFound(s, i + 1, i + 1 + |r.name|, i + 2 + |r.name| + |Numeral(r.mtime)|);
  }

  lemma RenderedName(s: string, i: nat, r: Record)
    requires Good(r) && At(s, i, Render(r))
    ensures var b := i + 1 + |r.name|;
            i + 1 < b < |s| && !IsReserved(s[i+1]) && s[b] == ' ' && forall k :: i + 1 <= k < b ==> !IsWhite(s[k])
  {
    RenderedParts(s, i, r);
    assert s[i+1] == r.name[0];
  }

  // The time ends at the end of the text, at the body, or at the tab of the next entry.
  lemma RenderedEnd(s: string, i: nat, r: Record)
    requires Good(r) && At(s, i, Render(r))
    requires i + |Render(r)| < |s| ==> s[i + |Render(r)|] == '\t'
    ensures var e := i + 2 + |r.name| + |Numeral(r.mtime)|;
            e < |s| ==> IsWhite(s[e])
  {
    RenderedParts(s, i, r);
    var e := i + 2 + |r.name| + |Numeral(r.mtime)|;
    if r.body != "" {
      assert s[e] == r.body[0];
    }
  }

  lemma RenderedWords(s: string, i: nat, r: Record)
    requires Good(r) && At(s, i, Render(r))
    ensures var b, e := i + 1 + |r.name|, i + 2 + |r.name| + |Numeral(r.mtime)|;
            && b + 1 < e <= |s| && s[i+1..b] == r.name && Atoi(s, b + 1, e) == r.mtime
            && forall k :: b < k < e ==> !IsWhite(s[k])
  {
    RenderedParts(s, i, r);
    var b := i + 1 + |r.name|;
    NumeralNotWhite(s, b + 1, r.mtime);
    AtoiOfNumeral(s, b + 1, r.mtime);
    assert s[i+1..b] == r.name;
  }

  lemma NumeralNotWhite(s: string, i: nat, n: nat)
    requires At(s, i, Numeral(n))
    ensures forall k :: i <= k < i + |Numeral(n)| ==> !IsWhite(s[k])
  {
    forall k | i <= k < i + |Numeral(n)|
      ensures !IsWhite(s[k])
    {
      assert IsDigit(Numeral(n)[k-i]);
    }
  }

  lemma RenderedBody(s: string, i: nat, r: Record)
    requires Good(r) && At(s, i, Render(r))
    requires i + |Render(r)| < |s| ==> s[i + |Render(r)|] == '\t'
    ensures var e := i + 2 + |r.name| + |Numeral(r.mtime)|;
            e <= |s| && NextTab(s, e) == i + |Render(r)| && s[e..NextTab(s, e)] == r.body
  {
    RenderedParts(s, i, r);
    TabAt(s, i + |Render(r)| - |r.body|, i + |Render(r)|);
  }

  // The text from position i on is the entries from position k on.
  ghost predicate Tail(s: string, i: nat, rs: seq<Record>, k: nat)
    requires k <= |rs|
  {
    i + |RenderAll(rs, k)| == |s| && At(s, i, RenderAll(rs, k))
  }

  lemma TailSplits(s: string, i: nat, rs: seq<Record>, k: nat)
    requires k < |rs| && Tail(s, i, rs, k)
    ensures At(s, i, Render(rs[k])) && Tail(s, i + |Render(rs[k])|, rs, k + 1)
    ensures i < |s| && s[i] == '\t'
  {
    AtConcat(s, i, Render(rs[k]), RenderAll(rs, k + 1));
    RenderedParts(s, i, rs[k]);
  }

  lemma RenderedEntry(s: string, i: nat, r: Record)
    requires Good(r) && At(s, i, Render(r))
    requires i + |Render(r)| < |s| ==> s[i + |Render(r)|] == '\t'
    ensures i < |s| && EntryAt(s, i) == Some(Entry(r, i + |Render(r)|))
  {
    RenderedHeader(s, i, r);
    RenderedBody(s, i, r);
    RenderedName(s, i, r);
    EntryFound(s, i, Header(r.name, r.mtime, i + 2 + |r.name| + |Numeral(r.mtime)|), i + |Render(r)|, r.body);
  }

  lemma EntryFound(s: string, i: nat, h: Header, end: nat, body: string)
    requires i < |s| && h.next <= |s| && HeaderAt(s, i + 1) == Some(h)
    requires NextTab(s, h.next) == end && s[h.next..end] == body
    ensures EntryAt(s, i) == Some(Entry(Record(h.name, h.mtime, body), end))
  {
  }

  // The first entry of a rendered tail, and where the next one starts.
  lemma TailEntry(s: string, i: nat, rs: seq<Record>, k: nat) returns (t: nat)
    requires k < |rs| && Tail(s, i, rs, k) && Good(rs[k])
    ensures i < |s| && EntryAt(s, i) == Some(Entry(rs[k], t)) && Tail(s, t, rs, k + 1)
  {
    var r := rs[k];
    t := i + |Render(r)|;
    TailSplits(s, i, rs, k);
    assert t < |s| ==> s[t] == '\t' by {
      if k + 1 < |rs| {
        TailSplits(s, t, rs, k + 1);
      }
    }
    RenderedEntry(s, i, r);
  }

  lemma TakeNext<T>(s: seq<T>, k: nat)
    requires k < |s|
    ensures s[..k] + [s[k]] == s[..k+1]
  {
  }

  // A rendered database reads back as its entries.
  lemma {:induction false} ParseOfRender(s: string, i: nat, rs: seq<Record>, k: nat)
    requires k <= |rs| && Tail(s, i, rs, k)
    requires forall j :: 0 <= j < |rs| ==> Good(rs[j])
    ensures i <= |s| && Parse(s, i, rs[..k]) == Some(rs)
    decreases |rs| - k
  {
    if k < |rs| {
      var t := TailEntry(s, i, rs, k);
      ParseOfRender(s, t, rs, k + 1);
      TakeNext(rs, k);
    } else {
      assert rs[..k] == rs;
    }
  }

  // Everything that reads back at all reads back as good entries.
  lemma {:induction false} ParsedIsGood(s: string, i: nat, rs: seq<Record>)
    requires i <= |s| && AllGood(rs) && Parse(s, i, rs).Some?
    ensures AllGood(Parse(s, i, rs).value)
    decreases |s| - i
  {
    if i < |s| {
      EntryIsGood(s, i);
      ParsedIsGood(s, EntryAt(s, i).value.next, rs + [EntryAt(s, i).value.record]);
    }
  }

  predicate AllGood(rs: seq<Record>) {
    forall k :: 0 <= k < |rs| ==> Good(rs[k])
  }

  lemma EntryIsGood(s: string, i: nat)
    requires i < |s| && EntryAt(s, i).Some?
    ensures Good(EntryAt(s, i).value.record)
  {
    var a := SkipWhite(s, i + 1);
    assert s[a..WordEnd(s, a)][0] == s[a];
  }

  // ----- what the two commands do to the entries -------------------------------------------------

  function Names(rs: seq<Record>): set<string> {
    set r | r in rs :: r.name
  }

  lemma NamesSplit(rs: seq<Record>)
    requires rs != []
    ensures var n := |rs| - 1; rs == rs[..n] + [rs[n]] && Names(rs) == Names(rs[..n]) + {rs[n].name}
  {
    var n := |rs| - 1;
    var front, last := rs[..n], rs[n];
    assert rs == front + [last];
    forall r | r in front + [last]
      ensures r.name in Names(front) + {last.name}
    {
    }
  }

  // The first entry of the file is replaced; reading the file a second time for another
  // entry of the same name finds it exhausted, so that entry keeps its header only.
  function Put(r: Record, page: Record, there: bool): Record {
    if r.name != page.name then r else if there then page.(body := "\n") else page
  }

  function Replaced(rs: seq<Record>, page: Record): seq<Record> {
    if rs == [] then []
    else
      var n := |rs| - 1;
      Replaced(rs[..n], page) +
      [Put(rs[n], page, page.name in Names(rs[..n]))]
  }

  function Updated(rs: seq<Record>, page: Record): seq<Record> {
    if page.name in Names(rs) then Replaced(rs, page) else Replaced(rs, page) + [page]
  }

  function Deleted(rs: seq<Record>, name: string): seq<Record> {
    if rs == [] then []
    else
      var n := |rs| - 1;
      Deleted(rs[..n], name) + if rs[n].name == name then [] else [rs[n]]
  }

  lemma {:induction false} ReplacedNames(rs: seq<Record>, page: Record)
    ensures |Replaced(rs, page)| == |rs|
    ensures forall k :: 0 <= k < |rs| ==> Replaced(rs, page)[k].name == rs[k].name
    ensures Names(Replaced(rs, page)) == Names(rs)
  {
    if rs != [] {
      var n := |rs| - 1;
      ReplacedNames(rs[..n], page);
      var q := Replaced(rs, page);
      assert forall k :: 0 <= k < |rs| ==> q[k].name == rs[k].name;
      SameNames(q, rs);
    }
  }

  lemma SameNames(a: seq<Record>, b: seq<Record>)
    requires |a| == |b| && forall k :: 0 <= k < |a| ==> a[k].name == b[k].name
    ensures Names(a) == Names(b)
  {
    forall k | 0 <= k < |a|
      ensures a[k].name in Names(b) && b[k].name in Names(a)
    {
      assert b[k] in b && a[k] in a;
    }
  }

  // Replacing again with the same entry changes nothing.
  lemma {:induction false} ReplacedTwice(rs: seq<Record>, page: Record)
    ensures Replaced(Replaced(rs, page), page) == Replaced(rs, page)
  {
    if rs != [] {
      var n := |rs| - 1;
      var q := Replaced(rs, page);
      ReplacedNames(rs[..n], page);
      ReplacedTwice(rs[..n], page);
      assert q[..n] == Replaced(rs[..n], page);
    }
  }

  lemma {:induction false} ReplacedAbsent(rs: seq<Record>, page: Record)
    requires page.name !in Names(rs)
    ensures Replaced(rs, page) == rs
  {
    if rs != [] {
      var n := |rs| - 1;
      NamesSplit(rs);
      ReplacedAbsent(rs[..n], page);
    }
  }

  // Adding the same file again changes nothing.
  lemma UpdatedTwice(rs: seq<Record>, page: Record)
    ensures Updated(Updated(rs, page), page) == Updated(rs, page)
  {
    var q := Updated(rs, page);
    ReplacedNames(rs, page);
    if page.name in Names(rs) {
      ReplacedTwice(rs, page);
    } else {
      ReplacedAbsent(rs, page);
      assert q[|rs|] == page && page in q && q[..|rs|] == rs;
    }
  }

  lemma {:induction false} DeletedReplaced(rs: seq<Record>, page: Record)
    ensures Deleted(Replaced(rs, page), page.name) == Deleted(rs, page.name)
  {
    if rs != [] {
      var n := |rs| - 1;
      var q := Replaced(rs, page);
      ReplacedNames(rs[..n], page);
      assert q[..n] == Replaced(rs[..n], page);
      DeletedReplaced(rs[..n], page);
    }
  }

  // Adding a file leaves all other entries as they were and in order: deleting it again
  // gives what deleting it before would have given.
  lemma DeletedUpdated(rs: seq<Record>, page: Record)
    ensures Deleted(Updated(rs, page), page.name) == Deleted(rs, page.name)
  {
    DeletedReplaced(rs, page);
    var q := Replaced(rs, page);
    assert (q + [page])[..|q|] == q;
  }

  ghost predicate UniqueNames(rs: seq<Record>) {
    forall i, j :: 0 <= i < j < |rs| ==> rs[i].name != rs[j].name
  }

  // With unique names an update is in place or at the end, and names stay unique.
  lemma {:induction false} UpdatedInPlace(rs: seq<Record>, page: Record, k: nat)
    requires UniqueNames(rs) && k < |rs| && rs[k].name == page.name
    ensures Replaced(rs, page) == Updated(rs, page) == rs[k := page]
  {
    var n := |rs| - 1;
    assert rs[k] in rs;
    if k < n {
      assert rs[..n][k := page] + [rs[n]] == rs[k := page];
      UpdatedInPlace(rs[..n], page, k);
    } else {
      ReplacedAbsent(rs[..n], page);
      assert rs[..n] + [page] == rs[k := page];
    }
  }

  lemma UpdatedAtEnd(rs: seq<Record>, page: Record)
    requires page.name !in Names(rs)
    ensures Updated(rs, page) == rs + [page]
  {
    ReplacedAbsent(rs, page);
  }

  lemma UpdatedKeepsUnique(rs: seq<Record>, page: Record)
    requires UniqueNames(rs)
    ensures UniqueNames(Updated(rs, page))
  {
    if page.name in Names(rs) {
      var r :| r in rs && r.name == page.name;
      var k :| 0 <= k < |rs| && rs[k] == r;
      UpdatedInPlace(rs, page, k);
    } else {
      UpdatedAtEnd(rs, page);
      forall i | 0 <= i < |rs|
        ensures rs[i].name != page.name
      {
        assert rs[i] in rs;
      }
    }
  }

  lemma {:induction false} DeletedIsGood(rs: seq<Record>, name: string)
    requires AllGood(rs)
    ensures AllGood(Deleted(rs, name))
  {
    if rs != [] {
      DeletedIsGood(rs[..|rs|-1], name);
    }
  }

  lemma {:induction false} ReplacedIsGood(rs: seq<Record>, page: Record)
    requires AllGood(rs) && Good(page)
    ensures AllGood(Replaced(rs, page))
  {
    if rs != [] {
      var n := |rs| - 1;
      ReplacedIsGood(rs[..n], page);
      assert Good(page.(body := "\n"));
      assert Good(rs[n]);
    }
  }

  // ----- what they do to the text ---------------------------------------------------------------

  // The entries of a database file; anything before the first tab is dropped.
  function Entries(db: string): Option<seq<Record>> {
    Parse(db, NextTab(db, 0), [])
  }

  // None is the error exit, with the database left alone.
  function UpdateText(db: string, page: Record): Option<string> {
    match Entries(db)
    case None => None
    case Some(rs) => Some(RenderAll(Updated(rs, page)))
  }

  function DeleteText(db: string, name: string): Option<string> {
    match Entries(db)
    case None => None
    case Some(rs) => Some(RenderAll(Deleted(rs, name)))
  }

  lemma EntriesOfRender(rs: seq<Record>)
    requires AllGood(rs)
    ensures Entries(RenderAll(rs)) == Some(rs)
  {
    var s := RenderAll(rs);
    if rs == [] {
      ParseOfRender(s, 0, rs, 0);
    } else {
      TailSplits(s, 0, rs, 0);
      ParseOfRender(s, 0, rs, 0);
    }
    assert rs[..0] == [];
  }

  // On every database that can be read, adding a file twice is adding it once.
  lemma UpdateTextTwice(db: string, page: Record)
    requires Good(page) && Entries(db).Some?
    ensures UpdateText(UpdateText(db, page).value, page) == UpdateText(db, page)
  {
    var rs := Entries(db).value;
    ParsedIsGood(db, NextTab(db, 0), []);
    ReplacedIsGood(rs, page);
    EntriesOfRender(Updated(rs, page));
    UpdatedTwice(rs, page);
  }

  // On every database that can be read, deleting a file undoes adding it.
  lemma DeleteTextUpdated(db: string, page: Record)
    requires Good(page) && Entries(db).Some?
    ensures DeleteText(UpdateText(db, page).value, page.name) == DeleteText(db, page.name)
  {
    var rs := Entries(db).value;
    ParsedIsGood(db, NextTab(db, 0), []);
    ReplacedIsGood(rs, page);
    EntriesOfRender(Updated(rs, page));
    DeletedUpdated(rs, page);
  }

  lemma {:induction false} DeletedAbsent(rs: seq<Record>, name: string)
    requires name !in Names(rs)
    ensures Deleted(rs, name) == rs
  {
    if rs != [] {
      var n := |rs| - 1;
      NamesSplit(rs);
      DeletedAbsent(rs[..n], name);
    }
  }

  // A rendered database is copied byte for byte when there is nothing to delete.
  lemma DeleteTextAbsent(rs: seq<Record>, name: string)
    requires AllGood(rs) && name !in Names(rs)
    ensures DeleteText(RenderAll(rs), name) == Some(RenderAll(rs))
  {
    EntriesOfRender(rs);
    DeletedAbsent(rs, name);
  }

  // Byte for byte: only the entry of the page changes, where it stands or at the end.
  lemma UpdateTextInPlace(rs: seq<Record>, page: Record, k: nat)
    requires AllGood(rs) && UniqueNames(rs) && k < |rs| && rs[k].name == page.name
    ensures UpdateText(RenderAll(rs), page) == Some(RenderAll(rs[k := page]))
  {
    EntriesOfRender(rs);
    UpdatedInPlace(rs, page, k);
  }

  lemma UpdateTextAtEnd(rs: seq<Record>, page: Record)
    requires AllGood(rs) && page.name !in Names(rs)
    ensures UpdateText(RenderAll(rs), page) == Some(RenderAll(rs) + Render(page))
  {
    EntriesOfRender(rs);
    UpdatedAtEnd(rs, page);
    RenderAppend(rs, page, 0);
  }

  lemma {:induction false} DeletedInPlace(rs: seq<Record>, k: nat)
    requires UniqueNames(rs) && k < |rs|
    ensures Deleted(rs, rs[k].name) == rs[..k] + rs[k+1..]
  {
    var n := |rs| - 1;
    var front := rs[..n];
    UniqueFront(rs);
    if k < n {
      DeletedInPlace(front, k);
      CutBeforeLast(rs, k);
    } else {
      DeletedAbsent(front, rs[k].name);
      assert front + [] == rs[..k] + rs[k+1..];
    }
  }

  lemma UniqueFront(rs: seq<Record>)
    requires UniqueNames(rs) && rs != []
    ensures var n := |rs| - 1;
            UniqueNames(rs[..n]) && rs[n].name !in Names(rs[..n]) && forall j :: 0 <= j < n ==> rs[j].name != rs[n].name
  {
  }

  lemma CutBeforeLast<T>(s: seq<T>, k: nat)
    requires k < |s| - 1
    ensures var n := |s| - 1; s[..n][..k] + s[..n][k+1..] + [s[n]] == s[..k] + s[k+1..]
  {
  }

  // Byte for byte: only the entry with the name goes.
  lemma DeleteTextInPlace(rs: seq<Record>, k: nat)
    requires AllGood(rs) && UniqueNames(rs) && k < |rs|
    ensures DeleteText(RenderAll(rs), rs[k].name) == Some(RenderAll(rs[..k] + rs[k+1..]))
  {
    EntriesOfRender(rs);
    DeletedInPlace(rs, k);
  }

  // ----- the rewriting loops ---------------------------------------------------------------------

  class Rewriter {
    // The database being read, up to pos, and the one being written.
    const db: string
    var pos: nat
    var out: string

    constructor (db: string)
      ensures this.db == db && pos == 0 && out == ""
    {
      this.db, pos, out := db, 0, "";
    }

    // Skips white space and reads a word, leaving its delimiter unread.
    method GetWord() returns (start: nat)
      requires pos <= |db|
      modifies this`pos
      ensures start == SkipWhite(db, old(pos)) && pos == WordEnd(db, start)
    {
      while pos < |db| && IsWhite(db[pos])
        invariant pos <= |db| && SkipWhite(db, pos) == SkipWhite(db, old(pos))
        decreases |db| - pos
      {
        pos := pos + 1;
      }
      start := pos;
      while pos < |db| && !IsWhite(db[pos])
        invariant start <= pos <= |db| && WordEnd(db, pos) == WordEnd(db, start)
        decreases |db| - pos
      {
        pos := pos + 1;
      }
    }

    method GetNumber(start: nat, end: nat) returns (n: nat)
      requires start <= end <= |db|
      ensures n == Atoi(db, start, end)
    {
      n := 0;
      var i: nat := start;
      while i < end && IsDigit(db[i])
        invariant start <= i <= end && Atoi(db, i, end, n) == Atoi(db, start, end)
      {
        n, i := 10 * n + DigitValue(db[i]), i + 1;
      }
    }

    method GetHeader() returns (h: Option<Header>)
      requires pos <= |db|
      modifies this`pos
      ensures h == HeaderAt(db, old(pos)) && pos <= |db|
      ensures h.Some? ==> pos == h.value.next
    {
      var a := GetWord();
      if a == |db| || IsReserved(db[a]) {
        return None;
      }
      var b := pos;
      var m := GetWord();
      var mtime;
      if m == |db| {
        mtime := GetNumber(a, b);
      } else {
        mtime := GetNumber(m, pos);
      }
      h := Some(Header(db[a..b], mtime, pos));
    }

    method SkipEntry()
      requires pos <= |db|
      modifies this`pos
      ensures pos == NextTab(db, old(pos))
    {
      while pos < |db| && db[pos] != '\t'
        invariant pos <= |db| && NextTab(db, pos) == NextTab(db, old(pos))
        decreases |db| - pos
      {
        pos := pos + 1;
      }
    }

    method CopyEntry()
      requires pos <= |db|
      modifies this`pos, this`out
      ensures pos == NextTab(db, old(pos)) && out == old(out) + db[old(pos)..pos]
    {
      while pos < |db| && db[pos] != '\t'
        invariant old(pos) <= pos <= |db| && NextTab(db, pos) == NextTab(db, old(pos))
        invariant out == old(out) + db[old(pos)..pos]
        decreases |db| - pos
      {
        CopyOne(old(pos), old(out));
      }
    }

    method CopyOne(ghost from: nat, ghost before: string)
      requires from <= pos < |db| && out == before + db[from..pos]
      modifies this`pos, this`out
      ensures pos == old(pos) + 1 && out == before + db[from..pos]
    {
      TakeMore(db, from, pos);
      out, pos := out + [db[pos]], pos + 1;
    }

    // Copies or drops one entry; the tab before it has been read.
    method Entry(keep: bool, h: Header)
      requires pos == h.next <= |db|
      modifies this`pos, this`out
      ensures pos == NextTab(db, h.next)
      ensures out == old(out) + if keep then Render(Record(h.name, h.mtime, db[h.next..pos])) else ""
    {
      if keep {
        out := out + (['\t'] + h.name + [' '] + Numeral(h.mtime));
        CopyEntry();
      } else {
        SkipEntry();
      }
    }

    method AddNewPages(page: Record)
      modifies this`out
      ensures out == old(out) + Render(page)
    {
      out := out + Render(page);
    }

    // What the update makes of one entry.
    method UpdateEntry(page: Record, there: bool) returns (r: Option<string>)
      requires pos < |db|
      modifies this
      ensures pos <= |db| && r.Some? == EntryAt(db, old(pos)).Some?
      ensures r.Some? ==>
                var e := EntryAt(db, old(pos)).value;
                && r.value == e.record.name && pos == e.next
                && out == old(out) + Render(Put(e.record, page, there))
    {
      pos := pos + 1;
      var h := GetHeader();
      if h.None? {
        return None;
      }
      if h.value.name == page.name {
        AddNewPages(if there then page.(body := "\n") else page);
      }
      Entry(h.value.name != page.name, h.value);
      r := Some(h.value.name);
    }

    // What the deletion makes of one entry.
    method DeleteEntry(name: string) returns (ok: bool)
      requires pos < |db|
      modifies this
      ensures pos <= |db| && ok == EntryAt(db, old(pos)).Some?
      ensures ok ==>
                var e := EntryAt(db, old(pos)).value;
                pos == e.next && out == old(out) + if e.record.name == name then "" else Render(e.record)
    {
      pos := pos + 1;
      var h := GetHeader();
      ok := h.Some?;
      if ok {
        Entry(h.value.name != name, h.value);
      }
    }

    // Rewrites a database that exists; false is the error exit.
    method UpdateExisting(page: Record) returns (ok: bool)
      requires pos == 0 && out == ""
      modifies this
      ensures UpdateText(db, page) == if ok then Some(out) else None
    {
      SkipEntry();
      ghost var rs := [];
      var there := false;
      while pos < |db|
        invariant pos <= |db| && Parse(db, pos, rs) == Entries(db)
        invariant out == RenderAll(Replaced(rs, page)) && there == (page.name in Names(rs))
        decreases |db| - pos
      {
        ghost var e := EntryAt(db, pos);
        var name := UpdateEntry(page, there);
        if name.None? {
          return false;
        }
        there := there || name.value == page.name;
        RenderReplaced(rs, e.value.record, page);
        rs := rs + [e.value.record];
      }
      RenderAppend(Replaced(rs, page), page, 0);
      if !there {
        AddNewPages(page);
      }
      ok := true;
    }

    method DeleteDb(name: string) returns (ok: bool)
      requires pos == 0 && out == ""
      modifies this
      ensures DeleteText(db, name) == if ok then Some(out) else None
    {
      SkipEntry();
      ghost var rs := [];
      while pos < |db|
        invariant pos <= |db| && Parse(db, pos, rs) == Entries(db)
        invariant out == RenderAll(Deleted(rs, name))
        decreases |db| - pos
      {
        ghost var e := EntryAt(db, pos);
        ok := DeleteEntry(name);
        if !ok {
          return;
        }
        RenderDeleted(rs, e.value.record, name);
        rs := rs + [e.value.record];
      }
      ok := true;
    }
  }

  lemma TakeMore(s: string, i: nat, j: nat)
    requires i <= j < |s|
    ensures s[i..j] + [s[j]] == s[i..j+1]
  {
  }

  lemma RenderReplaced(rs: seq<Record>, r: Record, page: Record)
    ensures RenderAll(Replaced(rs + [r], page)) ==
            RenderAll(Replaced(rs, page)) + Render(Put(r, page, page.name in Names(rs)))
    ensures Names(rs + [r]) == Names(rs) + {r.name}
  {
    var q := rs + [r];
    assert q[..|rs|] == rs;
    NamesSplit(q);
    RenderAppend(Replaced(rs, page), Put(r, page, page.name in Names(rs)), 0);
  }

  lemma RenderDeleted(rs: seq<Record>, r: Record, name: string)
    ensures RenderAll(Deleted(rs + [r], name)) ==
            RenderAll(Deleted(rs, name)) + if r.name == name then "" else Render(r)
  {
    var q := rs + [r];
    assert q[..|rs|] == rs;
    RenderAppend(Deleted(rs, name), r, 0);
    assert Deleted(rs, name) + [] == Deleted(rs, name);
  }

  // The three ways to add a file: append to a database being built afresh, start one that
  // is not there, or rewrite one that is.
  method UpdateDb(db: Option<string>, startAfresh: bool, page: Record) returns (r: Option<string>)
    ensures startAfresh && db.Some? ==> r == Some(db.value + Render(page))
    ensures db.None? ==> r == Some(Render(page))
    ensures !startAfresh && db.Some? ==> r == UpdateText(db.value, page)
  {
    if startAfresh && db.Some? {
      return Some(db.value + Render(page));
    }
    var w := new Rewriter(if db.Some? then db.value else "");
    if db.None? {
      w.AddNewPages(page);
      assert "" + Render(page) == Render(page);
      return Some(w.out);
    }
    var ok := w.UpdateExisting(page);
    r := if ok then Some(w.out) else None;
  }
}
