// Capturing the arguments of a macro call (src/hyper/macro.c).
module MacroArguments {
  import opened Characters
  import opened Wrappers

  // ----- braces ------------------------------------------------------------------------

  function Delta(c: char): int {
    if c == '{' then 1 else if c == '}' then -1 else 0
  }

  // The brace depth after s[i..end], starting at depth d; negative once a brace closes
  // that was never opened.
  function Walk(s: string, i: nat, end: nat, d: int): int
    requires i <= end <= |s|
    decreases end - i
  {
    if d < 0 then -1 else if i == end then d else Walk(s, i + 1, end, d + Delta(s[i]))
  }

  predicate Balanced(s: string) {
    Walk(s, 0, |s|, 0) == 0
  }

  // The position of the brace that closes depth d, from position i on, or the length of s.
  function Matching(s: string, i: nat, d: nat): (end: nat)
    requires i <= |s|
    ensures i <= end <= |s|
    decreases |s| - i
  {
    if i == |s| then i
    else if s[i] == '}' then if d == 0 then i else Matching(s, i + 1, d - 1)
    else Matching(s, i + 1, d + Delta(s[i]))
  }

  // The text up to the matching brace is balanced, and no earlier brace would do.
  lemma {:induction false} MatchingCloses(s: string, i: nat, d: nat)
    requires i <= |s|
    ensures var end := Matching(s, i, d);
            && Walk(s, i, end, d) >= 0
            && (end < |s| ==> s[end] == '}' && Walk(s, i, end, d) == 0)
    decreases |s| - i
  {
    if i < |s| && !(s[i] == '}' && d == 0) {
      MatchingCloses(s, i + 1, d + Delta(s[i]));
    }
  }

  lemma {:induction false} MatchingIsFirst(s: string, i: nat, d: nat, j: nat)
    requires i <= j < |s| && j < Matching(s, i, d)
    ensures Walk(s, i, j + 1, d) >= 0
    decreases |s| - i
  {
    if i < j {
      MatchingIsFirst(s, i + 1, d + Delta(s[i]), j);
    }
  }

  // Balanced text leaves any depth as it was.
  lemma {:induction false} WalkRaised(s: string, i: nat, d: nat, e: nat)
    requires i <= |s| && Walk(s, i, |s|, d) >= 0
    ensures Walk(s, i, |s|, d + e) == Walk(s, i, |s|, d) + e
    decreases |s| - i
  {
    if i < |s| {
      WalkRaised(s, i + 1, d + Delta(s[i]), e);
    }
  }

  lemma {:induction false} WalkConcat(a: string, b: string, i: nat, d: int)
    requires i <= |a|
    ensures Walk(a + b, i, |a + b|, d) == Walk(b, 0, |b|, Walk(a, i, |a|, d))
    decreases |a| - i
  {
    if i == |a| || d < 0 {
      WalkTail(a, b, 0, d);
    } else {
      WalkConcat(a, b, i + 1, d + Delta(a[i]));
    }
  }

  lemma {:induction false} WalkTail(a: string, b: string, i: nat, d: int)
    requires i <= |b|
    ensures Walk(a + b, |a| + i, |a + b|, d) == Walk(b, i, |b|, d)
    decreases |b| - i
  {
    if i < |b| {
      WalkTail(a, b, i + 1, d + Delta(b[i]));
    }
  }

  // ----- parameter references --------------------------------------------------------------

  function AfterDigits(s: string, i: nat, end: nat): (j: nat)
    requires i <= end <= |s|
    ensures i <= j <= end
    decreases end - i
  {
    if i < end && IsDigit(s[i]) then AfterDigits(s, i + 1, end) else i
  }

  // The parameters of the macro being expanded, if one is.
  datatype Caller = NoCaller | Caller(params: seq<string>)

  ghost predicate BalancedCaller(caller: Caller) {
    caller.Caller? ==> forall k :: 0 <= k < |caller.params| ==> Balanced(caller.params[k])
  }

  predicate EndsInBackslash(s: string) {
    s != "" && s[|s|-1] == '\\'
  }

  function Prepend(s: string, o: Option<string>): Option<string> {
    if o.None? then None else Some(s + o.value)
  }

  // The text s[i..end] with every reference to a parameter of the caller replaced by the
  // parameter. A # after a backslash is no reference; None is a reference to a parameter
  // that the caller does not have.
  function Expand(s: string, i: nat, end: nat, caller: Caller, escaped: bool): Option<string>
    requires i <= end <= |s|
    decreases end - i
  {
    if i == end then Some("")
    else if s[i] == '#' && caller.Caller? && !escaped then
      var n := Atoi(s, i + 1, end);
      if 1 <= n <= |caller.params| then
        var p := caller.params[n-1];
        Prepend(p, Expand(s, AfterDigits(s, i + 1, end), end, caller, EndsInBackslash(p)))
      else None
    else
      Prepend([s[i]], Expand(s, i + 1, end, caller, s[i] == '\\'))
  }

  lemma {:induction false} DigitsKeepDepth(s: string, i: nat, end: nat, to: nat, d: int)
    requires i <= end <= to <= |s|
    ensures Walk(s, i, to, d) == Walk(s, AfterDigits(s, i, end), to, d)
    decreases end - i
  {
    if d >= 0 && i < end && IsDigit(s[i]) {
      DigitsKeepDepth(s, i + 1, end, to, d);
    }
  }

  // Replacing references by balanced parameters does not change the depth.
  lemma {:induction false} ExpandKeepsDepth(s: string, i: nat, end: nat, caller: Caller, escaped: bool, d: nat)
    requires i <= end <= |s| && BalancedCaller(caller)
    requires Walk(s, i, end, d) >= 0 && Expand(s, i, end, caller, escaped).Some?
    ensures var out := Expand(s, i, end, caller, escaped).value;
            Walk(out, 0, |out|, d) == Walk(s, i, end, d)
    decreases end - i
  {
    if i < end {
      if s[i] == '#' && caller.Caller? && !escaped {
        var p := caller.params[Atoi(s, i + 1, end) - 1];
        var j := AfterDigits(s, i + 1, end);
        DigitsKeepDepth(s, i + 1, end, end, d);
        WalkRaised(p, 0, 0, d);
        ExpandKeepsDepth(s, j, end, caller, EndsInBackslash(p), d);
        WalkConcat(p, Expand(s, j, end, caller, EndsInBackslash(p)).value, 0, d);
      } else {
        var next := d + Delta(s[i]);
        ExpandKeepsDepth(s, i + 1, end, caller, s[i] == '\\', next);
        WalkConcat([s[i]], Expand(s, i + 1, end, caller, s[i] == '\\').value, 0, d);
        assert Walk([s[i]], 0, 1, d) == Walk([s[i]], 1, 1, next);
      }
    }
  }

  // An argument that is captured from a balanced environment is balanced.
  lemma CapturedIsBalanced(s: string, i: nat, caller: Caller)
    requires i <= |s| && BalancedCaller(caller)
    requires Matching(s, i, 0) < |s| && Expand(s, i, Matching(s, i, 0), caller, false).Some?
    ensures Balanced(Expand(s, i, Matching(s, i, 0), caller, false).value)
  {
    MatchingCloses(s, i, 0);
    ExpandKeepsDepth(s, i, Matching(s, i, 0), caller, false, 0);
  }

  // Without references, an argument is the text between its braces.
  lemma {:induction false} ExpandIsIdentity(s: string, i: nat, end: nat, caller: Caller, escaped: bool)
    requires i <= end <= |s| && (caller.NoCaller? || '#' !in s[i..end])
    ensures Expand(s, i, end, caller, escaped) == Some(s[i..end])
    decreases end - i
  {
    if i < end {
      assert s[i..end][0] == s[i] && s[i..end] == [s[i]] + s[i+1..end];
      ExpandIsIdentity(s, i + 1, end, caller, s[i] == '\\');
    } else {
      assert s[i..end] == "";
    }
  }

  // ----- what a text with references stands for -------------------------------------------------

  // A text taken apart: literal text, a # that is escaped, and references by the digits they
  // are written with.
  datatype Piece = Literal(text: string) | Hash | Reference(digits: string)

  function PieceText(p: Piece): string {
    match p
    case Literal(t) => t
    case Hash => "#"
    case Reference(ds) => "#" + ds
  }

  function PieceMeaning(p: Piece, params: seq<string>): string {
    match p
    case Literal(t) => t
    case Hash => "#"
    case Reference(ds) => if RefersTo(ds, params) then params[Atoi(ds, 0, |ds|)-1] else ""
  }

  predicate RefersTo(ds: string, params: seq<string>) {
    1 <= Atoi(ds, 0, |ds|) <= |params|
  }

  function Written(pieces: seq<Piece>): string {
    if pieces == [] then "" else PieceText(pieces[0]) + Written(pieces[1..])
  }

  function Meant(pieces: seq<Piece>, params: seq<string>): string {
    if pieces == [] then "" else PieceMeaning(pieces[0], params) + Meant(pieces[1..], params)
  }

  // Literal text has no # in it; a # is escaped when the text captured before it ends in a
  // backslash, which may come from a parameter. A reference is to one of the parameters, and
  // its digits are all that are there.
  ghost predicate Proper(pieces: seq<Piece>, params: seq<string>, escaped: bool) {
    pieces == [] ||
    (Stands(pieces[0], params, escaped, Written(pieces[1..]))
     && Proper(pieces[1..], params, EndsInBackslash(PieceMeaning(pieces[0], params))))
  }

  ghost predicate Stands(p: Piece, params: seq<string>, escaped: bool, rest: string) {
    match p
    case Literal(t) => t != "" && '#' !in t
    case Hash => escaped
    case Reference(ds) => !escaped && AllDigits(ds) && RefersTo(ds, params) && (rest == "" || !IsDigit(rest[0]))
  }

  // The text can be taken apart, and its pieces stand for out.
  ghost predicate StandsFor(text: string, params: seq<string>, out: string) {
    exists pieces :: Proper(pieces, params, false) && Written(pieces) == text && Meant(pieces, params) == out
  }

  predicate AllDigits(ds: string) {
    forall j :: 0 <= j < |ds| ==> IsDigit(ds[j])
  }

  lemma {:induction false} ExpandLiteral(s: string, i: nat, j: nat, end: nat, caller: Caller, escaped: bool)
    requires i <= j <= end <= |s| && '#' !in s[i..j]
    ensures Expand(s, i, end, caller, escaped) ==
            Prepend(s[i..j], Expand(s, j, end, caller, if i == j then escaped else s[j-1] == '\\'))
    decreases j - i
  {
    if i < j {
      assert s[i..j][0] == s[i] && s[i..j] == [s[i]] + s[i+1..j];
      ExpandLiteral(s, i + 1, j, end, caller, s[i] == '\\');
      PrependTwice([s[i]], s[i+1..j], Expand(s, j, end, caller, s[j-1] == '\\'));
    } else {
      PrependEmpty(s[i..j], Expand(s, j, end, caller, escaped));
    }
  }

  lemma PrependEmpty(t: string, o: Option<string>)
    requires t == ""
    ensures Prepend(t, o) == o
  {
    if o.Some? {
      assert t + o.value == o.value;
    }
  }

  lemma {:induction false} DigitsRead(s: string, i: nat, end: nat, ds: string, o: nat, n: nat)
    requires o <= |ds| && i + |ds| - o <= end <= |s|
    requires forall k :: o <= k < |ds| ==> s[i + k - o] == ds[k] && IsDigit(ds[k])
    requires i + |ds| - o == end || !IsDigit(s[i + |ds| - o])
    ensures AfterDigits(s, i, end) == i + |ds| - o && Atoi(s, i, end, n) == Atoi(ds, o, |ds|, n)
    decreases |ds| - o
  {
    if o < |ds| {
      DigitsRead(s, i + 1, end, ds, o + 1, 10 * n + DigitValue(ds[o]));
    }
  }

  lemma TakeFront(s: string, i: nat, end: nat, x: string, y: string)
    requires i <= end <= |s| && s[i..end] == x + y
    ensures i + |x| <= end && s[i..i+|x|] == x && s[i+|x|..end] == y
    ensures forall k :: 0 <= k < |x| ==> s[i+k] == x[k]
  {
    assert s[i..end][..|x|] == x && s[i..end][|x|..] == y;
    assert s[i..i+|x|] == s[i..end][..|x|] && s[i+|x|..end] == s[i..end][|x|..];
    forall k | 0 <= k < |x| ensures s[i+k] == x[k] {
      assert s[i..end][k] == x[k];
    }
  }

  // A text that is written piece by piece is captured as what its pieces stand for.
  lemma {:induction false} ExpandOfWritten(s: string, i: nat, end: nat, pieces: seq<Piece>, params: seq<string>,
                                           escaped: bool)
    requires i <= end <= |s| && s[i..end] == Written(pieces) && Proper(pieces, params, escaped)
    ensures Expand(s, i, end, Caller(params), escaped) == Some(Meant(pieces, params))
    decreases |pieces|
  {
    if pieces == [] {
      assert i == end;
    } else {
      var p, rest := pieces[0], pieces[1..];
      TakenOff(pieces, params, escaped);
      var next := ExpandFirst(s, i, end, p, Written(rest), params, escaped);
      ExpandOfWritten(s, next, end, rest, params, EndsInBackslash(PieceMeaning(p, params)));
    }
  }

  lemma TakenOff(pieces: seq<Piece>, params: seq<string>, escaped: bool)
    requires pieces != [] && Proper(pieces, params, escaped)
    ensures Stands(pieces[0], params, escaped, Written(pieces[1..]))
    ensures Proper(pieces[1..], params, EndsInBackslash(PieceMeaning(pieces[0], params)))
    ensures Written(pieces) == PieceText(pieces[0]) + Written(pieces[1..])
    ensures Meant(pieces, params) == PieceMeaning(pieces[0], params) + Meant(pieces[1..], params)
  {
  }

  lemma ExpandFirst(s: string, i: nat, end: nat, p: Piece, rest: string, params: seq<string>, escaped: bool)
    returns (next: nat)
    requires i <= end <= |s| && s[i..end] == PieceText(p) + rest && Stands(p, params, escaped, rest)
    ensures next <= end && s[next..end] == rest
    ensures var meaning := PieceMeaning(p, params);
            Expand(s, i, end, Caller(params), escaped) ==
            Prepend(meaning, Expand(s, next, end, Caller(params), EndsInBackslash(meaning)))
  {
    next := i + |PieceText(p)|;
    TakeFront(s, i, end, PieceText(p), rest);
    ExpandPiece(s, i, end, p, rest, params, escaped);
  }

  lemma ExpandPiece(s: string, i: nat, end: nat, p: Piece, rest: string, params: seq<string>, escaped: bool)
    requires i + |PieceText(p)| <= end <= |s|
    requires s[i..i+|PieceText(p)|] == PieceText(p) && s[i+|PieceText(p)|..end] == rest
    requires Stands(p, params, escaped, rest)
    ensures Expand(s, i, end, Caller(params), escaped) ==
            var meaning := PieceMeaning(p, params);
            Prepend(meaning, Expand(s, i + |PieceText(p)|, end, Caller(params), EndsInBackslash(meaning)))
  {
    match p
    case Literal(t) =>
      ExpandLiteral(s, i, i + |t|, end, Caller(params), escaped);
      assert s[i+|t|-1] == s[i..i+|t|][|t|-1];
    case Hash =>
      assert s[i] == s[i..i+1][0];
    case Reference(ds) =>
      ReferenceRead(s, i, end, ds, rest);
  }

  // And every text that is captured can be taken apart like that.
  lemma {:induction false} TakeApart(s: string, i: nat, end: nat, params: seq<string>, escaped: bool)
    returns (pieces: seq<Piece>)
    requires i <= end <= |s| && Expand(s, i, end, Caller(params), escaped).Some?
    ensures Proper(pieces, params, escaped) && Written(pieces) == s[i..end]
    decreases end - i
  {
    if i == end {
      pieces := [];
    } else {
      var p := FirstPiece(s, i, end, params, escaped);
      var next, meaning := i + |PieceText(p)|, PieceMeaning(p, params);
      ExpandPiece(s, i, end, p, s[next..end], params, escaped);
      var rest := TakeApart(s, next, end, params, EndsInBackslash(meaning));
      pieces := [p] + rest;
      OneMore(p, rest, params, escaped);
      Halves(s, i, next, end);
    }
  }

  lemma OneMore(p: Piece, rest: seq<Piece>, params: seq<string>, escaped: bool)
    requires Stands(p, params, escaped, Written(rest))
    requires Proper(rest, params, EndsInBackslash(PieceMeaning(p, params)))
    ensures Proper([p] + rest, params, escaped) && Written([p] + rest) == PieceText(p) + Written(rest)
    ensures Meant([p] + rest, params) == PieceMeaning(p, params) + Meant(rest, params)
  {
    assert ([p] + rest)[0] == p && ([p] + rest)[1..] == rest;
  }

  lemma FirstPiece(s: string, i: nat, end: nat, params: seq<string>, escaped: bool) returns (p: Piece)
    requires i < end <= |s| && Expand(s, i, end, Caller(params), escaped).Some?
    ensures i < i + |PieceText(p)| <= end && s[i..i+|PieceText(p)|] == PieceText(p)
    ensures Stands(p, params, escaped, s[i+|PieceText(p)|..end])
  {
    if s[i] != '#' {
      p := Literal([s[i]]);
    } else if escaped {
      p := Hash;
    } else {
      p := FirstReference(s, i, end, params);
    }
  }

  lemma FirstReference(s: string, i: nat, end: nat, params: seq<string>) returns (p: Piece)
    requires i < end <= |s| && s[i] == '#' && Expand(s, i, end, Caller(params), false).Some?
    ensures i < i + |PieceText(p)| <= end && s[i..i+|PieceText(p)|] == PieceText(p)
    ensures Stands(p, params, false, s[i+|PieceText(p)|..end])
  {
    var j := AfterDigits(s, i + 1, end);
    p := Reference(s[i+1..j]);
    DigitsTaken(s, i + 1, end, 0);
    assert s[i..j] == [s[i]] + s[i+1..j];
  }

  lemma {:induction false} DigitsTaken(s: string, i: nat, end: nat, n: nat)
    requires i <= end <= |s|
    ensures var j := AfterDigits(s, i, end); var ds := s[i..j];
            AllDigits(ds) && Atoi(s, i, end, n) == Atoi(ds, 0, |ds|, n) && (j == end || !IsDigit(s[j]))
  {
    var j := AfterDigits(s, i, end);
    DigitsAre(s, i, end);
    DigitsRead(s, i, end, s[i..j], 0, n);
  }

  lemma {:induction false} DigitsAre(s: string, i: nat, end: nat)
    requires i <= end <= |s|
    ensures var j := AfterDigits(s, i, end);
            (forall k :: i <= k < j ==> IsDigit(s[k])) && (j == end || !IsDigit(s[j]))
    decreases end - i
  {
    if i < end && IsDigit(s[i]) {
      DigitsAre(s, i + 1, end);
    }
  }

  // So a text is captured exactly when it can be taken apart, and as what its pieces stand for.
  lemma CapturedExactly(s: string, i: nat, end: nat, params: seq<string>, out: string)
    requires i <= end <= |s|
    ensures Expand(s, i, end, Caller(params), false) == Some(out) <==> StandsFor(s[i..end], params, out)
  {
    if Expand(s, i, end, Caller(params), false) == Some(out) {
      var pieces := TakeApart(s, i, end, params, false);
      ExpandOfWritten(s, i, end, pieces, params, false);
    }
    forall pieces | Proper(pieces, params, false) && Written(pieces) == s[i..end] && Meant(pieces, params) == out
      ensures Expand(s, i, end, Caller(params), false) == Some(out)
    {
      ExpandOfWritten(s, i, end, pieces, params, false);
    }
  }

  lemma ReferenceRead(s: string, i: nat, end: nat, ds: string, rest: string)
    requires i + 1 + |ds| <= end <= |s| && s[i..i+1+|ds|] == "#" + ds && s[i+1+|ds|..end] == rest
    requires (forall j :: 0 <= j < |ds| ==> IsDigit(ds[j])) && (rest == "" || !IsDigit(rest[0]))
    ensures s[i] == '#' && AfterDigits(s, i + 1, end) == i + 1 + |ds| && Atoi(s, i + 1, end) == Atoi(ds, 0, |ds|)
  {
    var w := s[i..i+1+|ds|];
    assert w[0] == s[i];
    forall k | 0 <= k < |ds| ensures s[i+1+k] == ds[k] {
      assert w[1+k] == s[i+1+k];
    }
    DigitsRead(s, i + 1, end, ds, 0, 0);
  }

  // ----- capturing one argument -----------------------------------------------------------

  // What reading an argument comes to, from the position after its opening brace.
  datatype Outcome = Captured(arg: string, next: nat) | UnexpectedEof | BadReference

  function Capture(s: string, pos: nat, caller: Caller): (r: Outcome)
    requires pos <= |s|
    ensures r.Captured? ==> pos < r.next <= |s|
  {
    var end := Matching(s, pos, 0);
    match Expand(s, pos, end, caller, false)
    case None => BadReference
    case Some(arg) => if end == |s| then UnexpectedEof else Captured(arg, end + 1)
  }

  // No other brace brings the depth to zero.
  lemma {:induction false} MatchingUnique(s: string, i: nat, e: nat, d: nat)
    requires i <= e < |s| && Walk(s, i, e, d) == 0 && s[e] == '}'
    ensures Matching(s, i, d) == e
    decreases e - i
  {
    if i < e {
      MatchingUnique(s, i + 1, e, d + Delta(s[i]));
    }
  }

  // The brace at position e closes the argument that starts at pos.
  ghost predicate Closes(s: string, pos: nat, e: int) {
    pos <= e < |s| && s[e] == '}' && Walk(s, pos, e, 0) == 0
  }

  lemma ClosesExactly(s: string, pos: nat, e: int)
    requires pos <= |s|
    ensures Closes(s, pos, e) <==> e < |s| && Matching(s, pos, 0) == e
  {
    MatchingCloses(s, pos, 0);
    if Closes(s, pos, e) {
      MatchingUnique(s, pos, e, 0);
    }
  }

  // An argument ends before the brace that closes the one before it, and is captured, inside a
  // macro, exactly when the text between can be taken apart, as what its pieces stand for.
  lemma CaptureExactly(s: string, pos: nat, params: seq<string>, out: string, next: nat)
    requires pos <= |s|
    ensures Capture(s, pos, Caller(params)) == Captured(out, next) <==>
              Closes(s, pos, next - 1) && StandsFor(s[pos..next-1], params, out)
  {
    ClosesExactly(s, pos, next - 1);
    CapturedExactly(s, pos, Matching(s, pos, 0), params, out);
  }

  // Outside one it is captured as it is written.
  lemma CaptureOutside(s: string, pos: nat, out: string, next: nat)
    requires pos <= |s|
    ensures Capture(s, pos, NoCaller) == Captured(out, next) <==>
              Closes(s, pos, next - 1) && out == s[pos..next-1]
  {
    ClosesExactly(s, pos, next - 1);
    ExpandIsIdentity(s, pos, Matching(s, pos, 0), NoCaller, false);
  }

  // What goes wrong otherwise: a reference that cannot be taken, before the brace that closes
  // or anywhere if none does,
  lemma CaptureFails(s: string, pos: nat, params: seq<string>)
    requires pos <= |s|
    ensures Capture(s, pos, Caller(params)).BadReference? <==> StandsForNone(s[pos..Matching(s, pos, 0)], params)
  {
    Standing(s, pos, Matching(s, pos, 0), params);
  }

  ghost predicate StandsForNone(text: string, params: seq<string>) {
    forall out :: !StandsFor(text, params, out)
  }

  // or else that none does.
  lemma CaptureUnclosed(s: string, pos: nat, caller: Caller)
    requires pos <= |s| && Capture(s, pos, caller).UnexpectedEof?
    ensures forall e :: !Closes(s, pos, e)
  {
    forall e
      ensures !Closes(s, pos, e)
    {
      ClosesExactly(s, pos, e);
    }
  }

  lemma Standing(s: string, i: nat, end: nat, params: seq<string>)
    requires i <= end <= |s|
    ensures Expand(s, i, end, Caller(params), false).None? <==> StandsForNone(s[i..end], params)
  {
    var x := Expand(s, i, end, Caller(params), false);
    if x.Some? {
      CapturedExactly(s, i, end, params, x.value);
      assert StandsFor(s[i..end], params, x.value);
    }
    forall out | StandsFor(s[i..end], params, out)
      ensures x == Some(out)
    {
      CapturedExactly(s, i, end, params, out);
    }
  }

  lemma {:induction false} DigitsStop(s: string, i: nat, end: nat, n: nat)
    requires i <= end <= |s| && (end == |s| || !IsDigit(s[end]))
    ensures AfterDigits(s, i, |s|) == AfterDigits(s, i, end)
    ensures Atoi(s, i, |s|, n) == Atoi(s, i, end, n)
    decreases end - i
  {
    if i < end && IsDigit(s[i]) {
      DigitsStop(s, i + 1, end, 10 * n + DigitValue(s[i]));
    }
  }

  method ReadNumber(s: string, from: nat) returns (n: nat, j: nat)
    requires from <= |s|
    ensures j == AfterDigits(s, from, |s|) && n == Atoi(s, from, |s|)
  {
    j, n := from, 0;
    while j < |s| && IsDigit(s[j])
      invariant from <= j <= |s|
      invariant AfterDigits(s, j, |s|) == AfterDigits(s, from, |s|)
      invariant Atoi(s, j, |s|, n) == Atoi(s, from, |s|)
      decreases |s| - j
    {
      n, j := 10 * n + DigitValue(s[j]), j + 1;
    }
  }

  // What has been captured, put before what is still to come, is the whole argument.
  ghost predicate Partly(s: string, pos: nat, i: nat, end: nat, caller: Caller, buffer: string)
    requires pos <= i <= end <= |s|
  {
    Expand(s, pos, end, caller, false) == Prepend(buffer, Expand(s, i, end, caller, EndsInBackslash(buffer)))
  }

  lemma PrependTwice(a: string, b: string, o: Option<string>)
    ensures Prepend(a, Prepend(b, o)) == Prepend(a + b, o)
  {
    if o.Some? {
      assert a + (b + o.value) == (a + b) + o.value;
    }
  }

  // The parameter that the # at position i refers to, and the position after it.
  method ReadReference(s: string, i: nat, ghost end: nat, caller: Caller, ghost d: nat)
    returns (p: Option<string>, j: nat)
    requires i < end <= |s| && s[i] == '#' && caller.Caller?
    requires end == Matching(s, i + 1, d) && (end < |s| ==> s[end] == '}')
    ensures i < j <= end && end == Matching(s, j, d)
    ensures Expand(s, i, end, caller, false) ==
            if p.None? then None else Prepend(p.value, Expand(s, j, end, caller, EndsInBackslash(p.value)))
  {
    var n;
    n, j := ReadNumber(s, i + 1);
    DigitsStop(s, i + 1, end, 0);
    DigitsKeepMatching(s, i + 1, end, d);
    p := if 1 <= n <= |caller.params| then Some(caller.params[n-1]) else None;
  }

  method CaptureArgument(s: string, pos: nat, caller: Caller) returns (r: Outcome)
    requires pos <= |s|
    ensures r == Capture(s, pos, caller)
  {
    ghost var end := Matching(s, pos, 0);
    MatchingCloses(s, pos, 0);
    var buffer, braces, i := "", 1, pos;
    PrependNothing(s, pos, end, caller);
    while true
      invariant braces >= 1 && pos <= i <= end && end == Matching(s, i, braces - 1)
      invariant Partly(s, pos, i, end, caller, buffer)
      decreases |s| - i
    {
      if i == |s| {
        return UnexpectedEof;
      }
      if s[i] == '}' && braces == 1 {
        return Captured(buffer, i + 1);
      }
      if s[i] == '#' && caller.Caller? && !EndsInBackslash(buffer) {
        var p, j := ReadReference(s, i, end, caller, braces - 1);
        if p.None? {
          return BadReference;
        }
        PrependTwice(buffer, p.value, Expand(s, j, end, caller, EndsInBackslash(p.value)));
        buffer, i := buffer + p.value, j;
      } else {
        PrependTwice(buffer, [s[i]], Expand(s, i + 1, end, caller, s[i] == '\\'));
        buffer, braces, i := buffer + [s[i]], braces + Delta(s[i]), i + 1;
      }
    }
  }

  lemma PrependNothing(s: string, pos: nat, end: nat, caller: Caller)
    requires pos <= end <= |s|
    ensures Partly(s, pos, pos, end, caller, "")
  {
    var whole := Expand(s, pos, end, caller, false);
    assert whole.Some? ==> "" + whole.value == whole.value;
  }

  lemma {:induction false} DigitsKeepMatching(s: string, i: nat, end: nat, d: nat)
    requires i <= end <= |s| && end == Matching(s, i, d)
    ensures end == Matching(s, AfterDigits(s, i, end), d)
    decreases end - i
  {
    if i < end && IsDigit(s[i]) {
      DigitsKeepMatching(s, i + 1, end, d);
    }
  }

  // ----- all arguments of a call ----------------------------------------------------------------

  // The position after an opening brace, if that is the next token. A blank line is a
  // token of its own; a comment ends before its newline.
  function OpenBrace(s: string, i: nat, newlines: nat := 0): (r: Option<nat>)
    requires i <= |s|
    ensures r.Some? ==> i < r.value <= |s| && s[r.value-1] == '{'
    decreases |s| - i
  {
    if i == |s| then None
    else if s[i] == '\n' then if newlines > 0 then None else OpenBrace(s, i + 1, 1)
    else if s[i] == ' ' || s[i] == '\t' then OpenBrace(s, i + 1, newlines)
    else if s[i] == '%' then OpenBrace(s, AfterComment(s, i + 1), 0)
    else if s[i] == '{' then Some(i + 1)
    else None
  }

  // What can stand before an opening brace: blanks, line ends, and notes, comments that go on
  // to the end of their line.
  datatype Gap = Blank(c: char) | LineEnd | Note(text: string)

  function GapText(g: Gap): string {
    match g
    case Blank(c) => [c]
    case LineEnd => "\n"
    case Note(text) => "%" + text
  }

  function GapsText(gaps: seq<Gap>): string {
    if gaps == [] then "" else GapText(gaps[0]) + GapsText(gaps[1..])
  }

  // No line is blank: between two line ends there is a note.
  ghost predicate NoBlankLine(gaps: seq<Gap>, newlines: nat) {
    gaps == [] ||
    (match gaps[0]
     case Blank(c) => c in " \t" && NoBlankLine(gaps[1..], newlines)
     case LineEnd => newlines == 0 && NoBlankLine(gaps[1..], 1)
     case Note(text) =>
       '\n' !in text && gaps[1..] != [] && gaps[1].LineEnd? && NoBlankLine(gaps[1..], 0))
  }

  lemma {:induction false} CommentEnds(s: string, i: nat, e: nat)
    requires i <= e <= |s| && '\n' !in s[i..e] && (e < |s| ==> s[e] == '\n')
    ensures AfterComment(s, i) == e
    decreases e - i
  {
    if i < e {
      assert s[i..e][0] == s[i] && s[i..e][1..] == s[i+1..e];
      CommentEnds(s, i + 1, e);
    }
  }

  function Count(g: Gap, newlines: nat): nat {
    match g
    case Blank(_) => newlines
    case LineEnd => 1
    case Note(_) => 0
  }

  lemma SkipGap(s: string, i: nat, next: nat, g: Gap, newlines: nat)
    requires i < next <= |s| && s[i..next] == GapText(g)
    requires match g
             case Blank(c) => c in " \t"
             case LineEnd => newlines == 0
             case Note(text) => '\n' !in text && next < |s| && s[next] == '\n'
    ensures OpenBrace(s, i, newlines) == OpenBrace(s, next, Count(g, newlines))
  {
    assert s[i] == s[i..next][0];
    if g.Note? {
      assert s[i+1..next] == s[i..next][1..];
      CommentEnds(s, i + 1, next);
    }
  }

  // The brace is found behind any such gap,
  lemma {:induction false} BraceBehindGap(s: string, i: nat, j: nat, gaps: seq<Gap>, newlines: nat)
    requires i <= j < |s| && s[j] == '{' && s[i..j] == GapsText(gaps) && NoBlankLine(gaps, newlines)
    ensures OpenBrace(s, i, newlines) == Some(j + 1)
    decreases |gaps|
  {
    if gaps == [] {
      assert i == j;
    } else {
      var g, rest := gaps[0], gaps[1..];
      var next := i + |GapText(g)|;
      TakeFront(s, i, j, GapText(g), GapsText(rest));
      if g.Note? {
        StartsLineEnd(s, next, j, rest);
      }
      SkipGap(s, i, next, g, newlines);
      BraceBehindGap(s, next, j, rest, Count(g, newlines));
    }
  }

  lemma StartsLineEnd(s: string, i: nat, j: nat, gaps: seq<Gap>)
    requires i <= j <= |s| && s[i..j] == GapsText(gaps) && gaps != [] && gaps[0].LineEnd?
    ensures i < j && s[i] == '\n'
  {
    assert GapsText(gaps)[0] == '\n' && s[i..j][0] == s[i];
  }

  // and behind no other.
  lemma {:induction false} GapBeforeBrace(s: string, i: nat, newlines: nat) returns (gaps: seq<Gap>)
    requires i <= |s| && OpenBrace(s, i, newlines).Some?
    ensures var j := OpenBrace(s, i, newlines).value - 1;
            i <= j && s[j] == '{' && s[i..j] == GapsText(gaps) && NoBlankLine(gaps, newlines)
    decreases |s| - i
  {
    if s[i] == '{' {
      gaps := [];
    } else {
      var j := OpenBrace(s, i, newlines).value - 1;
      var g, next, count := FirstGap(s, i, newlines);
      var rest := GapBeforeBrace(s, next, count);
      if g.Note? {
        NextIsLineEnd(s, next, j, rest);
      }
      gaps := [g] + rest;
      OneGapMore(g, rest, newlines, count);
      Halves(s, i, next, j);
    }
  }

  lemma Halves(s: string, i: nat, m: nat, j: nat)
    requires i <= m <= j <= |s|
    ensures s[i..j] == s[i..m] + s[m..j]
  {
  }

  lemma OneGapMore(g: Gap, rest: seq<Gap>, newlines: nat, count: nat)
    requires NoBlankLine(rest, count)
    requires match g
             case Blank(c) => c in " \t" && count == newlines
             case LineEnd => newlines == 0 && count == 1
             case Note(text) => '\n' !in text && count == 0 && rest != [] && rest[0].LineEnd?
    ensures NoBlankLine([g] + rest, newlines) && GapsText([g] + rest) == GapText(g) + GapsText(rest)
  {
    assert ([g] + rest)[0] == g && ([g] + rest)[1..] == rest;
  }

  lemma FirstGap(s: string, i: nat, newlines: nat) returns (g: Gap, next: nat, count: nat)
    requires i < |s| && s[i] != '{' && OpenBrace(s, i, newlines).Some?
    ensures i < next <= |s| && s[i..next] == GapText(g) && OpenBrace(s, next, count) == OpenBrace(s, i, newlines)
    ensures match g
            case Blank(c) => c in " \t" && count == newlines
            case LineEnd => newlines == 0 && count == 1
            case Note(text) => '\n' !in text && count == 0 && next < |s| && s[next] == '\n'
  {
    if s[i] == '%' {
      next, count := AfterComment(s, i + 1), 0;
      g := Note(s[i+1..next]);
      CommentIs(s, i + 1);
      assert s[i..next] == GapText(g);
    } else {
      g, next := if s[i] == '\n' then LineEnd else Blank(s[i]), i + 1;
      count := if s[i] == '\n' then 1 else newlines;
    }
  }

  lemma NextIsLineEnd(s: string, i: nat, j: nat, gaps: seq<Gap>)
    requires i <= j < |s| && s[j] == '{' && s[i] == '\n' && s[i..j] == GapsText(gaps) && NoBlankLine(gaps, 0)
    ensures gaps != [] && gaps[0].LineEnd?
  {
    assert s[i..j][0] == '\n';
    assert GapText(gaps[0])[0] == GapsText(gaps)[0];
  }

  lemma {:induction false} CommentIs(s: string, i: nat)
    requires i <= |s|
    ensures var j := AfterComment(s, i); '\n' !in s[i..j] && (j < |s| ==> s[j] == '\n')
    decreases |s| - i
  {
    if i < |s| && s[i] != '\n' {
      CommentIs(s, i + 1);
      assert s[i..AfterComment(s, i)] == [s[i]] + s[i+1..AfterComment(s, i)];
    }
  }

  // So an opening brace is the next token exactly when only such a gap comes before it.
  lemma OpenBraceExactly(s: string, i: nat, j: nat)
    requires i <= j < |s|
    ensures OpenBrace(s, i) == Some(j + 1) <==>
            s[j] == '{' && exists gaps :: s[i..j] == GapsText(gaps) && NoBlankLine(gaps, 0)
  {
    if OpenBrace(s, i) == Some(j + 1) {
      var gaps := GapBeforeBrace(s, i, 0);
    }
    forall gaps | s[j] == '{' && s[i..j] == GapsText(gaps) && NoBlankLine(gaps, 0)
      ensures OpenBrace(s, i) == Some(j + 1)
    {
      BraceBehindGap(s, i, j, gaps, 0);
    }
  }

  method GetOpenBrace(s: string, pos: nat) returns (r: Option<nat>)
    requires pos <= |s|
    ensures r == OpenBrace(s, pos)
  {
    var i, newlines := pos, 0;
    while true
      invariant pos <= i <= |s| && newlines <= 1 && OpenBrace(s, i, newlines) == OpenBrace(s, pos)
      decreases |s| - i
    {
      if i == |s| {
        return None;
      }
      if s[i] == '\n' {
        if newlines > 0 {
          return None;
        }
        newlines, i := 1, i + 1;
      } else if s[i] == ' ' || s[i] == '\t' {
        i := i + 1;
      } else if s[i] == '%' {
        newlines, i := 0, AfterComment(s, i + 1);
      } else {
        return if s[i] == '{' then Some(i + 1) else None;
      }
    }
  }

  datatype Arguments = Arguments(list: seq<string>, next: nat)

  // The next n arguments from pos on, or None when the call is abandoned.
  function ArgumentsFrom(s: string, pos: nat, n: nat, caller: Caller): (r: Option<Arguments>)
    requires pos <= |s|
    ensures r.Some? ==> |r.value.list| == n && pos <= r.value.next <= |s|
    decreases n
  {
    if n == 0 then Some(Arguments([], pos))
    else
      match OpenBrace(s, pos)
      case None => None
      case Some(open) =>
        match Capture(s, open, caller)
        case Captured(arg, next) =>
          (match ArgumentsFrom(s, next, n - 1, caller)
           case None => None
           case Some(rest) => Some(Arguments([arg] + rest.list, rest.next)))
        case _ => None
  }

  // They come in the order in which they are written: the arguments before the k-th are those
  // of a call for k, and the k-th is what is captured after the brace that comes next.
  lemma {:induction false} ArgumentsInOrder(s: string, pos: nat, n: nat, caller: Caller, k: nat)
    requires pos <= |s| && k < n && ArgumentsFrom(s, pos, n, caller).Some?
    ensures var front := ArgumentsFrom(s, pos, k, caller);
            front.Some? && TakenNext(s, front.value, k, ArgumentsFrom(s, pos, n, caller).value, n, caller)
    decreases n
  {
    if k > 0 {
      var first := Capture(s, OpenBrace(s, pos).value, caller);
      ArgumentsInOrder(s, first.next, n - 1, caller, k - 1);
      TakenLater(s, first, ArgumentsFrom(s, first.next, k - 1, caller).value, k - 1,
                 ArgumentsFrom(s, first.next, n - 1, caller).value, n - 1, caller);
    }
  }

  ghost predicate TakenNext(s: string, front: Arguments, k: nat, all: Arguments, n: nat, caller: Caller) {
    && k < |all.list| == n && front.list == all.list[..k] && front.next <= |s|
    && var open := OpenBrace(s, front.next);
       open.Some?
       && var c := Capture(s, open.value, caller);
          c.Captured? && all.list[k] == c.arg && (k + 1 == n ==> all.next == c.next)
  }

  lemma TakenLater(s: string, first: Outcome, front: Arguments, k: nat, all: Arguments, n: nat, caller: Caller)
    requires first.Captured? && TakenNext(s, front, k, all, n, caller)
    ensures TakenNext(s, Arguments([first.arg] + front.list, front.next), k + 1,
                      Arguments([first.arg] + all.list, all.next), n + 1, caller)
  {
  }

  function Joined(list: seq<string>, o: Option<Arguments>): Option<Arguments> {
    if o.None? then None else Some(Arguments(list + o.value.list, o.value.next))
  }

  lemma JoinedNothing(o: Option<Arguments>)
    ensures Joined([], o) == o
  {
    if o.Some? {
      assert [] + o.value.list == o.value.list;
    }
  }

  lemma JoinedDone(list: seq<string>, pos: nat)
    ensures Joined(list, Some(Arguments([], pos))) == Some(Arguments(list, pos))
  {
    assert list + [] == list;
  }

  lemma JoinedTwice(list: seq<string>, arg: string, o: Option<Arguments>)
    ensures Joined(list, Joined([arg], o)) == Joined(list + [arg], o)
  {
    if o.Some? {
      assert list + ([arg] + o.value.list) == (list + [arg]) + o.value.list;
    }
  }

  // The first of n arguments; a missing brace is a failure like any other.
  method GetArgument(s: string, pos: nat, ghost n: nat, caller: Caller) returns (r: Outcome)
    requires pos <= |s| && n > 0
    ensures r.Captured? ==> pos <= r.next <= |s|
    ensures ArgumentsFrom(s, pos, n, caller) ==
            if r.Captured? then Joined([r.arg], ArgumentsFrom(s, r.next, n - 1, caller)) else None
  {
    var open := GetOpenBrace(s, pos);
    if open.None? {
      return UnexpectedEof;
    }
    r := CaptureArgument(s, open.value, caller);
  }

  // Arguments captured from a balanced environment are balanced, so that they can be the
  // environment of the next macro.
  lemma {:induction false} ArgumentsAreBalanced(s: string, pos: nat, n: nat, caller: Caller)
    requires pos <= |s| && BalancedCaller(caller) && ArgumentsFrom(s, pos, n, caller).Some?
    ensures BalancedCaller(Caller(ArgumentsFrom(s, pos, n, caller).value.list))
    decreases n
  {
    if n > 0 {
      var open := OpenBrace(s, pos).value;
      var first := Capture(s, open, caller);
      CapturedIsBalanced(s, open, caller);
      ArgumentsAreBalanced(s, first.next, n - 1, caller);
    }
  }

  method ReadArguments(s: string, from: nat, number: nat, caller: Caller) returns (r: Option<Arguments>)
    requires from <= |s|
    ensures r == ArgumentsFrom(s, from, number, caller)
  {
    var list: seq<string>, pos: nat := [], from;
    ghost var all, rest := ArgumentsFrom(s, from, number, caller), ArgumentsFrom(s, from, number, caller);
    JoinedNothing(all);
    for count := 0 to number
      invariant |list| == count && pos <= |s|
      invariant all == Joined(list, rest) && rest == ArgumentsFrom(s, pos, number - count, caller)
    {
      var arg := GetArgument(s, pos, number - count, caller);
      if !arg.Captured? {
        return None;
      }
      rest := ArgumentsFrom(s, arg.next, number - count - 1, caller);
      JoinedTwice(list, arg.arg, rest);
      list, pos := list + [arg.arg], arg.next;
    }
    JoinedDone(list, pos);
    r := Some(Arguments(list, pos));
  }

  // ----- the parameter stack ---------------------------------------------------------------------

  class Parser {
    const input: string
    var pos: nat
    // The parameters of the macros being expanded, innermost first.
    var parameters: seq<seq<string>>

    ghost predicate Valid()
      reads this
    {
      && pos <= |input|
      && forall k :: 0 <= k < |parameters| ==> BalancedCaller(Caller(parameters[k]))
    }

    constructor (input: string)
      ensures Valid() && this.input == input && pos == 0 && parameters == []
    {
      this.input, pos, parameters := input, 0, [];
    }

    function TheCaller(): Caller
      reads this
    {
      if parameters == [] then NoCaller else Caller(parameters[0])
    }

    method PushParameters(parms: seq<string>)
      modifies this`parameters
      ensures parameters == [parms] + old(parameters)
    {
      parameters := [parms] + parameters;
    }

    method PopParameters() returns (popped: bool)
      modifies this`parameters
      ensures popped == (old(parameters) != [])
      ensures parameters == if popped then old(parameters)[1..] else []
    {
      popped := parameters != [];
      if popped {
        parameters := parameters[1..];
      }
    }

    // Reads the arguments of a macro and makes them the environment of its body. An
    // abandoned call leaves the stack alone.
    method GetParameterStrings(number: nat) returns (ok: bool)
      requires Valid()
      modifies this
      ensures Valid()
      ensures var caller := if old(parameters) == [] then NoCaller else Caller(old(parameters)[0]);
              var r := ArgumentsFrom(input, old(pos), number, caller);
              && ok == r.Some?
              && (ok ==> pos == r.value.next && parameters == [r.value.list] + old(parameters))
              && (!ok ==> parameters == old(parameters))
    {
      var r := ReadArguments(input, pos, number, TheCaller());
      ok := r.Some?;
      if ok {
        ArgumentsAreBalanced(input, pos, number, TheCaller());
        PushParameters(r.value.list);
        pos := r.value.next;
      }
    }
  }
}
