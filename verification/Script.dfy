/** The scripts of the formatter: how they are read, from any position of any input. */
module Script {
  import opened Bytes

  const INT_MAX := 0x7FFF_FFFF
  const LONG_MAX := 0x7FFF_FFFF_FFFF_FFFF

  datatype Name = Div | Multi

  datatype Node =
    | Text(str: string)
    | Number(value: int)
    | Arg                                   // $1
    | Func(name: Name, args: seq<Node>)

  /** What a parser function returns, and where it leaves the cursor. */
  datatype Parse = Parse(node: Option<Node>, idx: nat)

  // ---------------------------------------------------------------- characters

  predicate IsDigit(c: char) {
    '0' <= c <= '9'
  }

  predicate IsIdentifier(c: char) {
    c == '_' || IsDigit(c) || 'a' <= c <= 'z' || 'A' <= c <= 'Z'
  }

  predicate IsBlank(c: char) {
    c == ' ' || c == '\t'
  }

  predicate IsNoQuote(c: char) {
    c != '"'
  }

  /** The character at the cursor; the input ends with a zero. */
  function At(s: string, i: nat): char {
    if i < |s| then s[i] else '\0'
  }

  /** The end of the run of characters that starts here. */
  function Span(s: string, i: nat, p: char -> bool): (r: nat)
    requires i <= |s|
    ensures i <= r <= |s|
    decreases |s| - i
  {
    if i < |s| && p(s[i]) then Span(s, i + 1, p) else i
  }

  function SkipBlank(s: string, i: nat): (r: nat)
    requires i <= |s|
    ensures i <= r <= |s|
  {
    Span(s, i, IsBlank)
  }

  function DigitValue(c: char): nat
    requires IsDigit(c)
  {
    c as int - '0' as int
  }

  function ValueOf(digits: string): nat
    requires forall k :: 0 <= k < |digits| ==> IsDigit(digits[k])
  {
    if digits == "" then 0 else ValueOf(digits[..|digits| - 1]) * 10 + DigitValue(digits[|digits| - 1])
  }

  /** `atoi` on a number: saturated to 64 bits, then cut to 32. */
  function Atoi(digits: string): int
    requires forall k :: 0 <= k < |digits| ==> IsDigit(digits[k])
  {
    var v := Min(ValueOf(digits), LONG_MAX) % 0x1_0000_0000;
    if v > INT_MAX then v - 0x1_0000_0000 else v
  }

  function Pow10(n: nat): nat {
    if n == 0 then 1 else 10 * Pow10(n - 1)
  }

  /** Digits count by their places. */
  lemma {:induction false} ValueOfPlaces(a: string, b: string)
    requires AllDigits(a) && AllDigits(b)
    ensures AllDigits(a + b) && ValueOf(a + b) == ValueOf(a) * Pow10(|b|) + ValueOf(b)
    ensures |b| == 1 ==> ValueOf(b) == b[0] as int - '0' as int
    decreases |b|
  {
    if b == "" {
      assert a + b == a;
    } else {
      var n := |b| - 1;
      assert a + b == (a + b[..n]) + [b[n]];
      ValueOfPlaces(a, b[..n]);
      assert (a + b)[..|a + b| - 1] == a + b[..n];
      Distribute(ValueOf(a), Pow10(n), ValueOf(b[..n]), DigitValue(b[n]));
    }
  }

  lemma Distribute(v: nat, p: nat, w: nat, d: nat)
    ensures (v * p + w) * 10 + d == v * (10 * p) + (w * 10 + d)
  {
  }

  /** `atoi` is exact up to 31 bits, right modulo 2^32 up to 63 bits, and -1 beyond. */
  lemma AtoiMeans(digits: string)
    requires AllDigits(digits)
    ensures -0x8000_0000 <= Atoi(digits) <= INT_MAX
    ensures ValueOf(digits) <= INT_MAX ==> Atoi(digits) == ValueOf(digits)
    ensures ValueOf(digits) <= LONG_MAX ==> (ValueOf(digits) - Atoi(digits)) % 0x1_0000_0000 == 0
    ensures ValueOf(digits) > LONG_MAX ==> Atoi(digits) == -1
  {
    hide ValueOf;
    var v := Min(ValueOf(digits), LONG_MAX);
    var q := v / 0x1_0000_0000;
    assert v == q * 0x1_0000_0000 + v % 0x1_0000_0000;
    assert LONG_MAX == 0x7FFF_FFFF * 0x1_0000_0000 + 0xFFFF_FFFF;
    if v == LONG_MAX {
      RemainderIs(v, 0x1_0000_0000, 0x7FFF_FFFF, 0xFFFF_FFFF);
    }
    RemainderIs(v - Atoi(digits), 0x1_0000_0000, if Atoi(digits) < 0 then q + 1 else q, 0);
  }

  predicate AllDigits(s: string) {
    forall k :: 0 <= k < |s| ==> IsDigit(s[k])
  }

  function NameOf(n: Name): string {
    match n
    case Div => "div"
    case Multi => "multi"
  }

  function FuncByName(name: string): Option<Name> {
    if name == "div" then Some(Div) else if name == "multi" then Some(Multi) else None
  }

  // ---------------------------------------------------------------- the parser

  /** The end of the plain text that starts at the cursor; after a dollar it ends one character before an identifier. */
  function ConstEnd(s: string, end: nat, hasDollar: bool): (r: nat)
    requires end <= |s| && (hasDollar ==> end > 0)
    ensures (if hasDollar then end - 1 else end) <= r <= |s|
    decreases |s| - end
  {
    if end == |s| then end
    else if s[end] == '$' then ConstEnd(s, end + 1, true)
    else if s[end] == '{' || IsIdentifier(s[end]) then
      if hasDollar then end - 1 else ConstEnd(s, end + 1, false)
    else ConstEnd(s, end + 1, hasDollar)
  }

  function VarFunc(s: string, i: nat): (r: Parse)
    requires i <= |s|
    ensures i <= r.idx <= |s| && (r.node.Some? ==> r.idx > i)
    decreases |s| - i, 0
  {
    if At(s, i) != '$' then Parse(None, i)
    else
      var braces := At(s, i + 1) == '{';
      var start := SkipBlank(s, if braces then i + 2 else i + 1);
      var end := Span(s, start, IsIdentifier);
      var j := if braces then SkipBlank(s, end) else end;
      if At(s, j) == '(' then Call(s, j + 1, FuncByName(s[start..end]), braces)
      else Parse(if AllDigits(s[start..end]) && Atoi(s[start..end]) == 1 then Some(Arg) else None, j)
  }

  /** The rest of a call, after the parenthesis. */
  function Call(s: string, i: nat, name: Option<Name>, braces: bool): (r: Parse)
    requires i <= |s|
    ensures i <= r.idx <= |s| && (r.node.Some? ==> r.idx > i)
    decreases |s| - i, 3
  {
    var k := SkipBlank(s, i);
    if name == None then Parse(None, k)
    else
      var (args, m) := Args(s, k);
      if At(s, m) != ')' then Parse(None, m)
      else if !braces then Parse(Some(Func(name.value, args)), m + 1)
      else
        var e := SkipBlank(s, m + 1);
        if At(s, e) != '}' then Parse(None, e) else Parse(Some(Func(name.value, args)), e + 1)
  }

  function Args(s: string, i: nat): (r: (seq<Node>, nat))
    requires i <= |s|
    ensures i <= r.1 <= |s|
    decreases |s| - i, 2
  {
    var p := Param(s, i);
    if p.node == None then ([], p.idx)
    else
      var m := SkipBlank(s, p.idx);
      if At(s, m) != ',' then ([p.node.value], m)
      else
        var (rest, e) := Args(s, SkipBlank(s, m + 1));
        ([p.node.value] + rest, e)
  }

  function Param(s: string, i: nat): (r: Parse)
    requires i <= |s|
    ensures i <= r.idx <= |s| && (r.node.Some? ==> r.idx > i)
    decreases |s| - i, 1
  {
    if At(s, i) == '"' then QuoteStr(s, i)
    else if IsDigit(At(s, i)) then ConstNumber(s, i)
    else if At(s, i) == '$' then VarFunc(s, i)
    else Parse(None, i)
  }

  /** The cursor stops at the closing quote. */
  function QuoteStr(s: string, i: nat): (r: Parse)
    requires i <= |s| && At(s, i) == '"'
    ensures i < r.idx <= |s|
  {
    var end := Span(s, i + 1, IsNoQuote);
    if At(s, end) != '"' then Parse(None, i + 1) else Parse(Some(Text(s[i + 1..end])), end)
  }

  lemma SpanHolds(s: string, i: nat, p: char -> bool)
    requires i <= |s|
    ensures forall k :: i <= k < Span(s, i, p) ==> p(s[k])
    ensures Span(s, i, p) < |s| ==> !p(s[Span(s, i, p)])
    decreases |s| - i
  {
  }

  function ConstNumber(s: string, i: nat): (r: Parse)
    requires i < |s| && IsDigit(s[i])
    ensures i < r.idx <= |s|
  {
    var end := Span(s, i, IsDigit);
    SpanHolds(s, i, IsDigit);
    Parse(Some(Number(Atoi(s[i..end]))), end)
  }

  /** All pieces from the cursor on, and where it stops. */
  function Pieces(s: string, i: nat): (r: (seq<Node>, nat))
    requires i <= |s|
    ensures i <= r.1 <= |s|
    decreases |s| - i
  {
    var e := ConstEnd(s, i, false);
    if e > i then
      var (rest, stop) := Pieces(s, e);
      ([Text(s[i..e])] + rest, stop)
    else
      var p := VarFunc(s, i);
      if p.node == None then ([], p.idx)
      else
        var (rest, stop) := Pieces(s, p.idx);
        ([p.node.value] + rest, stop)
  }

  /** Compilation succeeds if the cursor stops at the end. */
  predicate Compiles(s: string) {
    s != "" && Pieces(s, 0).1 == |s|
  }

  // ---------------------------------------------------------------- one step of the two loops

  /** A node and then others. */
  function Cons(t: Node, rest: seq<Node>): seq<Node> {
    [t] + rest
  }

  function Join(a: seq<Node>, b: seq<Node>): seq<Node> {
    a + b
  }

  lemma JoinCons(a: seq<Node>, t: Node, b: seq<Node>)
    ensures Join(a, Cons(t, b)) == Join(a + [t], b)
    ensures Join([], b) == b && Join(a, []) == a && Join(a, [t]) == a + [t]
  {
  }

  lemma OneMoreArg(s: string, i: nat, a: Node, i1: nat, m: nat)
    requires i <= |s| && Param(s, i) == Parse(Some(a), i1) && SkipBlank(s, i1) == m
    ensures At(s, m) != ',' ==> Args(s, i).0 == [a] && Args(s, i).1 == m
    ensures At(s, m) == ',' ==> Args(s, i).0 == Cons(a, Args(s, SkipBlank(s, m + 1)).0)
    ensures At(s, m) == ',' ==> Args(s, i).1 == Args(s, SkipBlank(s, m + 1)).1
  {
  }

  lemma NoArgs(s: string, i: nat)
    requires i <= |s| && Param(s, i).node == None
    ensures Args(s, i).0 == [] && Args(s, i).1 == Param(s, i).idx
  {
  }

  lemma OneMoreText(s: string, i: nat)
    requires i <= |s|
    ensures var e := ConstEnd(s, i, false);
            e > i ==> Pieces(s, i).0 == Cons(Text(s[i..e]), Pieces(s, e).0) && Pieces(s, i).1 == Pieces(s, e).1
  {
  }

  lemma OneMoreTerm(s: string, i: nat)
    requires i <= |s| && ConstEnd(s, i, false) == i
    ensures var p := VarFunc(s, i);
            && (p.node.Some? ==>
                  Pieces(s, i).0 == Cons(p.node.value, Pieces(s, p.idx).0) && Pieces(s, i).1 == Pieces(s, p.idx).1)
            && (p.node == None ==> Pieces(s, i).0 == [] && Pieces(s, i).1 == p.idx)
  {
  }

  // ---------------------------------------------------------------- what a tree can hold

  /** Calls and their arguments hold numbers, the argument and calls, but no text. */
  predicate IsTree(t: Node) {
    match t
    case Text(_) => false
    case Number(v) => -0x8000_0000 <= v <= INT_MAX
    case Arg => true
    case Func(_, args) => forall a :: a in args ==> IsTree(a)
  }

  predicate Trees(args: seq<Node>) {
    forall a :: a in args ==> IsTree(a)
  }

  lemma {:induction false} VarFuncIsTree(s: string, i: nat)
    requires i <= |s|
    ensures VarFunc(s, i).node.Some? ==> IsTree(VarFunc(s, i).node.value)
    decreases |s| - i, 0
  {
    if At(s, i) == '$' {
      var braces := At(s, i + 1) == '{';
      var start := SkipBlank(s, if braces then i + 2 else i + 1);
      var end := Span(s, start, IsIdentifier);
      var j := if braces then SkipBlank(s, end) else end;
      if At(s, j) == '(' {
        CallIsTree(s, j + 1, FuncByName(s[start..end]), braces);
      }
    }
  }

  /** A name alone is the argument exactly if it is a number that `atoi` takes to be 1, and nothing otherwise. */
  lemma ArgumentExactly(name: string)
    requires forall k :: 0 <= k < |name| ==> IsIdentifier(name[k])
    ensures VarFunc("$" + name, 0).idx == 1 + |name|
    ensures VarFunc("$" + name, 0).node
         == if AllDigits(name) && ValueOf(name) <= LONG_MAX && ValueOf(name) % 0x1_0000_0000 == 1 then Some(Arg)
            else None
  {
    var s, n := "$" + name, 1 + |name|;
    assert s[1..n] == name && forall k :: 1 <= k < n ==> s[k] == name[k - 1];
    if AllDigits(name) {
      AtoiMeans(name);
    }
    hide Atoi, ValueOf, IsIdentifier;
    assert n > 1 ==> IsIdentifier(s[1]);
    NoBlankNoBrace();
    SpanAll(s, 1, IsIdentifier);
    assert SkipBlank(s, 1) == 1;
  }

  lemma NoBlankNoBrace()
    ensures forall c :: IsIdentifier(c) ==> !IsBlank(c) && c != '{' && c != '('
  {
  }

  lemma {:induction false} SpanAll(s: string, i: nat, p: char -> bool)
    requires i <= |s| && forall k :: i <= k < |s| ==> p(s[k])
    ensures Span(s, i, p) == |s|
    decreases |s| - i
  {
    if i < |s| {
      SpanAll(s, i + 1, p);
    }
  }

  /** A quoted text is not read to its end, so the call that it stands in fails. */
  lemma {:induction false} CallIsTree(s: string, i: nat, name: Option<Name>, braces: bool)
    requires i <= |s|
    ensures Call(s, i, name, braces).node.Some? ==> IsTree(Call(s, i, name, braces).node.value)
    decreases |s| - i, 3
  {
    if name.Some? {
      ArgsAreTrees(s, SkipBlank(s, i));
    }
  }

  lemma {:induction false} ArgsAreTrees(s: string, i: nat)
    requires i <= |s|
    ensures Trees(Args(s, i).0) || At(s, Args(s, i).1) == '"'
    decreases |s| - i, 2
  {
    hide Args, Param, SkipBlank, IsTree, Trees, Cons;
    var p := Param(s, i);
    if p.node.Some? {
      ParamIsTree(s, i);
      var a, m := p.node.value, SkipBlank(s, p.idx);
      OneMoreArg(s, i, a, p.idx, m);
      if At(s, m) == ',' {
        var rest := Args(s, SkipBlank(s, m + 1)).0;
        ArgsAreTrees(s, SkipBlank(s, m + 1));
        TreesCons(a, rest);
      } else {
        TreesCons(a, []);
      }
    } else {
      NoArgs(s, i);
      TreesCons(Arg, []);
    }
  }

  lemma TreesCons(a: Node, rest: seq<Node>)
    ensures Trees([]) && (IsTree(a) ==> Trees([a]) && (Trees(rest) ==> Trees(Cons(a, rest))))
  {
  }

  lemma {:induction false} ParamIsTree(s: string, i: nat)
    requires i <= |s|
    ensures var p := Param(s, i);
            p.node.Some? ==> IsTree(p.node.value) || (At(s, p.idx) == '"' && SkipBlank(s, p.idx) == p.idx)
    decreases |s| - i, 1
  {
    if At(s, i) == '$' {
      VarFuncIsTree(s, i);
    }
  }

  // ---------------------------------------------------------------- scripts that end too early

  /** Where the last piece ends: the start of the attempt that failed. */
  function LastStop(s: string, i: nat): (r: nat)
    requires i <= |s|
    ensures i <= r <= |s|
    decreases |s| - i
  {
    var e := ConstEnd(s, i, false);
    if e > i then LastStop(s, e)
    else if VarFunc(s, i).node == None then i
    else LastStop(s, VarFunc(s, i).idx)
  }

  /** Where the pieces end, the whole script is read, or a dollar starts a term that fails. */
  lemma {:induction false} StopsAtDollar(s: string, i: nat)
    requires i <= |s|
    ensures var r := LastStop(s, i);
            (r == |s| || At(s, r) == '$') && VarFunc(s, r).node == None && Pieces(s, i).1 == VarFunc(s, r).idx
    decreases |s| - i
  {
    var e := ConstEnd(s, i, false);
    if e > i {
      StopsAtDollar(s, e);
    } else if VarFunc(s, i).node.Some? {
      StopsAtDollar(s, VarFunc(s, i).idx);
    }
  }

  /** A term that fails at the end of the input is accepted. */
  lemma FailedTermIsAccepted()
    ensures Compiles("$2") && Pieces("$2", 0).0 == [] && LastStop("$2", 0) == 0
  {
    var s := "$2";
    assert At(s, 0) == '$' && At(s, 1) == '2' && At(s, 2) == '\0';
    assert ConstEnd(s, 0, false) == ConstEnd(s, 1, true) == 0;
    assert SkipBlank(s, 1) == 1;
    assert Span(s, 1, IsIdentifier) == Span(s, 2, IsIdentifier) == 2;
    assert s[1..2] == "2" && "2"[..0] == "" && ValueOf("2") == 2;
    assert VarFunc(s, 0) == Parse(None, 2);
  }

  /** An argument that cannot be read is dropped if the parenthesis follows. */
  lemma BadArgumentIsDropped()
    ensures Compiles("$div($2)") && Pieces("$div($2)", 0).0 == [Func(Div, [])]
    ensures LastStop("$div($2)", 0) == 8 && PiecesDrop("$div($2)", 0)
  {
    var s := "$div($2)";
    assert s[1..4] == "div" && s[6..7] == "2" && "2"[..0] == "" && ValueOf("2") == 2;
    assert ConstEnd(s, 0, false) == ConstEnd(s, 1, true) == 0;
    assert SkipBlank(s, 1) == 1 && SkipBlank(s, 5) == 5 && SkipBlank(s, 6) == 6;
    assert Span(s, 1, IsIdentifier) == Span(s, 2, IsIdentifier) == 4;
    assert Span(s, 3, IsIdentifier) == Span(s, 4, IsIdentifier) == 4;
    assert Span(s, 6, IsIdentifier) == Span(s, 7, IsIdentifier) == 7;
    assert VarFunc(s, 5) == Parse(None, 7);
    assert Param(s, 5) == Parse(None, 7);
    assert Call(s, 5, Some(Div), false) == Parse(Some(Func(Div, [])), 8);
    assert VarFunc(s, 0) == Parse(Some(Func(Div, [])), 8);
    assert ConstEnd(s, 8, false) == 8 && VarFunc(s, 8) == Parse(None, 8);
    assert Pieces(s, 8) == ([], 8) && LastStop(s, 8) == 8;
    assert ArgsDrop(s, 5) && HeadOf(s, 0).next == 4 && VarDrops(s, 0);
  }

  // ---------------------------------------------------------------- arguments that are dropped

  /** The places in the head of a term: where its name starts and ends, and what comes after it. */
  datatype Head = Head(braces: bool, start: nat, end: nat, next: nat)

  /** The head that the parser reads. */
  function HeadOf(s: string, i: nat): (h: Head)
    requires At(s, i) == '$'
    ensures i < h.start <= h.end <= h.next <= |s|
  {
    var braces := At(s, i + 1) == '{';
    var start := SkipBlank(s, if braces then i + 2 else i + 1);
    var end := Span(s, start, IsIdentifier);
    Head(braces, start, end, if braces then SkipBlank(s, end) else end)
  }

  /** Whether the term that the parser reads drops an argument. */
  ghost function VarDrops(s: string, i: nat): bool
    requires i <= |s|
    decreases |s| - i, 0
  {
    At(s, i) == '$' && At(s, HeadOf(s, i).next) == '(' && ArgsDrop(s, SkipBlank(s, HeadOf(s, i).next + 1))
  }

  ghost function ArgsDrop(s: string, i: nat): bool
    requires i <= |s|
    decreases |s| - i, 2
  {
    var p := Param(s, i);
    if p.node == None then i < p.idx
    else
      var m := SkipBlank(s, p.idx);
      ArgDrops(s, i) || (At(s, m) == ',' && ArgsDrop(s, SkipBlank(s, m + 1)))
  }

  ghost function ArgDrops(s: string, i: nat): bool
    requires i <= |s|
    decreases |s| - i, 1
  {
    At(s, i) == '$' && VarDrops(s, i)
  }

  lemma DropsHere(s: string, k: nat)
    requires k <= |s|
    ensures var p := Param(s, k);
            if p.node == None then ArgsDrop(s, k) == (k < p.idx)
            else
              var q := SkipBlank(s, p.idx);
              ArgsDrop(s, k) == (ArgDrops(s, k) || (At(s, q) == ',' && ArgsDrop(s, SkipBlank(s, q + 1))))
  {
  }

  lemma DropsInCall(s: string, i: nat)
    requires At(s, i) == '$' && At(s, HeadOf(s, i).next) == '('
    ensures VarDrops(s, i) == ArgsDrop(s, SkipBlank(s, HeadOf(s, i).next + 1))
  {
  }

  ghost function PiecesDrop(s: string, i: nat): bool
    requires i <= |s|
    decreases |s| - i
  {
    var e := ConstEnd(s, i, false);
    if e > i then PiecesDrop(s, e)
    else if VarFunc(s, i).node == None then false
    else VarDrops(s, i) || PiecesDrop(s, VarFunc(s, i).idx)
  }

  /** One step of the parser over the pieces. */
  lemma PiecesStep(s: string, i: nat)
    requires i <= |s|
    ensures var e := ConstEnd(s, i, false);
            e > i ==> LastStop(s, i) == LastStop(s, e) && PiecesDrop(s, i) == PiecesDrop(s, e)
    ensures var p := VarFunc(s, i);
            ConstEnd(s, i, false) == i && p.node.Some? ==>
              LastStop(s, i) == LastStop(s, p.idx) && PiecesDrop(s, i) == (VarDrops(s, i) || PiecesDrop(s, p.idx))
    ensures ConstEnd(s, i, false) == i && VarFunc(s, i).node == None ==> LastStop(s, i) == i && !PiecesDrop(s, i)
  {
  }
}
