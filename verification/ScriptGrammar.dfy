/**
 * What the text of a script must be like to compile. The grammar says of two places of a text what stands between them,
 * without any parser; blank space is free wherever the program skips it.
 */
module ScriptGrammar {
  import opened Bytes
  import opened Script

  // ---------------------------------------------------------------- the grammar

  /** From i to j there are only such characters, and no more of them follow. */
  predicate Run(s: string, i: nat, j: nat, p: char -> bool) {
    i <= j <= |s| && (forall k :: i <= k < j ==> p(s[k])) && (j < |s| ==> !p(s[j]))
  }

  predicate BlankRun(s: string, i: nat, j: nat) {
    Run(s, i, j, IsBlank)
  }

  predicate NameRun(s: string, i: nat, j: nat) {
    Run(s, i, j, IsIdentifier)
  }

  predicate DigitRun(s: string, i: nat, j: nat) {
    Run(s, i, j, IsDigit)
  }

  predicate QuotelessRun(s: string, i: nat, j: nat) {
    Run(s, i, j, IsNoQuote)
  }

  /** A dollar, perhaps a brace, and a name. Behind the name, blank space is skipped only within braces. */
  predicate HeadAt(s: string, i: nat, h: Head)
    ensures HeadAt(s, i, h) ==> i < h.start <= h.end <= h.next <= |s|
  {
    && At(s, i) == '$' && h.braces == (At(s, i + 1) == '{')
    && BlankRun(s, if h.braces then i + 2 else i + 1, h.start) && NameRun(s, h.start, h.end)
    && (if h.braces then BlankRun(s, h.end, h.next) else h.next == h.end)
  }

  function NameIn(s: string, h: Head): string
    requires h.start <= h.end <= |s|
  {
    s[h.start..h.end]
  }

  /** The number of the only argument. */
  predicate IsOne(name: string) {
    AllDigits(name) && Atoi(name) == 1
  }

  /**
   * The term t stands from i to e. `drops` tells whether a call in it drops an argument: something that cannot be read
   * stands directly before its closing parenthesis.
   */
  ghost predicate TermAt(s: string, i: nat, t: Node, e: nat, drops: bool)
    requires i <= e <= |s|
    decreases e - i, 0
  {
    match t
    case Text(_) => false
    case Number(v) => !drops && i < e && DigitRun(s, i, e) && v == Atoi(s[i..e])
    case Arg => !drops && exists h :: HeadAt(s, i, h) && h.next == e && At(s, e) != '(' && IsOne(NameIn(s, h))
    case Func(name, args) =>
      exists h, m: nat ::
        && HeadAt(s, i, h) && At(s, h.next) == '(' && NameIn(s, h) == NameOf(name)
        && i < h.next < m < e && ArgsAt(s, h.next + 1, args, m, drops) && At(s, m) == ')'
        && ClosesAt(s, m + 1, h.braces, e)
  }

  /** Within braces, blank space and the other brace. */
  predicate ClosesAt(s: string, i: nat, braces: bool, e: nat) {
    if braces then 0 < e && BlankRun(s, i, e - 1) && At(s, e - 1) == '}' else e == i
  }

  /** Blank space and arguments. */
  ghost predicate ArgsAt(s: string, i: nat, args: seq<Node>, m: nat, drops: bool)
    requires i <= m <= |s|
    decreases m - i, 4
  {
    exists k: nat :: BlankRun(s, i, k) && k <= m && ArgsFrom(s, k, args, m, drops)
  }

  /** Arguments, as long as commas follow. */
  ghost predicate ArgsFrom(s: string, k: nat, args: seq<Node>, m: nat, drops: bool)
    requires k <= m <= |s|
    decreases m - k, 3
  {
    if args == [] then NoArgAt(s, k, m) && drops == (k < m)
    else
      exists i1: nat, q: nat ::
        && k < i1 <= q <= m && BlankRun(s, i1, q)
        && ((ArgAt(s, k, args[0], i1, false) && MoreArgsAt(s, q, args[1..], m, drops))
            || (drops && ArgAt(s, k, args[0], i1, true)
                && (MoreArgsAt(s, q, args[1..], m, false) || MoreArgsAt(s, q, args[1..], m, true))))
  }

  /** A comma and what follows it, or neither. */
  ghost predicate MoreArgsAt(s: string, q: nat, args: seq<Node>, m: nat, drops: bool)
    requires q <= m <= |s|
    decreases m - q, 5
  {
    if At(s, q) == ',' then q < m && ArgsAt(s, q + 1, args, m, drops) else args == [] && m == q && !drops
  }

  /** A term, or a quoted text without its closing quote. */
  ghost predicate ArgAt(s: string, i: nat, a: Node, e: nat, drops: bool)
    requires i <= e <= |s|
    decreases e - i, 1
  {
    if a.Text? then
      !drops && At(s, i) == '"' && QuotelessRun(s, i + 1, e) && At(s, e) == '"' && i < e && a.str == s[i + 1..e]
    else TermAt(s, i, a, e, drops)
  }

  /** At k stands no argument; trying to read one leads to m. */
  ghost predicate NoArgAt(s: string, k: nat, m: nat)
    requires k <= m <= |s|
    decreases m - k, 2
  {
    || (k == m && At(s, k) != '"' && !IsDigit(At(s, k)) && At(s, k) != '$')
    || (At(s, k) == '"' && m == k + 1 && QuotelessRun(s, m, |s|))
    || FailsAt(s, k, m)
  }

  /** From i to e stands the start of a term that goes wrong at e. */
  ghost predicate FailsAt(s: string, i: nat, e: nat)
    requires i <= e <= |s|
    decreases e - i, 1
  {
    exists h ::
      HeadAt(s, i, h) && (BadNameAt(s, h, e) || BadCallAt(s, h, e) || OpenCallAt(s, i, h, e) || OpenBraceAt(s, i, h, e))
  }

  /** Arguments, whether or not one is dropped. */
  ghost predicate SomeArgsAt(s: string, i: nat, args: seq<Node>, m: nat)
    requires i <= m <= |s|
    decreases m - i, 5
  {
    ArgsAt(s, i, args, m, false) || ArgsAt(s, i, args, m, true)
  }

  /** The name is neither followed by a parenthesis nor that of the argument. */
  predicate BadNameAt(s: string, h: Head, e: nat)
    requires h.start <= h.end <= |s|
  {
    h.next == e && At(s, e) != '(' && !IsOne(NameIn(s, h))
  }

  /** No function has the name. */
  predicate BadCallAt(s: string, h: Head, e: nat)
    requires h.start <= h.end <= |s|
  {
    At(s, h.next) == '(' && FuncByName(NameIn(s, h)) == None && BlankRun(s, h.next + 1, e)
  }

  /** The arguments do not end in a parenthesis. */
  ghost predicate OpenCallAt(s: string, i: nat, h: Head, e: nat)
    requires i <= e <= |s| && h.start <= h.end <= |s|
    decreases e - i, 0
  {
    && At(s, h.next) == '(' && FuncByName(NameIn(s, h)) != None && i < h.next < e
    && (exists t: Node :: t.Func? && SomeArgsAt(s, h.next + 1, t.args, e)) && At(s, e) != ')'
  }

  /** The brace is not closed behind the parenthesis. */
  ghost predicate OpenBraceAt(s: string, i: nat, h: Head, e: nat)
    requires i <= e <= |s| && h.start <= h.end <= |s|
    decreases e - i, 0
  {
    && At(s, h.next) == '(' && FuncByName(NameIn(s, h)) != None && h.braces
    && exists t: Node, m: nat ::
         && t.Func? && i < h.next < m < e && BlankRun(s, m + 1, e)
         && SomeArgsAt(s, h.next + 1, t.args, m) && At(s, m) == ')' && At(s, e) != '}'
  }

  // ---------------------------------------------------------------- the grammar of scripts

  /** A character that makes a dollar before it start a term. */
  predicate StartsTerm(c: char) {
    c == '{' || IsIdentifier(c)
  }

  /** Since its start at i, the text has had a dollar, and nothing that starts a term behind it. */
  predicate DollarBefore(s: string, i: nat, q: nat)
    requires q <= |s|
  {
    exists d :: i <= d < q && s[d] == '$' && forall k :: d < k < q ==> !StartsTerm(s[k])
  }

  /** The text that starts at i breaks off just before q - 1. */
  predicate BreaksAt(s: string, i: nat, q: nat) {
    i < q < |s| && StartsTerm(s[q]) && DollarBefore(s, i, q)
  }

  /** From i to j there is plain text, up to the end or to where it breaks off first. */
  predicate TextRun(s: string, i: nat, j: nat) {
    && i <= j <= |s| && (j == |s| || BreaksAt(s, i, j + 1))
    && forall q :: i < q <= j ==> !BreaksAt(s, i, q)
  }

  ghost predicate PieceAt(s: string, i: nat, p: Node, e: nat, drops: bool)
    requires i <= e <= |s|
  {
    && i < e
    && if p.Text? then !drops && TextRun(s, i, e) && p.str == s[i..e]
       else TextRun(s, i, i) && !p.Number? && TermAt(s, i, p, e, drops)
  }

  /** The pieces stand from i to e; `drops` tells whether one of them drops an argument. */
  ghost predicate ScriptAt(s: string, i: nat, pieces: seq<Node>, e: nat, drops: bool)
    requires i <= e <= |s|
    decreases |pieces|
  {
    if pieces == [] then i == e && !drops
    else
      exists j: nat :: i < j <= e &&
        ((PieceAt(s, i, pieces[0], j, false) && ScriptAt(s, j, pieces[1..], e, drops))
         || (drops && PieceAt(s, i, pieces[0], j, true)
             && (ScriptAt(s, j, pieces[1..], e, false) || ScriptAt(s, j, pieces[1..], e, true))))
  }

  /** The whole script is these pieces in some layout. */
  ghost predicate Derives(pieces: seq<Node>, s: string) {
    ScriptAt(s, 0, pieces, |s|, false)
  }

  /**
   * The whole script is pieces in some layout, but something that
   * is no argument stands where the last one of a call should.
   */
  ghost predicate DropsArgument(s: string) {
    exists pieces :: ScriptAt(s, 0, pieces, |s|, true)
  }

  /** Behind some pieces the script ends in the start of a term that goes wrong only at the very end. */
  ghost predicate Unfinished(s: string) {
    exists pieces, r: nat, drops ::
      r < |s| && ScriptAt(s, 0, pieces, r, drops) && TextRun(s, r, r) && FailsAt(s, r, |s|)
  }

  // ---------------------------------------------------------------- the parser finds what stands there

  /** A run is what the parser skips. */
  lemma RunIsSpan(s: string, i: nat, j: nat, p: char -> bool)
    requires i <= |s|
    ensures Run(s, i, j, p) <==> j == Span(s, i, p)
    decreases |s| - i
  {
    SpanHolds(s, i, p);
    if i < |s| && p(s[i]) {
      RunIsSpan(s, i + 1, j, p);
    }
  }

  lemma HeadIs(s: string, i: nat, h: Head)
    ensures HeadAt(s, i, h) <==> At(s, i) == '$' && h == HeadOf(s, i)
  {
    if At(s, i) == '$' {
      RunIsSpan(s, if At(s, i + 1) == '{' then i + 2 else i + 1, h.start, IsBlank);
      if h.start <= |s| {
        RunIsSpan(s, h.start, h.end, IsIdentifier);
      }
      if h.end <= |s| {
        RunIsSpan(s, h.end, h.next, IsBlank);
      }
    }
  }

  lemma BlankIs(s: string, i: nat, j: nat)
    requires i <= |s|
    ensures BlankRun(s, i, j) <==> j == SkipBlank(s, i)
  {
    RunIsSpan(s, i, j, IsBlank);
  }

  lemma {:induction false} VarFuncIs(s: string, i: nat)
    requires i <= |s| && At(s, i) == '$'
    ensures var h := HeadOf(s, i);
            VarFunc(s, i) == if At(s, h.next) == '(' then Call(s, h.next + 1, FuncByName(NameIn(s, h)), h.braces)
                             else Parse(if IsOne(NameIn(s, h)) then Some(Arg) else None, h.next)
  {
  }

  lemma NameTells(name: string)
    ensures FuncByName(name) == None || NameOf(FuncByName(name).value) == name
    ensures forall n :: NameOf(n) == name ==> FuncByName(name) == Some(n)
  {
  }

  // ---- soundness

  lemma {:induction false} TermSound(s: string, i: nat)
    requires i <= |s| && At(s, i) == '$'
    ensures Judged(s, i, VarFunc(s, i), VarDrops(s, i))
    decreases |s| - i, 0
  {
    hide Judged, TermAt, FailsAt, HeadAt, HeadOf, VarFunc, VarDrops, Call, IsOne, NameIn;
    var h := HeadOf(s, i);
    HeadIs(s, i, h);
    VarFuncIs(s, i);
    if At(s, h.next) == '(' {
      CallSound(s, i, h);
    } else {
      NoCallSound(s, i, h);
    }
  }

  lemma NoCallSound(s: string, i: nat, h: Head)
    requires HeadAt(s, i, h) && At(s, i) == '$' && h == HeadOf(s, i) && At(s, h.next) != '('
    ensures Judged(s, i, Parse(if IsOne(NameIn(s, h)) then Some(Arg) else None, h.next), VarDrops(s, i))
  {
    hide HeadAt, HeadOf, IsOne, NameIn;
    if IsOne(NameIn(s, h)) {
      assert TermAt(s, i, Arg, h.next, false);
    } else {
      assert BadNameAt(s, h, h.next);
    }
  }

  lemma CallStands(s: string, i: nat, h: Head, t: Node, m: nat, e: nat, drops: bool)
    requires i < h.next < m < e <= |s| && HeadAt(s, i, h)
    requires At(s, h.next) == '(' && t.Func? && NameIn(s, h) == NameOf(t.name)
    requires ArgsAt(s, h.next + 1, t.args, m, drops) && At(s, m) == ')' && ClosesAt(s, m + 1, h.braces, e)
    ensures TermAt(s, i, t, e, drops)
  {
  }

  lemma OpenCallStands(s: string, i: nat, h: Head, t: Node, e: nat, drops: bool)
    requires i < h.next < e <= |s| && HeadAt(s, i, h) && At(s, h.next) == '(' && FuncByName(NameIn(s, h)) != None
    requires t.Func? && ArgsAt(s, h.next + 1, t.args, e, drops) && At(s, e) != ')'
    ensures FailsAt(s, i, e)
  {
    assert SomeArgsAt(s, h.next + 1, t.args, e);
    assert OpenCallAt(s, i, h, e);
  }

  lemma OpenBraceStands(s: string, i: nat, h: Head, t: Node, m: nat, e: nat, drops: bool)
    requires i < h.next < m < e <= |s| && HeadAt(s, i, h) && At(s, h.next) == '(' && FuncByName(NameIn(s, h)) != None
    requires t.Func? && ArgsAt(s, h.next + 1, t.args, m, drops) && At(s, m) == ')'
    requires h.braces && BlankRun(s, m + 1, e) && At(s, e) != '}'
    ensures FailsAt(s, i, e)
  {
    assert SomeArgsAt(s, h.next + 1, t.args, m);
    assert OpenBraceAt(s, i, h, e);
  }

  lemma CallIs(s: string, j: nat, n: Name, braces: bool, k: nat, t: Node, m: nat)
    requires j <= |s| && k == SkipBlank(s, j) && t.Func? && t.name == n && t.args == Args(s, k).0 && m == Args(s, k).1
    ensures At(s, m) != ')' ==> Call(s, j, Some(n), braces) == Parse(None, m)
    ensures At(s, m) == ')' && !braces ==> Call(s, j, Some(n), braces) == Parse(Some(t), m + 1)
    ensures At(s, m) == ')' && braces ==>
              var e := SkipBlank(s, m + 1);
              Call(s, j, Some(n), braces) == if At(s, e) == '}' then Parse(Some(t), e + 1) else Parse(None, e)
  {
  }

  /** What the parser makes of a dollar stands there. */
  ghost predicate Judged(s: string, i: nat, p: Parse, drops: bool)
    requires i <= p.idx <= |s|
  {
    if p.node.Some? then TermAt(s, i, p.node.value, p.idx, drops) && !p.node.value.Number? else FailsAt(s, i, p.idx)
  }

  lemma {:induction false} KnownCallSound(s: string, i: nat, h: Head, t: Node, k: nat, m: nat, drops: bool)
    requires i < h.next < m <= |s| && HeadAt(s, i, h)
    requires At(s, h.next) == '(' && t.Func? && NameIn(s, h) == NameOf(t.name)
    requires k == SkipBlank(s, h.next + 1) && Args(s, k).0 == t.args && Args(s, k).1 == m
    requires ArgsAt(s, h.next + 1, t.args, m, drops)
    ensures Judged(s, i, Call(s, h.next + 1, Some(t.name), h.braces), drops)
  {
    hide TermAt, FailsAt, ArgsAt, Args, HeadAt, SkipBlank, FuncByName, NameOf, Call, BlankRun, NameIn, At;
    CallIs(s, h.next + 1, t.name, h.braces, k, t, m);
    NameTells(NameIn(s, h));
    if At(s, m) != ')' {
      OpenCallStands(s, i, h, t, m, drops);
    } else if !h.braces {
      CallStands(s, i, h, t, m, m + 1, drops);
    } else {
      var e := SkipBlank(s, m + 1);
      BlankIs(s, m + 1, e);
      if At(s, e) == '}' {
        CallStands(s, i, h, t, m, e + 1, drops);
      } else {
        OpenBraceStands(s, i, h, t, m, e, drops);
      }
    }
  }

  lemma {:induction false} CallSound(s: string, i: nat, h: Head)
    requires HeadAt(s, i, h) && At(s, i) == '$' && h == HeadOf(s, i) && At(s, h.next) == '('
    ensures Judged(s, i, Call(s, h.next + 1, FuncByName(NameIn(s, h)), h.braces), VarDrops(s, i))
    decreases |s| - i, 0, 0
  {
    hide Judged, TermAt, FailsAt, ArgsAt, Args, HeadAt, HeadOf, VarDrops, ArgsDrop, SkipBlank, FuncByName, NameOf;
    hide Call, BlankRun, NameIn;
    var n, k := FuncByName(NameIn(s, h)), SkipBlank(s, h.next + 1);
    NameTells(NameIn(s, h));
    BlankIs(s, h.next + 1, k);
    if n == None {
      BadCallStands(s, i, h, k);
    } else {
      ArgsSound(s, h.next + 1);
      DropsInCall(s, i);
      KnownCallSound(s, i, h, Func(n.value, Args(s, k).0), k, Args(s, k).1, ArgsDrop(s, k));
    }
  }

  lemma BadCallStands(s: string, i: nat, h: Head, e: nat)
    requires i < h.next < |s| && HeadAt(s, i, h) && At(s, h.next) == '(' && FuncByName(NameIn(s, h)) == None
    requires BlankRun(s, h.next + 1, e)
    ensures i <= e <= |s| && Call(s, h.next + 1, None, h.braces) == Parse(None, e)
    ensures Judged(s, i, Call(s, h.next + 1, None, h.braces), VarDrops(s, i))
  {
    hide TermAt, VarDrops, Args;
    BlankIs(s, h.next + 1, e);
    assert BadCallAt(s, h, e);
  }

  lemma ArgsStand(s: string, i: nat, k: nat, a: Node, rest: seq<Node>, i1: nat, q: nat, m: nat, d: bool, r: bool)
    requires i <= k < i1 <= q <= m <= |s| && BlankRun(s, i, k) && BlankRun(s, i1, q)
    requires ArgAt(s, k, a, i1, d) && MoreArgsAt(s, q, rest, m, r)
    ensures ArgsAt(s, i, Cons(a, rest), m, d || r)
  {
    assert Cons(a, rest)[1..] == rest;
    assert ArgsFrom(s, k, Cons(a, rest), m, d || r);
  }

  lemma NoArgsStand(s: string, i: nat, k: nat, m: nat)
    requires i <= k <= m <= |s| && BlankRun(s, i, k) && NoArgAt(s, k, m)
    ensures ArgsAt(s, i, [], m, k < m)
  {
    assert ArgsFrom(s, k, [], m, k < m);
  }

  lemma ConsNothing(t: Node)
    ensures [t] == Cons(t, [])
  {
  }

  lemma CommaStands(s: string, q: nat, rest: seq<Node>, m: nat, r: bool)
    requires q < m <= |s| && At(s, q) == ',' && ArgsAt(s, q + 1, rest, m, r)
    ensures MoreArgsAt(s, q, rest, m, r)
  {
  }

  lemma NoCommaStands(s: string, q: nat)
    requires q <= |s| && At(s, q) != ','
    ensures MoreArgsAt(s, q, [], q, false)
  {
  }

  lemma {:induction false} ArgsSound(s: string, i: nat)
    requires i <= |s|
    ensures var k := SkipBlank(s, i); ArgsAt(s, i, Args(s, k).0, Args(s, k).1, ArgsDrop(s, k))
    decreases |s| - i, 2
  {
    hide ArgsAt, MoreArgsAt, NoArgAt, Param, SkipBlank, ArgAt, Cons, Args, ArgDrops, ArgsDrop, BlankRun;
    var k := SkipBlank(s, i);
    var p := Param(s, k);
    BlankIs(s, i, k);
    ArgSound(s, k);
    DropsHere(s, k);
    if p.node == None {
      NoArgs(s, k);
      NoArgsStand(s, i, k, p.idx);
    } else {
      var a, q := p.node.value, SkipBlank(s, p.idx);
      BlankIs(s, p.idx, q);
      OneMoreArg(s, k, a, p.idx, q);
      if At(s, q) == ',' {
        var n := SkipBlank(s, q + 1);
        ArgsSound(s, q + 1);
        CommaStands(s, q, Args(s, n).0, Args(s, n).1, ArgsDrop(s, n));
        ArgsStand(s, i, k, a, Args(s, n).0, p.idx, q, Args(s, n).1, ArgDrops(s, k), ArgsDrop(s, n));
      } else {
        NoCommaStands(s, q);
        ConsNothing(a);
        ArgsStand(s, i, k, a, [], p.idx, q, q, ArgDrops(s, k), false);
      }
    }
  }

  lemma {:induction false} ArgSound(s: string, i: nat)
    requires i <= |s|
    ensures var p := Param(s, i);
            if p.node.Some? then ArgAt(s, i, p.node.value, p.idx, ArgDrops(s, i)) else NoArgAt(s, i, p.idx)
    decreases |s| - i, 1
  {
    if At(s, i) == '"' {
      RunIsSpan(s, i + 1, Span(s, i + 1, IsNoQuote), IsNoQuote);
    } else if IsDigit(At(s, i)) {
      RunIsSpan(s, i, Span(s, i, IsDigit), IsDigit);
    } else if At(s, i) == '$' {
      TermSound(s, i);
      VarFuncNoText(s, i);
    }
  }

  lemma VarFuncNoText(s: string, i: nat)
    requires i <= |s|
    ensures VarFunc(s, i).node.Some? ==> !VarFunc(s, i).node.value.Text? && !VarFunc(s, i).node.value.Number?
  {
  }

  // ---- completeness

  lemma {:induction false} TermComplete(s: string, i: nat, t: Node, e: nat, drops: bool)
    requires i <= e <= |s| && TermAt(s, i, t, e, drops)
    ensures t.Number? ==> ArgIs(s, i, t, e, drops)
    ensures !t.Number? ==> At(s, i) == '$' && VarFunc(s, i) == Parse(Some(t), e) && drops == VarDrops(s, i)
    decreases e - i, 0
  {
    match t {
      case Text(_) =>
      case Number(v) => NumberIs(s, i, v, e);
      case Arg =>
        var h :| HeadAt(s, i, h) && h.next == e && At(s, e) != '(' && IsOne(NameIn(s, h));
        hide VarFunc, Call;
        HeadIs(s, i, h);
        VarFuncIs(s, i);
      case Func(name, args) => CallComplete(s, i, t, e, drops);
    }
  }

  /** What the parser makes of an argument. */
  ghost predicate ArgIs(s: string, i: nat, a: Node, e: nat, drops: bool)
    requires i <= |s|
  {
    Param(s, i) == Parse(Some(a), e) && drops == ArgDrops(s, i)
  }

  lemma NumberIs(s: string, i: nat, v: int, e: nat)
    requires i < e <= |s| && DigitRun(s, i, e) && v == Atoi(s[i..e])
    ensures ArgIs(s, i, Number(v), e, false)
  {
    hide Atoi;
    RunIsSpan(s, i, e, IsDigit);
  }

  lemma QuoteIs(s: string, i: nat, str: string, e: nat)
    requires i < e <= |s| && At(s, i) == '"' && QuotelessRun(s, i + 1, e) && At(s, e) == '"' && str == s[i + 1..e]
    ensures ArgIs(s, i, Text(str), e, false)
  {
    RunIsSpan(s, i + 1, e, IsNoQuote);
  }

  /** The places of a call. */
  lemma CallParts(s: string, i: nat, t: Node, e: nat, drops: bool) returns (h: Head, m: nat)
    requires i <= e <= |s| && t.Func? && TermAt(s, i, t, e, drops)
    ensures HeadAt(s, i, h) && At(s, h.next) == '(' && NameIn(s, h) == NameOf(t.name) && i < h.next < m < e
    ensures ArgsAt(s, h.next + 1, t.args, m, drops) && At(s, m) == ')' && ClosesAt(s, m + 1, h.braces, e)
  {
    hide HeadAt, At, NameIn, NameOf, ArgsAt, ClosesAt;
    h, m :| HeadAt(s, i, h) && At(s, h.next) == '(' && NameIn(s, h) == NameOf(t.name) && i < h.next < m < e
            && ArgsAt(s, h.next + 1, t.args, m, drops) && At(s, m) == ')' && ClosesAt(s, m + 1, h.braces, e);
  }

  lemma {:induction false} CallComplete(s: string, i: nat, t: Node, e: nat, drops: bool)
    requires i <= e <= |s| && t.Func? && TermAt(s, i, t, e, drops)
    ensures At(s, i) == '$' && VarFunc(s, i) == Parse(Some(t), e) && drops == VarDrops(s, i)
    decreases e - i, 0, 0
  {
    hide TermAt, ArgsAt, HeadAt, HeadOf, VarFunc, Call, Args, ArgsDrop, VarDrops, SkipBlank, NameIn, NameOf;
    hide FuncByName, BlankRun, At;
    var h, m: nat := CallParts(s, i, t, e, drops);
    var k := SkipBlank(s, h.next + 1);
    HeadIs(s, i, h);
    DropsInCall(s, i);
    VarFuncIs(s, i);
    NameTells(NameIn(s, h));
    ArgsComplete(s, h.next + 1, t.args, m, drops);
    CallIs(s, h.next + 1, t.name, h.braces, k, t, m);
    if h.braces {
      BlankIs(s, m + 1, e - 1);
    }
  }

  lemma {:induction false} ArgsComplete(s: string, i: nat, args: seq<Node>, m: nat, drops: bool)
    requires i <= m <= |s| && ArgsAt(s, i, args, m, drops)
    ensures var k := SkipBlank(s, i); Args(s, k).0 == args && Args(s, k).1 == m && drops == ArgsDrop(s, k)
    decreases m - i, 4
  {
    var k: nat :| BlankRun(s, i, k) && k <= m && ArgsFrom(s, k, args, m, drops);
    hide ArgsFrom, BlankRun, SkipBlank, Args, ArgsDrop;
    BlankIs(s, i, k);
    ArgsFromComplete(s, k, args, m, drops);
  }

  /** What the parser makes of what follows an argument. */
  ghost predicate MoreIs(s: string, q: nat, rest: seq<Node>, m: nat, drops: bool)
    requires q <= |s|
  {
    if At(s, q) == ',' then
      var n := SkipBlank(s, q + 1);
      Args(s, n).0 == rest && Args(s, n).1 == m && drops == ArgsDrop(s, n)
    else rest == [] && m == q && !drops
  }

  lemma ArgThenMore(s: string, k: nat, a: Node, rest: seq<Node>, i1: nat, q: nat, m: nat, d: bool, r: bool)
    requires k <= i1 <= q <= |s| && BlankRun(s, i1, q) && ArgIs(s, k, a, i1, d) && MoreIs(s, q, rest, m, r)
    ensures Args(s, k).0 == Cons(a, rest) && Args(s, k).1 == m && ArgsDrop(s, k) == (d || r)
  {
    hide Args, ArgsDrop, ArgDrops, Param, SkipBlank, Cons, BlankRun;
    DropsHere(s, k);
    BlankIs(s, i1, q);
    OneMoreArg(s, k, a, i1, q);
    ConsNothing(a);
  }

  lemma {:induction false} ArgsFromComplete(s: string, k: nat, args: seq<Node>, m: nat, drops: bool)
    requires k <= m <= |s| && ArgsFrom(s, k, args, m, drops)
    ensures Args(s, k).0 == args && Args(s, k).1 == m && drops == ArgsDrop(s, k)
    decreases m - k, 3
  {
    if args == [] {
      hide Args, ArgsDrop, ArgDrops, Param, NoArgAt;
      NoArgComplete(s, k, m);
      NoArgs(s, k);
      DropsHere(s, k);
    } else {
      hide ArgsFrom, ArgAt, MoreArgsAt, Args, ArgsDrop, Cons, BlankRun, ArgIs, MoreIs;
      var i1: nat, q: nat, d: bool, r: bool := FirstAndRest(s, k, args, m, drops);
      ArgComplete(s, k, args[0], i1, d);
      MoreArgsComplete(s, q, args[1..], m, r);
      ConsAgain(args);
      ArgThenMore(s, k, args[0], args[1..], i1, q, m, d, r);
    }
  }

  lemma ConsAgain(args: seq<Node>)
    requires args != []
    ensures args == Cons(args[0], args[1..]) && (args[1..] == [] ==> args == [args[0]])
  {
  }

  lemma FirstAndRest(s: string, k: nat, args: seq<Node>, m: nat, drops: bool)
    returns (i1: nat, q: nat, d: bool, r: bool)
    requires k <= m <= |s| && args != [] && ArgsFrom(s, k, args, m, drops)
    ensures k < i1 <= q <= m && BlankRun(s, i1, q) && ArgAt(s, k, args[0], i1, d) && MoreArgsAt(s, q, args[1..], m, r)
    ensures drops == (d || r)
  {
    i1, q :| k < i1 <= q <= m && BlankRun(s, i1, q)
             && ((ArgAt(s, k, args[0], i1, false) && MoreArgsAt(s, q, args[1..], m, drops))
                 || (drops && ArgAt(s, k, args[0], i1, true)
                     && (MoreArgsAt(s, q, args[1..], m, false) || MoreArgsAt(s, q, args[1..], m, true))));
    d := !(ArgAt(s, k, args[0], i1, false) && MoreArgsAt(s, q, args[1..], m, drops));
    r := if d then MoreArgsAt(s, q, args[1..], m, true) else drops;
  }

  lemma {:induction false} MoreArgsComplete(s: string, q: nat, rest: seq<Node>, m: nat, drops: bool)
    requires q <= m <= |s| && MoreArgsAt(s, q, rest, m, drops)
    ensures MoreIs(s, q, rest, m, drops)
    decreases m - q, 5
  {
    hide ArgsAt, Args, ArgsDrop, SkipBlank;
    if At(s, q) == ',' {
      ArgsComplete(s, q + 1, rest, m, drops);
    }
  }

  lemma {:induction false} ArgComplete(s: string, i: nat, a: Node, e: nat, drops: bool)
    requires i <= e <= |s| && ArgAt(s, i, a, e, drops)
    ensures ArgIs(s, i, a, e, drops)
    decreases e - i, 1
  {
    if a.Text? {
      QuoteIs(s, i, a.str, e);
    } else {
      TermComplete(s, i, a, e, drops);
    }
  }

  lemma {:induction false} NoArgComplete(s: string, k: nat, m: nat)
    requires k <= m <= |s| && NoArgAt(s, k, m)
    ensures Param(s, k) == Parse(None, m)
    decreases m - k, 2
  {
    if At(s, k) == '"' {
      if FailsAt(s, k, m) {
        FailsComplete(s, k, m);
      }
      RunIsSpan(s, k + 1, |s|, IsNoQuote);
    } else if FailsAt(s, k, m) {
      FailsComplete(s, k, m);
    }
  }

  lemma FailParts(s: string, i: nat, e: nat) returns (h: Head)
    requires i <= e <= |s| && FailsAt(s, i, e)
    ensures HeadAt(s, i, h)
    ensures BadNameAt(s, h, e) || BadCallAt(s, h, e) || OpenCallAt(s, i, h, e) || OpenBraceAt(s, i, h, e)
  {
    hide HeadAt, BadNameAt, BadCallAt, OpenCallAt, OpenBraceAt;
    h :|
      && HeadAt(s, i, h)
      && (BadNameAt(s, h, e) || BadCallAt(s, h, e) || OpenCallAt(s, i, h, e) || OpenBraceAt(s, i, h, e));
  }

  lemma BadCallIs(s: string, h: Head, e: nat)
    requires h.start <= h.end <= |s| && h.next < |s| && BadCallAt(s, h, e)
    ensures Call(s, h.next + 1, FuncByName(NameIn(s, h)), h.braces) == Parse(None, e)
  {
    hide Args;
    BlankIs(s, h.next + 1, e);
  }

  lemma {:induction false} FailsComplete(s: string, i: nat, e: nat)
    requires i <= e <= |s| && FailsAt(s, i, e)
    ensures At(s, i) == '$' && VarFunc(s, i) == Parse(None, e)
    decreases e - i, 1
  {
    hide FailsAt, HeadAt, HeadOf, VarFunc, Call, SomeArgsAt, FuncByName, NameIn, BlankRun, IsOne;
    var h := FailParts(s, i, e);
    HeadIs(s, i, h);
    VarFuncIs(s, i);
    if OpenCallAt(s, i, h, e) {
      OpenCallComplete(s, i, h, e);
    } else if OpenBraceAt(s, i, h, e) {
      OpenBraceComplete(s, i, h, e);
    } else if BadCallAt(s, h, e) {
      BadCallIs(s, h, e);
    }
  }

  lemma {:induction false} SomeArgsComplete(s: string, i: nat, args: seq<Node>, m: nat)
    requires i <= m <= |s| && SomeArgsAt(s, i, args, m)
    ensures Args(s, SkipBlank(s, i)).0 == args && Args(s, SkipBlank(s, i)).1 == m
    decreases m - i, 5
  {
    ArgsComplete(s, i, args, m, !ArgsAt(s, i, args, m, false));
  }

  lemma {:induction false} OpenCallComplete(s: string, i: nat, h: Head, e: nat)
    requires i <= e <= |s| && HeadAt(s, i, h) && OpenCallAt(s, i, h, e)
    ensures Call(s, h.next + 1, FuncByName(NameIn(s, h)), h.braces) == Parse(None, e)
    decreases e - i, 0
  {
    var t: Node :| t.Func? && SomeArgsAt(s, h.next + 1, t.args, e);
    var n := FuncByName(NameIn(s, h)).value;
    hide SomeArgsAt, Args, SkipBlank, Call, FuncByName, NameIn, HeadAt, At;
    SomeArgsComplete(s, h.next + 1, t.args, e);
    CallIs(s, h.next + 1, n, h.braces, SkipBlank(s, h.next + 1), Func(n, t.args), e);
  }

  lemma {:induction false} OpenBraceComplete(s: string, i: nat, h: Head, e: nat)
    requires i <= e <= |s| && HeadAt(s, i, h) && OpenBraceAt(s, i, h, e)
    ensures Call(s, h.next + 1, FuncByName(NameIn(s, h)), h.braces) == Parse(None, e)
    decreases e - i, 0
  {
    var t: Node, m: nat :| t.Func? && i < h.next < m < e && BlankRun(s, m + 1, e)
                        && SomeArgsAt(s, h.next + 1, t.args, m) && At(s, m) == ')' && At(s, e) != '}';
    var n := FuncByName(NameIn(s, h)).value;
    hide SomeArgsAt, Args, SkipBlank, Call, FuncByName, NameIn, HeadAt, BlankRun;
    SomeArgsComplete(s, h.next + 1, t.args, m);
    BlankIs(s, m + 1, e);
    CallIs(s, h.next + 1, n, h.braces, SkipBlank(s, h.next + 1), Func(n, t.args), m);
  }

  // ---------------------------------------------------------------- whole scripts

  lemma TextRunIsOne(s: string, i: nat, j: nat, k: nat)
    requires TextRun(s, i, j) && TextRun(s, i, k)
    ensures j == k
  {
  }

  lemma {:induction false} ConstEndRuns(s: string, i: nat, end: nat, hasDollar: bool)
    requires i <= end <= |s| && (hasDollar ==> i < end) && hasDollar == DollarBefore(s, i, end)
    requires forall q :: i < q < end ==> !BreaksAt(s, i, q)
    ensures TextRun(s, i, ConstEnd(s, end, hasDollar))
    decreases |s| - end
  {
    if end < |s| {
      if s[end] == '$' {
        DollarNow(s, i, end);
        ConstEndRuns(s, i, end + 1, true);
      } else if StartsTerm(s[end]) {
        if hasDollar {
          assert BreaksAt(s, i, end);
        } else {
          NoDollarNow(s, i, end);
          ConstEndRuns(s, i, end + 1, false);
        }
      } else {
        SameDollar(s, i, end);
        ConstEndRuns(s, i, end + 1, hasDollar);
      }
    }
  }

  lemma DollarNow(s: string, i: nat, end: nat)
    requires i <= end < |s| && s[end] == '$'
    ensures DollarBefore(s, i, end + 1) && !BreaksAt(s, i, end)
  {
  }

  lemma NoDollarNow(s: string, i: nat, end: nat)
    requires i <= end < |s| && StartsTerm(s[end]) && !DollarBefore(s, i, end)
    ensures !DollarBefore(s, i, end + 1) && !BreaksAt(s, i, end)
  {
  }

  lemma SameDollar(s: string, i: nat, end: nat)
    requires i <= end < |s| && s[end] != '$' && !StartsTerm(s[end])
    ensures DollarBefore(s, i, end + 1) == DollarBefore(s, i, end) && !BreaksAt(s, i, end)
  {
    if DollarBefore(s, i, end) {
      var d :| i <= d < end && s[d] == '$' && forall k :: d < k < end ==> !StartsTerm(s[k]);
      assert forall k :: d < k < end + 1 ==> !StartsTerm(s[k]);
    }
  }

  lemma TextRunIs(s: string, i: nat, j: nat)
    requires i <= |s|
    ensures TextRun(s, i, j) <==> j == ConstEnd(s, i, false)
  {
    assert !DollarBefore(s, i, i);
    ConstEndRuns(s, i, i, false);
    if TextRun(s, i, j) {
      TextRunIsOne(s, i, j, ConstEnd(s, i, false));
    }
  }

  /** No piece begins here. */
  ghost predicate StopsAt(s: string, r: nat, stop: nat)
    requires r <= stop <= |s|
  {
    if r == |s| then stop == r else TextRun(s, r, r) && FailsAt(s, r, stop)
  }

  lemma PiecesStand(s: string, i: nat, p: Node, rest: seq<Node>, j: nat, e: nat, d: bool, r: bool)
    requires i < j <= e <= |s| && PieceAt(s, i, p, j, d) && ScriptAt(s, j, rest, e, r)
    ensures ScriptAt(s, i, Cons(p, rest), e, d || r)
  {
    assert Cons(p, rest)[1..] == rest;
  }

  lemma NoDollarNoTerm(s: string, i: nat)
    requires i <= |s| && ConstEnd(s, i, false) == i
    ensures At(s, i) == '$' <==> i < |s|
    ensures i == |s| ==> VarFunc(s, i) == Parse(None, i)
  {
  }

  lemma {:induction false} ScriptSound(s: string, i: nat)
    requires i <= |s|
    ensures ScriptAt(s, i, Pieces(s, i).0, LastStop(s, i), PiecesDrop(s, i))
    ensures LastStop(s, i) <= Pieces(s, i).1 && StopsAt(s, LastStop(s, i), Pieces(s, i).1)
    decreases |s| - i
  {
    hide Pieces, LastStop, PiecesDrop, VarDrops, VarFunc, ConstEnd, TextRun, TermAt, FailsAt, ScriptAt, Cons;
    var e, p := ConstEnd(s, i, false), VarFunc(s, i);
    PiecesStep(s, i);
    TextRunIs(s, i, e);
    if e > i {
      OneMoreText(s, i);
      ScriptSound(s, e);
      PiecesStand(s, i, Text(s[i..e]), Pieces(s, e).0, e, LastStop(s, e), false, PiecesDrop(s, e));
    } else {
      OneMoreTerm(s, i);
      NoDollarNoTerm(s, i);
      if i < |s| {
        TermSound(s, i);
      }
      if p.node.Some? {
        VarFuncNoText(s, i);
        ScriptSound(s, p.idx);
        PiecesStand(s, i, p.node.value, Pieces(s, p.idx).0, p.idx, LastStop(s, p.idx),
                      VarDrops(s, i), PiecesDrop(s, p.idx));
      } else {
        NoPiecesStand(s, i);
      }
    }
  }

  lemma NoPiecesStand(s: string, i: nat)
    requires i <= |s|
    ensures ScriptAt(s, i, [], i, false)
  {
  }

  /** The first piece of a script, and the others. */
  lemma PieceAndRest(s: string, i: nat, pieces: seq<Node>, e: nat, drops: bool) returns (j: nat, d: bool, r: bool)
    requires i <= e <= |s| && pieces != [] && ScriptAt(s, i, pieces, e, drops)
    ensures i < j <= e && PieceAt(s, i, pieces[0], j, d) && ScriptAt(s, j, pieces[1..], e, r) && drops == (d || r)
  {
    hide PieceAt;
    j :| i < j <= e &&
         ((PieceAt(s, i, pieces[0], j, false) && ScriptAt(s, j, pieces[1..], e, drops))
          || (drops && PieceAt(s, i, pieces[0], j, true)
              && (ScriptAt(s, j, pieces[1..], e, false) || ScriptAt(s, j, pieces[1..], e, true))));
    d := !(PieceAt(s, i, pieces[0], j, false) && ScriptAt(s, j, pieces[1..], e, drops));
    r := if d then ScriptAt(s, j, pieces[1..], e, true) else drops;
  }

  lemma PieceComplete(s: string, i: nat, p: Node, j: nat, drops: bool)
    requires i <= j <= |s| && PieceAt(s, i, p, j, drops)
    ensures i < j && Pieces(s, i).0 == Cons(p, Pieces(s, j).0) && Pieces(s, i).1 == Pieces(s, j).1
    ensures LastStop(s, i) == LastStop(s, j) && PiecesDrop(s, i) == (drops || PiecesDrop(s, j))
  {
    hide Pieces, LastStop, PiecesDrop, VarDrops, VarFunc, ConstEnd, TextRun, TermAt, Cons;
    PiecesStep(s, i);
    if p.Text? {
      TextRunIs(s, i, j);
      OneMoreText(s, i);
    } else {
      TextRunIs(s, i, i);
      TermComplete(s, i, p, j, drops);
      OneMoreTerm(s, i);
    }
  }

  lemma {:induction false} ScriptComplete(s: string, i: nat, pieces: seq<Node>, e: nat, drops: bool, stop: nat)
    requires i <= e <= stop <= |s| && ScriptAt(s, i, pieces, e, drops) && StopsAt(s, e, stop)
    ensures Pieces(s, i).0 == pieces && Pieces(s, i).1 == stop && LastStop(s, i) == e && PiecesDrop(s, i) == drops
    decreases |pieces|
  {
    hide Pieces, LastStop, PiecesDrop, ConstEnd, TextRun, PieceAt, Cons, FailsAt, VarFunc;
    if pieces == [] {
      StopComplete(s, e, stop);
    } else {
      var j: nat, d: bool, r: bool := PieceAndRest(s, i, pieces, e, drops);
      PieceComplete(s, i, pieces[0], j, d);
      ScriptComplete(s, j, pieces[1..], e, r, stop);
      ConsAgain(pieces);
    }
  }

  lemma StopComplete(s: string, e: nat, stop: nat)
    requires e <= stop <= |s| && StopsAt(s, e, stop)
    ensures Pieces(s, e).0 == [] && Pieces(s, e).1 == stop && LastStop(s, e) == e && !PiecesDrop(s, e)
  {
    hide Pieces, LastStop, PiecesDrop, VarFunc, FailsAt;
    if e < |s| {
      TextRunIs(s, e, e);
      FailsComplete(s, e, stop);
    } else {
      NoDollarNoTerm(s, e);
    }
    PiecesStep(s, e);
    OneMoreTerm(s, e);
  }

  /**
   * A script compiles exactly if it derives some pieces, drops an argument, or is unfinished; each of these shuts out
   * the others. The pieces that it derives are those that the formatter collects.
   */
  lemma CompilesExactly(s: string)
    requires s != ""
    ensures Compiles(s) <==> (exists pieces :: Derives(pieces, s)) || DropsArgument(s) || Unfinished(s)
    ensures forall pieces :: Derives(pieces, s) ==> Pieces(s, 0).0 == pieces && !DropsArgument(s) && !Unfinished(s)
    ensures DropsArgument(s) ==> !Unfinished(s)
  {
    hide Pieces, LastStop, PiecesDrop, ScriptAt, TextRun, FailsAt;
    ScriptSound(s, 0);
    forall pieces, drops | ScriptAt(s, 0, pieces, |s|, drops)
      ensures Pieces(s, 0).0 == pieces && Pieces(s, 0).1 == |s| && LastStop(s, 0) == |s| && PiecesDrop(s, 0) == drops
    {
      ScriptComplete(s, 0, pieces, |s|, drops, |s|);
    }
    forall pieces, r: nat, drops | r < |s| && ScriptAt(s, 0, pieces, r, drops) && TextRun(s, r, r) && FailsAt(s, r, |s|)
      ensures Pieces(s, 0).1 == |s| && LastStop(s, 0) == r
    {
      ScriptComplete(s, 0, pieces, r, drops, |s|);
    }
    if LastStop(s, 0) == |s| && !PiecesDrop(s, 0) {
      assert Derives(Pieces(s, 0).0, s);
    }
  }

  /**
   * Success means that the script is a layout of the pieces that were collected, if and only if no call drops an
   * argument and the script does not end in a term that is not finished.
   */
  lemma SuccessMeansWhole(s: string)
    requires Compiles(s)
    ensures Derives(Pieces(s, 0).0, s) <==> !DropsArgument(s) && !Unfinished(s)
  {
    CompilesExactly(s);
  }

  /** Both happen. */
  lemma BothHappen()
    ensures Unfinished("$2") && DropsArgument("$div($2)")
  {
    hide Pieces, LastStop, PiecesDrop;
    FailedTermIsAccepted();
    BadArgumentIsDropped();
    ScriptSound("$2", 0);
    ScriptSound("$div($2)", 0);
  }
}
