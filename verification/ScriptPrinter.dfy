/** Printed scripts are read back as they were. */
module ScriptPrinter {
  import opened Bytes
  import opened Script
  import opened ScriptGrammar

  // ---------------------------------------------------------------- printing

  /** One string and then another. */
  function Cat(a: string, b: string): (r: string)
    ensures |r| == |a| + |b|
  {
    a + b
  }

  function Decimal(n: nat): (r: string)
    ensures r != "" && AllDigits(r) && ValueOf(r) == n
  {
    var last := [('0' as int + n % 10) as char];
    if n < 10 then last else Decimal(n / 10) + last
  }

  /** A call up to its parenthesis, and what comes after that. */
  function Opening(name: Name, rest: string): (r: string)
    ensures |r| == |NameOf(name)| + 2 + |rest|
  {
    Cat("$", Cat(NameOf(name), Cat("(", rest)))
  }

  /** A term, with this much blank space wherever some is allowed. */
  function Print(t: Node, pad: string): string {
    match t
    case Text(str) => str
    case Number(v) => if v >= 0 then Decimal(v) else ""
    case Arg => "$1"
    case Func(name, args) => Opening(name, Cat(pad, Inside(args, pad)))
  }

  /** The arguments of a call, and its end. */
  function Inside(args: seq<Node>, pad: string): string {
    if args == [] then ")"
    else if |args| == 1 then Cat(Print(args[0], pad), Cat(pad, ")"))
    else Cat(Print(args[0], pad), Cat(pad, Cat(",", Cat(pad, Inside(args[1..], pad)))))
  }

  function PrintAll(pieces: seq<Node>, pad: string): string {
    if pieces == [] then "" else Cat(Print(pieces[0], pad), PrintAll(pieces[1..], pad))
  }

  /** Numbers, the argument, and calls of these. */
  predicate IsTerm(t: Node) {
    match t
    case Text(_) => false
    case Number(v) => 0 <= v <= INT_MAX
    case Arg => true
    case Func(_, args) => forall a :: a in args ==> IsTerm(a)
  }

  predicate Terms(args: seq<Node>) {
    forall a :: a in args ==> IsTerm(a)
  }

  predicate Blank(pad: string) {
    forall k :: 0 <= k < |pad| ==> pad[k] == ' ' || pad[k] == '\t'
  }

  predicate NoDollar(text: string) {
    forall k :: 0 <= k < |text| ==> text[k] != '$'
  }

  predicate IsText(t: Node) {
    t.Text? && t.str != "" && NoDollar(t.str)
  }

  /** The character ends the name of an argument. */
  predicate Ends(c: char) {
    !IsIdentifier(c) && c != '('
  }

  /** A script of texts and terms. Texts do not touch each other, and none continues the name of an argument. */
  predicate IsScript(pieces: seq<Node>) {
    && (forall k :: 0 <= k < |pieces| ==> IsText(pieces[k]) || (IsTerm(pieces[k]) && !pieces[k].Number?))
    && (forall k :: 0 <= k < |pieces| - 1 && pieces[k + 1].Text? ==>
          !pieces[k].Text? && (pieces[k].Arg? ==> Ends(At(pieces[k + 1].str, 0))))
  }

  // ---------------------------------------------------------------- pieces of a string

  /** t stands in s at i. */
  predicate StandsAt(s: string, i: nat, t: string)
    ensures StandsAt(s, i, t) ==> i + |t| <= |s|
  {
    i + |t| <= |s| && s[i..i + |t|] == t
  }

  lemma Parts(s: string, i: nat, a: string, b: string)
    requires StandsAt(s, i, Cat(a, b))
    ensures StandsAt(s, i, a) && StandsAt(s, i + |a|, b)
  {
    assert s[i..i + |a|] == s[i..i + |a + b|][..|a|];
    assert s[i + |a|..i + |a| + |b|] == s[i..i + |a + b|][|a|..];
  }

  lemma CharAt(s: string, i: nat, t: string, k: nat)
    requires StandsAt(s, i, t) && k < |t|
    ensures At(s, i + k) == t[k]
  {
    assert s[i..i + |t|][k] == s[i + k];
  }

  /** A run ends where its printed characters end. */
  lemma SpanIs(s: string, i: nat, t: string, p: char -> bool)
    requires StandsAt(s, i, t) && forall k :: 0 <= k < |t| ==> p(t[k])
    requires i + |t| < |s| ==> !p(s[i + |t|])
    ensures Span(s, i, p) == i + |t|
    decreases |t|
  {
    if t != "" {
      CharAt(s, i, t, 0);
      assert t == Cat(t[..1], t[1..]);
      Parts(s, i, t[..1], t[1..]);
      SpanIs(s, i + 1, t[1..], p);
    }
  }

  lemma PadIs(s: string, i: nat, pad: string)
    requires StandsAt(s, i, pad) && Blank(pad) && !IsBlank(At(s, i + |pad|))
    ensures SkipBlank(s, i) == i + |pad|
  {
    SpanIs(s, i, pad, IsBlank);
  }

  // ---------------------------------------------------------------- terms

  /** Where a term stands, it starts with a digit or a dollar and an identifier. */
  lemma TermStarts(s: string, i: nat, t: Node, pad: string)
    requires IsTerm(t) && StandsAt(s, i, Print(t, pad))
    ensures |Print(t, pad)| > 0 && i < |s|
    ensures t.Number? ==> IsDigit(At(s, i))
    ensures !t.Number? ==> |Print(t, pad)| > 1 && At(s, i) == '$' && IsIdentifier(At(s, i + 1))
  {
    match t {
      case Text(_) =>
      case Number(v) => CharAt(s, i, Print(t, pad), 0);
      case Arg =>
        CharAt(s, i, "$1", 0);
        CharAt(s, i, "$1", 1);
      case Func(name, args) =>
        hide Cat, StandsAt;
        var n := NameOf(name);
        Parts(s, i, "$", Cat(n, Cat("(", Cat(pad, Inside(args, pad)))));
        CharAt(s, i, "$", 0);
        Parts(s, i + 1, n, Cat("(", Cat(pad, Inside(args, pad))));
        CharAt(s, i + 1, n, 0);
    }
  }

  /** The character after a term leaves it alone. */
  predicate Closed(t: Node, after: char) {
    && (t.Number? ==> !IsDigit(after))
    && (t.Arg? ==> Ends(after))
  }

  lemma AtoiOf(digits: string)
    requires AllDigits(digits) && ValueOf(digits) <= INT_MAX
    ensures Atoi(digits) == ValueOf(digits)
  {
  }

  lemma NumberIsRead(s: string, i: nat, v: nat)
    requires v <= INT_MAX && StandsAt(s, i, Decimal(v)) && !IsDigit(At(s, i + |Decimal(v)|))
    ensures Param(s, i) == Parse(Some(Number(v)), i + |Decimal(v)|)
  {
    hide Decimal, Atoi, ValueOf;
    CharAt(s, i, Decimal(v), 0);
    SpanIs(s, i, Decimal(v), IsDigit);
    AtoiOf(Decimal(v));
  }

  lemma ArgIsRead(s: string, i: nat)
    requires StandsAt(s, i, "$1") && Ends(At(s, i + 2))
    ensures VarFunc(s, i) == Parse(Some(Arg), i + 2) && !VarDrops(s, i)
  {
    assert "$1" == Cat("$", "1");
    Parts(s, i, "$", "1");
    CharAt(s, i, "$1", 0);
    CharAt(s, i, "$1", 1);
    SpanIs(s, i + 1, "", IsBlank);
    SpanIs(s, i + 1, "1", IsIdentifier);
    assert "1"[..0] == "" && ValueOf("1") == 1;
  }

  /** The start of a call, up to its arguments. */
  lemma NameIsRead(s: string, i: nat, name: Name, rest: string)
    requires StandsAt(s, i, Opening(name, rest))
    ensures var j := i + |NameOf(name)| + 2;
            && StandsAt(s, j, rest) && VarFunc(s, i) == Call(s, j, Some(name), false)
            && At(s, i) == '$' && HeadOf(s, i).next == j - 1 && At(s, j - 1) == '('
  {
    var n := NameOf(name);
    hide Cat, Call;
    Parts(s, i, "$", Cat(n, Cat("(", rest)));
    Parts(s, i + 1, n, Cat("(", rest));
    Parts(s, i + 1 + |n|, "(", rest);
    CharAt(s, i, "$", 0);
    CharAt(s, i + 1, n, 0);
    CharAt(s, i + 1 + |n|, "(", 0);
    SpanIs(s, i + 1, "", IsBlank);
    SpanIs(s, i + 1, n, IsIdentifier);
  }

  /** A printed term is read back, whatever follows that leaves it alone. */
  lemma {:induction false} TermIsRead(s: string, i: nat, t: Node, pad: string)
    requires IsTerm(t) && Blank(pad) && StandsAt(s, i, Print(t, pad)) && Closed(t, At(s, i + |Print(t, pad)|))
    ensures Param(s, i) == Parse(Some(t), i + |Print(t, pad)|)
    ensures !t.Number? ==> VarFunc(s, i) == Parse(Some(t), i + |Print(t, pad)|) && !VarDrops(s, i)
    decreases |s| - i, 8
  {
    TermStarts(s, i, t, pad);
    match t {
      case Text(_) =>
      case Number(v) => NumberIsRead(s, i, v);
      case Arg => ArgIsRead(s, i);
      case Func(name, args) => CallIsRead(s, i, t, pad);
    }
  }

  lemma CallEnds(s: string, j: nat, name: Name, args: seq<Node>, k: nat, m: nat)
    requires j <= |s| && SkipBlank(s, j) == k
    requires Args(s, k).0 == args && Args(s, k).1 == m && At(s, m) == ')'
    ensures Call(s, j, Some(name), false) == Parse(Some(Func(name, args)), m + 1)
  {
  }

  lemma CallText(t: Node, pad: string)
    requires t.Func?
    ensures Print(t, pad) == Opening(t.name, Cat(pad, Inside(t.args, pad)))
  {
    hide Cat, NameOf, Inside, Opening;
  }

  /** A call up to its parenthesis. */
  lemma CallStarts(s: string, i: nat, t: Node, pad: string)
    requires t.Func? && StandsAt(s, i, Print(t, pad))
    ensures var j := i + |NameOf(t.name)| + 2;
            && StandsAt(s, j, Cat(pad, Inside(t.args, pad)))
            && i + |Print(t, pad)| == j + |pad| + |Inside(t.args, pad)|
            && VarFunc(s, i) == Call(s, j, Some(t.name), false)
            && j <= |s| && VarDrops(s, i) == ArgsDrop(s, SkipBlank(s, j))
  {
    hide Cat, Opening, Inside, StandsAt, NameOf, VarFunc, Call, Print, VarDrops, ArgsDrop, SkipBlank, HeadOf;
    CallText(t, pad);
    NameIsRead(s, i, t.name, Cat(pad, Inside(t.args, pad)));
    DropsInCall(s, i);
  }

  lemma {:induction false} CallIsRead(s: string, i: nat, t: Node, pad: string)
    requires t.Func? && IsTerm(t) && Blank(pad) && StandsAt(s, i, Print(t, pad))
    ensures VarFunc(s, i) == Parse(Some(t), i + |Print(t, pad)|) && !VarDrops(s, i)
    decreases |s| - i, 7
  {
    var j := i + |NameOf(t.name)| + 2;
    assert Terms(t.args) && t == Func(t.name, t.args);
    hide Cat, Print, Inside, StandsAt, SkipBlank, Args, NameOf, VarFunc, Call, IsTerm, Terms, Blank, At, VarDrops;
    hide ArgsDrop;
    CallStarts(s, i, t, pad);
    RestIsRead(s, j, t.name, t.args, pad);
  }

  /** A call from its parenthesis on. */
  lemma {:induction false} RestIsRead(s: string, j: nat, name: Name, args: seq<Node>, pad: string)
    requires Terms(args) && Blank(pad) && StandsAt(s, j, Cat(pad, Inside(args, pad)))
    ensures Call(s, j, Some(name), false) == Parse(Some(Func(name, args)), j + |pad| + |Inside(args, pad)|)
    ensures !ArgsDrop(s, SkipBlank(s, j))
    decreases |s| - j, 11
  {
    var k, inside := j + |pad|, Inside(args, pad);
    hide Cat, Print, Inside, StandsAt, SkipBlank, Args, Call, IsTerm, Terms, Blank, At, ArgsDrop;
    Parts(s, j, pad, inside);
    InsideStarts(s, k, args, pad);
    PadIs(s, j, pad);
    ArgsAreRead(s, k, args, pad);
    CallEnds(s, j, name, args, k, k + |inside| - 1);
  }

  /** Inside the parentheses comes a term or the end of the call. */
  lemma InsideStarts(s: string, i: nat, args: seq<Node>, pad: string)
    requires Terms(args) && StandsAt(s, i, Inside(args, pad))
    ensures i < |s| && !IsBlank(At(s, i)) && |Inside(args, pad)| > 0
  {
    if args == [] {
      CharAt(s, i, ")", 0);
    } else {
      var text := Print(args[0], pad);
      assert IsTerm(args[0]);
      hide Cat, StandsAt, Print, IsTerm;
      if |args| == 1 {
        Parts(s, i, text, Cat(pad, ")"));
      } else {
        Parts(s, i, text, Cat(pad, Cat(",", Cat(pad, Inside(args[1..], pad)))));
      }
      TermStarts(s, i, args[0], pad);
    }
  }

  lemma NoParam(s: string, i: nat)
    requires i <= |s| && At(s, i) == ')'
    ensures Param(s, i) == Parse(None, i)
  {
  }

  lemma TermsTail(args: seq<Node>)
    requires Terms(args) && args != []
    ensures IsTerm(args[0]) && Terms(args[1..])
    ensures args == Cons(args[0], args[1..]) && (|args| == 1 ==> args == [args[0]])
  {
  }

  /** The printed arguments of a call are read, up to its end. */
  lemma {:induction false} ArgsAreRead(s: string, i: nat, args: seq<Node>, pad: string)
    requires Terms(args) && Blank(pad) && StandsAt(s, i, Inside(args, pad))
    ensures i <= |s| && Args(s, i).0 == args && Args(s, i).1 + 1 == i + |Inside(args, pad)|
    ensures At(s, Args(s, i).1) == ')' && !ArgsDrop(s, i)
    decreases |s| - i, 10
  {
    hide Cat, Cons, Args, Param, SkipBlank, StandsAt, IsTerm, Terms, Blank, Print, At, ArgsDrop, ArgDrops;
    if args == [] {
      CharAt(s, i, ")", 0);
      NoParam(s, i);
      NoArgs(s, i);
      DropsHere(s, i);
    } else {
      var a := args[0];
      var i1 := i + |Print(a, pad)|;
      var m := i1 + |pad|;
      TermsTail(args);
      DropsHere(s, i);
      if |args| == 1 {
        ArgumentIsRead(s, i, a, pad, ")");
        OneMoreArg(s, i, a, i1, m);
      } else {
        var rest := Inside(args[1..], pad);
        ArgumentIsRead(s, i, a, pad, Cat(",", Cat(pad, rest)));
        OneMoreArg(s, i, a, i1, m);
        Parts(s, m, ",", Cat(pad, rest));
        Parts(s, m + 1, pad, rest);
        InsideStarts(s, m + 1 + |pad|, args[1..], pad);
        PadIs(s, m + 1, pad);
        ArgsAreRead(s, m + 1 + |pad|, args[1..], pad);
      }
    }
  }

  /** One argument, up to what comes after it. */
  lemma {:induction false} ArgumentIsRead(s: string, i: nat, a: Node, pad: string, rest: string)
    requires IsTerm(a) && Blank(pad) && StandsAt(s, i, Cat(Print(a, pad), Cat(pad, rest)))
    requires rest == ")" || exists more :: rest == Cat(",", more)
    ensures var m := i + |Print(a, pad)| + |pad|;
            && i < |s| && Param(s, i) == Parse(Some(a), m - |pad|) && m < |s| && SkipBlank(s, m - |pad|) == m
            && StandsAt(s, m, rest) && At(s, m) == (if rest == ")" then ')' else ',') && !ArgDrops(s, i)
    decreases |s| - i, 9
  {
    hide Cat, Param, Print, IsTerm, StandsAt, SkipBlank, At, VarFunc, VarDrops;
    var text := Print(a, pad);
    var i1 := i + |text|;
    Parts(s, i, text, Cat(pad, rest));
    Parts(s, i1, pad, rest);
    if rest == ")" {
      CharAt(s, i1 + |pad|, rest, 0);
    } else {
      var more :| rest == Cat(",", more);
      Parts(s, i1 + |pad|, ",", more);
      CharAt(s, i1 + |pad|, ",", 0);
    }
    PadIs(s, i1, pad);
    if pad != "" {
      CharAt(s, i1, pad, 0);
    }
    TermStarts(s, i, a, pad);
    TermIsRead(s, i, a, pad);
  }

  // ---------------------------------------------------------------- whole scripts

  /** Plain text ends where the input ends, or where a term begins. */
  lemma {:induction false} TextIsRead(s: string, i: nat, text: string)
    requires StandsAt(s, i, text) && NoDollar(text)
    requires var e := i + |text|; e == |s| || (At(s, e) == '$' && IsIdentifier(At(s, e + 1)))
    ensures ConstEnd(s, i, false) == i + |text|
    decreases |text|
  {
    if text != "" {
      CharAt(s, i, text, 0);
      assert text == Cat(text[..1], text[1..]);
      Parts(s, i, text[..1], text[1..]);
      TextIsRead(s, i + 1, text[1..]);
    }
  }

  /** The rest of the input is this script. */
  predicate Remains(s: string, e: nat, rest: seq<Node>, pad: string) {
    StandsAt(s, e, PrintAll(rest, pad)) && e + |PrintAll(rest, pad)| == |s|
  }

  /** The piece may stand before these. */
  predicate MayPrecede(t: Node, rest: seq<Node>) {
    rest != [] && rest[0].Text? ==> !t.Text? && (t.Arg? ==> Ends(At(rest[0].str, 0)))
  }

  /** Text ends where a plain text must, and a term where it is left alone. */
  predicate EndsWell(s: string, t: Node, e: nat) {
    if t.Text? then e == |s| || (At(s, e) == '$' && IsIdentifier(At(s, e + 1))) else Closed(t, At(s, e))
  }

  /** The next piece of the script leaves a piece before it alone. */
  lemma NextChar(s: string, t: Node, e: nat, rest: seq<Node>, pad: string)
    requires IsScript(rest) && Remains(s, e, rest, pad) && MayPrecede(t, rest) && !t.Number?
    ensures EndsWell(s, t, e)
  {
    if rest != [] {
      assert IsText(rest[0]) || (IsTerm(rest[0]) && !rest[0].Number?);
      hide Cat, StandsAt, IsScript;
      Parts(s, e, Print(rest[0], pad), PrintAll(rest[1..], pad));
      if rest[0].Text? {
        CharAt(s, e, rest[0].str, 0);
      } else {
        TermStarts(s, e, rest[0], pad);
      }
    }
  }

  lemma ScriptTail(pieces: seq<Node>)
    requires IsScript(pieces) && pieces != []
    ensures IsScript(pieces[1..]) && pieces == Cons(pieces[0], pieces[1..])
    ensures IsText(pieces[0]) || (IsTerm(pieces[0]) && !pieces[0].Number?)
    ensures MayPrecede(pieces[0], pieces[1..])
  {
  }

  /** The piece at the cursor is read: the cursor moves behind it. */
  ghost predicate ReadsPiece(s: string, i: nat, t: Node, e: nat) {
    && i < e <= |s| && Pieces(s, i).0 == Cons(t, Pieces(s, e).0) && Pieces(s, i).1 == Pieces(s, e).1
    && LastStop(s, i) == LastStop(s, e) && PiecesDrop(s, i) == PiecesDrop(s, e)
  }

  lemma TextPiece(s: string, i: nat, t: Node)
    requires IsText(t) && StandsAt(s, i, t.str) && EndsWell(s, t, i + |t.str|)
    ensures ReadsPiece(s, i, t, i + |t.str|)
  {
    assert s[i..i + |t.str|] == t.str;
    hide StandsAt, NoDollar, ConstEnd, Cons, At, LastStop, PiecesDrop;
    TextIsRead(s, i, t.str);
    OneMoreText(s, i);
    PiecesStep(s, i);
  }

  /** Where a term stands, no text does. */
  lemma NoTextAt(s: string, i: nat, t: Node, pad: string)
    requires IsTerm(t) && !t.Number? && StandsAt(s, i, Print(t, pad))
    ensures i < |s| && ConstEnd(s, i, false) == i
  {
    TermStarts(s, i, t, pad);
  }

  lemma ReadsTerm(s: string, i: nat, t: Node, e: nat)
    requires i <= |s| && ConstEnd(s, i, false) == i && VarFunc(s, i) == Parse(Some(t), e) && !VarDrops(s, i)
    ensures ReadsPiece(s, i, t, e)
  {
    hide Cons, LastStop, PiecesDrop, VarDrops;
    OneMoreTerm(s, i);
    PiecesStep(s, i);
  }

  lemma TermPiece(s: string, i: nat, t: Node, pad: string)
    requires IsTerm(t) && !t.Number? && Blank(pad) && StandsAt(s, i, Print(t, pad))
    requires EndsWell(s, t, i + |Print(t, pad)|)
    ensures ReadsPiece(s, i, t, i + |Print(t, pad)|)
  {
    assert !t.Text?;
    hide StandsAt, IsTerm, Print, VarFunc, Param, ConstEnd, Closed, Blank, At, ReadsPiece, VarDrops;
    NoTextAt(s, i, t, pad);
    TermIsRead(s, i, t, pad);
    ReadsTerm(s, i, t, i + |Print(t, pad)|);
  }

  lemma RemainsTail(s: string, i: nat, pieces: seq<Node>, pad: string)
    requires pieces != [] && Remains(s, i, pieces, pad)
    ensures var e := i + |Print(pieces[0], pad)|;
            e <= |s| && StandsAt(s, i, Print(pieces[0], pad)) && Remains(s, e, pieces[1..], pad)
  {
    hide Cat, StandsAt;
    Parts(s, i, Print(pieces[0], pad), PrintAll(pieces[1..], pad));
  }

  /** A piece is read, and what remains is the rest of the script. */
  lemma FirstIsRead(s: string, i: nat, t: Node, rest: seq<Node>, pad: string)
    requires (IsText(t) || (IsTerm(t) && !t.Number?)) && MayPrecede(t, rest) && IsScript(rest) && Blank(pad)
    requires StandsAt(s, i, Print(t, pad)) && Remains(s, i + |Print(t, pad)|, rest, pad)
    ensures ReadsPiece(s, i, t, i + |Print(t, pad)|)
  {
    assert t.Text? ==> Print(t, pad) == t.str && IsText(t);
    assert !t.Text? ==> IsTerm(t) && !t.Number?;
    hide StandsAt, IsScript, ReadsPiece, IsTerm, IsText, Remains, Blank, EndsWell, MayPrecede, Print;
    NextChar(s, t, i + |Print(t, pad)|, rest, pad);
    if t.Text? {
      TextPiece(s, i, t);
    } else {
      TermPiece(s, i, t, pad);
    }
  }

  /** A printed script is read to its end. */
  lemma {:induction false} PiecesAreRead(s: string, i: nat, pieces: seq<Node>, pad: string)
    requires IsScript(pieces) && Blank(pad) && Remains(s, i, pieces, pad)
    ensures i <= |s| && Pieces(s, i).0 == pieces && Pieces(s, i).1 == |s| && LastStop(s, i) == |s| && !PiecesDrop(s, i)
    decreases |pieces|
  {
    hide IsScript, IsTerm, IsText, Print, Cons, Blank, MayPrecede, StandsAt;
    if pieces == [] {
      assert i == |s|;
    } else {
      hide LastStop, PiecesDrop, Remains, Pieces;
      ScriptTail(pieces);
      RemainsTail(s, i, pieces, pad);
      FirstIsRead(s, i, pieces[0], pieces[1..], pad);
      PiecesAreRead(s, i + |Print(pieces[0], pad)|, pieces[1..], pad);
    }
  }

  /** Compiling a printed script rebuilds it, whatever blank space the printer leaves. */
  lemma CompilePrinted(pieces: seq<Node>, pad: string)
    requires IsScript(pieces) && pieces != [] && Blank(pad)
    ensures Compiles(PrintAll(pieces, pad)) && Pieces(PrintAll(pieces, pad), 0).0 == pieces
  {
    var s := PrintAll(pieces, pad);
    assert s[0..|s|] == s;
    PiecesAreRead(s, 0, pieces, pad);
    assert Pieces("", 0).0 == [];
  }

  /** What is printed is one of the layouts that derive the pieces. */
  lemma PrintedDerives(pieces: seq<Node>, pad: string)
    requires IsScript(pieces) && Blank(pad)
    ensures Derives(pieces, PrintAll(pieces, pad))
  {
    var s := PrintAll(pieces, pad);
    assert s[0..|s|] == s;
    PiecesAreRead(s, 0, pieces, pad);
    ScriptSound(s, 0);
  }

  /** In particular, a term that dollar-free text may precede. */
  lemma CompileTerm(text: string, t: Node)
    requires IsTerm(t) && !t.Number? && NoDollar(text)
    ensures Compiles(text + Print(t, ""))
    ensures Pieces(text + Print(t, ""), 0).0 == (if text == "" then [] else [Text(text)]) + [t]
  {
    var pieces := (if text == "" then [] else [Text(text)]) + [t];
    assert PrintAll([t], "") == Print(t, "");
    if text != "" {
      assert pieces[1..] == [t];
    }
    assert PrintAll(pieces, "") == text + Print(t, "");
    CompilePrinted(pieces, "");
  }
}
