/** The formatter: it compiles a script by moving a cursor over it. */
module Formatter {
  import opened Bytes
  import opened Script

  class ZFormatter {
    var input: string
    var inputIdx: nat
    var funcList: seq<Node>

    ghost predicate Valid()
      reads this
    {
      inputIdx <= |input|
    }

    constructor ()
      ensures Valid() && funcList == []
    {
      input, inputIdx, funcList := "", 0, [];
    }

    method Compile(script: string) returns (ok: bool)
      requires Valid()
      modifies this
      ensures Valid() && ok == Compiles(script)
      ensures script != "" ==> input == script && inputIdx == Pieces(script, 0).1
      ensures funcList == old(funcList) + if script == "" then [] else Pieces(script, 0).0
    {
      if script == "" {
        return false;
      }
      input := script;
      inputIdx := 0;
      hide Pieces, VarFunc, ConstEnd, Cons, Join;
      var more := true;
      ghost var done: seq<Node> := [];
      JoinCons([], Arg, Pieces(script, 0).0);
      while more
        invariant Valid() && input == script && funcList == old(funcList) + done
        invariant more ==> Pieces(script, 0).0 == Join(done, Pieces(script, inputIdx).0)
        invariant more ==> Pieces(script, 0).1 == Pieces(script, inputIdx).1
        invariant !more ==> Pieces(script, 0).0 == done && Pieces(script, 0).1 == inputIdx
        decreases more, |input| - inputIdx
      {
        ghost var i := inputIdx;
        OneMoreText(script, i);
        if ConstEnd(script, i, false) == i {
          OneMoreTerm(script, i);
        }
        var func := ConstStr();
        if func == None {
          func := ParseVarFunc();
        }
        JoinCons(done, if func.Some? then func.value else Arg, Pieces(script, inputIdx).0);
        if func.Some? {
          assert Pieces(script, i).0 == Cons(func.value, Pieces(script, inputIdx).0);
          funcList := funcList + [func.value];
          done := done + [func.value];
        }
        more := func.Some?;
      }
      ok := inputIdx == |input|;
    }

    /** Plain text, up to the dollar that starts a term. */
    method ConstStr() returns (func: Option<Node>)
      requires Valid()
      modifies this`inputIdx
      ensures Valid() && inputIdx == ConstEnd(input, old(inputIdx), false)
      ensures func == if inputIdx == old(inputIdx) then None else Some(Text(input[old(inputIdx)..inputIdx]))
    {
      var start, end, hasDollar := inputIdx, inputIdx, false;
      while end < |input|
        invariant start <= end <= |input| && (hasDollar ==> start < end)
        invariant ConstEnd(input, start, false) == ConstEnd(input, end, hasDollar)
      {
        var c := input[end];
        if c == '$' {
          end := end + 1;
          hasDollar := true;
        } else if c == '{' || IsIdentifier(c) {
          if hasDollar {
            end := end - 1;
            break;
          } else {
            end := end + 1;
          }
          hasDollar := false;
        } else {
          end := end + 1;
        }
      }
      if end == start {
        return None;
      }
      inputIdx := inputIdx + (end - start);
      return Some(Text(input[start..end]));
    }

    method SkipBlanks()
      requires Valid()
      modifies this`inputIdx
      ensures Valid() && inputIdx == SkipBlank(input, old(inputIdx))
    {
      ghost var start := inputIdx;
      while inputIdx < |input| && IsBlank(input[inputIdx])
        invariant Valid() && SkipBlank(input, start) == SkipBlank(input, inputIdx)
        decreases |input| - inputIdx
      {
        inputIdx := inputIdx + 1;
      }
    }

    method ParseName() returns (name: string)
      requires Valid()
      modifies this`inputIdx
      ensures Valid() && old(inputIdx) <= inputIdx == Span(input, old(inputIdx), IsIdentifier)
      ensures name == input[old(inputIdx)..inputIdx]
    {
      var start, end := inputIdx, inputIdx;
      while end < |input| && IsIdentifier(input[end])
        invariant start <= end <= |input| && Span(input, start, IsIdentifier) == Span(input, end, IsIdentifier)
      {
        end := end + 1;
      }
      inputIdx := end;
      name := input[start..end];
    }

    /** A call or the argument: a dollar, perhaps a brace, a name, and perhaps arguments. */
    method ParseVarFunc() returns (func: Option<Node>)
      requires Valid()
      modifies this`inputIdx
      ensures Valid() && VarFunc(input, old(inputIdx)) == Parse(func, inputIdx)
      decreases |input| - inputIdx, 0
    {
      hide Span, SkipBlank, Call, Atoi;
      if At(input, inputIdx) != '$' {
        return None;
      }
      inputIdx := inputIdx + 1;
      var braces := At(input, inputIdx) == '{';
      if braces {
        inputIdx := inputIdx + 1;
      }
      SkipBlanks();
      var name := ParseName();
      if braces {
        SkipBlanks();
      }
      if At(input, inputIdx) == '(' {
        inputIdx := inputIdx + 1;
        func := ParseCall(FuncByName(name), braces);
      } else {
        if !AllDigits(name) {
          return None;
        }
        if Atoi(name) != 1 {
          return None;
        }
        return Some(Arg);
      }
    }

    lemma CommaAt(i: nat)
      requires i <= |input| && At(input, i) == ','
      ensures i < |input| && SkipBlank(input, i) == i
    {
    }

    /** The rest of a call: its arguments as far as they go, and its end. */
    method ParseCall(name: Option<Name>, braces: bool) returns (func: Option<Node>)
      requires Valid()
      modifies this`inputIdx
      ensures Valid() && Call(input, old(inputIdx), name, braces) == Parse(func, inputIdx)
      decreases |input| - inputIdx, 3
    {
      SkipBlanks();
      if name == None {
        return None;
      }
      hide Args;
      var args := ParseArgs();
      if At(input, inputIdx) != ')' {
        return None;
      }
      inputIdx := inputIdx + 1;
      if braces {
        SkipBlanks();
        if At(input, inputIdx) != '}' {
          return None;
        }
        inputIdx := inputIdx + 1;
      }
      return Some(Func(name.value, args));
    }

    /** Arguments, as long as one can be read and a comma follows. */
    method ParseArgs() returns (args: seq<Node>)
      requires Valid()
      modifies this`inputIdx
      ensures Valid() && args == Args(input, old(inputIdx)).0 && inputIdx == Args(input, old(inputIdx)).1
      decreases |input| - inputIdx, 2
    {
      hide Args, Param, SkipBlank, Cons, Join, At;
      args := [];
      ghost var k := inputIdx;
      JoinCons([], Arg, Args(input, k).0);
      while true
        invariant Valid() && k <= inputIdx
        invariant Args(input, k).0 == Join(args, Args(input, inputIdx).0) && Args(input, k).1 == Args(input, inputIdx).1
        decreases |input| - inputIdx
      {
        ghost var i, was := inputIdx, args;
        var pa := ParseParam();
        if pa == None {
          NoArgs(input, i);
          JoinCons(args, Arg, []);
          break;
        }
        args := args + [pa.value];
        ghost var i1 := inputIdx;
        SkipBlanks();
        OneMoreArg(input, i, pa.value, i1, inputIdx);
        if At(input, inputIdx) != ',' {
          JoinCons(was, pa.value, []);
          break;
        }
        CommaAt(inputIdx);
        SkipBlanks();
        inputIdx := inputIdx + 1;
        SkipBlanks();
        JoinCons(was, pa.value, Args(input, inputIdx).0);
      }
    }

    method ParseParam() returns (func: Option<Node>)
      requires Valid()
      modifies this`inputIdx
      ensures Valid() && Param(input, old(inputIdx)) == Parse(func, inputIdx)
      decreases |input| - inputIdx, 1
    {
      var c := At(input, inputIdx);
      if c == '"' {
        func := ParseQuoteStr();
      } else if IsDigit(c) {
        func := ParseConstNumber();
      } else if c == '$' {
        func := ParseVarFunc();
      } else {
        return None;
      }
    }

    method ParseQuoteStr() returns (func: Option<Node>)
      requires Valid() && At(input, inputIdx) == '"'
      modifies this`inputIdx
      ensures Valid() && QuoteStr(input, old(inputIdx)) == Parse(func, inputIdx)
    {
      inputIdx := inputIdx + 1;
      var start, end := inputIdx, inputIdx;
      while end < |input| && input[end] != '"'
        invariant start <= end <= |input| && Span(input, start, IsNoQuote) == Span(input, end, IsNoQuote)
      {
        end := end + 1;
      }
      if At(input, end) != '"' {
        return None;
      }
      inputIdx := end;
      return Some(Text(input[start..end]));
    }

    method ParseConstNumber() returns (func: Option<Node>)
      requires inputIdx < |input| && IsDigit(input[inputIdx])
      modifies this`inputIdx
      ensures Valid() && ConstNumber(input, old(inputIdx)) == Parse(func, inputIdx)
    {
      var start, end := inputIdx, inputIdx;
      while end < |input| && IsDigit(input[end])
        invariant start <= end <= |input| && Span(input, start, IsDigit) == Span(input, end, IsDigit)
        invariant forall k :: start <= k < end ==> IsDigit(input[k])
      {
        end := end + 1;
      }
      inputIdx := end;
      return Some(Number(Atoi(input[start..end])));
    }
  }
}
