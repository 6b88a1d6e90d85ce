/** Reading lines from an evbuffer. */
module EvLines {
  import opened Bytes
  import opened EvChain
  import opened EvQueue
  import opened EvSearch

  const CR: byte := 13
  const LF: byte := 10
  const CHUNK_SZ := 128

  datatype EolStyle = Any | Crlf | CrlfStrict | Lf

  predicate IsEolChar(c: byte) {
    c == CR || c == LF
  }

  /** How many CR and LF bytes stand in a row from position `i` on. */
  function RunLength(s: seq<byte>, i: nat): (n: nat)
    ensures i <= |s| ==> i + n <= |s|
    ensures forall j :: i <= j < i + n && j < |s| ==> IsEolChar(s[j])
    ensures i + n < |s| ==> !IsEolChar(s[i + n])
    decreases |s| - i
  {
    if i < |s| && IsEolChar(s[i]) then 1 + RunLength(s, i + 1) else 0
  }

  /** The length of the line terminator that begins at position `i`, or 0 if none does. */
  function EolLength(s: seq<byte>, i: nat, style: EolStyle): nat {
    match style
    case Any => RunLength(s, i)
    case CrlfStrict => if Occurs(s, [CR, LF], i) then 2 else 0
    case Crlf => if i < |s| && s[i] == LF then 1 else if Occurs(s, [CR, LF], i) then 2 else 0
    case Lf => if i < |s| && s[i] == LF then 1 else 0
  }

  /** Nothing from `from` up to `to` begins a terminator. */
  ghost predicate NoEol(s: seq<byte>, from: int, to: int, style: EolStyle) {
    forall i :: 0 <= i && from <= i < to ==> EolLength(s, i, style) == 0
  }

  /** `find_eol_char`: the first CR or LF, looked for in pieces of 128 bytes. */
  method FindEolChar(s: seq<byte>) returns (r: Option<nat>)
    ensures r == None ==> forall i :: 0 <= i < |s| ==> !IsEolChar(s[i])
    ensures r.Some? ==> r.value < |s| && IsEolChar(s[r.value]) && forall i :: 0 <= i < r.value ==> !IsEolChar(s[i])
  {
    var at := 0;
    while at < |s|
      invariant 0 <= at
      invariant forall i :: 0 <= i < at && i < |s| ==> !IsEolChar(s[i])
      decreases |s| - at
    {
      var chunk := if at + CHUNK_SZ < |s| then CHUNK_SZ else |s| - at;
      var cr := Memchr(s[..at + chunk], at, CR);
      var lf := Memchr(s[..at + chunk], at, LF);
      if cr.Some? {
        if lf.Some? && lf.value < cr.value {
          return lf;
        }
        return cr;
      } else if lf.Some? {
        return lf;
      }
      at := at + CHUNK_SZ;
    }
    return None;
  }

  /** `q` is the first place at or behind `p` whose byte is wanted, or there is none. */
  ghost predicate FirstPlace(b: EvBuffer, p: Ptr, wanted: byte -> bool, found: bool, q: Ptr)
    reads b
  {
    var s := b.Contents();
    if found then
      && Designates(b.spans, q) && q.chain < |b.spans| && q.inChain < |b.spans[q.chain].data|
      && 0 <= p.pos <= q.pos < |s| && wanted(s[q.pos])
      && forall i :: p.pos <= i < q.pos ==> !wanted(s[i])
    else
      forall i :: 0 <= i && p.pos <= i < |s| ==> !wanted(s[i])
  }

  /** What one chunk says about the byte string. */
  lemma Scanned(spans: seq<Span>, p: Ptr, n: nat, wanted: byte -> bool)
    requires Designates(spans, p) && p.chain < |spans| && p.inChain + n <= |spans[p.chain].data|
    requires forall i :: p.inChain <= i < p.inChain + n ==> !wanted(spans[p.chain].data[i])
    ensures 0 <= p.pos && p.pos + n <= |Flatten(spans)|
    ensures forall i :: p.pos <= i < p.pos + n ==> !wanted(Flatten(spans)[i])
  {
    StretchFrom(spans, p, n);
    var s, d := Flatten(spans), spans[p.chain].data;
    forall i | p.pos <= i < p.pos + n
      ensures !wanted(s[i])
    {
      assert s[i] == s[p.pos..p.pos + n][i - p.pos] == d[p.inChain..p.inChain + n][i - p.pos];
    }
  }

  lemma ByteAt(spans: seq<Span>, p: Ptr)
    requires Designates(spans, p) && p.chain < |spans| && p.inChain < |spans[p.chain].data|
    ensures 0 <= p.pos < |Flatten(spans)| && Flatten(spans)[p.pos] == spans[p.chain].data[p.inChain]
  {
    StretchFrom(spans, p, 1);
    assert Flatten(spans)[p.pos..p.pos + 1][0] == Flatten(spans)[p.pos];
  }

  /** Nothing wanted stands from `p` up to `q`. */
  ghost predicate NoneUpTo(spans: seq<Span>, p: Ptr, q: Ptr, wanted: byte -> bool) {
    && Designates(spans, q) && p.pos <= q.pos
    && forall i :: 0 <= i && p.pos <= i < q.pos && i < |Flatten(spans)| ==> !wanted(Flatten(spans)[i])
  }

  function InChunk(spans: seq<Span>, q: Ptr): nat {
    if q.chain < |spans| then |spans[q.chain].data| else 0
  }

  lemma NoneInChunk(spans: seq<Span>, p: Ptr, q: Ptr, n: nat, wanted: byte -> bool)
    requires NoneUpTo(spans, p, q, wanted) && q.chain < |spans| && q.inChain + n <= |spans[q.chain].data|
    requires forall i :: 0 <= i < n ==> !wanted(spans[q.chain].data[q.inChain..][i])
    ensures n == |spans[q.chain].data| - q.inChain ==> NoneUpTo(spans, p, Ptr(q.pos + n, q.chain + 1, 0), wanted)
    ensures n < |spans[q.chain].data| - q.inChain ==> NoneUpTo(spans, p, Ptr(q.pos + n, q.chain, q.inChain + n), wanted)
  {
    hide Flatten;
    var d := spans[q.chain].data;
    assert forall i :: q.inChain <= i < q.inChain + n ==> d[i] == d[q.inChain..][i - q.inChain];
    NextChain(spans, q);
    Scanned(spans, q, n, wanted);
  }

  lemma NoneYet(spans: seq<Span>, p: Ptr, wanted: byte -> bool)
    requires Designates(spans, p)
    ensures NoneUpTo(spans, p, p, wanted) && p.chain <= |spans| && p.inChain <= InChunk(spans, p)
  {
  }

  /** The wanted byte stands here, or the end has come. */
  lemma Decided(spans: seq<Span>, p: Ptr, q: Ptr, wanted: byte -> bool)
    requires Designates(spans, p) && NoneUpTo(spans, p, q, wanted)
    ensures var s := Flatten(spans);
            if q.chain == |spans| then forall i :: 0 <= i && p.pos <= i < |s| ==> !wanted(s[i])
            else q.inChain < |spans[q.chain].data| && wanted(spans[q.chain].data[q.inChain]) ==>
                   && Designates(spans, q) && 0 <= p.pos <= q.pos < |s| && wanted(s[q.pos])
                   && forall i :: p.pos <= i < q.pos ==> !wanted(s[i])
  {
    hide Flatten;
    if q.chain == |spans| {
      AtEnd(spans, q);
    } else if q.inChain < |spans[q.chain].data| {
      ByteAt(spans, q);
      StartsInside(spans, p);
    }
  }

  lemma StartsInside(spans: seq<Span>, p: Ptr)
    requires Designates(spans, p)
    ensures 0 <= p.pos
  {
  }

  /** The first CR or LF of one chunk, from a place in it on. */
  method FindInChunk(b: EvBuffer, k: nat, from: nat) returns (r: Option<nat>, len: nat)
    requires b.Valid() && |b.spans| == |b.chains| && k < |b.spans| && from <= |b.spans[k].data|
    ensures len == |b.spans[k].data|
    ensures r == None ==> forall i :: 0 <= i < len - from ==> !IsEolChar(b.spans[k].data[from..][i])
    ensures r.Some? ==> r.value < len - from && IsEolChar(b.spans[k].data[from + r.value])
    ensures r.Some? ==> forall i :: 0 <= i < r.value ==> !IsEolChar(b.spans[k].data[from..][i])
  {
    hide b.Shape, Flatten, Placed, IsEolChar;
    b.At(k);
    var chain := b.chains[k];
    len := chain.off;
    r := FindEolChar(chain.Front(chain.off)[from..]);
  }

  /** `evbuffer_find_eol_char` */
  method FindEol(b: EvBuffer, p: Ptr) returns (found: bool, q: Ptr)
    requires b.Valid() && Designates(b.spans, p)
    ensures FirstPlace(b, p, IsEolChar, found, q)
  {
    hide b.Shape, Flatten, Placed, IsEolChar, Designates, NoneUpTo;
    ghost var spans := b.spans;
    q := p;
    NoneYet(spans, p, IsEolChar);
    while q.chain < |b.chains|
      invariant NoneUpTo(spans, p, q, IsEolChar) && q.chain <= |spans| && q.inChain <= InChunk(spans, q)
      decreases |b.chains| - q.chain
    {
      var r, len := FindInChunk(b, q.chain, q.inChain);
      if r.Some? {
        NoneInChunk(spans, p, q, r.value, IsEolChar);
        q := Ptr(q.pos + r.value, q.chain, q.inChain + r.value);
        Decided(spans, p, q, IsEolChar);
        return true, q;
      }
      NoneInChunk(spans, p, q, len - q.inChain, IsEolChar);
      q := Ptr(q.pos + len - q.inChain, q.chain + 1, 0);
    }
    Decided(spans, p, q, IsEolChar);
    return false, q;
  }

  /** `evbuffer_strchr` */
  method Strchr(b: EvBuffer, p: Ptr, c: byte) returns (found: bool, q: Ptr)
    requires b.Valid() && Designates(b.spans, p)
    ensures FirstPlace(b, p, x => x == c, found, q)
  {
    hide b.Shape, Flatten, Placed;
    ghost var s, spans := b.Contents(), b.spans;
    q := p;
    while q.chain < |b.chains|
      invariant Designates(spans, q) && p.pos <= q.pos
      invariant forall i :: 0 <= i && p.pos <= i < q.pos && i < |s| ==> s[i] != c
      decreases |b.chains| - q.chain
    {
      var chain := b.chains[q.chain];
      b.At(q.chain);
      NextChain(spans, q);
      var r := Memchr(chain.Front(chain.off), q.inChain, c);
      if r.Some? {
        Scanned(spans, q, r.value - q.inChain, x => x == c);
        q := Ptr(q.pos + r.value - q.inChain, q.chain, r.value);
        ByteAt(spans, q);
        return true, q;
      }
      Scanned(spans, q, chain.off - q.inChain, x => x == c);
      q := Ptr(q.pos + chain.off - q.inChain, q.chain + 1, 0);
    }
    AtEnd(spans, q);
    return false, q;
  }

  /**
   * `evbuffer_strspn` with the set CR, LF: the length of the run of such bytes at a position, and the pointer moved
   * behind it. At the end of the buffer the pointer is left at the front of the last chunk, whatever its position says.
   */
  method Strspn(b: EvBuffer, p: Ptr) returns (count: int, q: Ptr)
    requires b.Valid() && Designates(b.spans, p) && (p.chain < |b.chains| ==> 0 <= p.pos)
    ensures p.chain == |b.chains| ==> count == -1 && q == p
    ensures p.chain < |b.chains| ==> count == RunLength(b.Contents(), p.pos) && q.pos == p.pos + count
    ensures p.chain < |b.chains| && q.pos < |b.Contents()| ==> Designates(b.spans, q) && q.chain < |b.chains|
    ensures p.chain < |b.chains| && q.pos == |b.Contents()| ==> q.chain == |b.chains| - 1 && q.inChain == 0
  {
    hide b.Shape, Flatten, Placed;
    if p.chain == |b.chains| {
      return -1, p;
    }
    ghost var s, spans := b.Contents(), b.spans;
    count, q := 0, p;
    while q.chain < |b.chains|
      invariant Designates(spans, q) && 0 <= q.pos && q.pos == p.pos + count && q.chain <= |b.chains|
      invariant count + RunLength(s, q.pos) == RunLength(s, p.pos)
      decreases |b.chains| - q.chain, if q.chain < |spans| then |spans[q.chain].data| - q.inChain else 0
    {
      var chain := b.chains[q.chain];
      b.At(q.chain);
      if q.inChain < chain.off {
        ByteAt(spans, q);
        if !IsEolChar(chain.Front(chain.off)[q.inChain]) {
          return;
        }
        count := count + 1;
        q := Ptr(q.pos + 1, q.chain, q.inChain + 1);
      } else {
        NextChain(spans, q);
        q := Ptr(q.pos, q.chain + 1, 0);
      }
    }
    AtEnd(spans, q);
    q := Ptr(q.pos, |b.chains| - 1, 0);
  }

  /**
   * `pos` and `len` are the place and the length of the first
   * terminator at or behind `from`; -1 and 0 if there is none.
   */
  ghost predicate IsFirstEol(s: seq<byte>, from: int, style: EolStyle, pos: int, len: nat) {
    if pos == -1 then
      len == 0 && NoEol(s, from, |s|, style)
    else
      && from <= pos && 0 <= pos < |s| && len == EolLength(s, pos, style) != 0
      && NoEol(s, from, pos, style)
  }

  /** A terminator begins with CR or LF; in the style `Lf` with LF. */
  lemma EolStarts(s: seq<byte>, style: EolStyle)
    ensures forall i :: 0 <= i < |s| && !IsEolChar(s[i]) ==> EolLength(s, i, style) == 0
    ensures style == Lf ==> forall i :: 0 <= i < |s| && s[i] != LF ==> EolLength(s, i, style) == 0
    ensures style == Any ==> forall i :: 0 <= i < |s| && IsEolChar(s[i]) ==> EolLength(s, i, style) != 0
  {
    forall i | 0 <= i < |s| && !IsEolChar(s[i])
      ensures EolLength(s, i, style) == 0
    {
      if i + 2 <= |s| {
        assert s[i..i + 2][0] == s[i];
      }
    }
  }

  /** The search of `evbuffer_search_eol` for LF or CR LF: every CR that no LF follows is passed over. */
  method SearchCrlf(b: EvBuffer, start: Ptr) returns (it: Ptr, eolLen: nat)
    requires b.Valid() && Designates(b.spans, start)
    ensures IsFirstEol(b.Contents(), start.pos, Crlf, it.pos, eolLen)
  {
    hide b.Shape, Flatten, Placed;
    ghost var s := b.Contents();
    it := start;
    EolStarts(s, Crlf);
    while true
      invariant Designates(b.spans, it) && start.pos <= it.pos
      invariant NoEol(s, start.pos, it.pos, Crlf)
      decreases |s| - it.pos
    {
      var found;
      found, it := FindEol(b, it);
      if !found {
        return NotFound(b), 0;
      }
      ByteAt(b.spans, it);
      b.At(it.chain);
      var c := b.chains[it.chain].Front(b.chains[it.chain].off)[it.inChain];
      if c == LF {
        return it, 1;
      }
      var differs := PtrMemcmp(b, it, [CR, LF]);
      CompareDecides(s, [CR, LF], it.pos);
      if differs == 0 {
        return it, 2;
      }
      var rc, next := PtrSet(b, it, 1, FromHere);
      if rc < 0 {
        return NotFound(b), 0;
      }
      it := next;
    }
  }

  lemma AnyFound(s: seq<byte>, from: int, pos: int)
    requires 0 <= from <= pos < |s| && IsEolChar(s[pos]) && forall i :: from <= i < pos ==> !IsEolChar(s[i])
    ensures IsFirstEol(s, from, Any, pos, RunLength(s, pos))
  {
    EolStarts(s, Any);
  }

  lemma AnyMissing(s: seq<byte>, from: int)
    requires forall i :: 0 <= i && from <= i < |s| ==> !IsEolChar(s[i])
    ensures IsFirstEol(s, from, Any, -1, 0)
  {
    EolStarts(s, Any);
  }

  /** The search for any run of CR and LF bytes. */
  method SearchAny(b: EvBuffer, start: Ptr) returns (it: Ptr, eolLen: nat)
    requires b.Valid() && Designates(b.spans, start)
    ensures IsFirstEol(b.Contents(), start.pos, Any, it.pos, eolLen)
  {
    hide EvBuffer.Contents, EvBuffer.Valid, Designates, RunLength, IsFirstEol;
    var found;
    found, it := FindEol(b, start);
    if !found {
      AnyMissing(b.Contents(), start.pos);
      return NotFound(b), 0;
    }
    AnyFound(b.Contents(), start.pos, it.pos);
    var count, behind := Strspn(b, it);
    eolLen := count;
  }

  /** The search for LF alone. */
  method SearchLf(b: EvBuffer, start: Ptr) returns (it: Ptr, eolLen: nat)
    requires b.Valid() && Designates(b.spans, start)
    ensures IsFirstEol(b.Contents(), start.pos, Lf, it.pos, eolLen)
  {
    hide b.Shape, Flatten, Placed;
    EolStarts(b.Contents(), Lf);
    var found;
    found, it := Strchr(b, start, LF);
    if !found {
      return NotFound(b), 0;
    }
    eolLen := 1;
  }

  /** The search for CR LF and nothing else. */
  method SearchStrict(b: EvBuffer, start: Ptr) returns (it: Ptr, eolLen: nat)
    requires b.Valid() && Designates(b.spans, start)
    ensures IsFirstEol(b.Contents(), start.pos, CrlfStrict, it.pos, eolLen)
  {
    hide b.Shape, Flatten, Placed;
    it := SearchRange(b, [CR, LF], Some(start), None);
    eolLen := if it.pos < 0 then 0 else 2;
  }

  /** `evbuffer_search_eol` */
  method SearchEol(b: EvBuffer, start: Option<Ptr>, style: EolStyle) returns (it: Ptr, eolLen: nat)
    requires b.Valid() && (start.Some? ==> Designates(b.spans, start.value))
    ensures IsFirstEol(b.Contents(), if start.Some? then start.value.pos else 0, style, it.pos, eolLen)
  {
    hide b.Valid, b.Contents, IsFirstEol;
    AtStart(b.spans);
    it := if start.Some? then start.value else Ptr(0, 0, 0);
    match style
    case Any => it, eolLen := SearchAny(b, it);
    case CrlfStrict => it, eolLen := SearchStrict(b, it);
    case Crlf => it, eolLen := SearchCrlf(b, it);
    case Lf => it, eolLen := SearchLf(b, it);
  }

  predicate NoEolChar(s: seq<byte>) {
    CR !in s && LF !in s
  }

  /**
   * What a line is, and its terminator: one LF; CR and LF; CR and LF, or an LF behind no CR; or a whole run of CR and
   * LF. No terminator of the style stands in the line.
   */
  ghost predicate IsLine(style: EolStyle, line: seq<byte>, eol: seq<byte>, rest: seq<byte>) {
    match style
    case Lf => eol == [LF] && LF !in line
    case CrlfStrict => eol == [CR, LF] && forall i :: 0 <= i < |line| - 1 ==> !(line[i] == CR && line[i + 1] == LF)
    case Crlf =>
      LF !in line && (eol == [CR, LF] || (eol == [LF] && (line == [] || line[|line| - 1] != CR)))
    case Any =>
      && NoEolChar(line) && eol != [] && (forall i :: 0 <= i < |eol| ==> eol[i] == CR || eol[i] == LF)
      && (rest == [] || NoEolChar(rest[..1]))
  }

  lemma PairAt(s: seq<byte>, i: nat)
    ensures Occurs(s, [CR, LF], i) <==> i + 1 < |s| && s[i] == CR && s[i + 1] == LF
  {
    if i + 2 <= |s| {
      assert s[i..i + 2] == [s[i], s[i + 1]];
    }
  }

  lemma LfLine(line: seq<byte>, eol: seq<byte>, rest: seq<byte>)
    requires eol != []
    ensures var s, n := line + eol + rest, |line|;
            NoEol(s, 0, n, Lf) && EolLength(s, n, Lf) == |eol| <==> IsLine(Lf, line, eol, rest)
  {
    var s, n := line + eol + rest, |line|;
    forall i: nat | i < n
      ensures s[i] == line[i] && (EolLength(s, i, Lf) == 0 <==> line[i] != LF)
    {
    }
    assert s[n] == eol[0];
    assert |eol| == 1 ==> eol == [eol[0]];
  }

  lemma StrictLine(line: seq<byte>, eol: seq<byte>, rest: seq<byte>)
    requires eol != []
    ensures var s, n := line + eol + rest, |line|;
            NoEol(s, 0, n, CrlfStrict) && EolLength(s, n, CrlfStrict) == |eol| <==> IsLine(CrlfStrict, line, eol, rest)
  {
    var s, n := line + eol + rest, |line|;
    assert forall i :: 0 <= i < n ==> s[i] == line[i];
    assert forall i :: 0 <= i < |eol| ==> s[n + i] == eol[i];
    forall i: nat | i <= n
      ensures Occurs(s, [CR, LF], i) <==> i + 1 < |s| && s[i] == CR && s[i + 1] == LF
    {
      PairAt(s, i);
    }
    hide Occurs;
    forall i: nat | i < n
      ensures EolLength(s, i, CrlfStrict) == 0 <==>
                !(line[i] == CR && (if i + 1 < n then line[i + 1] else eol[0]) == LF)
    {
    }
    assert |eol| == 2 ==> eol == [eol[0], eol[1]];
  }

  lemma CrlfLine(line: seq<byte>, eol: seq<byte>, rest: seq<byte>)
    requires eol != []
    ensures var s, n := line + eol + rest, |line|;
            NoEol(s, 0, n, Crlf) && EolLength(s, n, Crlf) == |eol| <==> IsLine(Crlf, line, eol, rest)
  {
    var s, n := line + eol + rest, |line|;
    assert forall i :: 0 <= i < n ==> s[i] == line[i];
    assert forall i :: 0 <= i < |eol| ==> s[n + i] == eol[i];
    forall i: nat | i <= n
      ensures Occurs(s, [CR, LF], i) <==> i + 1 < |s| && s[i] == CR && s[i + 1] == LF
    {
      PairAt(s, i);
    }
    hide Occurs;
    forall i: nat | i < n
      ensures EolLength(s, i, Crlf) == 0 <==>
                line[i] != LF && !(line[i] == CR && (if i + 1 < n then line[i + 1] else eol[0]) == LF)
    {
    }
    assert |eol| == 2 ==> eol == [eol[0], eol[1]];
    assert |eol| == 1 ==> eol == [eol[0]];
    if IsLine(Crlf, line, eol, rest) {
      forall i: nat | i < n
        ensures EolLength(s, i, Crlf) == 0
      {
        assert line[i] in line && (i + 1 < n ==> line[i + 1] in line);
      }
      assert EolLength(s, n, Crlf) == |eol|;
    }
    if NoEol(s, 0, n, Crlf) && EolLength(s, n, Crlf) == |eol| {
      forall i: nat | i < n
        ensures line[i] != LF
      {
        assert EolLength(s, i, Crlf) == 0;
      }
      if n > 0 {
        assert EolLength(s, n - 1, Crlf) == 0;
      }
    }
  }

  lemma AnyLine(line: seq<byte>, eol: seq<byte>, rest: seq<byte>)
    requires eol != []
    ensures var s, n := line + eol + rest, |line|;
            NoEol(s, 0, n, Any) && EolLength(s, n, Any) == |eol| <==> IsLine(Any, line, eol, rest)
  {
    var s, n, m := line + eol + rest, |line|, |eol|;
    assert forall i :: 0 <= i < n ==> s[i] == line[i];
    assert forall i :: 0 <= i < m ==> s[n + i] == eol[i];
    assert rest != [] ==> s[n + m] == rest[0];
    var run := RunLength(s, n);
    if NoEol(s, 0, n, Any) {
      forall i | 0 <= i < n
        ensures !IsEolChar(line[i])
      {
        assert EolLength(s, i, Any) == 0;
      }
    }
  }

  /** Where the terminator search stops is exactly where the first line of the text ends. */
  lemma LineMeans(style: EolStyle, line: seq<byte>, eol: seq<byte>, rest: seq<byte>)
    requires eol != []
    ensures var s, n := line + eol + rest, |line|;
            NoEol(s, 0, n, style) && EolLength(s, n, style) == |eol| <==> IsLine(style, line, eol, rest)
  {
    match style
    case Lf => LfLine(line, eol, rest);
    case CrlfStrict => StrictLine(line, eol, rest);
    case Crlf => CrlfLine(line, eol, rest);
    case Any => AnyLine(line, eol, rest);
  }

  /** The string is this front, so many more bytes, and this back. */
  ghost predicate Splits(s: seq<byte>, front: seq<byte>, m: nat, back: seq<byte>) {
    |front| + m <= |s| && s == front + s[|front|..|front| + m] + back
  }

  /** The text begins with this line and its terminator, and this is the rest. */
  ghost predicate FirstLine(style: EolStyle, s: seq<byte>, line: seq<byte>, eol: seq<byte>, rest: seq<byte>) {
    s == line + eol + rest && IsLine(style, line, eol, rest)
  }

  lemma FoundLine(style: EolStyle, s: seq<byte>, line: seq<byte>, rest: seq<byte>)
    requires var n := |line|;
             NoEol(s, 0, n, style) && EolLength(s, n, style) != 0 && Splits(s, line, EolLength(s, n, style), rest)
    ensures exists eol :: FirstLine(style, s, line, eol, rest)
  {
    var eol := s[|line|..|line| + EolLength(s, |line|, style)];
    LineMeans(style, line, eol, rest);
    assert FirstLine(style, s, line, eol, rest);
  }

  lemma MissingLine(style: EolStyle, s: seq<byte>)
    requires NoEol(s, 0, |s|, style)
    ensures forall line, eol, rest :: !FirstLine(style, s, line, eol, rest)
  {
    forall line, eol, rest
      ensures !FirstLine(style, s, line, eol, rest)
    {
      if FirstLine(style, s, line, eol, rest) {
        LineMeans(style, line, eol, rest);
      }
    }
  }

  lemma Cuts(s: seq<byte>, a: seq<byte>, e: seq<byte>, r: seq<byte>)
    requires s == a + e + r
    ensures |a| + |e| <= |s| && a == s[..|a|] && e == s[|a|..|a| + |e|] && r == s[|a| + |e|..]
  {
  }

  lemma FirstIsOne(s: seq<byte>, style: EolStyle, n: nat, m: nat)
    requires NoEol(s, 0, n, style) && EolLength(s, n, style) != 0
    requires NoEol(s, 0, m, style) && EolLength(s, m, style) != 0
    ensures n == m
  {
    hide EolLength;
  }

  /** A text has one first line at most. */
  lemma FirstLineIsOne(style: EolStyle, s: seq<byte>, a: seq<byte>, e: seq<byte>, r: seq<byte>,
                       b: seq<byte>, f: seq<byte>, t: seq<byte>)
    requires FirstLine(style, s, a, e, r) && FirstLine(style, s, b, f, t)
    ensures a == b && e == f && r == t
  {
    HasTerminator(style, s, a, e, r);
    HasTerminator(style, s, b, f, t);
    hide FirstLine, EolLength, NoEol;
    FirstIsOne(s, style, |a|, |b|);
    Cuts(s, a, e, r);
    Cuts(s, b, f, t);
  }

  lemma HasTerminator(style: EolStyle, s: seq<byte>, line: seq<byte>, eol: seq<byte>, rest: seq<byte>)
    requires FirstLine(style, s, line, eol, rest)
    ensures s == line + eol + rest && NoEol(s, 0, |line|, style) && EolLength(s, |line|, style) == |eol| != 0
  {
    hide EolLength, NoEol;
    LineMeans(style, line, eol, rest);
  }

  /**
   * `evbuffer_readln`: take the first line and its terminator off the buffer. The line holds no terminator of the
   * chosen style, and nothing changes if there is no complete line.
   */
  method Readln(b: EvBuffer, style: EolStyle) returns (line: Option<seq<byte>>)
    requires b.Valid()
    modifies b, b.Mem
    ensures b.Valid() && (old(b.NoSpare()) ==> b.NoSpare()) && fresh(b.Mem - old(b.Mem))
    ensures b.freezeStart == old(b.freezeStart) && b.freezeEnd == old(b.freezeEnd)
    ensures line == None ==>
              && b.Contents() == old(b.Contents())
              && (old(b.freezeStart) || NoEol(old(b.Contents()), 0, |old(b.Contents())|, style))
    ensures line.Some? ==>
              var s := old(b.Contents());
              var n := |line.value|;
              && !old(b.freezeStart) && NoEol(s, 0, n, style) && EolLength(s, n, style) != 0
              && Splits(s, line.value, EolLength(s, n, style), b.Contents())
    ensures line == None <==>
              old(b.freezeStart) || forall l, e, r :: !FirstLine(style, old(b.Contents()), l, e, r)
    ensures line.Some? ==> exists e :: FirstLine(style, old(b.Contents()), line.value, e, b.Contents())
  {
    hide FirstLine, EvBuffer.Valid, EvBuffer.Contents, EvBuffer.NoSpare, Designates;
    if b.freezeStart {
      return None;
    }
    ghost var s := b.Contents();
    var it, extra := SearchEol(b, None, style);
    if it.pos < 0 {
      MissingLine(style, s);
      return None;
    }
    TerminatorFits(s, it.pos, style);
    hide NoEol, EolLength, Splits;
    var text := TakeOff(b, it.pos, extra);
    FoundLine(style, s, text, b.Contents());
    line := Some(text);
  }

  /** The first `n` bytes are read, and the next `m` dropped. */
  method TakeOff(b: EvBuffer, n: nat, m: nat) returns (text: seq<byte>)
    requires b.Valid() && !b.freezeStart && n + m <= |b.Contents()|
    modifies b, b.Mem
    ensures b.Valid() && (old(b.NoSpare()) ==> b.NoSpare()) && fresh(b.Mem - old(b.Mem))
    ensures b.freezeStart == old(b.freezeStart) && b.freezeEnd == old(b.freezeEnd)
    ensures |text| == n && Splits(old(b.Contents()), text, m, b.Contents())
  {
    hide EvBuffer.Valid, EvBuffer.Contents, EvBuffer.NoSpare, Splits;
    ghost var s := b.Contents();
    var rc;
    rc, text := b.Remove(n);
    rc := b.Drain(m);
    CutTwice(s, n, m, text, b.Contents());
  }

  lemma TerminatorFits(s: seq<byte>, i: nat, style: EolStyle)
    requires i < |s|
    ensures i + EolLength(s, i, style) <= |s|
  {
  }

  lemma CutTwice(s: seq<byte>, n: nat, m: nat, front: seq<byte>, back: seq<byte>)
    requires n + m <= |s| && front == s[..n] && back == s[n..][m..]
    ensures |front| == n && Splits(s, front, m, back)
  {
  }
}
