/** Positions in an evbuffer, and searching it across chunk boundaries. */
module EvSearch {
  import opened Bytes
  import opened EvChain
  import opened EvQueue

  /** `struct evbuffer_ptr`. The null chain is the index behind the last chain. */
  datatype Ptr = Ptr(pos: int, chain: nat, inChain: nat)

  datatype How = FromStart | FromHere

  /** `p` is the place in the chunks of the position `p.pos` of the byte string. */
  ghost predicate Designates(spans: seq<Span>, p: Ptr) {
    && p.chain <= |spans|
    && p.inChain <= (if p.chain < |spans| then |spans[p.chain].data| else 0)
    && p.pos == |Flatten(spans[..p.chain])| + p.inChain
  }

  /** `what` stands in `s` at position `i`. */
  predicate Occurs(s: seq<byte>, what: seq<byte>, i: int) {
    0 <= i && i + |what| <= |s| && s[i..i + |what|] == what
  }

  /** A stretch of one chunk is a stretch of the byte string. */
  lemma Stretch(spans: seq<Span>, k: nat)
    requires k < |spans|
    ensures var at := |Flatten(spans[..k])|;
            && at + |spans[k].data| == |Flatten(spans[..k + 1])| <= |Flatten(spans)|
            && Flatten(spans)[at..at + |spans[k].data|] == spans[k].data
  {
    FlattenSplit(spans, k);
    FlattenTake(spans, k);
  }

  lemma SliceOfSlice(s: seq<byte>, a: nat, b: nat, i: nat, j: nat)
    requires i <= j && a + j <= b <= |s|
    ensures s[a..b][i..j] == s[a + i..a + j]
  {
    assert forall k :: 0 <= k < j - i ==> s[a..b][i..j][k] == s[a + i..a + j][k];
  }

  /** The same, seen from one position inside the chunk. */
  lemma StretchFrom(spans: seq<Span>, p: Ptr, n: nat)
    requires Designates(spans, p) && p.chain < |spans| && p.inChain + n <= |spans[p.chain].data|
    ensures 0 <= p.pos && p.pos + n <= |Flatten(spans)|
    ensures Flatten(spans)[p.pos..p.pos + n] == spans[p.chain].data[p.inChain..p.inChain + n]
  {
    Stretch(spans, p.chain);
    hide Flatten;
    var at := |Flatten(spans[..p.chain])|;
    SliceOfSlice(Flatten(spans), at, at + |spans[p.chain].data|, p.inChain, p.inChain + n);
  }

  /** Behind the last byte of a chunk comes the first byte of the next one. */
  lemma NextChain(spans: seq<Span>, p: Ptr)
    requires Designates(spans, p) && p.chain < |spans|
    ensures Designates(spans, Ptr(p.pos + |spans[p.chain].data| - p.inChain, p.chain + 1, 0))
    ensures 0 <= p.pos <= |Flatten(spans)|
  {
    Stretch(spans, p.chain);
  }

  lemma AtEnd(spans: seq<Span>, p: Ptr)
    requires Designates(spans, p) && p.chain == |spans|
    ensures p.pos == |Flatten(spans)|
  {
    assert spans[..|spans|] == spans;
  }

  lemma AtStart(spans: seq<Span>)
    ensures Designates(spans, Ptr(0, 0, 0))
  {
    assert spans[..0] == [];
  }

  /** `memchr` on one chunk. */
  method Memchr(s: seq<byte>, from: nat, c: byte) returns (r: Option<nat>)
    requires from <= |s|
    ensures r == None ==> forall i :: from <= i < |s| ==> s[i] != c
    ensures r.Some? ==> from <= r.value < |s| && s[r.value] == c
    ensures r.Some? ==> forall i :: from <= i < r.value ==> s[i] != c
  {
    for i := from to |s|
      invariant forall j :: from <= j < i ==> s[j] != c
    {
      if s[i] == c {
        return Some(i);
      }
    }
    return None;
  }

  /** `memcmp`: the difference of the first two bytes that differ, or 0. */
  function Memcmp(a: seq<byte>, b: seq<byte>): int
    requires |a| == |b|
  {
    if a == [] then 0
    else if a[0] != b[0] then a[0] - b[0]
    else Memcmp(a[1..], b[1..])
  }

  /** Only equal strings compare as equal. */
  lemma {:induction false} MemcmpZero(a: seq<byte>, b: seq<byte>)
    requires |a| == |b|
    ensures Memcmp(a, b) == 0 <==> a == b
  {
    if a != [] && a[0] == b[0] {
      MemcmpZero(a[1..], b[1..]);
      assert a == [a[0]] + a[1..] && b == [b[0]] + b[1..];
    }
  }

  /** The first bytes that differ decide. */
  lemma {:induction false} MemcmpSign(a: seq<byte>, b: seq<byte>, i: nat)
    requires |a| == |b| && i < |a| && a[..i] == b[..i] && a[i] != b[i]
    ensures Memcmp(a, b) == a[i] as int - b[i] as int
  {
    if i > 0 {
      assert a[0] == a[..i][0] && b[0] == b[..i][0];
      assert a[1..][..i - 1] == a[..i][1..] && b[1..][..i - 1] == b[..i][1..];
      MemcmpSign(a[1..], b[1..], i - 1);
    }
  }

  /** The first `n` bytes decide, unless they are equal: comparing piece by piece compares the whole. */
  lemma {:induction false} MemcmpPieces(a: seq<byte>, b: seq<byte>, n: nat)
    requires |a| == |b| && n <= |a|
    ensures var front := Memcmp(a[..n], b[..n]);
            Memcmp(a, b) == if front != 0 then front else Memcmp(a[n..], b[n..])
  {
    if n == 0 {
      assert a[0..] == a && b[0..] == b;
    } else if a[0] == b[0] {
      MemcmpPieces(a[1..], b[1..], n - 1);
      assert a[1..][..n - 1] == a[..n][1..] && b[1..][..n - 1] == b[..n][1..];
      assert a[1..][n - 1..] == a[n..] && b[1..][n - 1..] == b[n..];
    }
  }

  /** The same for a stretch of a longer string. */
  lemma CompareFront(s: seq<byte>, at: nat, left: seq<byte>, n: nat)
    requires at + |left| <= |s| && n <= |left|
    ensures var front := Memcmp(s[at..at + n], left[..n]);
            Memcmp(s[at..at + |left|], left)
            == if front != 0 then front else Memcmp(s[at + n..at + |left|], left[n..])
  {
    hide Memcmp;
    CutAt(s, at, |left|, n);
    CompareCut(s[at..at + |left|], left, n, s[at..at + n], s[at + n..at + |left|]);
  }

  lemma CompareCut(a: seq<byte>, b: seq<byte>, n: nat, front: seq<byte>, back: seq<byte>)
    requires |a| == |b| && n <= |a| && a[..n] == front && a[n..] == back
    ensures Memcmp(a, b) == if Memcmp(front, b[..n]) != 0 then Memcmp(front, b[..n]) else Memcmp(back, b[n..])
  {
    MemcmpPieces(a, b, n);
  }

  lemma CutAt(s: seq<byte>, at: nat, len: nat, n: nat)
    requires at + len <= |s| && n <= len
    ensures s[at..at + len][..n] == s[at..at + n] && s[at..at + len][n..] == s[at + n..at + len]
  {
  }

  /** `evbuffer_ptr_memcmp`: compare the bytes at a position with `mem`, chunk by chunk. */
  method PtrMemcmp(b: EvBuffer, p: Ptr, mem: seq<byte>) returns (r: int)
    requires b.Valid() && Designates(b.spans, p)
    ensures var s := b.Contents();
            r == if p.pos + |mem| > |s| then -1 else Memcmp(s[p.pos..p.pos + |mem|], mem)
  {
    hide b.Shape, Flatten, Placed, Memcmp;
    if p.pos + |mem| > b.totalLen {
      return -1;
    }
    ghost var s, spans := b.Contents(), b.spans;
    ghost var whole := Memcmp(s[p.pos..p.pos + |mem|], mem);
    var q, left := p, mem;
    while left != [] && q.chain < |b.chains|
      invariant q.pos + |left| == p.pos + |mem| <= |s|
      invariant left != [] ==> Designates(spans, q)
      invariant 0 <= q.pos && whole == Memcmp(s[q.pos..q.pos + |left|], left)
      decreases |b.chains| - q.chain
    {
      var chain := b.chains[q.chain];
      b.At(q.chain);
      var n := if |left| + q.inChain > chain.off then chain.off - q.inChain else |left|;
      StretchFrom(spans, q, n);
      NextChain(spans, q);
      CompareFront(s, q.pos, left, n);
      r := Memcmp(chain.Front(chain.off)[q.inChain..q.inChain + n], left[..n]);
      if r != 0 {
        return;
      }
      left := left[n..];
      q := Ptr(q.pos + n, q.chain + 1, 0);
    }
    if left != [] {
      AtEnd(spans, q);
    }
    assert s[q.pos..q.pos + |left|] == left;
    MemcmpZero(left, left);
    return 0;
  }

  /**
   * `evbuffer_ptr_set`: go to an absolute position, or forward from the current one. It succeeds exactly for a
   * position at which there is a byte; the end of the string is refused.
   */
  method PtrSet(b: EvBuffer, p: Ptr, position: nat, how: How) returns (rc: int, q: Ptr)
    requires b.Valid()
    requires how == FromHere ==> Designates(b.spans, p)
    ensures var target := if how == FromStart then position else p.pos + position;
            if target < |b.Contents()| then
              && rc == 0 && Designates(b.spans, q) && q.pos == target
              && q.chain < |b.spans| && q.inChain < |b.spans[q.chain].data|
            else
              rc == -1 && q.pos == -1 && q.chain == |b.chains|
  {
    hide b.Shape, Flatten, Placed;
    var at := match how { case FromStart => Ptr(0, 0, 0) case FromHere => p };
    AtStart(b.spans);
    var left := position;
    while at.chain < |b.chains| && at.inChain + left >= b.chains[at.chain].off
      invariant Designates(b.spans, at)
      invariant at.pos + left == if how == FromStart then position else p.pos + position
      invariant 0 <= left
      decreases |b.chains| - at.chain
    {
      b.At(at.chain);
      NextChain(b.spans, at);
      var step := b.chains[at.chain].off - at.inChain;
      left := left - step;
      at := Ptr(at.pos + step, at.chain + 1, 0);
    }
    if at.chain < |b.chains| {
      b.At(at.chain);
      StretchFrom(b.spans, at, left + 1);
      return 0, Ptr(at.pos + left, at.chain, at.inChain + left);
    } else {
      AtEnd(b.spans, at);
      return -1, Ptr(-1, |b.chains|, at.inChain);
    }
  }

  /** No match begins in a stretch that does not hold the first byte of the pattern. */
  lemma NoMatchWithoutFirst(spans: seq<Span>, p: Ptr, n: nat, what: seq<byte>)
    requires Designates(spans, p) && p.chain < |spans| && p.inChain + n <= |spans[p.chain].data| && what != []
    requires forall j :: p.inChain <= j < p.inChain + n ==> spans[p.chain].data[j] != what[0]
    ensures forall i :: p.pos <= i < p.pos + n ==> !Occurs(Flatten(spans), what, i)
  {
    StretchFrom(spans, p, n);
    var s, d := Flatten(spans), spans[p.chain].data;
    forall i | p.pos <= i < p.pos + n
      ensures !Occurs(s, what, i)
    {
      assert s[p.pos..p.pos + n][i - p.pos] == d[p.inChain..p.inChain + n][i - p.pos];
    }
  }

  /** The first match at or behind `from` that ends by `limit`, or -1 if there is none. */
  ghost predicate IsFirstMatch(s: seq<byte>, what: seq<byte>, from: int, limit: int, pos: int) {
    if pos == -1 then
      forall i :: from <= i && i + |what| <= limit ==> !Occurs(s, what, i)
    else
      && from <= pos && pos + |what| <= limit && Occurs(s, what, pos)
      && forall i :: from <= i < pos ==> !Occurs(s, what, i)
  }

  /** The comparison of `evbuffer_ptr_memcmp` decides whether there is a match. */
  lemma CompareDecides(s: seq<byte>, what: seq<byte>, pos: nat)
    requires pos <= |s|
    ensures (if pos + |what| > |s| then -1 else Memcmp(s[pos..pos + |what|], what)) == 0 <==> Occurs(s, what, pos)
    ensures what != [] ==> forall i :: |s| <= i ==> !Occurs(s, what, i)
  {
    if pos + |what| <= |s| {
      MemcmpZero(s[pos..pos + |what|], what);
    }
  }

  function NotFound(b: EvBuffer): Ptr
    reads b
  {
    Ptr(-1, |b.chains|, 0)
  }

  /** Where the first byte of the pattern comes next in the chunk of `p`; otherwise the start of the next chunk. */
  method Candidate(b: EvBuffer, p: Ptr, what: seq<byte>) returns (found: bool, q: Ptr)
    requires b.Valid() && Designates(b.spans, p) && p.chain < |b.chains| && what != []
    ensures Designates(b.spans, q) && 0 <= p.pos <= q.pos <= |b.Contents()|
    ensures forall i :: p.pos <= i < q.pos ==> !Occurs(b.Contents(), what, i)
    ensures if found then q.chain == p.chain && p.inChain <= q.inChain < b.chains[p.chain].off
            else q == Ptr(p.pos + b.chains[p.chain].off - p.inChain, p.chain + 1, 0)
  {
    hide b.Shape, Flatten, Placed, Occurs;
    var chain := b.chains[p.chain];
    b.At(p.chain);
    NextChain(b.spans, p);
    var r := Memchr(chain.Front(chain.off), p.inChain, what[0]);
    found := r.Some?;
    var n := if found then r.value - p.inChain else chain.off - p.inChain;
    NoMatchWithoutFirst(b.spans, p, n, what);
    StretchFrom(b.spans, p, n);
    q := if found then Ptr(p.pos + n, p.chain, r.value) else Ptr(p.pos + n, p.chain + 1, 0);
  }

  /** One byte further, which may be in the next chunk. */
  method Forward(b: EvBuffer, p: Ptr) returns (q: Ptr)
    requires b.Valid() && Designates(b.spans, p) && p.chain < |b.chains| && p.inChain < b.chains[p.chain].off
    ensures Designates(b.spans, q) && q.pos == p.pos + 1
    ensures q.chain == p.chain + 1 || (q.chain == p.chain && q.inChain == p.inChain + 1)
  {
    hide b.Shape, Flatten, Placed;
    b.At(p.chain);
    NextChain(b.spans, p);
    q := if p.inChain + 1 == b.chains[p.chain].off then Ptr(p.pos + 1, p.chain + 1, 0)
         else Ptr(p.pos + 1, p.chain, p.inChain + 1);
  }

  /** `evbuffer_search_range` */
  method SearchRange(b: EvBuffer, what: seq<byte>, start: Option<Ptr>, end: Option<Ptr>) returns (p: Ptr)
    requires b.Valid()
    requires start.Some? ==> Designates(b.spans, start.value)
    requires end.Some? ==> Designates(b.spans, end.value)
    ensures what == [] ==> p == if start.Some? then start.value else Ptr(0, 0, 0)
    ensures what != [] ==>
              && IsFirstMatch(b.Contents(), what, if start.Some? then start.value.pos else 0,
                              if end.Some? then end.value.pos else |b.Contents()|, p.pos)
              && (p.pos != -1 ==> Designates(b.spans, p) && p.chain < |b.chains|)
  {
    hide b.Shape, Flatten, Placed, Memcmp, Occurs;
    AtStart(b.spans);
    ghost var s, spans := b.Contents(), b.spans;
    p := if start.Some? then start.value else Ptr(0, 0, 0);
    ghost var from := p.pos;
    ghost var limit := if end.Some? then end.value.pos else |s|;
    var lastChain := if end.Some? then end.value.chain else |b.chains|;
    if what == [] {
      return;
    }
    while p.chain < |b.chains|
      invariant Designates(spans, p) && from <= p.pos
      invariant forall i :: from <= i < p.pos ==> !Occurs(s, what, i)
      decreases |b.chains| - p.chain, if p.chain < |spans| then |spans[p.chain].data| - p.inChain else 0
    {
      b.At(p.chain);
      var found, q := Candidate(b, p, what);
      if found {
        var differs := PtrMemcmp(b, q, what);
        CompareDecides(s, what, q.pos);
        if differs == 0 {
          if end.Some? && q.pos + |what| > end.value.pos {
            return NotFound(b);
          }
          return q;
        }
        p := Forward(b, q);
      } else {
        if p.chain == lastChain {
          assert end.value.pos <= q.pos;
          return NotFound(b);
        }
        p := q;
      }
    }
    AtEnd(spans, p);
    CompareDecides(s, what, p.pos);
    return NotFound(b);
  }
}
