/** One chunk of an evbuffer (`struct evbuffer_chain`) and the view a reader has of a list of chunks. */
module EvChain {
  import opened Bytes

  const CHAIN_HEADER := 48        // sizeof(struct evbuffer_chain) with 8-byte pointers
  const MIN_BUFFER_SIZE := 512
  const MAX_AUTO_SIZE := 4096
  const MAX_TO_REALIGN := 2048

  /** What a chunk looks like from outside: its capacity, the unused room in front, and its bytes. */
  datatype Span = Span(cap: nat, misalign: nat, data: seq<byte>)

  /** The byte string that a list of chunks stands for. */
  ghost function Flatten(spans: seq<Span>): seq<byte> {
    if spans == [] then [] else spans[0].data + Flatten(spans[1..])
  }

  lemma {:induction false} FlattenConcat(a: seq<Span>, b: seq<Span>)
    ensures Flatten(a + b) == Flatten(a) + Flatten(b)
  {
    if a == [] {
      assert a + b == b;
    } else {
      assert (a + b)[1..] == a[1..] + b;
      FlattenConcat(a[1..], b);
    }
  }

  lemma FlattenCut(spans: seq<Span>, k: nat)
    requires k <= |spans|
    ensures Flatten(spans) == Flatten(spans[..k]) + Flatten(spans[k..])
  {
    assert spans == spans[..k] + spans[k..];
    FlattenConcat(spans[..k], spans[k..]);
  }

  lemma FlattenOne(spans: seq<Span>)
    requires |spans| == 1
    ensures Flatten(spans) == spans[0].data
  {
    assert Flatten(spans[1..]) == [];
  }

  lemma FlattenTake(spans: seq<Span>, k: nat)
    requires k < |spans|
    ensures Flatten(spans[..k + 1]) == Flatten(spans[..k]) + spans[k].data
  {
    var upto := spans[..k + 1];
    FlattenCut(upto, k);
    assert upto[..k] == spans[..k];
    assert upto[k..] == [spans[k]];
    assert Flatten([spans[k]]) == spans[k].data + Flatten([]);
  }

  lemma FlattenDrop(spans: seq<Span>, k: nat)
    requires k < |spans|
    ensures Flatten(spans[k..]) == spans[k].data + Flatten(spans[k + 1..])
  {
    assert spans[k..][1..] == spans[k + 1..];
  }

  /** Cutting a list of chunks around its k-th chunk cuts the byte string at the same place. */
  lemma FlattenSplit(spans: seq<Span>, k: nat)
    requires k < |spans|
    ensures Flatten(spans) == Flatten(spans[..k]) + spans[k].data + Flatten(spans[k + 1..])
  {
    FlattenCut(spans, k);
    FlattenDrop(spans, k);
  }

  /** Writing behind the last chunk's bytes writes behind the byte string. */
  lemma FlattenGrowLast(spans: seq<Span>, grown: Span, extra: seq<byte>)
    requires spans != [] && grown.data == spans[|spans| - 1].data + extra
    ensures Flatten(spans[|spans| - 1 := grown]) == Flatten(spans) + extra
  {
    var k := |spans| - 1;
    var after := spans[k := grown];
    FlattenTake(spans, k);
    FlattenTake(after, k);
    assert spans[..k + 1] == spans && after[..k + 1] == after;
    assert after[..k] == spans[..k];
  }

  /** Replacing one chunk replaces its stretch of the byte string. */
  lemma FlattenUpdate(spans: seq<Span>, k: nat, s: Span)
    requires k < |spans|
    ensures Flatten(spans[k := s]) == Flatten(spans[..k]) + s.data + Flatten(spans[k + 1..])
  {
    var after := spans[k := s];
    FlattenSplit(after, k);
    assert after[..k] == spans[..k] && after[k + 1..] == spans[k + 1..];
  }

  lemma {:induction false} FlattenEmpty(spans: seq<Span>)
    requires forall i :: 0 <= i < |spans| ==> spans[i].data == []
    ensures Flatten(spans) == []
  {
    if spans != [] {
      FlattenEmpty(spans[1..]);
    }
  }

  /**
   * `last` is the link that `last_with_datap` designates: everything before it holds data,
   * everything after it is empty, and it holds data itself unless it is the first link.
   */
  ghost predicate Placed(spans: seq<Span>, last: nat) {
    && (if spans == [] then last == 0 else last < |spans|)
    && (forall i :: 0 <= i < last ==> spans[i].data != [])
    && (forall i :: last < i < |spans| ==> spans[i].data == [])
    && (0 < last ==> spans[last].data != [])
  }

  lemma PlacedTotal(spans: seq<Span>, last: nat)
    requires Placed(spans, last)
    ensures last <= |spans| && (spans != [] ==> last < |spans|)
    ensures |Flatten(spans)| == 0 <==> spans == [] || spans[last].data == []
    ensures spans != [] ==> Flatten(spans) == Flatten(spans[..last]) + spans[last].data
  {
    if spans != [] {
      FlattenSplit(spans, last);
      FlattenEmpty(spans[last + 1..]);
      if last > 0 {
        assert spans[last].data != [];
      } else {
        assert spans[..last] == [];
      }
    }
  }

  /** The bytes stay when the empty chunks from `keep` on are replaced by one new chunk, and its bytes come last. */
  lemma FlattenReplaceTail(spans: seq<Span>, keep: nat, s: Span)
    requires keep <= |spans|
    requires forall i :: keep <= i < |spans| ==> spans[i].data == []
    ensures Flatten(spans[..keep] + [s]) == Flatten(spans) + s.data
  {
    assert Flatten(spans) == Flatten(spans[..keep]) by {
      FlattenCut(spans, keep);
      FlattenEmpty(spans[keep..]);
    }
    FlattenConcat(spans[..keep], [s]);
    FlattenOne([s]);
  }

  /** `victim` is the first link from `last` on whose chunk is empty, or the end of the list. */
  ghost predicate IsVictim(spans: seq<Span>, last: nat, victim: nat) {
    && last <= victim <= |spans|
    && (forall i :: last <= i < victim ==> spans[i].data != [])
    && (victim < |spans| ==> spans[victim].data == [])
  }

  /** Putting `s` in the place of the spare chunks while the cached link stays, or moves only if none was spare. */
  lemma PlacedAfterInsert(spans: seq<Span>, last: nat, victim: nat, s: Span)
    requires Placed(spans, last) && IsVictim(spans, last, victim)
    ensures var last' := if victim == |spans| && s.data != [] then victim else last;
            Placed(spans[..victim] + [s], last') <==>
              s.data == [] || spans == [] || last == |spans| - 1 || spans[last].data == []
  {
    var after := spans[..victim] + [s];
    if spans == [] || spans[last].data == [] {
      assert after == [s];
    } else {
      assert last + 1 < |spans| ==> spans[last + 1].data == [];
      assert victim == last + 1;
      assert after[last + 1] == s;
      assert forall i :: 0 <= i <= last ==> after[i] == spans[i];
    }
  }

  /** Writing in front of the first chunk's bytes writes in front of the byte string. */
  lemma WriteFirst(spans: seq<Span>, last: nat, s: Span, data: seq<byte>)
    requires Placed(spans, last) && spans != [] && s.data == data + spans[0].data
    ensures Placed(spans[0 := s], last)
    ensures Flatten(spans[0 := s]) == data + Flatten(spans)
  {
    FlattenUpdate(spans, 0, s);
    FlattenSplit(spans, 0);
  }

  /** A new first chunk moves the link of the last chunk with data by one. */
  lemma PushFirst(spans: seq<Span>, last: nat, s: Span)
    requires Placed(spans, last) && spans != [] && spans[last].data != [] && s.data != []
    ensures Placed([s] + spans, last + 1)
    ensures Flatten([s] + spans) == s.data + Flatten(spans)
  {
    assert ([s] + spans)[1..] == spans;
  }

  /** Walking over the k-th chunk: how far that is, and that the walk ends only with the last data. */
  lemma Advance(spans: seq<Span>, last: nat, k: nat)
    requires Placed(spans, last) && k <= last < |spans|
    ensures |Flatten(spans[..k + 1])| == |Flatten(spans[..k])| + |spans[k].data| <= |Flatten(spans)|
    ensures k == last ==> Flatten(spans[..k + 1]) == Flatten(spans)
    ensures spans[k].data == [] ==> k == 0 == last
  {
    FlattenTake(spans, k);
    FlattenCut(spans, k + 1);
    PlacedTotal(spans, last);
  }

  /** The bytes of `k` whole chunks and the front of the next one are the front of the byte string. */
  lemma TakeFront(spans: seq<Span>, k: nat, n: nat)
    requires if k < |spans| then n <= |spans[k].data| else k == |spans| && n == 0
    ensures var taken := Flatten(spans[..k]) + if k < |spans| then spans[k].data[..n] else [];
            |taken| <= |Flatten(spans)| && Flatten(spans)[..|taken|] == taken
  {
    FlattenCut(spans, k);
    if k < |spans| {
      FlattenDrop(spans, k);
    }
  }

  lemma DropPrefix(a: seq<byte>, b: seq<byte>, n: nat)
    requires n <= |b|
    ensures (a + b)[|a| + n..] == b[n..]
  {
  }

  /** Dropping `k` whole chunks and the front of the next one drops the front of the byte string. */
  lemma DropFront(spans: seq<Span>, k: nat, s: Span, n: nat)
    requires k < |spans| && n <= |spans[k].data| && s.data == spans[k].data[n..]
    ensures |Flatten(spans[..k])| + n <= |Flatten(spans)|
    ensures Flatten(spans[k..][0 := s]) == Flatten(spans)[|Flatten(spans[..k])| + n..]
  {
    hide Flatten;
    FlattenCut(spans, k);
    FlattenDrop(spans, k);
    DropPrefix(Flatten(spans[..k]), Flatten(spans[k..]), n);
    FlattenFirst(spans, k, s);
    DropWithin(spans[k].data, Flatten(spans[k + 1..]), n);
  }

  lemma DropWithin(a: seq<byte>, b: seq<byte>, n: nat)
    requires n <= |a|
    ensures (a + b)[n..] == a[n..] + b
  {
  }

  lemma FlattenFirst(spans: seq<Span>, k: nat, s: Span)
    requires k < |spans|
    ensures Flatten(spans[k..][0 := s]) == s.data + Flatten(spans[k + 1..])
  {
    assert spans[k..][0 := s][1..] == spans[k + 1..];
  }

  lemma DropFrontPlaced(spans: seq<Span>, last: nat, k: nat, s: Span)
    requires Placed(spans, last) && k <= last < |spans| && s.data != []
    ensures Placed(spans[k..][0 := s], last - k)
  {
  }

  /** Linking a list behind another one that has no spare chunk: the last data is the second list's. */
  lemma PlacedConcat(a: seq<Span>, la: nat, b: seq<Span>, lb: nat)
    requires Placed(a, la) && Placed(b, lb)
    requires a != [] && la == |a| - 1 && a[la].data != []
    requires b != [] && b[lb].data != []
    ensures Placed(a + b, |a| + lb)
    ensures Flatten(a + b) == Flatten(a) + Flatten(b)
  {
    hide Flatten;
    FlattenConcat(a, b);
  }

  /** Chunks with data hung behind the kept chunks of a buffer: the link belongs to the last of them. */
  lemma PlacedSplice(spans: seq<Span>, last: nat, victim: nat, taken: seq<Span>)
    requires Placed(spans, last) && IsVictim(spans, last, victim) && taken != []
    requires forall i :: 0 <= i < |taken| ==> taken[i].data != []
    ensures var after := spans[..victim] + taken;
            && Placed(after, victim + |taken| - 1)
            && last < |after| && (forall i :: last < i < |after| ==> after[i].data != [])
  {
    var after := spans[..victim] + taken;
    assert last + 1 < |spans| ==> spans[last + 1].data == [];
    assert victim <= last + 1;
    forall i | 0 <= i < |after|
      ensures i < last || last < i || victim <= i ==> after[i].data != []
    {
      if i < victim {
        assert after[i] == spans[i];
      } else {
        assert after[i] == taken[i - victim];
      }
    }
  }

  lemma FlattenSplice(spans: seq<Span>, victim: nat, taken: seq<Span>)
    requires victim <= |spans| && forall i :: victim <= i < |spans| ==> spans[i].data == []
    ensures Flatten(spans[..victim] + taken) == Flatten(spans) + Flatten(taken)
  {
    FlattenCut(spans, victim);
    FlattenEmpty(spans[victim..]);
    FlattenConcat(spans[..victim], taken);
  }

  lemma FrontHoldsData(spans: seq<Span>, last: nat, k: nat)
    requires Placed(spans, last) && k <= last < |spans|
    ensures forall i :: 0 <= i < |spans[..k]| ==> spans[..k][i].data != []
  {
  }

  /** The spans after the first `k` chunks and `left` bytes of the next one have been copied into the chunk `t`. */
  ghost function Pulled(spans: seq<Span>, k: nat, t: Span, s: Span): seq<Span>
    requires k <= |spans|
  {
    [t] + if k < |spans| then [s] + spans[k + 1..] else []
  }

  /** Pulling bytes together into one chunk leaves the byte string as it was. */
  lemma PulledFlatten(spans: seq<Span>, k: nat, left: nat, t: Span, s: Span)
    requires if k < |spans| then left <= |spans[k].data| && s.data == spans[k].data[left..]
             else k == |spans| && left == 0
    requires t.data == Flatten(spans[..k]) + if k < |spans| then spans[k].data[..left] else []
    ensures Flatten(Pulled(spans, k, t, s)) == Flatten(spans)
  {
    FlattenCut(spans, k);
    PulledIs(spans, k, t, s);
    hide Flatten, Pulled;
    if k < |spans| {
      FlattenDrop(spans, k);
      Regroup(Flatten(spans[..k]), spans[k].data, Flatten(spans[k + 1..]), left);
    }
  }

  lemma PulledIs(spans: seq<Span>, k: nat, t: Span, s: Span)
    requires k <= |spans|
    ensures k < |spans| ==> Flatten(Pulled(spans, k, t, s)) == t.data + (s.data + Flatten(spans[k + 1..]))
    ensures k == |spans| ==>
              Flatten(Pulled(spans, k, t, s)) == t.data && Flatten(spans[k..]) == [] && spans[..k] == spans
    ensures k == |spans| ==> Flatten(spans[..k]) + [] == Flatten(spans)
  {
    if k < |spans| {
      assert Pulled(spans, k, t, s)[1..] == [s] + spans[k + 1..];
      assert ([s] + spans[k + 1..])[1..] == spans[k + 1..];
    } else {
      assert Pulled(spans, k, t, s)[1..] == [];
      assert t.data + [] == t.data;
    }
  }

  lemma Regroup(a: seq<byte>, b: seq<byte>, c: seq<byte>, n: nat)
    requires n <= |b|
    ensures (a + b[..n]) + (b[n..] + c) == a + (b + c)
  {
  }

  lemma PulledPlaced(spans: seq<Span>, last: nat, k: nat, t: Span, s: Span)
    requires Placed(spans, last) && spans != [] && k <= |spans| && t.data != []
    requires k < |spans| ==> spans[k].data != [] && s.data != []
    ensures Placed(Pulled(spans, k, t, s), if last < k then 0 else last - k + 1)
    ensures last < k ==> Pulled(spans, k, t, s) == [t]
  {
    var after := Pulled(spans, k, t, s);
    if k < |spans| {
      assert k <= last;
      assert after[1] == s;
      assert forall i :: 1 < i < |after| ==> after[i] == spans[k + i - 1];
    } else {
      assert after == [t];
    }
  }

  /** `evbuffer_chain_new` rounds every allocation up to a power of two. */
  ghost predicate IsAllocation(total: nat)
  {
    total == MIN_BUFFER_SIZE || (total > MIN_BUFFER_SIZE && total % 2 == 0 && IsAllocation(total / 2))
  }

  class Chain {
    const buffer: array<byte>
    var misalign: nat
    var off: nat

    ghost predicate Fits()
      reads this
    {
      misalign + off <= buffer.Length
    }

    ghost function View(): (s: Span)
      reads this, buffer
      requires Fits()
      ensures s.cap == buffer.Length && s.misalign == misalign && |s.data| == off
    {
      Span(buffer.Length, misalign, buffer[misalign..misalign + off])
    }

    /** The total allocation for `size` bytes: the smallest power of two from 512 up with room for the header too. */
    static method AllocationFor(size: nat) returns (total: nat)
      ensures IsAllocation(total) && size + CHAIN_HEADER <= total
      ensures total == MIN_BUFFER_SIZE || total / 2 < size + CHAIN_HEADER
    {
      var need := size + CHAIN_HEADER;
      total := MIN_BUFFER_SIZE;
      while total < need
        invariant IsAllocation(total)
        invariant total == MIN_BUFFER_SIZE || total / 2 < need
        invariant 0 < total
        decreases need - total
      {
        total := total * 2;
      }
    }

    constructor (size: nat)
      ensures misalign == 0 && off == 0
      ensures fresh(buffer) && size <= buffer.Length && 0 < buffer.Length
      ensures IsAllocation(buffer.Length + CHAIN_HEADER)
      ensures View() == Span(buffer.Length, 0, [])
    {
      var total := AllocationFor(size);
      buffer := new byte[total - CHAIN_HEADER];
      misalign, off := 0, 0;
    }

    /** Room behind the data (`CHAIN_SPACE_LEN`). */
    function SpaceLen(): (n: int)
      reads this
      requires Fits()
      ensures 0 <= n && n + off + misalign == buffer.Length
    {
      buffer.Length - misalign - off
    }

    /** Copy `data` behind the bytes already held. */
    method Append(data: seq<byte>)
      requires Fits() && |data| <= SpaceLen()
      modifies this`off, buffer
      ensures Fits() && View() == old(View()).(data := old(View()).data + data)
    {
      var at := misalign + off;
      forall i | 0 <= i < |data| {
        buffer[at + i] := data[i];
      }
      off := off + |data|;
      assert buffer[misalign..misalign + off] == old(buffer[misalign..misalign + off]) + data;
    }

    /** Copy `data` into the unused room in front of the bytes already held. */
    method Prepend(data: seq<byte>)
      requires Fits() && |data| <= misalign
      modifies this, buffer
      ensures Fits()
      ensures View() == Span(old(View()).cap, old(View()).misalign - |data|, data + old(View()).data)
    {
      var at := misalign - |data|;
      forall i | 0 <= i < |data| {
        buffer[at + i] := data[i];
      }
      misalign, off := at, off + |data|;
      assert buffer[misalign..misalign + off] == data + old(buffer[misalign..misalign + off]);
    }

    /** Treat an empty chunk as unused room in front only. */
    method ToEnd()
      requires off == 0
      modifies this`misalign
      ensures Fits() && View() == Span(buffer.Length, buffer.Length, [])
    {
      misalign := buffer.Length;
    }

    /** Forget the first `n` bytes. */
    method Skip(n: nat)
      requires Fits() && n <= off
      modifies this
      ensures Fits()
      ensures View() == Span(old(View()).cap, old(View()).misalign + n, old(View()).data[n..])
    {
      misalign, off := misalign + n, off - n;
    }

    /** `evbuffer_chain_align`: move the bytes to the very front of the memory. */
    method Align()
      requires Fits()
      modifies this`misalign, buffer
      ensures Fits() && View() == old(View()).(misalign := 0)
    {
      var from := misalign;
      forall i | 0 <= i < off {
        buffer[i] := buffer[from + i];
      }
      misalign := 0;
      assert buffer[..off] == old(buffer[misalign..misalign + off]);
    }

    /** `evbuffer_chain_should_realign` */
    predicate ShouldRealign(datlen: nat)
      reads this
    {
      && buffer.Length - off >= datlen
      && off < buffer.Length / 2
      && off <= MAX_TO_REALIGN
    }

    /** The first `n` bytes, as `memcpy(data, chain->buffer + chain->misalign, n)` reads them. */
    function Front(n: nat): (r: seq<byte>)
      reads this, buffer
      requires Fits() && n <= off
      ensures r == View().data[..n]
    {
      assert buffer[misalign..misalign + n] == buffer[misalign..misalign + off][..n];
      buffer[misalign..misalign + n]
    }
  }

  /** The objects that a list of chains is made of. */
  ghost function Footprint(chains: seq<Chain>): set<object> {
    (set c: Chain | c in chains :: c as object) + (set c: Chain | c in chains :: c.buffer as object)
  }

  /** Distinct objects with distinct memory. */
  ghost predicate Distinct(chains: seq<Chain>) {
    forall i, j :: 0 <= i < j < |chains| ==> chains[i] != chains[j] && chains[i].buffer != chains[j].buffer
  }

  lemma DistinctConcat(a: seq<Chain>, b: seq<Chain>)
    requires Distinct(a) && Distinct(b)
    requires forall i, j :: 0 <= i < |a| && 0 <= j < |b| ==> a[i] != b[j] && a[i].buffer != b[j].buffer
    ensures Distinct(a + b)
  {
    var c := a + b;
    forall i, j | 0 <= i < j < |c|
      ensures c[i] != c[j] && c[i].buffer != c[j].buffer
    {
      if j < |a| {
        assert c[i] == a[i] && c[j] == a[j];
      } else if i < |a| {
        assert c[i] == a[i] && c[j] == b[j - |a|];
      } else {
        assert c[i] == b[i - |a|] && c[j] == b[j - |a|];
      }
    }
  }
}
