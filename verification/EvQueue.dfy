/** The evbuffer byte queue: a list of chunks that behaves as one byte string. */
module EvQueue {
  import opened Bytes
  import opened EvChain

  /** The chains are distinct objects with distinct memory in `mem`, and `spans` is what they hold. */
  ghost predicate Held(chains: seq<Chain>, spans: seq<Span>, mem: set<object>)
    reads mem
    ensures Held(chains, spans, mem) ==> |spans| == |chains|
  {
    && |spans| == |chains|
    && (forall i :: 0 <= i < |chains| ==>
          && chains[i] in mem && chains[i].buffer in mem
          && chains[i].Fits() && 0 < chains[i].buffer.Length && spans[i] == chains[i].View())
    && Distinct(chains)
  }

  /** Two lists of chains that share nothing are one longer list. */
  lemma HeldConcat(a: seq<Chain>, s: seq<Span>, m: set<object>, b: seq<Chain>, t: seq<Span>, n: set<object>)
    requires Held(a, s, m) && Held(b, t, n) && m !! n
    ensures Held(a + b, s + t, m + n)
  {
    DistinctConcat(a, b);
    hide Distinct;
    forall i | 0 <= i < |a + b|
      ensures (a + b)[i] in m + n && (a + b)[i].buffer in m + n && (a + b)[i].Fits() && 0 < (a + b)[i].buffer.Length
      ensures (s + t)[i] == (a + b)[i].View()
    {
      if i < |a| {
        assert (a + b)[i] == a[i] && (s + t)[i] == s[i];
      } else {
        assert (a + b)[i] == b[i - |a|] && (s + t)[i] == t[i - |a|];
      }
    }
  }

  lemma HeldOne(chain: Chain)
    requires chain.Fits() && 0 < chain.buffer.Length
    ensures Held([chain], [chain.View()], {chain, chain.buffer})
  {
  }

  /** The chains of a front and those behind it share nothing. */
  lemma HeldSplit(chains: seq<Chain>, spans: seq<Span>, mem: set<object>, k: nat)
    requires Held(chains, spans, mem) && k <= |chains|
    ensures Footprint(chains[..k]) <= mem
    ensures Held(chains[..k], spans[..k], Footprint(chains[..k])) && Held(chains[..k], spans[..k], mem)
    ensures Held(chains[k..], spans[k..], mem - Footprint(chains[..k]))
  {
    forall i | 0 <= i < k
      ensures chains[i] in Footprint(chains[..k]) && chains[i].buffer in Footprint(chains[..k])
    {
      assert chains[..k][i] == chains[i];
    }
  }

  class EvBuffer {
    var chains: seq<Chain>      // `first` up to `last`, in `next` order
    var lastWithData: nat       // the link `last_with_datap` points at: 0 is `&first`, i is `&chains[i - 1].next`
    var totalLen: nat
    var freezeStart: bool
    var freezeEnd: bool

    ghost var spans: seq<Span>  // the views of the chains
    ghost var Mem: set<object>  // the chains and their memory

    /** The chains are distinct objects with distinct memory, and `spans` is what they hold. */
    ghost predicate Shape()
      reads this`chains, this`spans, this`Mem, Mem
      ensures Shape() ==> |spans| == |chains| && this !in Mem
    {
      this !in Mem && Held(chains, spans, Mem)
    }

    /** The representation invariant: the cached length and the cached last chunk agree with the chunks. */
    ghost predicate Valid()
      reads this`chains, this`spans, this`Mem, this`lastWithData, this`totalLen, Mem
      ensures Valid() ==> |spans| == |chains| && this !in Mem && totalLen == |Contents()|
    {
      && Shape()
      && totalLen == |Contents()|
      && Placed(spans, lastWithData)
    }

    /** The byte string. */
    ghost function Contents(): seq<byte>
      reads this`spans
    {
      Flatten(spans)
    }

    /** No reserved empty chunk stands behind the last chunk with data. */
    ghost predicate NoSpare()
      reads this`chains, this`lastWithData
    {
      chains == [] || lastWithData == |chains| - 1
    }

    constructor ()
      ensures Valid() && NoSpare() && fresh(Mem)
      ensures Contents() == [] && !freezeStart && !freezeEnd
    {
      chains, lastWithData, totalLen := [], 0, 0;
      freezeStart, freezeEnd := false, false;
      spans, Mem := [], {};
    }

    /** `evbuffer_freeze` and `evbuffer_unfreeze`, at the start or at the end of the buffer. */
    method SetFreeze(start: bool, frozen: bool)
      modifies this`freezeStart, this`freezeEnd
      ensures freezeStart == (if start then frozen else old(freezeStart))
      ensures freezeEnd == (if start then old(freezeEnd) else frozen)
    {
      if start {
        freezeStart := frozen;
      } else {
        freezeEnd := frozen;
      }
    }

    /** What the invariant says of one chain. */
    lemma At(k: nat)
      requires Shape() && k < |chains|
      ensures chains[k] in Mem && chains[k].buffer in Mem && 0 < chains[k].buffer.Length
      ensures chains[k].Fits() && spans[k] == chains[k].View() && |spans[k].data| == chains[k].off
    {
    }

    /** The k-th chain and its memory are no other chain's. */
    lemma ProperAt(k: nat)
      requires Shape() && k < |chains|
      ensures spans[k] == chains[k].View()
      ensures forall i :: 0 <= i < |chains| && i != k ==> chains[i] != chains[k] && chains[i].buffer != chains[k].buffer
    {
    }

    /** Keep the first `keep` chains and put `chain` behind them. */
    method CutAndPush(keep: nat, chain: Chain)
      requires Shape() && keep <= |chains| && chain.Fits()
      requires chain !in Mem && chain.buffer !in Mem && 0 < chain.buffer.Length
      modifies this`chains, this`spans, this`Mem
      ensures Shape() && Mem == old(Mem) + {chain, chain.buffer}
      ensures chains == old(chains)[..keep] + [chain] && spans == old(spans)[..keep] + [chain.View()]
    {
      HeldOne(chain);
      HeldSplit(chains, spans, Mem, keep);
      HeldConcat(chains[..keep], spans[..keep], Mem, [chain], [chain.View()], {chain, chain.buffer});
      hide Held, Footprint;
      chains, spans := chains[..keep] + [chain], spans[..keep] + [chain.View()];
      Mem := Mem + {chain, chain.buffer};
    }

    /** The link at which the empty chains behind the data begin; everything from there on may be freed. */
    method FindVictim() returns (ch: nat)
      requires Valid()
      ensures IsVictim(spans, lastWithData, ch)
      ensures forall i :: ch <= i < |spans| ==> spans[i].data == []
    {
      ch := lastWithData;
      while ch < |chains| && chains[ch].off != 0
        invariant lastWithData <= ch <= |chains|
        invariant forall i :: lastWithData <= i < ch ==> spans[i].data != []
      {
        assert spans[ch].data != [];
        ch := ch + 1;
      }
    }

    /**
     * `evbuffer_chain_insert`: append one chunk, first freeing the empty chunks at the end. The bytes are right in
     * every case. The cached link is not moved when the new chunk replaces spare chunks, so the invariant survives
     * exactly when the new chunk is empty, or there was no spare chunk, or there was no data at all.
     */
    method InsertChain(chain: Chain)
      requires Valid() && chain.Fits()
      requires chain !in Mem && chain.buffer !in Mem && 0 < chain.buffer.Length
      modifies this`chains, this`spans, this`Mem, this`totalLen, this`lastWithData
      ensures Shape() && Mem == old(Mem) + {chain, chain.buffer}
      ensures Contents() == old(Contents()) + chain.View().data && totalLen == |Contents()|
      ensures chains != [] && chains[|chains| - 1] == chain
      ensures Valid() <==> chain.off == 0 || old(NoSpare()) || old(totalLen) == 0
      ensures old(NoSpare()) && (chain.off > 0 || old(chains) == []) ==> NoSpare()
      ensures old(chains) == [] ==> chains == [chain]
    {

      hide Shape, Placed, Flatten;
      ghost var last, view := lastWithData, chain.View();
      var ch := FindVictim();
      FlattenReplaceTail(spans, ch, view);
      PlacedAfterInsert(spans, last, ch, view);
      PlacedTotal(spans, last);
      if ch == |chains| && chain.off != 0 {
        lastWithData := ch;
      }
      CutAndPush(ch, chain);
      totalLen := totalLen + chain.off;
    }

    /** An empty last chunk in a buffer that holds bytes is a spare one. */
    lemma EmptyLastIsSpare()
      requires Valid() && chains != [] && chains[|chains| - 1].off == 0 && Contents() != []
      ensures !NoSpare()
    {
      At(|chains| - 1);
      PlacedTotal(spans, lastWithData);
    }

    /**
     * The invariant can be lost: bytes, then an empty chunk as it is inserted to make space, then a chunk with bytes as
     * it is inserted for a reference. The byte string is right, and the cached last chunk is not.
     */
    static method SpareChunkBreaksInvariant() returns (b: EvBuffer)
      ensures fresh(b) && b.Shape() && b.Contents() == [7, 8] && !b.Valid()
    {
      hide EvBuffer.Shape, EvBuffer.Valid, EvBuffer.Contents, EvBuffer.NoSpare;
      b := new EvBuffer();
      var first := NewChain(1, [7]);
      b.InsertChain(first);
      var space := new Chain(64);
      b.InsertChain(space);
      b.EmptyLastIsSpare();
      var reference := NewChain(1, [8]);
      b.InsertChain(reference);
    }

    /** Write behind the bytes of the k-th chain. */
    method WriteBehind(k: nat, data: seq<byte>)
      requires Shape() && k < |chains| && |data| <= chains[k].SpaceLen()
      modifies this`spans, chains[k], chains[k].buffer
      ensures Shape() && spans == old(spans)[k := old(spans)[k].(data := old(spans)[k].data + data)]
    {
      hide Distinct, Chain.View;
      ProperAt(k);
      chains[k].Append(data);
      spans := spans[k := chains[k].View()];
    }

    /** Write in front of the bytes of the k-th chain. */
    method WriteBefore(k: nat, data: seq<byte>)
      requires Shape() && k < |chains| && |data| <= spans[k].misalign
      modifies this`spans, chains[k], chains[k].buffer
      ensures Shape()
      ensures var s := old(spans)[k];
              spans == old(spans)[k := Span(s.cap, s.misalign - |data|, data + s.data)]
    {
      hide Distinct, Chain.View;
      ProperAt(k);
      ghost var s := spans[k];
      chains[k].Prepend(data);
      spans := spans[k := Span(s.cap, s.misalign - |data|, data + s.data)];
    }

    /** Forget the first `n` bytes of the k-th chain. */
    method SkipIn(k: nat, n: nat)
      requires Shape() && k < |chains| && n <= |spans[k].data|
      modifies this`spans, chains[k]
      ensures Shape()
      ensures var s := old(spans)[k];
              spans == old(spans)[k := Span(s.cap, s.misalign + n, s.data[n..])]
    {
      hide Distinct, Chain.View;
      ProperAt(k);
      ghost var s := spans[k];
      chains[k].Skip(n);
      spans := spans[k := Span(s.cap, s.misalign + n, s.data[n..])];
    }

    method AlignIn(k: nat)
      requires Shape() && k < |chains|
      modifies this`spans, chains[k], chains[k].buffer
      ensures Shape() && spans == old(spans)[k := old(spans)[k].(misalign := 0)]
    {
      hide Distinct, Chain.View;
      ProperAt(k);
      chains[k].Align();
      spans := spans[k := chains[k].View()];
    }

    /** Write behind the last chain, which is the one that holds the last data. */
    method AppendToLast(data: seq<byte>)
      requires Valid() && NoSpare() && chains != [] && |data| <= chains[|chains| - 1].SpaceLen()
      modifies this`spans, this`totalLen, Mem
      ensures Valid() && NoSpare()
      ensures Contents() == old(Contents()) + data
    {
      hide Shape, Flatten;
      var k := |chains| - 1;
      At(k);
      WriteBehind(k, data);
      FlattenGrowLast(old(spans), spans[k], data);
      totalLen := totalLen + |data|;
    }

    /** Move the last chain's bytes to the front of its memory. */
    method AlignLast()
      requires Valid() && NoSpare() && chains != []
      modifies this`spans, Mem
      ensures Valid() && NoSpare() && Contents() == old(Contents())
      ensures chains[|chains| - 1].misalign == 0 && chains[|chains| - 1].off == old(chains[|chains| - 1].off)
    {
      var k := |chains| - 1;
      assert spans[k] == chains[k].View();
      AlignIn(k);
      assert spans[k] == chains[k].View();
      FlattenGrowLast(old(spans), spans[k], []);
    }

    /** A buffer without chains gets one that is empty and has room for `size` bytes. */
    method EnsureChain(size: nat)
      requires Valid()
      modifies this`chains, this`spans, this`Mem, this`totalLen, this`lastWithData
      ensures Valid() && chains != [] && Contents() == old(Contents())
      ensures (old(NoSpare()) ==> NoSpare()) && fresh(Mem - old(Mem))
      ensures old(chains) != [] ==> chains == old(chains)
    {
      if chains == [] {
        var first := new Chain(size);
        InsertChain(first);
      }
    }

    /** A new chain with room for `size` bytes that already holds `data`. */
    static method NewChain(size: nat, data: seq<byte>) returns (chain: Chain)
      requires |data| <= size
      ensures fresh(chain) && fresh(chain.buffer) && chain.Fits() && 0 < chain.buffer.Length
      ensures chain.off == |data| && chain.View() == Span(chain.buffer.Length, 0, data)
    {
      chain := new Chain(size);
      chain.Append(data);
    }

    /** The size of the next chain: twice the last one while that is small, and never less than the data. */
    static function GrowTo(last: nat, datlen: nat): (size: nat)
      ensures datlen <= size && last <= size
    {
      var doubled := if last <= MAX_AUTO_SIZE / 2 then last * 2 else last;
      if datlen > doubled then datlen else doubled
    }

    /** Fill up the last chain and put the rest into a new one. */
    method AddNewChain(data: seq<byte>)
      requires Valid() && NoSpare() && chains != [] && chains[|chains| - 1].SpaceLen() < |data|
      modifies this`chains, this`spans, this`Mem, this`totalLen, this`lastWithData, Mem
      ensures Valid() && NoSpare() && fresh(Mem - old(Mem))
      ensures Contents() == old(Contents()) + data
    {
      hide Shape, Placed, Flatten;
      At(|chains| - 1);
      var chain := chains[|chains| - 1];
      var remain := chain.SpaceLen();
      var tmp := NewChain(GrowTo(chain.buffer.Length, |data|), data[remain..]);
      Halves(Contents(), data, remain);
      if remain != 0 {
        AppendToLast(data[..remain]);
      }
      InsertChain(tmp);
    }

    static lemma Halves(s: seq<byte>, data: seq<byte>, n: nat)
      requires n <= |data|
      ensures s + data[..n] + data[n..] == s + data && (n == 0 ==> s + data[n..] == s + data)
    {
      assert data == data[..n] + data[n..];
    }

    /** `evbuffer_add`: append `data`, into the last chain if it has room or can be realigned, else into a new one. */
    method Add(data: seq<byte>) returns (result: int)
      requires Valid() && NoSpare()
      modifies this, Mem
      ensures Valid() && NoSpare() && fresh(Mem - old(Mem))
      ensures freezeStart == old(freezeStart) && freezeEnd == old(freezeEnd)
      ensures result == if old(freezeEnd) then -1 else 0
      ensures Contents() == if old(freezeEnd) then old(Contents()) else old(Contents()) + data
    {
      hide Shape, Placed, Flatten;
      if freezeEnd {
        return -1;
      }
      EnsureChain(|data|);
      At(|chains| - 1);
      var chain := chains[|chains| - 1];
      if chain.SpaceLen() >= |data| {
        AppendToLast(data);
      } else if chain.ShouldRealign(|data|) {
        AlignLast();
        AppendToLast(data);
      } else {
        AddNewChain(data);
      }
      return 0;
    }

    /** Write in front of the first chain's bytes. */
    method WriteToFirst(data: seq<byte>)
      requires Valid() && chains != [] && |data| <= chains[0].misalign
      modifies this`spans, this`totalLen, Mem
      ensures Valid() && Contents() == data + old(Contents())
    {
      hide Shape, Flatten;
      At(0);
      WriteBefore(0, data);
      WriteFirst(old(spans), lastWithData, spans[0], data);
      totalLen := totalLen + |data|;
    }

    /** An empty first chain counts as empty at the beginning rather than at the end. */
    method FirstToEnd()
      requires Valid() && chains != [] && chains[0].off == 0
      modifies this`spans, Mem
      ensures Valid() && Contents() == old(Contents())
      ensures chains[0].misalign == chains[0].buffer.Length && chains[0].off == 0
    {
      hide Distinct, Flatten;
      ProperAt(0);
      chains[0].ToEnd();
      spans := spans[0 := chains[0].View()];
      WriteFirst(old(spans), lastWithData, spans[0], []);
    }

    method PushChainFirst(chain: Chain)
      requires Shape() && chain.Fits()
      requires chain !in Mem && chain.buffer !in Mem && 0 < chain.buffer.Length
      modifies this`chains, this`spans, this`Mem
      ensures Shape() && Mem == old(Mem) + {chain, chain.buffer}
      ensures chains == [chain] + old(chains) && spans == [chain.View()] + old(spans)
    {
      HeldOne(chain);
      HeldConcat([chain], [chain.View()], {chain, chain.buffer}, chains, spans, Mem);
      hide Held;
      assert {chain, chain.buffer} + Mem == Mem + {chain, chain.buffer};
      chains, spans := [chain] + chains, [chain.View()] + spans;
      Mem := Mem + {chain, chain.buffer};
    }

    /** Put a new chain in front. Its bytes stand at the end of its memory, so that more can be prepended. */
    method PushNewFirst(data: seq<byte>)
      requires Valid() && totalLen != 0 && data != []
      modifies this`chains, this`spans, this`Mem, this`totalLen, this`lastWithData
      ensures Valid() && Contents() == data + old(Contents())
      ensures (old(NoSpare()) ==> NoSpare()) && fresh(Mem - old(Mem))
      ensures chains[0].misalign + |data| == chains[0].buffer.Length
    {
      hide Shape, Placed, Flatten;
      PlacedTotal(spans, lastWithData);
      var tmp := new Chain(|data|);
      tmp.ToEnd();
      tmp.Prepend(data);
      PushFirst(spans, lastWithData, tmp.View());
      PushChainFirst(tmp);
      lastWithData := lastWithData + 1;
      totalLen := totalLen + |data|;
    }

    /** The unused room in front of the first chain, after making sure that there is a first chain. */
    method RoomInFront(size: nat) returns (room: nat)
      requires Valid()
      modifies this`chains, this`spans, this`Mem, this`totalLen, this`lastWithData, Mem
      ensures Valid() && chains != [] && Contents() == old(Contents())
      ensures (old(NoSpare()) ==> NoSpare()) && fresh(Mem - old(Mem))
      ensures room == chains[0].misalign && (room != 0 || totalLen != 0)
    {
      hide Shape, Flatten;
      EnsureChain(size);
      At(0);
      if chains[0].off == 0 {
        FirstToEnd();
      }
      room := chains[0].misalign;
      At(0);
      PlacedTotal(spans, lastWithData);
    }

    /** `evbuffer_prepend`: use the unused room in front of the first chain, then a new chain for what is left. */
    method Prepend(data: seq<byte>) returns (result: int)
      requires Valid()
      modifies this, Mem
      ensures Valid() && (old(NoSpare()) ==> NoSpare()) && fresh(Mem - old(Mem))
      ensures freezeStart == old(freezeStart) && freezeEnd == old(freezeEnd)
      ensures result == if old(freezeStart) then -1 else 0
      ensures Contents() == if old(freezeStart) then old(Contents()) else data + old(Contents())
    {
      hide Shape, Placed, Flatten;
      if freezeStart {
        return -1;
      }
      var room := RoomInFront(|data|);
      if room >= |data| {
        WriteToFirst(data);
        return 0;
      }
      var rest := |data| - room;
      if room != 0 {
        WriteToFirst(data[rest..]);
      }
      PushNewFirst(data[..rest]);
      assert data == data[..rest] + data[rest..];
      return 0;
    }

    /** Give up the first `k` chains. */
    method DropChains(k: nat)
      requires Shape() && k <= |chains|
      modifies this`chains, this`spans
      ensures Shape() && chains == old(chains)[k..] && spans == old(spans)[k..]
    {
      chains, spans := chains[k..], spans[k..];
    }

    /** The whole chains at the front that `len` bytes cover, as the loop of `evbuffer_drain` walks over them. */
    method WholeChains(len: nat) returns (k: nat, remaining: nat, link: nat)
      requires Valid() && len < totalLen
      ensures k <= lastWithData < |chains| && remaining < chains[k].off
      ensures |Flatten(spans[..k])| + remaining == len && (k == 0 <==> remaining == len)
      ensures link == if k == lastWithData then 0 else lastWithData
    {
      k, remaining, link := 0, len, lastWithData;
      PlacedTotal(spans, lastWithData);
      At(0);
      while remaining >= chains[k].off
        invariant k <= lastWithData < |chains|
        invariant |Flatten(spans[..k])| + remaining == len && (k == 0 <==> remaining == len)
        invariant link == if k == lastWithData then 0 else lastWithData
        decreases lastWithData - k
      {
        Advance(spans, lastWithData, k);
        assert k != lastWithData;
        remaining := remaining - chains[k].off;
        link := if k == link || k + 1 == link then 0 else link;
        k := k + 1;
      }
    }

    /** `evbuffer_drain`: remove the first `len` bytes, or all of them if there are fewer. */
    method Drain(len: nat) returns (result: int)
      requires Valid()
      modifies this, Mem
      ensures Valid() && (old(NoSpare()) ==> NoSpare()) && fresh(Mem - old(Mem))
      ensures freezeStart == old(freezeStart) && freezeEnd == old(freezeEnd)
      ensures result == if old(freezeStart) && old(totalLen) != 0 then -1 else 0
      ensures Contents() == if result == -1 then old(Contents()) else old(Contents())[Min(len, |old(Contents())|)..]
    {
      if totalLen == 0 {
        return 0;
      }
      if freezeStart {
        return -1;
      }
      if len >= totalLen {
        ZeroChain();
        return 0;
      }
      DrainSome(len);
      return 0;
    }

    /** The general case of `evbuffer_drain`: less than everything goes. */
    method DrainSome(len: nat)
      requires Valid() && len < totalLen
      modifies this`chains, this`spans, this`totalLen, this`lastWithData, Mem
      ensures Valid() && (old(NoSpare()) ==> NoSpare())
      ensures Contents() == old(Contents())[len..]
    {
      hide Shape, Placed, Flatten;
      ghost var before, last := spans, lastWithData;
      var k, remaining, link := WholeChains(len);
      At(k);
      DropChains(k);
      At(0);
      SkipIn(0, remaining);
      DropFront(before, k, spans[0], remaining);
      DropFrontPlaced(before, last, k, spans[0]);
      totalLen := totalLen - len;
      lastWithData := if link == 0 then 0 else link - k;
    }

    /** `evbuffer_copyout`: the first `datlen` bytes, or all of them if there are fewer. */
    method CopyOut(datlen: nat) returns (result: int, data: seq<byte>)
      requires Valid()
      ensures var n := Min(datlen, |Contents()|);
              if n != 0 && freezeStart then result == -1 && data == []
              else result == n && data == Contents()[..n]
    {
      hide Shape, Placed, Flatten;
      var left: nat := if datlen >= totalLen then totalLen else datlen;
      data := [];
      if left == 0 {
        return 0, [];
      }
      if freezeStart {
        return -1, [];
      }
      result := left;
      var k := 0;
      PlacedTotal(spans, lastWithData);
      FlattenEmpty(spans[..0]);
      while left != 0 && left >= chains[k].off
        invariant k <= |chains| && (left != 0 ==> k <= lastWithData < |chains|)
        invariant |data| + left == result <= totalLen
        invariant data == Flatten(spans[..k])
        decreases |chains| - k
      {
        At(k);
        Advance(spans, lastWithData, k);
        FlattenTake(spans, k);
        data := data + chains[k].Front(chains[k].off);
        left := left - chains[k].off;
        k := k + 1;
      }
      if left != 0 {
        At(k);
        data := data + chains[k].Front(left);
      }
      TakeFront(spans, k, left);
    }

    /** `evbuffer_remove`: read bytes and drain the bytes read. */
    method Remove(datlen: nat) returns (result: int, data: seq<byte>)
      requires Valid()
      modifies this, Mem
      ensures Valid() && (old(NoSpare()) ==> NoSpare()) && fresh(Mem - old(Mem))
      ensures freezeStart == old(freezeStart) && freezeEnd == old(freezeEnd)
      ensures var n := Min(datlen, |old(Contents())|);
              if n != 0 && freezeStart then result == -1 && data == [] && Contents() == old(Contents())
              else result == n && data == old(Contents())[..n] && Contents() == old(Contents())[n..]
    {
      hide Shape, Placed, Flatten;
      result, data := CopyOut(datlen);
      if result > 0 {
        var drained := Drain(result);
        if drained < 0 {
          result := -1;
        }
      }
    }

    /** Two buffers that share neither chains nor memory. */
    ghost predicate Apart(other: EvBuffer)
      reads this`Mem, other`Mem
    {
      this != other && Mem !! other.Mem && this !in other.Mem && other !in Mem
    }

    /** Own the chains of both buffers, the `front` ones first; `inbuf` is left without any. */
    method LinkChains(inbuf: EvBuffer, front: EvBuffer, back: EvBuffer)
      requires Shape() && inbuf.Shape() && Apart(inbuf)
      requires (front == this && back == inbuf) || (front == inbuf && back == this)
      modifies this`chains, this`spans, this`Mem, inbuf`chains, inbuf`spans, inbuf`Mem
      ensures Shape() && inbuf.Shape() && Apart(inbuf)
      ensures Mem == old(Mem) + old(inbuf.Mem) && inbuf.Mem == {}
      ensures chains == old(front.chains) + old(back.chains) && inbuf.chains == []
      ensures spans == old(front.spans) + old(back.spans) && inbuf.spans == []
    {
      hide Held;
      NothingHeld();
      HeldConcat(front.chains, front.spans, front.Mem, back.chains, back.spans, back.Mem);
      assert front.Mem + back.Mem == Mem + inbuf.Mem;
      chains, spans := front.chains + back.chains, front.spans + back.spans;
      Mem := Mem + inbuf.Mem;
      inbuf.chains, inbuf.spans, inbuf.Mem := [], [], {};
    }

    static lemma NothingHeld()
      ensures Held([], [], {})
    {
    }

    /** `ZERO_CHAIN`, and `evbuffer_free_all_chains` before `COPY_CHAIN`. */
    method ZeroChain()
      modifies this`chains, this`spans, this`lastWithData, this`totalLen
      ensures this !in Mem ==> Valid()
      ensures chains == [] && spans == [] && totalLen == 0 && lastWithData == 0 && Contents() == []
    {
      chains, spans, lastWithData, totalLen := [], [], 0, 0;
    }

    /** What `evbuffer_add_buffer` and `evbuffer_prepend_buffer` do once they have decided to move everything. */
    method MoveAll(inbuf: EvBuffer, behind: bool)
      requires Valid() && inbuf.Valid() && Apart(inbuf) && inbuf.totalLen != 0
      requires totalLen == 0 || (if behind then NoSpare() else inbuf.NoSpare())
      modifies this`chains, this`spans, this`Mem, this`lastWithData, this`totalLen
      modifies inbuf`chains, inbuf`spans, inbuf`Mem, inbuf`lastWithData, inbuf`totalLen
      ensures Valid() && inbuf.Valid() && Apart(inbuf) && Mem + inbuf.Mem == old(Mem) + old(inbuf.Mem)
      ensures Contents() == if behind then old(Contents()) + old(inbuf.Contents())
                            else old(inbuf.Contents()) + old(Contents())
      ensures inbuf.Contents() == [] && inbuf.chains == []
      ensures old(NoSpare()) && old(inbuf.NoSpare()) ==> NoSpare()
    {
      hide Shape, Placed, Flatten;
      PlacedTotal(spans, lastWithData);
      PlacedTotal(inbuf.spans, inbuf.lastWithData);
      var link: nat;
      if totalLen == 0 {
        assert Contents() == [];
        ZeroChain();
        assert [] + inbuf.spans == inbuf.spans == inbuf.spans + [];
        link := inbuf.lastWithData;
      } else if behind {
        PlacedConcat(spans, lastWithData, inbuf.spans, inbuf.lastWithData);
        link := |chains| + inbuf.lastWithData;
      } else {
        PlacedConcat(inbuf.spans, inbuf.lastWithData, spans, lastWithData);
        link := |inbuf.chains| + lastWithData;
      }
      totalLen := totalLen + inbuf.totalLen;
      lastWithData := link;
      if behind {
        LinkChains(inbuf, this, inbuf);
      } else {
        LinkChains(inbuf, inbuf, this);
      }
      inbuf.ZeroChain();
    }

    /** `evbuffer_add_buffer` */
    method AddBuffer(inbuf: EvBuffer) returns (result: int)
      requires Valid() && inbuf.Valid() && (inbuf != this ==> Apart(inbuf))
      requires totalLen == 0 || NoSpare()
      modifies this, inbuf
      ensures Valid() && inbuf.Valid() && (inbuf != this ==> Apart(inbuf))
      ensures Mem + inbuf.Mem == old(Mem) + old(inbuf.Mem)
      ensures freezeStart == old(freezeStart) && freezeEnd == old(freezeEnd)
      ensures inbuf.freezeStart == old(inbuf.freezeStart) && inbuf.freezeEnd == old(inbuf.freezeEnd)
      ensures var moves := inbuf != this && old(inbuf.totalLen) != 0;
              if moves && !old(freezeEnd) && !old(inbuf.freezeStart) then
                result == 0 && Contents() == old(Contents()) + old(inbuf.Contents()) && inbuf.Contents() == []
              else
                && result == (if moves then -1 else 0)
                && Contents() == old(Contents()) && inbuf.Contents() == old(inbuf.Contents())
      ensures old(NoSpare()) && old(inbuf.NoSpare()) ==> NoSpare() && inbuf.NoSpare()
    {
      hide Shape, Placed, Flatten;
      if inbuf.totalLen == 0 || inbuf == this {
        return 0;
      }
      if freezeEnd || inbuf.freezeStart {
        return -1;
      }
      MoveAll(inbuf, true);
      return 0;
    }

    /** `evbuffer_prepend_buffer` */
    method PrependBuffer(inbuf: EvBuffer) returns (result: int)
      requires Valid() && inbuf.Valid() && (inbuf != this ==> Apart(inbuf))
      requires totalLen == 0 || inbuf.NoSpare()
      modifies this, inbuf
      ensures Valid() && inbuf.Valid() && (inbuf != this ==> Apart(inbuf))
      ensures Mem + inbuf.Mem == old(Mem) + old(inbuf.Mem)
      ensures freezeStart == old(freezeStart) && freezeEnd == old(freezeEnd)
      ensures inbuf.freezeStart == old(inbuf.freezeStart) && inbuf.freezeEnd == old(inbuf.freezeEnd)
      ensures var moves := inbuf != this && old(inbuf.totalLen) != 0;
              if moves && !old(freezeStart) && !old(inbuf.freezeStart) then
                result == 0 && Contents() == old(inbuf.Contents()) + old(Contents()) && inbuf.Contents() == []
              else
                && result == (if moves then -1 else 0)
                && Contents() == old(Contents()) && inbuf.Contents() == old(inbuf.Contents())
      ensures old(NoSpare()) && old(inbuf.NoSpare()) ==> NoSpare() && inbuf.NoSpare()
    {
      hide Shape, Placed, Flatten;
      if inbuf.totalLen == 0 || inbuf == this {
        return 0;
      }
      if freezeStart || inbuf.freezeStart {
        return -1;
      }
      MoveAll(inbuf, false);
      return 0;
    }

    /** `advance_last_with_data`: follow the chains as long as the next one holds data. */
    method AdvanceLastWithData()
      requires Shape() && (if chains == [] then lastWithData == 0 else lastWithData < |chains|)
      modifies this`lastWithData
      ensures old(lastWithData) <= lastWithData && (if chains == [] then lastWithData == 0 else lastWithData < |chains|)
      ensures forall i :: old(lastWithData) < i <= lastWithData ==> spans[i].data != []
      ensures lastWithData + 1 < |spans| ==> spans[lastWithData + 1].data == []
    {
      if lastWithData == |chains| {
        return;
      }
      while lastWithData + 1 < |chains| && chains[lastWithData + 1].off != 0
        invariant old(lastWithData) <= lastWithData < |chains|
        invariant forall i :: old(lastWithData) < i <= lastWithData ==> spans[i].data != []
        decreases |chains| - lastWithData
      {
        assert spans[lastWithData + 1].data != [];
        lastWithData := lastWithData + 1;
      }
    }

    /** Give up the first `k` chains together with their memory. */
    method LoseFront(k: nat)
      requires Shape() && k <= |chains|
      modifies this`chains, this`spans, this`Mem
      ensures Shape() && chains == old(chains)[k..] && spans == old(spans)[k..]
      ensures Mem == old(Mem) - Footprint(old(chains)[..k])
    {
      HeldSplit(chains, spans, Mem, k);
      hide Held, Footprint;
      ghost var moved := Footprint(chains[..k]);
      chains, spans, Mem := chains[k..], spans[k..], Mem - moved;
    }

    /** Hang foreign chains behind the first `keep` chains. */
    method TakeOver(keep: nat, taken: seq<Chain>, ghost views: seq<Span>, ghost mem: set<object>)
      requires Shape() && keep <= |chains| && Held(taken, views, mem) && Mem !! mem && this !in mem
      modifies this`chains, this`spans, this`Mem
      ensures Shape() && Mem == old(Mem) + mem
      ensures chains == old(chains)[..keep] + taken && spans == old(spans)[..keep] + views
    {
      HeldSplit(chains, spans, Mem, keep);
      HeldConcat(chains[..keep], spans[..keep], Mem, taken, views, mem);
      hide Held, Footprint;
      chains, spans, Mem := chains[..keep] + taken, spans[..keep] + views, Mem + mem;
    }

    /** Hang the first `k` chains behind the first `keep` chains of `dst`. */
    method GiveFront(dst: EvBuffer, keep: nat, k: nat)
      requires Shape() && dst.Shape() && Apart(dst) && keep <= |dst.chains| && k <= |chains|
      modifies this`chains, this`spans, this`Mem, dst`chains, dst`spans, dst`Mem
      ensures Shape() && dst.Shape() && Apart(dst) && Mem + dst.Mem == old(Mem) + old(dst.Mem)
      ensures chains == old(chains)[k..] && spans == old(spans)[k..]
      ensures dst.chains == old(dst.chains)[..keep] + old(chains)[..k]
      ensures dst.spans == old(dst.spans)[..keep] + old(spans)[..k]
    {
      HeldSplit(chains, spans, Mem, k);
      hide Held, Footprint;
      var taken := chains[..k];
      ghost var views, moved := spans[..k], Footprint(chains[..k]);
      LoseFront(k);
      dst.TakeOver(keep, taken, views, moved);
    }

    /** Relink the first `k` chains, all with data, to the end of `dst`, whose trailing empty chain is freed. */
    method RelinkFront(dst: EvBuffer, k: nat, nread: nat)
      requires Valid() && dst.Valid() && Apart(dst) && 0 < k <= lastWithData < |chains|
      requires nread == |Flatten(spans[..k])|
      modifies this`chains, this`spans, this`Mem
      modifies dst`chains, dst`spans, dst`Mem, dst`lastWithData, dst`totalLen
      ensures Shape() && dst.Valid() && dst.NoSpare() && Apart(dst) && Mem + dst.Mem == old(Mem) + old(dst.Mem)
      ensures chains == old(chains)[k..] && spans == old(spans)[k..]
      ensures dst.Contents() == old(dst.Contents()) + Flatten(old(spans)[..k])
    {
      hide Shape, Placed, Flatten;
      ghost var taken, before, last := spans[..k], dst.spans, dst.lastWithData;
      FrontHoldsData(spans, lastWithData, k);
      var ch := dst.FindVictim();
      PlacedSplice(before, last, ch, taken);
      FlattenSplice(before, ch, taken);
      GiveFront(dst, ch, k);
      dst.AdvanceLastWithData();
      dst.totalLen := dst.totalLen + nread;
    }

    /** Copy the first `n` bytes of the first chain to `dst` and skip them here. */
    method CopyFromFirst(dst: EvBuffer, n: nat)
      requires Shape() && chains != [] && n <= chains[0].off
      requires dst.Valid() && dst.NoSpare() && Apart(dst) && !dst.freezeEnd
      modifies this`spans, Mem, dst, dst.Mem
      ensures Shape() && dst.Valid() && dst.NoSpare() && Apart(dst) && fresh(dst.Mem - old(dst.Mem))
      ensures dst.freezeStart == old(dst.freezeStart) && dst.freezeEnd == old(dst.freezeEnd)
      ensures dst.Contents() == old(dst.Contents()) + old(spans)[0].data[..n]
      ensures exists s: Span :: s.data == old(spans)[0].data[n..] && spans == old(spans)[0 := s]
    {
      hide Shape, Placed, Flatten;
      At(0);
      var data := chains[0].Front(n);
      SkipIn(0, n);
      var added := dst.Add(data);
    }

    /** `evbuffer_remove_buffer` when some data stays behind: relink whole chains, then copy what is left. */
    method RemoveSome(dst: EvBuffer, datlen: nat)
      requires Valid() && dst.Valid() && Apart(dst) && dst.NoSpare() && !dst.freezeEnd && datlen < totalLen
      modifies this`chains, this`spans, this`Mem, this`lastWithData, this`totalLen, Mem, dst, dst.Mem
      ensures Valid() && dst.Valid() && Apart(dst) && dst.NoSpare() && (old(NoSpare()) ==> NoSpare())
      ensures fresh(Mem + dst.Mem - old(Mem) - old(dst.Mem))
      ensures dst.freezeStart == old(dst.freezeStart) && dst.freezeEnd == old(dst.freezeEnd)
      ensures dst.Contents() == old(dst.Contents()) + old(Contents())[..datlen]
      ensures Contents() == old(Contents())[datlen..]
    {
      hide Shape, Placed, Flatten;
      ghost var before, last := spans, lastWithData;
      var k, remaining, link := WholeChains(datlen);
      At(k);
      TakeFront(before, k, remaining);
      FlattenEmpty(before[..0]);
      if k != 0 {
        RelinkFront(dst, k, datlen - remaining);
      }
      assert spans == before[k..];
      At(0);
      CopyFromFirst(dst, remaining);
      DropFront(before, k, spans[0], remaining);
      DropFrontPlaced(before, last, k, spans[0]);
      totalLen := totalLen - datlen;
      lastWithData := if link == 0 then 0 else link - k;
    }

    /** `evbuffer_remove_buffer`: move the first `datlen` bytes, or all of them if there are fewer, to `dst`. */
    method RemoveBuffer(dst: EvBuffer, datlen: nat) returns (result: int)
      requires Valid() && dst.Valid() && (dst != this ==> Apart(dst)) && dst.NoSpare()
      modifies this, Mem, dst, dst.Mem
      ensures Valid() && dst.Valid() && (dst != this ==> Apart(dst))
      ensures old(NoSpare()) ==> NoSpare() && dst.NoSpare()
      ensures fresh(Mem + dst.Mem - old(Mem) - old(dst.Mem))
      ensures freezeStart == old(freezeStart) && freezeEnd == old(freezeEnd)
      ensures dst.freezeStart == old(dst.freezeStart) && dst.freezeEnd == old(dst.freezeEnd)
      ensures if datlen == 0 || dst == this || old(dst.freezeEnd) || old(freezeStart) then
                && result == (if datlen == 0 || dst == this then 0 else -1)
                && Contents() == old(Contents()) && dst.Contents() == old(dst.Contents())
              else
                var n := Min(datlen, |old(Contents())|);
                && result == n
                && dst.Contents() == old(dst.Contents()) + old(Contents())[..n]
                && Contents() == old(Contents())[n..]
    {
      hide Shape, Placed, Flatten;
      if datlen == 0 || dst == this {
        return 0;
      }
      if dst.freezeEnd || freezeStart {
        return -1;
      }
      if datlen >= totalLen {
        result := totalLen;
        var added := dst.AddBuffer(this);
        return;
      }
      RemoveSome(dst, datlen);
      return datlen;
    }

    /**
     * The bytes of the chains from `from` on that `size` covers
     * entirely, as the loop of `evbuffer_pullup` copies them.
     */
    method Gather(from: nat, size: nat)
      returns (k: nat, left: nat, data: seq<byte>, removedLastWithData: bool, removedLastWithDatap: bool)
      requires Valid() && from <= |chains| && size <= |Flatten(spans[from..])|
      ensures from <= k <= |chains| && |data| + left == size
      ensures Flatten(spans[..k]) == Flatten(spans[..from]) + data
      ensures if k < |chains| then left < chains[k].off else left == 0
      ensures removedLastWithData <==> from <= lastWithData < k
      ensures removedLastWithDatap <==> from < lastWithData <= k
    {
      hide Shape, Placed, Flatten;
      k, left, data, removedLastWithData, removedLastWithDatap := from, size, [], false, false;
      while k < |chains| && left >= chains[k].off
        invariant from <= k <= |chains| && |data| + left == size
        invariant Flatten(spans[..k]) == Flatten(spans[..from]) + data
        invariant left <= |Flatten(spans[k..])|
        invariant removedLastWithData <==> from <= lastWithData < k
        invariant removedLastWithDatap <==> from < lastWithData <= k
        decreases |chains| - k
      {
        At(k);
        FlattenTake(spans, k);
        FlattenDrop(spans, k);
        data := data + chains[k].Front(chains[k].off);
        left := left - chains[k].off;
        removedLastWithData := removedLastWithData || k == lastWithData;
        removedLastWithDatap := removedLastWithDatap || k + 1 == lastWithData;
        k := k + 1;
      }
      if k == |chains| {
        FlattenEmpty(spans[k..]);
      }
    }

    /** Free the chains from the second up to the k-th. */
    method KeepFirst(k: nat)
      requires Shape() && 1 <= k <= |chains|
      modifies this`chains, this`spans
      ensures Shape() && chains == [old(chains)[0]] + old(chains)[k..] && spans == [old(spans)[0]] + old(spans)[k..]
    {
      assert Distinct([chains[0]] + chains[k..]);
      hide Distinct;
      chains, spans := [chains[0]] + chains[k..], [spans[0]] + spans[k..];
    }

    /** The bytes of the k-th chain that a copy of `left` more bytes takes, and the view that is left of it. */
    method TakeLeft(k: nat, left: nat) returns (data: seq<byte>, ghost s: Span)
      requires Shape() && k <= |chains| && (if k < |chains| then left < chains[k].off else left == 0)
      modifies this`spans, Mem
      ensures Shape()
      ensures if k < |chains| then spans == old(spans)[k := s] else spans == old(spans)
      ensures k < |chains| ==> left < |old(spans)[k].data| && s.data == old(spans)[k].data[left..]
      ensures data == if k < |chains| then old(spans)[k].data[..left] else []
    {
      hide Shape;
      data, s := [], Span(0, 0, []);
      if k < |chains| {
        At(k);
        data := chains[k].Front(left);
        SkipIn(k, left);
        s := spans[k];
      }
    }

    /** The chains up to the k-th go; their bytes are in `data`, behind those of the first chain if that one is kept. */
    method Rebuild(k: nat, data: seq<byte>, reuse: bool, n: nat)
      requires Shape() && k <= |chains| && |data| <= n
      requires reuse ==> 1 <= k && |data| <= chains[0].SpaceLen()
      modifies this`chains, this`spans, this`Mem, Mem
      ensures Shape() && chains != [] && fresh(Mem - old(Mem))
      ensures spans[1..] == old(spans)[k..]
      ensures spans[0].data == (if reuse then old(spans)[0].data else []) + data
    {
      hide Shape;
      if reuse {
        At(0);
        WriteBehind(0, data);
        KeepFirst(k);
      } else {
        var tmp := NewChain(n, data);
        DropChains(k);
        PushChainFirst(tmp);
      }
    }

    /** Copy `left` bytes of the k-th chain behind `data`, and let one chain with the result replace what was copied. */
    method CopyAndRebuild(k: nat, left: nat, data: seq<byte>, reuse: bool, n: nat) returns (ghost s: Span)
      requires Shape() && k <= |chains| && |data| + left <= n
      requires if k < |chains| then left < chains[k].off else left == 0
      requires reuse ==> 1 <= k && |data| + left <= chains[0].SpaceLen()
      modifies this`chains, this`spans, this`Mem, Mem
      ensures Shape() && chains != [] && fresh(Mem - old(Mem))
      ensures spans[1..] == if k < |old(spans)| then [s] + old(spans)[k + 1..] else []
      ensures if k < |old(spans)| then left < |old(spans)[k].data| && s.data == old(spans)[k].data[left..]
              else left == 0
      ensures spans[0].data == (if reuse then old(spans)[0].data else []) + data
                             + if k < |old(spans)| then old(spans)[k].data[..left] else []
    {
      hide Shape;
      ghost var before := spans;
      if reuse {
        At(0);
      }
      var rest;
      rest, s := TakeLeft(k, left);
      CopiedAway(before, spans, k, s, reuse, data, rest);
      if reuse {
        At(0);
      }
      Rebuild(k, data + rest, reuse, n);
    }

    static lemma CopiedAway(before: seq<Span>, after: seq<Span>, k: nat, s: Span, reuse: bool,
                            data: seq<byte>, rest: seq<byte>)
      requires k <= |before| && after == (if k < |before| then before[k := s] else before) && (reuse ==> 1 <= k)
      ensures after[k..] == if k < |before| then [s] + before[k + 1..] else []
      ensures reuse ==> after[0] == before[0]
      ensures (if reuse then before[0].data else []) + (data + rest)
           == (if reuse then before[0].data else []) + data + rest
    {
    }

    /** Gather the chains that `n` bytes cover, the first one not counted if its memory will be used again. */
    method GatherFor(n: nat, reuse: bool)
      returns (k: nat, left: nat, data: seq<byte>, removedLastWithData: bool, removedLastWithDatap: bool)
      requires Valid() && chains != [] && chains[0].off < n <= totalLen
      ensures k <= |chains| && (reuse ==> 1 <= k) && lastWithData != 0
      ensures (if reuse then spans[0].data else []) + data == Flatten(spans[..k]) && |Flatten(spans[..k])| + left == n
      ensures if k < |chains| then left < chains[k].off else left == 0
      ensures removedLastWithData <==> lastWithData < k
      ensures removedLastWithDatap ==> lastWithData <= k
      ensures !removedLastWithDatap && !removedLastWithData ==> lastWithData > k || lastWithData == k == 1
    {
      hide Shape, Placed, Flatten;
      At(0);
      PlacedTotal(spans, lastWithData);
      FlattenEmpty(spans[..0]);
      assert spans[..0] == [] && spans[0..] == spans;
      if reuse {
        FlattenCut(spans, 1);
        FlattenOne(spans[..1]);
        k, left, data, removedLastWithData, removedLastWithDatap := Gather(1, n - chains[0].off);
      } else {
        k, left, data, removedLastWithData, removedLastWithDatap := Gather(0, n);
      }
    }

    /** Copy the first `n` bytes into the first chain if it has the room, else into a new one that takes its place. */
    method PullBytes(n: nat)
      returns (k: nat, removedLastWithData: bool, removedLastWithDatap: bool, left: nat, ghost s: Span)
      requires Valid() && chains != [] && chains[0].off < n <= totalLen
      modifies this`chains, this`spans, this`Mem, Mem
      ensures Shape() && fresh(Mem - old(Mem)) && chains != []
      ensures k <= |old(spans)| && spans[1..] == if k < |old(spans)| then [s] + old(spans)[k + 1..] else []
      ensures if k < |old(spans)| then left < |old(spans)[k].data| && s.data == old(spans)[k].data[left..]
              else left == 0
      ensures spans[0].data == Flatten(old(spans)[..k]) + if k < |old(spans)| then old(spans)[k].data[..left] else []
      ensures |spans[0].data| == n
      ensures lastWithData != 0 && (removedLastWithData <==> lastWithData < k)
      ensures removedLastWithDatap ==> lastWithData <= k
      ensures !removedLastWithDatap && !removedLastWithData ==> lastWithData > k || lastWithData == k == 1
    {
      hide Shape, Placed, Flatten;
      At(0);
      var reuse := chains[0].buffer.Length - chains[0].misalign >= n;
      var data;
      k, left, data, removedLastWithData, removedLastWithDatap := GatherFor(n, reuse);
      s := CopyAndRebuild(k, left, data, reuse, n);
    }

    static lemma PulledIs(after: seq<Span>, before: seq<Span>, k: nat, s: Span)
      requires k <= |before| && after != [] && after[1..] == if k < |before| then [s] + before[k + 1..] else []
      ensures after == Pulled(before, k, after[0], s)
    {
      assert after == [after[0]] + after[1..];
    }

    /** The general case of `evbuffer_pullup`. */
    method PullTogether(n: nat)
      requires Valid() && chains != [] && chains[0].off < n <= totalLen
      modifies this`chains, this`spans, this`Mem, this`lastWithData, Mem
      ensures Valid() && Contents() == old(Contents()) && fresh(Mem - old(Mem))
      ensures chains != [] && |spans[0].data| == n
      ensures old(NoSpare()) ==> NoSpare()
    {
      hide Shape, Placed, Flatten;
      ghost var before, last := spans, lastWithData;
      PlacedTotal(before, last);
      var k, removedLastWithData, removedLastWithDatap, left;
      ghost var s;
      k, removedLastWithData, removedLastWithDatap, left, s := PullBytes(n);
      PulledFlatten(before, k, left, spans[0], s);
      PulledPlaced(before, last, k, spans[0], s);
      PulledIs(spans, before, k, s);
      if removedLastWithData {
        lastWithData := 0;
      } else if removedLastWithDatap {
        At(1);
        var link := if |chains| > 1 && chains[1].off != 0 then 1 else 0;
        lastWithData := link;
      } else {
        lastWithData := lastWithData + 1 - k;
      }
    }

    /**
     * `evbuffer_pullup`: make the first `size` bytes contiguous (all bytes for a negative `size`) and return them; the
     * byte string does not change.
     */
    method Pullup(size: int) returns (result: Option<seq<byte>>)
      requires Valid()
      modifies this, Mem
      ensures Valid() && (old(NoSpare()) ==> NoSpare()) && fresh(Mem - old(Mem))
      ensures freezeStart == old(freezeStart) && freezeEnd == old(freezeEnd)
      ensures Contents() == old(Contents())
      ensures var n := if size < 0 then |Contents()| else size;
              if n == 0 || n > |Contents()| then result == None
              else result == Some(Contents()[..n]) && chains != [] && n <= chains[0].off
    {
      hide Shape, Placed, Flatten;
      var n := if size < 0 then totalLen else size;
      if n == 0 || n > totalLen {
        return None;
      }
      PlacedTotal(spans, lastWithData);
      if chains[0].off < n {
        PullTogether(n);
      }
      At(0);
      TakeFront(spans, 0, n);
      FlattenEmpty(spans[..0]);
      assert [] + spans[0].data[..n] == spans[0].data[..n];
      return Some(chains[0].Front(n));
    }
  }
}
