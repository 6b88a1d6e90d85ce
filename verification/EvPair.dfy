/** A pair of bufferevents: what one end writes, the other end reads. */
module EvPair {
  import opened Bytes
  import opened EvQueue

  datatype FlushMode = Normal | Flushing | Finished

  /** A buffer whose front may change but whose end may not: the input of an end. */
  ghost predicate InputOk(b: EvBuffer)
    reads b, b.Mem
  {
    b.Valid() && b.NoSpare() && !b.freezeStart && b.freezeEnd
  }

  /** A buffer whose end may change but whose front may not: the output of an end. */
  ghost predicate OutputOk(b: EvBuffer)
    reads b, b.Mem
  {
    b.Valid() && b.NoSpare() && b.freezeStart && !b.freezeEnd
  }

  /** What the user has chosen at an end. */
  datatype Settings = Settings(readEnabled: bool, writeEnabled: bool, high: nat)

  /** One end as a value. */
  datatype Side = Side(input: seq<byte>, output: seq<byte>, settings: Settings, suspended: bool)

  /** Both ends as values. */
  datatype Sides = Sides(x: Side, y: Side)

  /** One end (`struct bufferevent_pair`), with the read high-water mark and the watermark's suspension of reading. */
  class End {
    const input: EvBuffer
    const output: EvBuffer
    var readEnabled: bool
    var writeEnabled: bool
    var high: nat            // wm_read.high; 0 means that there is no mark
    var suspended: bool      // BEV_SUSPEND_WM is set in read_suspended

    ghost var written: seq<byte>   // everything ever written to this end
    ghost var consumed: seq<byte>  // everything ever read from this end

    constructor ()
      ensures fresh(input) && fresh(output) && fresh(input.Mem) && fresh(output.Mem)
      ensures Sound() && input.Contents() == output.Contents() == [] && written == consumed == []
      ensures writeEnabled && !readEnabled && high == 0 && !suspended
    {
      hide EvBuffer.Valid, EvBuffer.Contents;
      input := new EvBuffer();
      output := new EvBuffer();
      readEnabled, writeEnabled, high, suspended := false, true, 0, false;
      written, consumed := [], [];
      new;
      input.SetFreeze(false, true);
      output.SetFreeze(true, true);
    }

    ghost function Choice(): Settings
      reads this
    {
      Settings(readEnabled, writeEnabled, high)
    }

    ghost function Seen(): Side
      reads this, input, output
    {
      Side(input.Contents(), output.Contents(), Choice(), suspended)
    }

    /** Between calls the reading side may only be drained and the writing side only be appended to. */
    ghost predicate Sound()
      reads this, input, input.Mem, output, output.Mem
    {
      InputOk(input) && OutputOk(output) && input.Apart(output) && this !in input.Mem && this !in output.Mem
    }
  }

  ghost function Both(x: End, y: End): Sides
    reads x, y, x.input, x.output, y.input, y.output
  {
    Sides(x.Seen(), y.Seen())
  }

  ghost predicate Separate(x: End, y: End)
    reads x, y, x.input, x.output, y.input, y.output
  {
    && x != y && x !in y.input.Mem && x !in y.output.Mem && y !in x.input.Mem && y !in x.output.Mem
    && x.input.Apart(y.input) && x.input.Apart(y.output) && x.output.Apart(y.input) && x.output.Apart(y.output)
  }

  ghost predicate Pair(x: End, y: End)
    reads x, x.input, x.input.Mem, x.output, x.output.Mem, y, y.input, y.input.Mem, y.output, y.output.Mem
  {
    x.Sound() && y.Sound() && Separate(x, y)
  }

  /** Nothing is lost, repeated or reordered on the way from `src` to `dst`. */
  ghost predicate Conserved(src: End, dst: End)
    reads src, dst, src.output, dst.input
  {
    dst.consumed + dst.input.Contents() + src.output.Contents() == src.written
  }

  /** Bytes wait on the writing side only while a direction is switched off or the reader is at its high-water mark. */
  ghost predicate NoStall(src: End, dst: End)
    reads src, dst, src.output, dst.input
  {
    src.writeEnabled && dst.readEnabled && src.output.Contents() != [] ==>
      0 < dst.high <= |dst.input.Contents()|
  }

  /** Reading is suspended only at the high-water mark. */
  ghost predicate SuspendedAtMark(bev: End)
    reads bev, bev.input
  {
    bev.suspended ==> 0 < bev.high <= |bev.input.Contents()|
  }

  /** How many bytes one transfer moves: all, or as many as the reader has room for below its high-water mark. */
  function Quota(waiting: nat, held: nat, high: nat, ignoreWm: bool): (n: nat)
    ensures n <= waiting
  {
    if high == 0 then waiting
    else if held < high then Min(high - held, waiting)
    else if ignoreWm then waiting
    else 0
  }

  /** A call on the first or on the second end of a pair. */
  datatype Call =
    | CallWrite(data: seq<byte>)
    | CallRead(n: nat)
    | CallEnable(read: bool, write: bool)
    | CallDisable(read: bool, write: bool)
    | CallSetHighMark(high: nat)
    | CallFlush(read: bool, write: bool, mode: FlushMode)

  /** What a call makes of the settings of its end. */
  function SettingsAfter(s: Settings, call: Call): Settings {
    match call
    case CallEnable(read, write) => s.(readEnabled := s.readEnabled || read, writeEnabled := s.writeEnabled || write)
    case CallDisable(read, write) => s.(readEnabled := s.readEnabled && !read, writeEnabled := s.writeEnabled && !write)
    case CallSetHighMark(high) => s.(high := high)
    case _ => s
  }

  function Flip(s: Sides): Sides {
    Sides(s.y, s.x)
  }

  /** A transfer from `s.x` to `s.y`: the quota goes over, and the watermark callback looks at an input that grew. */
  function Pass(s: Sides, ignoreWm: bool): Sides {
    var high := s.y.settings.high;
    var n := Quota(|s.x.output|, |s.y.input|, high, ignoreWm);
    var held := s.y.input + s.x.output[..n];
    Sides(s.x.(output := s.x.output[n..]),
          s.y.(input := held, suspended := if n != 0 && high != 0 then high <= |held| else s.y.suspended))
  }

  /** The way from `s.x` to `s.y` comes to rest; whether reading is suspended plays no part in it. */
  function Settle(s: Sides): Sides {
    if s.x.settings.writeEnabled && s.y.settings.readEnabled then Pass(s, false) else s
  }

  /**
   * Bytes went from the end of an output to the end of an input, in order: all of them where there is no mark, below
   * the mark as many as fit under it, and at the mark all of them only if `past` says so.
   */
  predicate Moved(held: seq<byte>, waiting: seq<byte>, input: seq<byte>, output: seq<byte>, mark: nat, past: bool) {
    && input + output == held + waiting && held <= input
    && (mark == 0 ==> output == [])
    && (|held| < mark ==> |input| == Min(mark, |held| + |waiting|))
    && (0 < mark <= |held| ==> if past then output == [] else input == held)
  }

  lemma PassMeans(s: Sides, ignoreWm: bool)
    ensures var t := Pass(s, ignoreWm);
            Moved(s.y.input, s.x.output, t.y.input, t.x.output, s.y.settings.high, ignoreWm)
  {
    var t := Pass(s, ignoreWm);
    var n := |t.y.input| - |s.y.input|;
    assert s.x.output == s.x.output[..n] + s.x.output[n..];
    assert s.y.input + s.x.output[..n] + s.x.output[n..] == s.y.input + s.x.output;
  }

  /** Between calls, bytes go over exactly if both sides let them through, and only up to the mark. */
  lemma SettleMeans(s: Sides)
    ensures var t := Settle(s);
            if s.x.settings.writeEnabled && s.y.settings.readEnabled
            then Moved(s.y.input, s.x.output, t.y.input, t.x.output, s.y.settings.high, false)
            else t == s
  {
    hide Pass, Moved;
    PassMeans(s, false);
  }

  function SettleBoth(s: Sides): Sides {
    Settle(Flip(Settle(Flip(s))))
  }

  /** What a call does at its own end, before the other one hears of it. */
  function Local(bev: Side, call: Call): Side {
    match call
    case CallWrite(data) => bev.(output := bev.output + data)
    case CallRead(n) =>
      var k := Min(n, |bev.input|);
      bev.(input := bev.input[k..],
           suspended := if k != 0 && bev.settings.high != 0 then bev.settings.high <= |bev.input| - k
                        else bev.suspended)
    case CallSetHighMark(high) =>
      bev.(settings := SettingsAfter(bev.settings, call),
           suspended := if high != 0 && high == |bev.input| then bev.suspended else 0 < high < |bev.input|)
    case _ => bev.(settings := SettingsAfter(bev.settings, call))
  }

  /**
   * A call at `s.x`: first the change at its own end, then both ways come to rest, or are flushed. No event, callback
   * or suspension decides anything here.
   */
  function Step(s: Sides, call: Call): Sides {
    match call
    case CallFlush(read, write, mode) =>
      if mode == Normal then s
      else
        var t := if read then Flip(Pass(Flip(s), true)) else s;
        if write then Pass(t, true) else t
    case _ => SettleBoth(s.(x := Local(s.x, call)))
  }

  /** `be_pair_wants_to_talk` */
  method WantsToTalk(src: End, dst: End) returns (r: bool)
    requires src.output.Valid()
    ensures r <==> src.writeEnabled && dst.readEnabled && !dst.suspended && src.output.Contents() != []
  {
    r := src.writeEnabled && dst.readEnabled && !dst.suspended && src.output.totalLen != 0;
  }

  /** The first half of `be_pair_transfer`: thaw the two buffers, move the bytes, freeze the buffers again. */
  method MoveBytes(out: EvBuffer, inp: EvBuffer, high: nat, ignoreWm: bool) returns (n: nat)
    requires OutputOk(out) && InputOk(inp) && out.Apart(inp)
    modifies out, out.Mem, inp, inp.Mem
    ensures OutputOk(out) && InputOk(inp) && out.Apart(inp)
    ensures fresh(out.Mem + inp.Mem - old(out.Mem) - old(inp.Mem))
    ensures n == Quota(|old(out.Contents())|, |old(inp.Contents())|, high, ignoreWm)
    ensures inp.Contents() == old(inp.Contents()) + old(out.Contents())[..n]
    ensures out.Contents() == old(out.Contents())[n..]
  {
    hide EvBuffer.Valid, EvBuffer.Contents;
    out.SetFreeze(true, false);
    inp.SetFreeze(false, false);
    if high != 0 && inp.totalLen < high {
      n := out.RemoveBuffer(inp, high - inp.totalLen);
    } else if high != 0 && !ignoreWm {
      n := 0;
    } else {
      n := out.totalLen;
      var rc := inp.AddBuffer(out);
    }
    out.SetFreeze(true, true);
    inp.SetFreeze(false, true);
  }

  /** `be_pair_transfer` on two ends of a pair; reports whether the watermark callback of the reader is due. */
  method Shift(src: End, dst: End, ignoreWm: bool) returns (n: nat)
    requires Pair(src, dst)
    modifies src.output, src.output.Mem, dst.input, dst.input.Mem
    ensures Pair(src, dst) && fresh(src.output.Mem + dst.input.Mem - old(src.output.Mem) - old(dst.input.Mem))
    ensures n == Quota(|old(src.output.Contents())|, |old(dst.input.Contents())|, dst.high, ignoreWm)
    ensures dst.input.Contents() == old(dst.input.Contents()) + old(src.output.Contents())[..n]
    ensures src.output.Contents() == old(src.output.Contents())[n..]
  {
    hide EvBuffer.Valid, EvBuffer.Contents;
    n := MoveBytes(src.output, dst.input, dst.high, ignoreWm);
  }

  /**
   * `be_pair_transfer`, with the watermark callback that the change of the reader's input triggers. (The callback also
   * runs from inside `evbuffer_remove_buffer`, but only with the input exactly at the mark, where it does the same.)
   */
  method Transfer(src: End, dst: End, ignoreWm: bool)
    requires Pair(src, dst)
    modifies src.output, src.output.Mem, dst.input, dst.input.Mem, dst`suspended
    ensures Pair(src, dst) && fresh(src.output.Mem + dst.input.Mem - old(src.output.Mem) - old(dst.input.Mem))
    ensures var n := Quota(|old(src.output.Contents())|, |old(dst.input.Contents())|, dst.high, ignoreWm);
            && dst.input.Contents() == old(dst.input.Contents()) + old(src.output.Contents())[..n]
            && src.output.Contents() == old(src.output.Contents())[n..]
            && (if n != 0 && dst.high != 0 then dst.suspended <==> dst.high <= |dst.input.Contents()|
                else dst.suspended == old(dst.suspended))
    decreases |src.output.Contents()|, 0
  {
    hide EvBuffer.Valid, EvBuffer.Contents;
    var n := Shift(src, dst, ignoreWm);
    if n != 0 && dst.high != 0 {
      InputChanged(dst, src);
    }
  }

  /** `bufferevent_inbuf_wm_cb`: stop reading at the high-water mark, and start again below it. */
  method InputChanged(bev: End, partner: End)
    requires Pair(partner, bev) && bev.high != 0
    modifies partner.output, partner.output.Mem, bev.input, bev.input.Mem, bev`suspended
    ensures Pair(partner, bev)
    ensures fresh(partner.output.Mem + bev.input.Mem - old(partner.output.Mem) - old(bev.input.Mem))
    ensures var n := if partner.writeEnabled && bev.readEnabled
              then Quota(|old(partner.output.Contents())|, |old(bev.input.Contents())|, bev.high, false) else 0;
            && bev.input.Contents() == old(bev.input.Contents()) + old(partner.output.Contents())[..n]
            && partner.output.Contents() == old(partner.output.Contents())[n..]
    ensures bev.suspended <==> bev.high <= |bev.input.Contents()|
    decreases |partner.output.Contents()|, 2
  {
    hide EvBuffer.Valid, EvBuffer.Contents;
    if bev.input.totalLen >= bev.high {
      bev.suspended := true;
    } else {
      bev.suspended := false;
      if bev.readEnabled {
        StartReading(bev, partner);
      }
    }
  }

  /** `be_pair_enable` for EV_READ: does the other side have anything to write? */
  method StartReading(bev: End, partner: End)
    requires Pair(partner, bev)
    modifies partner.output, partner.output.Mem, bev.input, bev.input.Mem, bev`suspended
    ensures Pair(partner, bev)
    ensures fresh(partner.output.Mem + bev.input.Mem - old(partner.output.Mem) - old(bev.input.Mem))
    ensures var n := if partner.writeEnabled && bev.readEnabled && !old(bev.suspended)
              then Quota(|old(partner.output.Contents())|, |old(bev.input.Contents())|, bev.high, false) else 0;
            && bev.input.Contents() == old(bev.input.Contents()) + old(partner.output.Contents())[..n]
            && partner.output.Contents() == old(partner.output.Contents())[n..]
            && (if n != 0 && bev.high != 0 then bev.suspended <==> bev.high <= |bev.input.Contents()|
                else bev.suspended == old(bev.suspended))
    decreases |partner.output.Contents()|, 1
  {
    hide EvBuffer.Valid, EvBuffer.Contents;
    var talk := WantsToTalk(partner, bev);
    if talk {
      Transfer(partner, bev, false);
    }
  }

  /** What every call on a pair keeps in the direction from `src` to `dst`. */
  ghost predicate Flow(src: End, dst: End)
    reads src, dst, src.output, dst.input
  {
    Conserved(src, dst) && NoStall(src, dst) && SuspendedAtMark(dst)
  }

  ghost predicate Inv(x: End, y: End)
    reads x, x.input, x.input.Mem, x.output, x.output.Mem, y, y.input, y.input.Mem, y.output, y.output.Mem
  {
    Pair(x, y) && Flow(x, y) && Flow(y, x)
  }

  lemma InvSymmetric(x: End, y: End)
    requires Inv(x, y)
    ensures Inv(y, x)
  {
    hide EvBuffer.Valid, EvBuffer.Contents;
  }

  lemma MoveConserves(consumed: seq<byte>, held: seq<byte>, waiting: seq<byte>, n: nat)
    requires n <= |waiting|
    ensures consumed + (held + waiting[..n]) + waiting[n..] == consumed + held + waiting
  {
    assert waiting == waiting[..n] + waiting[n..];
  }

  /** After a quota has been moved nothing waits, or the reader is at its mark. */
  lemma QuotaSettles(held: nat, waiting: nat, high: nat, ignoreWm: bool)
    ensures var n := Quota(waiting, held, high, ignoreWm);
            && (n == waiting || 0 < high <= held + n)
            && (high != 0 && !ignoreWm ==> held + n <= Max(held, high))
  {
  }

  /** A transfer leaves the input of a reader with a high-water mark at most at the mark, or as large as it was. */
  predicate WithinMark(before: nat, after: nat, high: nat) {
    high != 0 ==> after <= Max(before, high)
  }

  /** `bufferevent_pair_new` */
  method NewPair() returns (x: End, y: End)
    ensures fresh(x) && fresh(y) && Inv(x, y)
    ensures fresh(Objects(x, y))
    ensures x.written == x.consumed == y.written == y.consumed == []
    ensures Both(x, y) == Unused()
  {
    hide EvBuffer.Valid, EvBuffer.Contents, InputOk, OutputOk;
    x := new End();
    y := new End();
  }

  /** Append to the output without telling the partner. */
  method AppendOutput(bev: End, partner: End, data: seq<byte>)
    requires Inv(bev, partner)
    modifies bev`written, bev.output, bev.output.Mem
    ensures Pair(bev, partner) && fresh(bev.output.Mem - old(bev.output.Mem))
    ensures bev.written == old(bev.written) + data
    ensures Both(bev, partner) == old(Both(bev, partner)).(x := Local(old(bev.Seen()), CallWrite(data)))
    ensures Conserved(bev, partner) && SuspendedAtMark(partner) && Flow(partner, bev)
    ensures data == [] ==> NoStall(bev, partner)
  {
    hide EvBuffer.Valid, EvBuffer.Contents;
    var rc := bev.output.Add(data);
    bev.written := bev.written + data;
  }

  /** Where nothing stalls, nothing moves. */
  lemma Idle(src: End, dst: End)
    requires NoStall(src, dst)
    ensures Settle(Both(src, dst)) == Both(src, dst)
  {
    hide EvBuffer.Contents;
    var held, waiting := dst.input.Contents(), src.output.Contents();
    assert held + waiting[..0] == held && waiting[0..] == waiting;
  }

  /**
   * Hand waiting bytes over if both sides agree, as `be_pair_outbuf_cb` does on new output and `be_pair_enable` on a
   * direction that is switched on; afterwards nothing stalls.
   */
  method Offer(src: End, dst: End)
    requires Pair(src, dst) && Conserved(src, dst) && SuspendedAtMark(dst)
    modifies src.output, src.output.Mem, dst.input, dst.input.Mem, dst`suspended
    ensures Pair(src, dst) && Flow(src, dst)
    ensures Both(src, dst) == Settle(old(Both(src, dst)))
    ensures fresh(src.output.Mem + dst.input.Mem - old(src.output.Mem) - old(dst.input.Mem))
    ensures WithinMark(|old(dst.input.Contents())|, |dst.input.Contents()|, dst.high)
  {
    hide EvBuffer.Valid, EvBuffer.Contents;
    ghost var held, waiting := dst.input.Contents(), src.output.Contents();
    QuotaSettles(|held|, |waiting|, dst.high, false);
    MoveConserves(dst.consumed, held, waiting, Quota(|waiting|, |held|, dst.high, false));
    StartReading(dst, src);
  }

  /** `bufferevent_write`: the bytes go to the own output, and on to the partner if it is reading. */
  method Write(bev: End, partner: End, data: seq<byte>)
    requires Inv(bev, partner)
    modifies bev`written, bev.output, bev.output.Mem, partner.input, partner.input.Mem, partner`suspended
    ensures Inv(bev, partner) && bev.written == old(bev.written) + data
    ensures Both(bev, partner) == Step(old(Both(bev, partner)), CallWrite(data))
    ensures fresh(bev.output.Mem + partner.input.Mem - old(bev.output.Mem) - old(partner.input.Mem))
    ensures WithinMark(|old(partner.input.Contents())|, |partner.input.Contents()|, partner.high)
  {
    hide Settle, Local, EvBuffer.Valid, EvBuffer.Contents;
    AppendOutput(bev, partner, data);
    Idle(partner, bev);
    if data != [] {
      Offer(bev, partner);
    } else {
      Idle(bev, partner);
    }
  }

  /** The watermark callback restores the flow into `bev`, whatever the suspension was before. */
  method Recheck(bev: End, partner: End)
    requires Pair(partner, bev) && Conserved(partner, bev) && bev.high != 0
    modifies partner.output, partner.output.Mem, bev.input, bev.input.Mem, bev`suspended
    ensures Pair(partner, bev) && Flow(partner, bev)
    ensures fresh(partner.output.Mem + bev.input.Mem - old(partner.output.Mem) - old(bev.input.Mem))
    ensures |bev.input.Contents()| <= Max(|old(bev.input.Contents())|, bev.high)
    ensures Both(partner, bev) == Settle(old(var s := Both(partner, bev);
              s.(y := s.y.(suspended := bev.high <= |bev.input.Contents()|))))
    ensures bev.suspended <==> bev.high <= |bev.input.Contents()|
  {
    hide EvBuffer.Valid, EvBuffer.Contents;
    ghost var held, waiting := bev.input.Contents(), partner.output.Contents();
    QuotaSettles(|held|, |waiting|, bev.high, false);
    MoveConserves(bev.consumed, held, waiting, Quota(|waiting|, |held|, bev.high, false));
    InputChanged(bev, partner);
  }

  /** Take bytes off the input without telling anybody. */
  method TakeInput(bev: End, partner: End, n: nat) returns (data: seq<byte>)
    requires Inv(bev, partner)
    modifies bev`consumed, bev.input, bev.input.Mem
    ensures Pair(bev, partner) && fresh(bev.input.Mem - old(bev.input.Mem))
    ensures data == old(bev.input.Contents())[..Min(n, |old(bev.input.Contents())|)]
    ensures bev.consumed == old(bev.consumed) + data
    ensures Both(bev, partner) ==
            old(var s := Both(bev, partner); s.(x := s.x.(input := s.x.input[Min(n, |s.x.input|)..])))
    ensures Conserved(partner, bev) && Flow(bev, partner)
    ensures data == [] || bev.high == 0 ==> Flow(partner, bev)
  {
    hide EvBuffer.Valid, EvBuffer.Contents;
    ghost var held := bev.input.Contents();
    var rc;
    rc, data := bev.input.Remove(n);
    bev.consumed := bev.consumed + data;
    CutHeld(old(bev.consumed), held, partner.output.Contents(), |data|);
  }

  lemma CutHeld(consumed: seq<byte>, held: seq<byte>, waiting: seq<byte>, n: nat)
    requires n <= |held|
    ensures consumed + held[..n] + held[n..] + waiting == consumed + held + waiting
  {
    assert held == held[..n] + held[n..];
  }

  /** `bufferevent_read`: room below the high-water mark lets the partner's waiting bytes in at once. */
  method Read(bev: End, partner: End, n: nat) returns (data: seq<byte>)
    requires Inv(bev, partner)
    modifies bev`consumed, bev`suspended, bev.input, bev.input.Mem, partner.output, partner.output.Mem
    ensures Inv(bev, partner) && bev.consumed == old(bev.consumed) + data
    ensures Both(bev, partner) == Step(old(Both(bev, partner)), CallRead(n))
    ensures if data != [] && bev.high != 0 then bev.suspended <==> bev.high <= |bev.input.Contents()|
            else bev.suspended == old(bev.suspended)
    ensures fresh(partner.output.Mem + bev.input.Mem - old(partner.output.Mem) - old(bev.input.Mem))
    ensures data == old(bev.input.Contents())[..Min(n, |old(bev.input.Contents())|)]
    ensures WithinMark(|old(bev.input.Contents())|, |bev.input.Contents()|, bev.high)
  {
    hide Settle, EvBuffer.Valid, EvBuffer.Contents;
    data := TakeInput(bev, partner, n);
    if data != [] && bev.high != 0 {
      Recheck(bev, partner);
    } else {
      Idle(partner, bev);
    }
    Idle(bev, partner);
  }

  /** `be_pair_enable`: what is switched on may let waiting bytes through, in either direction. */
  method StartEvents(bev: End, partner: End, read: bool, write: bool)
    requires Pair(bev, partner) && Conserved(bev, partner) && Conserved(partner, bev)
    requires SuspendedAtMark(bev) && SuspendedAtMark(partner)
    requires (read || NoStall(partner, bev)) && (write || NoStall(bev, partner))
    modifies bev`suspended, bev.input, bev.input.Mem, bev.output, bev.output.Mem
    modifies partner`suspended, partner.input, partner.input.Mem, partner.output, partner.output.Mem
    ensures Inv(bev, partner) && Both(bev, partner) == SettleBoth(old(Both(bev, partner)))
    ensures fresh(bev.input.Mem + bev.output.Mem + partner.input.Mem + partner.output.Mem
                  - old(bev.input.Mem) - old(bev.output.Mem) - old(partner.input.Mem) - old(partner.output.Mem))
    ensures WithinMark(|old(bev.input.Contents())|, |bev.input.Contents()|, bev.high)
    ensures WithinMark(|old(partner.input.Contents())|, |partner.input.Contents()|, partner.high)
  {
    hide Settle, EvBuffer.Valid, EvBuffer.Contents;
    if read {
      Offer(partner, bev);
    } else {
      Idle(partner, bev);
    }
    if write {
      Offer(bev, partner);
    } else {
      Idle(bev, partner);
    }
  }

  /** `bufferevent_enable` */
  method Enable(bev: End, partner: End, read: bool, write: bool)
    requires Inv(bev, partner)
    modifies bev`readEnabled, bev`writeEnabled, bev`suspended, bev.input, bev.input.Mem, bev.output, bev.output.Mem
    modifies partner`suspended, partner.input, partner.input.Mem, partner.output, partner.output.Mem
    ensures Inv(bev, partner) && Both(bev, partner) == Step(old(Both(bev, partner)), CallEnable(read, write))
    ensures fresh(bev.input.Mem + bev.output.Mem + partner.input.Mem + partner.output.Mem
                  - old(bev.input.Mem) - old(bev.output.Mem) - old(partner.input.Mem) - old(partner.output.Mem))
    ensures bev.readEnabled == (old(bev.readEnabled) || read) && bev.writeEnabled == (old(bev.writeEnabled) || write)
    ensures WithinMark(|old(bev.input.Contents())|, |bev.input.Contents()|, bev.high)
    ensures WithinMark(|old(partner.input.Contents())|, |partner.input.Contents()|, partner.high)
  {
    hide SettleBoth, InputOk, OutputOk, EvBuffer.Valid, EvBuffer.Contents;
    var implRead := read && !bev.suspended;
    bev.readEnabled := bev.readEnabled || read;
    bev.writeEnabled := bev.writeEnabled || write;
    StartEvents(bev, partner, implRead, write);
  }

  /** `bufferevent_disable` */
  method Disable(bev: End, partner: End, read: bool, write: bool)
    requires Inv(bev, partner)
    modifies bev`readEnabled, bev`writeEnabled
    ensures Inv(bev, partner) && Both(bev, partner) == Step(old(Both(bev, partner)), CallDisable(read, write))
    ensures bev.readEnabled == (old(bev.readEnabled) && !read) && bev.writeEnabled == (old(bev.writeEnabled) && !write)
  {
    hide Settle, EvBuffer.Valid, EvBuffer.Contents;
    bev.readEnabled := bev.readEnabled && !read;
    bev.writeEnabled := bev.writeEnabled && !write;
    Idle(partner, bev);
    Idle(bev, partner);
  }

  /** A reader below its mark that comes to rest is suspended exactly if it has come to its mark. */
  lemma Resumed(s: Sides)
    requires !s.x.suspended && (s.x.settings.high == 0 || |s.x.input| < s.x.settings.high)
    ensures var t := SettleBoth(s); t.x.suspended <==> 0 < s.x.settings.high <= |t.x.input|
  {
  }

  /** `bufferevent_wm_unsuspend_read` */
  method Unsuspend(bev: End, partner: End)
    requires Pair(bev, partner) && Flow(bev, partner) && Conserved(partner, bev)
    modifies bev`suspended, bev.input, bev.input.Mem, partner.output, partner.output.Mem
    ensures Inv(bev, partner)
    ensures Both(bev, partner) == SettleBoth(old(var s := Both(bev, partner); s.(x := s.x.(suspended := false))))
    ensures bev.high == 0 || |old(bev.input.Contents())| < bev.high ==>
              (bev.suspended <==> 0 < bev.high <= |bev.input.Contents()|)
    ensures WithinMark(|old(bev.input.Contents())|, |bev.input.Contents()|, bev.high)
    ensures fresh(partner.output.Mem + bev.input.Mem - old(partner.output.Mem) - old(bev.input.Mem))
  {
    hide Settle, EvBuffer.Valid, EvBuffer.Contents;
    bev.suspended := false;
    if bev.high == 0 || |bev.input.Contents()| < bev.high {
      Resumed(Both(bev, partner));
    }
    if bev.readEnabled {
      Offer(partner, bev);
    } else {
      Idle(partner, bev);
    }
    Idle(bev, partner);
  }

  /** `bufferevent_setwatermark` for EV_READ: suspend above the new mark, resume below it. */
  method SetHighMark(bev: End, partner: End, high: nat)
    requires Inv(bev, partner)
    modifies bev`high, bev`suspended, bev.input, bev.input.Mem, partner.output, partner.output.Mem
    ensures Inv(bev, partner) && bev.high == high
    ensures Both(bev, partner) == Step(old(Both(bev, partner)), CallSetHighMark(high))
    ensures 0 < high < |old(bev.input.Contents())| ==> bev.suspended
    ensures 0 < high == |old(bev.input.Contents())| ==> bev.suspended == old(bev.suspended)
    ensures high == 0 || |old(bev.input.Contents())| < high ==>
              (bev.suspended <==> 0 < high <= |bev.input.Contents()|)
    ensures WithinMark(|old(bev.input.Contents())|, |bev.input.Contents()|, high)
    ensures fresh(partner.output.Mem + bev.input.Mem - old(partner.output.Mem) - old(bev.input.Mem))
  {
    hide OutputOk, Settle, EvBuffer.Valid, EvBuffer.Contents;
    bev.high := high;
    if high != 0 && bev.input.totalLen > high {
      bev.suspended := true;
    } else if high == 0 || bev.input.totalLen < high {
      Unsuspend(bev, partner);
      return;
    }
    Idle(partner, bev);
    Idle(bev, partner);
  }

  /** One transfer of `be_pair_flush`, which heeds the high-water mark only while the reader is below it. */
  method FlushInto(src: End, dst: End)
    requires Inv(src, dst)
    modifies src.output, src.output.Mem, dst.input, dst.input.Mem, dst`suspended
    ensures Inv(src, dst) && Both(src, dst) == Pass(old(Both(src, dst)), true)
    ensures Moved(old(dst.input.Contents()), old(src.output.Contents()), dst.input.Contents(), src.output.Contents(),
                  dst.high, true)
    ensures fresh(src.output.Mem + dst.input.Mem - old(src.output.Mem) - old(dst.input.Mem))
    ensures src.output.Contents() == [] || |dst.input.Contents()| == dst.high
  {
    hide EvBuffer.Valid, EvBuffer.Contents;
    ghost var held, waiting := dst.input.Contents(), src.output.Contents();
    PassMeans(Both(src, dst), true);
    QuotaSettles(|held|, |waiting|, dst.high, true);
    MoveConserves(dst.consumed, held, waiting, Quota(|waiting|, |held|, dst.high, true));
    Transfer(src, dst, true);
  }

  /** `be_pair_flush` */
  method Flush(bev: End, partner: End, read: bool, write: bool, mode: FlushMode)
    requires Inv(bev, partner)
    modifies bev`suspended, bev.input, bev.input.Mem, bev.output, bev.output.Mem
    modifies partner`suspended, partner.input, partner.input.Mem, partner.output, partner.output.Mem
    ensures Inv(bev, partner) && Both(bev, partner) == Step(old(Both(bev, partner)), CallFlush(read, write, mode))
    ensures fresh(bev.input.Mem + bev.output.Mem + partner.input.Mem + partner.output.Mem
                  - old(bev.input.Mem) - old(bev.output.Mem) - old(partner.input.Mem) - old(partner.output.Mem))
    ensures mode == Normal ==> Both(bev, partner) == old(Both(bev, partner))
    ensures if read && mode != Normal
            then Moved(old(bev.input.Contents()), old(partner.output.Contents()),
                       bev.input.Contents(), partner.output.Contents(), bev.high, true)
            else bev.input.Contents() == old(bev.input.Contents())
                 && partner.output.Contents() == old(partner.output.Contents())
    ensures if write && mode != Normal
            then Moved(old(partner.input.Contents()), old(bev.output.Contents()),
                       partner.input.Contents(), bev.output.Contents(), partner.high, true)
            else partner.input.Contents() == old(partner.input.Contents())
                 && bev.output.Contents() == old(bev.output.Contents())
  {
    hide EvBuffer.Valid, EvBuffer.Contents;
    if mode == Normal {
      return;
    }
    if read {
      FlushInto(partner, bev);
    }
    if write {
      FlushInto(bev, partner);
    }
  }

  /** All objects of a pair. */
  ghost function Objects(x: End, y: End): set<object>
    reads x, y, x.input, x.output, y.input, y.output
  {
    {x, y, x.input, x.output, y.input, y.output} + x.input.Mem + x.output.Mem + y.input.Mem + y.output.Mem
  }

  /** The bytes that a call adds to the history of writes at its end. */
  function Writes(call: Call): seq<byte> {
    if call.CallWrite? then call.data else []
  }

  /** How many bytes a call asks for. */
  function Asks(call: Call): nat {
    if call.CallRead? then call.n else 0
  }

  /** A pair as a value, with the histories of its ends. */
  datatype Books =
    Books(writtenX: seq<byte>, writtenY: seq<byte>, readX: seq<byte>, readY: seq<byte>, sides: Sides)

  ghost function BooksOf(x: End, y: End): Books
    reads x, y, x.input, x.output, y.input, y.output
  {
    Books(x.written, y.written, x.consumed, y.consumed, Both(x, y))
  }

  /** What a call returns, if this waits in the input of its end. */
  function Returns(call: Call, waiting: seq<byte>): seq<byte> {
    if call.CallRead? then waiting[..Min(call.n, |waiting|)] else []
  }

  /** A call at the first or at the second end. */
  function StepAt(s: Sides, first: bool, call: Call): Sides {
    if first then Step(s, call) else Flip(Step(Flip(s), call))
  }

  /**
   * What a call other than a flush comes to in bytes. The waiting bytes of both ends go over where both sides let them
   * through, up to the mark and no further; a write adds to the own output first, and a read takes from the own input.
   */
  lemma CallMeans(s: Sides, call: Call)
    requires !call.CallFlush?
    ensures var t, taken := Step(s, call), |Returns(call, s.x.input)|;
            && (if s.y.settings.writeEnabled && SettingsAfter(s.x.settings, call).readEnabled
                then Moved(s.x.input[taken..], s.y.output, t.x.input, t.y.output,
                           SettingsAfter(s.x.settings, call).high, false)
                else t.x.input == s.x.input[taken..] && t.y.output == s.y.output)
            && (if SettingsAfter(s.x.settings, call).writeEnabled && s.y.settings.readEnabled
                then Moved(s.y.input, s.x.output + Writes(call), t.y.input, t.x.output, s.y.settings.high, false)
                else t.y.input == s.y.input && t.x.output == s.x.output + Writes(call))
  {
    hide Moved, Pass;
    var u := s.(x := Local(s.x, call));
    assert u.x.input == s.x.input[|Returns(call, s.x.input)|..] && u.x.output == s.x.output + Writes(call);
    PassMeans(Flip(u), false);
    PassMeans(Back(u), false);
    PassLeaves(Flip(u));
    PassLeaves(Back(u));
  }

  lemma PassLeaves(s: Sides)
    ensures var t := Pass(s, false);
            && t.x.settings == s.x.settings && t.y.settings == s.y.settings
            && t.x.input == s.x.input && t.y.output == s.y.output
  {
  }

  /** One call at one of the ends took the books from `a` to `b`; the ends handed out these bytes. */
  predicate Stepped(a: Books, b: Books, first: bool, call: Call, fromX: seq<byte>, fromY: seq<byte>) {
    && b.writtenX == a.writtenX + (if first then Writes(call) else [])
    && b.writtenY == a.writtenY + (if first then [] else Writes(call))
    && b.readX == a.readX + fromX && b.readY == a.readY + fromY
    && fromX == (if first then Returns(call, a.sides.x.input) else [])
    && fromY == (if first then [] else Returns(call, a.sides.y.input))
    && b.sides == StepAt(a.sides, first, call)
  }

  /** No input that stands below its mark is brought beyond it, and without a flush none at the mark grows. */
  predicate Bounded(before: nat, after: nat, mark: nat, flush: bool) {
    (!flush ==> WithinMark(before, after, mark)) && (before < mark ==> after <= mark)
  }

  lemma PassKeepsMarks(s: Sides, ignoreWm: bool)
    ensures var t := Pass(s, ignoreWm);
            && t.x.settings == s.x.settings && t.y.settings == s.y.settings && t.x.input == s.x.input
            && Bounded(|s.y.input|, |t.y.input|, s.y.settings.high, ignoreWm)
  {
  }

  lemma StepKeepsMarksHere(s: Sides, call: Call)
    ensures var t := Step(s, call);
            && t.x.settings == SettingsAfter(s.x.settings, call) && t.y.settings == s.y.settings
            && Bounded(|s.x.input|, |t.x.input|, t.x.settings.high, call.CallFlush?)
            && Bounded(|s.y.input|, |t.y.input|, t.y.settings.high, call.CallFlush?)
  {
    hide Pass;
    match call
    case CallFlush(read, write, mode) =>
      PassKeepsMarks(Flip(s), true);
      PassKeepsMarks(if read then Flip(Pass(Flip(s), true)) else s, true);
    case _ =>
      var u := s.(x := Local(s.x, call));
      PassKeepsMarks(Flip(u), false);
      PassKeepsMarks(Back(u), false);
  }

  /**
   * A call changes the settings of its own end only. No call, a flush included, brings an input that stands below its
   * mark beyond the mark, and only a flush lets one at the mark grow.
   */
  lemma StepKeepsMarks(s: Sides, first: bool, call: Call)
    ensures var t := StepAt(s, first, call);
            && t.x.settings == (if first then SettingsAfter(s.x.settings, call) else s.x.settings)
            && t.y.settings == (if first then s.y.settings else SettingsAfter(s.y.settings, call))
            && Bounded(|s.x.input|, |t.x.input|, t.x.settings.high, call.CallFlush?)
            && Bounded(|s.y.input|, |t.y.input|, t.y.settings.high, call.CallFlush?)
  {
    hide Step, Bounded;
    StepKeepsMarksHere(if first then s else Flip(s), call);
  }

  function Back(s: Sides): Sides {
    Flip(Settle(Flip(s)))
  }

  function Append(s: Sides, data: seq<byte>): Sides {
    s.(x := s.x.(output := s.x.output + data))
  }

  /** Bytes may be appended before or after a transfer. */
  lemma SettleInParts(s: Sides, data: seq<byte>)
    ensures Settle(Append(Settle(s), data)) == Settle(Append(s, data))
  {
    var out, held, high := s.x.output, s.y.input, s.y.settings.high;
    var n := Quota(|out|, |held|, high, false);
    var m := Quota(|out + data|, |held|, high, false);
    CutInParts(held, out, data, n, m);
    if s.x.settings.writeEnabled && s.y.settings.readEnabled {
      var t := Append(Settle(s), data);
      assert t.x.output == out[n..] + data && t.y.input == held + out[..n];
      assert Quota(|t.x.output|, |t.y.input|, high, false) == m - n;
    }
  }

  lemma CutInParts(held: seq<byte>, out: seq<byte>, data: seq<byte>, n: nat, m: nat)
    requires n <= |out| && n <= m <= |out + data|
    ensures held + out[..n] + (out[n..] + data)[..m - n] == held + (out + data)[..m]
    ensures (out[n..] + data)[m - n..] == (out + data)[m..]
  {
    assert out[n..] + data == (out + data)[n..];
  }

  lemma SettleOnce(s: Sides)
    ensures Settle(Settle(s)) == Settle(s)
  {
    hide Settle;
    SettleInParts(s, []);
    assert Append(s, []) == s && Append(Settle(s), []) == Settle(s);
  }

  /** The two ways do not touch each other. */
  lemma WaysCommute(s: Sides, data: seq<byte>)
    ensures Back(Settle(s)) == Settle(Back(s)) && Back(Append(s, data)) == Append(Back(s), data)
  {
  }

  /** How the bytes are cut into writes does not matter. */
  lemma CuttingWritesDoesNotMatter(s: Sides, a: seq<byte>, b: seq<byte>)
    ensures Step(Step(s, CallWrite(a)), CallWrite(b)) == Step(s, CallWrite(a + b))
  {
    hide Settle;
    var t := Append(s, a);
    WaysCommute(Settle(Back(t)), b);
    WaysCommute(Back(t), b);
    SettleOnce(Flip(t));
    SettleInParts(Back(t), b);
    WaysCommute(t, b);
    assert Append(t, b) == Append(s, a + b) by { assert s.x.output + a + b == s.x.output + (a + b); }
  }

  lemma NothingAdded(a: seq<byte>, b: seq<byte>)
    ensures a + [] == a && b + [] == b
  {
  }

  /** A write or a read. */
  method Move(bev: End, partner: End, call: Call) returns (data: seq<byte>)
    requires Inv(bev, partner) && (call.CallWrite? || call.CallRead?)
    modifies Objects(bev, partner)
    ensures Inv(bev, partner) && fresh(Objects(bev, partner) - old(Objects(bev, partner)))
    ensures Stepped(old(BooksOf(bev, partner)), BooksOf(bev, partner), true, call, data, [])
  {
    hide Flow, Step, InputOk, OutputOk, EvBuffer.Valid, EvBuffer.Contents;
    data := [];
    NothingAdded(bev.written, partner.written);
    NothingAdded(bev.consumed, partner.consumed);
    match call
    case CallWrite(bytes) => Write(bev, partner, bytes);
    case CallRead(n) => data := Read(bev, partner, n);
  }

  /** A call that changes settings or flushes. */
  method Adjust(bev: End, partner: End, call: Call) returns (data: seq<byte>)
    requires Inv(bev, partner) && !call.CallWrite? && !call.CallRead?
    modifies Objects(bev, partner)
    ensures Inv(bev, partner) && fresh(Objects(bev, partner) - old(Objects(bev, partner)))
    ensures Stepped(old(BooksOf(bev, partner)), BooksOf(bev, partner), true, call, data, [])
  {
    hide Flow, Step, InputOk, OutputOk, EvBuffer.Valid, EvBuffer.Contents;
    data := [];
    NothingAdded(bev.written, partner.written);
    NothingAdded(bev.consumed, partner.consumed);
    match call
    case CallEnable(read, write) => Enable(bev, partner, read, write);
    case CallDisable(read, write) => Disable(bev, partner, read, write);
    case CallSetHighMark(high) => SetHighMark(bev, partner, high);
    case CallFlush(read, write, mode) => Flush(bev, partner, read, write, mode);
  }

  /** One call: what it returns is what leaves the pair, and only a write brings bytes in. */
  method Perform(bev: End, partner: End, call: Call) returns (data: seq<byte>)
    requires Inv(bev, partner)
    modifies Objects(bev, partner)
    ensures Inv(bev, partner) && fresh(Objects(bev, partner) - old(Objects(bev, partner)))
    ensures Stepped(old(BooksOf(bev, partner)), BooksOf(bev, partner), true, call, data, [])
  {
    hide Inv, Stepped, BooksOf, Objects;
    if call.CallWrite? || call.CallRead? {
      data := Move(bev, partner, call);
    } else {
      data := Adjust(bev, partner, call);
    }
  }

  /** The books with the two ends exchanged. */
  function Exchanged(a: Books): Books {
    Books(a.writtenY, a.writtenX, a.readY, a.readX, Flip(a.sides))
  }

  lemma SteppedExchanged(a: Books, b: Books, call: Call, data: seq<byte>)
    requires Stepped(Exchanged(a), Exchanged(b), true, call, data, [])
    ensures Stepped(a, b, false, call, [], data)
  {
  }

  lemma Exchange(x: End, y: End)
    ensures BooksOf(y, x) == Exchanged(BooksOf(x, y)) && Objects(x, y) == Objects(y, x)
  {
  }

  /** A call at the first or at the second end; what each of the ends hands out. */
  method PerformAt(x: End, y: End, first: bool, call: Call) returns (fromX: seq<byte>, fromY: seq<byte>)
    requires Inv(x, y)
    modifies Objects(x, y)
    ensures Inv(x, y) && fresh(Objects(x, y) - old(Objects(x, y)))
    ensures Stepped(old(BooksOf(x, y)), BooksOf(x, y), first, call, fromX, fromY)
  {
    hide Inv, Stepped, BooksOf, EvBuffer.Valid, EvBuffer.Contents;
    InvSymmetric(x, y);
    fromX, fromY := [], [];
    if first {
      fromX := Perform(x, y, call);
    } else {
      Exchange(x, y);
      fromY := Perform(y, x, call);
      Exchange(x, y);
      InvSymmetric(y, x);
      SteppedExchanged(old(BooksOf(x, y)), BooksOf(x, y), call, fromY);
    }
  }

  /** The bytes that the calls of a run write to one of the ends. */
  function Sent(first: bool, calls: seq<(bool, Call)>): seq<byte> {
    if calls == [] then []
    else
      var (at, call) := calls[|calls| - 1];
      Sent(first, calls[..|calls| - 1]) + if at == first then Writes(call) else []
  }

  /** How many bytes the reads of a run ask for at one of the ends. */
  function AskedFor(first: bool, calls: seq<(bool, Call)>): nat {
    if calls == [] then 0
    else
      var (at, call) := calls[|calls| - 1];
      AskedFor(first, calls[..|calls| - 1]) + if at == first then Asks(call) else 0
  }

  /** The settings of one of the ends after a run. */
  function Chosen(s: Settings, first: bool, calls: seq<(bool, Call)>): Settings {
    if calls == [] then s
    else
      var (at, call) := calls[|calls| - 1];
      var before := Chosen(s, first, calls[..|calls| - 1]);
      if at == first then SettingsAfter(before, call) else before
  }

  /** A run that does not flush, nor move the mark of this end. */
  predicate Steady(first: bool, calls: seq<(bool, Call)>) {
    forall i :: 0 <= i < |calls| ==> !calls[i].1.CallFlush? && (calls[i].0 == first ==> !calls[i].1.CallSetHighMark?)
  }

  function Run(s: Sides, calls: seq<(bool, Call)>): Sides {
    if calls == [] then s
    else
      var (at, call) := calls[|calls| - 1];
      StepAt(Run(s, calls[..|calls| - 1]), at, call)
  }

  /** What the reads of a run hand out at one of the ends. */
  function Handed(s: Sides, first: bool, calls: seq<(bool, Call)>): seq<byte> {
    if calls == [] then []
    else
      var (at, call) := calls[|calls| - 1];
      var before := calls[..|calls| - 1];
      var t := Run(s, before);
      Handed(s, first, before) + if at == first then Returns(call, if first then t.x.input else t.y.input) else []
  }

  /**
   * A run keeps the settings but for what its calls choose, and if it neither flushes nor moves the mark of an end, the
   * input of that end never grows beyond the mark.
   */
  lemma {:induction false} RunKeepsMarks(s: Sides, calls: seq<(bool, Call)>)
    ensures var t := Run(s, calls);
            && t.x.settings == Chosen(s.x.settings, true, calls) && t.y.settings == Chosen(s.y.settings, false, calls)
            && (Steady(true, calls) ==>
                  t.x.settings.high == s.x.settings.high && WithinMark(|s.x.input|, |t.x.input|, s.x.settings.high))
            && (Steady(false, calls) ==>
                  t.y.settings.high == s.y.settings.high && WithinMark(|s.y.input|, |t.y.input|, s.y.settings.high))
  {
    hide StepAt;
    if calls != [] {
      var before := calls[..|calls| - 1];
      var (first, call) := calls[|calls| - 1];
      RunKeepsMarks(s, before);
      StepKeepsMarks(Run(s, before), first, call);
      assert forall i :: 0 <= i < |before| ==> before[i] == calls[i];
    }
  }

  lemma {:induction false} HandedAtMost(s: Sides, first: bool, calls: seq<(bool, Call)>)
    ensures |Handed(s, first, calls)| <= AskedFor(first, calls)
  {
    hide Run;
    if calls != [] {
      HandedAtMost(s, first, calls[..|calls| - 1]);
    }
  }

  /** Two pairs that differ in their suspensions at most. */
  predicate SameBut(s: Sides, t: Sides) {
    && s.x.input == t.x.input && s.x.output == t.x.output && s.x.settings == t.x.settings
    && s.y.input == t.y.input && s.y.output == t.y.output && s.y.settings == t.y.settings
  }

  lemma PassSameBut(s: Sides, t: Sides, ignoreWm: bool)
    requires SameBut(s, t)
    ensures SameBut(Pass(s, ignoreWm), Pass(t, ignoreWm))
    ensures SameBut(Flip(Pass(Flip(s), ignoreWm)), Flip(Pass(Flip(t), ignoreWm)))
  {
  }

  lemma StepSameBut(s: Sides, t: Sides, call: Call)
    requires SameBut(s, t)
    ensures SameBut(Step(s, call), Step(t, call))
  {
    hide Pass;
    match call
    case CallFlush(read, write, mode) =>
      PassSameBut(s, t, true);
      PassSameBut(if read then Flip(Pass(Flip(s), true)) else s, if read then Flip(Pass(Flip(t), true)) else t, true);
    case _ =>
      var u, v := s.(x := Local(s.x, call)), t.(x := Local(t.x, call));
      PassSameBut(u, v, false);
      PassSameBut(Back(u), Back(v), false);
  }

  /** Whether reading is suspended never shows: bytes and settings are the same whatever the suspensions were. */
  lemma {:induction false} SuspensionNeverShows(s: Sides, t: Sides, calls: seq<(bool, Call)>)
    requires SameBut(s, t)
    ensures SameBut(Run(s, calls), Run(t, calls))
    ensures forall first :: Handed(s, first, calls) == Handed(t, first, calls)
  {
    hide Step, Returns;
    if calls != [] {
      var before := calls[..|calls| - 1];
      var (_, call) := calls[|calls| - 1];
      SuspensionNeverShows(s, t, before);
      StepSameBut(Run(s, before), Run(t, before), call);
      StepSameBut(Flip(Run(s, before)), Flip(Run(t, before)), call);
    }
  }

  /** A run of calls took the books from `a` to `b`; `fromX` and `fromY` are what its reads returned. */
  predicate Ran(a: Books, b: Books, calls: seq<(bool, Call)>, fromX: seq<byte>, fromY: seq<byte>) {
    && b.writtenX == a.writtenX + Sent(true, calls) && b.writtenY == a.writtenY + Sent(false, calls)
    && b.readX == a.readX + fromX && b.readY == a.readY + fromY
    && fromX == Handed(a.sides, true, calls) && fromY == Handed(a.sides, false, calls)
    && b.sides == Run(a.sides, calls)
  }

  lemma RanNothing(a: Books, calls: seq<(bool, Call)>)
    ensures calls[..0] == [] && calls[..|calls|] == calls && Ran(a, a, [], [], [])
  {
  }

  lemma RanOneMore(a: Books, b: Books, c: Books, calls: seq<(bool, Call)>, i: nat,
                   fromX: seq<byte>, fromY: seq<byte>, moreX: seq<byte>, moreY: seq<byte>)
    requires i < |calls| && Ran(a, b, calls[..i], fromX, fromY)
    requires Stepped(b, c, calls[i].0, calls[i].1, moreX, moreY)
    ensures Ran(a, c, calls[..i + 1], fromX + moreX, fromY + moreY)
  {
    hide StepAt, Returns, Writes;
    var done := calls[..i + 1];
    assert done[..|done| - 1] == calls[..i] && done[|done| - 1] == calls[i];
  }

  /** Any run of calls on a pair in use. */
  method Continue(x: End, y: End, calls: seq<(bool, Call)>) returns (fromX: seq<byte>, fromY: seq<byte>)
    requires Inv(x, y)
    modifies Objects(x, y)
    ensures Inv(x, y) && fresh(Objects(x, y) - old(Objects(x, y)))
    ensures Ran(old(BooksOf(x, y)), BooksOf(x, y), calls, fromX, fromY)
  {
    hide Inv, BooksOf, Stepped, Ran, EvBuffer.Contents, EvBuffer.Valid;
    ghost var start := BooksOf(x, y);
    fromX, fromY := [], [];
    RanNothing(start, calls);
    for i := 0 to |calls|
      invariant Inv(x, y) && fresh(Objects(x, y) - old(Objects(x, y)))
      invariant Ran(start, BooksOf(x, y), calls[..i], fromX, fromY)
    {
      ghost var before := BooksOf(x, y);
      var moreX, moreY := PerformAt(x, y, calls[i].0, calls[i].1);
      RanOneMore(start, before, BooksOf(x, y), calls, i, fromX, fromY, moreX, moreY);
      fromX, fromY := fromX + moreX, fromY + moreY;
    }
  }

  function Unused(): Sides {
    var side := Side([], [], Settings(false, true, 0), false);
    Sides(side, side)
  }

  /**
   * Any run of calls on a new pair, in any order: the reads hand out, and the ends hold, what the run on values says;
   * what was read at one end, what waits in its input and what waits in the other end's output is what was written to
   * the other end. If both sides let bytes through and the reader is below its mark, nothing waits in the output.
   */
  method Converse(calls: seq<(bool, Call)>) returns (x: End, y: End, fromX: seq<byte>, fromY: seq<byte>)
    ensures fresh(x) && fresh(y) && Inv(x, y)
    ensures fromY + y.input.Contents() + x.output.Contents() == Sent(true, calls)
    ensures fromX + x.input.Contents() + y.output.Contents() == Sent(false, calls)
    ensures fromX == Handed(Unused(), true, calls) && fromY == Handed(Unused(), false, calls)
    ensures Both(x, y) == Run(Unused(), calls)
    ensures x.writeEnabled && y.readEnabled && (y.high == 0 || |y.input.Contents()| < y.high) ==>
              fromY + y.input.Contents() == Sent(true, calls)
    ensures y.writeEnabled && x.readEnabled && (x.high == 0 || |x.input.Contents()| < x.high) ==>
              fromX + x.input.Contents() == Sent(false, calls)
  {
    hide Inv, EvBuffer.Contents;
    x, y := NewPair();
    fromX, fromY := Continue(x, y, calls);
    assert x.consumed == fromX && y.consumed == fromY;
    assert x.written == Sent(true, calls) && y.written == Sent(false, calls);
    Delivered(x, y);
  }

  lemma Delivered(x: End, y: End)
    requires Inv(x, y)
    ensures y.consumed + y.input.Contents() + x.output.Contents() == x.written
    ensures x.consumed + x.input.Contents() + y.output.Contents() == y.written
    ensures x.writeEnabled && y.readEnabled && (y.high == 0 || |y.input.Contents()| < y.high) ==>
              x.output.Contents() == []
    ensures y.writeEnabled && x.readEnabled && (x.high == 0 || |x.input.Contents()| < x.high) ==>
              y.output.Contents() == []
  {
    hide EvBuffer.Valid, EvBuffer.Contents;
  }
}
