/** The serial stream: bytes go in as they arrive, whole messages come out. */
module ZbStream {
  import opened Bytes
  import opened Codec
  import opened Messages
  import opened StreamSpec

  /** `ZDataBuffer<char>`: a fixed buffer with a position and a limit. */
  class ZDataBuffer {
    const buf: array<byte>
    var pos: nat
    var limit: nat

    ghost predicate Valid()
      reads this
    {
      pos <= buf.Length && limit <= buf.Length
    }

    constructor (size: nat)
      ensures Valid() && fresh(buf) && buf.Length == size && pos == 0 && limit == size
    {
      buf := new byte[size];
      pos, limit := 0, size;
    }

    function Remaining(): int
      reads this
    {
      limit - pos
    }

    /** Store as many bytes as there is room for, and say how many. */
    method Put(v: seq<byte>) returns (n: nat)
      requires Valid()
      modifies this`pos, buf
      ensures Valid() && n == Max(0, Min(old(Remaining()), |v|)) && pos == old(pos) + n
      ensures buf[..pos] == old(buf[..pos]) + v[..n]
    {
      var remain := Remaining();
      if remain <= 0 {
        return 0;
      }
      n := if remain < |v| then remain else |v|;
      Store(buf, pos, v[..n]);
      pos := pos + n;
    }

    /** Fetch at most `len` bytes. */
    method Get(len: nat) returns (v: seq<byte>)
      requires Valid()
      modifies this`pos
      ensures Valid() && |v| == Max(0, Min(old(Remaining()), len)) && pos == old(pos) + |v|
      ensures v == buf[old(pos)..pos]
    {
      var remain := Remaining();
      if remain < 0 {
        return [];
      }
      var n := if remain < len then remain else len;
      v := buf[pos..pos + n];
      pos := pos + n;
    }

    method Clear()
      modifies this`pos, this`limit
      ensures Valid() && pos == 0 && limit == buf.Length
    {
      pos, limit := 0, buf.Length;
    }

    /** What was put can now be fetched. */
    method Flip()
      requires Valid()
      modifies this`pos, this`limit
      ensures Valid() && pos == 0 && limit == old(pos)
    {
      limit, pos := pos, 0;
    }
  }

  /** `SynBytesMatcher`, for the word of eight 'Z'. */
  class SynBytesMatcher {
    var idx: nat

    constructor ()
      ensures idx == 0
    {
      idx := 0;
    }

    predicate Finished()
      reads this
    {
      idx >= SYNC_LEN
    }

    /** 1 for the byte that was wanted, -1 for another one, and 0 once the word is complete. */
    method Feed(c: byte) returns (rv: int)
      modifies this
      ensures rv == if old(Finished()) then 0 else if c == Z then 1 else -1
      ensures idx == old(idx) + if rv == 1 then 1 else 0
    {
      if Finished() {
        return 0;
      }
      if c != SYNC[idx] {
        return -1;
      }
      idx := idx + 1;
      return 1;
    }

    method Reset()
      modifies this
      ensures idx == 0
    {
      idx := 0;
    }
  }

  datatype Phase = STATE_INIT | STATE_WAITING_FOR_HEAD | STATE_WAITING_FOR_DATA

  class ZBStream {
    var state: Phase
    const buf: ZDataBuffer
    const matcher: SynBytesMatcher
    var expectDataLen: int
    var received: seq<seq<byte>>

    ghost predicate Valid()
      reads this, buf, matcher
    {
      && buf.Valid() && buf.buf.Length == CAPACITY && buf.limit == CAPACITY
      && (forall i :: 0 <= i < |received| ==> received[i] != [])
      && match state {
           case STATE_INIT => buf.pos == 0 && matcher.idx < SYNC_LEN
           case STATE_WAITING_FOR_HEAD => 0 < expectDataLen && expectDataLen + buf.pos == MIN_HEAD_LEN
           case STATE_WAITING_FOR_DATA => 0 < expectDataLen && MIN_HEAD_LEN <= buf.pos
         }
    }

    /** The state as the specification sees it. */
    ghost function Abs(): (l: Line)
      reads this, buf, buf.buf, matcher
      requires Valid()
      ensures Reasonable(l)
    {
      Line(match state {
             case STATE_INIT => Init(matcher.idx)
             case STATE_WAITING_FOR_HEAD => Head(expectDataLen, buf.buf[..buf.pos])
             case STATE_WAITING_FOR_DATA => Data(expectDataLen, buf.buf[..buf.pos])
           }, received)
    }

    constructor ()
      ensures Valid() && Abs() == Line(Init(0), [])
      ensures fresh(buf) && fresh(buf.buf) && fresh(matcher)
    {
      state := STATE_INIT;
      buf := new ZDataBuffer(CAPACITY);
      matcher := new SynBytesMatcher();
      expectDataLen := 0;
      received := [];
    }

    /** `doInit`: look for the synchronisation word; stop at the first byte that does not match. */
    method DoInit(data: array<byte>, at: nat, len: nat) returns (used: nat)
      requires Valid() && state == STATE_INIT && at + len <= data.Length && data != buf.buf
      modifies this`state, this`expectDataLen, matcher
      ensures Valid() && used <= len && (0 < len ==> 0 < used)
      ensures Abs() == Run(old(Abs()), data[at..at + used])
    {
      ghost var before := Abs();
      var i := 0;
      while i < len
        invariant i <= len && matcher.idx <= SYNC_LEN && (i == 0 ==> matcher.idx < SYNC_LEN)
        invariant Run(before, data[at..at + i])
                  == Line(if matcher.idx == SYNC_LEN then Head(MIN_HEAD_LEN, []) else Init(matcher.idx), received)
        modifies matcher
      {
        RunSnoc(before, data[at..at + i], data[at + i]);
        assert data[at..at + i + 1] == data[at..at + i] + [data[at + i]];
        var rv := matcher.Feed(data[at + i]);
        if rv < 0 {
          matcher.Reset();
          return i + 1;
        } else if rv == 0 {
          break;
        }
        i := i + 1;
      }
      used := i;
      if matcher.Finished() {
        expectDataLen := MIN_HEAD_LEN;
        state := STATE_WAITING_FOR_HEAD;
        assert buf.buf[..0] == [];
      } else {
        assert used == len;
      }
    }

    /** `doWaitingForHead`: collect version and length, and work out how many bytes are to come. */
    method DoWaitingForHead(data: array<byte>, at: nat, len: nat) returns (used: nat)
      requires Valid() && state == STATE_WAITING_FOR_HEAD && at + len <= data.Length && data != buf.buf
      requires !Run(Abs(), data[at..at + len]).state.Broken?
      modifies this`state, this`expectDataLen, buf, buf.buf
      ensures Valid() && used <= len && (0 < len ==> 0 < used)
      ensures Abs() == Run(old(Abs()), data[at..at + used])
    {
      hide Run, Step;
      ghost var before := Abs();
      used := if len < expectDataLen then len else expectDataLen;
      ghost var piece := data[at..at + used];
      RunHead(before, piece);
      var n := buf.Put(data[at..at + used]);
      assert piece[..n] == piece == piece[..Min(used, CAPACITY - |before.state.partial|)];
      if len < expectDataLen {
        expectDataLen := expectDataLen - len;
        return;
      }
      assert data[at..at + len] == piece + data[at + used..at + len];
      CannotBreakLater(before, piece, data[at + used..at + len]);
      var rv, ver := DecodeByte(buf.buf, 0, buf.Remaining());
      var msgLen;
      rv, msgLen := DecodeInt16(buf.buf, 1, buf.Remaining() - 1);
      assert buf.buf[..3][1..3] == buf.buf[1..3];
      expectDataLen := (msgLen + HEAD_LEN) % 0x1_0000 - MIN_HEAD_LEN;
      state := STATE_WAITING_FOR_DATA;
    }

    /** `doWaitingForData`: collect the rest of the message, and file it when it is complete. */
    method DoWaitingForData(data: array<byte>, at: nat, len: nat) returns (used: nat)
      requires Valid() && state == STATE_WAITING_FOR_DATA && at + len <= data.Length && data != buf.buf
      modifies this`state, this`expectDataLen, this`received, matcher, buf, buf.buf
      ensures Valid() && used <= len && (0 < len ==> 0 < used)
      ensures Abs() == Run(old(Abs()), data[at..at + used])
    {
      hide Run, Step;
      ghost var before := Abs();
      used := if len < expectDataLen then len else expectDataLen;
      ghost var piece := data[at..at + used];
      RunData(before, piece);
      var n := buf.Put(data[at..at + used]);
      if len < expectDataLen {
        expectDataLen := expectDataLen - len;
        return;
      }
      buf.Flip();
      var message := buf.Get(buf.Remaining());
      received := received + [message];
      matcher.Reset();
      buf.Clear();
      state := STATE_INIT;
    }

    /** What the state says. */
    method DoState(data: array<byte>, at: nat, len: nat) returns (used: nat)
      requires Valid() && at + len <= data.Length && data != buf.buf
      requires !Run(Abs(), data[at..at + len]).state.Broken?
      modifies this`state, this`expectDataLen, this`received, matcher, buf, buf.buf
      ensures Valid() && used <= len && (0 < len ==> 0 < used)
      ensures Abs() == Run(old(Abs()), data[at..at + used])
    {
      hide Run, Step, Valid, Abs;
      match state {
        case STATE_INIT => used := DoInit(data, at, len);
        case STATE_WAITING_FOR_HEAD => used := DoWaitingForHead(data, at, len);
        case STATE_WAITING_FOR_DATA => used := DoWaitingForData(data, at, len);
      }
    }

    /**
     * `feed`: take all `len` bytes. The declared lengths must leave something to wait for; for the four lengths that do
     * not, the source would copy a negative number of bytes or complete a message without a further byte.
     */
    method Feed(data: array<byte>, at: nat, len: nat) returns (rv: nat)
      requires Valid() && at + len <= data.Length && data != buf.buf
      requires !Run(Abs(), data[at..at + len]).state.Broken?
      modifies this`state, this`expectDataLen, this`received, matcher, buf, buf.buf
      ensures Valid() && rv == len
      ensures Abs() == Run(old(Abs()), data[at..at + len])
    {
      hide Run, Step, Valid, Abs;
      ghost var before, all := Abs(), data[at..at + len];
      RunNothing(before);
      var done := 0;
      assert all[..0] == [];
      while true
        invariant Valid() && done <= len
        invariant Abs() == Run(before, all[..done])
        decreases len - done
      {
        ghost var rest := data[at + done..at + len];
        assert all == all[..done] + rest;
        RunConcat(before, all[..done], rest);
        var used := DoState(data, at + done, len - done);
        RunConcat(before, all[..done], data[at + done..at + done + used]);
        assert all[..done + used] == all[..done] + data[at + done..at + done + used];
        done := done + used;
        if done == len {
          break;
        }
      }
      assert all[..len] == all;
      return done;
    }

    /** `read`: the next message, or as much of it as the reader has room for; nothing if there is none. */
    method Read(room: nat) returns (data: seq<byte>)
      requires Valid()
      modifies this`received
      ensures Valid() && (data, received) == ReadOne(old(received), room)
      ensures |data| <= room && (old(received) == [] ==> data == [] && received == [])
      ensures old(received) != [] ==>
                var first, others := old(received[0]), old(received[1..]);
                && data == first[..Min(room, |first|)]
                && received == if |first| <= room then others else [first[room..]] + others
    {
      if |received| == 0 {
        return [];
      }
      if |received[0]| > room {
        data := received[0][..room];
        received := [received[0][room..]] + received[1..];
      } else {
        data := received[0];
        received := received[1..];
      }
    }
  }

  /** If the whole input does not break the stream, no part of it does. */
  lemma CannotBreakLater(l: Line, s: seq<byte>, t: seq<byte>)
    requires Reasonable(l) && !Run(l, s + t).state.Broken?
    ensures !Run(l, s).state.Broken?
  {
    hide Run, Step;
    RunConcat(l, s, t);
    if Run(l, s).state.Broken? {
      BrokenStays(Run(l, s), t);
    }
  }

  /** What one `read` returns, and what it leaves. */
  function ReadOne(frames: seq<seq<byte>>, room: nat): (seq<byte>, seq<seq<byte>>) {
    if frames == [] then ([], [])
    else if |frames[0]| > room then (frames[0][..room], [frames[0][room..]] + frames[1..])
    else (frames[0], frames[1..])
  }

  /** The results of reading until nothing is left. */
  function ReadAll(frames: seq<seq<byte>>, room: nat): seq<seq<byte>>
    requires 0 < room
    decreases |Join(frames)|, |frames|
  {
    if frames == [] then []
    else
      var (data, rest) := ReadOne(frames, room);
      ReadShrinks(frames, room);
      [data] + ReadAll(rest, room)
  }

  /** A read takes bytes off the front of what is filed, never from two messages at once. */
  lemma ReadShrinks(frames: seq<seq<byte>>, room: nat)
    requires frames != []
    ensures var (data, rest) := ReadOne(frames, room);
            && data + Join(rest) == Join(frames) && data <= frames[0]
            && |Join(rest)| <= |Join(frames)|
            && (|rest| < |frames| || (|rest| == |frames| && |data| == room))
  {
    hide Join;
    JoinFirst(frames);
    if |frames[0]| > room {
      var rest := [frames[0][room..]] + frames[1..];
      JoinFirst(rest);
      assert rest[1..] == frames[1..];
      TakeDrop(frames[0], room, Join(frames[1..]));
    }
  }

  lemma TakeDrop(a: seq<byte>, n: nat, b: seq<byte>)
    requires n <= |a|
    ensures a[..n] + (a[n..] + b) == a + b
  {
  }

  lemma JoinFirst(frames: seq<seq<byte>>)
    requires frames != []
    ensures Join(frames) == frames[0] + Join(frames[1..])
  {
  }
}
