/** From a message object over the serial line to a message object. */
module EndToEnd {
  import opened Bytes
  import opened Codec
  import opened Messages
  import opened StreamSpec
  import opened ZbStream

  const READ_SIZE := 1024   // of the buffers that messages are printed into and read into

  /** Reading until nothing is left returns every byte that was filed, in order. */
  lemma {:induction false} ReadAllJoins(frames: seq<seq<byte>>, room: nat)
    requires 0 < room
    ensures Join(ReadAll(frames, room)) == Join(frames)
    decreases |Join(frames)|, |frames|
  {
    if frames != [] {
      var (data, rest) := ReadOne(frames, room);
      ReadShrinks(frames, room);
      ReadAllJoins(rest, room);
      assert ReadAll(frames, room)[1..] == ReadAll(rest, room);
    }
  }

  /** A reader with enough room gets one whole message by each read. */
  lemma {:induction false} ReadAllWhole(frames: seq<seq<byte>>, room: nat)
    requires 0 < room && forall i :: 0 <= i < |frames| ==> |frames[i]| <= room
    ensures ReadAll(frames, room) == frames
    decreases |frames|
  {
    if frames != [] {
      ReadAllWhole(frames[1..], room);
    }
  }

  /** No read returns more than there is room for, and none returns nothing while whole messages are filed. */
  lemma {:induction false} ReadAllFits(frames: seq<seq<byte>>, room: nat)
    requires 0 < room
    ensures forall i :: 0 <= i < |ReadAll(frames, room)| ==> |ReadAll(frames, room)[i]| <= room
    ensures (forall i :: 0 <= i < |frames| ==> frames[i] != []) ==>
              forall i :: 0 <= i < |ReadAll(frames, room)| ==> ReadAll(frames, room)[i] != []
    decreases |Join(frames)|, |frames|
  {
    hide Join;
    if frames != [] {
      var (data, rest) := ReadOne(frames, room);
      ReadShrinks(frames, room);
      ReadAllFits(rest, room);
    }
  }

  lemma ReadAllStep(delivered: seq<seq<byte>>, frames: seq<seq<byte>>)
    ensures frames == [] ==> ReadOne(frames, READ_SIZE) == ([], [])
    ensures frames == [] ==> delivered + ReadAll(frames, READ_SIZE) == delivered
    ensures frames != [] && frames[0] != [] ==>
              var (data, rest) := ReadOne(frames, READ_SIZE);
              data != [] && delivered + ReadAll(frames, READ_SIZE) == (delivered + [data]) + ReadAll(rest, READ_SIZE)
  {
  }

  /** `ZSerial::onRead`: feed what has arrived, then hand every message to the handler. */
  method OnRead(stream: ZBStream, data: array<byte>, at: nat, len: nat) returns (delivered: seq<seq<byte>>)
    requires stream.Valid() && at + len <= data.Length && data != stream.buf.buf
    requires !Run(stream.Abs(), data[at..at + len]).state.Broken?
    modifies stream`state, stream`expectDataLen, stream`received, stream.matcher, stream.buf, stream.buf.buf
    ensures stream.Valid()
    ensures var l := Run(old(stream.Abs()), data[at..at + len]);
            stream.Abs() == Line(l.state, []) && delivered == ReadAll(l.frames, READ_SIZE)
    ensures forall i :: 0 <= i < |delivered| ==> |delivered[i]| <= READ_SIZE
  {
    hide Run, Step, ReadAll, ReadOne, Join;
    var rv := stream.Feed(data, at, len);
    assert rv == len;
    ghost var l := stream.Abs();
    delivered := [];
    assert delivered + ReadAll(stream.received, READ_SIZE) == ReadAll(stream.received, READ_SIZE);
    while true
      invariant stream.Valid() && stream.Abs() == Line(l.state, stream.received)
      invariant ReadAll(l.frames, READ_SIZE) == delivered + ReadAll(stream.received, READ_SIZE)
      modifies stream`received
      decreases |Join(stream.received)|, |stream.received|
    {
      if stream.received != [] {
        ReadShrinks(stream.received, READ_SIZE);
      }
      ReadAllStep(delivered, stream.received);
      var message := stream.Read(READ_SIZE);
      if |message| == 0 {
        break;
      }
      delivered := delivered + [message];
    }
    ReadAllFits(l.frames, READ_SIZE);
  }

  /** What stands on the line for a list of messages, each behind some noise. */
  function Sent(parts: seq<(seq<byte>, Msg)>): seq<(seq<byte>, seq<byte>)> {
    seq(|parts|, i requires 0 <= i < |parts| => (parts[i].0, Frame(parts[i].1)))
  }

  /** Every countable message declares its true length, and fits the receive buffer and the read buffer. */
  lemma FrameIsWellFramed(m: Msg)
    requires Countable(m.body)
    ensures WellFramed(Frame(m)) && |Frame(m)| <= 772 && Wire(m) == SYNC + Frame(m)
  {
    LengthIsTrue(m.body);
    Int16RoundTrip(BodyLen(m.body));
    assert Frame(m)[1..3] == Int16Bytes(BodyLen(m.body));
  }

  lemma {:induction false} FramesOfAt(parts: seq<(seq<byte>, seq<byte>)>)
    ensures |FramesOf(parts)| == |parts| && forall i :: 0 <= i < |parts| ==> FramesOf(parts)[i] == parts[i].1
  {
    if parts != [] {
      FramesOfAt(parts[1..]);
    }
  }

  /**
   * End to end: countable messages that are printed one after another behind clean noise, and cut into pieces anywhere
   * by the line, are read as one whole message each, in order, and decode to what was sent.
   */
  lemma MessagesArrive(parts: seq<(seq<byte>, Msg)>, chunks: seq<seq<byte>>, blanks: seq<Msg>, tail: seq<byte>)
    requires forall i :: 0 <= i < |parts| ==> Clean(parts[i].0) && Countable(parts[i].1.body)
    requires Join(chunks) == Traffic(Sent(parts))
    requires |blanks| == |parts|
    requires forall i :: 0 <= i < |parts| ==> SameKind(blanks[i].body, parts[i].1.body) && Blank(blanks[i].body)
    ensures var l := RunChunks(Line(Init(0), []), chunks);
            var got := ReadAll(l.frames, READ_SIZE);
            && l.state == Init(0) && |got| == |parts|
            && forall i :: 0 <= i < |parts| ==>
                 && Readable(blanks[i], got[i] + tail, |got[i]|)
                 && DecodeMsg(blanks[i], got[i] + tail, |got[i]|)
                    == (|got[i]|, parts[i].1.(len := BodyLen(parts[i].1.body)))
  {
    var l0, sent := Line(Init(0), []), Sent(parts);
    ChunkingDoesNotMatter(l0, chunks);
    forall i | 0 <= i < |parts|
      ensures Clean(sent[i].0) && WellFramed(sent[i].1) && |sent[i].1| <= READ_SIZE
    {
      FrameIsWellFramed(parts[i].1);
    }
    Resynchronises([], sent);
    assert [] + FramesOf(sent) == FramesOf(sent);
    FramesOfAt(sent);
    ReadAllWhole(FramesOf(sent), READ_SIZE);
    forall i | 0 <= i < |parts|
      ensures Readable(blanks[i], sent[i].1 + tail, |sent[i].1|)
      ensures DecodeMsg(blanks[i], sent[i].1 + tail, |sent[i].1|)
              == (|sent[i].1|, parts[i].1.(len := BodyLen(parts[i].1.body)))
    {
      DecodeOfFrame(blanks[i], parts[i].1, tail);
    }
  }

  /** One message on a quiet line, cut anywhere. */
  lemma OneMessage(m: Msg, first: seq<byte>, second: seq<byte>)
    requires Countable(m.body) && Wire(m) == first + second
    ensures var l := Line(Init(0), []);
            && !Run(l, first).state.Broken?
            && Run(Run(l, first), second) == Line(Init(0), [Frame(m)])
  {
    hide Run, Step;
    var parts := [([], Frame(m))];
    FrameIsWellFramed(m);
    CleanMeans([]);
    Resynchronises([], parts);
    FramesOfAt(parts);
    assert FramesOf(parts) == [Frame(m)];
    assert Traffic(parts[1..]) == [];
    assert Traffic(parts) == [] + SYNC + Frame(m) + Traffic(parts[1..]);
    assert [] + FramesOf(parts) == [Frame(m)];
    assert Traffic(parts) == first + second;
    RunConcat(Line(Init(0), []), first, second);
    CannotBreakLater(Line(Init(0), []), first, second);
  }

  /** Feed the first `n` bytes of `line` in two pieces, and read what has come out. */
  method FeedAndRead(line: array<byte>, n: nat, cut: nat, ghost m: Msg) returns (message: seq<byte>)
    requires cut <= n <= line.Length && line[..n] == Wire(m) && Countable(m.body)
    ensures message == Frame(m)
  {
    hide Run, Step, Wire, Frame;
    assert line[..n] == line[0..cut] + line[cut..n];
    OneMessage(m, line[0..cut], line[cut..n]);
    FrameIsWellFramed(m);
    var stream := new ZBStream();
    var fed := stream.Feed(line, 0, cut);
    fed := stream.Feed(line, cut, n - cut);
    message := stream.Read(READ_SIZE);
  }

  /** Decode a message that has been read into memory of its own. */
  method DecodeMessage(message: seq<byte>, blank: ZigBeeMsg, ghost m: Msg) returns (rv: int)
    requires message == Frame(m) && Countable(m.body) && m.len == BodyLen(m.body)
    requires SameKind(blank.body, m.body) && Blank(blank.body)
    modifies blank
    ensures blank.Value() == m && rv == |message|
  {
    hide Frame, DecodeMsg, Readable;
    FrameIsWellFramed(m);
    var mem := new byte[READ_SIZE];
    Store(mem, 0, message);
    assert mem[0..] == message + mem[|message|..];
    DecodeOfFrame(blank.Value(), m, mem[|message|..]);
    rv := blank.Decode(mem, 0, |message|);
  }

  /** The same with the objects themselves: print a message, feed it in two pieces, read it, and decode it. */
  method Transmit(m: ZigBeeMsg, blank: ZigBeeMsg, cut: nat) returns (rv: int)
    requires m != blank && Countable(m.body) && SameKind(blank.body, m.body) && Blank(blank.body)
    requires cut <= 14 + |BodyBytes(m.body)|
    modifies m`len, blank
    ensures m.Value() == old(m.Value()).(len := BodyLen(m.body))
    ensures blank.Value() == m.Value() && rv == 6 + |BodyBytes(m.body)|
  {
    var line := new byte[READ_SIZE];
    LengthIsTrue(m.body);
    var n := m.Encode(line, 0, READ_SIZE);
    assert line[..n] == Wire(m.Value());
    var message := FeedAndRead(line, n, cut, m.Value());
    rv := DecodeMessage(message, blank, m.Value());
  }
}
