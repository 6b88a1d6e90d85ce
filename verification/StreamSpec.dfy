/** What the serial stream does with every single byte, and what follows for whole streams. */
module StreamSpec {
  import opened Bytes
  import opened Codec
  import opened Messages

  const MIN_HEAD_LEN := 3     // version and length
  const CAPACITY := 4096      // of the receive buffer

  /** Waiting for the synchronisation word, for the head, or for the rest of a message. */
  datatype State =
    | Init(matched: nat)
    | Head(need: nat, partial: seq<byte>)
    | Data(need: nat, partial: seq<byte>)
    | Broken                  // a head declared a length for which no bytes, or fewer than none, are left to wait for

  datatype Line = Line(state: State, frames: seq<seq<byte>>)

  /** The receive buffer drops what does not fit any more. */
  function Put(partial: seq<byte>, s: seq<byte>): (r: seq<byte>)
    requires |partial| <= CAPACITY
    ensures |r| == Min(CAPACITY, |partial| + |s|)
  {
    partial + s[..Min(|s|, CAPACITY - |partial|)]
  }

  predicate Reasonable(l: Line) {
    match l.state
    case Init(m) => m < SYNC_LEN
    case Head(need, p) => 0 < need && need + |p| == MIN_HEAD_LEN
    case Data(need, p) => 0 < need && MIN_HEAD_LEN <= |p| <= CAPACITY
    case Broken => true
  }

  /** How many bytes are still to come after a head; the sum with the head's length has 16 bits. */
  function Remaining(head: seq<byte>): int
    requires |head| == MIN_HEAD_LEN
  {
    (Int16Of(head[1..3]) + HEAD_LEN) % 0x1_0000 - MIN_HEAD_LEN
  }

  function AfterHead(head: seq<byte>): State
    requires |head| == MIN_HEAD_LEN
  {
    if Remaining(head) <= 0 then Broken else Data(Remaining(head), head)
  }

  /** The four declared lengths that leave nothing to wait for, because the sum with the head's length wraps around. */
  lemma BreaksExactly(head: seq<byte>)
    requires |head| == MIN_HEAD_LEN
    ensures AfterHead(head).Broken? <==> 65530 <= Int16Of(head[1..3]) <= 65533
  {
  }

  function Step(l: Line, c: byte): (r: Line)
    requires Reasonable(l)
    ensures Reasonable(r)
  {
    match l.state
    case Init(m) =>
      l.(state := if c != Z then Init(0) else if m + 1 == SYNC_LEN then Head(MIN_HEAD_LEN, []) else Init(m + 1))
    case Head(need, p) =>
      l.(state := if need == 1 then AfterHead(Put(p, [c])) else Head(need - 1, Put(p, [c])))
    case Data(need, p) =>
      if need == 1 then Line(Init(0), l.frames + [Put(p, [c])]) else l.(state := Data(need - 1, Put(p, [c])))
    case Broken => l
  }

  function Run(l: Line, s: seq<byte>): (r: Line)
    requires Reasonable(l)
    ensures Reasonable(r)
    decreases |s|
  {
    if s == [] then l else Run(Step(l, s[0]), s[1..])
  }

  /** Feeding two pieces is feeding the whole. */
  lemma {:induction false} RunConcat(l: Line, s: seq<byte>, t: seq<byte>)
    requires Reasonable(l)
    ensures Run(l, s + t) == Run(Run(l, s), t)
    decreases |s|
  {
    if s == [] {
      assert s + t == t;
    } else {
      assert (s + t)[1..] == s[1..] + t;
      RunConcat(Step(l, s[0]), s[1..], t);
    }
  }

  lemma RunNothing(l: Line)
    requires Reasonable(l)
    ensures Run(l, []) == l
  {
  }

  lemma RunSnoc(l: Line, s: seq<byte>, c: byte)
    requires Reasonable(l)
    ensures Run(l, s + [c]) == Step(Run(l, s), c)
  {
    RunConcat(l, s, [c]);
  }

  function Join(chunks: seq<seq<byte>>): seq<byte> {
    if chunks == [] then [] else chunks[0] + Join(chunks[1..])
  }

  function RunChunks(l: Line, chunks: seq<seq<byte>>): (r: Line)
    requires Reasonable(l)
    ensures Reasonable(r)
    decreases |chunks|
  {
    if chunks == [] then l else RunChunks(Run(l, chunks[0]), chunks[1..])
  }

  /** It does not matter how the line cuts a stream into pieces. */
  lemma {:induction false} ChunkingDoesNotMatter(l: Line, chunks: seq<seq<byte>>)
    requires Reasonable(l)
    ensures RunChunks(l, chunks) == Run(l, Join(chunks))
    decreases |chunks|
  {
    if chunks != [] {
      RunConcat(l, chunks[0], Join(chunks[1..]));
      ChunkingDoesNotMatter(Run(l, chunks[0]), chunks[1..]);
    }
  }

  lemma {:induction false} BrokenStays(l: Line, s: seq<byte>)
    requires l.state.Broken?
    ensures Run(l, s) == l
  {
    if s != [] {
      BrokenStays(Step(l, s[0]), s[1..]);
    }
  }

  /** Frames that were completed stay, in order. */
  lemma {:induction false} FramesOnlyGrow(l: Line, s: seq<byte>)
    requires Reasonable(l)
    ensures l.frames <= Run(l, s).frames
    decreases |s|
  {
    if s != [] {
      FramesOnlyGrow(Step(l, s[0]), s[1..]);
    }
  }

  lemma PutTwice(p: seq<byte>, s: seq<byte>, t: seq<byte>)
    requires |p| <= CAPACITY
    ensures Put(Put(p, s), t) == Put(p, s + t)
  {
  }

  lemma PutNothing(p: seq<byte>)
    requires |p| <= CAPACITY
    ensures Put(p, []) == p
  {
  }

  /** Bytes of a head that is not complete yet. */
  lemma {:induction false} RunHead(l: Line, s: seq<byte>)
    requires Reasonable(l) && l.state.Head? && |s| <= l.state.need
    ensures Run(l, s) == l.(state := if |s| == l.state.need then AfterHead(Put(l.state.partial, s))
                                     else Head(l.state.need - |s|, Put(l.state.partial, s)))
    decreases |s|
  {
    var p := l.state.partial;
    if s == [] {
      PutNothing(p);
    } else {
      assert [s[0]] + s[1..] == s;
      PutTwice(p, [s[0]], s[1..]);
      if |s| > 1 || l.state.need > 1 {
        RunHead(Step(l, s[0]), s[1..]);
      } else {
        assert s == [s[0]];
      }
    }
  }

  /** Bytes of the rest of a message. */
  lemma {:induction false} RunData(l: Line, s: seq<byte>)
    requires Reasonable(l) && l.state.Data? && |s| <= l.state.need
    ensures Run(l, s) == if |s| == l.state.need then Line(Init(0), l.frames + [Put(l.state.partial, s)])
                         else l.(state := Data(l.state.need - |s|, Put(l.state.partial, s)))
    decreases |s|
  {
    var p := l.state.partial;
    if s == [] {
      PutNothing(p);
    } else {
      assert [s[0]] + s[1..] == s;
      PutTwice(p, [s[0]], s[1..]);
      if l.state.need > 1 {
        RunData(Step(l, s[0]), s[1..]);
      } else {
        assert s == [s[0]];
      }
    }
  }

  // ---------------------------------------------------------------- finding the synchronisation word

  /** The synchronisation word ends at position `e` of `s`. */
  predicate SyncEndsAt(s: seq<byte>, e: int) {
    SYNC_LEN <= e <= |s| && s[e - SYNC_LEN..e] == SYNC
  }

  /** How many 'Z' stand at the end. */
  function TrailingZ(s: seq<byte>): (n: nat)
    ensures n <= |s|
  {
    if s == [] || s[|s| - 1] != Z then 0 else 1 + TrailingZ(s[..|s| - 1])
  }

  lemma {:induction false} TrailingZMeans(s: seq<byte>, k: nat)
    requires k <= |s|
    ensures k <= TrailingZ(s) <==> forall i :: |s| - k <= i < |s| ==> s[i] == Z
  {
    if k > 0 && s[|s| - 1] == Z {
      TrailingZMeans(s[..|s| - 1], k - 1);
    }
  }

  lemma SyncIsAllZ(t: seq<byte>)
    requires |t| == SYNC_LEN
    ensures t == SYNC <==> forall i :: 0 <= i < SYNC_LEN ==> t[i] == Z
  {
  }

  lemma SyncIsEightZ(s: seq<byte>)
    ensures SyncEndsAt(s, |s|) <==> SYNC_LEN <= TrailingZ(s)
  {
    if SYNC_LEN <= |s| {
      hide TrailingZ;
      var from := |s| - SYNC_LEN;
      var tail := s[from..|s|];
      TrailingZMeans(s, SYNC_LEN);
      SyncIsAllZ(tail);
      assert forall i :: 0 <= i < SYNC_LEN ==> tail[i] == s[from + i];
      assert forall i :: from <= i < |s| ==> s[i] == tail[i - from];
    }
  }

  /**
   * The matcher starts over on a mismatch and still finds the first occurrence of the synchronisation word: as long as
   * there is none it has counted the 'Z' at the end, and it goes on to the head exactly at the end of the first one.
   */
  lemma {:induction false} FindsFirstSync(frames: seq<seq<byte>>, s: seq<byte>)
    requires forall e :: e < |s| ==> !SyncEndsAt(s, e)
    ensures Run(Line(Init(0), frames), s)
            == Line(if SyncEndsAt(s, |s|) then Head(MIN_HEAD_LEN, []) else Init(TrailingZ(s)), frames)
  {
    var l := Line(Init(0), frames);
    SyncIsEightZ(s);
    if s != [] {
      var front, c := s[..|s| - 1], s[|s| - 1];
      assert s == front + [c];
      forall e | e <= |front|
        ensures SyncEndsAt(front, e) <==> SyncEndsAt(s, e)
      {
        assert SYNC_LEN <= e ==> s[e - SYNC_LEN..e] == front[e - SYNC_LEN..e];
      }
      SyncIsEightZ(front);
      FindsFirstSync(frames, front);
      RunConcat(l, front, [c]);
      assert Run(Run(l, front), [c]) == Step(Run(l, front), c);
    }
  }

  // ---------------------------------------------------------------- whole streams

  /** What the line may deliver before a message: the first synchronisation word must be the message's own. */
  ghost predicate Clean(noise: seq<byte>) {
    forall e :: e < |noise| + SYNC_LEN ==> !SyncEndsAt(noise + SYNC, e)
  }

  /** A message as it stands on the line: the length it declares is the length it has. */
  predicate Declared(frame: seq<byte>) {
    HEAD_LEN <= |frame| <= 0xFFFF && Int16Of(frame[1..3]) == |frame| - HEAD_LEN
  }

  /** A declared message that fits the receive buffer. */
  predicate WellFramed(frame: seq<byte>) {
    Declared(frame) && |frame| <= CAPACITY
  }

  /** Noise is harmless exactly when it neither contains the synchronisation word nor ends in 'Z'. */
  lemma CleanMeans(noise: seq<byte>)
    ensures Clean(noise) <==>
              (forall e :: e <= |noise| ==> !SyncEndsAt(noise, e)) && (noise == [] || noise[|noise| - 1] != Z)
  {
    var s := noise + SYNC;
    forall e | e <= |noise|
      ensures SyncEndsAt(noise, e) <==> SyncEndsAt(s, e)
    {
      assert SYNC_LEN <= e ==> s[e - SYNC_LEN..e] == noise[e - SYNC_LEN..e];
    }
    if noise != [] && noise[|noise| - 1] == Z {
      EndsInZ(noise);
    }
    forall e | |noise| < e < |noise| + SYNC_LEN && (noise == [] || noise[|noise| - 1] != Z)
      ensures !SyncEndsAt(s, e)
    {
      assert noise != [] && SYNC_LEN <= e ==> s[e - SYNC_LEN..e][|noise| - 1 - (e - SYNC_LEN)] == s[|noise| - 1];
    }
  }

  /** Noise that ends in 'Z' makes the synchronisation word end too early. */
  lemma EndsInZ(noise: seq<byte>)
    requires noise != [] && noise[|noise| - 1] == Z
    ensures SyncEndsAt(noise + SYNC, |noise| + SYNC_LEN - 1)
  {
    var s, e := noise + SYNC, |noise| + SYNC_LEN - 1;
    assert s[e - SYNC_LEN..e] == SYNC;
  }

  /**
   * The stream waits for a message's head at the end of its
   * synchronisation word, and not before, exactly behind clean noise.
   */
  lemma InStepExactlyBehindCleanNoise(frames: seq<seq<byte>>, noise: seq<byte>)
    ensures Clean(noise) <==>
              && (forall e :: 0 <= e < |noise| + SYNC_LEN ==>
                     Run(Line(Init(0), frames), (noise + SYNC)[..e]).state.Init?)
              && Run(Line(Init(0), frames), noise + SYNC) == Line(Head(MIN_HEAD_LEN, []), frames)
  {
    hide Run, SyncEndsAt, TrailingZ;
    var s, l := noise + SYNC, Line(Init(0), frames);
    assert s[..|s|] == s;
    SyncAtEnd(noise);
    if Clean(noise) {
      FindsFirstSync(frames, s);
      forall e | 0 <= e < |s|
        ensures Run(l, s[..e]).state.Init?
      {
        PrefixSync(s, e);
        FindsFirstSync(frames, s[..e]);
      }
    } else {
      var some :| some < |s| && SyncEndsAt(s, some);
      var e := FirstSync(s, some);
      PrefixSync(s, e);
      FindsFirstSync(frames, s[..e]);
    }
  }

  lemma FirstSync(s: seq<byte>, some: int) returns (e: int)
    requires SyncEndsAt(s, some)
    ensures e <= some && SyncEndsAt(s, e) && forall d :: d < e ==> !SyncEndsAt(s, d)
    decreases some
  {
    if d :| d < some && SyncEndsAt(s, d) {
      e := FirstSync(s, d);
    } else {
      e := some;
    }
  }

  lemma SyncAtEnd(noise: seq<byte>)
    ensures SyncEndsAt(noise + SYNC, |noise| + SYNC_LEN)
  {
    assert (noise + SYNC)[|noise|..|noise| + SYNC_LEN] == SYNC;
  }

  lemma PrefixSync(s: seq<byte>, e: nat)
    requires e <= |s|
    ensures forall d :: d <= e ==> (SyncEndsAt(s[..e], d) <==> SyncEndsAt(s, d))
  {
    forall d | d <= e
      ensures SyncEndsAt(s[..e], d) <==> SyncEndsAt(s, d)
    {
      assert SYNC_LEN <= d ==> s[..e][d - SYNC_LEN..d] == s[d - SYNC_LEN..d];
    }
  }

  /**
   * From the end of the synchronisation word on, a message is received up to the size of the receive buffer, and the
   * stream is then ready for the next one.
   */
  lemma ReceivesFrame(frames: seq<seq<byte>>, frame: seq<byte>)
    requires Declared(frame)
    ensures Run(Line(Head(MIN_HEAD_LEN, []), frames), frame)
            == Line(Init(0), frames + [frame[..Min(|frame|, CAPACITY)]])
  {
    hide Run, Step;
    var l := Line(Head(MIN_HEAD_LEN, []), frames);
    var head, rest := frame[..3], frame[3..];
    assert frame == head + rest;
    RunConcat(l, head, rest);
    RunHead(l, head);
    assert Put([], head) == head && head[1..3] == frame[1..3];
    assert Remaining(head) == |rest|;
    RunData(Run(l, head), rest);
    assert Put(head, rest) == frame[..Min(|frame|, CAPACITY)];
  }

  /** A message arrives whole exactly when it fits the receive buffer. */
  lemma ArrivesWholeExactlyIfItFits(frames: seq<seq<byte>>, frame: seq<byte>)
    requires Declared(frame)
    ensures Run(Line(Head(MIN_HEAD_LEN, []), frames), frame) == Line(Init(0), frames + [frame]) <==> WellFramed(frame)
  {
    ReceivesFrame(frames, frame);
    assert (frames + [frame])[|frames|] == frame;
    assert (frames + [frame[..Min(|frame|, CAPACITY)]])[|frames|] == frame[..Min(|frame|, CAPACITY)];
    assert |frame| <= CAPACITY ==> frame[..|frame|] == frame;
  }

  /** Noise, synchronisation word and message, over and over. */
  function Traffic(parts: seq<(seq<byte>, seq<byte>)>): seq<byte> {
    if parts == [] then [] else parts[0].0 + SYNC + parts[0].1 + Traffic(parts[1..])
  }

  function FramesOf(parts: seq<(seq<byte>, seq<byte>)>): seq<seq<byte>> {
    if parts == [] then [] else [parts[0].1] + FramesOf(parts[1..])
  }

  /**
   * Resynchronisation: whatever clean noise stands between them, and whatever 'Z' bytes they contain, exactly the
   * messages come out, in their order.
   */
  lemma {:induction false} Resynchronises(frames: seq<seq<byte>>, parts: seq<(seq<byte>, seq<byte>)>)
    requires forall i :: 0 <= i < |parts| ==> Clean(parts[i].0) && WellFramed(parts[i].1)
    ensures Run(Line(Init(0), frames), Traffic(parts)) == Line(Init(0), frames + FramesOf(parts))
    decreases |parts|
  {
    var l := Line(Init(0), frames);
    if parts == [] {
      assert frames + FramesOf(parts) == frames;
    } else {
      var (noise, frame) := parts[0];
      var rest := Traffic(parts[1..]);
      InStepExactlyBehindCleanNoise(frames, noise);
      ArrivesWholeExactlyIfItFits(frames, frame);
      RunConcat(l, noise + SYNC, frame + rest);
      RunConcat(Run(l, noise + SYNC), frame, rest);
      assert Traffic(parts) == (noise + SYNC) + (frame + rest);
      Resynchronises(frames + [frame], parts[1..]);
      assert frames + FramesOf(parts) == (frames + [frame]) + FramesOf(parts[1..]);
    }
  }
}
