/** Whole runs of evbuffer operations on two buffers, against two plain byte strings. */
module EvRuns {
  import opened Bytes
  import opened EvQueue

  /** A call on one buffer, which may take bytes from another one. */
  datatype Call =
    | Add(data: seq<byte>)
    | Prepend(data: seq<byte>)
    | Drain(n: nat)
    | CopyOut(n: nat)
    | Remove(n: nat)
    | Pullup(size: int)
    | AddBuffer
    | PrependBuffer
    | RemoveBuffer(n: nat)

  /** A step of a run: the call is made on the first or on the second buffer. */
  datatype Op = Op(first: bool, call: Call)

  /** Two byte strings, and everything that the run has handed out so far. */
  datatype Strings = Strings(a: seq<byte>, b: seq<byte>, out: seq<byte>)

  /** What a call does to the byte string `s.a`, with `s.b` as the other one. */
  function Effect(s: Strings, call: Call): Strings {
    match call
    case Add(data) => s.(a := s.a + data)
    case Prepend(data) => s.(a := data + s.a)
    case Drain(n) => s.(a := s.a[Min(n, |s.a|)..])
    case CopyOut(n) => s.(out := s.out + s.a[..Min(n, |s.a|)])
    case Remove(n) => s.(a := s.a[Min(n, |s.a|)..], out := s.out + s.a[..Min(n, |s.a|)])
    case Pullup(_) => s
    case AddBuffer => s.(a := s.a + s.b, b := [])
    case PrependBuffer => s.(a := s.b + s.a, b := [])
    case RemoveBuffer(n) => var m := Min(n, |s.b|); s.(a := s.a + s.b[..m], b := s.b[m..])
  }

  function Swap(s: Strings): Strings {
    Strings(s.b, s.a, s.out)
  }

  function Step(s: Strings, op: Op): Strings {
    if op.first then Effect(s, op.call) else Swap(Effect(Swap(s), op.call))
  }

  function Run(s: Strings, ops: seq<Op>): Strings {
    if ops == [] then s else Step(Run(s, ops[..|ops| - 1]), ops[|ops| - 1])
  }

  /** A live buffer as a run uses it. */
  ghost predicate Usable(b: EvBuffer)
    reads b, b.Mem
  {
    b.Valid() && b.NoSpare() && !b.freezeStart && !b.freezeEnd
  }

  ghost predicate Ready(a: EvBuffer, b: EvBuffer)
    reads a, b, a.Mem, b.Mem
  {
    Usable(a) && Usable(b) && a.Apart(b)
  }

  ghost function Abstract(a: EvBuffer, b: EvBuffer, out: seq<byte>): Strings
    reads a, b
  {
    Strings(a.Contents(), b.Contents(), out)
  }

  method NewBuffer() returns (b: EvBuffer)
    ensures fresh(b) && fresh(b.Mem) && Usable(b) && b.Contents() == [] && b !in b.Mem
  {
    b := new EvBuffer();
  }

  /** A call that concerns one buffer only. */
  method PerformOne(b: EvBuffer, call: Call, ghost other: seq<byte>, ghost out: seq<byte>) returns (data: seq<byte>)
    requires Usable(b) && !call.AddBuffer? && !call.PrependBuffer? && !call.RemoveBuffer?
    modifies b, b.Mem
    ensures Usable(b) && fresh(b.Mem - old(b.Mem))
    ensures Strings(b.Contents(), other, out + data) == Effect(Strings(old(b.Contents()), other, out), call)
  {
    hide b.Valid, b.Contents;
    data := [];
    assert out + [] == out;
    match call
    case Add(d) => var rc := b.Add(d);
    case Prepend(d) => var rc := b.Prepend(d);
    case Drain(n) => var rc := b.Drain(n);
    case CopyOut(n) => var rc; rc, data := b.CopyOut(n);
    case Remove(n) => var rc; rc, data := b.Remove(n);
    case Pullup(size) => var r := b.Pullup(size);
  }

  /** A call that moves bytes between the two buffers. */
  method PerformTwo(mine: EvBuffer, other: EvBuffer, call: Call, ghost out: seq<byte>)
    requires Ready(mine, other) && (call.AddBuffer? || call.PrependBuffer? || call.RemoveBuffer?)
    modifies mine, mine.Mem, other, other.Mem
    ensures Ready(mine, other) && fresh(mine.Mem + other.Mem - old(mine.Mem) - old(other.Mem))
    ensures Abstract(mine, other, out) == Effect(old(Abstract(mine, other, out)), call)
  {
    hide EvBuffer.Valid, EvBuffer.Contents;
    match call
    case AddBuffer => var rc := mine.AddBuffer(other);
    case PrependBuffer => var rc := mine.PrependBuffer(other);
    case RemoveBuffer(n) => var rc := other.RemoveBuffer(mine, n);
  }

  /** One call on the buffers does to their contents what `Step` does to the strings. */
  method Perform(a: EvBuffer, b: EvBuffer, op: Op, ghost out: seq<byte>) returns (data: seq<byte>)
    requires Ready(a, b)
    modifies a, a.Mem, b, b.Mem
    ensures Ready(a, b) && fresh(a.Mem + b.Mem - old(a.Mem) - old(b.Mem))
    ensures Abstract(a, b, out + data) == Step(old(Abstract(a, b, out)), op)
  {
    hide EvBuffer.Valid, EvBuffer.Contents;
    var mine, other := if op.first then a else b, if op.first then b else a;
    if op.call.AddBuffer? || op.call.PrependBuffer? || op.call.RemoveBuffer? {
      PerformTwo(mine, other, op.call, out);
      data := [];
      assert out + data == out;
    } else {
      data := PerformOne(mine, op.call, other.Contents(), out);
    }
  }

  /** Any run on two new buffers: at its end they hold, and it has handed out, exactly what the strings say. */
  method Replay(ops: seq<Op>) returns (a: EvBuffer, b: EvBuffer, out: seq<byte>)
    ensures fresh(a) && fresh(b) && Ready(a, b)
    ensures Abstract(a, b, out) == Run(Strings([], [], []), ops)
  {
    hide Usable, Step;
    a := NewBuffer();
    b := NewBuffer();
    out := [];
    assert ops[..0] == [];
    for i := 0 to |ops|
      invariant Ready(a, b) && fresh(a) && fresh(b) && fresh(a.Mem) && fresh(b.Mem)
      invariant Abstract(a, b, out) == Run(Strings([], [], []), ops[..i])
    {
      var data := Perform(a, b, ops[i], out);
      out := out + data;
      assert ops[..i + 1][..i] == ops[..i];
    }
    assert ops[..|ops|] == ops;
  }

  /** Calls that only push bytes along: into the first buffer, from there to the second, and out of that one. */
  predicate Forwards(op: Op) {
    match op.call
    case Add(_) => op.first
    case Pullup(_) => true
    case AddBuffer => !op.first
    case RemoveBuffer(_) => !op.first
    case Remove(_) => !op.first
    case _ => false
  }

  /** The bytes that a run writes. */
  function Written(ops: seq<Op>): seq<byte> {
    if ops == [] then []
    else
      var last := ops[|ops| - 1];
      Written(ops[..|ops| - 1]) + if last.call.Add? then last.call.data else []
  }

  /** A pipeline of two buffers is first in, first out: nothing is lost, repeated or reordered on the way. */
  lemma {:induction false} Pipeline(ops: seq<Op>)
    requires forall i :: 0 <= i < |ops| ==> Forwards(ops[i])
    ensures var s := Run(Strings([], [], []), ops);
            s.out + s.b + s.a == Written(ops)
  {
    if ops != [] {
      var before := Run(Strings([], [], []), ops[..|ops| - 1]);
      Pipeline(ops[..|ops| - 1]);
      PipelineStep(before, ops[|ops| - 1]);
    }
  }

  lemma PipelineStep(s: Strings, op: Op)
    requires Forwards(op)
    ensures var t := Step(s, op);
            t.out + t.b + t.a == s.out + s.b + s.a + if op.call.Add? then op.call.data else []
  {
    match op.call
    case RemoveBuffer(n) =>
      var m := Min(n, |s.a|);
      assert s.a == s.a[..m] + s.a[m..];
    case Remove(n) =>
      var m := Min(n, |s.b|);
      assert s.b == s.b[..m] + s.b[m..];
    case _ =>
  }
}
