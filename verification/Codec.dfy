/** The field codecs: single bytes, and 16-bit integers in network byte order. */
module Codec {
  import opened Bytes

  /** A 16-bit value as it travels: high byte first. */
  function Int16Bytes(v: uint16): (s: seq<byte>)
    ensures |s| == 2
  {
    [v / 0x100, v % 0x100]
  }

  function Int16Of(s: seq<byte>): uint16
    requires |s| == 2
  {
    (s[0] as int) * 0x100 + s[1]
  }

  lemma Int16RoundTrip(v: uint16)
    ensures Int16Of(Int16Bytes(v)) == v
  {
  }

  /** Two bytes are the encoding of the value that they decode to. */
  lemma Int16Inverse(s: seq<byte>)
    requires |s| == 2
    ensures Int16Bytes(Int16Of(s)) == s
  {
    var v := Int16Of(s);
    assert v / 0x100 == s[0] && v % 0x100 == s[1];
  }

  /** `mem` with `data` written at position `at`. */
  function Splice(mem: seq<byte>, at: nat, data: seq<byte>): (r: seq<byte>)
    requires at + |data| <= |mem|
    ensures |r| == |mem|
    ensures forall i :: 0 <= i < |mem| ==> r[i] == if at <= i < at + |data| then data[i - at] else mem[i]
  {
    mem[..at] + data + mem[at + |data|..]
  }

  /** Two pieces written one after the other are one longer piece. */
  lemma SpliceTwice(mem: seq<byte>, at: nat, x: seq<byte>, y: seq<byte>)
    requires at + |x| + |y| <= |mem|
    ensures Splice(Splice(mem, at, x), at + |x|, y) == Splice(mem, at, x + y)
  {
  }

  /** Writing the next piece of `target` behind its first `k` bytes. */
  lemma SpliceExtend(mem: seq<byte>, at: nat, target: seq<byte>, k: nat, piece: seq<byte>)
    requires k + |piece| <= |target| && at + k + |piece| <= |mem|
    requires target[k..k + |piece|] == piece
    ensures Splice(Splice(mem, at, target[..k]), at + k, piece) == Splice(mem, at, target[..k + |piece|])
  {
    SpliceTwice(mem, at, target[..k], piece);
    assert target[..k + |piece|] == target[..k] + piece;
  }

  /** Store bytes, as `memcpy` into the buffer does. */
  method Store(buf: array<byte>, at: nat, data: seq<byte>)
    requires at + |data| <= buf.Length
    modifies buf
    ensures buf[..] == Splice(old(buf[..]), at, data)
  {
    forall i | 0 <= i < |data| {
      buf[at + i] := data[i];
    }
  }

  /** `z_encode_byte` */
  method EncodeByte(v: byte, buf: array<byte>, at: nat, len: nat) returns (rv: int)
    requires at + len <= buf.Length
    modifies buf
    ensures rv == if 1 <= len then 1 else -1
    ensures buf[..] == if 1 <= len then Splice(old(buf[..]), at, [v]) else old(buf[..])
  {
    if len < 1 {
      return -1;
    }
    buf[at] := v;
    return 1;
  }

  /** `z_encode_integer16` */
  method EncodeInt16(v: uint16, buf: array<byte>, at: nat, len: nat) returns (rv: int)
    requires at + len <= buf.Length
    modifies buf
    ensures rv == if 2 <= len then 2 else -1
    ensures buf[..] == if 2 <= len then Splice(old(buf[..]), at, Int16Bytes(v)) else old(buf[..])
    ensures 2 <= len ==> buf[at] == v / 0x100 && buf[at + 1] == v % 0x100
  {
    if len < 2 {
      return -1;
    }
    Store(buf, at, Int16Bytes(v));
    return 2;
  }

  /** `z_decode_byte` */
  method DecodeByte(buf: array<byte>, at: nat, len: nat) returns (rv: int, v: byte)
    requires at + len <= buf.Length
    ensures if 1 <= len then rv == 1 && buf[at] == v else rv == -1
  {
    if len < 1 {
      return -1, 0;
    }
    return 1, buf[at];
  }

  /** `z_decode_integer16` */
  method DecodeInt16(buf: array<byte>, at: nat, len: nat) returns (rv: int, v: uint16)
    requires at + len <= buf.Length
    ensures if 2 <= len then rv == 2 && v == Int16Of(buf[at..at + 2]) else rv == -1
    ensures 2 <= len ==> v == buf[at] as int * 0x100 + buf[at + 1]
  {
    if len < 2 {
      return -1, 0;
    }
    return 2, Int16Of(buf[at..at + 2]);
  }
}
