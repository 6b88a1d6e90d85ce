/** The ZigBee messages: what they look like on the line, and how they are written and read. */
module Messages {
  import opened Bytes
  import opened Codec

  const SYNC_LEN := 8
  const HEAD_LEN := 6
  const Z: byte := 0x5A    // 'Z'
  const SYNC: seq<byte> := [Z, Z, Z, Z, Z, Z, Z, Z]

  const FAIL: int := -1

  const Z_ID_ZB_REG_REQ: byte := 0x01
  const Z_ID_ZB_REG_RSP: byte := 0x81
  const Z_ID_ZB_GET_REQ: byte := 0x02
  const Z_ID_ZB_SET_REQ: byte := 0x03
  const Z_ID_ZB_SET_RSP: byte := 0x83
  const Z_ID_ZB_BROADCAST_IND: byte := 0x04
  const Z_ID_ZB_BIND_REQ: byte := 0x05

  datatype ItemPair = ItemPair(id: byte, val: uint16)

  type Mac = s: seq<byte> | |s| == 8 witness [0, 0, 0, 0, 0, 0, 0, 0]

  /** The fields that a message class adds to the header. */
  datatype Body =
    | RegReq(mac: Mac, devType: uint16)
    | RegRsp(status: byte)
    | GetReq(items: seq<byte>)
    | SetReq(pairs: seq<ItemPair>)
    | SetRsp(status: byte)
    | BindReq
    | Broadcast(what: uint16)

  /** The field values of a message object. */
  datatype Msg = Msg(ver: byte, len: uint16, cmd: byte, addr: uint16, body: Body)

  /** The command that the constructor of each class sets. */
  function CommandOf(b: Body): byte {
    match b
    case RegReq(_, _) => Z_ID_ZB_REG_REQ
    case RegRsp(_) => Z_ID_ZB_REG_RSP
    case GetReq(_) => Z_ID_ZB_GET_REQ
    case SetReq(_) => Z_ID_ZB_SET_REQ
    case SetRsp(_) => Z_ID_ZB_SET_RSP
    case BindReq => Z_ID_ZB_BIND_REQ
    case Broadcast(_) => Z_ID_ZB_BROADCAST_IND
  }

  predicate SameKind(a: Body, b: Body) {
    CommandOf(a) == CommandOf(b)
  }

  /** A body as it is before anything has been decoded into it: its lists are empty. */
  predicate Blank(b: Body) {
    (b.GetReq? ==> b.items == []) && (b.SetReq? ==> b.pairs == [])
  }

  function PairBytes(pairs: seq<ItemPair>): (s: seq<byte>)
    ensures |s| == 3 * |pairs|
  {
    if pairs == [] then [] else [pairs[0].id] + Int16Bytes(pairs[0].val) + PairBytes(pairs[1..])
  }

  function BodyBytes(b: Body): seq<byte> {
    match b
    case RegReq(mac, devType) => mac + Int16Bytes(devType)
    case RegRsp(status) => [status]
    case GetReq(items) => [|items| % 0x100] + items
    case SetReq(pairs) => [|pairs| % 0x100] + PairBytes(pairs)
    case SetRsp(status) => [status]
    case BindReq => []
    case Broadcast(what) => Int16Bytes(what)
  }

  /** `getBodyLen`, which returns 16 bits. */
  function BodyLen(b: Body): uint16 {
    match b
    case RegReq(_, _) => 10
    case RegRsp(_) => 1
    case GetReq(items) => (1 + |items|) % 0x1_0000
    case SetReq(pairs) => (1 + 3 * |pairs|) % 0x1_0000
    case SetRsp(_) => 1
    case BindReq => 0
    case Broadcast(_) => 2
  }

  function HeaderBytes(ver: byte, len: uint16, cmd: byte, addr: uint16): (s: seq<byte>)
    ensures |s| == HEAD_LEN
  {
    [ver] + Int16Bytes(len) + [cmd] + Int16Bytes(addr)
  }

  lemma HeaderPieces(ver: byte, len: uint16, cmd: byte, addr: uint16)
    ensures var h := HeaderBytes(ver, len, cmd, addr);
            && h[..1] == [ver] && h[1..3] == Int16Bytes(len) && h[3..4] == [cmd] && h[4..6] == Int16Bytes(addr)
            && h[..6] == h
  {
  }

  /** A message as the stream hands it to its reader: header and body. */
  function Frame(m: Msg): seq<byte> {
    HeaderBytes(m.ver, BodyLen(m.body), m.cmd, m.addr) + BodyBytes(m.body)
  }

  /** A message on the line: synchronisation word, header and body. */
  function Wire(m: Msg): seq<byte> {
    SYNC + Frame(m)
  }

  /** The lists of a message can be counted in one byte. */
  predicate Countable(b: Body) {
    (b.GetReq? ==> |b.items| <= 0xFF) && (b.SetReq? ==> |b.pairs| <= 0xFF)
  }

  /** For countable messages the length field is the true length of the body. */
  lemma LengthIsTrue(b: Body)
    requires Countable(b)
    ensures BodyLen(b) == |BodyBytes(b)| <= 766
  {
  }

  /** For any message it is the true length modulo 65536. */
  lemma LengthWraps(b: Body)
    ensures BodyLen(b) == |BodyBytes(b)| % 0x1_0000
  {
  }

  /** The three bytes of the i-th pair. */
  lemma {:induction false} PairAt(pairs: seq<ItemPair>, i: nat)
    requires i < |pairs|
    ensures PairBytes(pairs)[3 * i..3 * i + 3] == [pairs[i].id] + Int16Bytes(pairs[i].val)
  {
    if i > 0 {
      PairAt(pairs[1..], i - 1);
      var rest := PairBytes(pairs[1..]);
      assert PairBytes(pairs)[3 * i..3 * i + 3] == rest[3 * (i - 1)..3 * (i - 1) + 3];
    }
  }

  // ---------------------------------------------------------------- decoding

  /** The header fields are stored one by one, as far as the bytes reach. */
  function DecodeHeader(m: Msg, mem: seq<byte>, len: nat): (int, Msg)
    requires len <= |mem|
  {
    if len < 1 then (FAIL, m)
    else
      var m1 := m.(ver := mem[0]);
      if len < 3 then (FAIL, m1)
      else
        var m2 := m1.(len := Int16Of(mem[1..3]));
        if len < 4 then (FAIL, m2)
        else
          var m3 := m2.(cmd := mem[3]);
          if len < 6 then (FAIL, m3) else (6, m3.(addr := Int16Of(mem[4..6])))
  }

  /** As many of `n` pairs as `s` holds; false if it does not hold all of them. */
  function DecodePairs(s: seq<byte>, n: nat): (bool, seq<ItemPair>) {
    if n == 0 then (true, [])
    else if |s| < 3 then (false, [])
    else
      var (ok, rest) := DecodePairs(s[3..], n - 1);
      (ok, [ItemPair(s[0], Int16Of(s[1..3]))] + rest)
  }

  /** The body after a header `h`, from `mem`, of which `rest` bytes belong to the message. */
  function DecodeBody(h: Msg, mem: seq<byte>, rest: nat): (int, Msg)
    requires rest <= |mem| && (h.body.GetReq? && h.len <= rest && 1 <= rest ==> 1 + mem[0] <= |mem|)
  {
    match h.body
    case RegReq(_, devType) =>
      if rest < h.len || h.len < 8 then (FAIL, h)
      else
        var h1 := h.(body := RegReq(mem[..8], devType));
        if rest < 10 then (FAIL, h1) else (10, h.(body := RegReq(mem[..8], Int16Of(mem[8..10]))))
    case RegRsp(_) => if rest < h.len || rest < 1 then (FAIL, h) else (1, h.(body := RegRsp(mem[0])))
    case GetReq(items) =>
      if rest < h.len || rest < 1 then (FAIL, h)
      else (1 + mem[0] as int, h.(body := GetReq(items + mem[1..1 + mem[0]])))
    case SetReq(pairs) =>
      if rest < h.len || rest < 1 then (FAIL, h)
      else
        var (ok, got) := DecodePairs(mem[1..rest], mem[0]);
        (if ok then 1 + 3 * (mem[0] as int) else FAIL, h.(body := SetReq(pairs + got)))
    case SetRsp(_) => if rest < h.len || rest < 1 then (FAIL, h) else (1, h.(body := SetRsp(mem[0])))
    case BindReq => (0, h)
    case Broadcast(_) => if rest < h.len || rest < 2 then (FAIL, h) else (2, h.(body := Broadcast(Int16Of(mem[..2]))))
  }

  /**
   * `decode` reads the items of a get request without looking at how many bytes are left, so the memory behind the
   * message must be there.
   */
  predicate Readable(m: Msg, mem: seq<byte>, len: nat) {
    && len <= |mem|
    && (m.body.GetReq? && 7 <= len && Int16Of(mem[1..3]) <= len - 6 ==> 7 + mem[6] <= |mem|)
  }

  /** `decode`: the returned length, or -1, and the fields afterwards. */
  function DecodeMsg(m: Msg, mem: seq<byte>, len: nat): (int, Msg)
    requires Readable(m, mem, len)
  {
    var (rv, h) := DecodeHeader(m, mem, len);
    if rv < 0 then (rv, h)
    else
      var (n, r) := DecodeBody(h, mem[6..], len - 6);
      (if n < 0 then n else 6 + n, r)
  }

  lemma DecodePairsStep(s: seq<byte>, n: nat)
    ensures n == 0 ==> DecodePairs(s, n) == (true, [])
    ensures 0 < n && |s| < 3 ==> DecodePairs(s, n) == (false, [])
    ensures 0 < n && 3 <= |s| ==>
              var rest := DecodePairs(s[3..], n - 1);
              DecodePairs(s, n) == (rest.0, [ItemPair(s[0], Int16Of(s[1..3]))] + rest.1)
  {
  }

  /** What is still to be decoded behind the pairs that were got. */
  lemma NextPair(got: seq<ItemPair>, left: seq<byte>, n: nat)
    ensures n == 0 || |left| < 3 ==> DecodePairs(left, n).0 == (n == 0) && got + DecodePairs(left, n).1 == got
    ensures 0 < n && 3 <= |left| ==>
              var rest := DecodePairs(left[3..], n - 1);
              && DecodePairs(left, n).0 == rest.0
              && got + DecodePairs(left, n).1 == got + [ItemPair(left[0], Int16Of(left[1..3]))] + rest.1
  {
    DecodePairsStep(left, n);
    hide DecodePairs;
  }

  /** The first pairs of a printed list are read back, as many as the count says. */
  lemma {:induction false} DecodePairsOf(pairs: seq<ItemPair>, n: nat)
    requires n <= |pairs|
    ensures DecodePairs(PairBytes(pairs), n) == (true, pairs[..n])
  {
    if n > 0 {
      var s := PairBytes(pairs);
      assert s[3..] == PairBytes(pairs[1..]);
      assert s[1..3] == Int16Bytes(pairs[0].val);
      Int16RoundTrip(pairs[0].val);
      DecodePairsOf(pairs[1..], n - 1);
      assert [pairs[0]] + pairs[1..][..n - 1] == pairs[..n];
    }
  }

  lemma HeaderRoundTrip(blank: Msg, m: Msg, tail: seq<byte>)
    ensures DecodeHeader(blank, Frame(m) + tail, |Frame(m)|) == (6, m.(len := BodyLen(m.body), body := blank.body))
    ensures (Frame(m) + tail)[6..] == BodyBytes(m.body) + tail
  {
    var f := Frame(m) + tail;
    Int16RoundTrip(BodyLen(m.body));
    Int16RoundTrip(m.addr);
    assert f[1..3] == Int16Bytes(BodyLen(m.body));
    assert f[4..6] == Int16Bytes(m.addr);
  }

  lemma GetReqRoundTrip(h: Msg, items: seq<byte>, tail: seq<byte>)
    requires h.body == GetReq([]) && h.len == BodyLen(GetReq(items))
    ensures var s := BodyBytes(GetReq(items));
            && 1 + s[0] <= |s|
            && DecodeBody(h, s + tail, |s|) == (1 + |items| % 0x100, h.(body := GetReq(items[..|items| % 0x100])))
  {
    var s, n := BodyBytes(GetReq(items)), |items| % 0x100;
    assert (s + tail)[1..1 + n] == items[..n] == [] + items[..n];
  }

  lemma SetReqRoundTrip(h: Msg, pairs: seq<ItemPair>, tail: seq<byte>)
    requires h.body == SetReq([]) && h.len == BodyLen(SetReq(pairs))
    ensures var s := BodyBytes(SetReq(pairs));
            DecodeBody(h, s + tail, |s|)
            == (1 + 3 * (|pairs| % 0x100), h.(body := SetReq(pairs[..|pairs| % 0x100])))
  {
    hide DecodePairs, PairBytes;
    var s, n := BodyBytes(SetReq(pairs)), |pairs| % 0x100;
    DecodePairsOf(pairs, n);
    assert (s + tail)[1..|s|] == PairBytes(pairs);
    assert [] + pairs[..n] == pairs[..n];
  }

  lemma PlainRoundTrip(h: Msg, b: Body, tail: seq<byte>)
    requires SameKind(h.body, b) && !b.GetReq? && !b.SetReq? && h.len == BodyLen(b)
    ensures DecodeBody(h, BodyBytes(b) + tail, |BodyBytes(b)|) == (|BodyBytes(b)|, h.(body := b))
  {
    var s := BodyBytes(b) + tail;
    match b
    case RegReq(mac, devType) =>
      assert s[..8] == mac && s[8..10] == Int16Bytes(devType);
      Int16RoundTrip(devType);
    case Broadcast(what) =>
      assert s[..2] == Int16Bytes(what);
      Int16RoundTrip(what);
    case _ =>
  }

  /** The body comes back exactly when its list can be counted in one byte. */
  lemma BodyRoundTrip(h: Msg, b: Body, tail: seq<byte>)
    requires SameKind(h.body, b) && Blank(h.body) && h.len == BodyLen(b)
    ensures b.GetReq? ==> 1 + BodyBytes(b)[0] <= |BodyBytes(b)|
    ensures DecodeBody(h, BodyBytes(b) + tail, |BodyBytes(b)|) == (|BodyBytes(b)|, h.(body := b)) <==> Countable(b)
  {
    hide DecodeBody, DecodePairs, PairBytes;
    match b
    case GetReq(items) =>
      GetReqRoundTrip(h, items, tail);
      assert |items| <= 0xFF ==> items[..|items| % 0x100] == items;
    case SetReq(pairs) =>
      SetReqRoundTrip(h, pairs, tail);
      assert |pairs| <= 0xFF ==> pairs[..|pairs| % 0x100] == pairs;
    case _ =>
      PlainRoundTrip(h, b, tail);
  }

  /**
   * A message that is printed and then decoded into a blank message of its class
   * comes back with all its fields, and all its bytes are used, exactly when its
   * list has at most 255 entries. What stands behind it in memory is no matter.
   */
  lemma DecodeOfFrame(blank: Msg, m: Msg, tail: seq<byte>)
    requires SameKind(blank.body, m.body) && Blank(blank.body)
    ensures Readable(blank, Frame(m) + tail, |Frame(m)|)
    ensures Countable(m.body) <==>
              DecodeMsg(blank, Frame(m) + tail, |Frame(m)|) == (|Frame(m)|, m.(len := BodyLen(m.body)))
  {
    HeaderRoundTrip(blank, m, tail);
    BodyRoundTrip(m.(len := BodyLen(m.body), body := blank.body), m.body, tail);
    assert |Frame(m)| == 6 + |BodyBytes(m.body)|;
    assert BodyBytes(m.body) != [] ==> (Frame(m) + tail)[6] == BodyBytes(m.body)[0];
  }

  lemma {:induction false} PairsPrintBack(s: seq<byte>, n: nat)
    ensures var (ok, got) := DecodePairs(s, n);
            ok ==> |got| == n && 3 * n <= |s| && PairBytes(got) == s[..3 * n]
  {
    if n > 0 && |s| >= 3 {
      PairsPrintBack(s[3..], n - 1);
      Int16Inverse(s[1..3]);
      var (ok, got) := DecodePairs(s, n);
      if ok {
        assert got[1..] == DecodePairs(s[3..], n - 1).1;
        assert s[..3 * n] == [s[0]] + s[1..3] + s[3..][..3 * (n - 1)];
      }
    }
  }

  lemma BodyPrintsBack(h: Msg, mem: seq<byte>, rest: nat)
    requires Blank(h.body)
    requires rest <= |mem| && (h.body.GetReq? && h.len <= rest && 1 <= rest ==> 1 + mem[0] <= |mem|)
    ensures var (n, r) := DecodeBody(h, mem, rest);
            n >= 0 ==> n <= |mem| && BodyBytes(r.body) == mem[..n] && Countable(r.body) && r == h.(body := r.body)
  {
    hide DecodePairs, PairBytes, Int16Of, Int16Bytes;
    match h.body
    case RegReq(_, _) =>
      if rest >= 10 {
        Int16Inverse(mem[8..10]);
      }
    case SetReq(_) =>
      if rest >= 1 {
        PairsPrintBack(mem[1..rest], mem[0]);
        var (ok, got) := DecodePairs(mem[1..rest], mem[0]);
        assert [] + got == got;
        if ok {
          assert mem[..1 + 3 * |got|] == [mem[0]] + mem[1..rest][..3 * |got|];
        }
      }
    case Broadcast(_) =>
      if rest >= 2 {
        Int16Inverse(mem[..2]);
      }
    case _ =>
  }

  lemma HeaderPrintsBack(m: Msg, mem: seq<byte>, rv: nat)
    requires 6 <= rv <= |mem| && mem[..6] == HeaderBytes(m.ver, m.len, m.cmd, m.addr)
    requires BodyBytes(m.body) == mem[6..rv] && BodyLen(m.body) == rv - 6
    ensures Frame(m) == mem[..rv] <==> m.len == rv - 6
  {
    hide BodyBytes, BodyLen, HeaderBytes;
    HeaderPieces(m.ver, m.len, m.cmd, m.addr);
    HeaderPieces(m.ver, BodyLen(m.body), m.cmd, m.addr);
    Int16RoundTrip(m.len);
    Int16RoundTrip(BodyLen(m.body));
    assert mem[..rv] == mem[..6] + mem[6..rv];
    if Frame(m) == mem[..rv] {
      assert Frame(m)[..6] == mem[..rv][..6] == mem[..6];
      assert Frame(m)[..6] == HeaderBytes(m.ver, BodyLen(m.body), m.cmd, m.addr);
    }
  }

  /**
   * Whatever decodes into a blank message prints back to the bytes that it was decoded from, exactly if its length
   * field is the number of bytes that the body took.
   */
  lemma PrintsBackExactly(blank: Msg, mem: seq<byte>, len: nat)
    requires Readable(blank, mem, len) && Blank(blank.body)
    ensures var (rv, m) := DecodeMsg(blank, mem, len);
            rv >= 0 ==> 6 <= rv <= |mem| && |Frame(m)| == rv && (Frame(m) == mem[..rv] <==> m.len == rv - 6)
  {
    if len >= 6 {
      var h := DecodeHeader(blank, mem, len).1;
      BodyPrintsBack(h, mem[6..], len - 6);
      Int16Inverse(mem[1..3]);
      Int16Inverse(mem[4..6]);
      var (rv, m) := DecodeMsg(blank, mem, len);
      if rv >= 0 {
        LengthIsTrue(m.body);
        assert mem[..6] == [mem[0]] + mem[1..3] + [mem[3]] + mem[4..6];
        assert mem[6..rv] == mem[6..][..rv - 6];
        HeaderPrintsBack(m, mem, rv);
      }
    }
  }

  // ---------------------------------------------------------------- byte by byte

  /** Two cells hold a 16-bit value, high byte first. */
  predicate Holds16(w: seq<byte>, at: nat, v: int) {
    at + 2 <= |w| && w[at] as int * 0x100 + w[at + 1] == v
  }

  lemma Int16Holds(w: seq<byte>, at: nat, v: uint16)
    requires at + 2 <= |w| && w[at..at + 2] == Int16Bytes(v)
    ensures Holds16(w, at, v)
  {
    assert w[at] == w[at..at + 2][0] && w[at + 1] == w[at..at + 2][1];
  }

  /** Where each field of the header stands on the line. */
  lemma HeaderLayout(m: Msg)
    ensures var w := Wire(m);
            && |w| == 14 + |BodyBytes(m.body)| && w[14..] == BodyBytes(m.body)
            && (forall k :: 0 <= k < 8 ==> w[k] as char == 'Z')
            && w[8] == m.ver && Holds16(w, 9, BodyLen(m.body)) && w[11] == m.cmd && Holds16(w, 12, m.addr)
  {
    hide BodyBytes, BodyLen;
    var w, n := Wire(m), BodyLen(m.body);
    HeaderPieces(m.ver, n, m.cmd, m.addr);
    assert w[8..14] == HeaderBytes(m.ver, n, m.cmd, m.addr);
    assert w[9..11] == w[8..14][1..3] && w[12..14] == w[8..14][4..6];
    Int16Holds(w, 9, n);
    Int16Holds(w, 12, m.addr);
  }

  /** Where each field of a body stands behind the header. */
  lemma BodyLayout(b: Body)
    ensures var w := BodyBytes(b);
            match b
            case RegReq(mac, devType) => |w| == 10 && w[..8] == mac && Holds16(w, 8, devType)
            case RegRsp(status) => w == [status]
            case GetReq(items) => |w| == 1 + |items| && w[0] == |items| % 256 && w[1..] == items
            case SetReq(pairs) =>
              && |w| == 1 + 3 * |pairs| && w[0] == |pairs| % 256
              && forall i :: 0 <= i < |pairs| ==> w[1 + 3 * i] == pairs[i].id && Holds16(w, 2 + 3 * i, pairs[i].val)
            case SetRsp(status) => w == [status]
            case BindReq => w == []
            case Broadcast(what) => |w| == 2 && Holds16(w, 0, what)
  {
    var w := BodyBytes(b);
    match b
    case RegReq(mac, devType) => Int16Holds(w, 8, devType);
    case SetReq(pairs) =>
      forall i | 0 <= i < |pairs|
        ensures w[1 + 3 * i] == pairs[i].id && Holds16(w, 2 + 3 * i, pairs[i].val)
      {
        PairLayout(pairs, i);
      }
    case Broadcast(what) => Int16Holds(w, 0, what);
    case _ =>
  }

  lemma PairLayout(pairs: seq<ItemPair>, i: nat)
    requires i < |pairs|
    ensures var w := BodyBytes(SetReq(pairs));
            |w| == 1 + 3 * |pairs| && w[1 + 3 * i] == pairs[i].id && Holds16(w, 2 + 3 * i, pairs[i].val)
  {
    hide PairBytes, Int16Bytes;
    var w, s := BodyBytes(SetReq(pairs)), PairBytes(pairs);
    PairAt(pairs, i);
    var three := s[3 * i..3 * i + 3];
    assert w[1 + 3 * i] == s[3 * i] == three[0];
    assert w[2 + 3 * i..4 + 3 * i] == three[1..3] == Int16Bytes(pairs[i].val);
    Int16Holds(w, 2 + 3 * i, pairs[i].val);
  }

  /** The bytes that a complete message of this class has behind its header, at least. */
  function LeastBody(b: Body, first: nat): nat {
    match b
    case RegReq(_, _) => 10
    case RegRsp(_) => 1
    case GetReq(_) => 1
    case SetReq(_) => 1 + 3 * first
    case SetRsp(_) => 1
    case BindReq => 0
    case Broadcast(_) => 2
  }

  lemma {:induction false} PairsSuffice(s: seq<byte>, n: nat)
    ensures DecodePairs(s, n).0 <==> 3 * n <= |s|
  {
    if n > 0 && |s| >= 3 {
      PairsSuffice(s[3..], n - 1);
    }
  }

  /**
   * Decoding succeeds exactly if the header is there, the length field of a message with a body promises no more bytes
   * than there are (and eight at least to a register request), and the bytes that its class needs are there.
   */
  lemma DecodesExactly(m: Msg, mem: seq<byte>, len: nat)
    requires Readable(m, mem, len)
    ensures DecodeMsg(m, mem, len).0 >= 0 <==>
              && len >= 6
              && (m.body.BindReq? || mem[1] as int * 0x100 + mem[2] <= len - 6)
              && (m.body.RegReq? ==> mem[1] as int * 0x100 + mem[2] >= 8)
              && LeastBody(m.body, if len > 6 then mem[6] else 0) <= len - 6
  {
    hide DecodePairs;
    if len >= 6 {
      var rest := len - 6;
      assert Int16Of(mem[1..3]) == mem[1] as int * 0x100 + mem[2];
      if m.body.SetReq? && rest >= 1 {
        PairsSuffice(mem[6..][1..rest], mem[6]);
      }
    }
  }

  // ---------------------------------------------------------------- encoding and decoding in memory

  /** What a write of `target` into `len` bytes at `at` does: all of it, or a failure that stays inside those bytes. */
  ghost predicate Wrote(before: seq<byte>, after: seq<byte>, at: nat, len: nat, target: seq<byte>, rv: int)
    requires at + len <= |before|
  {
    && rv == (if |target| <= len then |target| else -1)
    && |after| == |before|
    && (if |target| <= len then after == Splice(before, at, target)
        else forall i :: 0 <= i < |before| && !(at <= i < at + len) ==> after[i] == before[i])
  }

  /** A message object. */
  class ZigBeeMsg {
    var ver: byte
    var len: uint16
    var cmd: byte
    var addr: uint16
    var body: Body

    /** The value of all fields. */
    function Value(): Msg
      reads this
    {
      Msg(ver, len, cmd, addr, body)
    }

    /** A message of the kind of `like`; only version, command and the lists have a defined value at first. */
    constructor (like: Body, addr: uint16)
      ensures ver == 1 && cmd == CommandOf(like) && this.addr == addr && SameKind(body, like) && Blank(body)
    {
      ver, len, cmd := 1, 0, CommandOf(like);
      this.addr := addr;
      body := match like
        case GetReq(_) => GetReq([])
        case SetReq(_) => SetReq([])
        case b => b;
    }

    /** The header fields of `ZZigBeeMsg::encode`, one after the other. */
    method EncodeFields(buf: array<byte>, at: nat, bufLen: nat) returns (rv: int)
      requires at + bufLen <= buf.Length
      modifies buf
      ensures Wrote(old(buf[..]), buf[..], at, bufLen, HeaderBytes(ver, len, cmd, addr), rv)
    {
      HeaderPieces(ver, len, cmd, addr);
      hide Splice, HeaderBytes, Int16Bytes;
      ghost var mem, target := buf[..], HeaderBytes(ver, len, cmd, addr);
      rv := EncodeByte(ver, buf, at, bufLen);
      if rv < 0 {
        return;
      }
      rv := EncodeInt16(len, buf, at + 1, bufLen - 1);
      if rv < 0 {
        return;
      }
      SpliceExtend(mem, at, target, 1, Int16Bytes(len));
      rv := EncodeByte(cmd, buf, at + 3, bufLen - 3);
      if rv < 0 {
        return;
      }
      SpliceExtend(mem, at, target, 3, [cmd]);
      rv := EncodeInt16(addr, buf, at + 4, bufLen - 4);
      if rv < 0 {
        return;
      }
      SpliceExtend(mem, at, target, 4, Int16Bytes(addr));
      return 6;
    }

    /** `ZZigBeeMsg::encode`: synchronisation word and header. */
    method EncodeHeader(buf: array<byte>, at: nat, bufLen: nat) returns (rv: int)
      requires at + bufLen <= buf.Length
      modifies buf
      ensures Wrote(old(buf[..]), buf[..], at, bufLen, SYNC + HeaderBytes(ver, len, cmd, addr), rv)
    {
      hide Splice, HeaderBytes;
      if bufLen < SYNC_LEN {
        return -1;
      }
      Store(buf, at, SYNC);
      rv := EncodeFields(buf, at + 8, bufLen - 8);
      if rv < 0 {
        return;
      }
      SpliceTwice(old(buf[..]), at, SYNC, HeaderBytes(ver, len, cmd, addr));
      rv := 14;
    }

    /** The body of a register request. */
    method EncodeRegReq(buf: array<byte>, at: nat, bufLen: nat) returns (rv: int)
      requires at + bufLen <= buf.Length && body.RegReq?
      modifies buf
      ensures Wrote(old(buf[..]), buf[..], at, bufLen, BodyBytes(body), rv)
    {
      if 8 > bufLen {
        return -1;
      }
      Store(buf, at, body.mac);
      rv := EncodeInt16(body.devType, buf, at + 8, bufLen - 8);
      if rv < 0 {
        return;
      }
      SpliceTwice(old(buf[..]), at, body.mac, Int16Bytes(body.devType));
      return 10;
    }

    /** The body of a get request: the count, and the items one by one. */
    method EncodeGetReq(buf: array<byte>, at: nat, bufLen: nat) returns (rv: int)
      requires at + bufLen <= buf.Length && body.GetReq?
      modifies buf
      ensures Wrote(old(buf[..]), buf[..], at, bufLen, BodyBytes(body), rv)
    {
      hide Splice;
      ghost var mem, target := buf[..], BodyBytes(body);
      var items := body.items;
      rv := EncodeByte(|items| % 0x100, buf, at, bufLen);
      if rv < 0 {
        return;
      }
      assert target[..1] == [|items| % 0x100];
      for i := 0 to |items|
        invariant 1 + i <= bufLen && buf[..] == Splice(mem, at, target[..1 + i])
      {
        rv := EncodeByte(items[i], buf, at + 1 + i, bufLen - 1 - i);
        if rv < 0 {
          return;
        }
        SpliceExtend(mem, at, target, 1 + i, [items[i]]);
      }
      assert target[..1 + |items|] == target;
      return 1 + |items|;
    }

    /** The body of a set request: the count, and the pairs field by field. */
    method EncodeSetReq(buf: array<byte>, at: nat, bufLen: nat) returns (rv: int)
      requires at + bufLen <= buf.Length && body.SetReq?
      modifies buf
      ensures Wrote(old(buf[..]), buf[..], at, bufLen, BodyBytes(body), rv)
    {
      hide Splice;
      ghost var mem, target := buf[..], BodyBytes(body);
      var pairs := body.pairs;
      rv := EncodeByte(|pairs| % 0x100, buf, at, bufLen);
      if rv < 0 {
        return;
      }
      assert target[..1] == [|pairs| % 0x100];
      for i := 0 to |pairs|
        invariant 1 + 3 * i <= bufLen && buf[..] == Splice(mem, at, target[..1 + 3 * i])
      {
        rv := EncodePair(pairs[i], buf, at + 1 + 3 * i, bufLen - 1 - 3 * i);
        if rv < 0 {
          return;
        }
        PairAt(pairs, i);
        assert target[1 + 3 * i..4 + 3 * i] == PairBytes(pairs)[3 * i..3 * i + 3];
        SpliceExtend(mem, at, target, 1 + 3 * i, [pairs[i].id] + Int16Bytes(pairs[i].val));
      }
      assert target[..1 + 3 * |pairs|] == target;
      return 1 + 3 * |pairs|;
    }

    static method EncodePair(pair: ItemPair, buf: array<byte>, at: nat, bufLen: nat) returns (rv: int)
      requires at + bufLen <= buf.Length
      modifies buf
      ensures Wrote(old(buf[..]), buf[..], at, bufLen, [pair.id] + Int16Bytes(pair.val), rv)
    {
      rv := EncodeByte(pair.id, buf, at, bufLen);
      if rv < 0 {
        return;
      }
      rv := EncodeInt16(pair.val, buf, at + 1, bufLen - 1);
      if rv < 0 {
        return;
      }
      SpliceTwice(old(buf[..]), at, [pair.id], Int16Bytes(pair.val));
      return 3;
    }

    method EncodeBody(buf: array<byte>, at: nat, bufLen: nat) returns (rv: int)
      requires at + bufLen <= buf.Length
      modifies buf
      ensures Wrote(old(buf[..]), buf[..], at, bufLen, BodyBytes(body), rv)
    {
      match body
      case RegReq(_, _) => rv := EncodeRegReq(buf, at, bufLen);
      case RegRsp(status) => rv := EncodeByte(status, buf, at, bufLen);
      case GetReq(_) => rv := EncodeGetReq(buf, at, bufLen);
      case SetReq(_) => rv := EncodeSetReq(buf, at, bufLen);
      case SetRsp(status) => rv := EncodeByte(status, buf, at, bufLen);
      case BindReq => rv := 0;
      case Broadcast(what) => rv := EncodeInt16(what, buf, at, bufLen);
    }

    /**
     * `encode`: set the length field and print the message. It succeeds exactly when there is room for all of it, and
     * touches nothing outside the `bufLen` bytes it was given.
     */
    method Encode(buf: array<byte>, at: nat, bufLen: nat) returns (rv: int)
      requires at + bufLen <= buf.Length
      modifies this`len, buf
      ensures Value() == old(Value()).(len := BodyLen(body))
      ensures Wrote(old(buf[..]), buf[..], at, bufLen, Wire(Value()), rv)
      ensures |Wire(Value())| == 14 + |BodyBytes(body)|
    {
      len := BodyLen(body);
      ghost var mem, head := buf[..], SYNC + HeaderBytes(ver, len, cmd, addr);
      assert Wire(Value()) == head + BodyBytes(body);
      rv := EncodeHeader(buf, at, bufLen);
      if rv < 0 {
        return;
      }
      rv := EncodeBody(buf, at + 14, bufLen - 14);
      if rv < 0 {
        return;
      }
      SpliceTwice(mem, at, head, BodyBytes(body));
      rv := 14 + rv;
    }

    /** `ZZigBeeMsg::decode` */
    method DecodeHeaderFrom(buf: array<byte>, at: nat, bufLen: nat) returns (rv: int)
      requires at + bufLen <= buf.Length
      modifies this
      ensures (rv, Value()) == DecodeHeader(old(Value()), buf[at..], bufLen)
    {
      ghost var mem := buf[at..];
      var b, w;
      rv, b := DecodeByte(buf, at, bufLen);
      if rv < 0 {
        return;
      }
      ver := b;
      rv, w := DecodeInt16(buf, at + 1, bufLen - 1);
      if rv < 0 {
        return;
      }
      assert buf[at + 1..at + 3] == mem[1..3];
      len := w;
      rv, b := DecodeByte(buf, at + 3, bufLen - 3);
      if rv < 0 {
        return;
      }
      cmd := b;
      rv, w := DecodeInt16(buf, at + 4, bufLen - 4);
      if rv < 0 {
        return;
      }
      assert buf[at + 4..at + 6] == mem[4..6];
      addr := w;
      return 6;
    }

    /** The items of a get request, read without regard to the end of the message. */
    method DecodeGetReq(buf: array<byte>, at: nat, bufLen: nat) returns (rv: int)
      requires at + bufLen <= buf.Length && body.GetReq?
      requires len <= bufLen && 1 <= bufLen ==> at + 1 + buf[at] <= buf.Length
      modifies this`body
      ensures (rv, Value()) == DecodeBody(old(Value()), buf[at..], bufLen)
    {
      ghost var mem, before := buf[at..], body.items;
      if bufLen < len {
        return -1;
      }
      var count;
      rv, count := DecodeByte(buf, at, bufLen);
      if rv < 0 {
        return;
      }
      var n: nat := count;
      for i := 0 to n
        invariant body == GetReq(before + mem[1..1 + i])
      {
        assert mem[1..1 + i + 1] == mem[1..1 + i] + [buf[at + 1 + i]];
        body := GetReq(body.items + [buf[at + 1 + i]]);
      }
      return 1 + n;
    }

    static method DecodePair(buf: array<byte>, at: nat, bufLen: nat) returns (rv: int, pair: ItemPair)
      requires at + bufLen <= buf.Length
      ensures rv == if 3 <= bufLen then 3 else -1
      ensures 3 <= bufLen ==> pair == ItemPair(buf[at], Int16Of(buf[at + 1..at + 3]))
    {
      hide Int16Of;
      pair := ItemPair(0, 0);
      var b, w;
      rv, b := DecodeByte(buf, at, bufLen);
      if rv < 0 {
        return;
      }
      rv, w := DecodeInt16(buf, at + 1, bufLen - 1);
      if rv < 0 {
        return;
      }
      return 3, ItemPair(b, w);
    }

    static lemma Skip3(buf: array<byte>, from: nat, to: nat)
      requires from + 3 <= to <= buf.Length
      ensures var s := buf[from..to];
              s[0] == buf[from] && s[1..3] == buf[from + 1..from + 3] && s[3..] == buf[from + 3..to]
    {
      var s := buf[from..to];
      assert s[1..3] == [s[1], s[2]] && buf[from + 1..from + 3] == [buf[from + 1], buf[from + 2]];
      assert s[1] == buf[from + 1] && s[2] == buf[from + 2];
    }

    /** The pairs of a set request, each checked against the bytes that are left. */
    static method DecodePairList(buf: array<byte>, at: nat, bufLen: nat, n: nat) returns (ok: bool, got: seq<ItemPair>)
      requires at + bufLen <= buf.Length
      ensures (ok, got) == DecodePairs(buf[at..at + bufLen], n)
    {
      ghost var s := buf[at..at + bufLen];
      ghost var left := s;
      got := [];
      hide DecodePairs, Int16Of;
      for i := 0 to n
        invariant 3 * i <= bufLen && left == buf[at + 3 * i..at + bufLen]
        invariant DecodePairs(s, n).0 == DecodePairs(left, n - i).0
        invariant DecodePairs(s, n).1 == got + DecodePairs(left, n - i).1
      {
        var pos := at + 3 * i;
        NextPair(got, left, n - i);
        var rv, pair := DecodePair(buf, pos, bufLen - 3 * i);
        if rv < 0 {
          return false, got;
        }
        Skip3(buf, pos, at + bufLen);
        left := left[3..];
        got := got + [pair];
      }
      ok := true;
      NextPair(got, left, 0);
    }

    method DecodeSetReq(buf: array<byte>, at: nat, bufLen: nat) returns (rv: int)
      requires at + bufLen <= buf.Length && body.SetReq?
      modifies this`body
      ensures (rv, Value()) == DecodeBody(old(Value()), buf[at..], bufLen)
    {
      if bufLen < len {
        return -1;
      }
      var count;
      rv, count := DecodeByte(buf, at, bufLen);
      if rv < 0 {
        return;
      }
      var n: nat := count;
      assert buf[at + 1..at + 1 + (bufLen - 1)] == buf[at..][1..bufLen];
      var ok, got := DecodePairList(buf, at + 1, bufLen - 1, n);
      body := SetReq(body.pairs + got);
      rv := if ok then 1 + 3 * n else -1;
    }

    /** The bodies of a fixed size. */
    method DecodeFixed(buf: array<byte>, at: nat, bufLen: nat) returns (rv: int)
      requires at + bufLen <= buf.Length && !body.GetReq? && !body.SetReq?
      modifies this`body
      ensures (rv, Value()) == DecodeBody(old(Value()), buf[at..], bufLen)
    {
      ghost var mem := buf[at..];
      var b, w;
      if body.BindReq? {
        return 0;
      }
      if bufLen < len {
        return -1;
      }
      match body
      case RegReq(_, devType) =>
        if len < 8 {
          return -1;
        }
        assert buf[at..at + 8] == mem[..8];
        body := RegReq(buf[at..at + 8], devType);
        rv, w := DecodeInt16(buf, at + 8, bufLen - 8);
        if rv < 0 {
          return;
        }
        assert buf[at + 8..at + 10] == mem[8..10];
        body := body.(devType := w);
        rv := 10;
      case RegRsp(_) =>
        rv, b := DecodeByte(buf, at, bufLen);
        body := if rv < 0 then body else RegRsp(b);
      case SetRsp(_) =>
        rv, b := DecodeByte(buf, at, bufLen);
        body := if rv < 0 then body else SetRsp(b);
      case Broadcast(_) =>
        rv, w := DecodeInt16(buf, at, bufLen);
        assert 2 <= bufLen ==> buf[at..at + 2] == mem[..2];
        body := if rv < 0 then body else Broadcast(w);
    }

    /** `decode` */
    method Decode(buf: array<byte>, at: nat, bufLen: nat) returns (rv: int)
      requires at + bufLen <= buf.Length && Readable(Value(), buf[at..], bufLen)
      modifies this
      ensures (rv, Value()) == DecodeMsg(old(Value()), buf[at..], bufLen)
    {
      ghost var mem := buf[at..];
      rv := DecodeHeaderFrom(buf, at, bufLen);
      if rv < 0 {
        return;
      }
      assert buf[at + 6..] == mem[6..];
      var n;
      match body {
        case GetReq(_) => n := DecodeGetReq(buf, at + 6, bufLen - 6);
        case SetReq(_) => n := DecodeSetReq(buf, at + 6, bufLen - 6);
        case _ => n := DecodeFixed(buf, at + 6, bufLen - 6);
      }
      rv := if n < 0 then n else 6 + n;
    }
  }
}
