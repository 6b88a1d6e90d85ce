/** The registry of devices: two maps, by hardware address and by network address, that share the device objects. */
module Devices {
  import opened Bytes

  // ---------------------------------------------------------------- hardware addresses and their order

  type int8 = x: int | -0x80 <= x < 0x80

  type Mac = m: seq<int8> | |m| == 8 witness [0, 0, 0, 0, 0, 0, 0, 0]

  /** The first difference, if there is one, decides. */
  predicate Less(a: Mac, b: Mac) {
    exists i :: 0 <= i < 8 && a[i] < b[i] && forall k :: 0 <= k < i ==> a[k] == b[k]
  }

  /** `ZBMacComp`. */
  method Compare(a: Mac, b: Mac) returns (less: bool)
    ensures less == Less(a, b)
  {
    for i := 0 to 8
      invariant forall k :: 0 <= k < i ==> a[k] == b[k]
    {
      if a[i] < b[i] {
        return true;
      } else if a[i] > b[i] {
        return false;
      }
    }
    return false;
  }

  lemma FirstDifference(a: Mac, b: Mac) returns (i: nat)
    requires a != b
    ensures i < 8 && a[i] != b[i] && forall k :: 0 <= k < i ==> a[k] == b[k]
  {
    i := 0;
    while i < 7 && a[i] == b[i]
      invariant i < 8 && forall k :: 0 <= k < i ==> a[k] == b[k]
    {
      i := i + 1;
    }
  }

  /**
   * The order is strict and total: of two different addresses
   * exactly one is the smaller, so equivalent keys are equal.
   */
  lemma StrictTotal(a: Mac, b: Mac)
    ensures !(Less(a, b) && Less(b, a))
    ensures !Less(a, b) && !Less(b, a) <==> a == b
  {
    if a != b {
      var i := FirstDifference(a, b);
    }
  }

  lemma Transitive(a: Mac, b: Mac, c: Mac)
    requires Less(a, b) && Less(b, c)
    ensures Less(a, c)
  {
    var i :| 0 <= i < 8 && a[i] < b[i] && forall k :: 0 <= k < i ==> a[k] == b[k];
    var j :| 0 <= j < 8 && b[j] < c[j] && forall k :: 0 <= k < j ==> b[k] == c[k];
    assert a[Min(i, j)] < c[Min(i, j)];
  }

  // ---------------------------------------------------------------- the registry as one map

  const ZB_DEV_STATE_ACTIVE := 0

  datatype Device = Device(addr: uint16, name: string, state: int, kind: uint16)

  /** What a registration comes to; it stops at a failed assertion if two different devices have the two addresses. */
  datatype Outcome = Registered | Refused | Stopped

  /** Another device has the network address. */
  predicate Taken(reg: map<Mac, Device>, mac: Mac, addr: uint16) {
    exists m :: m in reg && m != mac && reg[m].addr == addr
  }

  function OutcomeOf(reg: map<Mac, Device>, mac: Mac, addr: uint16): Outcome {
    if !Taken(reg, mac, addr) then Registered else if mac in reg then Stopped else Refused
  }

  /** A registration sets the one device's entry, or nothing. */
  function Register(reg: map<Mac, Device>, mac: Mac, addr: uint16, name: string, kind: uint16): map<Mac, Device> {
    if Taken(reg, mac, addr) then reg
    else reg[mac := Device(addr, name, if mac in reg then reg[mac].state else ZB_DEV_STATE_ACTIVE, kind)]
  }

  /**
   * A registration that comes through stores what it brings,
   * and touches no other device; any other changes nothing.
   */
  lemma RegisterMeans(reg: map<Mac, Device>, mac: Mac, addr: uint16, name: string, kind: uint16)
    ensures var r, outcome := Register(reg, mac, addr, name, kind), OutcomeOf(reg, mac, addr);
            && (outcome == Registered <==> forall m :: m in reg && reg[m].addr == addr ==> m == mac)
            && (outcome == Registered ==>
                  && mac in r && r[mac].addr == addr && r[mac].name == name && r[mac].kind == kind
                  && r[mac].state == (if mac in reg then reg[mac].state else ZB_DEV_STATE_ACTIVE)
                  && r - {mac} == reg - {mac})
            && (outcome != Registered ==> r == reg)
            && (outcome == Stopped ==> mac in reg) && (outcome == Refused ==> mac !in reg)
  {
    var r := Register(reg, mac, addr, name, kind);
    assert r - {mac} == reg - {mac};
  }

  /** No two devices have the same network address. */
  predicate OneEach(reg: map<Mac, Device>) {
    forall m, n :: m in reg && n in reg && m != n ==> reg[m].addr != reg[n].addr
  }

  datatype Call = Add(mac: Mac, addr: uint16, name: string, kind: uint16) | Reset

  function Apply(reg: map<Mac, Device>, c: Call): map<Mac, Device> {
    match c
    case Add(mac, addr, name, kind) => Register(reg, mac, addr, name, kind)
    case Reset => map[]
  }

  function Run(reg: map<Mac, Device>, calls: seq<Call>): map<Mac, Device>
    decreases |calls|
  {
    if calls == [] then reg else Run(Apply(reg, calls[0]), calls[1..])
  }

  /** In every run, network addresses stay unique, and every device is active. */
  lemma {:induction false} RunKeeps(reg: map<Mac, Device>, calls: seq<Call>)
    requires OneEach(reg) && forall m :: m in reg ==> reg[m].state == ZB_DEV_STATE_ACTIVE
    ensures OneEach(Run(reg, calls))
    ensures forall m :: m in Run(reg, calls) ==> Run(reg, calls)[m].state == ZB_DEV_STATE_ACTIVE
    decreases |calls|
  {
    if calls != [] {
      RunKeeps(Apply(reg, calls[0]), calls[1..]);
    }
  }

  /** Whatever others register, a device keeps its entry, and nobody else gets its network address. */
  lemma {:induction false} OthersCannotTakeIt(reg: map<Mac, Device>, calls: seq<Call>, mac: Mac)
    requires mac in reg && OneEach(reg)
    requires forall i :: 0 <= i < |calls| ==> calls[i].Add? && calls[i].mac != mac
    ensures mac in Run(reg, calls) && Run(reg, calls)[mac] == reg[mac]
    ensures forall m :: m in Run(reg, calls) && Run(reg, calls)[m].addr == reg[mac].addr ==> m == mac
    decreases |calls|
  {
    if calls != [] {
      OthersCannotTakeIt(Apply(reg, calls[0]), calls[1..], mac);
    }
  }

  lemma {:induction false} RunSnoc(reg: map<Mac, Device>, calls: seq<Call>, c: Call)
    ensures Run(reg, calls + [c]) == Apply(Run(reg, calls), c)
    decreases |calls|
  {
    if calls == [] {
      assert [c][1..] == [] && [] + [c] == [c];
    } else {
      assert (calls + [c])[1..] == calls[1..] + [c];
      RunSnoc(Apply(reg, calls[0]), calls[1..], c);
    }
  }

  /** The i-th call of a run registers the device, and no other device has the address then. */
  ghost predicate Registers(calls: seq<Call>, i: int, mac: Mac) {
    && 0 <= i < |calls| && calls[i].Add? && calls[i].mac == mac
    && !Taken(Run(map[], calls[..i]), mac, calls[i].addr)
  }

  /** It is the last such call, and no reset comes after it. */
  ghost predicate LastRegistration(calls: seq<Call>, i: int, mac: Mac) {
    Registers(calls, i, mac) && forall k :: i < k < |calls| ==> !calls[k].Reset? && !Registers(calls, k, mac)
  }

  lemma LastOneMore(calls: seq<Call>, c: Call, i: int, mac: Mac)
    ensures LastRegistration(calls + [c], i, mac) <==>
              if c.Reset? then false
              else if c.mac == mac && !Taken(Run(map[], calls), mac, c.addr) then i == |calls|
              else LastRegistration(calls, i, mac)
  {
    hide Run, Taken;
    var more, n := calls + [c], |calls|;
    assert more[..n] == calls && more[n] == c;
    forall k | 0 <= k < n
      ensures more[k] == calls[k] && (Registers(more, k, mac) <==> Registers(calls, k, mac))
    {
      assert more[..k] == calls[..k];
    }
  }

  /**
   * In every run, a device is known exactly if it was registered since the last reset, and then with the address, the
   * name and the kind that the last successful registration brought.
   */
  lemma {:induction false} EntryIsLastRegistration(calls: seq<Call>, mac: Mac)
    ensures var reg := Run(map[], calls);
            && (mac in reg <==> exists i :: LastRegistration(calls, i, mac))
            && forall i :: LastRegistration(calls, i, mac) ==>
                 reg[mac] == Device(calls[i].addr, calls[i].name, ZB_DEV_STATE_ACTIVE, calls[i].kind)
  {
    hide Run, Taken, LastRegistration;
    if calls == [] {
      NothingRegistered(mac);
    } else {
      var before, c := calls[..|calls| - 1], calls[|calls| - 1];
      assert calls == before + [c];
      EntryIsLastRegistration(before, mac);
      RunSnoc(map[], before, c);
      NothingRegistered(mac);
      RunKeeps(map[], before);
      forall i
        ensures LastRegistration(calls, i, mac) <==>
                  if c.Reset? then false
                  else if c.mac == mac && !Taken(Run(map[], before), mac, c.addr) then i == |before|
                  else LastRegistration(before, i, mac)
        ensures LastRegistration(before, i, mac) ==> 0 <= i < |before| && calls[i] == before[i]
      {
        LastOneMore(before, c, i, mac);
        LastWithin(before, i, mac);
      }
      assert LastRegistration(calls, |before|, mac) || forall i :: LastRegistration(calls, i, mac) ==> i != |before|;
    }
  }

  lemma LastWithin(calls: seq<Call>, i: int, mac: Mac)
    ensures LastRegistration(calls, i, mac) ==> 0 <= i < |calls| && calls[i].Add?
  {
  }

  lemma NothingRegistered(mac: Mac)
    ensures Run(map[], []) == map[] && forall i :: !LastRegistration([], i, mac)
  {
  }

  /** The assertion can fail: two devices are known, and one of them comes back with the other's network address. */
  lemma AssertionCanFail()
    ensures exists calls, mac, addr :: OutcomeOf(Run(map[], calls), mac, addr) == Stopped
  {
    var a: Mac, b: Mac := [0, 0, 0, 0, 0, 0, 0, 0], [1, 0, 0, 0, 0, 0, 0, 0];
    assert a[0] != b[0];
    var calls := [Add(a, 1, "", 0), Add(b, 2, "", 0)];
    var reg := Register(map[], a, 1, "", 0);
    assert calls[1..][1..] == [];
    assert Run(map[], calls) == Run(reg, calls[1..]) == Register(reg, b, 2, "", 0);
    assert Register(reg, b, 2, "", 0)[b].addr == 2;
    assert Taken(Register(reg, b, 2, "", 0), a, 2);
    assert OutcomeOf(Run(map[], calls), a, 2) == Stopped;
  }

  // ---------------------------------------------------------------- the two maps

  class ZZBDevInfo {
    var addr: uint16
    var name: string
    var state: int
    var mac: Mac
    var kind: uint16

    constructor (addr: uint16, name: string, state: int, mac: Mac, kind: uint16)
      ensures this.addr == addr && this.name == name && this.state == state && this.mac == mac && this.kind == kind
    {
      this.addr, this.name, this.state, this.mac, this.kind := addr, name, state, mac, kind;
    }

    ghost function Seen(): Device
      reads this
    {
      Device(addr, name, state, kind)
    }
  }

  class ZZBDevManager {
    var macDevMap: map<Mac, ZZBDevInfo>
    var addrDevMap: map<uint16, ZZBDevInfo>

    /** Both maps hold the same devices, each under its own current addresses. */
    ghost predicate Valid()
      reads this, macDevMap.Values, addrDevMap.Values
    {
      && (forall m :: m in macDevMap ==>
            macDevMap[m].mac == m && macDevMap[m].addr in addrDevMap && addrDevMap[macDevMap[m].addr] == macDevMap[m])
      && (forall a :: a in addrDevMap ==>
            addrDevMap[a].addr == a && addrDevMap[a].mac in macDevMap && macDevMap[addrDevMap[a].mac] == addrDevMap[a])
    }

    ghost function Contents(): (r: map<Mac, Device>)
      reads this, macDevMap.Values
      ensures r.Keys == macDevMap.Keys
    {
      map m | m in macDevMap :: macDevMap[m].Seen()
    }

    constructor ()
      ensures Valid() && Contents() == map[]
    {
      macDevMap, addrDevMap := map[], map[];
    }

    method FindMac(mac: Mac) returns (d: ZZBDevInfo?)
      requires Valid()
      ensures d == null <==> mac !in Contents()
      ensures d != null ==> d in macDevMap.Values && d.mac == mac && d.Seen() == Contents()[mac] && macDevMap[mac] == d
    {
      d := if mac in macDevMap then macDevMap[mac] else null;
    }

    /** The device with this network address: the only one that has it. */
    method FindAddr(addr: uint16) returns (d: ZZBDevInfo?)
      requires Valid()
      ensures d == null <==> addr !in addrDevMap
      ensures d == null <==> forall m :: m in Contents() ==> Contents()[m].addr != addr
      ensures d != null ==>
                d.mac in Contents() && Contents()[d.mac] == d.Seen() && macDevMap[d.mac] == d && d.addr == addr
      ensures d != null ==> forall m :: m in Contents() && Contents()[m].addr == addr ==> m == d.mac
    {
      d := if addr in addrDevMap then addrDevMap[addr] else null;
      assert forall m :: m in macDevMap ==> Contents()[m].addr == macDevMap[m].addr;
    }

    method Reset()
      requires Valid()
      modifies this
      ensures Valid() && Contents() == map[]
    {
      macDevMap := map[];
      addrDevMap := map[];
    }

    method Add(mac: Mac, addr: uint16, name: string, kind: uint16) returns (outcome: Outcome)
      requires Valid()
      modifies this, macDevMap.Values
      ensures Valid() && fresh(macDevMap.Values - old(macDevMap.Values))
      ensures outcome == OutcomeOf(old(Contents()), mac, addr)
      ensures Contents() == Register(old(Contents()), mac, addr, name, kind)
      ensures outcome == Registered ==>
                && mac in macDevMap && addr in addrDevMap && addrDevMap[addr] == macDevMap[mac]
                && macDevMap[mac].addr == addr && macDevMap[mac].name == name && macDevMap[mac].kind == kind
      ensures outcome == Registered ==>
                && macDevMap[mac].state
                   == (if mac in old(Contents()) then old(Contents())[mac].state else ZB_DEV_STATE_ACTIVE)
                && Contents() - {mac} == old(Contents()) - {mac}
      ensures outcome == Registered && mac in old(Contents()) && old(Contents())[mac].addr != addr ==>
                old(Contents())[mac].addr !in addrDevMap
      ensures outcome != Registered ==> Contents() == old(Contents())
    {
      hide Valid, Contents, Taken;
      RegisterMeans(Contents(), mac, addr, name, kind);
      var fromMac := FindMac(mac);
      var fromAddr := FindAddr(addr);
      if fromMac != null && fromAddr == null {
        Move(fromMac, addr, name, kind);
        outcome := Registered;
      } else if fromMac == null && fromAddr != null {
        outcome := Refused;
      } else if fromMac != null && fromAddr != null {
        if fromMac != fromAddr {
          return Stopped;
        }
        Update(fromMac, name, kind);
        outcome := Registered;
      } else {
        Enter(mac, addr, name, kind);
        outcome := Registered;
      }
      Entry(mac);
      if mac in old(Contents()) {
        UnderAddr(old(Contents())[mac].addr);
      }
    }

    /** A device stands under both of its addresses. */
    lemma Entry(mac: Mac)
      requires Valid()
      ensures mac in Contents() ==>
                && mac in macDevMap && macDevMap[mac].Seen() == Contents()[mac]
                && macDevMap[mac].addr in addrDevMap && addrDevMap[macDevMap[mac].addr] == macDevMap[mac]
    {
    }

    lemma UnderAddr(addr: uint16)
      requires Valid()
      ensures addr in addrDevMap <==> exists m :: m in Contents() && Contents()[m].addr == addr
    {
      if addr in addrDevMap {
        assert Contents()[addrDevMap[addr].mac].addr == addr;
      }
    }

    /** A known device gets a free network address: its entry in that map moves, and no other. */
    method Move(d: ZZBDevInfo, addr: uint16, name: string, kind: uint16)
      requires Valid() && d in macDevMap.Values && addr !in addrDevMap
      modifies this, d
      ensures Valid() && macDevMap == old(macDevMap) && addrDevMap == (old(addrDevMap) - {old(d.addr)})[addr := d]
      ensures d.mac == old(d.mac)
      ensures Contents() == old(Contents())[d.mac := Device(addr, name, old(d.state), kind)]
    {
      hide Valid, Contents;
      Update(d, name, kind);
      Readdress(d, addr);
    }

    /** The entry of a device in the map by network address moves. */
    method Readdress(d: ZZBDevInfo, addr: uint16)
      requires Valid() && d in macDevMap.Values && addr !in addrDevMap
      modifies this`addrDevMap, d`addr
      ensures Valid() && addrDevMap == (old(addrDevMap) - {old(d.addr)})[addr := d]
      ensures Contents() == old(Contents())[d.mac := Device(addr, d.name, d.state, d.kind)]
    {
      assert d.addr in addrDevMap && addrDevMap[d.addr] == d;
      addrDevMap := addrDevMap - {d.addr};
      d.addr := addr;
      addrDevMap := addrDevMap[d.addr := d];
    }

    method Update(d: ZZBDevInfo, name: string, kind: uint16)
      requires Valid() && d in macDevMap.Values
      modifies d
      ensures Valid() && d.mac == old(d.mac) && d.Seen() == Device(old(d.addr), name, old(d.state), kind)
      ensures Contents() == old(Contents())[d.mac := Device(old(d.addr), name, old(d.state), kind)]
    {
      d.name := name;
      d.kind := kind;
    }

    method Enter(mac: Mac, addr: uint16, name: string, kind: uint16)
      requires Valid() && mac !in macDevMap && addr !in addrDevMap
      modifies this
      ensures Valid() && fresh(macDevMap.Values - old(macDevMap.Values))
      ensures Contents() == old(Contents())[mac := Device(addr, name, ZB_DEV_STATE_ACTIVE, kind)]
    {
      var d := new ZZBDevInfo(addr, name, ZB_DEV_STATE_ACTIVE, mac, kind);
      addrDevMap := addrDevMap[addr := d];
      macDevMap := macDevMap[mac := d];
    }

    /** The maps that agree hold devices with unique network addresses. */
    lemma ValidMeansOneEach()
      requires Valid()
      ensures OneEach(Contents())
    {
    }

    /** One call. */
    method Perform(c: Call)
      requires Valid()
      modifies this, macDevMap.Values
      ensures Valid() && fresh(macDevMap.Values - old(macDevMap.Values))
      ensures Contents() == Apply(old(Contents()), c)
    {
      hide Valid, Contents;
      match c
      case Add(mac, addr, name, kind) => var outcome := Add(mac, addr, name, kind);
      case Reset => Reset();
    }
  }

  /**
   * Any run of calls on a new manager is the run on the one map, and no two of its devices ever have the same network
   * address.
   */
  method Replay(calls: seq<Call>) returns (m: ZZBDevManager)
    ensures fresh(m) && m.Valid() && m.Contents() == Run(map[], calls)
    ensures OneEach(m.Contents()) && OneEach(Run(map[], calls))
    ensures forall mac :: mac in m.Contents() ==> m.Contents()[mac].state == ZB_DEV_STATE_ACTIVE
  {
    hide ZZBDevManager.Valid, ZZBDevManager.Contents, Apply;
    m := new ZZBDevManager();
    for i := 0 to |calls|
      invariant m.Valid() && fresh(m) && fresh(m.macDevMap.Values)
      invariant Run(map[], calls) == Run(m.Contents(), calls[i..])
    {
      assert calls[i..][1..] == calls[i + 1..];
      m.Perform(calls[i]);
    }
    m.ValidMeansOneEach();
    RunKeeps(map[], calls);
  }
}
