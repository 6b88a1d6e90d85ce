/** The serial module of the gateway: it answers requests at once, and keeps a session for a bind request. */
module GatewaySerial {
  import opened Bytes
  import opened SessionCtrl
  import opened Dispatch
  import opened GatewaySpec
  import opened GatewayClient

  class ZZigBeeSession {
    const key: uint32
    const src: Address          // of the module that asked
    const timeout: int
    var touchTime: int
    var isClosed: bool

    constructor (key: uint32, src: Address)
      ensures this.key == key && this.src == src && timeout == ZIGBEE_CLIENT_SESSION_TIMEOUT
      ensures touchTime == 0 && !isClosed
    {
      this.key := key;
      this.src := src;
      timeout := ZIGBEE_CLIENT_SESSION_TIMEOUT;
      touchTime := 0;
      isClosed := false;
    }

    method DoTimeout(delta: int)
      modifies this
      ensures touchTime == old(touchTime) + delta
      ensures isClosed == (old(isClosed) || Expires(old(touchTime), delta, timeout))
    {
      touchTime := touchTime + delta;
      if touchTime > timeout {
        isClosed := true;
      }
    }
  }

  /** A module that is neither of the two that this model looks into. */
  predicate Elsewhere(a: Address) {
    a.moduleType != MODULE_SERIAL && a.moduleType != MODULE_FGW_CLIENT
  }

  class ZZigBeeHandler {
    const address: Address
    const dispatcher: ZDispatcher<Inner>
    const sessionCtrl: ZSessionCtrl2Key<ZZigBeeSession>

    constructor (dispatcher: ZDispatcher<Inner>)
      ensures Valid() && Bound() == None && this.dispatcher == dispatcher
      ensures fresh(sessionCtrl) && sessionCtrl.sessionMap == map[]
    {
      address := Address(MODULE_SERIAL, 0);
      this.dispatcher := dispatcher;
      sessionCtrl := new ZSessionCtrl2Key();
    }

    /** Sessions are for bind requests only, whose second key is always the same. */
    ghost predicate Valid()
      reads sessionCtrl, sessionCtrl.sessionMap.Values
    {
      && sessionCtrl.Valid()
      && (forall k1, k2 :: Paired(sessionCtrl.keyMap, k1, k2) ==> k2 == 0)
      && forall id :: id in sessionCtrl.sessionMap ==> Fits(id, sessionCtrl.sessionMap[id])
    }

    ghost predicate Fits(id: uint32, s: ZZigBeeSession)
      reads s
    {
      s.key == id && s.timeout == ZIGBEE_CLIENT_SESSION_TIMEOUT && !s.isClosed && Elsewhere(s.src)
    }

    /** The session, if there is one. */
    ghost function Bound(): Option<(uint32, int)>
      reads sessionCtrl, sessionCtrl.sessionMap.Values
    {
      if id :| id in sessionCtrl.sessionMap then Some((id, sessionCtrl.sessionMap[id].touchTime)) else None
    }

    /** There is at most one session. */
    lemma OneSession()
      requires Valid()
      ensures forall a, b :: a in sessionCtrl.sessionMap && b in sessionCtrl.sessionMap ==> a == b
      ensures HasKey2(sessionCtrl.keyMap, 0) <==> Bound().Some?
      ensures forall id :: id in sessionCtrl.sessionMap ==> Paired(sessionCtrl.keyMap, id, 0)
      ensures forall id :: id in sessionCtrl.sessionMap ==> Bound() == Some((id, sessionCtrl.sessionMap[id].touchTime))
    {
      OneToOne(sessionCtrl.sessionMap.Keys, sessionCtrl.keyMap);
      if HasKey2(sessionCtrl.keyMap, 0) {
        var i :| 0 <= i < |sessionCtrl.keyMap| && sessionCtrl.keyMap[i].key2 == 0;
        assert Paired(sessionCtrl.keyMap, sessionCtrl.keyMap[i].key1, 0);
      }
    }

    method OnInnerMsg(e: Envelope<Inner>) returns (rv: int)
      requires Valid() && dispatcher.Valid()
      requires e.msg.BindRequest? ==> Elsewhere(e.src)
      modifies sessionCtrl, dispatcher.modules
      ensures Valid() && fresh(sessionCtrl.sessionMap.Values - old(sessionCtrl.sessionMap.Values))
      ensures e.msg.BindRequest? && e.msg.lineUp && old(Bound()) == None ==> Bound() == Some((e.msg.num, 0))
      ensures !e.msg.BindRequest? || !e.msg.lineUp || old(Bound()).Some? ==> Bound() == old(Bound())
      ensures forall m :: m in old(dispatcher.modules) ==>
                m.queue == old(m.queue) + if m.moduleType == e.src.moduleType then Answer(e, old(Bound())) else []
      ensures rv == if e.msg.BindRequest? || Answer(e, old(Bound())) != [] then OK else FAIL
    {
      match e.msg
      case Request(kind, num, ticket, fits) => rv := ProcessRequest(e);
      case BindRequest(num, lineUp) => rv := ProcessBindReq(e);
      case Response(_, _, _, _) => rv := -1;
      case DeviceResponse(_) => rv := -1;
    }

    /** What goes back to where the message came from. */
    function Answer(e: Envelope<Inner>, bound: Option<(uint32, int)>): seq<Envelope<Inner>> {
      match e.msg
      case Request(kind, num, ticket, fits) =>
        if kind != DevList && bound.Some? && bound.value.0 == num then []
        else [Envelope(address, e.src, Response(kind, num, ticket, fits))]
      case _ => []
    }

    method ProcessRequest(e: Envelope<Inner>) returns (rv: int)
      requires Valid() && dispatcher.Valid() && e.msg.Request?
      modifies dispatcher.modules
      ensures forall m :: m in old(dispatcher.modules) ==>
                m.queue == old(m.queue) + if m.moduleType == e.src.moduleType then Answer(e, Bound()) else []
      ensures rv == if Answer(e, Bound()) == [] then FAIL else OK
    {
      OneSession();
      if e.msg.kind != DevList {
        var session := sessionCtrl.FindByKey1(e.msg.num);
        if session != None {
          return FAIL;
        }
      }
      var answer := Response(e.msg.kind, e.msg.num, e.msg.ticket, e.msg.fits);
      var _ := dispatcher.SendDirect(Envelope(address, e.src, answer));
      return OK;
    }

    /** A bind request goes out on the line; its session stays unless there is one already. */
    method ProcessBindReq(e: Envelope<Inner>) returns (rv: int)
      requires Valid() && e.msg.BindRequest? && Elsewhere(e.src)
      modifies sessionCtrl
      ensures Valid() && fresh(sessionCtrl.sessionMap.Values - old(sessionCtrl.sessionMap.Values))
      ensures Bound() == if e.msg.lineUp && old(Bound()) == None then Some((e.msg.num, 0)) else old(Bound())
      ensures rv == OK
    {
      OneSession();
      if e.msg.lineUp {
        var session := new ZZigBeeSession(e.msg.num, e.src);
        var _ := sessionCtrl.Add(e.msg.num, 0, session);
        OneSession();
      }
      return OK;
    }

    /** The module that asked for the bind. */
    ghost function Asker(): Address
      requires Bound().Some?
      reads sessionCtrl, sessionCtrl.sessionMap.Values
    {
      var id :| id in sessionCtrl.sessionMap;
      sessionCtrl.sessionMap[id].src
    }

    /**
     * A device answers: the device with address 0 ends the bind
     * session, and the answer goes to the module that asked.
     */
    method OnDeviceResponse(addr: uint16) returns (rv: int)
      requires Valid() && dispatcher.Valid()
      modifies sessionCtrl, dispatcher.modules
      ensures Valid() && sessionCtrl.sessionMap.Values <= old(sessionCtrl.sessionMap.Values)
      ensures Bound() == if addr == 0 then None else old(Bound())
      ensures rv == if addr == 0 && old(Bound()).Some? then 0 else -1
      ensures addr != 0 || old(Bound()) == None ==> forall m :: m in old(dispatcher.modules) ==> m.queue == old(m.queue)
      ensures addr == 0 && old(Bound()).Some? ==>
                var to := old(Asker());
                && Elsewhere(to)
                && forall m :: m in old(dispatcher.modules) ==>
                     m.queue == old(m.queue)
                              + if m.moduleType == to.moduleType
                                then [Envelope(address, to, DeviceResponse(old(Bound()).value.0))] else []
    {
      OneSession();
      var found := sessionCtrl.FindByKey2(addr * 0x1_0000);
      if found == None {
        return -1;
      }
      var session := found.value;
      assert sessionCtrl.sessionMap[session.key] == session && Fits(session.key, session);
      assert session.src == Asker() && session.key == Bound().value.0;
      var _ := sessionCtrl.RemoveByKey1(session.key);
      var _ := dispatcher.SendDirect(Envelope(address, session.src, DeviceResponse(session.key)));
      return 0;
    }

    method Routine(delta: int)
      requires Valid()
      modifies sessionCtrl, sessionCtrl.sessionMap.Values
      ensures Valid() && sessionCtrl.sessionMap.Values <= old(sessionCtrl.sessionMap.Values)
      ensures Bound() == SweepBound(old(Bound()), delta)
    {
      OneSession();
      var todo := sessionCtrl.sessionMap.Keys;
      while todo != {}
        invariant Valid() && todo <= sessionCtrl.sessionMap.Keys
        invariant sessionCtrl.sessionMap.Values <= old(sessionCtrl.sessionMap.Values)
        invariant forall a, b :: a in sessionCtrl.sessionMap && b in sessionCtrl.sessionMap ==> a == b
        invariant todo != {} ==> Bound() == old(Bound())
        invariant todo == {} ==> Bound() == SweepBound(old(Bound()), delta)
        decreases |todo|
      {
        OneSession();
        var id :| id in todo;
        var session := sessionCtrl.sessionMap[id];
        session.DoTimeout(delta);
        if session.isClosed {
          sessionCtrl.Erase(id);
        }
        todo := todo - {id};
      }
    }
  }
}
