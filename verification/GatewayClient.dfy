/**
 * The gateway's connection to the server: the handler, and
 * the sessions of the requests that wait for their responses.
 */
module GatewayClient {
  import opened Bytes
  import opened Generator
  import opened SessionCtrl
  import opened Dispatch
  import opened GatewaySpec

  const MODULE_SERIAL := 6
  const MODULE_FGW_CLIENT := 8
  const ANY_ID := 0

  /** What the server receives. */
  class Connection {
    var sent: seq<Reply>

    constructor ()
      ensures sent == []
    {
      sent := [];
    }

    method Send(r: Reply)
      modifies this
      ensures sent == old(sent) + [r]
    {
      sent := sent + [r];
    }
  }

  class FGWClientForwardSession {
    const key: uint32
    const handler: Connection
    const address: Address      // of the handler
    const timeout: int
    const ticket: nat           // of the request that the session is opened for
    var touchTime: int
    var isClosed: bool
    var waiting: bool           // for the serial module
    var externalKey: uint32

    constructor (handler: Connection, address: Address, key: uint32, ticket: nat)
      ensures this.handler == handler && this.address == address && this.key == key && this.ticket == ticket
      ensures timeout == FGW_CLIENT_SESSION_TIMEOUT && touchTime == 0 && !isClosed && !waiting
    {
      this.handler := handler;
      this.address := address;
      this.key := key;
      this.ticket := ticket;
      timeout := FGW_CLIENT_SESSION_TIMEOUT;
      touchTime := 0;
      isClosed := false;
      waiting := false;
      externalKey := 0;
    }

    ghost function Seen(): Session
      reads this
    {
      Session(externalKey, touchTime, ticket)
    }

    method Close()
      modifies this`isClosed
      ensures isClosed
    {
      isClosed := true;
    }

    method OnTimeout()
      modifies this`isClosed
      ensures isClosed
    {
      Close();
    }

    method DoTimeout(delta: int)
      modifies this`touchTime, this`isClosed
      ensures touchTime == old(touchTime) + delta
      ensures isClosed == (old(isClosed) || Expires(old(touchTime), delta, timeout))
    {
      touchTime := touchTime + delta;
      if touchTime > timeout {
        OnTimeout();
      }
    }

    /**
     * A session that has not sent its request yet sends it to the serial module, under its number; without a request it
     * closes. One that waits already does nothing.
     */
    method EventPush(p: Push, dispatcher: ZDispatcher<Inner>)
      requires dispatcher.Valid()
      modifies this, dispatcher.modules
      ensures touchTime == old(touchTime)
      ensures isClosed == (old(isClosed) || (!old(waiting) && !p.body.Ask?))
      ensures waiting == (old(waiting) || p.body.Ask?)
      ensures externalKey == if !old(waiting) && p.body.Ask? then p.sequence else old(externalKey)
      ensures forall m :: m in old(dispatcher.modules) ==>
                m.queue == old(m.queue)
                         + if !old(waiting) && p.body.Ask? && m.moduleType == MODULE_SERIAL
                           then [Envelope(address, Address(MODULE_SERIAL, ANY_ID), Asks(p, key, ticket))]
                           else []
    {
      if waiting {
        return;
      }
      if !p.body.Ask? {
        Close();
        return;
      }
      externalKey := p.sequence;
      var e := Envelope(address, Address(MODULE_SERIAL, ANY_ID), Request(p.body.kind, key, ticket, p.replyFits));
      var _ := dispatcher.SendDirect(e);
      waiting := true;
    }

    /**
     * A response to a session that waits goes to the server under the external number, if it fits, and the session
     * closes in any case. A session that does not wait does nothing.
     */
    method EventInner(m: Inner)
      modifies this`isClosed, handler
      ensures isClosed == (old(isClosed) || waiting)
      ensures handler.sent == old(handler.sent)
                            + if waiting && m.Response? && m.fits
                               then [Reply(externalKey, m.kind, ticket, m.ticket)] else []
    {
      if !waiting {
        return;
      }
      if !m.Response? {
        Close();
        return;
      }
      if !m.fits {
        Close();
        return;
      }
      handler.Send(Reply(externalKey, m.kind, ticket, m.ticket));
      Close();
    }
  }

  /** The request that goes to the serial module; a message without a request sends nothing, whatever stands here. */
  function Asks(p: Push, id: uint32, ticket: nat): (r: Inner)
    ensures r.Request? || r.DeviceResponse?
  {
    if p.body.Ask? then Request(p.body.kind, id, ticket, p.replyFits) else DeviceResponse(id)
  }

  /** A request opens a session, unless its number has one. */
  function Opened(sessions: map<uint32, Session>, p: Push, id: uint32, ticket: nat): map<uint32, Session> {
    if !p.body.Ask? || id in sessions then sessions else sessions[id := Session(p.sequence, 0, ticket)]
  }

  /** What the sweep makes of one session. */
  function SweptAt(sessions: map<uint32, Session>, id: uint32, delta: int): map<uint32, Session>
    requires id in sessions
  {
    if Expires(sessions[id].touch, delta, FGW_CLIENT_SESSION_TIMEOUT) then sessions - {id}
    else sessions[id := sessions[id].(touch := sessions[id].touch + delta)]
  }

  /** The sweep has been everywhere but at the keys still to do. */
  predicate SweptBut(before: map<uint32, Session>, after: map<uint32, Session>, todo: set<uint32>, delta: int) {
    && (forall id :: id in after ==> id in before)
    && (forall id :: id in todo ==> id in before && id in after && after[id] == before[id])
    && (forall id :: id in before && id !in todo ==>
          (id in after <==> !Expires(before[id].touch, delta, FGW_CLIENT_SESSION_TIMEOUT)))
    && (forall id :: id in after && id !in todo ==> after[id] == before[id].(touch := before[id].touch + delta))
  }

  lemma SweptStep(before: map<uint32, Session>, after: map<uint32, Session>, todo: set<uint32>, id: uint32, delta: int)
    requires SweptBut(before, after, todo, delta) && id in todo
    ensures id in after && SweptBut(before, SweptAt(after, id, delta), todo - {id}, delta)
  {
  }

  lemma SweptAll(before: map<uint32, Session>, after: map<uint32, Session>, delta: int)
    ensures SweptBut(before, before, before.Keys, delta)
    ensures SweptBut(before, after, {}, delta) ==> after == Sweep(before, delta)
  {
  }

  class FGWClientHandler {
    const address: Address
    const connection: Connection
    const dispatcher: ZDispatcher<Inner>
    const sessionCtrl: ZSessionCtrl2Key<FGWClientForwardSession>
    const idGenerator: HandlerIdGenerator
    var state: Login
    var draws: nat                // these two only record what happened
    var accepted: seq<Accepted>

    constructor (id: int, dispatcher: ZDispatcher<Inner>)
      ensures Valid() && this.dispatcher == dispatcher && address == Address(MODULE_FGW_CLIENT, id)
      ensures state == Unregistered && Sessions() == map[] && connection.sent == [] && idGenerator.last == 1
      ensures draws == 0 && accepted == [] && sessionCtrl.sessionMap == map[]
      ensures fresh(connection) && fresh(sessionCtrl) && fresh(idGenerator)
    {
      address := Address(MODULE_FGW_CLIENT, id);
      this.dispatcher := dispatcher;
      connection := new Connection();
      sessionCtrl := new ZSessionCtrl2Key();
      idGenerator := new HandlerIdGenerator(1, MAX_ID);
      state := Unregistered;
      draws, accepted := 0, [];
    }

    /** The session is open, under its own number and the external one. */
    ghost predicate Fits(id: uint32, s: FGWClientForwardSession)
      reads sessionCtrl, s
    {
      && s.key == id && s.timeout == FGW_CLIENT_SESSION_TIMEOUT && !s.isClosed && s.waiting && s.handler == connection
      && Paired(sessionCtrl.keyMap, id, s.externalKey)
    }

    ghost predicate Indexed()
      reads sessionCtrl, sessionCtrl.sessionMap.Values
    {
      sessionCtrl.Valid() && forall id :: id in sessionCtrl.sessionMap ==> Fits(id, sessionCtrl.sessionMap[id])
    }

    ghost predicate Valid()
      reads sessionCtrl, idGenerator, sessionCtrl.sessionMap.Values
      ensures Valid() ==> 1 <= idGenerator.last <= MAX_ID + 1 && address.moduleType == MODULE_FGW_CLIENT
    {
      && Indexed()
      && idGenerator.Valid() && idGenerator.min == 1 && idGenerator.max == MAX_ID && !idGenerator.isClosed
      && address.moduleType == MODULE_FGW_CLIENT
    }

    ghost function Sessions(): (r: map<uint32, Session>)
      reads sessionCtrl, sessionCtrl.sessionMap.Values
      ensures r.Keys == sessionCtrl.sessionMap.Keys
    {
      map id | id in sessionCtrl.sessionMap :: sessionCtrl.sessionMap[id].Seen()
    }

    /** The index finds a session by its external number exactly if the number is in use. */
    lemma ExternalKeys(ext: uint32)
      requires Indexed()
      ensures HasKey2(sessionCtrl.keyMap, ext) <==> InUse(Sessions(), ext)
    {
      OneToOne(sessionCtrl.sessionMap.Keys, sessionCtrl.keyMap);
      if HasKey2(sessionCtrl.keyMap, ext) {
        var i :| 0 <= i < |sessionCtrl.keyMap| && sessionCtrl.keyMap[i].key2 == ext;
        var id := sessionCtrl.keyMap[i].key1;
        assert Paired(sessionCtrl.keyMap, id, ext);
        assert Fits(id, sessionCtrl.sessionMap[id]);
        assert id in Sessions() && Sessions()[id].ext == ext;
      }
      if InUse(Sessions(), ext) {
        var id :| id in Sessions() && Sessions()[id].ext == ext;
        assert Fits(id, sessionCtrl.sessionMap[id]);
      }
    }

    method OnConnected()
      modifies this`state
      ensures state == WaitForServer
    {
      state := Unregistered;
      FgwLogin();
    }

    /** Asks the server to log in; the message always fits its buffer. */
    method FgwLogin()
      modifies this`state
      ensures state == WaitForServer
    {
      state := WaitForServer;
    }

    /** The login timer fired. */
    method OnTimeout()
      modifies this`state
      ensures state == old(state)
    {
      if state == WaitForServer {
        state := Unregistered;
        FgwLogin();
      }
    }

    method OnReadWaitForServer(p: Push) returns (rv: int)
      modifies this`state
      ensures state == if p.body == LoginRsp(0) then Registered else old(state)
      ensures rv == if p.body == LoginRsp(0) then OK else FAIL
    {
      if !p.body.LoginRsp? {
        return FAIL;
      }
      if p.body.code != 0 {
        return FAIL;
      }
      state := Registered;
      return OK;
    }

    /** The number that the next request gets. */
    ghost function NextId(): uint32
      requires Valid()
      reads sessionCtrl, idGenerator, sessionCtrl.sessionMap.Values
    {
      Draw(1, MAX_ID, idGenerator.last).0
    }

    /** The request that a message makes, unless its external number is in use. */
    ghost predicate Accepts(p: Push)
      reads sessionCtrl, sessionCtrl.sessionMap.Values
    {
      p.body.Ask? && !InUse(Sessions(), p.sequence)
    }

    /** A message from the server uses up a number; a request gets a session under it and goes to the serial module. */
    method OnReadRegistered(p: Push) returns (rv: int)
      requires Valid() && dispatcher.Valid()
      modifies this`draws, this`accepted, sessionCtrl, idGenerator
      modifies dispatcher.modules
      ensures Valid() && fresh(sessionCtrl.sessionMap.Values - old(sessionCtrl.sessionMap.Values))
      ensures rv == if old(InUse(Sessions(), p.sequence)) then FAIL else OK
      ensures old(InUse(Sessions(), p.sequence)) ==>
                idGenerator.last == old(idGenerator.last) && draws == old(draws) && accepted == old(accepted)
      ensures old(InUse(Sessions(), p.sequence)) ==> Sessions() == old(Sessions())
      ensures old(!InUse(Sessions(), p.sequence)) ==> idGenerator.last == Draw(1, MAX_ID, old(idGenerator.last)).1
      ensures old(!InUse(Sessions(), p.sequence)) ==> draws == old(draws) + 1
      ensures old(!InUse(Sessions(), p.sequence)) ==>
                accepted == old(accepted) + if p.body.Ask? then [Accepted(p.sequence, p.body.kind, old(draws))] else []
      ensures old(!InUse(Sessions(), p.sequence)) ==>
                Sessions() == Opened(old(Sessions()), p, old(NextId()), |old(accepted)|)
      ensures var e := Envelope(address, Address(MODULE_SERIAL, ANY_ID), Asks(p, old(NextId()), |old(accepted)|));
              forall m :: m in old(dispatcher.modules) ==>
                m.queue == old(m.queue) + if old(Accepts(p)) && m.moduleType == MODULE_SERIAL then [e] else []
    {
      hide Agree, Paired, HasKey2, InUse, Fits, Draw, Opened, Asks, NextId;
      assert sessionCtrl.Valid();
      assert Accepts(p) <==> p.body.Ask? && !InUse(Sessions(), p.sequence);
      hide Indexed, Sessions, Accepts;
      ExternalKeys(p.sequence);
      var duplicate := sessionCtrl.FindByKey2(p.sequence);
      if duplicate != None {
        return FAIL;
      }
      DrawAndOpen(p);
      return OK;
    }

    /** A number is drawn, and the message handed to a new session. */
    method DrawAndOpen(p: Push)
      requires Valid() && dispatcher.Valid() && !HasKey2(sessionCtrl.keyMap, p.sequence)
      modifies this`draws, this`accepted, sessionCtrl, idGenerator
      modifies dispatcher.modules
      ensures Valid() && fresh(sessionCtrl.sessionMap.Values - old(sessionCtrl.sessionMap.Values))
      ensures idGenerator.last == Draw(1, MAX_ID, old(idGenerator.last)).1 && draws == old(draws) + 1
      ensures accepted == old(accepted) + if p.body.Ask? then [Accepted(p.sequence, p.body.kind, old(draws))] else []
      ensures Sessions() == Opened(old(Sessions()), p, old(NextId()), |old(accepted)|)
      ensures var e := Envelope(address, Address(MODULE_SERIAL, ANY_ID), Asks(p, old(NextId()), |old(accepted)|));
              forall m :: m in old(dispatcher.modules) ==>
                m.queue == old(m.queue) + if p.body.Ask? && m.moduleType == MODULE_SERIAL then [e] else []
    {
      hide Agree, Paired, HasKey2, Fits, Draw, Opened, Asks, Indexed, Sessions;
      var innerSeq := idGenerator.Next();
      assert innerSeq == old(NextId());
      OpenSession(p, innerSeq, |accepted|);
      accepted := accepted + if p.body.Ask? then [Accepted(p.sequence, p.body.kind, draws)] else [];
      draws := draws + 1;
    }

    /** A new session takes the message; it is kept if it waits for the response. */
    method OpenSession(p: Push, innerSeq: uint32, ticket: nat)
      requires Indexed() && dispatcher.Valid() && !HasKey2(sessionCtrl.keyMap, p.sequence)
      modifies sessionCtrl
      modifies dispatcher.modules
      ensures Indexed() && fresh(sessionCtrl.sessionMap.Values - old(sessionCtrl.sessionMap.Values))
      ensures Sessions() == Opened(old(Sessions()), p, innerSeq, ticket)
      ensures var e := Envelope(address, Address(MODULE_SERIAL, ANY_ID), Asks(p, innerSeq, ticket));
              forall m :: m in old(dispatcher.modules) ==>
                m.queue == old(m.queue) + if p.body.Ask? && m.moduleType == MODULE_SERIAL then [e] else []
    {
      hide Agree, Paired, HasKey2, Asks, Indexed, Sessions, Fits;
      var session := new FGWClientForwardSession(connection, address, innerSeq, ticket);
      assert session !in sessionCtrl.sessionMap.Values;
      session.EventPush(p, dispatcher);
      if !session.isClosed {
        Keep(innerSeq, p.sequence, session);
      }
    }

    method Keep(key1: uint32, key2: uint32, session: FGWClientForwardSession)
      requires Indexed() && !HasKey2(sessionCtrl.keyMap, key2) && session !in sessionCtrl.sessionMap.Values
      requires session.key == key1 && session.timeout == FGW_CLIENT_SESSION_TIMEOUT
      requires !session.isClosed && session.waiting
      requires session.handler == connection && session.externalKey == key2
      modifies sessionCtrl
      ensures Indexed() && sessionCtrl.sessionMap.Values <= old(sessionCtrl.sessionMap.Values) + {session}
      ensures Sessions() == if key1 in old(Sessions()) then old(Sessions()) else old(Sessions())[key1 := session.Seen()]
    {
      hide Agree, Paired, HasKey2;
      var _ := sessionCtrl.Add(key1, key2, session);
    }

    /** The index finds the session of an inner number, and answers through it. */
    method OnInnerMsg(m: Inner) returns (rv: int)
      requires Valid()
      modifies sessionCtrl, sessionCtrl.sessionMap.Values, connection
      ensures rv == if m.num in old(Sessions()) then OK else FAIL
      ensures Valid() && sessionCtrl.sessionMap.Values <= old(sessionCtrl.sessionMap.Values)
      ensures Sessions() == old(Sessions()) - {m.num}
      ensures connection.sent == old(connection.sent)
                + if m.num in old(Sessions()) && m.Response? && m.fits
                  then [Reply(old(Sessions())[m.num].ext, m.kind, old(Sessions())[m.num].ticket, m.ticket)] else []
    {
      hide Agree, Paired;
      var found := sessionCtrl.FindByKey1(m.num);
      if found == None {
        return FAIL;
      }
      var session := found.value;
      assert Fits(m.num, session);
      session.EventInner(m);
      var complete := session.isClosed;
      if complete {
        var _ := sessionCtrl.RemoveByKey1(m.num);
      }
      return OK;
    }

    /** The sweep at one session. */
    method SweepOne(id: uint32, delta: int)
      requires Valid() && id in sessionCtrl.sessionMap
      modifies sessionCtrl, sessionCtrl.sessionMap[id]
      ensures Valid()
      ensures sessionCtrl.sessionMap
           == if id in Sessions() then old(sessionCtrl.sessionMap) else old(sessionCtrl.sessionMap) - {id}
      ensures Sessions() == SweptAt(old(Sessions()), id, delta)
    {
      hide Agree, Paired;
      var session := sessionCtrl.sessionMap[id];
      assert Fits(id, session);
      assert forall k :: k in sessionCtrl.sessionMap ==> Fits(k, sessionCtrl.sessionMap[k]);
      session.DoTimeout(delta);
      if session.isClosed {
        sessionCtrl.Erase(id);
      }
    }

    /** The sweep: every session gets older, and those past their timeout are closed and erased. */
    method Routine(delta: int)
      requires Valid()
      modifies sessionCtrl, sessionCtrl.sessionMap.Values
      ensures Valid() && sessionCtrl.sessionMap.Values <= old(sessionCtrl.sessionMap.Values)
      ensures Sessions() == Sweep(old(Sessions()), delta)
    {
      hide Fits, Agree, Paired, Valid, Sessions, SweptBut, SweptAt, Sweep;
      var todo := sessionCtrl.sessionMap.Keys;
      SweptAll(Sessions(), Sessions(), delta);
      while todo != {}
        invariant Valid() && todo <= sessionCtrl.sessionMap.Keys
        invariant sessionCtrl.sessionMap.Values <= old(sessionCtrl.sessionMap.Values)
        invariant SweptBut(old(Sessions()), Sessions(), todo, delta)
        decreases |todo|
      {
        var id :| id in todo;
        SweptStep(old(Sessions()), Sessions(), todo, id, delta);
        SweepOne(id, delta);
        todo := todo - {id};
      }
      SweptAll(old(Sessions()), Sessions(), delta);
    }
  }
}
