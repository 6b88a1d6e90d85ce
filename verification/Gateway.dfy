/** The whole gateway on its objects: every event takes it to the state that the step system prescribes. */
module Gateway {
  import opened Bytes
  import opened Generator
  import opened Dispatch
  import opened GatewaySpec
  import opened GatewayLaws
  import opened GatewayClient
  import opened GatewaySerial

  function Messages(queue: seq<Envelope<Inner>>): seq<Inner> {
    seq(|queue|, i requires 0 <= i < |queue| => queue[i].msg)
  }

  lemma MessagesAppend(queue: seq<Envelope<Inner>>, more: seq<Envelope<Inner>>)
    ensures Messages(queue + more) == Messages(queue) + Messages(more)
    ensures |more| == 1 ==> Messages(more) == [more[0].msg]
    ensures more == [] ==> Messages(queue + more) == Messages(queue)
  {
  }

  lemma MessagesTail(queue: seq<Envelope<Inner>>)
    requires queue != []
    ensures Messages(queue) != [] && Messages(queue)[0] == queue[0].msg && Messages(queue)[1..] == Messages(queue[1..])
  {
  }

  /** Requests come from the client module, and bind requests from elsewhere. */
  predicate Addressed(e: Envelope<Inner>) {
    && (e.msg.Request? ==> e.src.moduleType == MODULE_FGW_CLIENT)
    && (e.msg.BindRequest? ==> Elsewhere(e.src))
  }

  // ---------------------------------------------------------------- steps in the shape that the methods have

  lemma TakeGatewayIs(g: GatewaySpec.Gateway)
    requires g.last <= MAX_ID + 1 && g.toGateway != []
    ensures var m := g.toGateway[0];
            Step(g, TakeGateway)
            == g.(toGateway := g.toGateway[1..], sessions := g.sessions - {m.num},
                  sent := g.sent + if m.num in g.sessions && m.Response? && m.fits
                                   then [Reply(g.sessions[m.num].ext, m.kind, g.sessions[m.num].ticket, m.ticket)]
                                   else [])
  {
    var m := g.toGateway[0];
    if m.num !in g.sessions {
      assert g.sessions - {m.num} == g.sessions;
    }
  }

  lemma TakeSerialIs(g: GatewaySpec.Gateway)
    requires g.last <= MAX_ID + 1 && g.toSerial != []
    ensures var m := g.toSerial[0];
            Step(g, TakeSerial)
            == g.(toSerial := g.toSerial[1..], toGateway := g.toGateway + Answers(m, g.bound),
                  bound := if m.BindRequest? && m.lineUp && g.bound == None then Some((m.num, 0)) else g.bound)
  {
  }

  function Answers(m: Inner, bound: Option<(uint32, int)>): seq<Inner> {
    if !m.Request? || (m.kind != DevList && bound.Some? && bound.value.0 == m.num) then []
    else [Response(m.kind, m.num, m.ticket, m.fits)]
  }

  lemma ReceiveAsks(g: GatewaySpec.Gateway, p: Push)
    requires g.last <= MAX_ID + 1 && g.login == Registered && !InUse(g.sessions, p.sequence) && p.body.Ask?
    ensures var (id, last) := Draw(1, MAX_ID, g.last);
            Step(g, Receive(p))
            == g.(last := last, draws := g.draws + 1, sessions := Opened(g.sessions, p, id, |g.accepted|),
                  accepted := g.accepted + [Accepted(p.sequence, p.body.kind, g.draws)],
                  toSerial := g.toSerial + [Asks(p, id, |g.accepted|)])
  {
  }

  lemma ReceiveDraws(g: GatewaySpec.Gateway, p: Push)
    requires g.last <= MAX_ID + 1 && g.login == Registered && !InUse(g.sessions, p.sequence) && !p.body.Ask?
    ensures Step(g, Receive(p)) == g.(last := Draw(1, MAX_ID, g.last).1, draws := g.draws + 1)
    ensures forall id, t :: Opened(g.sessions, p, id, t) == g.sessions
  {
  }

  lemma ReceiveIsRefused(g: GatewaySpec.Gateway, p: Push)
    requires g.last <= MAX_ID + 1 && g.login == Registered && InUse(g.sessions, p.sequence)
    ensures Step(g, Receive(p)) == g
  {
  }

  lemma TicksAre(g: GatewaySpec.Gateway, delta: int)
    requires g.last <= MAX_ID + 1
    ensures Step(g, Tick(delta)) == g.(sessions := Sweep(g.sessions, delta))
    ensures Step(g, TickSerial(delta)) == g.(bound := SweepBound(g.bound, delta))
  {
  }

  lemma AnswersAre(g: GatewaySpec.Gateway, addr: uint16)
    requires g.last <= MAX_ID + 1
    ensures Step(g, DeviceAnswers(addr)) == g.(bound := if addr == 0 then None else g.bound)
  {
  }

  lemma RunNext(g: GatewaySpec.Gateway, events: seq<Event>)
    requires g.last <= MAX_ID + 1 && events != []
    ensures Step(g, events[0]).last <= MAX_ID + 1 && Run(g, events) == Run(Step(g, events[0]), events[1..])
  {
  }

  lemma BeforeTheLogin(g: GatewaySpec.Gateway, p: Push)
    requires g.last <= MAX_ID + 1
    ensures var h := Step(g, Receive(p));
            && (g.login != Registered ==> h == g.(login := h.login))
            && (h.login == if g.login == WaitForServer && p.body == LoginRsp(0) then Registered else g.login)
  {
    LoginChangesExactly(g, Receive(p));
    if g.login != Registered {
      NothingBeforeTheLogin(g, p);
    }
  }

  class Fgw {
    const dispatcher: ZDispatcher<Inner>
    const serial: ZModule<Inner>
    const client: ZModule<Inner>
    const handler: FGWClientHandler
    const zigbee: ZZigBeeHandler

    ghost function Footprint(): set<object>
      reads handler.sessionCtrl, zigbee.sessionCtrl
    {
      {serial, client, handler, handler.sessionCtrl, handler.idGenerator, handler.connection, zigbee.sessionCtrl}
      + handler.sessionCtrl.sessionMap.Values + zigbee.sessionCtrl.sessionMap.Values
    }

    ghost predicate Valid()
      reads Footprint(), dispatcher, handler.sessionCtrl, zigbee.sessionCtrl
    {
      && dispatcher.modules == [serial, client]
      && serial.moduleType == MODULE_SERIAL && client.moduleType == MODULE_FGW_CLIENT
      && handler.dispatcher == dispatcher && zigbee.dispatcher == dispatcher
      && handler.Valid() && zigbee.Valid()
      && forall e :: e in serial.queue ==> Addressed(e)
    }

    ghost function Abs(): (r: GatewaySpec.Gateway)
      requires Valid()
      reads Footprint(), dispatcher, handler.sessionCtrl, zigbee.sessionCtrl
      ensures r.last <= MAX_ID + 1
    {
      Gateway(handler.state, handler.idGenerator.last, handler.draws, handler.Sessions(), handler.accepted,
              Messages(serial.queue), Messages(client.queue), zigbee.Bound(), handler.connection.sent)
    }

    constructor (dispatcher: ZDispatcher<Inner>, serial: ZModule<Inner>, client: ZModule<Inner>)
      requires dispatcher.modules == [serial, client] && serial.queue == [] && client.queue == []
      requires serial.moduleType == MODULE_SERIAL && client.moduleType == MODULE_FGW_CLIENT
      ensures Valid() && Abs() == GatewaySpec.START
      ensures this.dispatcher == dispatcher && this.serial == serial && this.client == client
      ensures fresh(Footprint() - {serial, client})
    {
      hide FGWClientHandler.Valid, FGWClientHandler.Sessions, ZZigBeeHandler.Valid, ZZigBeeHandler.Bound;
      this.dispatcher, this.serial, this.client := dispatcher, serial, client;
      handler := new FGWClientHandler(1, dispatcher);
      zigbee := new ZZigBeeHandler(dispatcher);
    }

    static method Start() returns (fgw: Fgw)
      ensures fgw.Valid() && fgw.Abs() == GatewaySpec.START && fresh(fgw.Footprint()) && fresh(fgw.dispatcher)
    {
      hide Fgw.Valid, Fgw.Abs;
      var dispatcher, serial, client := RegisterModules();
      fgw := new Fgw(dispatcher, serial, client);
    }

    static method RegisterModules()
      returns (dispatcher: ZDispatcher<Inner>, serial: ZModule<Inner>, client: ZModule<Inner>)
      ensures fresh(dispatcher) && fresh(serial) && fresh(client) && dispatcher.modules == [serial, client]
      ensures serial.moduleType == MODULE_SERIAL && client.moduleType == MODULE_FGW_CLIENT
      ensures serial.queue == [] && client.queue == []
    {
      dispatcher := new ZDispatcher<Inner>();
      serial := new ZModule<Inner>(MODULE_SERIAL);
      client := new ZModule<Inner>(MODULE_FGW_CLIENT);
      var _ := dispatcher.RegisterModule(serial);
      assert dispatcher.modules == [serial];
      var _ := dispatcher.RegisterModule(client);
    }

    method OnConnected()
      requires Valid()
      modifies Footprint()
      ensures Valid() && Footprint() == old(Footprint())
      ensures Abs() == Step(old(Abs()), Connected)
    {
      hide FGWClientHandler.Valid, FGWClientHandler.Sessions, ZZigBeeHandler.Valid, ZZigBeeHandler.Bound;
      assert serial in dispatcher.modules && client in dispatcher.modules;
      handler.OnConnected();
    }

    method OnRead(p: Push)
      requires Valid()
      modifies Footprint()
      ensures Valid() && fresh(Footprint() - old(Footprint()))
      ensures Abs() == Step(old(Abs()), Receive(p))
      ensures old(handler.state) != Registered ==> Abs() == old(Abs()).(login := handler.state)
      ensures handler.state == if old(handler.state) == WaitForServer && p.body == LoginRsp(0) then Registered
                               else old(handler.state)
    {
      hide Step, Messages, Addressed;
      BeforeTheLogin(Abs(), p);
      hide FGWClientHandler.Valid, FGWClientHandler.Sessions, ZZigBeeHandler.Valid, ZZigBeeHandler.Bound;
      assert serial in dispatcher.modules && client in dispatcher.modules;
      if handler.state == Unregistered {
        // the server is told that the gateway is not registered
      } else if handler.state == WaitForServer {
        Awaits(p);
      } else {
        OnReadRegistered(p);
      }
    }

    /** While the gateway waits for the server, a message changes the login at most. */
    method Awaits(p: Push)
      requires Valid()
      modifies handler`state
      ensures Valid() && Footprint() == old(Footprint())
      ensures Abs() == old(Abs()).(login := if p.body == LoginRsp(0) then Registered else old(handler.state))
    {
      hide FGWClientHandler.Valid, FGWClientHandler.Sessions, ZZigBeeHandler.Valid, ZZigBeeHandler.Bound;
      hide Messages, Addressed;
      var _ := handler.OnReadWaitForServer(p);
    }

    method OnReadRegistered(p: Push)
      requires Valid() && handler.state == Registered
      modifies Footprint()
      ensures Valid() && fresh(Footprint() - old(Footprint()))
      ensures Abs() == Step(old(Abs()), Receive(p))
    {
      hide FGWClientHandler.Valid, FGWClientHandler.Sessions, ZZigBeeHandler.Valid, ZZigBeeHandler.Bound;
      hide Draw, InUse, Step, Opened, Asks, Messages, Addressed;
      ghost var g, q, id := Abs(), serial.queue, handler.NextId();
      ghost var e := Envelope(handler.address, Address(MODULE_SERIAL, ANY_ID), Asks(p, id, |g.accepted|));
      MessagesAppend(q, [e]);
      assert handler.Accepts(p) <==> p.body.Ask? && !InUse(g.sessions, p.sequence);
      hide FGWClientHandler.Accepts, FGWClientHandler.NextId;
      HandlerReads(p, e);
      assert serial.queue == if p.body.Ask? && !InUse(g.sessions, p.sequence) then q + [e] else q;
      if InUse(g.sessions, p.sequence) {
        ReceiveIsRefused(g, p);
      } else if p.body.Ask? {
        ReceiveAsks(g, p);
      } else {
        ReceiveDraws(g, p);
      }
    }

    /** The handler's part of it, and what becomes of the queues. */
    method HandlerReads(p: Push, ghost e: Envelope<Inner>)
      requires Valid()
      requires e == Envelope(handler.address, Address(MODULE_SERIAL, ANY_ID),
                             Asks(p, handler.NextId(), |handler.accepted|))
      modifies Footprint()
      ensures Valid() && fresh(Footprint() - old(Footprint()))
      ensures client.queue == old(client.queue) && zigbee.Bound() == old(zigbee.Bound())
      ensures handler.state == old(handler.state) && handler.connection.sent == old(handler.connection.sent)
      ensures serial.queue == old(serial.queue) + if old(handler.Accepts(p)) then [e] else []
      ensures old(InUse(handler.Sessions(), p.sequence)) ==>
                handler.idGenerator.last == old(handler.idGenerator.last) && handler.draws == old(handler.draws)
                && handler.accepted == old(handler.accepted)
      ensures old(InUse(handler.Sessions(), p.sequence)) ==> handler.Sessions() == old(handler.Sessions())
      ensures old(!InUse(handler.Sessions(), p.sequence)) ==>
                handler.idGenerator.last == Draw(1, MAX_ID, old(handler.idGenerator.last)).1
      ensures old(!InUse(handler.Sessions(), p.sequence)) ==> handler.draws == old(handler.draws) + 1
      ensures old(!InUse(handler.Sessions(), p.sequence)) ==>
                handler.accepted
                == old(handler.accepted) +
                   if p.body.Ask? then [Accepted(p.sequence, p.body.kind, old(handler.draws))] else []
      ensures old(!InUse(handler.Sessions(), p.sequence)) ==>
                handler.Sessions() == Opened(old(handler.Sessions()), p, old(handler.NextId()), |old(handler.accepted)|)
    {
      hide FGWClientHandler.Valid, FGWClientHandler.Sessions, ZZigBeeHandler.Valid, ZZigBeeHandler.Bound;
      hide Draw, InUse, Step, Opened, Asks, Messages, FGWClientHandler.NextId;
      assert serial in dispatcher.modules && client in dispatcher.modules;
      assert Addressed(e);
      hide Addressed, FGWClientHandler.Accepts;
      var _ := handler.OnReadRegistered(p);
    }

    /** Another module sends a bind request. */
    method SendBindRequest(src: Address, num: uint32, lineUp: bool)
      requires Valid() && Elsewhere(src)
      modifies Footprint()
      ensures Valid() && Footprint() == old(Footprint())
      ensures Abs() == Step(old(Abs()), Foreign(num, lineUp))
    {
      hide FGWClientHandler.Valid, FGWClientHandler.Sessions, ZZigBeeHandler.Valid, ZZigBeeHandler.Bound;
      assert serial in dispatcher.modules && client in dispatcher.modules;
      var _ := dispatcher.SendDirect(Envelope(src, Address(MODULE_SERIAL, ANY_ID), BindRequest(num, lineUp)));
    }

    /** The first message of the serial module's queue is dropped. */
    method PopSerial()
      requires Valid() && serial.queue != []
      modifies serial
      ensures Valid() && Footprint() == old(Footprint())
      ensures serial.queue == old(serial.queue)[1..] && client.queue == old(client.queue)
      ensures Abs() == old(Abs()).(toSerial := Messages(old(serial.queue)[1..]))
    {
      hide FGWClientHandler.Valid, FGWClientHandler.Sessions, ZZigBeeHandler.Valid, ZZigBeeHandler.Bound, Messages;
      hide Addressed;
      serial.queue := serial.queue[1..];
    }

    method PopClient()
      requires Valid() && client.queue != []
      modifies client
      ensures Valid() && Footprint() == old(Footprint())
      ensures client.queue == old(client.queue)[1..] && serial.queue == old(serial.queue)
      ensures Abs() == old(Abs()).(toGateway := Messages(old(client.queue)[1..]))
    {
      hide FGWClientHandler.Valid, FGWClientHandler.Sessions, ZZigBeeHandler.Valid, ZZigBeeHandler.Bound, Messages;
      hide Addressed;
      client.queue := client.queue[1..];
    }

    /** What the queues are in the step system. */
    lemma Queues()
      requires Valid()
      ensures Abs().toSerial == Messages(serial.queue) && Abs().toGateway == Messages(client.queue)
      ensures forall e :: e in serial.queue ==> Addressed(e)
      ensures serial in Footprint() && client in Footprint()
    {
    }

    /** The serial module takes its first message, and drops it once it is done. */
    method SerialTakes()
      requires Valid() && serial.queue != []
      modifies Footprint()
      ensures Valid() && fresh(Footprint() - old(Footprint()))
      ensures Abs() == Step(old(Abs()), TakeSerial) && |serial.queue| == |old(serial.queue)| - 1
    {
      hide Valid, Abs, Footprint, Step, Messages, Addressed, Answers;
      Queues();
      MessagesTail(serial.queue);
      TakeSerialIs(Abs());
      var e := serial.queue[0];
      assert e in serial.queue;
      SerialAnswers(e);
      Queues();
      PopSerial();
    }

    method SerialAnswers(e: Envelope<Inner>)
      requires Valid() && Addressed(e)
      modifies Footprint()
      ensures Valid() && fresh(Footprint() - old(Footprint())) && serial.queue == old(serial.queue)
      ensures var g, m := old(Abs()), e.msg;
              Abs() == g.(toGateway := g.toGateway + Answers(m, g.bound),
                          bound := if m.BindRequest? && m.lineUp && g.bound == None then Some((m.num, 0)) else g.bound)
    {
      hide FGWClientHandler.Valid, FGWClientHandler.Sessions, ZZigBeeHandler.Valid, ZZigBeeHandler.Bound, Messages;
      assert serial in dispatcher.modules && client in dispatcher.modules;
      MessagesAppend(client.queue, zigbee.Answer(e, zigbee.Bound()));
      var _ := zigbee.OnInnerMsg(e);
      assert serial.queue == old(serial.queue);
    }

    method ClientTakes()
      requires Valid() && client.queue != []
      modifies Footprint()
      ensures Valid() && fresh(Footprint() - old(Footprint()))
      ensures Abs() == Step(old(Abs()), TakeGateway) && |client.queue| == |old(client.queue)| - 1
      ensures serial.queue == old(serial.queue)
    {
      hide Valid, Abs, Footprint, Step, Messages, Addressed;
      Queues();
      MessagesTail(client.queue);
      TakeGatewayIs(Abs());
      ClientAnswers(client.queue[0].msg);
      Queues();
      PopClient();
    }

    method ClientAnswers(m: Inner)
      requires Valid()
      modifies Footprint() - {serial, client}
      ensures Valid() && fresh(Footprint() - old(Footprint()))
      ensures var g := old(Abs());
              Abs() == g.(sessions := g.sessions - {m.num},
                          sent := g.sent +
                                  if m.num in g.sessions && m.Response? && m.fits
                                  then [Reply(g.sessions[m.num].ext, m.kind, g.sessions[m.num].ticket, m.ticket)]
                                  else [])
    {
      hide FGWClientHandler.Valid, FGWClientHandler.Sessions, ZZigBeeHandler.Valid, ZZigBeeHandler.Bound, Messages;
      hide Addressed;
      var _ := handler.OnInnerMsg(m);
    }

    method OnDeviceResponse(addr: uint16)
      requires Valid()
      modifies Footprint()
      ensures Valid() && fresh(Footprint() - old(Footprint()))
      ensures Abs() == Step(old(Abs()), DeviceAnswers(addr))
    {
      hide FGWClientHandler.Valid, FGWClientHandler.Sessions, ZZigBeeHandler.Valid, ZZigBeeHandler.Bound;
      hide ZZigBeeHandler.Asker, Messages, Addressed, Step;
      AnswersAre(Abs(), addr);
      assert serial in dispatcher.modules && client in dispatcher.modules;
      var _ := zigbee.OnDeviceResponse(addr);
      assert serial.queue == old(serial.queue) && client.queue == old(client.queue);
    }

    method Routine(delta: int)
      requires Valid()
      modifies Footprint()
      ensures Valid() && fresh(Footprint() - old(Footprint()))
      ensures Abs() == Step(old(Abs()), Tick(delta))
    {
      hide Sweep, Addressed, Messages, Step;
      TicksAre(Abs(), delta);
      hide FGWClientHandler.Valid, FGWClientHandler.Sessions, ZZigBeeHandler.Valid, ZZigBeeHandler.Bound;
      AgesSessions(delta);
    }

    method AgesSessions(delta: int)
      requires Valid()
      modifies handler.sessionCtrl, handler.sessionCtrl.sessionMap.Values
      ensures Valid() && fresh(Footprint() - old(Footprint()))
      ensures handler.Sessions() == Sweep(old(handler.Sessions()), delta)
      ensures zigbee.Bound() == old(zigbee.Bound())
    {
      hide Sweep, Addressed;
      hide FGWClientHandler.Valid, FGWClientHandler.Sessions, ZZigBeeHandler.Valid, ZZigBeeHandler.Bound;
      handler.Routine(delta);
    }

    method SerialRoutine(delta: int)
      requires Valid()
      modifies Footprint()
      ensures Valid() && fresh(Footprint() - old(Footprint()))
      ensures Abs() == Step(old(Abs()), TickSerial(delta))
    {
      hide FGWClientHandler.Valid, FGWClientHandler.Sessions, ZZigBeeHandler.Valid, ZZigBeeHandler.Bound;
      hide SweepBound, Addressed, Messages, Step;
      TicksAre(Abs(), delta);
      zigbee.Routine(delta);
    }

    lemma NothingOnTheWay()
      requires Valid() && serial.queue == [] && client.queue == []
      ensures OnTheWay(Abs()) == []
    {
    }

    method Perform(e: Event)
      requires Valid()
      modifies Footprint()
      ensures Valid() && fresh(Footprint() - old(Footprint()))
      ensures Abs() == Step(old(Abs()), e)
    {
      hide Valid, Abs, Footprint;
      match e
      case Connected => OnConnected();
      case Receive(p) => OnRead(p);
      case Foreign(num, lineUp) => SendBindRequest(Address(0, 0), num, lineUp);
      case TakeSerial => SerialTakesIfAny();
      case TakeGateway => ClientTakesIfAny();
      case DeviceAnswers(addr) => OnDeviceResponse(addr);
      case Tick(delta) => Routine(delta);
      case TickSerial(delta) => SerialRoutine(delta);
    }

    method SerialTakesIfAny()
      requires Valid()
      modifies Footprint()
      ensures Valid() && fresh(Footprint() - old(Footprint()))
      ensures Abs() == Step(old(Abs()), TakeSerial)
    {
      hide Valid, Abs, Footprint, Addressed;
      Queues();
      if serial.queue != [] {
        SerialTakes();
      }
    }

    method ClientTakesIfAny()
      requires Valid()
      modifies Footprint()
      ensures Valid() && fresh(Footprint() - old(Footprint()))
      ensures Abs() == Step(old(Abs()), TakeGateway)
    {
      hide Valid, Abs, Footprint, Addressed;
      Queues();
      if client.queue != [] {
        ClientTakes();
      }
    }

    /** Any run of the objects is a run of the step system. */
    method Replay(events: seq<Event>)
      requires Valid()
      modifies Footprint()
      ensures Valid() && fresh(Footprint() - old(Footprint()))
      ensures Abs() == Run(old(Abs()), events)
    {
      hide Valid, Abs, Step, Run;
      for i := 0 to |events|
        invariant Valid() && fresh(Footprint() - old(Footprint()))
        invariant Abs().last <= MAX_ID + 1 && Run(old(Abs()), events) == Run(Abs(), events[i..])
      {
        RunNext(Abs(), events[i..]);
        assert events[i..][1..] == events[i + 1..];
        Perform(events[i]);
      }
      RunNothing(Abs());
    }

    /** The serial module works off its queue. */
    method CheckSerialQueue()
      requires Valid()
      modifies Footprint()
      ensures Valid() && fresh(Footprint() - old(Footprint())) && serial.queue == []
      ensures Abs() == Run(old(Abs()), seq(|old(serial.queue)|, _ => TakeSerial))
    {
      hide Valid, Abs, Step, Run;
      ghost var g, n := Abs(), |serial.queue|;
      while serial.queue != []
        invariant Valid() && fresh(Footprint() - old(Footprint()))
        invariant Run(g, seq(n, _ => TakeSerial)) == Run(Abs(), seq(|serial.queue|, _ => TakeSerial))
        decreases |serial.queue|
      {
        ghost var takes := seq(|serial.queue|, _ => TakeSerial);
        assert takes[1..] == seq(|serial.queue| - 1, _ => TakeSerial);
        RunNext(Abs(), takes);
        SerialTakes();
      }
      RunNothing(Abs());
      assert seq(0, _ => TakeSerial) == [];
    }

    method CheckClientQueue()
      requires Valid()
      modifies Footprint()
      ensures Valid() && fresh(Footprint() - old(Footprint()))
      ensures client.queue == [] && serial.queue == old(serial.queue)
      ensures Abs() == Run(old(Abs()), seq(|old(client.queue)|, _ => TakeGateway))
    {
      hide Valid, Abs, Step, Run;
      ghost var g, n := Abs(), |client.queue|;
      while client.queue != []
        invariant Valid() && fresh(Footprint() - old(Footprint())) && serial.queue == old(serial.queue)
        invariant Run(g, seq(n, _ => TakeGateway)) == Run(Abs(), seq(|client.queue|, _ => TakeGateway))
        decreases |client.queue|
      {
        ghost var takes := seq(|client.queue|, _ => TakeGateway);
        assert takes[1..] == seq(|client.queue| - 1, _ => TakeGateway);
        RunNext(Abs(), takes);
        ClientTakes();
      }
      RunNothing(Abs());
      assert seq(0, _ => TakeGateway) == [];
    }

    /** One turn of the main loop leaves nothing on its way. */
    method Turn()
      requires Valid()
      modifies Footprint()
      ensures Valid() && fresh(Footprint() - old(Footprint())) && OnTheWay(Abs()) == []
      ensures exists m: nat, n: nat :: Abs() == Run(old(Abs()), Takes(m, n))
    {
      hide Step, Run, Valid, Abs, OnTheWay, Takes;
      ghost var g, m := Abs(), |serial.queue|;
      CheckSerialQueue();
      ghost var n := |client.queue|;
      CheckClientQueue();
      RunConcat(g, seq(m, _ => TakeSerial), seq(n, _ => TakeGateway));
      TakesAre(m, n);
      assert Abs() == Run(g, Takes(m, n));
      NothingOnTheWay();
    }
  }

  lemma TakesAre(m: nat, n: nat)
    ensures Takes(m, n) == seq(m, _ => TakeSerial) + seq(n, _ => TakeGateway)
  {
  }

  /** First all messages for the serial module are taken, then all for the client. */
  function Takes(m: nat, n: nat): seq<Event> {
    seq(m, _ => TakeSerial) + seq(n, _ => TakeGateway)
  }
}
