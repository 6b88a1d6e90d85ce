/**
 * The gateway as a step system: requests from the server get inner sequence numbers, cross the queues to the serial
 * module and back, and are answered under their external numbers, unless their session has expired by then.
 */
module GatewaySpec {
  import opened Bytes
  import opened Generator

  const MAX_ID := 0xFF_FFFF             // of the inner sequence numbers
  const FGW_CLIENT_SESSION_TIMEOUT := 10000
  const ZIGBEE_CLIENT_SESSION_TIMEOUT := 8000

  datatype Kind = DevList | DevInfo | SetInfo

  datatype Login = Unregistered | WaitForServer | Registered

  /** What a message from the server holds; something else if its type is none of these or its body is missing. */
  datatype Body = LoginRsp(code: int) | Ask(kind: Kind) | Other

  /**
   * A push message from the server. Whether the reply will fit the output buffer depends on data outside this model,
   * so the message carries it.
   */
  datatype Push = Push(body: Body, sequence: uint32, replyFits: bool)

  /**
   * What travels between the modules. A ticket is the place of the request among all accepted ones; no step looks at
   * it, it only records where a message comes from.
   */
  datatype Inner =
    | Request(kind: Kind, num: uint32, ticket: nat, fits: bool)
    | Response(kind: Kind, num: uint32, ticket: nat, fits: bool)
    | BindRequest(num: uint32, lineUp: bool)   // from another module, which the device's answer goes back to
    | DeviceResponse(num: uint32)

  datatype Session = Session(ext: uint32, touch: int, ticket: nat)

  /** A request that was accepted: its external number, its kind, and how many numbers were drawn before its own. */
  datatype Accepted = Accepted(ext: uint32, kind: Kind, draw: nat)

  /**
   * A reply that was sent: what the server sees, the session it was sent for, and the request it is the response to.
   */
  datatype Reply = Reply(ext: uint32, kind: Kind, ticket: nat, origin: nat)

  datatype Gateway = Gateway(
    login: Login,
    last: nat,                       // of the number generator
    draws: nat,                      // how many numbers were drawn
    sessions: map<uint32, Session>,  // by inner number
    accepted: seq<Accepted>,
    toSerial: seq<Inner>,
    toGateway: seq<Inner>,
    bound: Option<(uint32, int)>,    // the session of a bind request, with its age
    sent: seq<Reply>)

  datatype Event =
    | Connected
    | Receive(push: Push)
    | Foreign(num: uint32, lineUp: bool)
    | TakeSerial
    | TakeGateway
    | DeviceAnswers(addr: uint16)
    | Tick(delta: int)
    | TickSerial(delta: int)

  const START := Gateway(Unregistered, 1, 0, map[], [], [], [], None, [])

  /** The external number is in use. */
  predicate InUse(sessions: map<uint32, Session>, ext: uint32) {
    exists id :: id in sessions && sessions[id].ext == ext
  }

  /** `onRead_Registered` and the first event of the session that it opens. */
  function OnReceive(g: Gateway, p: Push): Gateway
    requires g.last <= MAX_ID + 1
  {
    if InUse(g.sessions, p.sequence) then g
    else
      var (id, last) := Draw(1, MAX_ID, g.last);
      var drawn := g.(last := last, draws := g.draws + 1);
      match p.body
      case LoginRsp(_) => drawn
      case Other => drawn
      case Ask(kind) =>
        var ticket := |g.accepted|;
        drawn.(accepted := g.accepted + [Accepted(p.sequence, kind, g.draws)],
               toSerial := g.toSerial + [Request(kind, id, ticket, p.replyFits)],
               sessions := if id in g.sessions then g.sessions else g.sessions[id := Session(p.sequence, 0, ticket)])
  }

  /** `onRead`, by the state of the login. */
  function OnRead(g: Gateway, p: Push): Gateway
    requires g.last <= MAX_ID + 1
  {
    match g.login
    case Unregistered => g
    case WaitForServer => if p.body == LoginRsp(0) then g.(login := Registered) else g
    case Registered => OnReceive(g, p)
  }

  /** One message out of the serial module's queue: the responders answer at once, under the number of the request. */
  function OnSerial(g: Gateway, m: Inner): Gateway {
    match m
    case Request(kind, num, ticket, fits) =>
      if kind != DevList && g.bound.Some? && g.bound.value.0 == num then g
      else g.(toGateway := g.toGateway + [Response(kind, num, ticket, fits)])
    case BindRequest(num, lineUp) => if lineUp && g.bound.None? then g.(bound := Some((num, 0))) else g
    case Response(_, _, _, _) => g
    case DeviceResponse(_) => g
  }

  /** One message out of the gateway's own queue. */
  function OnGateway(g: Gateway, m: Inner): Gateway {
    if m.num !in g.sessions then g
    else
      var s := g.sessions[m.num];
      var closed := g.(sessions := g.sessions - {m.num});
      if m.Response? && m.fits then closed.(sent := g.sent + [Reply(s.ext, m.kind, s.ticket, m.ticket)]) else closed
  }

  predicate Expires(touch: int, delta: int, timeout: int) {
    touch + delta > timeout
  }

  /** One sweep of the gateway's timer. */
  function Sweep(sessions: map<uint32, Session>, delta: int): map<uint32, Session> {
    map id | id in sessions && !Expires(sessions[id].touch, delta, FGW_CLIENT_SESSION_TIMEOUT)
      :: sessions[id].(touch := sessions[id].touch + delta)
  }

  function SweepBound(bound: Option<(uint32, int)>, delta: int): Option<(uint32, int)> {
    match bound
    case None => None
    case Some((num, touch)) =>
      if Expires(touch, delta, ZIGBEE_CLIENT_SESSION_TIMEOUT) then None else Some((num, touch + delta))
  }

  function Step(g: Gateway, e: Event): Gateway
    requires g.last <= MAX_ID + 1
  {
    match e
    case Connected => g.(login := WaitForServer)
    case Receive(p) => OnRead(g, p)
    case Foreign(num, lineUp) => g.(toSerial := g.toSerial + [BindRequest(num, lineUp)])
    case TakeSerial => if g.toSerial == [] then g else OnSerial(g.(toSerial := g.toSerial[1..]), g.toSerial[0])
    case TakeGateway => if g.toGateway == [] then g else OnGateway(g.(toGateway := g.toGateway[1..]), g.toGateway[0])
    case DeviceAnswers(addr) => if addr == 0 then g.(bound := None) else g
    case Tick(delta) => g.(sessions := Sweep(g.sessions, delta))
    case TickSerial(delta) => g.(bound := SweepBound(g.bound, delta))
  }

  lemma StepKeepsLast(g: Gateway, e: Event)
    requires g.last <= MAX_ID + 1
    ensures Step(g, e).last <= MAX_ID + 1
  {
  }

  function Run(g: Gateway, events: seq<Event>): (r: Gateway)
    requires g.last <= MAX_ID + 1
    ensures r.last <= MAX_ID + 1
    decreases |events|
  {
    if events == [] then g else StepKeepsLast(g, events[0]); Run(Step(g, events[0]), events[1..])
  }

  // ---------------------------------------------------------------- correlation

  /** The number that a request gets, from how many were drawn before it. */
  function IdOf(draw: nat): uint32 {
    1 + draw % MAX_ID
  }

  lemma SameId(d: nat, e: nat)
    requires d <= e < d + MAX_ID && IdOf(d) == IdOf(e)
    ensures d == e
  {
    assert e == d + (e - d);
    assert d == MAX_ID * (d / MAX_ID) + d % MAX_ID;
    assert e == MAX_ID * (e / MAX_ID) + e % MAX_ID;
  }

  predicate Ticketed(m: Inner) {
    m.Request? || m.Response?
  }

  /** The messages on their way. */
  function OnTheWay(g: Gateway): seq<Inner> {
    g.toSerial + g.toGateway
  }

  /** The request is still on its way, or it has an open session. */
  ghost predicate Outstanding(g: Gateway, ticket: nat) {
    || (exists i :: 0 <= i < |OnTheWay(g)| && Ticketed(OnTheWay(g)[i]) && OnTheWay(g)[i].ticket == ticket)
    || (exists id :: id in g.sessions && g.sessions[id].ticket == ticket)
  }

  /** Fewer numbers than there are were drawn since any outstanding request got its own. */
  ghost predicate InWindow(g: Gateway) {
    forall t: nat :: t < |g.accepted| && Outstanding(g, t) ==> g.draws - g.accepted[t].draw <= MAX_ID
  }

  /** A message on its way belongs to an accepted request and carries its number and kind. */
  predicate MessageFits(accepted: seq<Accepted>, m: Inner) {
    Ticketed(m) ==> m.ticket < |accepted| && m.num == IdOf(accepted[m.ticket].draw) && m.kind == accepted[m.ticket].kind
  }

  predicate SessionFits(accepted: seq<Accepted>, id: uint32, s: Session) {
    s.ticket < |accepted| && id == IdOf(accepted[s.ticket].draw) && s.ext == accepted[s.ticket].ext
  }

  /** A reply answers an accepted request, with its external number and with the response to that very request. */
  predicate ReplyFits(accepted: seq<Accepted>, r: Reply) {
    && r.ticket < |accepted| && r.origin == r.ticket
    && r.ext == accepted[r.ticket].ext && r.kind == accepted[r.ticket].kind
  }

  ghost predicate DrawsFit(g: Gateway) {
    && 1 <= g.last <= MAX_ID + 1 && (g.last - 1) % MAX_ID == g.draws % MAX_ID
    && (forall t :: 0 <= t < |g.accepted| ==> g.accepted[t].draw < g.draws)
    && (forall t, u :: 0 <= t < u < |g.accepted| ==> g.accepted[t].draw < g.accepted[u].draw)
  }

  /** No two messages on their way belong to the same request. */
  predicate OneEach(q: seq<Inner>) {
    forall i, j :: 0 <= i < j < |q| && Ticketed(q[i]) && Ticketed(q[j]) ==> q[i].ticket != q[j].ticket
  }

  /** Responses travel to the gateway, and only responses do. */
  predicate Directed(g: Gateway) {
    && (forall i :: 0 <= i < |g.toSerial| ==> !g.toSerial[i].Response?)
    && (forall i :: 0 <= i < |g.toGateway| ==> g.toGateway[i].Response?)
  }

  /** No two sessions have the same external number. */
  predicate OneExt(sessions: map<uint32, Session>) {
    forall a, b :: a in sessions && b in sessions && a != b ==> sessions[a].ext != sessions[b].ext
  }

  /** Every request is answered at most once, and an answered one is not outstanding. */
  ghost predicate AnsweredOnce(g: Gateway) {
    && (forall i, j :: 0 <= i < j < |g.sent| ==> g.sent[i].ticket != g.sent[j].ticket)
    && (forall i :: 0 <= i < |g.sent| ==> !Outstanding(g, g.sent[i].ticket))
  }

  ghost predicate Inv(g: Gateway) {
    && DrawsFit(g)
    && (forall i :: 0 <= i < |OnTheWay(g)| ==> MessageFits(g.accepted, OnTheWay(g)[i]))
    && OneEach(OnTheWay(g))
    && Directed(g)
    && (forall id :: id in g.sessions ==> SessionFits(g.accepted, id, g.sessions[id]))
    && OneExt(g.sessions)
    && (forall i :: 0 <= i < |g.sent| ==> ReplyFits(g.accepted, g.sent[i]))
    && AnsweredOnce(g)
  }

  /** What the server may rely on. */
  ghost predicate Correlated(g: Gateway) {
    && (forall i :: 0 <= i < |g.sent| ==> ReplyFits(g.accepted, g.sent[i]))
    && (forall i, j :: 0 <= i < j < |g.sent| ==> g.sent[i].ticket != g.sent[j].ticket)
  }

  // ---------------------------------------------------------------- the invariant is kept

  /** Queues move on: a message at the front goes, or is answered at the end of the other queue. */
  lemma QueueMoves(g: Gateway, h: Gateway)
    requires Inv(g)
    requires h.accepted == g.accepted && h.sent == g.sent
    requires h.draws == g.draws && h.last == g.last && h.sessions == g.sessions
    requires forall i :: 0 <= i < |OnTheWay(h)| && Ticketed(OnTheWay(h)[i]) ==>
               exists j :: 0 <= j < |OnTheWay(g)| && Same(OnTheWay(g)[j], OnTheWay(h)[i])
    requires OneEach(OnTheWay(h)) && Directed(h)
    ensures Inv(h)
  {
    forall i | 0 <= i < |OnTheWay(h)|
      ensures MessageFits(g.accepted, OnTheWay(h)[i])
    {
      if Ticketed(OnTheWay(h)[i]) {
        var j :| 0 <= j < |OnTheWay(g)| && Same(OnTheWay(g)[j], OnTheWay(h)[i]);
        assert MessageFits(g.accepted, OnTheWay(g)[j]);
      }
    }
    forall t: nat | Outstanding(h, t)
      ensures Outstanding(g, t)
    {
      if i :| 0 <= i < |OnTheWay(h)| && Ticketed(OnTheWay(h)[i]) && OnTheWay(h)[i].ticket == t {
        var j :| 0 <= j < |OnTheWay(g)| && Same(OnTheWay(g)[j], OnTheWay(h)[i]);
      } else {
        var id :| id in h.sessions && h.sessions[id].ticket == t;
        assert id in g.sessions;
      }
    }
  }

  /** Two messages that belong to the same request under the same number. */
  predicate Same(a: Inner, b: Inner) {
    Ticketed(a) && Ticketed(b) && a.ticket == b.ticket && a.num == b.num && a.kind == b.kind
  }

  lemma TakeSerialKeeps(g: Gateway)
    requires Inv(g)
    ensures Inv(Step(g, TakeSerial))
  {
    var h := Step(g, TakeSerial);
    if g.toSerial != [] {
      var m, n := g.toSerial[0], |OnTheWay(g)| - 1;
      assert forall i :: 0 <= i < n ==> OnTheWay(h)[i] == OnTheWay(g)[i + 1];
      forall i | 0 <= i < |OnTheWay(h)| && Ticketed(OnTheWay(h)[i])
        ensures exists j :: 0 <= j < |OnTheWay(g)| && Same(OnTheWay(g)[j], OnTheWay(h)[i])
      {
        var j := if i < n then i + 1 else 0;
        assert Same(OnTheWay(g)[j], OnTheWay(h)[i]);
      }
      forall i, j | 0 <= i < j < |OnTheWay(h)| && Ticketed(OnTheWay(h)[i]) && Ticketed(OnTheWay(h)[j])
        ensures OnTheWay(h)[i].ticket != OnTheWay(h)[j].ticket
      {
        assert OnTheWay(h)[i] == OnTheWay(g)[i + 1];
        var k := if j < n then j + 1 else 0;
        assert Same(OnTheWay(g)[k], OnTheWay(h)[j]);
      }
      QueueMoves(g, h);
    }
  }

  lemma ForeignKeeps(g: Gateway, num: uint32, lineUp: bool)
    requires Inv(g)
    ensures Inv(Step(g, Foreign(num, lineUp)))
  {
    var h, k := Step(g, Foreign(num, lineUp)), |g.toSerial|;
    assert forall i :: 0 <= i < |OnTheWay(h)| && i != k ==> OnTheWay(h)[i] == OnTheWay(g)[if i < k then i else i - 1];
    forall i | 0 <= i < |OnTheWay(h)| && Ticketed(OnTheWay(h)[i])
      ensures exists j :: 0 <= j < |OnTheWay(g)| && Same(OnTheWay(g)[j], OnTheWay(h)[i])
    {
      var j := if i < k then i else i - 1;
      assert Same(OnTheWay(g)[j], OnTheWay(h)[i]);
    }
    QueueMoves(g, h);
  }

  /** Two outstanding requests with the same inner number are the same request. */
  lemma NumbersTell(g: Gateway, t: nat, u: nat)
    requires DrawsFit(g) && InWindow(g) && t < |g.accepted| && u < |g.accepted|
    requires Outstanding(g, t) && Outstanding(g, u) && IdOf(g.accepted[t].draw) == IdOf(g.accepted[u].draw)
    ensures t == u
  {
    var d, e := g.accepted[t].draw, g.accepted[u].draw;
    SameId(Min(d, e), Max(d, e));
  }

  /** A message leaves the gateway's queue; nothing else happens yet. */
  function Popped(g: Gateway): Gateway
    requires g.toGateway != []
  {
    g.(toGateway := g.toGateway[1..])
  }

  lemma PopKeeps(g: Gateway)
    requires Inv(g) && g.toGateway != []
    ensures Inv(Popped(g))
    ensures Ticketed(g.toGateway[0]) ==>
              forall i :: 0 <= i < |OnTheWay(Popped(g))| && Ticketed(OnTheWay(Popped(g))[i]) ==>
                OnTheWay(Popped(g))[i].ticket != g.toGateway[0].ticket
  {
    var h, k := Popped(g), |g.toSerial|;
    assert forall i :: 0 <= i < |OnTheWay(h)| ==> OnTheWay(h)[i] == OnTheWay(g)[if i < k then i else i + 1];
    forall i | 0 <= i < |OnTheWay(h)| && Ticketed(OnTheWay(h)[i])
      ensures exists j :: 0 <= j < |OnTheWay(g)| && Same(OnTheWay(g)[j], OnTheWay(h)[i])
    {
      var j := if i < k then i else i + 1;
      assert Same(OnTheWay(g)[j], OnTheWay(h)[i]);
    }
    QueueMoves(g, h);
    assert OnTheWay(g)[k] == g.toGateway[0];
  }

  predicate SameOwner(s: Session, t: Session) {
    s.ticket == t.ticket && s.ext == t.ext
  }

  /** Fewer sessions are fine. */
  lemma FewerSessions(g: Gateway, h: Gateway)
    requires Inv(g) && h == g.(sessions := h.sessions)
    requires forall id :: id in h.sessions ==> id in g.sessions && SameOwner(g.sessions[id], h.sessions[id])
    ensures Inv(h)
  {
    forall t: nat | Outstanding(h, t)
      ensures Outstanding(g, t)
    {
      if i :| 0 <= i < |OnTheWay(h)| && Ticketed(OnTheWay(h)[i]) && OnTheWay(h)[i].ticket == t {
        assert OnTheWay(g)[i] == OnTheWay(h)[i];
      } else {
        var id :| id in h.sessions && h.sessions[id].ticket == t;
        assert id in g.sessions && g.sessions[id].ticket == t;
      }
    }
    forall id | id in h.sessions
      ensures SessionFits(h.accepted, id, h.sessions[id])
    {
      assert SessionFits(g.accepted, id, g.sessions[id]);
    }
  }

  /** A response finds the session of the very request that it answers. */
  lemma ResponseMeetsItsSession(g: Gateway)
    requires Inv(g) && InWindow(g) && g.toGateway != [] && Ticketed(g.toGateway[0])
    requires g.toGateway[0].num in g.sessions
    ensures var m, s := g.toGateway[0], g.sessions[g.toGateway[0].num];
            && s.ticket == m.ticket < |g.accepted| && m.kind == g.accepted[s.ticket].kind
            && s.ext == g.accepted[s.ticket].ext && Outstanding(g, s.ticket)
  {
    var m, s, k := g.toGateway[0], g.sessions[g.toGateway[0].num], |g.toSerial|;
    assert OnTheWay(g)[k] == m;
    assert MessageFits(g.accepted, OnTheWay(g)[k]);
    assert SessionFits(g.accepted, m.num, s);
    NumbersTell(g, s.ticket, m.ticket);
  }

  lemma TakeGatewayKeeps(g: Gateway)
    requires Inv(g) && InWindow(g)
    ensures Inv(Step(g, TakeGateway))
  {
    if g.toGateway != [] && g.toGateway[0].num in g.sessions {
      var m, p, h := g.toGateway[0], Popped(g), Step(g, TakeGateway);
      var s := g.sessions[m.num];
      var closed := p.(sessions := p.sessions - {m.num});
      PopKeeps(g);
      FewerSessions(p, closed);
      if m.Response? && m.fits {
        ResponseMeetsItsSession(g);
        ReplySent(g, closed, h, s, m);
      }
    } else if g.toGateway != [] {
      PopKeeps(g);
    }
  }

  lemma ReplySent(g: Gateway, closed: Gateway, h: Gateway, s: Session, m: Inner)
    requires Inv(g) && Inv(closed) && closed.sent == g.sent && closed.accepted == g.accepted
    requires m.Response? && s.ticket == m.ticket < |g.accepted| && Outstanding(g, s.ticket)
    requires h == closed.(sent := g.sent + [Reply(s.ext, m.kind, s.ticket, m.ticket)])
    requires s.ext == g.accepted[s.ticket].ext && m.kind == g.accepted[s.ticket].kind
    requires m.num == IdOf(g.accepted[s.ticket].draw) && m.num !in closed.sessions
    requires forall i :: 0 <= i < |OnTheWay(closed)| && Ticketed(OnTheWay(closed)[i]) ==>
               OnTheWay(closed)[i].ticket != m.ticket
    ensures Inv(h)
  {
    assert OnTheWay(h) == OnTheWay(closed);
    assert !Outstanding(h, s.ticket) by {
      forall id | id in h.sessions
        ensures h.sessions[id].ticket != s.ticket
      {
        assert SessionFits(closed.accepted, id, closed.sessions[id]);
      }
    }
    forall t: nat | Outstanding(h, t)
      ensures Outstanding(closed, t)
    {
    }
    forall i | 0 <= i < |h.sent|
      ensures ReplyFits(h.accepted, h.sent[i]) && !Outstanding(h, h.sent[i].ticket)
    {
      if i < |g.sent| {
        assert h.sent[i] == g.sent[i];
      }
    }
    forall i, j | 0 <= i < j < |h.sent|
      ensures h.sent[i].ticket != h.sent[j].ticket
    {
      assert h.sent[i] == g.sent[i];
      if j < |g.sent| {
        assert h.sent[j] == g.sent[j];
      } else {
        assert !Outstanding(g, g.sent[i].ticket);
      }
    }
  }

  // ---------------------------------------------------------------- accepting a request

  /** The next number is the one that follows from how many were drawn. */
  lemma DrawIs(g: Gateway)
    requires DrawsFit(g)
    ensures Draw(1, MAX_ID, g.last).0 == IdOf(g.draws)
    ensures (Draw(1, MAX_ID, g.last).1 - 1) % MAX_ID == (g.draws + 1) % MAX_ID
    ensures 1 <= Draw(1, MAX_ID, g.last).1 <= MAX_ID + 1
  {
    var k := (g.last - 1) % MAX_ID;
    assert g.last <= MAX_ID ==> k == g.last - 1;
    assert g.draws == MAX_ID * (g.draws / MAX_ID) + k;
    assert g.draws + 1 == MAX_ID * (g.draws / MAX_ID) + (k + 1);
    assert k + 1 == MAX_ID ==> g.draws + 1 == MAX_ID * (g.draws / MAX_ID + 1);
  }

  /** The number of a new request is not in use. */
  lemma NewNumberIsFree(g: Gateway, h: Gateway)
    requires Inv(g) && InWindow(h) && h.draws == g.draws + 1 && g.accepted <= h.accepted
    requires forall id :: id in g.sessions ==> id in h.sessions && h.sessions[id].ticket == g.sessions[id].ticket
    ensures IdOf(g.draws) !in g.sessions
  {
    if IdOf(g.draws) in g.sessions {
      var s := g.sessions[IdOf(g.draws)];
      assert SessionFits(g.accepted, IdOf(g.draws), s);
      assert Outstanding(h, s.ticket);
      assert h.accepted[s.ticket] == g.accepted[s.ticket];
      SameId(g.accepted[s.ticket].draw, g.draws);
    }
  }

  /** What is outstanding once a request was accepted was so before, or is the new request. */
  lemma OnlyTheNewOne(g: Gateway, h: Gateway, m: Inner, s: Session)
    requires h.toSerial == g.toSerial + [m] && h.toGateway == g.toGateway && m.Request?
    requires h.sessions == g.sessions || h.sessions == g.sessions[m.num := s]
    requires m.ticket == s.ticket
    ensures forall t: nat :: Outstanding(h, t) ==> Outstanding(g, t) || t == m.ticket
  {
    forall t: nat | Outstanding(h, t)
      ensures Outstanding(g, t) || t == m.ticket
    {
      if i :| 0 <= i < |OnTheWay(h)| && Ticketed(OnTheWay(h)[i]) && OnTheWay(h)[i].ticket == t {
        var k := |g.toSerial|;
        if i != k {
          var j := if i < k then i else i - 1;
          assert OnTheWay(g)[j] == OnTheWay(h)[i];
        }
      } else {
        var id :| id in h.sessions && h.sessions[id].ticket == t;
        if id != m.num || h.sessions == g.sessions {
          assert id in g.sessions && g.sessions[id].ticket == t;
        }
      }
    }
  }

  lemma ReceiveKeeps(g: Gateway, p: Push)
    requires Inv(g) && InWindow(Step(g, Receive(p)))
    ensures Inv(Step(g, Receive(p)))
  {
    hide MessageFits, SessionFits, ReplyFits, OneEach, OneExt;
    var h := Step(g, Receive(p));
    if g.login == Registered && !InUse(g.sessions, p.sequence) {
      DrawIs(g);
      if p.body.Ask? {
        var t, id := |g.accepted|, IdOf(g.draws);
        var m, s := Request(p.body.kind, id, t, p.replyFits), Session(p.sequence, 0, t);
        NewNumberIsFree(g, h);
        OnlyTheNewOne(g, h, m, s);
        AcceptKeeps(g, h, m, s);
      } else {
        assert OnTheWay(h) == OnTheWay(g);
        assert forall t: nat :: Outstanding(h, t) ==> Outstanding(g, t);
      }
    } else {
      assert OnTheWay(h) == OnTheWay(g);
      assert forall t: nat :: Outstanding(h, t) ==> Outstanding(g, t);
    }
  }

  lemma AcceptKeeps(g: Gateway, h: Gateway, m: Inner, s: Session)
    requires Inv(g) && DrawIsNext(g, h) && h.sent == g.sent && m.Request? && m.ticket == s.ticket == |g.accepted|
    requires m.num == IdOf(g.draws) && m.num !in g.sessions && !InUse(g.sessions, s.ext)
    requires h.accepted == g.accepted + [Accepted(s.ext, m.kind, g.draws)]
    requires h.toSerial == g.toSerial + [m] && h.toGateway == g.toGateway && h.sessions == g.sessions[m.num := s]
    requires forall t: nat :: Outstanding(h, t) ==> Outstanding(g, t) || t == m.ticket
    ensures Inv(h)
  {
    var k := |g.toSerial|;
    assert OnTheWay(h)[k] == m;
    forall i | 0 <= i < |OnTheWay(h)| && i != k
      ensures MessageFits(h.accepted, OnTheWay(h)[i]) && OnTheWay(h)[i] == OnTheWay(g)[if i < k then i else i - 1]
      ensures Ticketed(OnTheWay(h)[i]) ==> OnTheWay(h)[i].ticket < m.ticket
    {
      assert OnTheWay(h)[i] == OnTheWay(g)[if i < k then i else i - 1];
      assert MessageFits(g.accepted, OnTheWay(g)[if i < k then i else i - 1]);
    }
    forall id | id in h.sessions
      ensures SessionFits(h.accepted, id, h.sessions[id])
    {
      assert id != m.num ==> SessionFits(g.accepted, id, g.sessions[id]);
    }
    forall i | 0 <= i < |h.sent|
      ensures ReplyFits(h.accepted, h.sent[i]) && !Outstanding(h, h.sent[i].ticket)
    {
      assert ReplyFits(g.accepted, g.sent[i]);
    }
  }

  predicate DrawIsNext(g: Gateway, h: Gateway) {
    h.draws == g.draws + 1 && 1 <= h.last <= MAX_ID + 1 && (h.last - 1) % MAX_ID == h.draws % MAX_ID
  }

  // ---------------------------------------------------------------- every run

  lemma StepKeeps(g: Gateway, e: Event)
    requires Inv(g) && InWindow(g) && InWindow(Step(g, e))
    ensures Inv(Step(g, e))
  {
    var h := Step(g, e);
    match e {
      case Receive(p) => ReceiveKeeps(g, p);
      case Foreign(num, lineUp) => ForeignKeeps(g, num, lineUp);
      case TakeSerial => TakeSerialKeeps(g);
      case TakeGateway => TakeGatewayKeeps(g);
      case Tick(delta) =>
        hide Inv;
        FewerSessions(g, h);
      case _ =>
        assert OnTheWay(h) == OnTheWay(g);
        assert forall t: nat :: Outstanding(h, t) ==> Outstanding(g, t);
    }
  }

  /** The window is respected in every state of the run. */
  ghost predicate Paced(g: Gateway, events: seq<Event>)
    requires g.last <= MAX_ID + 1
    decreases |events|
  {
    InWindow(g) && (events != [] ==> (StepKeepsLast(g, events[0]); Paced(Step(g, events[0]), events[1..])))
  }

  /** Over every run that respects the window, each reply answers its own request and no request is answered twice. */
  lemma {:induction false} RunKeeps(g: Gateway, events: seq<Event>)
    requires Inv(g) && Paced(g, events)
    ensures Inv(Run(g, events)) && Correlated(Run(g, events))
    decreases |events|
  {
    if events != [] {
      StepKeepsLast(g, events[0]);
      StepKeeps(g, events[0]);
      RunKeeps(Step(g, events[0]), events[1..]);
    }
  }

  lemma AlwaysCorrelated(events: seq<Event>)
    requires Paced(START, events)
    ensures Correlated(Run(START, events))
  {
    RunKeeps(START, events);
  }

  /** The session that was opened for this request. */
  predicate HasSession(g: Gateway, ticket: nat) {
    ticket < |g.accepted| && IdOf(g.accepted[ticket].draw) in g.sessions
    && g.sessions[IdOf(g.accepted[ticket].draw)].ticket == ticket
  }

  /** A response brings exactly one reply if the session of its request is still there, and is dropped otherwise. */
  lemma LateResponseIsDropped(g: Gateway)
    requires Inv(g) && InWindow(g) && g.toGateway != []
    ensures var m, h := g.toGateway[0], Step(g, TakeGateway);
            && m.ticket < |g.accepted|
            && (!HasSession(g, m.ticket) ==> h == Popped(g))
            && (HasSession(g, m.ticket) && m.fits ==>
                  h.sent == g.sent + [Reply(g.accepted[m.ticket].ext, g.accepted[m.ticket].kind, m.ticket, m.ticket)])
            && (HasSession(g, m.ticket) ==> !HasSession(h, m.ticket))
  {
    var m := g.toGateway[0];
    assert OnTheWay(g)[|g.toSerial|] == m;
    assert MessageFits(g.accepted, m);
    if m.num in g.sessions {
      ResponseMeetsItsSession(g);
    }
  }

  // ---------------------------------------------------------------- every run whatsoever

  /** Where a reply comes from: the session of one request and the response to another one, under the same number. */
  predicate Traced(accepted: seq<Accepted>, r: Reply) {
    && r.ticket < |accepted| && r.origin < |accepted|
    && r.ext == accepted[r.ticket].ext && r.kind == accepted[r.origin].kind
    && IdOf(accepted[r.ticket].draw) == IdOf(accepted[r.origin].draw)
  }

  /** What holds even if the window is not respected. */
  ghost predicate Loose(g: Gateway) {
    && DrawsFit(g) && Directed(g)
    && (forall i :: 0 <= i < |g.toSerial| ==> MessageFits(g.accepted, g.toSerial[i]))
    && (forall i :: 0 <= i < |g.toGateway| ==> MessageFits(g.accepted, g.toGateway[i]))
    && (forall id :: id in g.sessions ==> SessionFits(g.accepted, id, g.sessions[id]))
    && (forall i :: 0 <= i < |g.sent| ==> Traced(g.accepted, g.sent[i]))
  }

  lemma LooseStep(g: Gateway, e: Event)
    requires Loose(g)
    ensures Loose(Step(g, e))
  {
    match e {
      case Receive(p) => LooseReceive(g, p);
      case TakeGateway => LooseTakeGateway(g);
      case TakeSerial => LooseTakeSerial(g);
      case _ =>
        hide MessageFits, Traced, InUse;
    }
  }

  lemma LooseTakeSerial(g: Gateway)
    requires Loose(g)
    ensures Loose(Step(g, TakeSerial))
  {
    if g.toSerial != [] {
      assert MessageFits(g.accepted, g.toSerial[0]);
      hide Traced, SessionFits;
    }
  }

  lemma LooseTakeGateway(g: Gateway)
    requires Loose(g)
    ensures Loose(Step(g, TakeGateway))
  {
    if g.toGateway != [] && g.toGateway[0].num in g.sessions {
      assert MessageFits(g.accepted, g.toGateway[0]) && g.toGateway[0].Response?;
      assert SessionFits(g.accepted, g.toGateway[0].num, g.sessions[g.toGateway[0].num]);
      hide IdOf;
    }
  }

  /** More accepted requests do not matter to the earlier ones. */
  lemma StillFit(a: seq<Accepted>, b: seq<Accepted>)
    requires a <= b
    ensures forall m :: MessageFits(a, m) ==> MessageFits(b, m)
    ensures forall id, s :: SessionFits(a, id, s) ==> SessionFits(b, id, s)
    ensures forall r :: Traced(a, r) ==> Traced(b, r)
  {
  }

  /** What a message from the server can do: nothing but the login, a draw, or a draw and a new request. */
  lemma ReadOutcomes(g: Gateway, p: Push)
    requires g.last <= MAX_ID + 1
    ensures var h := OnRead(g, p);
            var (id, last) := Draw(1, MAX_ID, g.last);
            || h == g.(login := h.login)
            || h == g.(last := last, draws := g.draws + 1)
            || exists kind, fits ::
                 && h.last == last && h.draws == g.draws + 1 && h.toGateway == g.toGateway && h.sent == g.sent
                 && h.accepted == g.accepted + [Accepted(p.sequence, kind, g.draws)]
                 && h.toSerial == g.toSerial + [Request(kind, id, |g.accepted|, fits)]
                 && (h.sessions == g.sessions || h.sessions == g.sessions[id := Session(p.sequence, 0, |g.accepted|)])
  {
    var h := OnRead(g, p);
    if g.login == Registered && !InUse(g.sessions, p.sequence) && p.body.Ask? {
      assert h.toSerial == g.toSerial + [Request(p.body.kind, Draw(1, MAX_ID, g.last).0, |g.accepted|, p.replyFits)];
    }
  }

  lemma LooseReceive(g: Gateway, p: Push)
    requires Loose(g)
    ensures Loose(OnRead(g, p))
  {
    var h := OnRead(g, p);
    DrawIs(g);
    ReadOutcomes(g, p);
    hide OnRead, IdOf, Draw, Traced;
    if |h.accepted| > |g.accepted| {
      StillFit(g.accepted, h.accepted);
      assert MessageFits(h.accepted, h.toSerial[|g.toSerial|]);
      assert forall i :: 0 <= i < |g.toSerial| ==> h.toSerial[i] == g.toSerial[i];
      forall id | id in h.sessions
        ensures SessionFits(h.accepted, id, h.sessions[id])
      {
        if id in g.sessions {
          assert SessionFits(g.accepted, id, g.sessions[id]);
        }
      }
      hide MessageFits, SessionFits;
    }
  }

  /** The two draws lie whole cycles of the generator apart, and at least one. */
  predicate CyclesApart(a: nat, b: nat) {
    a != b && (a - b) % MAX_ID == 0
  }

  lemma SameIdMeans(a: nat, b: nat)
    ensures IdOf(a) == IdOf(b) <==> a == b || CyclesApart(a, b)
  {
  }

  /**
   * A traced reply goes wrong exactly if the session that it was
   * sent for is whole cycles away from the request answered.
   */
  lemma GoesWrongExactly(g: Gateway, r: Reply)
    requires DrawsFit(g) && Traced(g.accepted, r)
    ensures !ReplyFits(g.accepted, r) <==> CyclesApart(g.accepted[r.ticket].draw, g.accepted[r.origin].draw)
  {
    SameIdMeans(g.accepted[r.ticket].draw, g.accepted[r.origin].draw);
    if r.ticket < r.origin {
      assert g.accepted[r.ticket].draw < g.accepted[r.origin].draw;
    } else if r.origin < r.ticket {
      assert g.accepted[r.origin].draw < g.accepted[r.ticket].draw;
    }
  }

  /**
   * In every run, paced or not: a reply fails to fit its request if and only if whole cycles of the generator lie
   * between the request whose session it found and the request that it is the response to.
   */
  lemma {:induction false} RepliesGoWrongExactly(g: Gateway, events: seq<Event>)
    requires Loose(g)
    ensures var h := Run(g, events);
            && Loose(h)
            && forall i :: 0 <= i < |h.sent| ==>
                 (!ReplyFits(h.accepted, h.sent[i])
                  <==> CyclesApart(h.accepted[h.sent[i].ticket].draw, h.accepted[h.sent[i].origin].draw))
    decreases |events|
  {
    if events == [] {
      forall i | 0 <= i < |g.sent|
        ensures !ReplyFits(g.accepted, g.sent[i])
           <==> CyclesApart(g.accepted[g.sent[i].ticket].draw, g.accepted[g.sent[i].origin].draw)
      {
        GoesWrongExactly(g, g.sent[i]);
      }
    } else {
      LooseStep(g, events[0]);
      RepliesGoWrongExactly(Step(g, events[0]), events[1..]);
    }
  }

  /** No request owns two sessions, gets two replies, or has a session left once it got its reply. */
  ghost predicate OwnOnce(g: Gateway) {
    && (forall a, b :: a in g.sessions && b in g.sessions && a != b ==> g.sessions[a].ticket != g.sessions[b].ticket)
    && (forall i, j :: 0 <= i < j < |g.sent| ==> g.sent[i].ticket != g.sent[j].ticket)
    && (forall id, i :: id in g.sessions && 0 <= i < |g.sent| ==> g.sessions[id].ticket != g.sent[i].ticket)
  }

  lemma OwnOnceStep(g: Gateway, e: Event)
    requires Loose(g) && OwnOnce(g)
    ensures OwnOnce(Step(g, e))
  {
    match e {
      case Receive(p) => OwnOnceReceive(g, p);
      case TakeGateway => OwnOnceTakeGateway(g);
      case _ =>
        hide MessageFits, SessionFits, Traced, InUse, DrawsFit, Directed;
    }
  }

  lemma OwnOnceTakeGateway(g: Gateway)
    requires g.last <= MAX_ID + 1 && OwnOnce(g)
    ensures OwnOnce(Step(g, TakeGateway))
  {
  }

  lemma OwnOnceReceive(g: Gateway, p: Push)
    requires Loose(g) && OwnOnce(g)
    ensures OwnOnce(OnRead(g, p))
  {
    ReadOutcomes(g, p);
    hide OnRead, Draw, MessageFits;
  }

  /** In every run, paced or not, no request is answered twice. */
  lemma {:induction false} NeverTwice(g: Gateway, events: seq<Event>)
    requires Loose(g) && OwnOnce(g)
    ensures OwnOnce(Run(g, events))
    decreases |events|
  {
    if events != [] {
      LooseStep(g, events[0]);
      OwnOnceStep(g, events[0]);
      NeverTwice(Step(g, events[0]), events[1..]);
    }
  }

  /**
   * In every run, paced or not, the server can rely on the replies if and only if none of them comes from a session and
   * a response that were drawn whole cycles of the generator apart.
   */
  lemma InEveryRun(events: seq<Event>)
    ensures var h := Run(START, events);
            && OwnOnce(h)
            && (forall i :: 0 <= i < |h.sent| ==> Traced(h.accepted, h.sent[i]))
            && (Correlated(h) <==>
                  forall i :: 0 <= i < |h.sent| ==>
                    !CyclesApart(h.accepted[h.sent[i].ticket].draw, h.accepted[h.sent[i].origin].draw))
  {
    RepliesGoWrongExactly(START, events);
    NeverTwice(START, events);
  }

  // ---------------------------------------------------------------- the step that goes wrong

  predicate AllFit(g: Gateway) {
    forall i :: 0 <= i < |g.sent| ==> ReplyFits(g.accepted, g.sent[i])
  }

  /**
   * The response at the front will be sent, and finds a session under its number whose request was drawn whole cycles
   * of the generator earlier or later.
   */
  predicate Clash(g: Gateway) {
    g.toGateway != [] &&
    var m := g.toGateway[0];
    m.Response? && m.fits && m.num in g.sessions &&
    var s := g.sessions[m.num];
    s.ticket < |g.accepted| && m.ticket < |g.accepted|
    && CyclesApart(g.accepted[s.ticket].draw, g.accepted[m.ticket].draw)
  }

  /** As long as all replies fit, the next one goes wrong exactly in a clash. */
  lemma TakeGatewayGoesWrongExactly(g: Gateway)
    requires Loose(g) && AllFit(g)
    ensures AllFit(Step(g, TakeGateway)) <==> !Clash(g)
  {
    var h := Step(g, TakeGateway);
    if |h.sent| > |g.sent| {
      var m := g.toGateway[0];
      var r := h.sent[|g.sent|];
      assert MessageFits(g.accepted, m) && SessionFits(g.accepted, m.num, g.sessions[m.num]);
      GoesWrongExactly(g, r);
      assert forall i :: 0 <= i < |g.sent| ==> h.sent[i] == g.sent[i];
    }
  }

  /** No other step decides about a reply, and a wrong reply stays wrong. */
  lemma OthersDoNotDecide(g: Gateway, e: Event)
    requires Loose(g)
    ensures !e.TakeGateway? ==> (AllFit(Step(g, e)) <==> AllFit(g))
    ensures !AllFit(g) ==> !AllFit(Step(g, e))
  {
    var h := Step(g, e);
    assert g.accepted <= h.accepted && g.sent <= h.sent by {
      hide Draw, InUse;
    }
    assert !e.TakeGateway? ==> h.sent == g.sent;
    forall i | 0 <= i < |g.sent|
      ensures h.sent[i] == g.sent[i] && (ReplyFits(h.accepted, h.sent[i]) <==> ReplyFits(g.accepted, g.sent[i]))
    {
      assert Traced(g.accepted, g.sent[i]);
    }
  }

  /** No message is taken out of the gateway's queue in a clash. */
  ghost predicate ClashFree(g: Gateway, events: seq<Event>)
    requires g.last <= MAX_ID + 1
  {
    forall i :: 0 <= i < |events| && events[i].TakeGateway? ==> !Clash(Run(g, events[..i]))
  }

  lemma ClashFreeFrom(g: Gateway, events: seq<Event>)
    requires g.last <= MAX_ID + 1 && events != []
    ensures Step(g, events[0]).last <= MAX_ID + 1
    ensures ClashFree(g, events) <==>
              (events[0].TakeGateway? ==> !Clash(g)) && ClashFree(Step(g, events[0]), events[1..])
  {
    hide Clash, Step;
    var rest := events[1..];
    StepKeepsLast(g, events[0]);
    assert events[..0] == [];
    forall i | 0 <= i < |rest|
      ensures events[i + 1] == rest[i] && Run(g, events[..i + 1]) == Run(Step(g, events[0]), rest[..i])
    {
      assert events[..i + 1][1..] == rest[..i];
    }
    if ClashFree(g, events) {
      forall i | 0 <= i < |rest| && rest[i].TakeGateway?
        ensures !Clash(Run(Step(g, events[0]), rest[..i]))
      {
        assert events[i + 1].TakeGateway?;
      }
    }
    if ClashFree(Step(g, events[0]), rest) && (events[0].TakeGateway? ==> !Clash(g)) {
      forall i | 0 <= i < |events| && events[i].TakeGateway?
        ensures !Clash(Run(g, events[..i]))
      {
        if i > 0 {
          assert rest[i - 1].TakeGateway?;
        }
      }
    }
  }

  lemma {:induction false} ClashesDecideFrom(g: Gateway, events: seq<Event>)
    requires Loose(g)
    ensures AllFit(Run(g, events)) <==> AllFit(g) && ClashFree(g, events)
    decreases |events|
  {
    hide AllFit, Clash, Step, MessageFits, SessionFits, Traced;
    if events != [] {
      ClashFreeFrom(g, events);
      LooseStep(g, events[0]);
      OthersDoNotDecide(g, events[0]);
      if AllFit(g) {
        TakeGatewayGoesWrongExactly(g);
      }
      ClashesDecideFrom(Step(g, events[0]), events[1..]);
    }
  }

  /** The server can rely on the replies of a run exactly if no step of it takes a response in a clash. */
  lemma ClashesDecide(events: seq<Event>)
    ensures Correlated(Run(START, events)) <==> ClashFree(START, events)
  {
    NeverTwice(START, events);
    ClashesDecideFrom(START, events);
  }

  // ---------------------------------------------------------------- nothing is lost

  /** The request is under way, its session is open and its reply will fit. */
  ghost predicate Pending(g: Gateway, ticket: nat) {
    HasSession(g, ticket)
    && exists i :: 0 <= i < |OnTheWay(g)| && IsFor(OnTheWay(g)[i], ticket)
  }

  predicate IsFor(m: Inner, ticket: nat) {
    Ticketed(m) && m.ticket == ticket && m.fits
  }

  predicate Answered(g: Gateway, ticket: nat) {
    exists i :: 0 <= i < |g.sent| && g.sent[i].ticket == ticket
  }

  /**
   * The event takes the request its answer: the serial module holds
   * a bind session of its number, or the sweep ends its session.
   */
  predicate Disturbs(g: Gateway, e: Event, ticket: nat)
    requires HasSession(g, ticket)
  {
    var id := IdOf(g.accepted[ticket].draw);
    match e
    case TakeSerial => g.bound.Some? && g.bound.value.0 == id
    case Tick(delta) => Expires(g.sessions[id].touch, delta, FGW_CLIENT_SESSION_TIMEOUT)
    case _ => false
  }

  lemma StillThere(h: Gateway, ticket: nat, j: nat)
    requires HasSession(h, ticket) && j < |OnTheWay(h)| && IsFor(OnTheWay(h)[j], ticket)
    ensures Pending(h, ticket)
  {
  }

  lemma PendingOnReceive(g: Gateway, p: Push, ticket: nat, i: nat)
    requires HasSession(g, ticket) && i < |OnTheWay(g)| && IsFor(OnTheWay(g)[i], ticket) && g.last <= MAX_ID + 1
    ensures Pending(OnRead(g, p), ticket)
  {
    var h, k := OnRead(g, p), |g.toSerial|;
    StillThere(h, ticket, if i < k then i else i + |h.toSerial| - k);
  }

  lemma PendingOnTakeSerial(g: Gateway, ticket: nat, i: nat)
    requires HasSession(g, ticket) && i < |OnTheWay(g)| && IsFor(OnTheWay(g)[i], ticket) && g.last <= MAX_ID + 1
    requires Directed(g) && MessageFits(g.accepted, OnTheWay(g)[i]) && !Disturbs(g, TakeSerial, ticket)
    ensures Pending(Step(g, TakeSerial), ticket)
  {
    var h, k := Step(g, TakeSerial), |g.toSerial|;
    StillThere(h, ticket, if k == 0 then i else if i > 0 then i - 1 else |OnTheWay(h)| - 1);
  }

  lemma PendingOnTick(g: Gateway, delta: int, ticket: nat, i: nat)
    requires HasSession(g, ticket) && i < |OnTheWay(g)| && IsFor(OnTheWay(g)[i], ticket) && g.last <= MAX_ID + 1
    requires !Disturbs(g, Tick(delta), ticket)
    ensures Pending(Step(g, Tick(delta)), ticket)
  {
    var h := Step(g, Tick(delta));
    StillThere(h, ticket, i);
  }

  lemma PendingMoves(g: Gateway, e: Event, ticket: nat)
    requires Inv(g) && InWindow(g) && Pending(g, ticket) && !Disturbs(g, e, ticket)
    ensures Pending(Step(g, e), ticket) || Answered(Step(g, e), ticket)
  {
    var h, k := Step(g, e), |g.toSerial|;
    var i :| 0 <= i < |OnTheWay(g)| && IsFor(OnTheWay(g)[i], ticket);
    assert MessageFits(g.accepted, OnTheWay(g)[i]);
    assert Directed(g) && g.last <= MAX_ID + 1;
    hide Inv, InWindow;
    match e {
      case Receive(p) => PendingOnReceive(g, p, ticket, i);
      case Foreign(num, lineUp) => StillThere(h, ticket, if i < k then i else i + 1);
      case TakeSerial => PendingOnTakeSerial(g, ticket, i);
      case TakeGateway =>
        if g.toGateway != [] {
          TakeOneOf(g, i, ticket);
        }
      case Tick(delta) => PendingOnTick(g, delta, ticket, i);
      case _ => StillThere(h, ticket, i);
    }
  }

  lemma TakeOneOf(g: Gateway, i: nat, ticket: nat)
    requires Inv(g) && InWindow(g) && g.toGateway != [] && HasSession(g, ticket)
    requires i < |OnTheWay(g)| && IsFor(OnTheWay(g)[i], ticket)
    ensures var h := Step(g, TakeGateway); Pending(h, ticket) || Answered(h, ticket)
  {
    hide MessageFits, SessionFits, OneExt, ReplyFits, AnsweredOnce, InWindow, IdOf;
    var h, k, m := Step(g, TakeGateway), |g.toSerial|, g.toGateway[0];
    assert OnTheWay(g)[k] == m;
    LateResponseIsDropped(g);
    if i == k {
      assert h.sent[|g.sent|].ticket == ticket;
    } else {
      assert m.ticket != ticket && m.Response?;
      if m.num in g.sessions {
        ResponseMeetsItsSession(g);
      }
      hide Inv, InWindow;
      StillThere(h, ticket, if i < k then i else i - 1);
    }
  }

  /** Nothing takes the request its answer before it gets one. */
  ghost predicate Undisturbed(g: Gateway, events: seq<Event>, ticket: nat)
    requires g.last <= MAX_ID + 1
    decreases |events|
  {
    Answered(g, ticket) || events == []
    || (HasSession(g, ticket) && !Disturbs(g, events[0], ticket)
        && (StepKeepsLast(g, events[0]); Undisturbed(Step(g, events[0]), events[1..], ticket)))
  }

  lemma {:induction false} AnswersStay(g: Gateway, events: seq<Event>, ticket: nat)
    requires g.last <= MAX_ID + 1 && Answered(g, ticket)
    ensures Answered(Run(g, events), ticket)
    decreases |events|
  {
    if events != [] {
      StepKeepsLast(g, events[0]);
      var i :| 0 <= i < |g.sent| && g.sent[i].ticket == ticket;
      assert Step(g, events[0]).sent[i] == g.sent[i];
      AnswersStay(Step(g, events[0]), events[1..], ticket);
    }
  }

  /** A pending request that nothing disturbs has its reply by the time that the queues are empty. */
  lemma {:induction false} NothingIsLost(g: Gateway, events: seq<Event>, ticket: nat)
    requires Inv(g) && Paced(g, events) && Pending(g, ticket) && Undisturbed(g, events, ticket)
    ensures Pending(Run(g, events), ticket) || Answered(Run(g, events), ticket)
    ensures OnTheWay(Run(g, events)) == [] ==> Answered(Run(g, events), ticket)
    decreases |events|
  {
    if Answered(g, ticket) {
      AnswersStay(g, events, ticket);
    } else if events != [] {
      var h := Step(g, events[0]);
      StepKeepsLast(g, events[0]);
      StepKeeps(g, events[0]);
      PendingMoves(g, events[0], ticket);
      if Answered(h, ticket) {
        AnswersStay(h, events[1..], ticket);
      } else {
        NothingIsLost(h, events[1..], ticket);
      }
    }
  }

  /** A request whose reply fits is pending from the moment that it is accepted. */
  lemma AcceptedIsPending(g: Gateway, p: Push)
    requires Inv(g) && InWindow(Step(g, Receive(p)))
    requires g.login == Registered && !InUse(g.sessions, p.sequence) && p.body.Ask? && p.replyFits
    ensures Pending(Step(g, Receive(p)), |g.accepted|)
  {
    var h := Step(g, Receive(p));
    DrawIs(g);
    NewNumberIsFree(g, h);
    assert IsFor(OnTheWay(h)[|g.toSerial|], |g.accepted|);
  }

  // ---------------------------------------------------------------- the life of a session

  /** The time that passes on the gateway's timer. */
  function Elapsed(events: seq<Event>): int {
    if events == [] then 0 else (if events[0].Tick? then events[0].delta else 0) + Elapsed(events[1..])
  }

  /** Time does not run backwards, and the session gets no answer. */
  ghost predicate Unanswered(g: Gateway, events: seq<Event>, id: uint32)
    requires g.last <= MAX_ID + 1
    decreases |events|
  {
    events == []
    || (&& (events[0].Tick? ==> events[0].delta >= 0)
        && (events[0] == TakeGateway && g.toGateway != [] ==> g.toGateway[0].num != id)
        && (StepKeepsLast(g, events[0]); Unanswered(Step(g, events[0]), events[1..], id)))
  }

  /** The session under this number is the one of the ticket, or there is none of the ticket any more. */
  predicate Lives(g: Gateway, id: uint32, ticket: nat) {
    id in g.sessions && g.sessions[id].ticket == ticket
  }

  lemma {:induction false} GoneStaysGone(g: Gateway, events: seq<Event>, id: uint32, ticket: nat)
    requires g.last <= MAX_ID + 1 && ticket < |g.accepted| && !Lives(g, id, ticket)
    ensures !Lives(Run(g, events), id, ticket)
    decreases |events|
  {
    if events != [] {
      StepKeepsLast(g, events[0]);
      GoneStaysGone(Step(g, events[0]), events[1..], id, ticket);
    }
  }

  lemma ElapsedGrows(g: Gateway, events: seq<Event>, id: uint32)
    requires g.last <= MAX_ID + 1 && Unanswered(g, events, id)
    ensures Elapsed(events) >= 0
    decreases |events|
  {
    if events != [] {
      StepKeepsLast(g, events[0]);
      ElapsedGrows(Step(g, events[0]), events[1..], id);
    }
  }

  /** Whatever else happens, an unanswered session is there exactly as long as its age is within the timeout. */
  lemma {:induction false} SessionAges(g: Gateway, events: seq<Event>, id: uint32)
    requires g.last <= MAX_ID + 1 && id in g.sessions && Unanswered(g, events, id)
    requires g.sessions[id].ticket < |g.accepted| && g.sessions[id].touch <= FGW_CLIENT_SESSION_TIMEOUT
    ensures Lives(Run(g, events), id, g.sessions[id].ticket)
       <==> g.sessions[id].touch + Elapsed(events) <= FGW_CLIENT_SESSION_TIMEOUT
    decreases |events|
  {
    if events != [] {
      var h := Step(g, events[0]);
      StepKeepsLast(g, events[0]);
      ElapsedGrows(h, events[1..], id);
      if id in h.sessions {
        SessionAges(h, events[1..], id);
      } else {
        GoneStaysGone(h, events[1..], id, g.sessions[id].ticket);
      }
    }
  }

  lemma ElapsedSame(n: nat, delta: nat)
    ensures Elapsed(seq(n, _ => Tick(delta))) == n * delta
  {
    if n > 0 {
      assert seq(n, _ => Tick(delta))[1..] == seq(n - 1, _ => Tick(delta));
      ElapsedSame(n - 1, delta);
    }
  }

  lemma {:induction false} TicksAnswerNothing(g: Gateway, n: nat, delta: nat, id: uint32)
    requires g.last <= MAX_ID + 1
    ensures Unanswered(g, seq(n, _ => Tick(delta)), id)
    decreases n
  {
    if n > 0 {
      var events := seq(n, _ => Tick(delta));
      assert events[1..] == seq(n - 1, _ => Tick(delta));
      TicksAnswerNothing(Step(g, events[0]), n - 1, delta, id);
    }
  }

  /** A new session survives as many equal sweeps as fit the timeout, and not one more. */
  lemma SurvivesSoManySweeps(g: Gateway, id: uint32, delta: nat)
    requires g.last <= MAX_ID + 1 && id in g.sessions && g.sessions[id].touch == 0
    requires g.sessions[id].ticket < |g.accepted| && delta > 0
    ensures var n, t := FGW_CLIENT_SESSION_TIMEOUT / delta, g.sessions[id].ticket;
            && Lives(Run(g, seq(n, _ => Tick(delta))), id, t)
            && !Lives(Run(g, seq(n + 1, _ => Tick(delta))), id, t)
  {
    hide Run, Lives;
    var n := FGW_CLIENT_SESSION_TIMEOUT / delta;
    SweepsLeave(g, id, delta, n);
    SweepsLeave(g, id, delta, n + 1);
    assert FGW_CLIENT_SESSION_TIMEOUT == n * delta + FGW_CLIENT_SESSION_TIMEOUT % delta;
    assert (n + 1) * delta == n * delta + delta;
  }

  lemma SweepsLeave(g: Gateway, id: uint32, delta: nat, n: nat)
    requires g.last <= MAX_ID + 1 && id in g.sessions && g.sessions[id].touch == 0
    requires g.sessions[id].ticket < |g.accepted|
    ensures Lives(Run(g, seq(n, _ => Tick(delta))), id, g.sessions[id].ticket)
       <==> n * delta <= FGW_CLIENT_SESSION_TIMEOUT
  {
    hide Run, Elapsed, Unanswered, Lives;
    var events := seq(n, _ => Tick(delta));
    TicksAnswerNothing(g, n, delta, id);
    ElapsedSame(n, delta);
    SessionAges(g, events, id);
  }

  // ---------------------------------------------------------------- the life of a bind session

  /** The time that passes on the serial module's timer. */
  function ElapsedSerial(events: seq<Event>): int {
    if events == [] then 0 else (if events[0].TickSerial? then events[0].delta else 0) + ElapsedSerial(events[1..])
  }

  predicate NoAnswer(events: seq<Event>) {
    forall i :: 0 <= i < |events| ==> events[i] != DeviceAnswers(0) && (events[i].TickSerial? ==> events[i].delta >= 0)
  }

  lemma ElapsedSerialGrows(events: seq<Event>)
    requires NoAnswer(events)
    ensures ElapsedSerial(events) >= 0
  {
    if events != [] {
      assert NoAnswer(events[1..]) by {
        assert forall i :: 0 <= i < |events[1..]| ==> events[1..][i] == events[i + 1];
      }
      ElapsedSerialGrows(events[1..]);
    }
  }

  /**
   * Whatever else happens, a bind session that no device answers
   * stays, and no other takes its place, for its whole time.
   */
  lemma {:induction false} BindSessionStays(g: Gateway, events: seq<Event>)
    requires g.last <= MAX_ID + 1 && g.bound.Some? && NoAnswer(events)
    requires g.bound.value.1 + ElapsedSerial(events) <= ZIGBEE_CLIENT_SESSION_TIMEOUT
    ensures Run(g, events).bound == Some((g.bound.value.0, g.bound.value.1 + ElapsedSerial(events)))
    decreases |events|
  {
    if events != [] {
      assert NoAnswer(events[1..]) by {
        assert forall i :: 0 <= i < |events[1..]| ==> events[1..][i] == events[i + 1];
      }
      StepKeepsLast(g, events[0]);
      ElapsedSerialGrows(events[1..]);
      BindSessionStays(Step(g, events[0]), events[1..]);
    }
  }

  /** Equal sweeps age the bind session up to its timeout and end it with the next one. */
  lemma {:induction false} BindSweeps(g: Gateway, n: nat, delta: nat)
    requires g.last <= MAX_ID + 1 && delta > 0
    requires g.bound.Some? ==> g.bound.value.1 <= ZIGBEE_CLIENT_SESSION_TIMEOUT
    ensures Run(g, seq(n, _ => TickSerial(delta))).bound
         == if g.bound.Some? && g.bound.value.1 + n * delta <= ZIGBEE_CLIENT_SESSION_TIMEOUT
            then Some((g.bound.value.0, g.bound.value.1 + n * delta)) else None
    decreases n
  {
    if n > 0 {
      var events := seq(n, _ => TickSerial(delta));
      var h := Step(g, TickSerial(delta));
      assert events[1..] == seq(n - 1, _ => TickSerial(delta)) && events[0] == TickSerial(delta);
      BindSweeps(h, n - 1, delta);
      assert Run(g, events) == Run(h, events[1..]);
      assert n * delta == (n - 1) * delta + delta && (n - 1) * delta >= 0;
    }
  }

  /** A new bind session survives as many equal sweeps as fit its timeout, and not one more. */
  lemma BindSurvivesSoManySweeps(g: Gateway, num: uint32, delta: nat)
    requires g.last <= MAX_ID + 1 && g.bound == Some((num, 0)) && delta > 0
    ensures var n := ZIGBEE_CLIENT_SESSION_TIMEOUT / delta;
            && Run(g, seq(n, _ => TickSerial(delta))).bound == Some((num, n * delta))
            && Run(g, seq(n + 1, _ => TickSerial(delta))).bound == None
  {
    hide Run;
    var n := ZIGBEE_CLIENT_SESSION_TIMEOUT / delta;
    BindSweeps(g, n, delta);
    BindSweeps(g, n + 1, delta);
    assert ZIGBEE_CLIENT_SESSION_TIMEOUT == n * delta + ZIGBEE_CLIENT_SESSION_TIMEOUT % delta;
    assert (n + 1) * delta == n * delta + delta;
  }

  // ---------------------------------------------------------------- the window is needed

  lemma {:induction false} RunConcat(g: Gateway, a: seq<Event>, b: seq<Event>)
    requires g.last <= MAX_ID + 1
    ensures Run(g, a + b) == Run(Run(g, a), b)
    decreases |a|
  {
    if a == [] {
      assert a + b == b;
    } else {
      assert (a + b)[1..] == a[1..] + b;
      StepKeepsLast(g, a[0]);
      RunConcat(Step(g, a[0]), a[1..], b);
    }
  }

  const UNKNOWN := Receive(Push(Other, 9, true))

  /** A message without a request only uses up a number. */
  lemma {:induction false} UnknownsDraw(g: Gateway, n: nat)
    requires g.login == Registered && g.sessions == map[] && g.last + n <= MAX_ID + 1
    ensures Run(g, seq(n, _ => UNKNOWN)) == g.(last := g.last + n, draws := g.draws + n)
    decreases n
  {
    if n > 0 {
      var events := seq(n, _ => UNKNOWN);
      assert events[1..] == seq(n - 1, _ => UNKNOWN);
      UnknownsDraw(Step(g, UNKNOWN), n - 1);
    }
  }

  lemma RunNothing(g: Gateway)
    requires g.last <= MAX_ID + 1
    ensures Run(g, []) == g
  {
  }

  lemma RunFirst(g: Gateway, e: Event, rest: seq<Event>)
    requires g.last <= MAX_ID + 1
    ensures Step(g, e).last <= MAX_ID + 1 && Run(g, [e] + rest) == Run(Step(g, e), rest)
  {
    assert ([e] + rest)[1..] == rest;
  }

  const LOGGED_IN := Receive(Push(LoginRsp(0), 0, true))
  const FIRST := Receive(Push(Ask(DevInfo), 1, true))
  const SECOND := Receive(Push(Ask(SetInfo), 2, true))

  /** A response waits whose session has expired. */
  const WAITING :=
    Gateway(Registered, 2, 1, map[], [Accepted(1, DevInfo, 0)], [], [Response(DevInfo, 1, 0, true)], None, [])

  lemma ResponseWaits(rest: seq<Event>)
    ensures exists events :: Run(START, events) == Run(WAITING, rest)
  {
    hide Run;
    var g := Step(Step(START, Connected), LOGGED_IN);
    assert Step(Step(Step(g, FIRST), TakeSerial), Tick(10001)) == WAITING;
    var r1 := [Tick(10001)] + rest;
    var r2 := [TakeSerial] + r1;
    var r3 := [FIRST] + r2;
    var r4 := [LOGGED_IN] + r3;
    RunFirst(Step(Step(g, FIRST), TakeSerial), Tick(10001), rest);
    RunFirst(Step(g, FIRST), TakeSerial, r1);
    RunFirst(g, FIRST, r2);
    RunFirst(Step(START, Connected), LOGGED_IN, r3);
    RunFirst(START, Connected, r4);
  }

  lemma WrongReply(g: Gateway)
    requires g == WAITING.(last := MAX_ID + 1, draws := MAX_ID)
    ensures Step(g, SECOND).last <= MAX_ID + 1 && !Correlated(Step(Step(g, SECOND), TakeGateway))
  {
    var h := Step(Step(g, SECOND), TakeGateway);
    assert h.sent == [Reply(2, DevInfo, 1, 0)];
    assert !ReplyFits(h.accepted, h.sent[0]);
  }

  /** If all numbers are drawn while a response is waiting, the reply to a later request can be of the wrong kind. */
  lemma WithoutTheWindow()
    ensures exists events :: !Correlated(Run(START, events))
  {
    hide Run, Step, Correlated;
    var many, rest := seq(MAX_ID - 1, _ => UNKNOWN), [SECOND] + ([TakeGateway] + []);
    var g := WAITING.(last := MAX_ID + 1, draws := MAX_ID);
    WrongReply(g);
    UnknownsDraw(WAITING, MAX_ID - 1);
    RunConcat(WAITING, many, rest);
    RunFirst(g, SECOND, [TakeGateway] + []);
    RunFirst(Step(g, SECOND), TakeGateway, []);
    RunNothing(Step(Step(g, SECOND), TakeGateway));
    ResponseWaits(many + rest);
  }
}
