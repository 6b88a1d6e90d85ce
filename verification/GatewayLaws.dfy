/** What a step of the gateway needs: which events change which part of it, and that the login guards the requests. */
module GatewayLaws {
  import opened Bytes
  import opened Generator
  import opened GatewaySpec

  // ---------------------------------------------------------------- single steps

  /** A login response with code 0. */
  predicate Admits(e: Event) {
    e.Receive? && e.push.body.LoginRsp? && e.push.body.code == 0
  }

  /** The login changes by connecting, and by a login response with code 0 while one is waited for; by nothing else. */
  lemma LoginChangesExactly(g: Gateway, e: Event)
    requires g.last <= MAX_ID + 1
    ensures var h := Step(g, e);
            && (h.login == Registered <==>
                  (g.login == Registered && !e.Connected?) || (g.login == WaitForServer && Admits(e)))
            && (h.login == Unregistered <==> g.login == Unregistered && !e.Connected?)
  {
  }

  /** A request is accepted. */
  predicate Accepts(g: Gateway, e: Event) {
    && g.login == Registered && e.Receive? && e.push.body.Ask?
    && forall id :: id in g.sessions ==> g.sessions[id].ext != e.push.sequence
  }

  /**
   * Exactly a request under an unused external number, received after the login, is accepted: it is recorded and goes
   * to the end of the serial module's queue.
   */
  lemma AcceptsExactly(g: Gateway, e: Event)
    requires g.last <= MAX_ID + 1
    ensures var h := Step(g, e);
            && (h.accepted != g.accepted <==> Accepts(g, e))
            && (Accepts(g, e) ==>
                  && h.accepted == g.accepted + [Accepted(e.push.sequence, e.push.body.kind, g.draws)]
                  && |h.toSerial| == |g.toSerial| + 1 && h.toSerial[..|g.toSerial|] == g.toSerial
                  && var m := h.toSerial[|g.toSerial|];
                     && m.Request? && m.kind == e.push.body.kind && m.num == Draw(1, MAX_ID, g.last).0
                     && m.ticket == |g.accepted| && m.fits == e.push.replyFits)
  {
    var h := Step(g, e);
    if Accepts(g, e) {
      assert !InUse(g.sessions, e.push.sequence);
      assert |h.accepted| == |g.accepted| + 1;
    }
  }

  /** Whatever the server sends before the login is over changes the login at most. */
  lemma NothingBeforeTheLogin(g: Gateway, p: Push)
    requires g.last <= MAX_ID + 1 && g.login != Registered
    ensures Step(g, Receive(p)) == g.(login := Step(g, Receive(p)).login)
  {
  }

  /** A number is drawn exactly for a message that comes after the login under an unused external number. */
  lemma DrawsExactly(g: Gateway, e: Event)
    requires g.last <= MAX_ID + 1
    ensures Step(g, e).draws
         == g.draws + if g.login == Registered && e.Receive? && !InUse(g.sessions, e.push.sequence) then 1 else 0
  {
  }

  /** What the gateway does with the first message of its own queue sends a reply. */
  predicate Replies(g: Gateway, e: Event) {
    e.TakeGateway? && g.toGateway != [] && g.toGateway[0].Response? && g.toGateway[0].fits
    && g.toGateway[0].num in g.sessions
  }

  /** A reply is sent exactly for a response that fits and finds a session under its number. */
  lemma RepliesExactly(g: Gateway, e: Event)
    requires g.last <= MAX_ID + 1
    ensures var h := Step(g, e);
            && (h.sent != g.sent <==> Replies(g, e))
            && (Replies(g, e) ==>
                  && |h.sent| == |g.sent| + 1 && h.sent[..|g.sent|] == g.sent
                  && var m, r := g.toGateway[0], h.sent[|g.sent|];
                     r.ext == g.sessions[m.num].ext && r.kind == m.kind && r.ticket == g.sessions[m.num].ticket)
  {
    var h := Step(g, e);
    assert Replies(g, e) ==> |h.sent| == |g.sent| + 1;
  }

  /** A session ends exactly if a message with its number is taken, or if a sweep brings its age over 10000. */
  lemma SessionsEndExactly(g: Gateway, e: Event, id: uint32)
    requires g.last <= MAX_ID + 1 && id in g.sessions
    ensures id !in Step(g, e).sessions <==>
              || (e.TakeGateway? && g.toGateway != [] && g.toGateway[0].num == id)
              || (e.Tick? && g.sessions[id].touch + e.delta > 10000)
    ensures id in Step(g, e).sessions ==>
              Step(g, e).sessions[id]
              == g.sessions[id].(touch := g.sessions[id].touch + if e.Tick? then e.delta else 0)
  {
  }

  /** A session begins only for an accepted request, at age 0. */
  lemma SessionsBeginExactly(g: Gateway, e: Event, id: uint32)
    requires g.last <= MAX_ID + 1 && id !in g.sessions
    ensures id in Step(g, e).sessions <==> Accepts(g, e) && id == Draw(1, MAX_ID, g.last).0
    ensures id in Step(g, e).sessions ==> Step(g, e).sessions[id] == Session(e.push.sequence, 0, |g.accepted|)
  {
    if Accepts(g, e) {
      assert !InUse(g.sessions, e.push.sequence);
    }
  }

  /** The first message of the serial module's queue. */
  predicate SerialTakes(g: Gateway, e: Event, m: Inner) {
    e.TakeSerial? && g.toSerial != [] && g.toSerial[0] == m
  }

  /**
   * The serial module answers exactly the requests: each one for the device list, and each other one that does not have
   * the number of the open bind session.
   */
  lemma SerialAnswersExactly(g: Gateway, e: Event)
    requires g.last <= MAX_ID + 1
    ensures var h := Step(g, e);
            |h.toGateway| > |g.toGateway| <==>
              exists kind, num, ticket, fits ::
                && SerialTakes(g, e, Request(kind, num, ticket, fits))
                && (kind == DevList || g.bound == None || g.bound.value.0 != num)
    ensures forall kind, num, ticket, fits :: SerialTakes(g, e, Request(kind, num, ticket, fits)) ==>
              || Step(g, e).toGateway == g.toGateway
              || Step(g, e).toGateway == g.toGateway + [Response(kind, num, ticket, fits)]
  {
    if e.TakeSerial? && g.toSerial != [] && g.toSerial[0].Request? {
      var m := g.toSerial[0];
      assert SerialTakes(g, e, Request(m.kind, m.num, m.ticket, m.fits));
    }
  }

  /** A bind session begins exactly if none is open and a bind request is taken while the line is up. */
  lemma BindBeginsExactly(g: Gateway, e: Event)
    requires g.last <= MAX_ID + 1 && g.bound == None
    ensures Step(g, e).bound.Some? <==> exists num: uint32 :: SerialTakes(g, e, BindRequest(num, true))
    ensures forall num: uint32 :: SerialTakes(g, e, BindRequest(num, true)) ==> Step(g, e).bound == Some((num, 0))
  {
    if e.TakeSerial? && g.toSerial != [] && g.toSerial[0].BindRequest? && g.toSerial[0].lineUp {
      assert SerialTakes(g, e, BindRequest(g.toSerial[0].num, true));
    }
  }

  /** It ends exactly if the device with address 0 answers, or if a sweep brings it over 8000. */
  lemma BindEndsExactly(g: Gateway, e: Event)
    requires g.last <= MAX_ID + 1 && g.bound.Some?
    ensures Step(g, e).bound == None <==>
              || (e.DeviceAnswers? && e.addr == 0)
              || (e.TickSerial? && g.bound.value.1 + e.delta > 8000)
    ensures Step(g, e).bound.Some? ==>
              Step(g, e).bound.value == (g.bound.value.0, g.bound.value.1 + if e.TickSerial? then e.delta else 0)
  {
  }

  /** Queues change at their ends only: messages go in behind, requests and bind requests into the serial module's. */
  lemma QueuesChangeAtTheirEnds(g: Gateway, e: Event)
    requires g.last <= MAX_ID + 1
    ensures var h := Step(g, e);
            && (if e.TakeSerial? then g.toSerial != [] ==> h.toSerial == g.toSerial[1..]
                else if e.Foreign? then h.toSerial == g.toSerial + [BindRequest(e.num, e.lineUp)]
                else g.toSerial <= h.toSerial && |h.toSerial| == |g.toSerial| + if Accepts(g, e) then 1 else 0)
            && (if e.TakeGateway? then g.toGateway != [] ==> h.toGateway == g.toGateway[1..]
                else g.toGateway <= h.toGateway && (h.toGateway != g.toGateway ==> e.TakeSerial?))
  {
    if Accepts(g, e) {
      assert !InUse(g.sessions, e.push.sequence);
    }
  }

  // ---------------------------------------------------------------- the login over runs

  lemma {:induction false} RunSnoc(g: Gateway, events: seq<Event>, e: Event)
    requires g.last <= MAX_ID + 1
    ensures Run(g, events + [e]) == Step(Run(g, events), e)
    decreases |events|
  {
    if events == [] {
      assert [e][1..] == [] && [] + [e] == [e];
    } else {
      StepKeepsLast(g, events[0]);
      assert (events + [e])[1..] == events[1..] + [e];
      RunSnoc(Step(g, events[0]), events[1..], e);
    }
  }

  /** The connection was last made at `c`. */
  predicate ConnectedAt(events: seq<Event>, c: int) {
    0 <= c < |events| && events[c].Connected? && forall k :: c < k < |events| ==> !events[k].Connected?
  }

  /** The server has admitted the gateway since the connection was last made. */
  ghost predicate LoggedIn(events: seq<Event>) {
    exists c, l :: ConnectedAt(events, c) && c < l < |events| && Admits(events[l])
  }

  lemma ConnectedOneMore(events: seq<Event>, e: Event)
    ensures forall c :: ConnectedAt(events + [e], c) <==>
                          if e.Connected? then c == |events| else ConnectedAt(events, c)
  {
    var more := events + [e];
    forall c
      ensures ConnectedAt(more, c) <==> if e.Connected? then c == |events| else ConnectedAt(events, c)
    {
      assert more[|events|] == e && forall k :: 0 <= k < |events| ==> more[k] == events[k];
      if ConnectedAt(more, c) && e.Connected? {
        assert !(c < |events|);
      }
    }
  }

  lemma LoggedInOneMore(events: seq<Event>, e: Event)
    ensures LoggedIn(events + [e]) <==>
              !e.Connected? && (LoggedIn(events) || ((exists c :: ConnectedAt(events, c)) && Admits(e)))
  {
    var more, n := events + [e], |events|;
    ConnectedOneMore(events, e);
    assert more[n] == e && forall k :: 0 <= k < n ==> more[k] == events[k];
    hide ConnectedAt;
    if !e.Connected? {
      if LoggedIn(events) {
        var c, l :| ConnectedAt(events, c) && c < l < n && Admits(events[l]);
        assert ConnectedAt(more, c) && Admits(more[l]);
      }
      if c :| ConnectedAt(events, c) {
        assert c < n by {
          Within(events, c);
        }
        assert Admits(e) ==> ConnectedAt(more, c) && Admits(more[n]);
      }
      if LoggedIn(more) {
        var c, l :| ConnectedAt(more, c) && c < l < n + 1 && Admits(more[l]);
        assert ConnectedAt(events, c) && (l < n ==> Admits(events[l]));
      }
    } else {
      assert forall c :: ConnectedAt(more, c) ==> c == n;
    }
  }

  lemma Within(events: seq<Event>, c: int)
    requires ConnectedAt(events, c)
    ensures c < |events|
  {
  }

  /** The gateway is registered exactly if the server has admitted it since the connection was last made. */
  lemma {:induction false} RegisteredExactly(events: seq<Event>)
    ensures Run(START, events).login == Registered <==> LoggedIn(events)
    ensures Run(START, events).login == Unregistered <==> !exists c :: ConnectedAt(events, c)
  {
    hide Step, LoggedIn, ConnectedAt;
    if events == [] {
      assert !LoggedIn([]) && forall c :: !ConnectedAt([], c) by {
        NeverYet();
      }
    } else {
      var before, e := events[..|events| - 1], events[|events| - 1];
      assert events == before + [e];
      RegisteredExactly(before);
      RunSnoc(START, before, e);
      LoginChangesExactly(Run(START, before), e);
      LoggedInOneMore(before, e);
      ConnectedOneMore(before, e);
      assert ConnectedAt(events, |before|) || forall c :: ConnectedAt(events, c) <==> ConnectedAt(before, c);
    }
  }

  lemma NeverYet()
    ensures !LoggedIn([]) && forall c :: !ConnectedAt([], c)
  {
  }

  /** In every run, a request is accepted exactly if it comes after the login and under an unused number. */
  lemma AcceptedExactly(events: seq<Event>, e: Event)
    ensures var g := Run(START, events);
            Run(START, events + [e]).accepted != g.accepted <==>
              LoggedIn(events) && e.Receive? && e.push.body.Ask? && !InUse(g.sessions, e.push.sequence)
  {
    var g := Run(START, events);
    RunSnoc(START, events, e);
    RegisteredExactly(events);
    AcceptsExactly(g, e);
  }

  /** Before the first accepted request lies a login response with code 0, and before that a connection. */
  lemma {:induction false} NoRequestBeforeTheLogin(events: seq<Event>)
    requires Run(START, events).accepted != []
    ensures exists first :: 0 <= first < |events| && IsFirstAccepted(events, first) && LoggedIn(events[..first])
  {
    hide Run, Step, LoggedIn;
    assert events != [] by {
      StartsEmpty();
    }
    var before, e := events[..|events| - 1], events[|events| - 1];
    assert events == before + [e];
    if Run(START, before).accepted == [] {
      AcceptedExactly(before, e);
      assert events[..|before|] == before && events[..|before| + 1] == events;
      assert IsFirstAccepted(events, |before|) && LoggedIn(events[..|before|]);
    } else {
      NoRequestBeforeTheLogin(before);
      var first :| 0 <= first < |before| && IsFirstAccepted(before, first) && LoggedIn(before[..first]);
      assert events[..first] == before[..first];
      assert events[..first + 1] == before[..first + 1];
      assert IsFirstAccepted(events, first);
    }
  }

  lemma StartsEmpty()
    ensures Run(START, []).accepted == []
  {
  }

  /** The first accepted request of the run is this event. */
  ghost predicate IsFirstAccepted(events: seq<Event>, first: nat) {
    && first < |events| && events[first].Receive? && events[first].push.body.Ask?
    && Run(START, events[..first]).accepted == [] && Run(START, events[..first + 1]).accepted != []
  }
}
