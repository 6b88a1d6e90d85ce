/** The gateway server's clients: each gets an id that no other client has. */
module FgwServer {
  import opened Generator

  const INVALID_ID := -1
  const MAX_HANDLER_ID := 0xFFFFF

  class ServerHandler {
    const id: int

    constructor (id: int)
      ensures this.id == id
    {
      this.id := id;
    }
  }

  /** The first of the numbers to come that is free is the k-th. */
  ghost predicate FirstFree(taken: set<int>, min: int, max: int, last: int, k: nat)
    requires min <= max && k <= max - min
  {
    && Upcoming(min, max, last, k) !in taken
    && forall j: nat :: j < k ==> Upcoming(min, max, last, j) in taken
  }

  /** What the search for a free id finds, from any state of an open generator. */
  ghost predicate FreeId(taken: set<int>, min: int, max: int, last: int, id: int)
    requires min <= max
  {
    exists k: nat :: k <= max - min && FirstFree(taken, min, max, last, k) && id == Upcoming(min, max, last, k)
  }

  /** The search finds an id exactly if one is free, and it finds only one. */
  lemma SearchIsComplete(taken: set<int>, min: int, max: int, last: int)
    requires min <= last <= max + 1 && min <= max
    ensures (exists id :: FreeId(taken, min, max, last, id)) <==> (exists id :: min <= id <= max && id !in taken)
    ensures forall a, b :: FreeId(taken, min, max, last, a) && FreeId(taken, min, max, last, b) ==>
              a == b && min <= a <= max
  {
    if id :| min <= id <= max && id !in taken {
      CycleCovers(min, max, last, id);
      var k: nat :| k <= max - min && Upcoming(min, max, last, k) == id;
      var j := LeastFree(taken, min, max, last, k);
      assert FreeId(taken, min, max, last, Upcoming(min, max, last, j));
    }
  }

  ghost function LeastFree(taken: set<int>, min: int, max: int, last: int, k: nat): (j: nat)
    requires min <= max && k <= max - min && Upcoming(min, max, last, k) !in taken
    ensures j <= k && FirstFree(taken, min, max, last, j)
  {
    if forall j: nat :: j < k ==> Upcoming(min, max, last, j) in taken then k
    else
      var j: nat :| j < k && Upcoming(min, max, last, j) !in taken;
      LeastFree(taken, min, max, last, j)
  }

  class FGWServer {
    var handlers: map<int, ServerHandler>
    var toDelete: seq<ServerHandler>
    const generator: HandlerIdGenerator

    /** Every client is stored under its own id, and the ids are in range. */
    ghost predicate Valid()
      reads this, generator
    {
      && generator.Valid() && generator.min == 1 && generator.max == MAX_HANDLER_ID
      && forall id :: id in handlers ==> handlers[id].id == id && 1 <= id <= MAX_HANDLER_ID
    }

    constructor ()
      ensures Valid() && Tidy() && handlers == map[] && toDelete == [] && fresh(generator)
      ensures !generator.isClosed && generator.last == 1
    {
      handlers := map[];
      toDelete := [];
      generator := new HandlerIdGenerator(1, MAX_HANDLER_ID);
    }

    /** An open generator gives the first free id; a closed one gives only the number where it stopped. */
    method GenHandlerId() returns (id: int)
      requires Valid()
      modifies generator
      ensures !generator.isClosed && id == INVALID_ID ==>
                generator.last == Draw(1, MAX_HANDLER_ID, old(generator.last)).1
      ensures Valid() && generator.isClosed == old(generator.isClosed)
      ensures generator.isClosed ==> id == if generator.last in handlers then INVALID_ID else generator.last
      ensures !generator.isClosed && id != INVALID_ID ==>
                FreeId(handlers.Keys, 1, MAX_HANDLER_ID, old(generator.last), id)
      ensures !generator.isClosed && id != INVALID_ID ==>
                1 <= id <= MAX_HANDLER_ID && id !in handlers && generator.last == id + 1
      ensures !generator.isClosed ==> (id == INVALID_ID <==> forall i :: 1 <= i <= MAX_HANDLER_ID ==> i in handlers)
    {
      ghost var was, k: nat := generator.last, 0;
      var first := generator.Next();
      id := first;
      while true
        invariant Valid() && generator.isClosed == old(generator.isClosed)
        invariant k <= MAX_HANDLER_ID - 1
        invariant generator.isClosed ==> generator.last == first == id
        invariant !generator.isClosed ==> first == Upcoming(1, MAX_HANDLER_ID, was, 0)
        invariant !generator.isClosed ==> id == Upcoming(1, MAX_HANDLER_ID, was, k) && generator.last == id + 1
        invariant forall j: nat :: !generator.isClosed && j < k ==> Upcoming(1, MAX_HANDLER_ID, was, j) in handlers
        decreases MAX_HANDLER_ID - k
      {
        if id !in handlers {
          assert !generator.isClosed ==> FirstFree(handlers.Keys, 1, MAX_HANDLER_ID, was, k);
          return id;
        }
        id := generator.Next();
        k := k + 1;
        if id == first {
          if !generator.isClosed {
            assert forall j: nat :: j <= MAX_HANDLER_ID - 1 ==> Upcoming(1, MAX_HANDLER_ID, was, j) in handlers;
            forall i | 1 <= i <= MAX_HANDLER_ID
              ensures i in handlers
            {
              CycleCovers(1, MAX_HANDLER_ID, was, i);
            }
          }
          return INVALID_ID;
        }
      }
    }

    /**
     * A client that connects gets a free id, so its insertion never
     * meets another; it is turned away only if there is none.
     */
    method OnAccept() returns (h: ServerHandler?)
      requires Valid() && !generator.isClosed
      modifies this`handlers, generator
      ensures Valid() && !generator.isClosed
      ensures h == null <==> forall i :: 1 <= i <= MAX_HANDLER_ID ==> i in old(handlers)
      ensures h == null ==> handlers == old(handlers)
      ensures generator.last == if h == null then Draw(1, MAX_HANDLER_ID, old(generator.last)).1 else h.id + 1
      ensures old(Tidy()) ==> Tidy()
      ensures h != null ==> fresh(h) && h.id !in old(handlers) && handlers == old(handlers)[h.id := h]
      ensures h != null ==> FreeId(old(handlers).Keys, 1, MAX_HANDLER_ID, old(generator.last), h.id)
    {
      var id := GenHandlerId();
      if id == INVALID_ID {
        return null;
      }
      h := new ServerHandler(id);
      var inserted := h.id !in handlers;
      handlers := if inserted then handlers[h.id := h] else handlers;
      return if inserted then h else null;
    }

    /** No handler that waits for its deletion is still in use, or waits twice. */
    ghost predicate Tidy()
      reads this
    {
      && (forall h :: h in toDelete ==> h !in handlers.Values)
      && forall i, j :: 0 <= i < j < |toDelete| ==> toDelete[i] != toDelete[j]
    }

    /** The handler is out of use; only one that waits for its deletion already would be deleted twice. */
    method RemoveHandler(h: ServerHandler)
      requires Valid()
      modifies this
      ensures Valid() && handlers == old(handlers) - {h.id} && toDelete == old(toDelete) + [h]
      ensures old(Tidy()) ==> (Tidy() <==> h !in old(toDelete))
    {
      if h.id in handlers {
        handlers := handlers - {h.id};
      }
      toDelete := toDelete + [h];
      ghost var n := |old(toDelete)|;
      assert toDelete[n] == h && forall i :: 0 <= i < n ==> toDelete[i] == old(toDelete)[i];
      forall id | id in handlers
        ensures handlers[id] != h
      {
        assert handlers[id].id == id;
      }
      if h in old(toDelete) {
        var i :| 0 <= i < n && old(toDelete)[i] == h;
        assert toDelete[i] == toDelete[n];
      }
    }

    method DeleteClosedHandlers() returns (gone: seq<ServerHandler>)
      requires Valid()
      modifies this`toDelete
      ensures Valid() && gone == old(toDelete) && toDelete == [] && Tidy()
    {
      gone := toDelete;
      toDelete := [];
    }
  }

  // ---------------------------------------------------------------- whole runs

  /** A client connects, the handler that was accepted as the k-th is removed, or the timer fires. */
  datatype Call = Accept | Close(k: nat) | Routine

  /** The server as a value, with the accepted handlers named by their place among all of them. */
  datatype Desk = Desk(
    last: int,               // of the id generator
    ids: seq<int>,           // of all handlers that were ever accepted
    open: map<int, nat>,     // the handler that is registered under an id
    waiting: seq<nat>,       // removed, to be deleted when the timer fires
    deleted: seq<nat>)

  const START := Desk(1, [], map[], [], [])

  ghost predicate HasFree(d: Desk) {
    exists id :: FreeId(d.open.Keys, 1, MAX_HANDLER_ID, d.last, id)
  }

  /** What a call does; a handler may be removed whether it is registered or not. */
  ghost function Step(d: Desk, c: Call): Desk {
    match c
    case Accept =>
      if HasFree(d) then
        var id :| FreeId(d.open.Keys, 1, MAX_HANDLER_ID, d.last, id);
        d.(last := id + 1, ids := d.ids + [id], open := d.open[id := |d.ids|])
      else
        d.(last := Draw(1, MAX_HANDLER_ID, d.last).1)
    case Close(k) => if k < |d.ids| then d.(open := d.open - {d.ids[k]}, waiting := d.waiting + [k]) else d
    case Routine => d.(waiting := [], deleted := d.deleted + d.waiting)
  }

  ghost function Run(calls: seq<Call>): Desk {
    if calls == [] then START else Step(Run(calls[..|calls| - 1]), calls[|calls| - 1])
  }

  /** How often the k-th handler was removed. */
  ghost function Removals(calls: seq<Call>, k: nat): nat {
    if calls == [] then 0
    else
      var before := calls[..|calls| - 1];
      Removals(before, k) + if calls[|calls| - 1] == Close(k) && k < |Run(before).ids| then 1 else 0
  }

  ghost predicate Registered(d: Desk, k: nat) {
    k < |d.ids| && d.ids[k] in d.open && d.open[d.ids[k]] == k
  }

  /** Ids are in range, and each registered handler is registered under its own. */
  ghost predicate Orderly(d: Desk) {
    && 1 <= d.last <= MAX_HANDLER_ID + 1
    && forall id :: id in d.open ==> 1 <= id <= MAX_HANDLER_ID && d.open[id] < |d.ids| && d.ids[d.open[id]] == id
  }

  lemma StepOrderly(d: Desk, c: Call)
    requires Orderly(d)
    ensures Orderly(Step(d, c))
    ensures c == Accept && HasFree(d) ==>
              var id := Step(d, c).last - 1; FreeId(d.open.Keys, 1, MAX_HANDLER_ID, d.last, id) && id !in d.open
  {
    hide FreeId, Upcoming;
    if c == Accept {
      SearchIsComplete(d.open.Keys, 1, MAX_HANDLER_ID, d.last);
      FoundIsFree(d);
    }
  }

  lemma FoundIsFree(d: Desk)
    ensures forall id :: FreeId(d.open.Keys, 1, MAX_HANDLER_ID, d.last, id) ==> id !in d.open
  {
  }

  lemma {:induction false} AlwaysOrderly(calls: seq<Call>)
    ensures Orderly(Run(calls))
  {
    if calls != [] {
      AlwaysOrderly(calls[..|calls| - 1]);
      StepOrderly(Run(calls[..|calls| - 1]), calls[|calls| - 1]);
    }
  }

  /** How often a handler was deleted, or is going to be when the timer fires next. */
  ghost function Deletions(d: Desk, k: nat): nat {
    multiset(d.deleted + d.waiting)[k]
  }

  lemma DeletionsStep(d: Desk, c: Call, k: nat)
    ensures Deletions(Step(d, c), k) == Deletions(d, k) + if c == Close(k) && k < |d.ids| then 1 else 0
    ensures |d.ids| <= |Step(d, c).ids|
  {
    hide FreeId, HasFree;
    assert c.Close? ==> d.deleted + (d.waiting + [c.k]) == d.deleted + d.waiting + [c.k];
    assert d.deleted + d.waiting + [] == d.deleted + d.waiting;
  }

  /** Every handler is deleted, or waits for it, exactly as often as it was removed. */
  lemma {:induction false} DeletedAsOftenAsRemoved(calls: seq<Call>, k: nat)
    ensures Deletions(Run(calls), k) == Removals(calls, k)
    ensures k >= |Run(calls).ids| ==> Removals(calls, k) == 0
  {
    hide Step;
    if calls != [] {
      var before, c := calls[..|calls| - 1], calls[|calls| - 1];
      DeletedAsOftenAsRemoved(before, k);
      DeletionsStep(Run(before), c, k);
    }
  }

  lemma RegisteredStep(d: Desk, c: Call, k: nat)
    requires Orderly(d) && k < |Step(d, c).ids|
    ensures match c
            case Accept => Registered(Step(d, c), k) <==> Registered(d, k) || k == |d.ids|
            case Close(j) => Registered(Step(d, c), k) <==> Registered(d, k) && (j < |d.ids| ==> d.ids[k] != d.ids[j])
            case Routine => Registered(Step(d, c), k) <==> Registered(d, k)
  {
    hide FreeId;
    StepOrderly(d, c);
  }

  /** A handler with the id of the k-th one was removed after the k-th one was accepted. */
  ghost predicate Evicted(calls: seq<Call>, k: nat) {
    calls != [] &&
    var before, c := calls[..|calls| - 1], calls[|calls| - 1];
    var ids := Run(before).ids;
    Evicted(before, k) || (k < |ids| && c.Close? && c.k < |ids| && ids[c.k] == ids[k])
  }

  /** A handler stays registered exactly until some handler with its id is removed. */
  lemma {:induction false} RegisteredExactly(calls: seq<Call>, k: nat)
    ensures Registered(Run(calls), k) <==> k < |Run(calls).ids| && !Evicted(calls, k)
    ensures Evicted(calls, k) ==> k < |Run(calls).ids|
  {
    hide Orderly, FreeId, HasFree;
    if calls != [] {
      var before, c := calls[..|calls| - 1], calls[|calls| - 1];
      RegisteredExactly(before, k);
      AlwaysOrderly(before);
      DeletionsStep(Run(before), c, k);
      if k < |Run(calls).ids| {
        RegisteredStep(Run(before), c, k);
      }
    }
  }

  /** As long as no handler was removed twice, exactly those that were not removed are registered. */
  lemma {:induction false} RegisteredUntilRemoved(calls: seq<Call>)
    requires forall k: nat :: Removals(calls, k) <= 1
    ensures forall k: nat :: k < |Run(calls).ids| ==> (Registered(Run(calls), k) <==> Removals(calls, k) == 0)
  {
    hide Registered, Orderly;
    if calls != [] {
      var before, c := calls[..|calls| - 1], calls[|calls| - 1];
      var d := Run(before);
      assert forall k :: Removals(before, k) <= Removals(calls, k);
      RegisteredUntilRemoved(before);
      AlwaysOrderly(before);
      forall k: nat | k < |Run(calls).ids|
        ensures Registered(Run(calls), k) <==> Removals(calls, k) == 0
      {
        DeletedAsOftenAsRemoved(before, k);
        RegisteredStep(d, c, k);
        if c.Close? && c.k < |d.ids| {
          OneUnderAnId(d, c.k, k);
        }
      }
    }
  }

  lemma OneUnderAnId(d: Desk, j: nat, k: nat)
    ensures Registered(d, j) && Registered(d, k) && d.ids[j] == d.ids[k] ==> j == k
  {
  }

  /** No handler is deleted twice or while it is registered. */
  ghost predicate Clean(d: Desk) {
    forall k: nat :: Deletions(d, k) <= if Registered(d, k) then 0 else 1
  }

  /** Deletion goes right exactly if no handler is removed twice. */
  lemma CleanExactly(calls: seq<Call>)
    ensures Clean(Run(calls)) <==> forall k :: Removals(calls, k) <= 1
  {
    if forall k :: Removals(calls, k) <= 1 {
      CleanIfOnce(calls);
    } else {
      var k :| Removals(calls, k) > 1;
      DeletedAsOftenAsRemoved(calls, k);
    }
  }

  lemma CleanIfOnce(calls: seq<Call>)
    requires forall k :: Removals(calls, k) <= 1
    ensures Clean(Run(calls))
  {
    RegisteredUntilRemoved(calls);
    forall k: nat
      ensures Deletions(Run(calls), k) <= if Registered(Run(calls), k) then 0 else 1
    {
      DeletedAsOftenAsRemoved(calls, k);
    }
  }

  lemma OneMore(calls: seq<Call>, c: Call, k: nat)
    ensures Run(calls + [c]) == Step(Run(calls), c)
    ensures Removals(calls + [c], k) == Removals(calls, k) + if c == Close(k) && k < |Run(calls).ids| then 1 else 0
  {
    hide Step;
    assert (calls + [c])[..|calls|] == calls;
  }

  lemma ComeAndGone() returns (calls: seq<Call>)
    ensures Run(calls) == Desk(2, [1], map[], [0], [])
  {
    hide FreeId, HasFree;
    calls := [Accept];
    AnyIsFree(START);
    assert [Accept][..0] == [];
    OneMore(calls, Close(0), 0);
    calls := calls + [Close(0)];
  }

  /** After this run one client has come and gone, and `n - 1` more have come. */
  lemma ManyAccepted(n: nat) returns (calls: seq<Call>)
    requires 1 <= n <= MAX_HANDLER_ID
    ensures var d := Run(calls);
            && d.last == n + 1 && |d.ids| == n && d.ids[0] == 1 && d.waiting == [0] && d.deleted == []
            && forall id :: id in d.open ==> 2 <= id <= n
  {
    hide HasFree, Step, Run;
    if n == 1 {
      calls := ComeAndGone();
    } else {
      calls := ManyAccepted(n - 1);
      AnyIsFree(Run(calls));
      OneMore(calls, Accept, 0);
      calls := calls + [Accept];
    }
  }

  /** Nothing keeps a handler from being removed twice, and so from being deleted twice. */
  lemma DeletedTwice()
    ensures exists calls :: Run(calls).deleted == [0, 0]
  {
    hide FreeId, HasFree, Run;
    var calls := ManyAccepted(1);
    OneMore(calls, Close(0), 0);
    calls := calls + [Close(0)];
    OneMore(calls, Routine, 0);
    assert Run(calls + [Routine]).deleted == [0, 0];
  }

  /** Removing a handler again can put a client out of the register that got its id meanwhile and is still connected. */
  lemma SecondRemovalDropsAnother()
    ensures exists calls, k: nat :: k < |Run(calls).ids| && Removals(calls, k) == 0 && !Registered(Run(calls), k)
  {
    hide FreeId, HasFree, Run;
    var k := MAX_HANDLER_ID;
    var calls := ManyAccepted(k);
    DeletedAsOftenAsRemoved(calls, k);
    AnyIsFree(Run(calls));
    OneMore(calls, Accept, k);
    calls := calls + [Accept];
    OneMore(calls, Close(0), k);
    calls := calls + [Close(0)];
    assert k < |Run(calls).ids| && Removals(calls, k) == 0 && !Registered(Run(calls), k);
  }

  /** An id that is free and in range is found at once if it is the next one. */
  lemma AnyIsFree(d: Desk)
    requires 1 <= d.last <= MAX_HANDLER_ID + 1 && Draw(1, MAX_HANDLER_ID, d.last).0 !in d.open
    ensures var id := Draw(1, MAX_HANDLER_ID, d.last).0;
            Step(d, Accept) == d.(last := id + 1, ids := d.ids + [id], open := d.open[id := |d.ids|])
  {
    assert FirstFree(d.open.Keys, 1, MAX_HANDLER_ID, d.last, 0);
    assert FreeId(d.open.Keys, 1, MAX_HANDLER_ID, d.last, Draw(1, MAX_HANDLER_ID, d.last).0);
    SearchIsComplete(d.open.Keys, 1, MAX_HANDLER_ID, d.last);
  }

  // ---------------------------------------------------------------- the server is the value

  /** The handlers at these places. */
  ghost predicate Names(hs: seq<ServerHandler>, all: seq<ServerHandler>, places: seq<nat>) {
    |hs| == |places| && forall i :: 0 <= i < |hs| ==> places[i] < |all| && hs[i] == all[places[i]]
  }

  ghost predicate Distinct(all: seq<ServerHandler>) {
    forall i, j :: 0 <= i < j < |all| ==> all[i] != all[j]
  }

  /** `all` are the handlers that `server` ever accepted, and `deleted` the ones that it deleted. */
  ghost predicate Shows(server: FGWServer, all: seq<ServerHandler>, deleted: seq<ServerHandler>, d: Desk)
    reads server, server.generator
  {
    && server.Valid() && !server.generator.isClosed && server.generator.last == d.last
    && Distinct(all) && |all| == |d.ids| && (forall k :: 0 <= k < |all| ==> all[k].id == d.ids[k])
    && server.handlers.Keys == d.open.Keys
    && (forall id :: id in d.open ==> d.open[id] < |all| && server.handlers[id] == all[d.open[id]])
    && Names(server.toDelete, all, d.waiting) && Names(deleted, all, d.deleted)
  }

  lemma {:induction false} SameCount(hs: seq<ServerHandler>, all: seq<ServerHandler>, places: seq<nat>, k: nat)
    requires Names(hs, all, places) && Distinct(all) && k < |all|
    ensures multiset(hs)[all[k]] == multiset(places)[k]
  {
    if hs != [] {
      var n := |hs| - 1;
      SameCount(hs[..n], all, places[..n], k);
      assert hs == hs[..n] + [hs[n]] && places == places[..n] + [places[n]];
    }
  }

  method Perform(server: FGWServer, c: Call, all: seq<ServerHandler>, ghost d: Desk, ghost deleted: seq<ServerHandler>)
    returns (more: seq<ServerHandler>, gone: seq<ServerHandler>)
    requires Shows(server, all, deleted, d) && Orderly(d)
    modifies server, server.generator
    ensures Shows(server, all + more, deleted + gone, Step(d, c))
  {
    more, gone := [], [];
    match c
    case Accept =>
      SearchIsComplete(d.open.Keys, 1, MAX_HANDLER_ID, d.last);
      var h := server.OnAccept();
      if h != null {
        more := [h];
      }
    case Close(k) =>
      if k < |all| {
        server.RemoveHandler(all[k]);
      }
    case Routine => gone := server.DeleteClosedHandlers();
  }

  /**
   * Any run: the server ends where the run on values does, and every handler is deleted, or waits for it, exactly as
   * often as it was removed.
   */
  method Serve(calls: seq<Call>) returns (server: FGWServer, all: seq<ServerHandler>, deleted: seq<ServerHandler>)
    ensures fresh(server) && Shows(server, all, deleted, Run(calls))
    ensures forall k: nat :: k < |all| ==> multiset(deleted + server.toDelete)[all[k]] == Removals(calls, k)
  {
    server := new FGWServer();
    all, deleted := [], [];
    assert calls[..0] == [];
    for i := 0 to |calls|
      invariant fresh(server) && fresh(server.generator)
      invariant Shows(server, all, deleted, Run(calls[..i]))
    {
      AlwaysOrderly(calls[..i]);
      var more, gone := Perform(server, calls[i], all, Run(calls[..i]), deleted);
      all, deleted := all + more, deleted + gone;
      assert calls[..i + 1][..i] == calls[..i];
    }
    assert calls[..|calls|] == calls;
    ghost var d := Run(calls);
    assert Names(deleted + server.toDelete, all, d.deleted + d.waiting);
    forall k: nat | k < |all|
      ensures multiset(deleted + server.toDelete)[all[k]] == Removals(calls, k)
    {
      SameCount(deleted + server.toDelete, all, d.deleted + d.waiting, k);
      DeletedAsOftenAsRemoved(calls, k);
    }
  }
}
