/** Modules with their queues of messages, and the dispatcher that passes messages between them. */
module Dispatch {

  const OK := 0
  const FAIL := -1

  datatype Address = Address(moduleType: int, handlerId: int)

  datatype Envelope<+M> = Envelope(src: Address, dst: Address, msg: M)

  class ZModule<M> {
    const moduleType: int
    var queue: seq<Envelope<M>>

    constructor (moduleType: int)
      ensures this.moduleType == moduleType && queue == []
    {
      this.moduleType := moduleType;
      queue := [];
    }

    method SendMsg(e: Envelope<M>)
      modifies this
      ensures queue == old(queue) + [e]
    {
      queue := queue + [e];
    }
  }

  class ZDispatcher<M> {
    var modules: seq<ZModule<M>>

    /** No two modules are of the same type. */
    ghost predicate Valid()
      reads this
    {
      forall i, j :: 0 <= i < j < |modules| ==> modules[i].moduleType != modules[j].moduleType
    }

    ghost predicate Knows(moduleType: int)
      reads this
    {
      exists m :: m in modules && m.moduleType == moduleType
    }

    constructor ()
      ensures Valid() && modules == []
    {
      modules := [];
    }

    method FindModule(moduleType: int) returns (m: ZModule?<M>)
      requires Valid()
      ensures m == null <==> !Knows(moduleType)
      ensures m != null ==> m in modules && m.moduleType == moduleType
      ensures m != null ==> forall n :: n in modules && n.moduleType == moduleType ==> n == m
    {
      for i := 0 to |modules|
        invariant forall j :: 0 <= j < i ==> modules[j].moduleType != moduleType
      {
        if modules[i].moduleType == moduleType {
          return modules[i];
        }
      }
      return null;
    }

    /** A module is registered unless there is one of its type. */
    method RegisterModule(m: ZModule<M>) returns (rv: int)
      requires Valid()
      modifies this
      ensures Valid()
      ensures rv == OK <==> !old(Knows(m.moduleType))
      ensures modules == if rv == OK then old(modules) + [m] else old(modules)
    {
      var n := FindModule(m.moduleType);
      if n != null {
        return FAIL;
      }
      modules := modules + [m];
      return OK;
    }

    /** The message goes to the end of the queue of the module that it is for, and to no other. */
    method SendDirect(e: Envelope<M>) returns (rv: int)
      requires Valid()
      modifies modules
      ensures rv == OK <==> Knows(e.dst.moduleType)
      ensures forall m :: m in old(modules) ==>
                m.queue == if m.moduleType == e.dst.moduleType then old(m.queue) + [e] else old(m.queue)
    {
      var m := FindModule(e.dst.moduleType);
      if m == null {
        return FAIL;
      }
      m.SendMsg(e);
      return OK;
    }
  }
}
