/** The connection object of the server: request objects changed in place by handlers and by completing executions. */
module Server {
  import opened Bytes
  import opened R = Requests

  /** A request object; its place in the order of creation names it. */
  class RequestObject {
    ghost const place: nat
    const doer: set<Kind>
    var status: Status
    var cancel: ExecutionObject?

    constructor (ghost place: nat, doer: set<Kind>)
      ensures this.place == place && this.doer == doer && status == Ready && cancel == null
    {
      this.place := place;
      this.doer, status, cancel := doer, Ready, null;
    }
  }

  /** What the goroutine of one execution captured, and the context its cancel function cancels. */
  class ExecutionObject {
    ghost const place: nat
    const request: RequestObject
    const id: int
    const destroy: bool
    var cancels: nat
    var done: bool

    constructor (ghost place: nat, request: RequestObject, id: int, destroy: bool)
      ensures this.place == place && this.request == request && this.id == id && this.destroy == destroy
      ensures cancels == 0 && !done
    {
      this.place := place;
      this.request, this.id, this.destroy := request, id, destroy;
      cancels, done := 0, false;
    }
  }

  class ServerConn {
    var requests: map<int, RequestObject>

    /** Every request object and execution there has been, and the state they are in. */
    ghost var created: seq<RequestObject>
    ghost var started: seq<ExecutionObject>
    ghost var now: State

    ghost predicate Valid()
      reads this, created, started
    {
      && WellFormed(now) && |now.requests| == |created| && |now.executions| == |started|
      && (forall i :: 0 <= i < |created| ==> created[i].place == i && RequestAt(i))
      && (forall k :: 0 <= k < |started| ==> started[k].place == k && ExecutionAt(k))
      && now.table.Keys == requests.Keys
      && (forall id :: id in requests ==> Created(requests[id]) && now.table[id] == requests[id].place)
    }

    ghost predicate Created(r: RequestObject)
      reads this
    {
      r.place < |created| && created[r.place] == r
    }

    ghost predicate Started(x: ExecutionObject)
      reads this
    {
      x.place < |started| && started[x.place] == x
    }

    ghost predicate RequestAt(i: nat)
      requires i < |created| == |now.requests|
      reads this, created
    {
      var r, q := created[i], now.requests[i];
      && q.doer == r.doer && q.status == r.status
      && if r.cancel == null then q.cancel == None else q.cancel == Some(r.cancel.place) && Started(r.cancel)
    }

    ghost predicate ExecutionAt(k: nat)
      requires k < |started| == |now.executions|
      reads this, started
    {
      var x := started[k];
      Created(x.request) && now.executions[k] == Execution(x.request.place, x.id, x.destroy, x.cancels, x.done)
    }

    constructor ()
      ensures Valid() && now == EMPTY
    {
      requests, created, started, now := map[], [], [], EMPTY;
    }

    method AddRequest(id: int, doer: set<Kind>) returns (reply: Reply)
      requires Valid()
      modifies this
      ensures Valid() && (now, reply) == Step(old(now), Event.AddRequest(id, doer))
    {
      if id in requests && requests[id].status != Destroyed {
        return Exists;
      }
      hide WellFormed;
      var r := new RequestObject(|created|, doer);
      now := Step(now, Event.AddRequest(id, doer)).0;
      requests := requests[id := r];
      created := created + [r];
      return Accepted;
    }

    method Begin(r: RequestObject, id: int, destroy: bool) returns (x: ExecutionObject)
      requires Valid() && Created(r)
      modifies this`started, this`now, r
      ensures Valid() && now == R.Begin(old(now), r.place, id, destroy)
      ensures Started(x) && !x.done && fresh(x)
    {
      hide WellFormed;
      assert RequestAt(r.place);
      x := new ExecutionObject(|started|, r, id, destroy);
      now := R.Begin(now, r.place, id, destroy);
      started := started + [x];
      r.status, r.cancel := InProgress, x;
      forall i | 0 <= i < |created| ensures created[i].place == i && RequestAt(i) {
        assert old(RequestAt(i));
      }
      forall k | 0 <= k < |started| ensures started[k].place == k && ExecutionAt(k) {
        assert k < |old(started)| ==> old(ExecutionAt(k));
      }
    }

    /** Admits an execution. A request ID that is not in the table is a nil dereference in the handler. */
    method Execute(id: int, kind: Kind, destroy: bool) returns (reply: Reply, x: ExecutionObject?)
      requires Valid()
      modifies this, created
      ensures Valid() && (now, reply) == Step(old(now), Event.Execute(id, kind, destroy))
      ensures if reply == Accepted then x != null && Started(x) && !x.done && fresh(x) else x == null
    {
      if id !in requests {
        return NilRequest, null;
      }
      var r := requests[id];
      if r.status != Ready {
        return NotReady, null;
      }
      if kind !in r.doer {
        return WrongDoer, null;
      }
      x := Begin(r, id, destroy);
      return Accepted, x;
    }

    method Finish(x: ExecutionObject, status: Status)
      requires Valid() && Started(x)
      modifies this`now, x, x.request
      ensures Valid() && now == R.Finish(old(now), x.place, status)
    {
      hide WellFormed;
      var r := x.request;
      assert RequestAt(r.place) && ExecutionAt(x.place);
      now := R.Finish(now, x.place, status);
      x.done := true;
      r.status := status;
      forall i | 0 <= i < |created| ensures created[i].place == i && RequestAt(i) {
        assert old(RequestAt(i));
      }
      forall k | 0 <= k < |started| ensures started[k].place == k && ExecutionAt(k) {
        assert old(ExecutionAt(k));
      }
    }

    /** What the goroutine of an execution does once it has its answer, whatever became of the request meanwhile. */
    method Complete(x: ExecutionObject)
      requires Valid() && Started(x) && !x.done
      modifies this`requests, this`now, x, x.request
      ensures Valid() && now == Step(old(now), Event.Complete(x.place)).0
    {
      if x.destroy {
        Finish(x, Destroyed);
        now := now.(table := now.table - {x.id});
        requests := requests - {x.id};
      } else {
        Finish(x, Ready);
      }
    }

    /** Calls the stored cancel function once and forgets it. */
    method Withdraw(r: RequestObject, status: Status)
      requires Valid() && Created(r)
      modifies this`now, r, started
      ensures Valid() && now == R.Withdraw(old(now), r.place, status)
    {
      hide WellFormed;
      now := R.Withdraw(now, r.place, status);
      r.status := status;
      if r.cancel != null {
        r.cancel.cancels := r.cancel.cancels + 1;
        r.cancel := null;
      }
      forall i | 0 <= i < |created| ensures created[i].place == i && RequestAt(i) {
        assert old(RequestAt(i));
      }
      forall k | 0 <= k < |started| ensures started[k].place == k && ExecutionAt(k) {
        assert old(ExecutionAt(k));
      }
    }

    method CancelRequest(id: int) returns (reply: Reply)
      requires Valid()
      modifies this`now, created, started
      ensures Valid() && (now, reply) == Step(old(now), Event.Cancel(id))
    {
      if id !in requests {
        return Unknown;
      }
      var r := requests[id];
      Withdraw(r, if r.status == Destroyed then Destroyed else Cancelled);
      return Accepted;
    }

    method DestroyRequest(id: int) returns (reply: Reply)
      requires Valid()
      modifies this`requests, this`now, created, started
      ensures Valid() && (now, reply) == Step(old(now), Event.Destroy(id))
    {
      if id !in requests {
        return Unknown;
      }
      Withdraw(requests[id], Destroyed);
      now := now.(table := now.table - {id});
      requests := requests - {id};
      return Accepted;
    }
  }
}
