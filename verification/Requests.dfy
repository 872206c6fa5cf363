/** The request table of a server connection, and executions that finish after their request was cancelled. */
module Requests {
  import opened Bytes

  datatype Status = Init | Ready | InProgress | Cancelled | Destroyed

  /** What a request's doer can be asked to do. A monitor can be asked neither. */
  datatype Kind = Geter | Rpcer

  /** A request object; `cancel` is the execution whose context its stored function cancels. */
  datatype Request = Request(doer: set<Kind>, status: Status, cancel: Option<nat>)

  /** An execution: the request object and the request ID its goroutine captured, and how often it was cancelled. */
  datatype Execution = Execution(request: nat, id: int, destroy: bool, cancels: nat, done: bool)

  /** Objects and executions are named by their position in the order of creation. */
  datatype State = State(requests: seq<Request>, executions: seq<Execution>, table: map<int, nat>)

  /** One locked section of a handler or of a completion goroutine. */
  datatype Event =
    | AddRequest(id: int, doer: set<Kind>)
    | Execute(id: int, kind: Kind, destroy: bool)
    | Complete(execution: nat)
    | Cancel(id: int)
    | Destroy(id: int)

  datatype Reply = Accepted | Exists | NotReady | WrongDoer | Unknown | NilRequest

  const EMPTY := State([], [], map[])

  predicate WellFormed(s: State) {
    && (forall id :: id in s.table ==> s.table[id] < |s.requests|)
    && (forall r :: 0 <= r < |s.requests| && s.requests[r].cancel.Some? ==> s.requests[r].cancel.value < |s.executions|)
    && (forall k :: 0 <= k < |s.executions| ==> s.executions[k].request < |s.requests|)
  }

  predicate Enabled(s: State, e: Event) {
    e.Complete? ==> e.execution < |s.executions| && !s.executions[e.execution].done
  }

  /** Calls the stored cancel function, if any, and forgets it. */
  function Withdraw(s: State, r: nat, status: Status): State
    requires WellFormed(s) && r < |s.requests|
    ensures WellFormed(Withdraw(s, r, status))
    ensures Withdraw(s, r, status).table == s.table && |Withdraw(s, r, status).requests| == |s.requests|
  {
    var called :=
      match s.requests[r].cancel
      case None => s.executions
      case Some(k) => s.executions[k := s.executions[k].(cancels := s.executions[k].cancels + 1)];
    s.(requests := s.requests[r := s.requests[r].(status := status, cancel := None)], executions := called)
  }

  /** An execution is over: its request takes this status, whatever it had. */
  function Finish(s: State, k: nat, status: Status): State
    requires WellFormed(s) && k < |s.executions|
    ensures WellFormed(Finish(s, k, status))
  {
    var x := s.executions[k];
    s.(requests := s.requests[x.request := s.requests[x.request].(status := status)],
       executions := s.executions[k := x.(done := true)])
  }

  /** An execution is begun, and its cancel function stored. */
  function Begin(s: State, r: nat, id: int, destroy: bool): State
    requires WellFormed(s) && r < |s.requests|
    ensures WellFormed(Begin(s, r, id, destroy))
  {
    s.(requests := s.requests[r := s.requests[r].(status := InProgress, cancel := Some(|s.executions|))],
       executions := s.executions + [Execution(r, id, destroy, 0, false)])
  }

  function Step(s: State, e: Event): (result: (State, Reply))
    requires WellFormed(s) && Enabled(s, e)
    ensures WellFormed(result.0)
  {
    match e
    case AddRequest(id, doer) =>
      if id in s.table && s.requests[s.table[id]].status != Destroyed then (s, Exists)
      else
        (s.(requests := s.requests + [Request(doer, Ready, None)], table := s.table[id := |s.requests|]), Accepted)
    case Execute(id, kind, destroy) =>
      if id !in s.table then (s, NilRequest)
      else
        var r := s.table[id];
        if s.requests[r].status != Ready then (s, NotReady)
        else if kind !in s.requests[r].doer then (s, WrongDoer)
        else (Begin(s, r, id, destroy), Accepted)
    case Complete(k) =>
      var x := s.executions[k];
      if x.destroy then (Finish(s, k, Destroyed).(table := s.table - {x.id}), Accepted)
      else (Finish(s, k, Ready), Accepted)
    case Cancel(id) =>
      if id !in s.table then (s, Unknown)
      else
        var r := s.table[id];
        var status := s.requests[r].status;
        (Withdraw(s, r, if status == Destroyed then Destroyed else Cancelled), Accepted)
    case Destroy(id) =>
      if id !in s.table then (s, Unknown)
      else (Withdraw(s, s.table[id], Destroyed).(table := s.table - {id}), Accepted)
  }

  predicate Reaches(s: State, events: seq<Event>, s': State)
    requires WellFormed(s)
    ensures Reaches(s, events, s') ==> WellFormed(s')
    decreases |events|
  {
    if |events| == 0 then s == s'
    else Enabled(s, events[0]) && Reaches(Step(s, events[0]).0, events[1..], s')
  }

  // What every step keeps

  /** An execution that has not finished is the one its request is in progress with, or was cancelled, once. */
  predicate ExecutionHolds(s: State, k: nat)
    requires WellFormed(s) && k < |s.executions|
  {
    var x := s.executions[k];
    var r := s.requests[x.request];
    && x.cancels <= 1
    && (!x.done ==>
      if x.cancels == 0 then r.status == InProgress && r.cancel == Some(k)
      else r.status == Cancelled || r.status == Destroyed)
  }

  /** A request in progress has a running execution; a stored cancel function is its own and was never called. */
  predicate RequestHolds(s: State, r: nat)
    requires WellFormed(s) && r < |s.requests|
  {
    var q := s.requests[r];
    && (q.cancel.Some? ==> s.executions[q.cancel.value].request == r && s.executions[q.cancel.value].cancels == 0)
    && (q.status == InProgress ==> q.cancel.Some? && !s.executions[q.cancel.value].done)
  }

  /** Of a request's executions all but the newest have finished. */
  predicate Alone(s: State) {
    forall j, k :: 0 <= j < k < |s.executions| && s.executions[j].request == s.executions[k].request ==>
      s.executions[j].done
  }

  predicate Exclusive(s: State)
    requires WellFormed(s)
  {
    && (forall k :: 0 <= k < |s.executions| ==> ExecutionHolds(s, k))
    && (forall r :: 0 <= r < |s.requests| ==> RequestHolds(s, r))
    && Alone(s)
  }

  /** The table holds no destroyed request and none under two IDs. */
  predicate Tidy(s: State)
    requires WellFormed(s)
  {
    && (forall id :: id in s.table ==> s.requests[s.table[id]].status != Destroyed)
    && (forall id, id' :: id in s.table && id' in s.table && s.table[id] == s.table[id'] ==> id == id')
  }

  /** Executions of a request in the table carry the ID it is there under. */
  predicate Tagged(s: State) {
    forall id, k :: id in s.table && 0 <= k < |s.executions| && s.executions[k].request == s.table[id] ==>
      s.executions[k].id == id
  }

  predicate Invariant(s: State) {
    WellFormed(s) && Exclusive(s) && Tidy(s) && Tagged(s)
  }

  lemma WithdrawExclusive(s: State, r: nat, status: Status)
    requires WellFormed(s) && Exclusive(s) && r < |s.requests| && (status == Cancelled || status == Destroyed)
    ensures Exclusive(Withdraw(s, r, status))
  {
    var s' := Withdraw(s, r, status);
    forall k | 0 <= k < |s'.executions| ensures ExecutionHolds(s', k) {
      assert ExecutionHolds(s, k) && RequestHolds(s, r);
    }
    forall q | 0 <= q < |s'.requests| ensures RequestHolds(s', q) {
      assert RequestHolds(s, q) && RequestHolds(s, r);
    }
  }

  lemma ExecuteExclusive(s: State, e: Event)
    requires WellFormed(s) && Exclusive(s) && e.Execute?
    ensures Exclusive(Step(s, e).0)
  {
    var s' := Step(s, e).0;
    forall k | 0 <= k < |s'.executions| ensures ExecutionHolds(s', k) {
      assert k < |s.executions| ==> ExecutionHolds(s, k);
    }
    forall q | 0 <= q < |s'.requests| ensures RequestHolds(s', q) {
      assert RequestHolds(s, q);
    }
    forall j, k | 0 <= j < k < |s'.executions| && s'.executions[j].request == s'.executions[k].request
      ensures s'.executions[j].done
    {
      assert ExecutionHolds(s, j);
    }
  }

  lemma CompleteExclusive(s: State, e: Event)
    requires WellFormed(s) && Exclusive(s) && e.Complete? && Enabled(s, e)
    ensures Exclusive(Step(s, e).0)
  {
    var s' := Step(s, e).0;
    assert ExecutionHolds(s, e.execution);
    forall k | 0 <= k < |s'.executions| ensures ExecutionHolds(s', k) {
      assert ExecutionHolds(s, k);
    }
    forall q | 0 <= q < |s'.requests| ensures RequestHolds(s', q) {
      assert RequestHolds(s, q);
    }
  }

  lemma AddExclusive(s: State, e: Event)
    requires WellFormed(s) && Exclusive(s) && e.AddRequest?
    ensures Exclusive(Step(s, e).0)
  {
    var s' := Step(s, e).0;
    forall k | 0 <= k < |s'.executions| ensures ExecutionHolds(s', k) {
      assert ExecutionHolds(s, k);
    }
    forall q | 0 <= q < |s'.requests| ensures RequestHolds(s', q) {
      assert q < |s.requests| ==> RequestHolds(s, q);
    }
  }

  lemma ExclusiveStep(s: State, e: Event)
    requires WellFormed(s) && Exclusive(s) && Tidy(s) && Enabled(s, e)
    ensures Exclusive(Step(s, e).0)
  {
    hide Exclusive, Withdraw;
    match e
    case AddRequest(_, _) => AddExclusive(s, e);
    case Execute(_, _, _) => ExecuteExclusive(s, e);
    case Complete(_) => CompleteExclusive(s, e);
    case Cancel(id) => if id in s.table { WithdrawExclusive(s, s.table[id], Cancelled); }
    case Destroy(id) =>
      if id in s.table {
        var r := s.table[id];
        WithdrawExclusive(s, r, Destroyed);
        TableIrrelevant(Withdraw(s, r, Destroyed), s.table - {id});
      }
  }

  lemma TableIrrelevant(s: State, table: map<int, nat>)
    requires WellFormed(s) && WellFormed(s.(table := table)) && Exclusive(s)
    ensures Exclusive(s.(table := table))
  {
    var s' := s.(table := table);
    forall k | 0 <= k < |s'.executions| ensures ExecutionHolds(s', k) {
      assert ExecutionHolds(s, k);
    }
    forall q | 0 <= q < |s'.requests| ensures RequestHolds(s', q) {
      assert RequestHolds(s, q);
    }
  }

  lemma TidyStep(s: State, e: Event)
    requires WellFormed(s) && Tidy(s) && Tagged(s) && Enabled(s, e)
    ensures Tidy(Step(s, e).0)
  {
  }

  lemma TaggedStep(s: State, e: Event)
    requires WellFormed(s) && Tidy(s) && Tagged(s) && Enabled(s, e)
    ensures Tagged(Step(s, e).0)
  {
    match e
    case AddRequest(_, _) =>
    case Execute(_, _, _) =>
    case Complete(_) =>
    case Cancel(_) =>
    case Destroy(_) =>
  }

  lemma InvariantStep(s: State, e: Event)
    requires Invariant(s) && Enabled(s, e)
    ensures Invariant(Step(s, e).0)
  {
    hide Exclusive, Tidy, Tagged;
    ExclusiveStep(s, e);
    TidyStep(s, e);
    TaggedStep(s, e);
  }

  lemma {:induction false} InvariantHolds(s: State, events: seq<Event>, s': State)
    requires Invariant(s) && Reaches(s, events, s')
    ensures Invariant(s')
    decreases |events|
  {
    hide Exclusive, Tidy, Tagged, Step;
    if |events| > 0 {
      InvariantStep(s, events[0]);
      InvariantHolds(Step(s, events[0]).0, events[1..], s');
    }
  }

  lemma Reachable(events: seq<Event>, s: State)
    requires Reaches(EMPTY, events, s)
    ensures Invariant(s)
  {
    InvariantHolds(EMPTY, events, s);
  }

  /** Execution k, of request object r, was started and has not finished. */
  predicate InFlight(s: State, r: nat, k: nat) {
    k < |s.executions| && s.executions[k].request == r && !s.executions[k].done
  }

  /**
   * In every reachable state a request object has at most one execution in flight; a READY one has none, and one in
   * progress has exactly one, which was not cancelled. No execution is ever cancelled twice.
   */
  lemma ExecutionsNeverOverlap(events: seq<Event>, s: State, r: nat, j: nat, k: nat)
    requires Reaches(EMPTY, events, s) && r < |s.requests|
    ensures InFlight(s, r, j) && InFlight(s, r, k) ==> j == k
    ensures s.requests[r].status == Ready ==> !InFlight(s, r, k)
    ensures s.requests[r].status == InProgress ==>
      && s.requests[r].cancel.Some? && InFlight(s, r, s.requests[r].cancel.value)
      && (InFlight(s, r, k) ==> s.executions[k].cancels == 0)
    ensures k < |s.executions| ==> s.executions[k].cancels <= 1
  {
    Reachable(events, s);
    assert RequestHolds(s, r);
    if k < |s.executions| {
      assert ExecutionHolds(s, k);
    }
  }

  /** In every reachable state a request can be added exactly when the table has no entry under its ID. */
  lemma AddSucceedsWhenAbsent(events: seq<Event>, s: State, id: int, doer: set<Kind>)
    requires Reaches(EMPTY, events, s)
    ensures id in s.table ==> s.requests[s.table[id]].status != Destroyed
    ensures Step(s, AddRequest(id, doer)).1 == Accepted <==> id !in s.table
  {
    Reachable(events, s);
  }

  /** Cancelling or destroying a request leaves its running execution cancelled exactly once, and no other touched. */
  lemma WithdrawnOnce(events: seq<Event>, s: State, id: int, e: Event, k: nat)
    requires Reaches(EMPTY, events, s) && id in s.table && (e == Cancel(id) || e == Destroy(id))
    requires k < |s.executions|
    ensures var s' := Step(s, e).0;
      if InFlight(s, s.table[id], k) then s'.executions[k].cancels == 1
      else s.executions[k].request != s.table[id] ==> s'.executions[k] == s.executions[k]
  {
    Reachable(events, s);
    assert ExecutionHolds(s, k) && RequestHolds(s, s.table[id]);
  }

  /** In a run, a request is added under this ID. */
  predicate Added(s: State, events: seq<Event>, id: int, s': State)
    requires WellFormed(s) && Reaches(s, events, s')
    decreases |events|
  {
    |events| > 0 &&
    ((events[0].AddRequest? && events[0].id == id && Step(s, events[0]).1 == Accepted)
     || Added(Step(s, events[0]).0, events[1..], id, s'))
  }

  /** In a run, the ID is taken out of the table, and later another request is added under it. */
  predicate Retaken(s: State, events: seq<Event>, id: int, s': State)
    requires WellFormed(s) && Reaches(s, events, s')
    decreases |events|
  {
    |events| > 0 &&
    if id in s.table && id !in Step(s, events[0]).0.table then Added(Step(s, events[0]).0, events[1..], id, s')
    else Retaken(Step(s, events[0]).0, events[1..], id, s')
  }

  /** What a step does to one ID: its entry stays, goes, or is new and names a request created by the step. */
  lemma EntryStep(s: State, e: Event, id: int)
    requires Invariant(s) && Enabled(s, e)
    ensures var (s', reply) := Step(s, e);
      var adds := e.AddRequest? && e.id == id && reply == Accepted;
      && |s.requests| <= |s'.requests|
      && (adds ==> id !in s.table)
      && (id in s'.table ==>
        if adds then s'.table[id] == |s.requests| else id in s.table && s'.table[id] == s.table[id])
      && (adds ==> id in s'.table)
  {
  }

  /** An ID out of the table is back only if it was added, and then names a new request. */
  lemma {:induction false} AbsentThenAdded(s: State, events: seq<Event>, id: int, s': State)
    requires Invariant(s) && Reaches(s, events, s') && id !in s.table && id in s'.table
    ensures Added(s, events, id, s') && s'.table[id] >= |s.requests|
    decreases |events|
  {
    hide Exclusive, Tidy, Tagged, Step;
    if |events| > 0 {
      InvariantStep(s, events[0]);
      EntryStep(s, events[0], id);
      var s1 := Step(s, events[0]).0;
      if id in s1.table {
        EntryKept(s1, events[1..], id, s', |s.requests|);
      } else {
        AbsentThenAdded(s1, events[1..], id, s');
      }
    }
  }

  /** Entries are only ever replaced by newer requests. */
  lemma {:induction false} EntryKept(s: State, events: seq<Event>, id: int, s': State, least: nat)
    requires Invariant(s) && Reaches(s, events, s') && id in s'.table && least <= |s.requests|
    requires id in s.table ==> s.table[id] >= least
    ensures s'.table[id] >= least
    decreases |events|
  {
    hide Exclusive, Tidy, Tagged, Step;
    if |events| > 0 {
      InvariantStep(s, events[0]);
      EntryStep(s, events[0], id);
      EntryKept(Step(s, events[0]).0, events[1..], id, s', least);
    }
  }

  /** The entry of an ID names another request in the end exactly if the ID was taken out and taken again. */
  lemma {:induction false} EntryReplaced(s: State, events: seq<Event>, id: int, s': State)
    requires Invariant(s) && Reaches(s, events, s') && id in s.table && id in s'.table
    ensures s'.table[id] != s.table[id] <==> Retaken(s, events, id, s')
    decreases |events|
  {
    hide Exclusive, Tidy, Tagged, Step;
    if |events| > 0 {
      InvariantStep(s, events[0]);
      EntryStep(s, events[0], id);
      var s1 := Step(s, events[0]).0;
      if id in s1.table {
        EntryReplaced(s1, events[1..], id, s');
      } else {
        AbsentThenAdded(s1, events[1..], id, s');
      }
    }
  }

  /** What the goroutine of an execution captured does not change. */
  lemma {:induction false} CapturedKept(s: State, events: seq<Event>, s': State, k: nat)
    requires WellFormed(s) && Reaches(s, events, s') && k < |s.executions|
    ensures k < |s'.executions| && s'.executions[k].id == s.executions[k].id
    ensures s'.executions[k].destroy == s.executions[k].destroy
    decreases |events|
  {
    if |events| > 0 {
      CapturedKept(Step(s, events[0]).0, events[1..], s', k);
    }
  }

  /**
   * An execution that is to destroy its request is started, and the run goes on until it completes. Its completion
   * removes another request from the table exactly when, in between, the ID was taken out of the table and taken
   * again, and is still there.
   */
  lemma CompletionRemovesAnother(past: seq<Event>, s: State, id: int, kind: Kind, between: seq<Event>, s': State)
    requires Reaches(EMPTY, past, s) && Step(s, Execute(id, kind, true)).1 == Accepted
    requires Reaches(Step(s, Execute(id, kind, true)).0, between, s') && Enabled(s', Complete(|s.executions|))
    ensures var after := Step(s', Complete(|s.executions|)).0;
      (exists other :: other in s'.table && s'.table[other] != s.table[id] && other !in after.table)
      <==> id in s'.table && Retaken(Step(s, Execute(id, kind, true)).0, between, id, s')
  {
    var started := Step(s, Execute(id, kind, true)).0;
    var k := |s.executions|;
    Reachable(past, s);
    InvariantStep(s, Execute(id, kind, true));
    CapturedKept(started, between, s', k);
    assert started.table == s.table;
    if id in s'.table {
      EntryReplaced(started, between, id, s');
      assert id !in Step(s', Complete(k)).0.table;
    }
  }

  /** Such a run: a request is executed to destroy it, is destroyed, and its ID is taken again before it completes. */
  lemma NewerRequestRemoved()
    ensures exists s, s' ::
      && Reaches(EMPTY, [AddRequest(7, {Geter}), Execute(7, Geter, true), Destroy(7), AddRequest(7, {Geter})], s)
      && 7 in s.table && s.requests[s.table[7]].status == Ready
      && Reaches(s, [Complete(0)], s') && 7 !in s'.table
  {
    var s1 := Step(EMPTY, AddRequest(7, {Geter})).0;
    var s2 := Step(s1, Execute(7, Geter, true)).0;
    var s3 := Step(s2, Destroy(7)).0;
    var s4 := Step(s3, AddRequest(7, {Geter})).0;
    var s5 := Step(s4, Complete(0)).0;
    assert Reaches(s4, [Complete(0)], s5);
    assert Reaches(s3, [AddRequest(7, {Geter})], s4);
    assert Reaches(s2, [Destroy(7), AddRequest(7, {Geter})], s4);
    assert Reaches(s1, [Execute(7, Geter, true), Destroy(7), AddRequest(7, {Geter})], s4);
  }

  // Which requests can be executed again

  /** The request is in the table, can be asked for something, and is READY or will be when its execution finishes. */
  predicate Executable(s: State, r: nat)
    requires WellFormed(s) && r < |s.requests|
  {
    && (exists id :: id in s.table && s.table[id] == r) && s.requests[r].doer != {}
    && (s.requests[r].status == Ready
        || exists k :: 0 <= k < |s.executions| && InFlight(s, r, k) && !s.executions[k].destroy)
  }

  predicate ExecutedSince(s: State, s': State, r: nat) {
    exists k :: |s.executions| <= k < |s'.executions| && s'.executions[k].request == r
  }

  predicate Extends(s: State, s': State) {
    && |s.requests| <= |s'.requests| && |s.executions| <= |s'.executions|
    && forall k :: 0 <= k < |s.executions| ==> s'.executions[k].request == s.executions[k].request
  }

  lemma UnexecutableComplete(s: State, e: Event, r: nat)
    requires Invariant(s) && Enabled(s, e) && r < |s.requests| && !Executable(s, r) && e.Complete?
    ensures !Executable(Step(s, e).0, r)
  {
  }

  lemma UnexecutableWithdraw(s: State, e: Event, r: nat)
    requires Invariant(s) && r < |s.requests| && !Executable(s, r) && (e.Cancel? || e.Destroy?)
    ensures !Executable(Step(s, e).0, r)
  {
  }

  lemma StaysUnexecutable(s: State, e: Event, r: nat)
    requires Invariant(s) && Enabled(s, e) && r < |s.requests| && !Executable(s, r)
    ensures !ExecutedSince(s, Step(s, e).0, r)
    ensures Extends(s, Step(s, e).0)
    ensures !Executable(Step(s, e).0, r)
  {
    match e
    case AddRequest(_, _) =>
    case Execute(_, _, _) =>
    case Complete(_) => hide Executable, Exclusive, Tidy, Tagged; UnexecutableComplete(s, e, r);
    case Cancel(_) => hide Executable, Exclusive, Tidy, Tagged; UnexecutableWithdraw(s, e, r);
    case Destroy(_) => hide Executable, Exclusive, Tidy, Tagged; UnexecutableWithdraw(s, e, r);
  }

  lemma {:induction false} NeverExecuted(s: State, events: seq<Event>, s': State, r: nat)
    requires Invariant(s) && Reaches(s, events, s') && r < |s.requests| && !Executable(s, r)
    ensures !ExecutedSince(s, s', r) && Extends(s, s')
    decreases |events|
  {
    if |events| > 0 {
      hide Exclusive, Tidy, Tagged, Step, Executable;
      var s1 := Step(s, events[0]).0;
      InvariantStep(s, events[0]);
      StaysUnexecutable(s, events[0], r);
      NeverExecuted(s1, events[1..], s', r);
    }
  }

  lemma ReadyExecutes(s: State, r: nat) returns (events: seq<Event>, s': State)
    requires WellFormed(s) && r < |s.requests| && Executable(s, r) && s.requests[r].status == Ready
    ensures Reaches(s, events, s') && ExecutedSince(s, s', r)
  {
    var id :| id in s.table && s.table[id] == r;
    var kind :| kind in s.requests[r].doer;
    events := [Execute(id, kind, false)];
    s' := Step(s, events[0]).0;
    assert s'.executions[|s.executions|].request == r;
    assert Reaches(s', [], s');
  }

  lemma ExecutableExecutes(s: State, r: nat) returns (events: seq<Event>, s': State)
    requires Invariant(s) && r < |s.requests| && Executable(s, r)
    ensures Reaches(s, events, s') && ExecutedSince(s, s', r)
  {
    if s.requests[r].status == Ready {
      events, s' := ReadyExecutes(s, r);
    } else {
      hide Exclusive, Tidy, Tagged, Reaches, WellFormed;
      var k :| 0 <= k < |s.executions| && InFlight(s, r, k) && !s.executions[k].destroy;
      var s1 := Step(s, Complete(k)).0;
      var rest, s2 := ReadyExecutes(s1, r);
      events, s' := [Complete(k)] + rest, s2;
      ReachesCons(s, Complete(k), rest, s2);
    }
  }

  lemma ReachesCons(s: State, e: Event, rest: seq<Event>, s': State)
    requires WellFormed(s) && Enabled(s, e) && Reaches(Step(s, e).0, rest, s')
    ensures Reaches(s, [e] + rest, s')
  {
  }

  /**
   * In every reachable state, some continuation executes a request object again exactly when it is executable. So a
   * request cancelled while idle, or destroyed, or running its destroying execution, never executes again.
   */
  lemma ExecutesAgain(past: seq<Event>, s: State, r: nat)
    requires Reaches(EMPTY, past, s) && r < |s.requests|
    ensures Executable(s, r) <==> exists events, s' :: Reaches(s, events, s') && ExecutedSince(s, s', r)
  {
    hide Exclusive, Tidy, Tagged, Executable, ExecutedSince;
    Reachable(past, s);
    if Executable(s, r) {
      var events, s' := ExecutableExecutes(s, r);
    } else {
      forall events, s' | Reaches(s, events, s') ensures !ExecutedSince(s, s', r) {
        NeverExecuted(s, events, s', r);
      }
    }
  }

  // The life of one request ID, from the events alone

  /** Withdrawn: cancelled with nothing running. An execution that runs goes on when cancelled. */
  datatype Phase =
    | Absent
    | Idle(doer: set<Kind>)
    | Running(doer: set<Kind>, execution: nat)
    | Withdrawn(doer: set<Kind>)

  /** An event moves the phase of its ID; s only names executions and what they captured. */
  function Move(p: Phase, id: int, s: State, e: Event): Phase
    requires Enabled(s, e)
  {
    match e
    case AddRequest(i, doer) => if i == id && p.Absent? then Idle(doer) else p
    case Execute(i, kind, _) =>
      if i == id && p.Idle? && kind in p.doer then Running(p.doer, |s.executions|) else p
    case Complete(k) =>
      if s.executions[k].destroy && s.executions[k].id == id then Absent
      else if p.Running? && p.execution == k then Idle(p.doer)
      else p
    case Cancel(i) => if i == id && p.Idle? then Withdrawn(p.doer) else p
    case Destroy(i) => if i == id then Absent else p
  }

  /** The phase of an ID behind a run. */
  function PhaseAfter(p: Phase, id: int, s: State, events: seq<Event>, s': State): Phase
    requires WellFormed(s) && Reaches(s, events, s')
    decreases |events|
  {
    if |events| == 0 then p
    else PhaseAfter(Move(p, id, s, events[0]), id, Step(s, events[0]).0, events[1..], s')
  }

  /** Every execution of request object r has finished. */
  predicate Quiet(s: State, r: nat) {
    forall k :: 0 <= k < |s.executions| && s.executions[k].request == r ==> s.executions[k].done
  }

  /** The table shows the phase. */
  predicate Shows(s: State, id: int, p: Phase)
    requires WellFormed(s)
  {
    if id !in s.table then p == Absent
    else
      var r := s.table[id];
      match p
      case Absent => false
      case Idle(doer) => s.requests[r].doer == doer && s.requests[r].status == Ready
      case Running(doer, k) =>
        && s.requests[r].doer == doer && InFlight(s, r, k)
        && (s.requests[r].status == InProgress || s.requests[r].status == Cancelled)
      case Withdrawn(doer) =>
        && s.requests[r].doer == doer && s.requests[r].status == Cancelled
        && Quiet(s, r)
  }

  lemma ShowsAdd(s: State, e: Event, id: int, p: Phase)
    requires Invariant(s) && e.AddRequest? && Shows(s, id, p)
    ensures Shows(Step(s, e).0, id, Move(p, id, s, e))
  {
  }

  lemma ShowsExecute(s: State, e: Event, id: int, p: Phase)
    requires Invariant(s) && e.Execute? && Shows(s, id, p)
    ensures Shows(Step(s, e).0, id, Move(p, id, s, e))
  {
  }

  lemma ShowsComplete(s: State, e: Event, id: int, p: Phase)
    requires Invariant(s) && e.Complete? && Enabled(s, e) && Shows(s, id, p)
    ensures Shows(Step(s, e).0, id, Move(p, id, s, e))
  {
  }

  lemma ShowsWithdraw(s: State, e: Event, id: int, p: Phase)
    requires Invariant(s) && (e.Cancel? || e.Destroy?) && Shows(s, id, p)
    ensures Shows(Step(s, e).0, id, Move(p, id, s, e))
  {
    if p.Idle? {
      ReadyQuiet(s, s.table[id]);
    }
  }

  lemma ReadyQuiet(s: State, r: nat)
    requires Invariant(s) && r < |s.requests| && s.requests[r].status == Ready
    ensures Quiet(s, r)
  {
    forall k | 0 <= k < |s.executions| && s.executions[k].request == r ensures s.executions[k].done {
      assert ExecutionHolds(s, k);
    }
  }

  lemma {:induction false} PhaseShown(p: Phase, id: int, s: State, events: seq<Event>, s': State)
    requires Invariant(s) && Reaches(s, events, s') && Shows(s, id, p)
    ensures Shows(s', id, PhaseAfter(p, id, s, events, s'))
    decreases |events|
  {
    if |events| > 0 {
      hide Exclusive, Tidy, Tagged, Step, Move, Shows;
      InvariantStep(s, events[0]);
      match events[0] {
        case AddRequest(_, _) => ShowsAdd(s, events[0], id, p);
        case Execute(_, _, _) => ShowsExecute(s, events[0], id, p);
        case Complete(_) => ShowsComplete(s, events[0], id, p);
        case Cancel(_) => ShowsWithdraw(s, events[0], id, p);
        case Destroy(_) => ShowsWithdraw(s, events[0], id, p);
      }
      PhaseShown(Move(p, id, s, events[0]), id, Step(s, events[0]).0, events[1..], s');
    }
  }

  /** What a client is answered in each phase. */
  function Answer(p: Phase, e: Event): Reply {
    match e
    case AddRequest(_, _) => if p.Absent? then Accepted else Exists
    case Execute(_, kind, _) =>
      if p.Absent? then NilRequest
      else if !p.Idle? then NotReady
      else if kind in p.doer then Accepted
      else WrongDoer
    case Complete(_) => Accepted
    case Cancel(_) | Destroy(_) => if p.Absent? then Unknown else Accepted
  }

  /**
   * Every run shows each ID as absent, idle, running or withdrawn as the events so far say, and answers accordingly:
   * an execution is admitted exactly when the ID is idle and offers it. Running means an execution of the ID's request
   * is in flight.
   */
  lemma IdsLive(events: seq<Event>, s: State, e: Event, id: int)
    requires Reaches(EMPTY, events, s) && !e.Complete? && e.id == id
    ensures var p := PhaseAfter(Absent, id, EMPTY, events, s);
      && Step(s, e).1 == Answer(p, e)
      && (p.Running? ==> id in s.table && InFlight(s, s.table[id], p.execution))
  {
    Reachable(events, s);
    PhaseShown(Absent, id, EMPTY, events, s);
  }

  /**
   * A request cancelled with nothing of it running never executes again, nor does one destroyed, running or not.
   */
  lemma WithdrawnForGood(past: seq<Event>, s: State, id: int, e: Event, later: seq<Event>, s': State)
    requires Reaches(EMPTY, past, s) && id in s.table
    requires e == Destroy(id) || (e == Cancel(id) && Quiet(s, s.table[id]))
    requires Reaches(Step(s, e).0, later, s')
    ensures forall k :: |s.executions| <= k < |s'.executions| ==> s'.executions[k].request != s.table[id]
  {
    Reachable(past, s);
    InvariantStep(s, e);
    var s1, r := Step(s, e).0, s.table[id];
    WithdrawnNow(s, id, e);
    NeverExecuted(s1, later, s', r);
  }

  lemma WithdrawnNow(s: State, id: int, e: Event)
    requires Invariant(s) && id in s.table
    requires e == Destroy(id) || (e == Cancel(id) && Quiet(s, s.table[id]))
    ensures var s1 := Step(s, e).0;
      s.table[id] < |s1.requests| && |s1.executions| == |s.executions| && !Executable(s1, s.table[id])
  {
  }

  /** Right behind a cancel or a destroy, running or not, an execution is refused. */
  lemma WithdrawnRefused(past: seq<Event>, s: State, id: int, kind: Kind, destroy: bool)
    requires Reaches(EMPTY, past, s) && id in s.table
    ensures Step(Step(s, Cancel(id)).0, Execute(id, kind, destroy)).1 == NotReady
    ensures Step(Step(s, Destroy(id)).0, Execute(id, kind, destroy)).1 == NilRequest
  {
    Reachable(past, s);
  }
}
