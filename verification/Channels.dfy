/** SimpleChannel and its watchers, and the path of a value from Set through a watcher and a monitor to the client. */
module Channels {
  import opened Bytes
  import M = Monitor

  /** A value with the channel version it was read at. */
  datatype Item<V> = Item(version: nat, value: V)

  /** One turn of the wait loop in watch.Next. */
  datatype Polled<V> = Got(item: Item<V>) | Cancelled | Blocked

  class SimpleChannel<V(==)> {
    var value: V
    var seqNo: nat

    /** Every value the channel held; the version of a value is its index. */
    ghost var history: seq<V>

    ghost predicate Valid()
      reads this
    {
      |history| == seqNo + 1 && history[seqNo] == value
    }

    constructor (initial: V)
      ensures Valid() && history == [initial]
    {
      value := initial;
      seqNo := 0;
      history := [initial];
    }

    method Set(v: V)
      requires Valid()
      modifies this
      ensures Valid() && history == old(history) + [v]
    {
      value := v;
      seqNo := seqNo + 1;
      history := history + [v];
    }
  }

  class Watch<V(==)> {
    const c: SimpleChannel<V>
    var seqNo: int

    constructor (c: SimpleChannel<V>)
      ensures this.c == c && seqNo == -1
    {
      this.c := c;
      seqNo := -1;
    }

    /**
     * A watcher that has not seen the current version gets it, cancelled or not, with the value the channel held
     * then; otherwise it gives up if cancelled and waits if not. A new watcher (version -1) never waits.
     */
    method Poll(cancelled: bool) returns (r: Polled<V>)
      requires c.Valid() && seqNo <= c.seqNo
      modifies this
      ensures seqNo <= c.seqNo && seqNo >= old(seqNo)
      ensures match r
        case Got(item) =>
          item.version == seqNo == c.seqNo && item.value == c.history[item.version] && old(seqNo) < seqNo
        case Cancelled => cancelled && seqNo == old(seqNo) == c.seqNo
        case Blocked => !cancelled && seqNo == old(seqNo) == c.seqNo
    {
      if seqNo >= c.seqNo {
        return if cancelled then Cancelled else Blocked;
      }
      seqNo := c.seqNo;
      return Got(Item(c.seqNo, c.value));
    }
  }

  // The whole system: a channel, one watcher goroutine, its monitor, and the handler that created both.

  /** Where the watcher goroutine is in Monitor.Watch. */
  datatype Place<V> = Checking | InNext | Holding(item: Item<V>) | Exited

  datatype System<V> = System(
    history: seq<V>,
    watched: nat,
    place: Place<V>,
    monitor: M.State<Item<V>>,
    sent: seq<Item<V>>,
    initial: Option<Item<V>>,
    cancelled: bool,
    forwarded: nat,
    stale: bool,
    late: bool)
  {
    function Version(): int {
      |history| - 1
    }

    /** The newest of the value in the watcher's hand, the pending one, and the last one sent. */
    function Newest(): Option<Item<V>> {
      if place.Holding? then Some(place.item)
      else if monitor.toSend.Some? then monitor.toSend
      else if |sent| > 0 then Some(sent[|sent| - 1])
      else None
    }
  }

  /** Steps of the three parties; each mutex-protected body is one step. */
  datatype Event<V> =
    | Set(value: V)         // the writer
    | CheckContext          // the watcher, between iterations
    | NextReturns           // the watcher, in Next
    | NextGivesUp           // the watcher, in Next, cancelled
    | Forward               // the watcher, sending what Next returned
    | SendInitial           // the handler that created the monitor
    | Start | Stop | Ack(nfree: int) | Terminate   // the client

  /** A monitor just created: the handler has called Next once and holds what it returned. */
  predicate Created<V(==)>(s: System<V>) {
    && |s.history| > 0 && s.watched == s.Version()
    && s.place == Checking && s.monitor == M.Fresh(s.monitor.pipeline) && s.sent == []
    && s.initial == Some(Item(s.watched, s.history[s.watched]))
    && !s.cancelled && s.forwarded == 0 && !s.stale && !s.late
  }

  predicate Enabled<V>(s: System<V>, e: Event<V>) {
    match e
    case CheckContext => s.place.Checking?
    case NextReturns => s.place.InNext? && s.watched < s.Version()
    case NextGivesUp => s.place.InNext? && s.watched >= s.Version() && s.cancelled
    case Forward => s.place.Holding?
    case SendInitial => s.initial.Some?
    case _ => true
  }

  function Call<V>(s: System<V>, call: M.Call<Item<V>>): System<V> {
    var (m, out) := M.Step(s.monitor, call);
    s.(monitor := m, sent := s.sent + out)
  }

  function After<V>(s: System<V>, e: Event<V>): System<V>
    requires Enabled(s, e)
  {
    match e
    case Set(v) => s.(history := s.history + [v])
    case CheckContext => s.(place := if s.cancelled then Exited else InNext)
    case NextReturns =>
      s.(place := Holding(Item(s.Version(), s.history[s.Version()])), watched := s.Version())
    case NextGivesUp => s.(place := Exited)
    case Forward =>
      Call(s, M.Send(Some(s.place.item))).(place := Checking, forwarded := s.forwarded + 1, stale := false)
    case SendInitial =>
      Call(s, M.Send(Some(s.initial.value))).(initial := None, stale := s.forwarded > 0, late := s.forwarded > 0)
    case Start => Call(s, M.Start)
    case Stop => Call(s, M.Stop)
    case Ack(nfree) => Call(s, M.Ack(nfree))
    case Terminate => s.(cancelled := true)
  }

  /** s' is reached from s by these events in this order. */
  predicate Reaches<V(==)>(s: System<V>, events: seq<Event<V>>, s': System<V>)
    decreases |events|
  {
    if |events| == 0 then s == s'
    else Enabled(s, events[0]) && Reaches(After(s, events[0]), events[1..], s')
  }

  // What every step keeps

  predicate Genuine<V(==)>(s: System<V>, item: Item<V>) {
    item.version < |s.history| && item.value == s.history[item.version]
  }

  /** Items carry the values the channel held; versions on their way never exceed the watcher's. */
  predicate Faithful<V(==)>(s: System<V>) {
    && s.watched < |s.history|
    && (s.place.Holding? ==> Genuine(s, s.place.item) && s.place.item.version == s.watched)
    && (s.monitor.toSend.Some? ==> Genuine(s, s.monitor.toSend.value) && s.monitor.toSend.value.version <= s.watched)
    && (s.initial.Some? ==> Genuine(s, s.initial.value) && s.initial.value.version <= s.watched)
    && forall k :: 0 <= k < |s.sent| ==> Genuine(s, s.sent[k]) && s.sent[k].version <= s.watched
  }

  /** What was offered last has the watcher's version, unless the initial value was offered behind a newer one. */
  predicate Newness<V(==)>(s: System<V>) {
    && (s.monitor.toSend.Some? ==> !M.MaySend(s.monitor))
    && (s.forwarded > 0 || s.initial.None? ==> s.Newest().Some?)
    && (!s.place.Holding? && s.Newest().Some? ==> (s.Newest().value.version == s.watched <==> !s.stale))
    && (s.forwarded == 0 ==> !s.stale)
    && (s.initial.Some? ==>
      && (if s.forwarded == 0 && !s.place.Holding? then s.initial.value.version == s.watched
          else s.initial.value.version < s.watched)
      && (s.forwarded == 0 ==> s.monitor.toSend.None? && s.sent == []))
  }

  /** The watcher leaves only when cancelled. */
  predicate Winding<V(==)>(s: System<V>) {
    s.place.Exited? ==> s.cancelled
  }

  /** Nothing is older than version first, that of the handler's initial value. */
  predicate NotBefore<V(==)>(first: nat, s: System<V>) {
    && first <= s.watched && (s.place.Holding? ==> first < s.watched)
    && (s.initial.Some? ==> s.initial.value.version == first)
    && (s.monitor.toSend.Some? ==> first <= s.monitor.toSend.value.version)
    && forall k :: 0 <= k < |s.sent| ==> first <= s.sent[k].version
  }

  /**
   * Every watched value is newer than everything that goes to the client before it. Only the initial value may be
   * older, and it is the first to go if it was not offered late.
   */
  predicate Ordered<V(==)>(first: nat, s: System<V>) {
    && (forall j, k :: 0 <= j < k < |s.sent| && s.sent[k].version != first ==> s.sent[j].version < s.sent[k].version)
    && (s.monitor.toSend.Some? && s.monitor.toSend.value.version != first ==>
      forall k :: 0 <= k < |s.sent| ==> s.sent[k].version < s.monitor.toSend.value.version)
    && (s.place.Holding? ==>
      && (forall k :: 0 <= k < |s.sent| ==> s.sent[k].version < s.watched)
      && (s.monitor.toSend.Some? ==> s.monitor.toSend.value.version < s.watched))
  }

  predicate Punctual<V(==)>(first: nat, s: System<V>) {
    !s.late ==>
      && (forall k :: 0 < k < |s.sent| ==> s.sent[k].version != first)
      && (s.monitor.toSend.Some? && s.monitor.toSend.value.version == first ==> s.sent == [])
  }

  predicate Invariant<V(==)>(first: nat, s: System<V>) {
    Faithful(s) && Newness(s) && NotBefore(first, s) && Ordered(first, s) && Punctual(first, s) && Winding(s)
  }

  lemma CreatedInvariant<V>(s: System<V>)
    requires Created(s)
    ensures Invariant(s.watched, s)
  {
  }

  lemma FaithfulSend<V>(s: System<V>, e: Event<V>)
    requires Faithful(s) && Enabled(s, e) && (e.Forward? || e.SendInitial?)
    ensures Faithful(After(s, e))
  {
  }

  lemma FaithfulClient<V>(s: System<V>, e: Event<V>)
    requires Faithful(s) && (e.Start? || e.Stop? || e.Ack?)
    ensures Faithful(After(s, e))
  {
  }

  lemma FaithfulStep<V>(s: System<V>, e: Event<V>)
    requires Faithful(s) && Enabled(s, e)
    ensures Faithful(After(s, e))
  {
    match e
    case Forward => hide After, Faithful; FaithfulSend(s, e);
    case SendInitial => hide After, Faithful; FaithfulSend(s, e);
    case Start | Stop => hide After, Faithful; FaithfulClient(s, e);
    case Ack(_) => hide After, Faithful; FaithfulClient(s, e);
    case _ => hide Call;
  }

  lemma NewnessSend<V>(s: System<V>, e: Event<V>)
    requires Faithful(s) && Newness(s) && Enabled(s, e) && (e.Forward? || e.SendInitial?)
    ensures Newness(After(s, e))
  {
  }

  lemma NewnessClient<V>(s: System<V>, e: Event<V>)
    requires Newness(s) && (e.Start? || e.Stop? || e.Ack?)
    ensures Newness(After(s, e))
  {
  }

  lemma NewnessStep<V>(s: System<V>, e: Event<V>)
    requires Faithful(s) && Newness(s) && Enabled(s, e)
    ensures Newness(After(s, e))
  {
    match e
    case Forward => hide After, Newness; NewnessSend(s, e);
    case SendInitial => hide After, Newness; NewnessSend(s, e);
    case Start | Stop => hide After, Newness; NewnessClient(s, e);
    case Ack(_) => hide After, Newness; NewnessClient(s, e);
    case _ => hide Call;
  }

  lemma NotBeforeStep<V>(first: nat, s: System<V>, e: Event<V>)
    requires Faithful(s) && NotBefore(first, s) && Enabled(s, e)
    ensures NotBefore(first, After(s, e))
  {
  }

  lemma OrderedForward<V>(first: nat, s: System<V>)
    requires Faithful(s) && NotBefore(first, s) && Ordered(first, s) && s.place.Holding?
    ensures Ordered(first, After(s, Forward))
  {
  }

  lemma OrderedInitial<V>(first: nat, s: System<V>)
    requires NotBefore(first, s) && Ordered(first, s) && s.initial.Some?
    ensures Ordered(first, After(s, SendInitial))
  {
  }

  lemma OrderedClient<V>(first: nat, s: System<V>, e: Event<V>)
    requires Ordered(first, s) && (e.Start? || e.Stop? || e.Ack?)
    ensures Ordered(first, After(s, e))
  {
  }

  lemma OrderedStep<V>(first: nat, s: System<V>, e: Event<V>)
    requires Faithful(s) && NotBefore(first, s) && Ordered(first, s) && Enabled(s, e)
    ensures Ordered(first, After(s, e))
  {
    match e
    case Forward => hide After, Ordered; OrderedForward(first, s);
    case SendInitial => hide After, Ordered; OrderedInitial(first, s);
    case Start | Stop => hide After, Ordered; OrderedClient(first, s, e);
    case Ack(_) => hide After, Ordered; OrderedClient(first, s, e);
    case _ => hide Call;
  }

  lemma PunctualSend<V>(first: nat, s: System<V>, e: Event<V>)
    requires Newness(s) && NotBefore(first, s) && Punctual(first, s)
    requires Enabled(s, e) && (e.Forward? || e.SendInitial?)
    requires s.place.Holding? ==> s.place.item.version == s.watched
    ensures Punctual(first, After(s, e))
  {
  }

  lemma PunctualStep<V>(first: nat, s: System<V>, e: Event<V>)
    requires Faithful(s) && Newness(s) && NotBefore(first, s) && Punctual(first, s) && Enabled(s, e)
    ensures Punctual(first, After(s, e))
  {
    match e
    case Forward => hide After, Punctual; PunctualSend(first, s, e);
    case SendInitial => hide After, Punctual; PunctualSend(first, s, e);
    case _ => hide Newness, NotBefore, Faithful;
  }

  lemma WindingStep<V>(s: System<V>, e: Event<V>)
    requires Winding(s) && Enabled(s, e)
    ensures Winding(After(s, e))
  {
  }

  lemma {:induction false} InvariantHolds<V>(first: nat, s: System<V>, events: seq<Event<V>>, s': System<V>)
    requires Invariant(first, s) && Reaches(s, events, s')
    ensures Invariant(first, s')
    decreases |events|
  {
    if |events| > 0 {
      hide Faithful, Newness, NotBefore, Ordered, Punctual, Winding, Enabled, After;
      FaithfulStep(s, events[0]);
      NewnessStep(s, events[0]);
      NotBeforeStep(first, s, events[0]);
      OrderedStep(first, s, events[0]);
      PunctualStep(first, s, events[0]);
      WindingStep(s, events[0]);
      InvariantHolds(first, After(s, events[0]), events[1..], s');
    }
  }

  /**
   * In every state reachable from a newly created monitor: once anything was offered, the newest of the value in the
   * watcher's hand, the pending value and the last value sent is the watcher's version, exactly when the handler did
   * not offer its older initial value behind a watched one with nothing watched since.
   */
  lemma NewestIsWatched<V>(s: System<V>, events: seq<Event<V>>, s': System<V>)
    requires Created(s) && Reaches(s, events, s')
    requires s'.forwarded > 0 || s'.initial.None?
    ensures s'.Newest().Some?
    ensures s'.Newest().value.version == s'.watched <==> s'.place.Holding? || !s'.stale
  {
    CreatedInvariant(s);
    InvariantHolds(s.watched, s, events, s');
  }

  /**
   * A caught-up, empty-handed watcher and a monitor that may send: the client's last value is the channel's current
   * one, exactly when the initial value was not offered last behind a newer one.
   */
  lemma ClientIsCurrent<V>(s: System<V>, events: seq<Event<V>>, s': System<V>)
    requires Created(s) && Reaches(s, events, s')
    requires s'.forwarded > 0 || s'.initial.None?
    requires !s'.place.Holding? && s'.watched == s'.Version() && M.MaySend(s'.monitor)
    ensures |s'.sent| > 0
    ensures s'.sent[|s'.sent| - 1] == Item(s'.watched, s'.history[s'.Version()]) <==> !s'.stale
  {
    CreatedInvariant(s);
    InvariantHolds(s.watched, s, events, s');
  }

  predicate InOrder<V>(items: seq<Item<V>>) {
    forall j, k :: 0 <= j < k < |items| ==> items[j].version < items[k].version
  }

  /** The initial value, of version first, was sent first if it was sent. */
  predicate InitialFirst<V>(first: nat, items: seq<Item<V>>) {
    forall k :: 0 < k < |items| ==> items[k].version != first
  }

  /**
   * Every value the client receives is one the channel held at its version, and the client sees the channel's
   * versions in strictly increasing order exactly when the handler's initial value, if the client got it, came first.
   * It does if the handler offered it before the watcher forwarded anything. In every run each watched value is newer
   * than everything the client got before it.
   */
  lemma ClientSeesHistory<V>(s: System<V>, events: seq<Event<V>>, s': System<V>)
    requires Created(s) && Reaches(s, events, s')
    ensures forall k :: 0 <= k < |s'.sent| ==> Genuine(s', s'.sent[k])
    ensures InOrder(s'.sent) <==> InitialFirst(s.watched, s'.sent)
    ensures !s'.late ==> InOrder(s'.sent)
    ensures forall j, k :: 0 <= j < k < |s'.sent| && s'.sent[k].version != s.watched ==>
      s'.sent[j].version < s'.sent[k].version
  {
    CreatedInvariant(s);
    InvariantHolds(s.watched, s, events, s');
    if InOrder(s'.sent) {
      assert forall k :: 0 < k < |s'.sent| ==> s'.sent[0].version < s'.sent[k].version;
    }
  }

  /** What Next returned to the watcher in a run, in order. */
  function Returned<V(==)>(s: System<V>, events: seq<Event<V>>, s': System<V>): seq<Item<V>>
    requires Reaches(s, events, s')
    decreases |events|
  {
    if |events| == 0 then []
    else
      (if events[0].NextReturns? then [After(s, events[0]).place.item] else [])
      + Returned(After(s, events[0]), events[1..], s')
  }

  /** items are versions behind lo, in strictly increasing order, each with the value of its version in the history. */
  predicate Increasing<V(==)>(lo: int, items: seq<Item<V>>, history: seq<V>) {
    && (forall k :: 0 <= k < |items| ==>
      lo < items[k].version < |history| && items[k].value == history[items[k].version])
    && forall j, k :: 0 <= j < k < |items| ==> items[j].version < items[k].version
  }

  lemma IncreasingCons<V>(lo: int, item: Item<V>, items: seq<Item<V>>, history: seq<V>)
    requires Increasing(item.version, items, history)
    requires lo < item.version < |history| && item.value == history[item.version]
    ensures Increasing(lo, [item] + items, history)
  {
  }

  lemma EventVersion<V>(s: System<V>, e: Event<V>)
    requires Enabled(s, e) && s.watched < |s.history|
    ensures var s' := After(s, e);
      && s.history <= s'.history && s'.watched < |s'.history|
      && if e.NextReturns? then
           && s'.history == s.history && s.watched < s'.watched == |s.history| - 1
           && s'.place == Holding(Item(|s.history| - 1, s.history[|s.history| - 1]))
         else s'.watched == s.watched && s'.history == if e.Set? then s.history + [e.value] else s.history
  {
  }

  /**
   * In any run, from any state, the versions returned to the watcher strictly increase, never exceed the channel's,
   * and come with the values the channel held at those versions.
   */
  lemma {:induction false} VersionsIncrease<V>(s: System<V>, events: seq<Event<V>>, s': System<V>)
    requires Reaches(s, events, s') && s.watched < |s.history|
    ensures s.watched <= s'.watched < |s'.history| && s.history <= s'.history
    ensures Increasing(s.watched, Returned(s, events, s'), s'.history)
    decreases |events|
  {
    if |events| > 0 {
      var s1 := After(s, events[0]);
      EventVersion(s, events[0]);
      VersionsIncrease(s1, events[1..], s');
      hide Increasing, After, Enabled;
      var more := Returned(s1, events[1..], s');
      Nil(more);
      if events[0].NextReturns? {
        IncreasingCons(s.watched, s1.place.item, more, s'.history);
      } else {
        assert s1.watched == s.watched;
      }
    }
  }

  // The events as seen by the channel, the watcher and the monitor

  /** The values set in a run. */
  function Values<V>(events: seq<Event<V>>): seq<V> {
    if |events| == 0 then [] else (if events[0].Set? then [events[0].value] else []) + Values(events[1..])
  }

  /** Each Set adds one version, with its value, and nothing else touches the history. */
  lemma {:induction false} HistoryIsValues<V>(s: System<V>, events: seq<Event<V>>, s': System<V>)
    requires Reaches(s, events, s') && s.watched < |s.history|
    ensures s'.history == s.history + Values(events)
    decreases |events|
  {
    if |events| == 0 {
      Nil(s.history);
    } else {
      hide Enabled, After;
      EventVersion(s, events[0]);
      HistoryIsValues(After(s, events[0]), events[1..], s');
      Nil(Values(events[1..]));
      if events[0].Set? {
        Assoc(s.history, [events[0].value], Values(events[1..]));
      }
    }
  }

  /** What the watcher sent to the monitor in a run. */
  function Forwarded<V(==)>(s: System<V>, events: seq<Event<V>>, s': System<V>): seq<Item<V>>
    requires Reaches(s, events, s')
    decreases |events|
  {
    if |events| == 0 then []
    else
      (if events[0].Forward? then [s.place.item] else []) + Forwarded(After(s, events[0]), events[1..], s')
  }

  function InHand<V>(s: System<V>): seq<Item<V>> {
    if s.place.Holding? then [s.place.item] else []
  }

  /** Everything Next returned goes to the monitor, in order, but for the item still in the watcher's hand. */
  lemma {:induction false} ForwardedIsReturned<V>(s: System<V>, events: seq<Event<V>>, s': System<V>)
    requires Reaches(s, events, s')
    ensures Forwarded(s, events, s') + InHand(s') == InHand(s) + Returned(s, events, s')
    decreases |events|
  {
    if |events| > 0 {
      var s1, rest := After(s, events[0]), events[1..];
      ForwardedIsReturned(s1, rest, s');
      var forwarded, returned := Forwarded(s1, rest, s'), Returned(s1, rest, s');
      hide Returned, Forwarded;
      HandStep(s, events[0]);
      hide After, Enabled;
      Nil(forwarded);
      Nil(returned);
      Nil(InHand(s'));
      if events[0].Forward? {
        Assoc([s.place.item], forwarded, InHand(s'));
      }
    }
  }

  lemma HandStep<V>(s: System<V>, e: Event<V>)
    requires Enabled(s, e)
    ensures var s' := After(s, e);
      if e.Forward? then s.place.Holding? && !s'.place.Holding?
      else if e.NextReturns? then !s.place.Holding? && s'.place.Holding?
      else InHand(s') == InHand(s)
  {
  }

  /** The call the monitor gets by an event, if any: from the watcher, the handler or the client. */
  function CallOf<V>(s: System<V>, e: Event<V>): seq<M.Call<Item<V>>>
    requires Enabled(s, e)
  {
    match e
    case Forward => [M.Send(Some(s.place.item))]
    case SendInitial => [M.Send(Some(s.initial.value))]
    case Start => [M.Start]
    case Stop => [M.Stop]
    case Ack(nfree) => [M.Ack(nfree)]
    case _ => []
  }

  /** The calls the monitor gets in a run. */
  function Calls<V(==)>(s: System<V>, events: seq<Event<V>>, s': System<V>): seq<M.Call<Item<V>>>
    requires Reaches(s, events, s')
    decreases |events|
  {
    if |events| == 0 then [] else CallOf(s, events[0]) + Calls(After(s, events[0]), events[1..], s')
  }

  lemma EventCall<V>(pipeline: bool, past: seq<M.Call<Item<V>>>, s: System<V>, e: Event<V>)
    requires Enabled(s, e) && (s.monitor, s.sent) == M.Run(pipeline, past)
    ensures (After(s, e).monitor, After(s, e).sent) == M.Run(pipeline, past + CallOf(s, e))
  {
    if CallOf(s, e) == [] {
      Nil(past);
    } else {
      M.Snoc(past, CallOf(s, e)[0]);
    }
  }

  lemma {:induction false} CallsFrom<V>(
      pipeline: bool, past: seq<M.Call<Item<V>>>, s: System<V>, events: seq<Event<V>>, s': System<V>)
    requires Reaches(s, events, s') && (s.monitor, s.sent) == M.Run(pipeline, past)
    ensures (s'.monitor, s'.sent) == M.Run(pipeline, past + Calls(s, events, s'))
    decreases |events|
  {
    if |events| == 0 {
      Nil(past);
    } else {
      hide M.Run, After, Enabled, CallOf;
      var s1 := After(s, events[0]);
      EventCall(pipeline, past, s, events[0]);
      CallsFrom(pipeline, past + CallOf(s, events[0]), s1, events[1..], s');
      Assoc(past, CallOf(s, events[0]), Calls(s1, events[1..], s'));
    }
  }

  /**
   * The monitor of the system and the values sent to the client are those of a monitor on its own with the calls the
   * events make, so everything proved of a monitor's histories holds in the system.
   */
  lemma SystemIsMonitor<V>(s: System<V>, events: seq<Event<V>>, s': System<V>)
    requires Created(s) && Reaches(s, events, s')
    ensures (s'.monitor, s'.sent) == M.Run(s.monitor.pipeline, Calls(s, events, s'))
  {
    CallsFrom(s.monitor.pipeline, [], s, events, s');
    Nil(Calls(s, events, s'));
  }

  /** A client that stops the monitor, and does not start it again, gets nothing more. */
  lemma StoppedIsSilent<V>(s: System<V>, past: seq<Event<V>>, s1: System<V>, later: seq<Event<V>>, s2: System<V>)
    requires Created(s) && Reaches(s, past, s1) && Reaches(After(s1, Stop), later, s2)
    requires Start !in later
    ensures s2.sent == s1.sent && !s2.monitor.running
  {
    StopSilences(s1);
    StaysSilent(After(s1, Stop), later, s2);
  }

  lemma StopSilences<V>(s: System<V>)
    ensures var s' := After(s, Stop); s'.sent == s.sent && !s'.monitor.running
  {
    Nil(s.sent);
  }

  lemma {:induction false} StaysSilent<V>(s: System<V>, events: seq<Event<V>>, s': System<V>)
    requires Reaches(s, events, s') && !s.monitor.running && Start !in events
    ensures s'.sent == s.sent && !s'.monitor.running
    decreases |events|
  {
    if |events| > 0 {
      assert events[0] in events;
      assert Start !in events[1..];
      Nil(s.sent);
      StaysSilent(After(s, events[0]), events[1..], s');
    }
  }

  /** The sum of the client's acknowledgements in a run. */
  function Acked<V>(events: seq<Event<V>>): int {
    if |events| == 0 then 0 else (if events[0].Ack? then events[0].nfree else 0) + Acked(events[1..])
  }

  /** The largest value a sum reaches that starts at a and adds the acknowledgements one by one. */
  function Peak<V>(a: int, events: seq<Event<V>>): (peak: int)
    ensures peak >= a
    decreases |events|
  {
    if |events| == 0 then a
    else
      var later := Peak(if events[0].Ack? then a + events[0].nfree else a, events[1..]);
      if later > a then later else a
  }

  lemma CreditStep<V>(s: System<V>, e: Event<V>)
    requires Enabled(s, e) && s.monitor.pipeline
    ensures var s' := After(s, e);
      && s'.monitor.pipeline && |s.sent| <= |s'.sent|
      && |s'.sent| + s'.monitor.windowOpen == |s.sent| + s.monitor.windowOpen + (if e.Ack? then e.nfree else 0)
      && (|s.sent| < |s'.sent| ==> s'.monitor.windowOpen >= 0)
  {
    match e
    case Forward =>
    case SendInitial =>
    case Start | Stop =>
    case Ack(_) =>
    case _ =>
  }

  lemma {:induction false} CreditFrom<V>(a: int, m: int, s: System<V>, events: seq<Event<V>>, s': System<V>)
    requires Reaches(s, events, s') && s.monitor.pipeline
    requires |s.sent| + s.monitor.windowOpen == a && |s.sent| <= m && Peak(a, events) <= m
    ensures |s'.sent| + s'.monitor.windowOpen == a + Acked(events) && |s'.sent| <= m
    decreases |events|
  {
    if |events| > 0 {
      hide After, Enabled;
      CreditStep(s, events[0]);
      CreditFrom(if events[0].Ack? then a + events[0].nfree else a, m, After(s, events[0]), events[1..], s');
    }
  }

  /**
   * In pipeline mode, whatever the other parties do: values sent and credit left add up to what the client has
   * acknowledged, and never more is sent than it ever had acknowledged in all.
   */
  lemma ClientCredit<V>(s: System<V>, events: seq<Event<V>>, s': System<V>)
    requires Created(s) && s.monitor.pipeline && Reaches(s, events, s')
    ensures |s'.sent| + s'.monitor.windowOpen == Acked(events) && |s'.sent| <= Peak(0, events)
  {
    CreditFrom(0, Peak(0, events), s, events, s');
  }

  // Progress

  predicate WatcherSteps<V>(events: seq<Event<V>>) {
    forall k :: 0 <= k < |events| ==> events[k].CheckContext? || events[k].NextReturns? || events[k].Forward?
  }

  /** The watcher has the channel's version and nothing in hand; the channel is as it was. */
  predicate UpToDate<V(==)>(s: System<V>, s': System<V>) {
    s'.history == s.history && s'.watched == s'.Version() && !s'.place.Holding?
  }

  lemma WatcherTurn<V>(s: System<V>) returns (events: seq<Event<V>>, s': System<V>)
    requires !s.cancelled && s.watched < |s.history| && (s.place.Checking? || s.place.InNext?)
    ensures WatcherSteps(events) && Reaches(s, events, s') && UpToDate(s, s')
  {
    if s.watched == s.Version() {
      events, s' := [], s;
    } else if s.place.Checking? {
      var s1 := After(s, CheckContext);
      var s2 := After(s1, NextReturns);
      events, s' := [CheckContext, NextReturns, Forward], After(s2, Forward);
      assert Reaches(s', [], s');
      assert Reaches(s2, [Forward], s');
      assert Reaches(s1, [NextReturns, Forward], s');
    } else {
      var s2 := After(s, NextReturns);
      events, s' := [NextReturns, Forward], After(s2, Forward);
      assert Reaches(s', [], s');
      assert Reaches(s2, [Forward], s');
    }
  }

  /**
   * From every reachable state without cancellation, the watcher by its own steps alone gets up to date, with nothing
   * in hand, so that what is proved of such states of the client can always be had.
   */
  lemma WatcherCatchesUp<V>(first: System<V>, past: seq<Event<V>>, s: System<V>)
    returns (events: seq<Event<V>>, s': System<V>)
    requires Created(first) && Reaches(first, past, s) && !s.cancelled
    ensures WatcherSteps(events) && Reaches(s, events, s') && UpToDate(s, s')
  {
    CreatedInvariant(first);
    InvariantHolds(first.watched, first, past, s);
    if s.place.Holding? {
      var s1 := After(s, Forward);
      assert s1.history == s.history && s1.watched == s.watched && s1.place == Checking && !s1.cancelled;
      hide After, Faithful, Newness, NotBefore, Ordered, Punctual, Winding;
      var rest, s2 := WatcherTurn(s1);
      events, s' := [Forward] + rest, s2;
      assert events[1..] == rest;
    } else {
      hide After, Newness, NotBefore, Ordered, Punctual;
      events, s' := WatcherTurn(s);
    }
  }

  /** From every reachable cancelled state, the watcher can leave by its own steps alone. */
  lemma WatcherLeaves<V>(first: System<V>, past: seq<Event<V>>, s: System<V>)
    returns (events: seq<Event<V>>, s': System<V>)
    requires Created(first) && Reaches(first, past, s) && s.cancelled
    ensures WatcherSteps(events) || events == [NextGivesUp]
    ensures Reaches(s, events, s') && s'.place.Exited?
  {
    CreatedInvariant(first);
    InvariantHolds(first.watched, first, past, s);
    match s.place
    case Exited => events, s' := [], s;
    case Checking =>
      events, s' := [CheckContext], After(s, CheckContext);
      assert Reaches(s', [], s');
    case Holding(_) => events, s' := LeavesHolding(s);
    case InNext =>
      if s.watched < s.Version() {
        var rest;
        rest, s' := LeavesHolding(After(s, NextReturns));
        events := [NextReturns] + rest;
        assert events[1..] == rest;
      } else {
        events, s' := [NextGivesUp], After(s, NextGivesUp);
        assert Reaches(s', [], s');
      }
  }

  lemma LeavesHolding<V>(s: System<V>) returns (events: seq<Event<V>>, s': System<V>)
    requires s.cancelled && s.place.Holding?
    ensures WatcherSteps(events) && Reaches(s, events, s') && s'.place.Exited?
  {
    var s1 := After(s, Forward);
    events, s' := [Forward, CheckContext], After(s1, CheckContext);
    assert Reaches(s', [], s');
    assert Reaches(s1, [CheckContext], s');
  }

  lemma {:induction false} WindsDown<V>(s: System<V>, events: seq<Event<V>>, s': System<V>)
    requires Reaches(s, events, s') && s.cancelled
    ensures s'.cancelled && |Returned(s, events, s')| <= if s.place.InNext? then 1 else 0
    decreases |events|
  {
    if |events| > 0 {
      CancelledStep(s, events[0]);
      hide After, Enabled;
      WindsDown(After(s, events[0]), events[1..], s');
    }
  }

  lemma CancelledStep<V>(s: System<V>, e: Event<V>)
    requires Enabled(s, e) && s.cancelled
    ensures var s' := After(s, e);
      && s'.cancelled && (s'.place.InNext? ==> s.place.InNext?)
      && (e.NextReturns? ==> s.place.InNext? && !s'.place.InNext?)
  {
  }

  /** Once the client has terminated the monitor, Next returns at most one more value to the watcher. */
  lemma AtMostOneAfterTerminate<V>(s: System<V>, later: seq<Event<V>>, s': System<V>)
    requires Reaches(After(s, Terminate), later, s')
    ensures |Returned(After(s, Terminate), later, s')| <= 1
  {
    WindsDown(After(s, Terminate), later, s');
  }

  lemma {:induction false} ReachesThen<V>(s: System<V>, events: seq<Event<V>>, s': System<V>, e: Event<V>)
    requires Reaches(s, events, s') && Enabled(s', e)
    ensures Reaches(s, events + [e], After(s', e))
    decreases |events|
  {
    if |events| > 0 {
      hide Enabled, After;
      ReachesThen(After(s, events[0]), events[1..], s', e);
      assert (events + [e])[1..] == events[1..] + [e];
    }
  }

  /**
   * A client that starts the monitor before the handler offers the initial value may end with the older value: here
   * the watcher forwards version 1 first.
   */
  lemma LateInitialValue(s: System<nat>) returns (events: seq<Event<nat>>, s': System<nat>)
    requires Created(s) && s.history == [7] && !s.monitor.pipeline
    ensures Reaches(s, events, s') && s'.history == [7, 8] && s'.watched == s'.Version() == 1
    ensures s'.sent == [Item(1, 8), Item(0, 7)]
  {
    events, s' := [], s;
    assert Reaches(s, events, s');
    hide Reaches;
    ReachesThen(s, events, s', Start);
    events, s' := events + [Start], After(s', Start);
    ReachesThen(s, events, s', CheckContext);
    events, s' := events + [CheckContext], After(s', CheckContext);
    ReachesThen(s, events, s', Set(8));
    events, s' := events + [Set(8)], After(s', Set(8));
    ReachesThen(s, events, s', NextReturns);
    events, s' := events + [NextReturns], After(s', NextReturns);
    ReachesThen(s, events, s', Forward);
    events, s' := events + [Forward], After(s', Forward);
    ReachesThen(s, events, s', SendInitial);
    events, s' := events + [SendInitial], After(s', SendInitial);
  }
}
