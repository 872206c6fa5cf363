/** Monitor: one pending value, overwritten by newer ones, sent while running and, in pipeline mode, with credit. */
module Monitor {
  import opened Bytes

  datatype State<T> = State(pipeline: bool, running: bool, windowOpen: int, toSend: Option<T>)

  /** A call of the monitor. A send of None offers a nil value. */
  datatype Call<T> = Start | Stop | Ack(nfree: int) | Send(value: Option<T>)

  predicate MaySend<T>(m: State<T>) {
    m.running && (!m.pipeline || m.windowOpen > 0)
  }

  /** drain: what is sent, and what remains. */
  function Drain<T>(m: State<T>): (State<T>, seq<T>) {
    if MaySend(m) && m.toSend.Some? then
      (m.(windowOpen := if m.windowOpen > 0 then m.windowOpen - 1 else m.windowOpen, toSend := None), [m.toSend.value])
    else (m, [])
  }

  function Step<T>(m: State<T>, call: Call<T>): (State<T>, seq<T>) {
    match call
    case Start => Drain(m.(running := true))
    case Stop => Drain(m.(running := false))
    case Ack(nfree) => Drain(m.(windowOpen := m.windowOpen + nfree))
    case Send(value) => Drain(m.(toSend := value))
  }

  function Fresh<T>(pipeline: bool): State<T> {
    State(pipeline, false, 0, None)
  }

  /** The state after a history of calls, and everything sent during it. */
  function Run<T>(pipeline: bool, calls: seq<Call<T>>): (State<T>, seq<T>) {
    if |calls| == 0 then (Fresh(pipeline), [])
    else
      var (m, sent) := Run(pipeline, calls[..|calls| - 1]);
      var (m', out) := Step(m, calls[|calls| - 1]);
      (m', sent + out)
  }

  // What a history offers

  /** No nil values are offered. */
  predicate RealOffers<T>(calls: seq<Call<T>>) {
    forall k :: 0 <= k < |calls| && calls[k].Send? ==> calls[k].value.Some?
  }

  function Offers<T>(calls: seq<Call<T>>): seq<T>
    requires RealOffers(calls)
  {
    if |calls| == 0 then []
    else
      var last := calls[|calls| - 1];
      Offers(calls[..|calls| - 1]) + if last.Send? then [last.value.value] else []
  }

  /** For each value sent, its position among the offers: always the latest offer at that time. */
  function SentOffers<T>(pipeline: bool, calls: seq<Call<T>>): seq<nat>
    requires RealOffers(calls)
  {
    if |calls| == 0 then []
    else
      var before := calls[..|calls| - 1];
      var out := Step(Run(pipeline, before).0, calls[|calls| - 1]).1;
      SentOffers(pipeline, before) + if |out| > 0 && |Offers(calls)| > 0 then [|Offers(calls)| - 1] else []
  }

  /** How many offers arrived while an earlier one was still waiting. */
  function Overwritten<T>(pipeline: bool, calls: seq<Call<T>>): nat {
    if |calls| == 0 then 0
    else
      var before := calls[..|calls| - 1];
      Overwritten(pipeline, before)
      + if calls[|calls| - 1].Send? && Run(pipeline, before).0.toSend.Some? then 1 else 0
  }

  /** sent picks values out of offers at strictly increasing positions. */
  predicate Picks<T(==)>(sent: seq<T>, positions: seq<nat>, offers: seq<T>) {
    && |sent| == |positions|
    && (forall k :: 0 <= k < |sent| ==> positions[k] < |offers| && sent[k] == offers[positions[k]])
    && forall j, k :: 0 <= j < k < |positions| ==> positions[j] < positions[k]
  }

  lemma PicksMore<T>(sent: seq<T>, positions: seq<nat>, offers: seq<T>, v: T)
    requires Picks(sent, positions, offers)
    ensures Picks(sent, positions, offers + [v])
  {
  }

  lemma PicksLatest<T>(sent: seq<T>, positions: seq<nat>, offers: seq<T>)
    requires |offers| > 0 && Picks(sent, positions, offers) && |offers| - 1 !in positions
    ensures Picks(sent + [offers[|offers| - 1]], positions + [|offers| - 1], offers)
  {
  }

  /**
   * Over every history of real offers: the values sent are offered values in their order, none twice, and a pending
   * value is the latest offer and has not been sent.
   */
  lemma {:induction false} DeliveryInOrder<T>(pipeline: bool, calls: seq<Call<T>>)
    requires RealOffers(calls)
    ensures var (m, sent) := Run(pipeline, calls);
      var offers, positions := Offers(calls), SentOffers(pipeline, calls);
      && Picks(sent, positions, offers)
      && (m.toSend.Some? ==> |offers| > 0 && m.toSend.value == offers[|offers| - 1] && |offers| - 1 !in positions)
  {
    hide Picks, Run, Offers, SentOffers, Step;
    HistoryStep(pipeline, calls);
    if |calls| == 0 {
      PicksNone<T>();
    } else {
      var before, call := calls[..|calls| - 1], calls[|calls| - 1];
      DeliveryInOrder(pipeline, before);
      var (m, sent) := Run(pipeline, before);
      var positions := SentOffers(pipeline, before);
      if call.Send? {
        PicksMore(sent, positions, Offers(before), call.value.value);
        PicksBound(sent, positions, Offers(before));
      }
      StepPending(m, call);
      if |Step(m, call).1| > 0 {
        PicksLatest(sent, positions, Offers(calls));
      }
    }
  }

  /** What a call sends is what was pending or is offered now, and then nothing is pending. */
  lemma StepPending<T>(m: State<T>, call: Call<T>)
    ensures var latest := if call.Send? then call.value else m.toSend;
      var (m', out) := Step(m, call);
      if |out| > 0 then latest == Some(out[0]) && m'.toSend == None else m'.toSend == latest
  {
  }

  lemma StepSendsOne<T>(m: State<T>, call: Call<T>)
    ensures var out := Step(m, call).1; out == [] || out == [out[0]]
  {
  }

  /** The definitions at play, one call unfolded. */
  lemma HistoryStep<T>(pipeline: bool, calls: seq<Call<T>>)
    requires RealOffers(calls)
    ensures if |calls| == 0 then
        Run(pipeline, calls) == (Fresh(pipeline), []) && Offers(calls) == [] && SentOffers(pipeline, calls) == []
      else
        var before, call := calls[..|calls| - 1], calls[|calls| - 1];
        var (m, sent) := Run(pipeline, before);
        var (m', out) := Step(m, call);
        && RealOffers(before)
        && Offers(calls) == (if call.Send? then Offers(before) + [call.value.value] else Offers(before))
        && Run(pipeline, calls) == (m', if |out| > 0 then sent + [out[0]] else sent)
        && SentOffers(pipeline, calls)
        == (if |out| > 0 && |Offers(calls)| > 0 then SentOffers(pipeline, before) + [|Offers(calls)| - 1]
            else SentOffers(pipeline, before))
  {
    hide Step;
    if |calls| > 0 {
      var before := calls[..|calls| - 1];
      StepSendsOne(Run(pipeline, before).0, calls[|calls| - 1]);
      Nil(Offers(before));
      Nil(SentOffers(pipeline, before));
      Nil(Run(pipeline, before).1);
    }
  }

  lemma PicksNone<T>()
    ensures Picks<T>([], [], [])
  {
  }

  lemma PicksBound<T>(sent: seq<T>, positions: seq<nat>, offers: seq<T>)
    requires Picks(sent, positions, offers)
    ensures |offers| !in positions
  {
  }

  /** Every offer is sent, overwritten while it waited, or pending. */
  lemma {:induction false} OffersAccounted<T>(pipeline: bool, calls: seq<Call<T>>)
    requires RealOffers(calls)
    ensures var (m, sent) := Run(pipeline, calls);
      |Offers(calls)| == |sent| + Overwritten(pipeline, calls) + (if m.toSend.Some? then 1 else 0)
  {
    if |calls| > 0 {
      OffersAccounted(pipeline, calls[..|calls| - 1]);
    }
  }

  /** With nothing pending, the latest offer is the last value sent. */
  lemma {:induction false} LatestSent<T>(pipeline: bool, calls: seq<Call<T>>)
    requires RealOffers(calls)
    ensures var (m, sent) := Run(pipeline, calls);
      var offers := Offers(calls);
      m.toSend.None? && |offers| > 0 ==> |sent| > 0 && sent[|sent| - 1] == offers[|offers| - 1]
  {
    hide Picks, SentOffers, Run, Offers;
    HistoryStep(pipeline, calls);
    if |calls| > 0 {
      LatestSent(pipeline, calls[..|calls| - 1]);
      DeliveryInOrder(pipeline, calls[..|calls| - 1]);
    }
  }

  /** No call leaves a value waiting that may be sent. */
  lemma NothingSendable<T>(pipeline: bool, calls: seq<Call<T>>)
    ensures var m := Run(pipeline, calls).0; m.pipeline == pipeline && (m.toSend.Some? ==> !MaySend(m))
  {
  }

  // Credit

  function AckSum<T>(calls: seq<Call<T>>): int {
    if |calls| == 0 then 0
    else AckSum(calls[..|calls| - 1]) + if calls[|calls| - 1].Ack? then calls[|calls| - 1].nfree else 0
  }

  /** The largest sum the acknowledgements ever had. */
  function MaxAckSum<T>(calls: seq<Call<T>>): (s: int)
    ensures s >= 0 && s >= AckSum(calls)
  {
    if |calls| == 0 then 0
    else
      var before := MaxAckSum(calls[..|calls| - 1]);
      if AckSum(calls) > before then AckSum(calls) else before
  }

  lemma MaxAckSumGrows<T>(calls: seq<Call<T>>)
    ensures MaxAckSum(calls) >= 0
    ensures |calls| > 0 ==> MaxAckSum(calls) >= MaxAckSum(calls[..|calls| - 1])
  {
  }

  /**
   * In pipeline mode, over every history, negative acknowledgements included: values sent and credit left add up to
   * the acknowledgements, and never more is sent than was ever granted.
   */
  lemma {:induction false} CreditConserved<T>(calls: seq<Call<T>>)
    ensures var (m, sent) := Run(true, calls);
      m.pipeline && |sent| + m.windowOpen == AckSum(calls) && |sent| <= MaxAckSum(calls)
  {
    hide MaxAckSum;
    MaxAckSumGrows(calls);
    if |calls| > 0 {
      CreditConserved(calls[..|calls| - 1]);
    }
  }

  /** In both modes, a call adds what it acknowledges, and one that sends takes a credit if there is one. */
  lemma CreditTaken<T>(pipeline: bool, calls: seq<Call<T>>, call: Call<T>)
    ensures var (m, sent) := Run(pipeline, calls);
      var (m', sent') := Run(pipeline, calls + [call]);
      var window := m.windowOpen + (if call.Ack? then call.nfree else 0);
      && |sent| <= |sent'| <= |sent| + 1
      && m'.windowOpen == if |sent'| > |sent| && window > 0 then window - 1 else window
  {
    Snoc(calls, call);
  }

  /** Whether the last start or stop was a start. */
  predicate Started<T>(calls: seq<Call<T>>) {
    |calls| > 0 &&
    match calls[|calls| - 1]
    case Start => true
    case Stop => false
    case _ => Started(calls[..|calls| - 1])
  }

  lemma {:induction false} RunningIsStarted<T>(pipeline: bool, calls: seq<Call<T>>)
    ensures Run(pipeline, calls).0.running == Started(calls)
  {
    if |calls| > 0 {
      RunningIsStarted(pipeline, calls[..|calls| - 1]);
    }
  }

  /** A call that leaves the monitor stopped sends nothing. */
  lemma SilentWhileStopped<T>(pipeline: bool, calls: seq<Call<T>>)
    requires |calls| > 0 && !Started(calls)
    ensures Run(pipeline, calls).1 == Run(pipeline, calls[..|calls| - 1]).1
  {
    RunningIsStarted(pipeline, calls);
    Nil(Run(pipeline, calls[..|calls| - 1]).1);
  }

  /**
   * A started monitor with credit to spare (or none needed) has sent the latest offer: only stopping, or as many
   * values sent as acknowledged, keeps one back.
   */
  lemma CaughtUp<T>(pipeline: bool, calls: seq<Call<T>>)
    requires RealOffers(calls) && |Offers(calls)| > 0
    requires Started(calls) && (pipeline ==> |Run(pipeline, calls).1| < AckSum(calls))
    ensures var sent := Run(pipeline, calls).1; |sent| > 0 && sent[|sent| - 1] == Offers(calls)[|Offers(calls)| - 1]
  {
    RunningIsStarted(pipeline, calls);
    NothingSendable(pipeline, calls);
    if pipeline {
      CreditConserved(calls);
    }
    LatestSent(pipeline, calls);
  }

  /** The monitor object: each locked method is one call of the history. */
  class Monitor<T> {
    const pipeline: bool
    var running: bool
    var windowOpen: int
    var toSend: Option<T>

    /** What the sendValue callback was given. */
    var sent: seq<T>

    ghost var calls: seq<Call<T>>

    ghost predicate Valid()
      reads this
    {
      (State(pipeline, running, windowOpen, toSend), sent) == Run(pipeline, calls)
    }

    constructor (pipeline: bool)
      ensures Valid() && this.pipeline == pipeline && calls == [] && sent == []
    {
      this.pipeline := pipeline;
      running := false;
      windowOpen := 0;
      toSend := None;
      sent := [];
      calls := [];
    }

    method DrainLocked()
      modifies this
      ensures var (m, out) := Drain(old(State(pipeline, running, windowOpen, toSend)));
        State(pipeline, running, windowOpen, toSend) == m && sent == old(sent) + out
      ensures calls == old(calls)
    {
      if running && (!pipeline || windowOpen > 0) && toSend.Some? {
        if windowOpen > 0 {
          windowOpen := windowOpen - 1;
        }
        sent := sent + [toSend.value];
        toSend := None;
      }
    }

    method Start()
      requires Valid()
      modifies this
      ensures Valid() && calls == old(calls) + [Call.Start]
    {
      Snoc(calls, Call.Start);
      running := true;
      DrainLocked();
      calls := calls + [Call.Start];
    }

    method Stop()
      requires Valid()
      modifies this
      ensures Valid() && calls == old(calls) + [Call.Stop]
    {
      Snoc(calls, Call.Stop);
      running := false;
      DrainLocked();
      calls := calls + [Call.Stop];
    }

    method Ack(nfree: int)
      requires Valid()
      modifies this
      ensures Valid() && calls == old(calls) + [Call.Ack(nfree)]
    {
      Snoc(calls, Call.Ack(nfree));
      windowOpen := windowOpen + nfree;
      DrainLocked();
      calls := calls + [Call.Ack(nfree)];
    }

    method Send(value: Option<T>)
      requires Valid()
      modifies this
      ensures Valid() && calls == old(calls) + [Call.Send(value)]
    {
      Snoc(calls, Call.Send(value));
      toSend := value;
      DrainLocked();
      calls := calls + [Call.Send(value)];
    }
  }

  lemma Snoc<T>(calls: seq<Call<T>>, call: Call<T>)
    ensures (calls + [call])[..|calls|] == calls
  {
  }
}
