/** closeInMass as the source runs it (death.go:92-138): a setup loop that records one
    descriptor per resource and starts its Close, then a select loop that updates the
    bookkeeping in place until it returns. */
module MassClose {
  import opened Wrappers
  import opened Closers
  import opened Teardown

  /** The local state of one closeInMass call. */
  class MassTeardown {
    var count: int
    var sentToClose: map<int, Closer>
    var failedClosers: seq<Closer>
    /** The descriptors handed to closeObjects, in the order the goroutines were started. */
    ghost var launched: seq<Closer>
    var status: Status

    function Current(): Ledger
      reads this
    {
      Ledger(count, sentToClose, failedClosers)
    }

    /** `count` is the number of pending closers, every pending entry is the descriptor that
        was launched for its index, and every recorded failure carries an error. */
    ghost predicate Valid()
      reads this
    {
      && count == |sentToClose|
      && (forall k :: k in sentToClose ==> 0 <= k < |launched| && sentToClose[k] == launched[k])
      && (forall k :: 0 <= k < |failedClosers| ==> failedClosers[k].err.Some?)
    }

    /** The setup loop (death.go:94-103): descriptor i for resource i, one closeObjects started
        per resource, every index pending, no failure yet. */
    constructor (closable: seq<Handle>)
      ensures Valid() && status == Waiting
      ensures Current() == Setup(closable)
      ensures |launched| == |closable|
      ensures forall i :: 0 <= i < |closable| ==> launched[i] == Describe(i, closable[i])
    {
      var pending: map<int, Closer> := map[];
      ghost var started: seq<Closer> := [];
      for i := 0 to |closable|
        invariant |started| == i && |pending| == i
        invariant forall j :: 0 <= j < i ==> started[j] == Describe(j, closable[j])
        invariant forall k :: k in pending <==> 0 <= k < i
        invariant forall k :: k in pending ==> pending[k] == started[k]
      {
        var c := Describe(i, closable[i]);
        started := started + [c];
        pending := pending[i := c];
      }
      DescribedIs(closable, pending);
      count := |closable|;
      sentToClose := pending;
      failedClosers := [];
      launched := started;
      status := Waiting;
    }

    /** One pass of the select loop (death.go:109-136). A completion can only be the
        descriptor of a pending closer; on the timer, `order` is the order in which ranging
        over `sentToClose` visits its keys. */
    method Step(e: Event, order: seq<int>)
      requires Valid() && status == Waiting
      requires e.Completed? ==> Sent(sentToClose, e.closer)
      requires e.TimerFired? ==> Enumerates(order, sentToClose)
      modifies this
      ensures Valid() && launched == old(launched)
      ensures Current() == Advance(old(Current()), e).ledger
      ensures Advance(old(Current()), e).Continue? ==> status == Waiting
      ensures Advance(old(Current()), e).Finish? ==>
        status.Returned? && Reports(status.err, Advance(old(Current()), e).report)
    {
      match e
      case TimerFired =>
        var msg := FormatTimeout(sentToClose, order);
        status := Returned(Some(msg));
      case Completed(closer) =>
        CompletionStep(Current(), closer);
        sentToClose := sentToClose - {closer.index};
        count := count - 1;
        if closer.err.Some? {
          failedClosers := failedClosers + [closer];
        }
        if count != 0 || |sentToClose| != 0 {
          return;
        }
        if |failedClosers| != 0 {
          var errString := GenerateErrString(failedClosers);
          status := Returned(Some(ErrorsPrefix + errString));
          return;
        }
        status := Returned(None);
    }
  }

  /** closeInMass fed with the events the runtime delivers, in arrival order. `rangeOrder`
      is the runtime's choice of map iteration order: a listing of all indices, of which
      ranging over the pending map visits the ones still present. The result is what the
      loop returns for that stream (Waiting if the stream ends first). */
  method CloseInMass(closable: seq<Handle>, events: seq<Event>, rangeOrder: seq<int>)
    returns (status: Status)
    requires WellFormed(Setup(closable).pending, events)
    requires Distinct(rangeOrder) && forall i :: 0 <= i < |closable| ==> i in rangeOrder
    ensures Run(Setup(closable), events).Continue? ==> status == Waiting
    ensures Run(Setup(closable), events).Finish? ==>
      status.Returned? && Reports(status.err, Run(Setup(closable), events).report)
  {
    var t := new MassTeardown(closable);
    var j := 0;
    while j < |events| && t.status == Waiting
      invariant 0 <= j <= |events|
      invariant t.Valid() && |t.launched| == |closable|
      invariant t.status == Waiting ==>
        Run(Setup(closable), events) == Run(t.Current(), events[j..]) &&
        WellFormed(t.sentToClose, events[j..])
      invariant t.status.Returned? ==>
        Run(Setup(closable), events).Finish? && Reports(t.status.err, Run(Setup(closable), events).report)
      decreases |events| - j
    {
      var e := events[j];
      var order := [];
      if e.TimerFired? {
        order := Visit(rangeOrder, t.sentToClose);
        VisitEnumerates(rangeOrder, t.sentToClose);
      } else {
        assert events[j..][0] == e;
      }
      ghost var before := t.Current();
      ghost var rest := events[j..];
      assert rest[0] == e && rest[1..] == events[j + 1..];
      if Advance(before, e).Continue? {
        WellFormedTail(before, rest);
      }
      t.Step(e, order);
      j := j + 1;
    }
    status := t.status;
  }
}
