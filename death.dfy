/** The Death coordinator (death.go:16-79, 150-169): a latch released by the first OS signal
    or manual request, and the wait operations that block on it before tearing down. */
module Death {
  import opened Wrappers
  import opened Closers
  import opened Teardown
  import opened MassClose

  /** time.Second, in nanoseconds. */
  const Second := 1_000_000_000
  const DefaultTimeout := 10 * Second

  /** The latch: whether each single-slot channel holds a value, whether listenForSignal is
      still in its loop, and the WaitGroup counter. */
  datatype Latch = Latch(sigBuffered: bool, callBuffered: bool, listening: bool, waitCount: int)

  /** What can happen to the latch: the OS delivers a registered signal, FallOnSword is
      called, or the listener goroutine gets a turn. When both channels hold a value, select
      may take either; `preferSignal` is that choice. */
  datatype LatchEvent = Signal | Sword | ListenerTurn(preferSignal: bool)

  /** Just after NewDeath: both channels empty, the listener started, the counter at one. */
  const Armed := Latch(false, false, true, 1)

  /** wg.Wait returns: the counter is zero. */
  predicate Released(l: Latch)
  {
    l.waitCount == 0
  }

  /** A request waits in one of the channels. */
  predicate Pending(l: Latch)
  {
    l.sigBuffered || l.callBuffered
  }

  /** The counter is one while the listener runs and zero once it has returned. */
  predicate Consistent(l: Latch)
  {
    l.waitCount == if l.listening then 1 else 0
  }

  predicate IsTrigger(e: LatchEvent)
  {
    e.Signal? || e.Sword?
  }

  /** One event. Sends into a full single-slot channel are dropped rather than blocking.
      The counter never leaves {0, 1}, a released latch stays released, and an armed latch
      is released exactly by a listener turn that finds a request waiting. */
  function Next(l: Latch, e: LatchEvent): (n: Latch)
    ensures Consistent(l) ==> Consistent(n)
    ensures Consistent(l) && Released(l) ==> Released(n)
    ensures Consistent(l) && !Released(l) ==> (Released(n) <==> e.ListenerTurn? && Pending(l))
    ensures Consistent(l) && !Released(l) && !Released(n) ==> (Pending(n) <==> Pending(l) || IsTrigger(e))
  {
    match e
    case Signal => l.(sigBuffered := true)
    case Sword => l.(callBuffered := true)
    case ListenerTurn(preferSignal) =>
      if !l.listening || !Pending(l) then l
      else if l.sigBuffered && (preferSignal || !l.callBuffered) then
        l.(sigBuffered := false, listening := false, waitCount := l.waitCount - 1)
      else
        l.(callBuffered := false, listening := false, waitCount := l.waitCount - 1)
  }

  /** The latch after a sequence of events. */
  function RunLatch(l: Latch, evs: seq<LatchEvent>): Latch
    decreases |evs|
  {
    if evs == [] then l else RunLatch(Next(l, evs[0]), evs[1..])
  }

  /** Once released, the latch stays released and the counter stays at zero whatever
      follows: every later wg.Wait returns at once and wg.Done never runs a second time. */
  lemma {:induction false} ReleaseIsPermanent(l: Latch, evs: seq<LatchEvent>)
    requires Consistent(l) && Released(l)
    decreases |evs|
    ensures Consistent(RunLatch(l, evs)) && Released(RunLatch(l, evs))
  {
    if evs != [] {
      ReleaseIsPermanent(Next(l, evs[0]), evs[1..]);
    }
  }

  /** Some trigger occurs among the first j events. */
  predicate TriggeredBefore(evs: seq<LatchEvent>, j: int)
    requires j <= |evs|
  {
    exists i :: 0 <= i < j && IsTrigger(evs[i])
  }

  /** Some listener turn finds a request: one already waiting in `l`, or one sent earlier in
      `evs`. */
  predicate WakesUp(l: Latch, evs: seq<LatchEvent>)
  {
    exists j :: 0 <= j < |evs| && evs[j].ListenerTurn? && (Pending(l) || TriggeredBefore(evs, j))
  }

  /** An armed latch is released by a sequence of events exactly when some listener turn
      comes after a request was made (or finds one already waiting). */
  lemma {:induction false} ReleaseCondition(l: Latch, evs: seq<LatchEvent>)
    requires Consistent(l) && !Released(l)
    decreases |evs|
    ensures Released(RunLatch(l, evs)) <==> WakesUp(l, evs)
  {
    if evs != [] {
      var e := evs[0];
      var rest := evs[1..];
      var n := Next(l, e);
      if Released(n) {
        ReleaseIsPermanent(n, rest);
        assert evs[0].ListenerTurn? && Pending(l);
      } else {
        ReleaseCondition(n, rest);
        if WakesUp(l, evs) {
          var j :| 0 <= j < |evs| && evs[j].ListenerTurn? && (Pending(l) || TriggeredBefore(evs, j));
          assert j > 0;
          assert rest[j - 1] == evs[j];
          if !Pending(n) {
            var i :| 0 <= i < j && IsTrigger(evs[i]);
            assert i > 0;
            assert rest[i - 1] == evs[i];
            assert TriggeredBefore(rest, j - 1);
          }
          assert WakesUp(n, rest);
        }
        if WakesUp(n, rest) {
          var j :| 0 <= j < |rest| && rest[j].ListenerTurn? && (Pending(n) || TriggeredBefore(rest, j));
          assert evs[j + 1] == rest[j];
          if Pending(l) {
          } else if IsTrigger(e) {
            assert TriggeredBefore(evs, j + 1);
          } else {
            var i :| 0 <= i < j && IsTrigger(rest[i]);
            assert evs[i + 1] == rest[i];
            assert TriggeredBefore(evs, j + 1);
          }
          assert WakesUp(l, evs);
        }
      }
    }
  }

  /** From NewDeath, the latch is released exactly when a signal or a manual request is
      followed by a turn of the listener. A signal sent before anyone waits is not lost. */
  lemma ReleasedIffTriggered(evs: seq<LatchEvent>)
    ensures Released(RunLatch(Armed, evs)) <==>
      exists i, j :: 0 <= i < j < |evs| && IsTrigger(evs[i]) && evs[j].ListenerTurn?
  {
    ReleaseCondition(Armed, evs);
    if WakesUp(Armed, evs) {
      var j :| 0 <= j < |evs| && evs[j].ListenerTurn? && TriggeredBefore(evs, j);
      var i :| 0 <= i < j && IsTrigger(evs[i]);
      assert IsTrigger(evs[i]) && evs[j].ListenerTurn?;
    }
    if exists i, j :: 0 <= i < j < |evs| && IsTrigger(evs[i]) && evs[j].ListenerTurn? {
      var i, j :| 0 <= i < j < |evs| && IsTrigger(evs[i]) && evs[j].ListenerTurn?;
      assert TriggeredBefore(evs, j);
    }
  }

  /** The Death struct. */
  class Death {
    var sigBuffered: bool
    var callBuffered: bool
    var listening: bool
    var waitCount: int
    /** How long closeInMass waits, in nanoseconds. */
    var timeout: int

    function State(): Latch
      reads this
    {
      Latch(sigBuffered, callBuffered, listening, waitCount)
    }

    /** NewDeath (death.go:36-46): a ten-second timeout, both channels empty, the counter
        raised to one and the listener started. */
    constructor ()
      ensures State() == Armed && timeout == DefaultTimeout
    {
      sigBuffered, callBuffered := false, false;
      timeout := DefaultTimeout;
      waitCount := 1;
      listening := true;
    }

    /** SetTimeout (death.go:49-52): returns the same Death so that calls can be chained. */
    method SetTimeout(t: int) returns (d: Death)
      modifies this
      ensures d == this
      ensures timeout == t && State() == old(State())
    {
      timeout := t;
      d := this;
    }

    /** The OS delivers a registered signal; signal.Notify drops it if the channel is full. */
    method Notify()
      modifies this
      ensures State() == Next(old(State()), Signal) && timeout == old(timeout)
    {
      if !sigBuffered {
        sigBuffered := true;
      }
    }

    /** FallOnSword (death.go:151-156): a send into the single-slot channel, or nothing when
        it is full. It has no precondition and never waits. */
    method FallOnSword()
      modifies this
      ensures State() == Next(old(State()), Sword) && timeout == old(timeout)
    {
      if !callBuffered {
        callBuffered := true;
      }
    }

    /** One turn of listenForSignal (death.go:159-169): if it is still running and a channel
        holds a value, it takes one and returns, and the deferred wg.Done lowers the counter. */
    method ListenForSignal(preferSignal: bool)
      modifies this
      ensures State() == Next(old(State()), ListenerTurn(preferSignal)) && timeout == old(timeout)
    {
      if !listening {
        return;
      }
      if sigBuffered && (preferSignal || !callBuffered) {
        sigBuffered := false;
      } else if callBuffered {
        callBuffered := false;
      } else {
        return;
      }
      listening := false;
      waitCount := waitCount - 1;
    }

    /** WaitForDeath (death.go:62-71): still blocked in wg.Wait while the latch is armed;
        once released, nil at once for no closers, without entering closeInMass, and
        otherwise what closeInMass returns for the completion stream `events`. */
    method WaitForDeath(closable: seq<Handle>, events: seq<Event>, rangeOrder: seq<int>)
      returns (status: Status)
      requires WellFormed(Setup(closable).pending, events)
      requires Distinct(rangeOrder) && forall i :: 0 <= i < |closable| ==> i in rangeOrder
      ensures !Released(State()) ==> status == Waiting
      ensures Released(State()) && closable == [] ==> status == Returned(None)
      ensures Released(State()) && closable != [] && Run(Setup(closable), events).Continue? ==>
        status == Waiting
      ensures Released(State()) && closable != [] && Run(Setup(closable), events).Finish? ==>
        status.Returned? && Reports(status.err, Run(Setup(closable), events).report)
    {
      if waitCount != 0 {
        return Waiting;
      }
      var count := |closable|;
      if count > 0 {
        status := CloseInMass(closable, events, rangeOrder);
        return;
      }
      status := Returned(None);
    }

    /** WaitForDeathWithFunc (death.go:75-79): the callback runs once, after the latch is
        released, and not before. */
    method WaitForDeathWithFunc() returns (callbackRuns: nat)
      ensures callbackRuns == if Released(State()) then 1 else 0
    {
      if waitCount != 0 {
        return 0;
      }
      callbackRuns := 1;
    }
  }
}
