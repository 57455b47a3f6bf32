/** closeInMass (death.go:92-138): every resource is closed concurrently and the caller waits
    on one select loop for completions or the timer. Here the channel and the timer become a
    sequence of events in arrival order; any interleaving of completions, with the timer
    anywhere among them, is one such sequence. */
module Teardown {
  import opened Wrappers
  import opened Text
  import opened Closers

  const ErrorsPrefix := "errors from closers: "
  const TimeoutPrefix := "failed to close: "

  /** What the select can receive: a descriptor back from closeObjects (with Err set when
      Close failed), or the timer. */
  datatype Event = Completed(closer: Closer) | TimerFired

  /** The loop's bookkeeping: `count`, `sentToClose` and `failedClosers`. */
  datatype Ledger = Ledger(count: int, pending: map<int, Closer>, failed: seq<Closer>)

  /** How the loop ends: every closer back without error, every closer back with some errors,
      or the timer first with the given closers still out. */
  datatype Report = AllClosed | CloserErrors(failed: seq<Closer>) | TimedOut(pending: map<int, Closer>)

  /** The ledger after one pass, and whether the loop returns. */
  datatype Progress = Continue(ledger: Ledger) | Finish(ledger: Ledger, report: Report)

  /** Where a call of closeInMass stands: still in its loop, or returned `err` (None is nil). */
  datatype Status = Waiting | Returned(err: Option<string>)

  /** `sentToClose` after the setup loop has handled the first |closable| resources. */
  function Described(closable: seq<Handle>): (m: map<int, Closer>)
    ensures |m| == |closable|
    ensures forall i :: i in m <==> 0 <= i < |closable|
    ensures forall i :: i in m ==> m[i] == Describe(i, closable[i])
  {
    if closable == [] then map[]
    else
      var n := |closable| - 1;
      Described(closable[..n])[n := Describe(n, closable[n])]
  }

  /** Described is the only map with index keys 0..|closable|-1 and entry i describing
      resource i. */
  lemma DescribedIs(closable: seq<Handle>, m: map<int, Closer>)
    requires forall k :: k in m <==> 0 <= k < |closable|
    requires forall k :: k in m ==> m[k] == Describe(k, closable[k])
    ensures m == Described(closable)
  {
    var d := Described(closable);
    assert m.Keys == d.Keys;
    assert forall k :: k in m ==> m[k] == d[k];
  }

  /** The ledger when the loop starts (death.go:94-107). */
  function Setup(closable: seq<Handle>): Ledger
  {
    Ledger(|closable|, Described(closable), [])
  }

  /** `c` is what the goroutine started for a pending entry sends back: that same descriptor,
      with only Err possibly set by its Close (death.go:141-147). */
  predicate Sent(pending: map<int, Closer>, c: Closer)
  {
    c.index in pending && c == pending[c.index].(err := c.err)
  }

  /** The completion channel delivers descriptors of `pending`, each at most once, since each
      goroutine sends once. */
  predicate WellFormed(pending: map<int, Closer>, evs: seq<Event>)
  {
    && (forall k :: 0 <= k < |evs| && evs[k].Completed? ==> Sent(pending, evs[k].closer))
    && (forall j, k :: 0 <= j < k < |evs| && evs[j].Completed? && evs[k].Completed? ==>
          evs[j].closer.index != evs[k].closer.index)
  }

  /** One pass of the select loop (death.go:109-136). */
  function Advance(l: Ledger, e: Event): Progress
  {
    match e
    case TimerFired => Finish(l, TimedOut(l.pending))
    case Completed(c) =>
      var next := Ledger(l.count - 1, l.pending - {c.index},
                         if c.err.Some? then l.failed + [c] else l.failed);
      if next.count != 0 || |next.pending| != 0 then Continue(next)
      else if |next.failed| != 0 then Finish(next, CloserErrors(next.failed))
      else Finish(next, AllClosed)
  }

  /** The loop run over a stream until it returns or the stream ends. */
  function Run(l: Ledger, evs: seq<Event>): Progress
    decreases |evs|
  {
    if evs == [] then Continue(l)
    else
      match Advance(l, evs[0])
      case Finish(next, r) => Finish(next, r)
      case Continue(next) => Run(next, evs[1..])
  }

  /** Position of the first timer event, or |evs| if none. */
  function FirstTimer(evs: seq<Event>): (t: nat)
    ensures t <= |evs|
    ensures forall k :: 0 <= k < t ==> evs[k].Completed?
    ensures t < |evs| ==> evs[t].TimerFired?
  {
    if evs == [] then 0
    else if evs[0].TimerFired? then 0
    else 1 + FirstTimer(evs[1..])
  }

  /** Indices of the closers that completed in `evs`. */
  function Indices(evs: seq<Event>): set<int>
  {
    if evs == [] then {}
    else (if evs[0].Completed? then {evs[0].closer.index} else {}) + Indices(evs[1..])
  }

  /** The completed closers of `evs` that carry an error, in arrival order. */
  function Failures(evs: seq<Event>): seq<Closer>
  {
    if evs == [] then []
    else (if evs[0].Completed? && evs[0].closer.err.Some? then [evs[0].closer] else [])
         + Failures(evs[1..])
  }

  /** The report when the last closer is back. */
  function Verdict(failed: seq<Closer>): Report
  {
    if failed == [] then AllClosed else CloserErrors(failed)
  }

  /** One completion event: `count` and `sentToClose` stay equal in size, exactly the
      completed index leaves the map and no other entry changes, the descriptor is appended
      to the failures if and only if it carries an error, and nothing already there is lost.
      The loop returns on a completion only when both counters reach zero, with nil exactly
      when no failure was ever recorded. */
  lemma CompletionStep(l: Ledger, c: Closer)
    requires l.count == |l.pending| && Sent(l.pending, c)
    ensures var p := Advance(l, Completed(c));
      && p.ledger.count == |p.ledger.pending| == l.count - 1
      && p.ledger.pending.Keys == l.pending.Keys - {c.index}
      && (forall k :: k in p.ledger.pending ==> p.ledger.pending[k] == l.pending[k])
      && l.failed <= p.ledger.failed
      && (p.ledger.failed == l.failed + [c] <==> c.err.Some?)
      && (p.ledger.failed == l.failed <==> c.err.None?)
      && (p.Finish? <==> l.count == 1)
      && (p.Finish? ==> p.report == Verdict(p.ledger.failed))
  {
    var rest := l.pending - {c.index};
    assert rest.Keys == l.pending.Keys - {c.index};
    assert |rest.Keys| == |l.pending.Keys| - 1;
  }

  /** After a completion that does not end the loop, the rest of a well-formed stream is
      well-formed for the smaller map. */
  lemma WellFormedTail(l: Ledger, evs: seq<Event>)
    requires l.count == |l.pending| && WellFormed(l.pending, evs)
    requires evs != [] && Advance(l, evs[0]).Continue?
    ensures var next := Advance(l, evs[0]).ledger;
      next.count == |next.pending| && WellFormed(next.pending, evs[1..])
  {
    if evs[0].Completed? {
      CompletionStep(l, evs[0].closer);
      var next := Advance(l, evs[0]).ledger;
      forall k | 0 <= k < |evs[1..]| && evs[1..][k].Completed?
        ensures Sent(next.pending, evs[1..][k].closer)
      {
        assert evs[1..][k] == evs[k + 1];
      }
    }
  }

  /** The outcome of the loop for a ledger with p = |l.pending| closers out and a stream whose
      first timer event is at t: if p > 0 and the p-th completion comes before the timer, the
      loop returns when it arrives, with nil or with the errors of the failed closers in
      completion order; otherwise, if the timer comes, it reports every closer that had not
      completed before it; otherwise it is still waiting with the completed ones removed. */
  ghost predicate Predicted(l: Ledger, evs: seq<Event>, r: Progress)
  {
    var t := FirstTimer(evs);
    var p := |l.pending|;
    if 0 < p <= t then r.Finish? && r.report == Verdict(l.failed + Failures(evs[..p]))
    else if t < |evs| then r.Finish? && r.report == TimedOut(l.pending - Indices(evs[..t]))
    else r == Continue(Ledger(l.count - t, l.pending - Indices(evs), l.failed + Failures(evs)))
  }

  /** Failures and Indices of a prefix, with its first event taken out. */
  lemma PrefixCons(evs: seq<Event>, k: nat)
    requires 0 < k <= |evs|
    ensures Failures(evs[..k]) == Failures([evs[0]]) + Failures(evs[1..][..k - 1])
    ensures Indices(evs[..k]) == Indices([evs[0]]) + Indices(evs[1..][..k - 1])
  {
    assert evs[..k][1..] == evs[1..][..k - 1];
    assert [evs[0]][1..] == [];
  }

  lemma RemoveTwice(m: map<int, Closer>, i: int, s: set<int>)
    ensures (m - {i}) - s == m - ({i} + s)
  {
  }

  /** A completion that leaves closers pending shifts the prediction by one event. */
  lemma PredictedShift(l: Ledger, evs: seq<Event>, r: Progress)
    requires l.count == |l.pending| && evs != [] && evs[0].Completed?
    requires Sent(l.pending, evs[0].closer) && |l.pending| > 1
    requires Predicted(Advance(l, evs[0]).ledger, evs[1..], r)
    ensures Predicted(l, evs, r)
  {
    CompletionStep(l, evs[0].closer);
    var next := Advance(l, evs[0]).ledger;
    var t := FirstTimer(evs);
    assert FirstTimer(evs[1..]) == t - 1;
    if |l.pending| <= t {
      ShiftReturned(l, next, evs, |l.pending|);
    } else if t < |evs| {
      ShiftRemoved(l, next, evs, t);
    } else {
      ShiftWaiting(l, next, evs);
    }
  }

  lemma ShiftReturned(l: Ledger, next: Ledger, evs: seq<Event>, p: nat)
    requires 0 < p <= |evs|
    requires next.failed == l.failed + Failures([evs[0]])
    ensures next.failed + Failures(evs[1..][..p - 1]) == l.failed + Failures(evs[..p])
  {
    PrefixCons(evs, p);
  }

  lemma ShiftWaiting(l: Ledger, next: Ledger, evs: seq<Event>)
    requires evs != [] && evs[0].Completed?
    requires next.pending == l.pending - Indices([evs[0]])
    requires next.failed == l.failed + Failures([evs[0]])
    ensures next.pending - Indices(evs[1..]) == l.pending - Indices(evs)
    ensures next.failed + Failures(evs[1..]) == l.failed + Failures(evs)
  {
    ShiftRemoved(l, next, evs, |evs|);
    ShiftReturned(l, next, evs, |evs|);
    assert evs[..|evs|] == evs && evs[1..][..|evs| - 1] == evs[1..];
  }

  lemma ShiftRemoved(l: Ledger, next: Ledger, evs: seq<Event>, t: nat)
    requires 0 < t <= |evs| && evs[0].Completed?
    requires next.pending == l.pending - Indices([evs[0]])
    ensures next.pending - Indices(evs[1..][..t - 1]) == l.pending - Indices(evs[..t])
  {
    PrefixCons(evs, t);
    RemoveTwice(l.pending, evs[0].closer.index, Indices(evs[1..][..t - 1]));
    assert Indices([evs[0]]) == {evs[0].closer.index};
  }

  /** What the loop does with any stream the runtime can produce: see Predicted. */
  lemma {:induction false} RunOutcome(l: Ledger, evs: seq<Event>)
    requires l.count == |l.pending|
    requires WellFormed(l.pending, evs)
    decreases |evs|
    ensures Predicted(l, evs, Run(l, evs))
  {
    if evs == [] {
      assert l.pending - {} == l.pending;
    } else if evs[0].TimerFired? {
      assert evs[..0] == [];
      assert l.pending - {} == l.pending;
    } else {
      var c := evs[0].closer;
      CompletionStep(l, c);
      if |l.pending| == 1 {
        assert evs[..1] == [evs[0]];
        assert Failures(evs[..1]) == if c.err.Some? then [c] else [];
      } else {
        WellFormedTail(l, evs);
        RunOutcome(Advance(l, evs[0]).ledger, evs[1..]);
        PredictedShift(l, evs, Run(l, evs));
      }
    }
  }

  /** Every completion of `evs` without an error contributes nothing to Failures. */
  lemma {:induction false} NoErrorsNoFailures(evs: seq<Event>)
    requires forall k :: 0 <= k < |evs| ==> evs[k].Completed? && evs[k].closer.err.None?
    ensures Failures(evs) == []
  {
    if evs != [] {
      NoErrorsNoFailures(evs[1..]);
    }
  }

  /** With n > 0 closers, if all n complete without error before the timer, the loop
      returns nil. */
  lemma CleanShutdown(closable: seq<Handle>, evs: seq<Event>)
    requires WellFormed(Setup(closable).pending, evs)
    requires 0 < |closable| <= FirstTimer(evs)
    requires forall k :: 0 <= k < |closable| ==> evs[k].closer.err.None?
    ensures Run(Setup(closable), evs).Finish?
    ensures Run(Setup(closable), evs).report == AllClosed
  {
    RunOutcome(Setup(closable), evs);
    NoErrorsNoFailures(evs[..|closable|]);
  }

  /** When the timer comes before every closer is back, the report names exactly the
      closers whose completion had not arrived, and carries no error of those that had. */
  lemma TimeoutNamesPending(closable: seq<Handle>, evs: seq<Event>)
    requires WellFormed(Setup(closable).pending, evs)
    requires FirstTimer(evs) < |evs| && (closable == [] || FirstTimer(evs) < |closable|)
    ensures var r := Run(Setup(closable), evs);
      && r.Finish? && r.report.TimedOut?
      && (forall i :: i in r.report.pending <==>
            0 <= i < |closable| && i !in Indices(evs[..FirstTimer(evs)]))
      && (forall i :: i in r.report.pending ==> r.report.pending[i] == Describe(i, closable[i]))
  {
    RunOutcome(Setup(closable), evs);
  }

  /** closeInMass handed no closers can never return nil: it waits until the timer and then
      reports an empty list. This is why WaitForDeath does not call it for zero closers. */
  lemma ZeroClosersOnlyTimeOut(evs: seq<Event>)
    requires WellFormed(Setup([]).pending, evs)
    ensures var r := Run(Setup([]), evs);
      if FirstTimer(evs) < |evs| then r.Finish? && r.report == TimedOut(map[])
      else r.Continue?
  {
    RunOutcome(Setup([]), evs);
  }

  /** A resource that closes at once, one that hangs and one whose Close fails, with the
      timer after the first and third are back: only the hung one is reported. The error of
      the third is not part of the result. */
  lemma HungCloserScenario(a: Handle, b: Handle, c: Handle, msg: string)
    ensures var evs := [Completed(Describe(0, a)), Completed(Describe(2, c).(err := Some(msg))), TimerFired];
      var r := Run(Setup([a, b, c]), evs);
      r.Finish? && r.report == TimedOut(map[1 := Describe(1, b)])
  {
    var evs := [Completed(Describe(0, a)), Completed(Describe(2, c).(err := Some(msg))), TimerFired];
    var l0 := Setup([a, b, c]);
    assert WellFormed(l0.pending, evs);
    RunOutcome(l0, evs);
    assert evs[1..][1..] == [TimerFired] && [TimerFired][1..] == [];
    assert FirstTimer([TimerFired]) == 0;
    assert FirstTimer(evs[1..]) == 1;
    assert FirstTimer(evs) == 2;
    assert evs[..2][1..] == [evs[1]] && [evs[1]][1..] == [];
    assert Indices([evs[1]]) == {2};
    assert Indices(evs[..2]) == {0, 2};
    assert l0.pending - {0, 2} == map[1 := Describe(1, b)];
  }

  /** No element of `s` occurs twice. */
  predicate Distinct(s: seq<int>)
  {
    forall i, j :: 0 <= i < j < |s| ==> s[i] != s[j]
  }

  /** `order` lists every key of `pending` exactly once: an iteration order of the map. */
  ghost predicate Enumerates(order: seq<int>, pending: map<int, Closer>)
  {
    && (forall i :: 0 <= i < |order| ==> order[i] in pending)
    && (forall k :: k in pending ==> k in order)
    && Distinct(order)
  }

  /** The `pkg/name` of each closer of `pending`, in the order of `order`. */
  function Labels(pending: map<int, Closer>, order: seq<int>): seq<string>
    requires forall i :: 0 <= i < |order| ==> order[i] in pending
  {
    if order == [] then []
    else Labels(pending, order[..|order| - 1]) + [Label(pending[order[|order| - 1]])]
  }

  /** The timeout message for one iteration order: the prefix, the blank that the format adds
      after it, then the names. */
  function TimeoutMessage(pending: map<int, Closer>, order: seq<int>): string
    requires forall i :: 0 <= i < |order| ==> order[i] in pending
  {
    TimeoutPrefix + " " + Join(Labels(pending, order), Separator)
  }

  /** `err` is what closeInMass returns for report `r`. Map iteration order is not fixed, so a
      timeout admits one message per order. */
  ghost predicate Reports(err: Option<string>, r: Report)
  {
    match r
    case AllClosed => err == None
    case CloserErrors(failed) => err == Some(ErrorsPrefix + ErrString(failed))
    case TimedOut(pending) =>
      err.Some? && exists order :: Enumerates(order, pending) && err.value == TimeoutMessage(pending, order)
  }

  /** Whatever the iteration order, the i-th name is that of the i-th key visited. */
  lemma {:induction false} LabelsOfEnumeration(pending: map<int, Closer>, order: seq<int>)
    requires forall i :: 0 <= i < |order| ==> order[i] in pending
    ensures |Labels(pending, order)| == |order|
    ensures forall k :: 0 <= k < |order| ==> Labels(pending, order)[k] == Label(pending[order[k]])
  {
    if order != [] {
      var n := |order| - 1;
      LabelsOfEnumeration(pending, order[..n]);
    }
  }

  /** A list without repeats has as many elements as the set of its elements. */
  lemma {:induction false} DistinctCount(order: seq<int>)
    requires Distinct(order)
    ensures |order| == |set k | k in order|
  {
    if order != [] {
      var n := |order| - 1;
      var init := order[..n];
      DistinctCount(init);
      assert (set k | k in order) == (set k | k in init) + {order[n]};
      assert order[n] !in init;
    }
  }

  /** The timeout message names exactly the pending closers: as many names as closers, and
      each pending closer's name among them. */
  lemma TimeoutNamesEachPending(pending: map<int, Closer>, order: seq<int>)
    requires Enumerates(order, pending)
    ensures |Labels(pending, order)| == |pending|
    ensures forall k :: k in pending ==> Label(pending[k]) in Labels(pending, order)
  {
    LabelsOfEnumeration(pending, order);
    DistinctCount(order);
    assert forall k :: k in (set k | k in order) <==> k in pending.Keys;
    assert (set k | k in order) == pending.Keys;
    forall k | k in pending
      ensures Label(pending[k]) in Labels(pending, order)
    {
      var i :| 0 <= i < |order| && order[i] == k;
      assert Labels(pending, order)[i] == Label(pending[k]);
    }
  }

  /** The keys of `pending` in the order they appear in `rangeOrder`. */
  function Visit(rangeOrder: seq<int>, pending: map<int, Closer>): seq<int>
  {
    if rangeOrder == [] then []
    else (if rangeOrder[0] in pending then [rangeOrder[0]] else []) + Visit(rangeOrder[1..], pending)
  }

  /** Visit keeps exactly the indices that are still pending. */
  lemma {:induction false} VisitMembers(rangeOrder: seq<int>, pending: map<int, Closer>)
    ensures forall k :: k in Visit(rangeOrder, pending) <==> k in rangeOrder && k in pending
  {
    if rangeOrder != [] {
      VisitMembers(rangeOrder[1..], pending);
      assert rangeOrder == [rangeOrder[0]] + rangeOrder[1..];
    }
  }

  /** Visit keeps no index twice when `rangeOrder` has none twice. */
  lemma {:induction false} VisitDistinct(rangeOrder: seq<int>, pending: map<int, Closer>)
    requires Distinct(rangeOrder)
    ensures Distinct(Visit(rangeOrder, pending))
  {
    if rangeOrder != [] {
      var rest := rangeOrder[1..];
      var w := Visit(rest, pending);
      VisitDistinct(rest, pending);
      VisitMembers(rest, pending);
      assert rangeOrder[0] !in rest;
      assert rangeOrder[0] !in w;
      if rangeOrder[0] in pending {
        DistinctCons(rangeOrder[0], w);
      }
    }
  }

  lemma DistinctCons(x: int, s: seq<int>)
    requires Distinct(s) && x !in s
    ensures Distinct([x] + s)
  {
    var v := [x] + s;
    forall i, j | 0 <= i < j < |v| ensures v[i] != v[j] {
      assert v[j] == s[j - 1];
      if i > 0 {
        assert v[i] == s[i - 1];
      }
    }
  }

  /** Skipping the indices that are gone from an order of all the indices yields an iteration
      order of the map of pending closers. */
  lemma VisitEnumerates(rangeOrder: seq<int>, pending: map<int, Closer>)
    requires Distinct(rangeOrder)
    requires forall k :: k in pending ==> k in rangeOrder
    ensures Enumerates(Visit(rangeOrder, pending), pending)
  {
    VisitMembers(rangeOrder, pending);
    VisitDistinct(rangeOrder, pending);
    var v := Visit(rangeOrder, pending);
    assert forall i :: 0 <= i < |v| ==> v[i] in v;
  }

  /** The indices below n that `order` does not list, in increasing order. */
  function Missing(order: seq<int>, n: nat): (m: seq<int>)
    ensures forall k :: k in m <==> 0 <= k < n && k !in order
    ensures Distinct(m)
  {
    if n == 0 then []
    else
      var m := Missing(order, n - 1);
      if n - 1 in order then m
      else
        assert forall i :: 0 <= i < |m| ==> m[i] in m;
        m + [n - 1]
  }

  lemma {:induction false} VisitAppend(a: seq<int>, b: seq<int>, pending: map<int, Closer>)
    ensures Visit(a + b, pending) == Visit(a, pending) + Visit(b, pending)
  {
    if a != [] {
      assert (a + b)[1..] == a[1..] + b;
      VisitAppend(a[1..], b, pending);
    } else {
      assert a + b == b;
    }
  }

  /** Visit keeps an order whose indices are all pending, and drops one whose indices are
      all gone. */
  lemma {:induction false} VisitKeeps(s: seq<int>, pending: map<int, Closer>, keep: bool)
    requires forall i :: 0 <= i < |s| ==> (s[i] in pending <==> keep)
    ensures Visit(s, pending) == if keep then s else []
  {
    if s != [] {
      VisitKeeps(s[1..], pending, keep);
    }
  }

  lemma DistinctAppend(a: seq<int>, b: seq<int>)
    requires Distinct(a) && Distinct(b)
    requires forall k :: k in a ==> k !in b
    ensures Distinct(a + b)
  {
    var v := a + b;
    forall i, j | 0 <= i < j < |v| ensures v[i] != v[j] {
      if j >= |a| {
        assert v[j] == b[j - |a|] && v[j] in b;
        if i < |a| {
          assert v[i] == a[i] && v[i] in a;
        }
      }
    }
  }

  /** Conversely, every iteration order of a map whose keys lie below n comes from some order
      of all the indices below n: list it first, then the indices that are gone. So the
      runtime's choice of `rangeOrder` can produce every message map iteration can. */
  lemma EveryEnumerationVisited(order: seq<int>, pending: map<int, Closer>, n: nat)
    requires Enumerates(order, pending)
    requires forall k :: k in pending ==> 0 <= k < n
    ensures exists r :: Distinct(r) && (forall i :: 0 <= i < n ==> i in r) && Visit(r, pending) == order
  {
    var m := Missing(order, n);
    var r := order + m;
    DistinctAppend(order, m);
    VisitAppend(order, m, pending);
    VisitKeeps(order, pending, true);
    assert forall i :: 0 <= i < |m| ==> m[i] in m;
    VisitKeeps(m, pending, false);
    assert order + [] == order;
    assert forall i :: 0 <= i < n ==> i in r by {
      forall i | 0 <= i < n ensures i in r {
        if i !in order {
          assert i in m;
        }
      }
    }
  }

  /** The timer branch (death.go:110-117): walk `sentToClose` in the order the map yields and
      list each closer's `pkg/name` after the prefix. */
  method FormatTimeout(sentToClose: map<int, Closer>, order: seq<int>) returns (msg: string)
    requires Enumerates(order, sentToClose)
    ensures msg == TimeoutMessage(sentToClose, order)
    ensures Reports(Some(msg), TimedOut(sentToClose))
  {
    var s := TimeoutPrefix;
    var pkgs: seq<string> := [];
    for i := 0 to |order|
      invariant pkgs == Labels(sentToClose, order[..i])
    {
      var c := sentToClose[order[i]];
      assert order[..i + 1][..i] == order[..i];
      pkgs := pkgs + [c.pkgPath + "/" + c.name];
    }
    assert order[..|order|] == order;
    msg := s + " " + Join(pkgs, Separator);
  }
}
