# death: orderly shutdown, modelled in Dafny

This project models the sequential core of `death.go`, a small Go package for process
shutdown. A `Death` value waits for a termination trigger: a registered OS signal, or a
manual request made with `FallOnSword`. It then closes every resource the caller handed to
`WaitForDeath`, all at once. If every `Close` returns, the call returns nil, or an
`errors from closers: …` error that lists the closers whose `Close` failed. If the timeout
comes first, the call returns a `failed to close: …` error that names the closers still
outstanding.

Three parts are modelled:

- **The error list** (`generateErrString`). Module `Closers` holds the `closer` descriptor and
  the loop that builds `pkg/name: err, pkg/name: err, …`. The loop is proved equal to
  `Join` over the entries. When no entry contains a comma, the entries are proved to be
  recoverable from the string.
- **The teardown loop** (`closeInMass`).
  - Module `Teardown` states one pass of the select loop as `Advance` on a `Ledger`. The
    ledger holds `count`, `sentToClose` and `failedClosers`.
  - The completion channel and the timer become a stream of `Completed(closer)` and
    `TimerFired` events. Any interleaving of completions, with the timer anywhere among
    them, is one such stream.
  - `RunOutcome` says what the loop returns for every stream the runtime can produce.
  - Module `MassClose` holds the imperative version: class `MassTeardown`, with a setup
    constructor and a `Step` method that update the map, the counter and the failure list
    in place. `CloseInMass` drives `Step` over a stream and is proved against `Run`.
- **The trigger latch** (`NewDeath`, `FallOnSword`, `listenForSignal`, the WaitGroup).
  - Module `Death` gives the latch as a pure transition function `Next`. It states when the
    latch releases and that it never re-arms.
  - Class `Death` has the channel slots, the listener flag, the WaitGroup counter and the
    timeout as fields. Its methods are proved to follow `Next`.
  - `WaitForDeath` and `WaitForDeathWithFunc` block on the latch. `WaitForDeath` then tears
    down, and `WaitForDeathWithFunc` runs the caller's callback.

Behaviour of the code as written that the model keeps:

- The timeout message is `"failed to close: "` formatted with `"%s %s"`. It therefore has
  two blanks before the first name, and it is just `"failed to close:  "` when nothing is
  pending.
- On a timeout only the pending closers are named. Errors already returned by closers that
  completed are lost (see `HungCloserScenario`).
- The names in the timeout message come in Go's map iteration order, which the runtime
  chooses. `Reports` accepts exactly the messages of every such order. `CloseInMass` takes
  the runtime's choice as `rangeOrder`. Every `rangeOrder` yields an iteration order of the
  pending map (`VisitEnumerates`), and every iteration order comes from some `rangeOrder`
  (`EveryEnumerationVisited`).
- The error list keeps completion order, not argument order.
- `closeInMass` on zero closers could only ever time out (`ZeroClosersOnlyTimeOut`).
  `WaitForDeath` returns nil without calling it.
- Go's `%s` prints a nil error as `%!s(<nil>)` (`ErrText`). Failed closers always carry an
  error, so this text never reaches a message.

## Model

| member | source | states |
|---|---|---|
| Text.Join | death.go:117 | `strings.Join`: the parts in order with the separator between each two neighbours and none at either end |
| Text.JoinAppend | death.go:173-179 | joining one more entry at the back adds exactly the separator and that entry, the step each pass of the error-list loop takes |
| Text.SplitJoin | death.go:117 | a non-empty list of comma-free parts is recovered exactly, in order, from its `", "`-joined form: one segment per part, no separator at either end |
| Closers.Describe | death.go:99-100 | the `closer` literal for resource i: its index, the name and package path of its type, and no error yet |
| Closers.ErrText | death.go:175-178 | what Go's `%s` prints for a closer's error: its message, or `%!s(<nil>)` for nil |
| Closers.Label | death.go:114 | the `"%s/%s"` name of a closer: package path, a slash, type name |
| Closers.Entry | death.go:175-178 | the `"%s/%s: %s"` entry of a failed closer: its `pkg/name`, a colon and a blank, then its error text |
| Closers.ErrString | death.go:172-182 | the error list is the empty string if and only if there are no failed closers |
| Closers.ErrStringAppend | death.go:173-179 | one more failed closer adds `", pkg/name: err"`, or only `"pkg/name: err"` when it is the first |
| Closers.ErrStringRoundTrip | death.go:172-182 | when no entry holds a comma, cutting the error list at its separators gives back exactly the `pkg/name: err` entries of the failed closers in list order |
| Closers.GenerateErrString | death.go:172-182 | the loop's result equals the entries of all failed closers joined by `", "` |
| Teardown.Described | death.go:98-103 | the setup map has exactly the keys 0..n-1 and entry i is the descriptor of resource i, with no error |
| Teardown.DescribedIs | death.go:98-103 | any map with keys 0..n-1 whose entry i describes resource i is the setup map |
| Teardown.Setup | death.go:94-107 | the loop starts with `count` equal to the number of resources, every descriptor pending and `failedClosers` empty |
| Teardown.Sent | death.go:141-147 | what `closeObjects` sends back for a pending entry: that same descriptor, unchanged except that `Err` may be set by its Close |
| Teardown.WellFormed | death.go:141-147 | the completion channel delivers only what `Sent` allows, and each index at most once, because each goroutine sends once |
| Teardown.Advance | death.go:109-136 | one pass of the select: the timer returns the pending closers; a completion deletes its index, decrements `count`, appends the closer if its error is set, and returns nil or the failures only when both counters reach zero |
| Teardown.Run | death.go:108-137 | the `for` loop: passes are taken event by event until one returns, or the events run out while the loop still waits |
| Teardown.CompletionStep | death.go:118-135 | a completion keeps `count == len(sentToClose)`, removes exactly its own index, leaves every other entry unchanged, appends the closer to the failures if and only if it carries an error, never drops a failure, and ends the loop exactly when the last closer is back, with nil if and only if no failure was recorded |
| Teardown.WellFormedTail | death.go:141-147 | after a completion that does not end the loop, the rest of the stream still delivers only pending descriptors, each once |
| Teardown.RunOutcome | death.go:108-137 | for every stream: if the last of p > 0 closers comes back before the timer, the loop returns nil or the failures in completion order; otherwise a timer reports exactly the closers not yet back; otherwise the loop is still waiting with the completed closers removed |
| Teardown.CleanShutdown | death.go:126-135 | when every one of n > 0 closers comes back without error before the timer, the loop returns nil |
| Teardown.TimeoutNamesPending | death.go:110-117 | a timer before the last completion reports exactly the closers whose completion has not arrived, each with its setup descriptor |
| Teardown.ZeroClosersOnlyTimeOut | death.go:94-117 | with no closers the loop never returns nil: it waits until the timer and then reports an empty list |
| Teardown.HungCloserScenario | death.go:110-123 | one closer succeeds, one hangs, one fails, then the timer fires: only the hung closer is reported, and the failing closer's error is not |
| Teardown.TimeoutNamesEachPending | death.go:112-116 | for any iteration order, the timeout list has one name per pending closer and contains every pending closer's name |
| Teardown.Labels | death.go:112-116 | the `pkgs` slice: one `pkg/name` per key, appended in the order the range visits the keys |
| Teardown.Visit | death.go:113 | the keys `range sentToClose` visits: the entries of the runtime's listing of all indices that are still in the map, in that listing's order |
| Teardown.LabelsOfEnumeration | death.go:113-114 | the i-th name in the timeout list is the `pkg/name` of the i-th key visited |
| Teardown.VisitEnumerates | death.go:113 | skipping completed indices in an order of all indices visits every pending key exactly once |
| Teardown.TimeoutMessage | death.go:117 | for one iteration order, the timeout text is the prefix, one blank from the format, and the `pkg/name`s joined by `", "` |
| Teardown.Reports | death.go:117-135 | the error returned for each outcome: nil when all closed cleanly, `errors from closers: ` plus the error list, or the timeout text for some iteration order of the pending map |
| Teardown.EveryEnumerationVisited | death.go:113 | every iteration order of a pending map with keys below n is what some repeat-free listing of all indices below n visits, so the `rangeOrder` input reaches every message map iteration can produce |
| Teardown.FormatTimeout | death.go:110-117 | the timer branch's message is the prefix, a blank, and the pending closers' `pkg/name`s joined by `", "` in the map's iteration order |
| MassClose.MassTeardown.constructor | death.go:94-103 | setup starts exactly one close per resource, in argument order, and leaves every index pending, `count` equal to the number of resources and no failure |
| MassClose.MassTeardown.Step | death.go:108-136 | one pass updates the map, counter and failure list as `Advance` says, keeps the invariant, and returns the message that belongs to the report |
| MassClose.CloseInMass | death.go:92-138 | the method returns what the loop returns for the given stream, or is still waiting if the stream ends first |
| Death.Released | death.go:63-76 | `wg.Wait` returns exactly when the WaitGroup counter is zero |
| Death.Next | death.go:151-169 | sends into a full slot are dropped; the WaitGroup counter stays 1 while the listener runs and 0 after; an armed latch is released exactly by a listener turn that finds a request; a released latch stays released |
| Death.ReleaseIsPermanent | death.go:159-169 | once released, the latch stays released whatever happens next: every later wait returns at once and `wg.Done` does not run again |
| Death.ReleaseCondition | death.go:159-169 | an armed latch is released by a sequence of events if and only if some listener turn comes after a request, or finds one already waiting |
| Death.ReleasedIffTriggered | death.go:36-46 | from a fresh `Death`, the latch is released if and only if a signal or `FallOnSword` is followed by a turn of the listener, so a signal sent before anyone waits is not lost |
| Death.Death.constructor | death.go:36-46 | a new `Death` has a ten-second timeout, empty channels, a running listener and a WaitGroup counter of one |
| Death.Death.SetTimeout | death.go:49-52 | only the timeout changes, and the same `Death` is returned so that calls chain |
| Death.Death.Notify | death.go:38-42 | a delivered signal fills the signal slot, or is dropped when the slot is full |
| Death.Death.FallOnSword | death.go:151-156 | with no precondition, the request fills the single slot or is dropped when it is full, and nothing else changes |
| Death.Death.ListenForSignal | death.go:159-169 | a listener turn takes one request, stops listening and lowers the counter, or does nothing when it has stopped or no request waits |
| Death.Death.WaitForDeath | death.go:62-71 | blocked while the latch is armed; once released, nil for no closers without entering the teardown loop, and otherwise exactly what the teardown loop returns |
| Death.Death.WaitForDeathWithFunc | death.go:75-79 | the callback runs exactly once when the latch is released and not before |

## Left out

- Goroutines, the completion channel and `time.NewTimer` (death.go:97, 101, 106) become the
  event stream. The stream is assumed to deliver each started closer at most once, and as
  the descriptor it was started with, changed only in `Err`. Each `closeObjects` goroutine
  does this by setting `Err` on its own copy and sending it once (death.go:141-147).
- The timeout duration is stored, but it does not affect the model: the timer firing is an
  event.
- OS signal delivery and `signal.Notify` registration (death.go:42): every registered signal
  is one `Signal` event, and the set of signal kinds passed to `NewDeath` is not modelled.
- The Go runtime's choices are inputs. These are the case a `select` takes when both
  channels are ready (`preferSignal`) and the map's iteration order (`rangeOrder`).
- `getPkgPath` (death.go:82-88) uses reflection. Each resource carries its name and package
  path explicitly instead.
- Logging and `SetLogger` (death.go:55-58, every `d.log` call), and the no-op loggers in
  deathlog.go and deathlog/deathlog.go. They never affect control flow.
- The resource's own `Close`. What it returns is part of the completion event. Close calls
  still running after a timeout are abandoned by the source and not modelled.
- Death.Death.WaitForDeath: blocking in `wg.Wait` is shown as the result `Waiting` for a call
  made while the latch is armed. The model does not describe a thread that is suspended
  and resumed later.
- Death.Death.WaitForDeathWithFunc: the callback is foreign code. Only the number of times
  it runs is modelled.
- death_test.go calls a `Close` method that death.go does not define, and
  death_windows_test.go drives a child process. Neither is part of this model.
