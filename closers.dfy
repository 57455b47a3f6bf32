/** The per-resource descriptor of death.go (`closer`) and the message built from the
    descriptors whose Close reported an error (`generateErrString`). */
module Closers {
  import opened Wrappers
  import opened Text

  /** A resource passed to WaitForDeath. The name and package path that death.go reads off
      the value's dynamic type are carried explicitly. */
  datatype Handle = Handle(name: string, pkgPath: string)

  /** The `closer` struct: position in the argument list, diagnostic names, and the error
      its Close returned (None while it has not returned one). */
  datatype Closer = Closer(index: int, name: string, pkgPath: string, err: Option<string>)

  /** The descriptor built for the resource at position `i`, before its Close has run. */
  function Describe(i: int, h: Handle): Closer
  {
    Closer(i, h.name, h.pkgPath, None)
  }

  /** What Go's `%s` verb prints for an error value: its message, or the verb's marker for nil. */
  function ErrText(err: Option<string>): string
  {
    match err
    case Some(m) => m
    case None => "%!s(<nil>)"
  }

  /** `pkg/name`, as the timeout message names a closer. */
  function Label(c: Closer): string
  {
    c.pkgPath + "/" + c.name
  }

  /** `pkg/name: err`, as the error list names a failed closer. */
  function Entry(c: Closer): string
  {
    Label(c) + ": " + ErrText(c.err)
  }

  function Entries(cs: seq<Closer>): seq<string>
  {
    seq(|cs|, k requires 0 <= k < |cs| => Entry(cs[k]))
  }

  /** The error list: one entry per failed closer, in list order, joined by ", ". It is empty
      exactly when the list is. */
  function ErrString(failed: seq<Closer>): (r: string)
    ensures r == "" <==> failed == []
  {
    var r := Join(Entries(failed), Separator);
    assert failed != [] ==> Entries(failed)[0] == Entry(failed[0]) && |r| >= |Entry(failed[0])| > 0;
    r
  }

  /** Adding one failed closer at the back adds `, ` and its entry, or only its entry when the
      list was empty. */
  lemma ErrStringAppend(failed: seq<Closer>, c: Closer)
    ensures ErrString(failed + [c]) ==
      if failed == [] then Entry(c) else ErrString(failed) + Separator + Entry(c)
  {
    assert Entries(failed + [c]) == Entries(failed) + [Entry(c)];
    if failed != [] {
      JoinAppend(Entries(failed), Entry(c), Separator);
    }
  }

  /** Round trip: when no entry holds a comma, cutting the error list at its separators gives
      back exactly the entries of the failed closers, in order. */
  lemma ErrStringRoundTrip(failed: seq<Closer>)
    requires failed != []
    requires forall k :: 0 <= k < |failed| ==> ',' !in Entry(failed[k])
    ensures SplitList(ErrString(failed)) == Entries(failed)
  {
    SplitJoin(Entries(failed));
  }

  /** generateErrString: the first entry is written alone, every later one after `, `. */
  method GenerateErrString(failedClosers: seq<Closer>) returns (errString: string)
    ensures errString == ErrString(failedClosers)
  {
    errString := "";
    for i := 0 to |failedClosers|
      invariant errString == ErrString(failedClosers[..i])
    {
      var fc := failedClosers[i];
      ErrStringAppend(failedClosers[..i], fc);
      assert failedClosers[..i + 1] == failedClosers[..i] + [fc];
      if i == 0 {
        errString := fc.pkgPath + "/" + fc.name + ": " + ErrText(fc.err);
        continue;
      }
      errString := errString + ", " + fc.pkgPath + "/" + fc.name + ": " + ErrText(fc.err);
    }
    assert failedClosers[..|failedClosers|] == failedClosers;
  }
}
