/** The string helpers death.go relies on: strings.Join and its inverse. */
module Text {

  /** The separator death.go puts between the entries of an error message. */
  const Separator := ", "

  /** strings.Join: the parts in order, `sep` between neighbours, nothing before or after. */
  function Join(parts: seq<string>, sep: string): string
  {
    if parts == [] then ""
    else if |parts| == 1 then parts[0]
    else parts[0] + sep + Join(parts[1..], sep)
  }

  /** Appending one part at the back adds exactly one separator and that part. This is the
      shape of a loop that grows a joined string entry by entry. */
  lemma {:induction false} JoinAppend(parts: seq<string>, x: string, sep: string)
    requires parts != []
    ensures Join(parts + [x], sep) == Join(parts, sep) + sep + x
  {
    if |parts| == 1 {
      assert (parts + [x])[1..] == [x];
    } else {
      assert (parts + [x])[1..] == parts[1..] + [x];
      JoinAppend(parts[1..], x, sep);
    }
  }

  /** Position of the first `c` in `s`. */
  function FirstIndex(s: string, c: char): (i: nat)
    requires c in s
    ensures i < |s| && s[i] == c && c !in s[..i]
  {
    if s[0] == c then 0
    else
      var j := FirstIndex(s[1..], c);
      assert s[..j + 1] == [s[0]] + s[1..][..j];
      j + 1
  }

  /** The first `c` of `p + q` is the head of `q` when `p` holds none. */
  lemma {:induction false} FirstIndexAfter(p: string, q: string, c: char)
    requires c !in p && q != [] && q[0] == c
    ensures c in p + q && FirstIndex(p + q, c) == |p|
  {
    assert (p + q)[|p|] == c;
    if p != [] {
      assert (p + q)[1..] == p[1..] + q;
      FirstIndexAfter(p[1..], q, c);
    }
  }

  /** Cuts a string at every comma and drops the one blank that follows each comma:
      the reading of a list written with Join(parts, Separator). */
  function SplitList(s: string): (parts: seq<string>)
    ensures parts != []
    decreases |s|
  {
    if ',' !in s then [s]
    else
      var i := FirstIndex(s, ',');
      var rest := s[i + 1..];
      [s[..i]] + SplitList(if rest != [] && rest[0] == ' ' then rest[1..] else rest)
  }

  /** Round trip: a non-empty list of comma-free parts is recovered, in order and without
      additions, from its joined form. So Join(parts, Separator) holds exactly |parts|
      segments with no separator before the first or after the last. */
  lemma {:induction false} SplitJoin(parts: seq<string>)
    requires parts != []
    requires forall k :: 0 <= k < |parts| ==> ',' !in parts[k]
    ensures SplitList(Join(parts, Separator)) == parts
  {
    if |parts| > 1 {
      var s := Join(parts, Separator);
      var tail := Join(parts[1..], Separator);
      var n := |parts[0]|;
      assert s == parts[0] + (", " + tail);
      FirstIndexAfter(parts[0], ", " + tail, ',');
      assert s[..n] == parts[0];
      assert s[n + 1..] == " " + tail;
      SplitJoin(parts[1..]);
      assert parts == [parts[0]] + parts[1..];
    }
  }
}
