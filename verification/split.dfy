/**
 * Splitting on a one-byte separator (Rust's `str::split` with an ASCII
 * `char` pattern), joining with it (`[String]::join`) and dropping empty
 * pieces (`.filter(|s| !s.is_empty())`).
 */
module PathSplit {
  import opened Bytes

  /** Position of the first `b` in `s`. */
  function FirstIndex(s: Bytes, b: byte): (i: nat)
    requires b in s
    ensures i < |s| && s[i] == b && b !in s[..i]
  {
    if s[0] == b then 0
    else
      assert s[1..][..FirstIndex(s[1..], b)] == s[1..1 + FirstIndex(s[1..], b)];
      1 + FirstIndex(s[1..], b)
  }

  /** Any position holding `b` with no `b` before it is the first one. */
  lemma FirstIndexUnique(s: Bytes, b: byte, i: nat)
    requires i < |s| && s[i] == b && b !in s[..i]
    ensures FirstIndex(s, b) == i
  {
    var j := FirstIndex(s, b);
    assert forall k :: 0 <= k < i ==> s[..i][k] == s[k];
    assert forall k :: 0 <= k < j ==> s[..j][k] == s[k];
  }

  /** Every piece between separators, empty pieces included. */
  function Split(s: Bytes, c: byte): (r: seq<Bytes>)
    ensures |r| >= 1
    ensures forall k :: 0 <= k < |r| ==> c !in r[k]
    decreases |s|
  {
    if c !in s then [s]
    else
      var i := FirstIndex(s, c);
      [s[..i]] + Split(s[i + 1..], c)
  }

  function Join(ps: seq<Bytes>, c: byte): Bytes
  {
    if |ps| == 0 then []
    else if |ps| == 1 then ps[0]
    else ps[0] + [c] + Join(ps[1..], c)
  }

  /** Joining the pieces of a split gives the string back. */
  lemma {:induction false} JoinSplit(s: Bytes, c: byte)
    ensures Join(Split(s, c), c) == s
    decreases |s|
  {
    if c in s {
      var i := FirstIndex(s, c);
      var rest := Split(s[i + 1..], c);
      assert Split(s, c) == [s[..i]] + rest;
      assert ([s[..i]] + rest)[1..] == rest;
      JoinSplit(s[i + 1..], c);
      assert s == s[..i] + [c] + s[i + 1..];
    }
  }

  /** Splitting a join of separator-free pieces gives the pieces back. */
  lemma {:induction false} SplitJoin(ps: seq<Bytes>, c: byte)
    requires |ps| >= 1
    requires forall k :: 0 <= k < |ps| ==> c !in ps[k]
    ensures Split(Join(ps, c), c) == ps
  {
    if |ps| > 1 {
      var head, rest := ps[0], ps[1..];
      assert c !in head;
      assert forall k :: 0 <= k < |rest| ==> rest[k] == ps[k + 1];
      var tail := Join(rest, c);
      var s := head + [c] + tail;
      assert Join(ps, c) == s;
      SeparatorAfter(head, tail, c);
      SplitJoin(rest, c);
      assert ps == [head] + rest;
    }
  }

  /** In `a + [c] + b` with `c` not in `a`, the first `c` closes `a`. */
  lemma SeparatorAfter(a: Bytes, b: Bytes, c: byte)
    requires c !in a
    ensures c in a + [c] + b
    ensures FirstIndex(a + [c] + b, c) == |a|
    ensures (a + [c] + b)[..|a|] == a && (a + [c] + b)[|a| + 1..] == b
  {
    var s := a + [c] + b;
    assert s[|a|] == c;
    assert s[..|a|] == a;
    FirstIndexUnique(s, c, |a|);
    assert s[|a| + 1..] == b;
  }

  /** A separator splits a string into the pieces of either side. */
  lemma {:induction false} SplitAtSeparator(a: Bytes, b: Bytes, c: byte)
    ensures Split(a + [c] + b, c) == Split(a, c) + Split(b, c)
    decreases |a|
  {
    var s := a + [c] + b;
    if c !in a {
      SeparatorAfter(a, b, c);
    } else {
      var i := FirstIndex(a, c);
      var a2 := a[i + 1..];
      SeparatorInside(a, b, c);
      assert Split(s, c) == [a[..i]] + Split(a2 + [c] + b, c);
      SplitAtSeparator(a2, b, c);
    }
  }

  /** In `a + [c] + b` with `c` in `a`, the first `c` is the one in `a`. */
  lemma SeparatorInside(a: Bytes, b: Bytes, c: byte)
    requires c in a
    ensures FirstIndex(a + [c] + b, c) == FirstIndex(a, c)
    ensures (a + [c] + b)[..FirstIndex(a, c)] == a[..FirstIndex(a, c)]
    ensures (a + [c] + b)[FirstIndex(a, c) + 1..] == a[FirstIndex(a, c) + 1..] + [c] + b
  {
    var s := a + [c] + b;
    var i := FirstIndex(a, c);
    assert s[..i] == a[..i];
    FirstIndexUnique(s, c, i);
    assert s[i + 1..] == a[i + 1..] + [c] + b;
  }

  /** There is one more piece than there are separators. */
  lemma {:induction false} SplitLength(s: Bytes, c: byte)
    ensures |Split(s, c)| == Count(s, c) + 1
    decreases |s|
  {
    if c !in s {
      CountZero(s, c);
    } else {
      var i := FirstIndex(s, c);
      SplitLength(s[i + 1..], c);
      assert s == s[..i] + ([c] + s[i + 1..]);
      CountAppend(s[..i], [c] + s[i + 1..], c);
      CountAppend([c], s[i + 1..], c);
      CountZero(s[..i], c);
    }
  }

  /** The pieces that are not empty, in their original order. */
  function RemoveEmpty(ps: seq<Bytes>): (r: seq<Bytes>)
    ensures forall k :: 0 <= k < |r| ==> r[k] != []
    ensures forall x :: x in r <==> x in ps && x != []
    ensures |r| <= |ps|
  {
    if |ps| == 0 then []
    else if ps[0] == [] then RemoveEmpty(ps[1..])
    else [ps[0]] + RemoveEmpty(ps[1..])
  }

  /** Dropping empty pieces distributes over concatenation, so it keeps order. */
  lemma {:induction false} RemoveEmptyAppend(a: seq<Bytes>, b: seq<Bytes>)
    ensures RemoveEmpty(a + b) == RemoveEmpty(a) + RemoveEmpty(b)
  {
    if |a| > 0 {
      assert (a + b)[1..] == a[1..] + b;
      RemoveEmptyAppend(a[1..], b);
    } else {
      assert a + b == b;
    }
  }

  /** A sequence with no empty piece is left as it is. */
  lemma {:induction false} RemoveEmptyKeeps(ps: seq<Bytes>)
    requires forall k :: 0 <= k < |ps| ==> ps[k] != []
    ensures RemoveEmpty(ps) == ps
  {
    if |ps| > 0 {
      RemoveEmptyKeeps(ps[1..]);
      assert ps == [ps[0]] + ps[1..];
    }
  }
}
