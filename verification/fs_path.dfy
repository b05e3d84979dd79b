/**
 * Appending the decoded segments to the server root (`fs_path.push(part)`
 * for each segment), with the Unix semantics of `PathBuf::push`: a
 * separator is inserted unless the buffer is empty or already ends in `/`,
 * and a part that starts with `/` is absolute and replaces the buffer.
 */
module FsPath {
  import opened Bytes
  import opened PathSplit

  function Push(buf: Bytes, part: Bytes): (r: Bytes)
    ensures |part| > 0 && part[0] == SLASH ==> r == part
    ensures (|part| == 0 || part[0] != SLASH) ==> |r| >= |buf| + |part| && r[..|buf|] == buf && r[|r| - |part|..] == part
    ensures (|part| == 0 || part[0] != SLASH) ==>
              r[|buf|..|r| - |part|] == (if |buf| > 0 && buf[|buf| - 1] != SLASH then [SLASH] else [])
  {
    var needSep := |buf| > 0 && buf[|buf| - 1] != SLASH;
    if |part| > 0 && part[0] == SLASH then part
    else if needSep then buf + [SLASH] + part
    else buf + part
  }

  /**
   * The filesystem path the handler lists: every segment pushed onto the
   * root.  For non-empty segments without `/` this is one push of the
   * segments joined with `/`, whatever the root ends with.
   */
  function Resolve(root: Bytes, segs: seq<Bytes>): (r: Bytes)
    ensures |segs| >= 1 && (forall k :: 0 <= k < |segs| ==> segs[k] != [] && SLASH !in segs[k]) ==>
              r == Push(root, Join(segs, SLASH))
    decreases |segs|
  {
    if |segs| == 0 then root
    else
      var head, tail := segs[0], Join(segs[1..], SLASH);
      if |segs| > 1 && |head| > 0 && head[0] != SLASH && head[|head| - 1] != SLASH
         && |tail| > 0 && tail[0] != SLASH then
        PushThenPush(root, head, tail);
        Resolve(Push(root, head), segs[1..])
      else
        Resolve(Push(root, head), segs[1..])
  }

  /**
   * Pushing a relative part that does not end in `/` and then a relative
   * non-empty part is one push of both joined with `/`.
   */
  lemma PushThenPush(buf: Bytes, a: Bytes, b: Bytes)
    requires |a| > 0 && a[0] != SLASH && a[|a| - 1] != SLASH
    requires |b| > 0 && b[0] != SLASH
    ensures Push(Push(buf, a), b) == Push(buf, a + [SLASH] + b)
  {
    var sep := Separator(buf);
    var first := buf + sep + a;
    PushRelative(buf, a);
    assert first[|first| - 1] == a[|a| - 1];
    assert Separator(first) == [SLASH];
    PushRelative(first, b);
    var ab := a + [SLASH] + b;
    assert ab[0] == a[0];
    PushRelative(buf, ab);
    assert first + [SLASH] + b == buf + sep + ab;
  }

  /** The separator `Push` puts between the buffer and a relative part. */
  function Separator(buf: Bytes): Bytes
  {
    if |buf| > 0 && buf[|buf| - 1] != SLASH then [SLASH] else []
  }

  lemma PushRelative(buf: Bytes, part: Bytes)
    requires |part| == 0 || part[0] != SLASH
    ensures Push(buf, part) == buf + Separator(buf) + part
  {
  }

  /**
   * Segments without `/` are appended verbatim, one separator each, to a
   * root that does not end in `/`: a `..` segment becomes a `..` component
   * of the path, and nothing checks that the result stays under the root.
   */
  lemma ResolveAppends(root: Bytes, segs: seq<Bytes>)
    requires |root| > 0 && root[|root| - 1] != SLASH
    requires |segs| >= 1
    requires forall k :: 0 <= k < |segs| ==> segs[k] != [] && SLASH !in segs[k]
    ensures Resolve(root, segs) == root + [SLASH] + Join(segs, SLASH)
  {
    JoinStartsWithFirst(segs);
  }

  lemma JoinStartsWithFirst(ps: seq<Bytes>)
    requires |ps| >= 1 && ps[0] != []
    ensures |Join(ps, SLASH)| > 0 && Join(ps, SLASH)[0] == ps[0][0]
  {
  }

  /**
   * A segment that starts with `/` (a piece such as `%2Fetc`) discards the
   * root and every segment before it.
   */
  lemma {:induction false} AbsoluteSegmentReplacesRoot(root: Bytes, segs: seq<Bytes>, k: nat)
    requires k < |segs| && |segs[k]| > 0 && segs[k][0] == SLASH
    ensures Resolve(root, segs) == Resolve(segs[k], segs[k + 1..])
    decreases k
  {
    if k > 0 {
      AbsoluteSegmentReplacesRoot(Push(root, segs[0]), segs[1..], k - 1);
      assert segs[1..][k - 1 + 1..] == segs[k + 1..];
    }
  }
}
