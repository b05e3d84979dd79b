/**
 * The request-path decoder at the top of `MethodGetHandler::handle` and
 * `encode_link_path`, which builds the links of the listing.
 */
module RequestPath {
  import opened Wrappers
  import opened Bytes
  import opened Utf8
  import opened PathSplit
  import opened PercentEncoding

  /** A piece whose percent-decoding is not UTF-8; the handler panics on it. */
  datatype DecodeError = InvalidUtf8(piece: Bytes)

  /** The non-empty `/`-separated pieces of the raw request path, in order. */
  function Pieces(path: Bytes): (r: seq<Bytes>)
    ensures forall k :: 0 <= k < |r| ==> r[k] != [] && SLASH !in r[k]
    ensures |r| <= Count(path, SLASH) + 1
    ensures SLASH !in path && path != [] ==> r == [path]
  {
    SplitLength(path, SLASH);
    var ps := Split(path, SLASH);
    var r := RemoveEmpty(ps);
    assert forall k :: 0 <= k < |r| ==> r[k] in ps;
    r
  }

  /** Percent-decodes every piece; the first piece that is not UTF-8 fails. */
  function DecodePieces(ps: seq<Bytes>): (r: Result<seq<Bytes>, DecodeError>)
    ensures r.Success? <==> forall k :: 0 <= k < |ps| ==> ValidUtf8(PercentDecode(ps[k]))
    ensures r.Success? ==> |r.value| == |ps|
    ensures r.Success? ==> forall k :: 0 <= k < |ps| ==> r.value[k] == PercentDecode(ps[k])
    ensures r.Failure? ==> exists k :: 0 <= k < |ps| && r.error == InvalidUtf8(ps[k])
  {
    if |ps| == 0 then Success([])
    else
      var seg := PercentDecode(ps[0]);
      if !ValidUtf8(seg) then Failure(InvalidUtf8(ps[0]))
      else
        var rest :- DecodePieces(ps[1..]);
        Success([seg] + rest)
  }

  /**
   * The decoded request path: one segment per non-empty piece, in order,
   * each percent-decoded; it fails exactly when some piece does not decode
   * to UTF-8.  Every segment is non-empty UTF-8 text.
   */
  function DecodeRequestPath(path: Bytes): (r: Result<seq<Bytes>, DecodeError>)
    ensures r.Success? <==> forall k :: 0 <= k < |Pieces(path)| ==> ValidUtf8(PercentDecode(Pieces(path)[k]))
    ensures r.Success? ==> |r.value| == |Pieces(path)|
    ensures r.Success? ==> forall k :: 0 <= k < |r.value| ==> r.value[k] == PercentDecode(Pieces(path)[k])
    ensures r.Success? ==> forall k :: 0 <= k < |r.value| ==> r.value[k] != [] && ValidUtf8(r.value[k])
  {
    DecodePieces(Pieces(path))
  }

  /** The per-segment encodings, in order. */
  function EncodeAll(segs: seq<Bytes>): (r: seq<Bytes>)
    ensures |r| == |segs|
  {
    seq(|segs|, k requires 0 <= k < |segs| => EncodeSegment(segs[k]))
  }

  /** `encode_link_path`: the per-segment encodings joined with `/`. */
  function EncodeLinkPath(segs: seq<Bytes>): (r: Bytes)
    ensures |segs| >= 1 ==> Split(r, SLASH) == EncodeAll(segs)
    ensures |segs| == 0 ==> r == []
  {
    if |segs| >= 1 then
      SplitJoin(EncodeAll(segs), SLASH);
      Join(EncodeAll(segs), SLASH)
    else
      Join(EncodeAll(segs), SLASH)
  }

  /** A link built from `n >= 1` segments holds exactly `n - 1` separators. */
  lemma EncodeLinkPathSeparators(segs: seq<Bytes>)
    requires |segs| >= 1
    ensures Count(EncodeLinkPath(segs), SLASH) == |segs| - 1
  {
    SplitLength(EncodeLinkPath(segs), SLASH);
  }

  /**
   * Decoding an encoded link gives back its segments, as long as every
   * segment is non-empty text (an empty one would vanish as an empty piece).
   */
  lemma DecodeEncodeLinkPath(segs: seq<Bytes>)
    requires forall k :: 0 <= k < |segs| ==> segs[k] != [] && ValidUtf8(segs[k])
    ensures DecodeRequestPath(EncodeLinkPath(segs)) == Success(segs)
  {
    var enc := EncodeAll(segs);
    if |segs| == 0 {
      assert Split([], SLASH) == [[]];
      assert RemoveEmpty([[]]) == [];
    } else {
        assert forall k :: 0 <= k < |enc| ==> |enc[k]| >= |segs[k]| > 0;
      RemoveEmptyKeeps(enc);
    }
    assert Pieces(EncodeLinkPath(segs)) == enc;
    forall k | 0 <= k < |segs|
      ensures PercentDecode(enc[k]) == segs[k]
    {
      DecodeEncodeSegment(segs[k]);
    }
    assert DecodeRequestPath(EncodeLinkPath(segs)).value == segs;
  }

  /** The `directory` link of a page decodes to the same segments as the request. */
  lemma DirectoryLinkIsCanonical(path: Bytes)
    requires DecodeRequestPath(path).Success?
    ensures DecodeRequestPath(EncodeLinkPath(DecodeRequestPath(path).value)) == DecodeRequestPath(path)
  {
    DecodeEncodeLinkPath(DecodeRequestPath(path).value);
  }

  /** A leading slash contributes no segment. */
  lemma LeadingSlashIgnored(path: Bytes)
    ensures DecodeRequestPath([SLASH] + path) == DecodeRequestPath(path)
  {
    assert [SLASH] + path == [] + [SLASH] + path;
    SplitAtSeparator([], path, SLASH);
    assert Split([], SLASH) == [[]];
    RemoveEmptyAppend([[]], Split(path, SLASH));
  }

  /** A trailing slash contributes no segment. */
  lemma TrailingSlashIgnored(path: Bytes)
    ensures DecodeRequestPath(path + [SLASH]) == DecodeRequestPath(path)
  {
    assert path + [SLASH] == path + [SLASH] + [];
    SplitAtSeparator(path, [], SLASH);
    assert Split([], SLASH) == [[]];
    RemoveEmptyAppend(Split(path, SLASH), [[]]);
    assert RemoveEmpty([[]]) == [];
    assert RemoveEmpty(Split(path, SLASH)) + [] == RemoveEmpty(Split(path, SLASH));
  }

  /** Two slashes in a row decode like one. */
  lemma RepeatedSlashCollapses(a: Bytes, b: Bytes)
    ensures DecodeRequestPath(a + [SLASH, SLASH] + b) == DecodeRequestPath(a + [SLASH] + b)
  {
    RepeatedSlashPieces(a, b);
  }

  lemma RepeatedSlashPieces(a: Bytes, b: Bytes)
    ensures Pieces(a + [SLASH, SLASH] + b) == Pieces(a + [SLASH] + b)
  {
    var sa, sb := Split(a, SLASH), Split(b, SLASH);
    assert a + [SLASH, SLASH] + b == a + [SLASH] + ([SLASH] + b);
    SplitAtSeparator(a, [SLASH] + b, SLASH);
    assert [SLASH] + b == [] + [SLASH] + b;
    SplitAtSeparator([], b, SLASH);
    assert Split([], SLASH) == [[]];
    assert Split(a + [SLASH, SLASH] + b, SLASH) == sa + ([[]] + sb);
    SplitAtSeparator(a, b, SLASH);
    RemoveEmptyAppend(sa, [[]] + sb);
    RemoveEmptyAppend([[]], sb);
    assert RemoveEmpty([[]]) == [];
    RemoveEmptyAppend(sa, sb);
  }

  /**
   * `.` and `..` are ordinary pieces: they reach the segment list unchanged,
   * with no check against leaving the root.
   */
  lemma DotSegmentsPassThrough(path: Bytes, k: nat)
    requires DecodeRequestPath(path).Success?
    requires k < |Pieces(path)|
    requires Pieces(path)[k] == Ascii(".") || Pieces(path)[k] == Ascii("..")
    ensures DecodeRequestPath(path).value[k] == Pieces(path)[k]
  {
    DecodeWithoutPercent(Pieces(path)[k]);
  }
}
