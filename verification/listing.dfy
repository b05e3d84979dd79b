/**
 * The directory listing of `MethodGetHandler::handle`: one `RowItem` per
 * directory entry, in the order the directory yields them, and the fields
 * of the `IndexPage` handed to the template.
 */
module Listing {
  import opened Wrappers
  import opened Bytes
  import opened Utf8
  import opened PathSplit
  import opened PercentEncoding
  import opened RequestPath
  import FsPath
  import opened EpochTime

  datatype FileType = Directory | File {
    /** `FileType::to_str`. */
    function ToStr(): (r: Bytes)
      ensures r == Ascii("directory") <==> this == Directory
      ensures r == Ascii("file") <==> this == File
    {
      match this
      case Directory => Ascii("directory")
      case File => Ascii("file")
    }
  }

  /**
   * A directory entry with the metadata the row needs: its name (after the
   * lossy conversion to text), whether it is a directory, its length in
   * bytes and its modification time.
   */
  datatype Entry = Entry(name: Bytes, isDir: bool, len: u64, modified: Timespec)

  /**
   * The size column: `-` for a directory, otherwise the human-readable
   * rendering of the length (whose text is not modelled).
   */
  datatype SizeCell = Dash | HumanSize(bytes: nat)

  /**
   * A row of the listing.  `modified` is the normalised pair that is then
   * formatted in local time.
   */
  datatype RowItem = RowItem(
    fileType: Bytes,
    filename: Bytes,
    link: Bytes,
    linkClass: Bytes,
    modified: EpochPair,
    filesize: SizeCell)

  function KindOf(e: Entry): FileType
  {
    if e.isDir then Directory else File
  }

  /** The link segments: the name, and an empty segment after a directory. */
  function LinkParts(e: Entry): seq<Bytes>
  {
    if e.isDir then [e.name, []] else [e.name]
  }

  /**
   * `RowItem::from`.  The link is `/` and the encoded name, followed by `/`
   * for a directory; the class is `link-` and the type; the size is `-`
   * exactly for directories; the time pair is the entry's own time.
   */
  function RowFromEntry(e: Entry): (row: RowItem)
    ensures row.filename == e.name
    ensures row.fileType == (if e.isDir then Ascii("directory") else Ascii("file"))
    ensures row.linkClass == Ascii("link-") + row.fileType
    ensures row.filesize == Dash <==> e.isDir
    ensures |row.link| >= 1 && row.link[0] == SLASH
    ensures e.isDir ==> row.link == [SLASH] + EncodeSegment(e.name) + [SLASH]
    ensures !e.isDir ==> row.link == [SLASH] + EncodeSegment(e.name)
    ensures row.modified == EpochPair(e.modified.sec, e.modified.nsec)
  {
    var kind := KindOf(e);
    var name := kind.ToStr();
    assert name == if e.isDir then Ascii("directory") else Ascii("file");
    NormaliseRecoversTimespec(e.modified);
    RowItem(
      name,
      e.name,
      RowLink(e),
      Ascii("link-") + name,
      Normalise(DurationSinceEpoch(e.modified)),
      if e.isDir then Dash else HumanSize(e.len))
  }

  /** The row's link: `/`, the encoded name, then `/` for a directory. */
  function RowLink(e: Entry): (link: Bytes)
    ensures link == [SLASH] + EncodeSegment(e.name) + (if e.isDir then [SLASH] else [])
  {
    assert EncodeAll(LinkParts(e))[0] == EncodeSegment(e.name);
    DirectoryLinkParts(e.name);
    [SLASH] + EncodeLinkPath(LinkParts(e))
  }

  /** The trailing empty segment of a directory link encodes to a final `/`. */
  lemma DirectoryLinkParts(name: Bytes)
    ensures EncodeLinkPath([name, []]) == EncodeSegment(name) + [SLASH]
  {
    var enc := EncodeAll([name, []]);
    assert enc == [EncodeSegment(name), []];
    assert Join(enc[1..], SLASH) == [];
  }

  /** For a named entry, the link ends in `/` exactly when it is a directory. */
  lemma RowLinkEndsWithSlashIffDirectory(e: Entry)
    requires e.name != []
    ensures var link := RowFromEntry(e).link; link[|link| - 1] == SLASH <==> e.isDir
  {
    var enc := EncodeSegment(e.name);
    assert |enc| >= 1 && enc[|enc| - 1] in enc;
  }

  /**
   * The request decoder reads a row's link back as the single segment of
   * the entry's name, for files and directories alike.
   */
  lemma RowLinkDecodesToName(e: Entry)
    requires e.name != [] && ValidUtf8(e.name)
    ensures DecodeRequestPath(RowFromEntry(e).link) == Success([e.name])
  {
    var enc := EncodeSegment(e.name);
    assert EncodeAll([e.name]) == [enc];
    assert EncodeLinkPath([e.name]) == enc;
    DecodeEncodeLinkPath([e.name]);
    var link := RowFromEntry(e).link;
    if e.isDir {
      assert link == [SLASH] + (enc + [SLASH]);
      LeadingSlashIgnored(enc + [SLASH]);
      TrailingSlashIgnored(enc);
    } else {
      assert link == [SLASH] + enc;
      LeadingSlashIgnored(enc);
    }
  }

  /** The rows in the order of the entries: the listing is not sorted. */
  function Rows(entries: seq<Entry>): (rows: seq<RowItem>)
    ensures |rows| == |entries|
    ensures forall k :: 0 <= k < |rows| ==> rows[k] == RowFromEntry(entries[k])
  {
    if |entries| == 0 then [] else [RowFromEntry(entries[0])] + Rows(entries[1..])
  }

  datatype SimpleLink = SimpleLink(link: Bytes, text: Bytes)
  datatype UpLink = UpLink(present: bool, link: Bytes, text: Bytes)

  /** The values the template renders. */
  datatype IndexPage = IndexPage(
    directory: Bytes,
    breadcrumb: seq<SimpleLink>,
    upLink: UpLink,
    currentLink: Bytes,
    rows: seq<RowItem>)

  /** Why `read_dir` failed; its content is the operating system's. */
  datatype IoError = IoError(description: Bytes)

  datatype GetError = UndecodablePath(cause: DecodeError) | ReadDirFailed(io: IoError)

  /**
   * `MethodGetHandler::handle` up to rendering.  `readDir` stands for
   * `fs::read_dir` with each entry's metadata already read.  An undecodable
   * path is a failure (a panic in the handler); otherwise the directory at
   * the root plus the decoded segments is listed, one row per entry in
   * directory order, with an empty breadcrumb, an absent up-link and `/` as
   * the current link.
   */
  function HandleGet(root: Bytes, path: Bytes, readDir: Bytes -> Result<seq<Entry>, IoError>)
    : (r: Result<IndexPage, GetError>)
    ensures r.Failure? && r.error.UndecodablePath? <==> DecodeRequestPath(path).Failure?
    ensures r.Failure? && r.error.ReadDirFailed? <==>
              DecodeRequestPath(path).Success?
              && readDir(FsPath.Resolve(root, DecodeRequestPath(path).value)).Failure?
    ensures r.Success? ==>
              var segs := DecodeRequestPath(path).value;
              var entries := readDir(FsPath.Resolve(root, segs)).value;
              && DecodeRequestPath(r.value.directory) == Success(segs)
              && |r.value.rows| == |entries|
              && (forall k :: 0 <= k < |entries| ==> r.value.rows[k] == RowFromEntry(entries[k]))
              && r.value.breadcrumb == []
              && !r.value.upLink.present
              && r.value.currentLink == [SLASH]
  {
    match DecodeRequestPath(path)
    case Failure(e) => Failure(UndecodablePath(e))
    case Success(segs) =>
      match readDir(FsPath.Resolve(root, segs))
      case Failure(io) => Failure(ReadDirFailed(io))
      case Success(entries) =>
        DirectoryLinkIsCanonical(path);
        Success(IndexPage(
          EncodeLinkPath(segs),
          [],
          UpLink(false, [SLASH], Ascii("Up")),
          [SLASH],
          Rows(entries)))
  }

  /** An empty directory gives a page with no rows, not an error. */
  lemma EmptyDirectoryHasNoRows(root: Bytes, path: Bytes, readDir: Bytes -> Result<seq<Entry>, IoError>)
    requires DecodeRequestPath(path).Success?
    requires readDir(FsPath.Resolve(root, DecodeRequestPath(path).value)) == Success([])
    ensures HandleGet(root, path, readDir).Success?
    ensures HandleGet(root, path, readDir).value.rows == []
  {
  }

  /**
   * A piece that starts with `%2F` decodes to a segment that starts with
   * `/`, and pushing it discards the root: the listed directory no longer
   * depends on the root or on the segments before it.
   */
  lemma EncodedSlashReplacesRoot(root: Bytes, path: Bytes, k: nat)
    requires DecodeRequestPath(path).Success?
    requires k < |Pieces(path)| && |Pieces(path)[k]| >= 3 && Pieces(path)[k][..3] == Ascii("%2F")
    ensures var segs := DecodeRequestPath(path).value;
            FsPath.Resolve(root, segs) == FsPath.Resolve(segs[k], segs[k + 1..])
  {
    var piece := Pieces(path)[k];
    assert piece[0] == PERCENT && piece[1] == 0x32 && piece[2] == 0x46;
    assert PercentDecode(piece)[0] == SLASH;
    FsPath.AbsoluteSegmentReplacesRoot(root, DecodeRequestPath(path).value, k);
  }
}
