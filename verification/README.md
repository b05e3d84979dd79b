# Directory listing and argument validation of a static-file HTTP server

This project models in Dafny the two parts of `actix-shs-cli`, a small
static-file HTTP server written in Rust, that hold real logic:

- **The directory listing of `MethodGetHandler::handle`** (`handlers.rs`).
  The request path is split on `/` and empty pieces are dropped. Each piece
  is percent-decoded and must be UTF-8. The segments are pushed onto the
  server root. Each directory entry becomes a `RowItem` with a type, a
  link, a CSS class, a size cell and a modification time. Links are built
  by `encode_link_path`, which percent-encodes each segment with the `url`
  crate's PATH_SEGMENT_ENCODE_SET and joins the results with `/`. The time
  of a row is the signed `(sec, nsec)` pair that `system_time_to_date_time`
  derives from `duration_since(UNIX_EPOCH)`.
- **The pure validators and derivations of `Args::from_clap`** (`args.rs`).
  These are the `--port` (`u16`), `--threads` (positive `u8`) and
  `--auth` (`user:password`) validators, the `sort`/`cache`/`range`
  negations of the `--no…` flags, and the `*.ext` compression patterns.

Strings are UTF-8 byte sequences (`seq<byte>`), as Rust stores them.
`len()` counts bytes, and percent-encoding works byte by byte (section 2.1
of RFC 3986: `%` and two hex digits). UTF-8 validity is the well-formedness
of Table 3-7 of the Unicode Standard.

Library behaviour is written out from the libraries the code uses:
- url 1.x encode set: bytes below 0x20 or above 0x7E, then space `"` `#`
  `<` `>` `` ` `` `?` `{` `}` `%` `/`. The encoder writes upper-case hex.
  The decoder accepts either case and keeps a `%` that is not followed by
  two hex digits.
- `PathBuf::push` on Unix: it adds a separator unless the buffer is empty or
  already ends in `/`, and an absolute part replaces the buffer.
- `str::parse` for unsigned integers: an optional `+`, then digits checked
  left to right. A non-digit gives InvalidDigit and a value past the maximum
  gives Overflow, whichever comes first. Empty digits give Empty. The
  validators pass on the messages of `ParseIntError::description()`.
- `as i64` and unary minus in `system_time_to_date_time` wrap around, as in
  a release build.

Modules: `Wrappers`, `Bytes`, `Utf8`, `PathSplit` (split, join and
empty-piece filter), `PercentEncoding`, `RequestPath` (the decoder and
`encode_link_path`), `FsPath` (pushing segments onto the root),
`EpochTime`, `Listing` (rows and the GET handler), `IntParse`, `CliArgs`.

What the code does, and the model follows:
- The code does not sort the listing. Rows come in directory order.
- The breadcrumb is always empty. The up-link is absent and the current
  link is `/`.
- Row links hold only the entry name, not the current directory.
- Nothing rejects `.` or `..`. They are pushed onto the root unchanged.
  A piece such as `%2Fetc` decodes to an absolute segment, and pushing it
  replaces the root (`Listing.EncodedSlashReplacesRoot`).
- A piece that is not UTF-8 makes the handler panic. The model returns a
  failure instead.
- Unreadable entries also panic in the code. The model receives entries
  whose metadata has already been read.

## Model

| member | source | states |
|---|---|---|
| PercentEncoding.EncodeSegment | actix-shs-cli/src/handlers.rs:35-36 | the encoded segment holds no byte of the path-segment encode set other than the `%` that opens a triplet, so it holds no `/`; it is between one and three times as long as the segment |
| PercentEncoding.DecodeEncodeSegment | actix-shs-cli/src/handlers.rs:145-148 | percent-decoding undoes the path-segment percent-encoding of any byte string |
| PercentEncoding.EncodeSafeSegment | actix-shs-cli/src/handlers.rs:35-36 | a segment with no byte of the encode set is emitted unchanged |
| PercentEncoding.PercentDecode | actix-shs-cli/src/handlers.rs:146 | a decoded piece is never longer than the piece, and is empty exactly when the piece is |
| PercentEncoding.DecodeWithoutPercent | actix-shs-cli/src/handlers.rs:146 | a piece without `%` decodes to itself |
| PathSplit.Split | actix-shs-cli/src/handlers.rs:143 | splitting on `/` gives at least one piece and no piece holds `/` |
| PathSplit.JoinSplit | actix-shs-cli/src/handlers.rs:143 | joining the pieces of a split with `/` gives the request path back, so no byte is lost or moved |
| PathSplit.SplitJoin | actix-shs-cli/src/handlers.rs:37 | splitting a `/`-join of `/`-free pieces gives those pieces back |
| PathSplit.SplitAtSeparator | actix-shs-cli/src/handlers.rs:143 | a `/` cuts the path into the pieces of its left side followed by those of its right side |
| PathSplit.SplitLength | actix-shs-cli/src/handlers.rs:143 | there is one more piece than there are `/` bytes |
| PathSplit.RemoveEmpty | actix-shs-cli/src/handlers.rs:144 | the filter keeps exactly the non-empty pieces |
| PathSplit.RemoveEmptyAppend | actix-shs-cli/src/handlers.rs:144 | the filter distributes over concatenation, so it keeps the original order |
| PathSplit.RemoveEmptyKeeps | actix-shs-cli/src/handlers.rs:144 | a list with no empty piece passes the filter unchanged |
| RequestPath.Pieces | actix-shs-cli/src/handlers.rs:142-144 | every piece is non-empty and holds no `/`; there are at most one more pieces than `/` bytes; a non-empty path without `/` is its own single piece |
| RequestPath.DecodePieces | actix-shs-cli/src/handlers.rs:145-150 | decoding succeeds iff every piece percent-decodes to UTF-8; then segment k is the decoding of piece k; a failure names a piece of the input |
| RequestPath.DecodeRequestPath | actix-shs-cli/src/handlers.rs:141-150 | the segments are exactly the decoded non-empty `/`-pieces in order, each non-empty UTF-8; failure iff some piece is not UTF-8 after decoding |
| RequestPath.EncodeLinkPath | actix-shs-cli/src/handlers.rs:34-38 | a link built from one or more segments splits on `/` into exactly the per-segment encodings, in order; no segments give the empty link |
| RequestPath.EncodeLinkPathSeparators | actix-shs-cli/src/handlers.rs:34-38 | a link built from n >= 1 segments holds exactly n - 1 separators |
| RequestPath.DecodeEncodeLinkPath | actix-shs-cli/src/handlers.rs:141-150 | the request decoder reads `encode_link_path(segs)` back as `segs` when every segment is non-empty UTF-8 |
| RequestPath.DirectoryLinkIsCanonical | actix-shs-cli/src/handlers.rs:160-161 | the page's `directory` link decodes to the same segments as the request path |
| RequestPath.LeadingSlashIgnored | actix-shs-cli/src/handlers.rs:143-144 | a leading `/` contributes no segment |
| RequestPath.TrailingSlashIgnored | actix-shs-cli/src/handlers.rs:143-144 | a trailing `/` contributes no segment |
| RequestPath.RepeatedSlashCollapses | actix-shs-cli/src/handlers.rs:143-144 | `//` decodes like `/` anywhere in the path |
| RequestPath.DotSegmentsPassThrough | actix-shs-cli/src/handlers.rs:145-150 | `.` and `..` pieces reach the segment list unchanged |
| FsPath.Push | actix-shs-cli/src/handlers.rs:152 | a part that starts with `/` replaces the path; any other part is appended after the old path, with one `/` between them exactly when the old path is non-empty and does not already end in `/` |
| FsPath.Resolve | actix-shs-cli/src/handlers.rs:151-153 | pushing non-empty `/`-free segments one by one onto any root is a single push of the segments joined with `/` |
| FsPath.PushThenPush | actix-shs-cli/src/handlers.rs:151-153 | pushing a relative part that does not end in `/` and then a relative non-empty part is one push of the two joined with `/` |
| FsPath.ResolveAppends | actix-shs-cli/src/handlers.rs:151-153 | `/`-free segments are appended to the root one separator each, verbatim (`..` included), with no check on leaving the root |
| FsPath.AbsoluteSegmentReplacesRoot | actix-shs-cli/src/handlers.rs:151-153 | a segment starting with `/` discards the root and every earlier segment |
| Listing.EncodedSlashReplacesRoot | actix-shs-cli/src/handlers.rs:141-153 | a request piece starting with `%2F` makes the listed path independent of the root |
| EpochTime.Normalise | actix-shs-cli/src/handlers.rs:19-30 | nsec is in [0, 10^9) and sec is an i64; at or after the epoch the pair is (whole seconds, sub-second nanos); before it, (-sec, 0) or (-sec-1, 10^9-nsec); before it, sec*10^9+nsec is minus the duration |
| EpochTime.NormaliseIsFloorDivision | actix-shs-cli/src/handlers.rs:19-30 | within the i64 range the pair is the floor quotient and remainder of the signed offset by one second |
| EpochTime.NormaliseRecoversTimespec | actix-shs-cli/src/handlers.rs:18-31 | for every Unix file time, before the epoch included, the pair is that time's own seconds and nanoseconds |
| Listing.FileType.ToStr | actix-shs-cli/src/handlers.rs:47-52 | the name is `directory` exactly for a directory and `file` exactly for a file, so the two kinds get different names |
| Listing.RowFromEntry | actix-shs-cli/src/handlers.rs:64-101 | type `directory`/`file`; class is `link-` plus the type; size is `-` iff directory; link is `/` plus the encoded name, plus `/` for a directory; the time pair is the entry's own time |
| Listing.RowLinkEndsWithSlashIffDirectory | actix-shs-cli/src/handlers.rs:84-89 | a row link ends in `/` exactly when the entry is a directory |
| Listing.RowLinkDecodesToName | actix-shs-cli/src/handlers.rs:84-89 | the request decoder reads a row link back as the single segment of the entry name |
| Listing.Rows | actix-shs-cli/src/handlers.rs:155-158 | one row per entry, in directory order (no sorting) |
| Listing.HandleGet | actix-shs-cli/src/handlers.rs:139-169 | fails iff the path does not decode or `read_dir` fails on the root plus the segments; otherwise the page has one row per entry in order, a directory link that decodes to the segments, an empty breadcrumb, no up-link and current link `/` |
| Listing.EmptyDirectoryHasNoRows | actix-shs-cli/src/handlers.rs:155-158 | an empty directory gives a page with zero rows, not an error |
| IntParse.Scan | actix-shs-cli/src/args.rs:140 | the digit loop never reports Empty; it succeeds iff all are digits and the value fits; it overflows iff some all-digit prefix is too large |
| IntParse.ParseUint | actix-shs-cli/src/args.rs:103 | Empty iff no digits after the optional `+`; success iff all digits and the value fits, giving that value; Overflow iff an all-digit prefix exceeds the maximum |
| CliArgs.ValidatePort | actix-shs-cli/src/args.rs:102-107 | accepted iff the value parses as a `u16`; otherwise the parse error's description |
| CliArgs.DefaultPortValid | actix-shs-cli/src/args.rs:101-107 | the default `8000` passes the port validator on its own, and parses to 8000 |
| CliArgs.DefaultPortIs8000 | actix-shs-cli/src/args.rs:101 | without `--port` the port is 8000 |
| CliArgs.PortNumber | actix-shs-cli/src/args.rs:193-197 | the port taken from a validated value is the `u16` it parses to |
| CliArgs.ValidateThreads | actix-shs-cli/src/args.rs:139-148 | accepted iff the value parses as a `u8` and is positive; `Not positive number` iff it parses to 0; otherwise the parse error's description |
| CliArgs.ThreadsBounds | actix-shs-cli/src/args.rs:139-148 | `0` is rejected as not positive and `256` with the overflow message; `1` and `255` are accepted |
| CliArgs.ThreadCount | actix-shs-cli/src/args.rs:202-204 | the `usize` parse of a validated value is the same number, in 1..255 |
| CliArgs.SplitOnce | actix-shs-cli/src/args.rs:114 | `splitn(2, ':')` gives the whole string when there is no `:`, else the colon-free part before the first `:` and everything after it |
| CliArgs.ValidateAuth | actix-shs-cli/src/args.rs:113-122 | accepted iff the first `:` has bytes before and after it; `no password found` iff there is no `:` or the first `:` is last; `no username found` iff the first `:` leads and something follows it |
| CliArgs.AuthAcceptsCredentials | actix-shs-cli/src/args.rs:114-120 | any non-empty `:`-free user and any non-empty password, `:` included, are accepted |
| CliArgs.AuthSplitsAtFirstColon | actix-shs-cli/src/args.rs:114-120 | an accepted value is a non-empty user and a non-empty password joined at the first `:` |
| CliArgs.AuthExamples | actix-shs-cli/src/args.rs:113-122 | `:`, `ab` and the empty string lack a password, `:b` lacks a user name, and `a:b:c` is accepted |
| CliArgs.CompressionPatterns | actix-shs-cli/src/args.rs:209-213 | one pattern per extension, in order, each `*.` followed by the extension |
| CliArgs.CompressionPatternsInvertible | actix-shs-cli/src/args.rs:209-213 | different extension lists give different pattern lists |
| CliArgs.FromMatches | actix-shs-cli/src/args.rs:177-214 | `sort`, `cache` and `range` are the negations of their `--no…` flags; the port is the validated `u16`; threads is present iff given and is in 1..255; auth is passed on; compression patterns are empty when the option is absent |

## Left out

- The `root`, `cert` and `try-file` validators and fields: they probe the filesystem with `fs::metadata`.
- The `ip` validator and field: `IpAddr::from_str` is a foreign parser.
- The clap wiring: option names, help texts, and the order in which clap runs validators. `CliArgs.FromMatches` takes matches whose values already passed their validators.
- `cert`, `certpass` and `try_file_404` pass-through fields of `Args`.
- `fs::read_dir` and `entry.metadata()`: the handler receives them as the `readDir` parameter. The `unwrap` panics on unreadable entries and on `modified()` are not modelled.
- `to_string_lossy` on entry names: names arrive as already converted text.
- `Local.timestamp(...).format(...)`: it depends on the time zone and on chrono. Rows keep the normalised `(sec, nsec)` pair.
- `pretty_bytes::convert` on `f64`: the size cell of a file is `HumanSize(len)`, and its text is not modelled. It is never `-`.
- The askama `IndexPage` rendering, `MethodHeadHandler`, the actix `Handler` impls, sharing `Args` through `Arc`, and all of `main.rs`.
- How actix derives `req.path()`: the handler takes the raw path as input.
- Sorting, breadcrumbs and the up-link: the code does not implement them.
- EpochTime.Normalise: uses wrapping (release-build) arithmetic for `as i64` and unary minus. The overflow panic that a debug build raises on `-i64::MIN` is not modelled.
- IntParse.ParseUint: follows the standard library of the code's era, where a lone `+` gives Empty. Later releases report InvalidDigit for it.
