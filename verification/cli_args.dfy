/**
 * The pure parts of `Args::from_clap`: the validators clap runs on the
 * `--port`, `--threads` and `--auth` values, and the derivation of the
 * settings from the parsed matches.
 */
module CliArgs {
  import opened Wrappers
  import opened Bytes
  import opened PathSplit
  import opened IntParse

  /** The value of `--port` when it is not given. */
  const DEFAULT_PORT: Bytes := Ascii("8000")

  const NOT_POSITIVE: Bytes := Ascii("Not positive number")
  const NO_PASSWORD: Bytes := Ascii("no password found")
  const NO_USERNAME: Bytes := Ascii("no username found")

  /** The port validator: the value must parse as a `u16`. */
  function ValidatePort(s: Bytes): (r: Result<(), Bytes>)
    ensures r.Success? <==> |Digits(s)| > 0 && AllDigits(Digits(s)) && DecimalValue(Digits(s)) <= U16_MAX
    ensures r.Failure? ==> r.error == Description(ParseUint(s, U16_MAX).error)
  {
    match ParseUint(s, U16_MAX)
    case Success(_) => Success(())
    case Failure(e) => Failure(Description(e))
  }

  /** The threads validator: the value must parse as a `u8` and be positive. */
  function ValidateThreads(s: Bytes): (r: Result<(), Bytes>)
    ensures r.Success? <==> |Digits(s)| > 0 && AllDigits(Digits(s)) && 0 < DecimalValue(Digits(s)) <= U8_MAX
    ensures r == Failure(NOT_POSITIVE) <==> ParseUint(s, U8_MAX) == Success(0)
    ensures ParseUint(s, U8_MAX).Failure? ==> r == Failure(Description(ParseUint(s, U8_MAX).error))
  {
    match ParseUint(s, U8_MAX)
    case Success(v) => if v > 0 then Success(()) else Failure(NOT_POSITIVE)
    case Failure(e) => Failure(Description(e))
  }

  /** `s.splitn(2, c)`: the whole string, or what precedes and follows the first `c`. */
  function SplitOnce(s: Bytes, c: byte): (parts: seq<Bytes>)
    ensures c !in s ==> parts == [s]
    ensures c in s ==> |parts| == 2 && s == parts[0] + [c] + parts[1] && c !in parts[0]
  {
    if c !in s then [s]
    else
      var i := FirstIndex(s, c);
      assert s == s[..i] + [c] + s[i + 1..];
      [s[..i], s[i + 1..]]
  }

  /** `i` is the position of the first `:` of `s`. */
  predicate FirstColonAt(s: Bytes, i: int)
  {
    0 <= i < |s| && s[i] == COLON && COLON !in s[..i]
  }

  /**
   * The auth validator.  It accepts exactly when the first `:` has
   * something before and after it.  The password check comes first: with
   * no `:`, or with the first `:` last, the message is about the password
   * (so `:` alone is); with a password but the first `:` leading, it is
   * about the user name.
   */
  function ValidateAuth(s: Bytes): (r: Result<(), Bytes>)
    ensures r.Success? <==> exists i :: FirstColonAt(s, i) && 0 < i < |s| - 1
    ensures r == Failure(NO_PASSWORD) <==> forall i :: FirstColonAt(s, i) ==> i == |s| - 1
    ensures r == Failure(NO_USERNAME) <==> FirstColonAt(s, 0) && |s| > 1
  {
    var parts := SplitOnce(s, COLON);
    FirstColonUnique(s);
    MessagesDiffer();
    if |parts| < 2 || (|parts| >= 2 && |parts[1]| < 1) then Failure(NO_PASSWORD)
    else if |parts[0]| < 1 then Failure(NO_USERNAME)
    else Success(())
  }

  lemma MessagesDiffer()
    ensures NO_PASSWORD != NO_USERNAME
  {
    assert NO_PASSWORD[3] == 'p' as int && NO_USERNAME[3] == 'u' as int;
  }

  /** A string has at most one first `:`, and it is where `splitn` cuts. */
  lemma FirstColonUnique(s: Bytes)
    ensures COLON in s ==> FirstColonAt(s, FirstIndex(s, COLON))
    ensures COLON in s ==> forall i :: FirstColonAt(s, i) ==> i == FirstIndex(s, COLON)
    ensures COLON !in s ==> forall i :: !FirstColonAt(s, i)
  {
    forall i | FirstColonAt(s, i)
      ensures i == FirstIndex(s, COLON)
    {
      FirstIndexUnique(s, COLON, i);
    }
  }

  /** Any non-empty user without `:` and any non-empty password are accepted. */
  lemma AuthAcceptsCredentials(user: Bytes, password: Bytes)
    requires user != [] && COLON !in user && password != []
    ensures ValidateAuth(user + [COLON] + password).Success?
  {
    var s := user + [COLON] + password;
    assert s[..|user|] == user;
    assert FirstColonAt(s, |user|);
  }

  /** An accepted value is a user and a password split at the first `:`. */
  lemma AuthSplitsAtFirstColon(s: Bytes)
    requires ValidateAuth(s).Success?
    ensures var parts := SplitOnce(s, COLON);
            |parts| == 2 && parts[0] != [] && parts[1] != [] && COLON !in parts[0]
            && s == parts[0] + [COLON] + parts[1]
  {
    FirstColonUnique(s);
  }

  /** The option values clap hands over (after their validators passed). */
  datatype Matches = Matches(
    index: bool,
    upload: bool,
    nosort: bool,
    nocache: bool,
    norange: bool,
    cors: bool,
    port: Option<Bytes>,
    auth: Option<Bytes>,
    compress: Option<seq<Bytes>>,
    threads: Option<Bytes>,
    silent: bool)

  /** The derived fields of `Args` (root, certificate, address and try-file aside). */
  datatype Settings = Settings(
    index: bool,
    upload: bool,
    sort: bool,
    cache: bool,
    range: bool,
    cors: bool,
    port: nat,
    threads: Option<nat>,
    auth: Option<Bytes>,
    compressionExts: seq<Bytes>,
    silent: bool)

  function PortValue(m: Matches): Bytes
  {
    m.port.GetOr(DEFAULT_PORT)
  }

  /** clap only hands over matches whose values passed their validators. */
  predicate Validated(m: Matches)
  {
    && ValidatePort(PortValue(m)).Success?
    && (m.threads.Some? ==> ValidateThreads(m.threads.value).Success?)
    && (m.auth.Some? ==> ValidateAuth(m.auth.value).Success?)
  }

  /** Each extension `e` becomes the pattern `*.e`, in the same order. */
  function CompressionPatterns(exts: seq<Bytes>): (r: seq<Bytes>)
    ensures |r| == |exts|
    ensures forall k :: 0 <= k < |r| ==> r[k] == [STAR, DOT] + exts[k]
  {
    if |exts| == 0 then [] else [[STAR, DOT] + exts[0]] + CompressionPatterns(exts[1..])
  }

  /** Removing the `*.` prefix gives the extensions back, so no two lists collide. */
  lemma CompressionPatternsInvertible(a: seq<Bytes>, b: seq<Bytes>)
    requires CompressionPatterns(a) == CompressionPatterns(b)
    ensures a == b
  {
    var r := CompressionPatterns(a);
    forall k | 0 <= k < |a|
      ensures a[k] == b[k]
    {
      assert r[k][2..] == a[k];
      assert r[k][2..] == b[k];
    }
  }

  /** `s.parse::<u16>().unwrap()` on a value the port validator accepted. */
  function PortNumber(s: Bytes): (n: nat)
    requires ValidatePort(s).Success?
    ensures n <= U16_MAX && ParseUint(s, U16_MAX) == Success(n)
  {
    ParseUint(s, U16_MAX).value
  }

  /**
   * `s.parse::<usize>().unwrap()` on a value the threads validator accepted:
   * the same positive value the `u8` parse found.
   */
  function ThreadCount(s: Bytes): (n: nat)
    requires ValidateThreads(s).Success?
    ensures 0 < n <= U8_MAX && ParseUint(s, U8_MAX) == Success(n)
  {
    ParseUint(s, USIZE_MAX).value
  }

  /**
   * The settings `Args::from_clap` derives: `sort`, `cache` and `range` are
   * the negations of the `--no…` flags, the port is the value of the
   * (validated) port string, the thread count is a positive `u8` value,
   * the auth string is passed on, and the compression patterns are one
   * `*.e` per extension, none when the option is absent.
   */
  function FromMatches(m: Matches): (a: Settings)
    requires Validated(m)
    ensures a.sort == !m.nosort && a.cache == !m.nocache && a.range == !m.norange
    ensures a.index == m.index && a.upload == m.upload && a.cors == m.cors && a.silent == m.silent
    ensures a.port <= U16_MAX && ParseUint(PortValue(m), U16_MAX) == Success(a.port)
    ensures a.threads.Some? <==> m.threads.Some?
    ensures m.threads.Some? ==> 0 < a.threads.value <= U8_MAX
                                && ParseUint(m.threads.value, U8_MAX) == Success(a.threads.value)
    ensures a.auth == m.auth
    ensures m.compress.None? ==> a.compressionExts == []
    ensures m.compress.Some? ==> a.compressionExts == CompressionPatterns(m.compress.value)
  {
    var port := PortNumber(PortValue(m));
    var threads :=
      if m.threads.Some? then Some(ThreadCount(m.threads.value)) else None;
    Settings(
      m.index,
      m.upload,
      !m.nosort,
      !m.nocache,
      !m.norange,
      m.cors,
      port,
      threads,
      m.auth,
      CompressionPatterns(m.compress.GetOr([])),
      m.silent)
  }

  /** The default port string passes the port validator and parses as 8000. */
  lemma DefaultPortValid()
    ensures ValidatePort(DEFAULT_PORT).Success?
    ensures ParseUint(DEFAULT_PORT, U16_MAX) == Success(8000)
  {
    var d := Digits(DEFAULT_PORT);
    assert d == [0x38, 0x30, 0x30, 0x30];
    assert AllDigits(d);
    assert DecimalValue(d[..1]) == 8 by { assert d[..1][..0] == []; }
    assert DecimalValue(d[..2]) == 80 by { assert d[..2][..1] == d[..1]; }
    assert DecimalValue(d[..3]) == 800 by { assert d[..3][..2] == d[..2]; }
    assert DecimalValue(d) == 8000 by { assert d[..3] == d[..|d| - 1]; }
  }

  /** Without `--port`, the validated matches give port 8000. */
  lemma DefaultPortIs8000(m: Matches)
    requires m.port.None? && Validated(m)
    ensures FromMatches(m).port == 8000
  {
    DefaultPortValid();
  }

  /** `0` is not positive and `256` does not fit a `u8`; `1` and `255` are accepted. */
  lemma ThreadsBounds()
    ensures ValidateThreads(Ascii("0")) == Failure(NOT_POSITIVE)
    ensures ValidateThreads(Ascii("256")) == Failure(Description(Overflow))
    ensures ValidateThreads(Ascii("1")).Success?
    ensures ValidateThreads(Ascii("255")).Success?
  {
    var zero, one := Ascii("0"), Ascii("1");
    assert zero == [0x30] && zero[..0] == [];
    assert one == [0x31] && one[..0] == [];
    var big := Ascii("256");
    assert big == [0x32, 0x35, 0x36];
    assert big[..1] == [0x32] && big[..1][..0] == [];
    assert DecimalValue(big[..1]) == 2;
    assert big[..2][..1] == big[..1];
    assert DecimalValue(big[..2]) == 25;
    assert big[..3] == big && big[..3][..2] == big[..2];
    assert DecimalValue(big[..3]) == 256;
    var top := Ascii("255");
    assert top == [0x32, 0x35, 0x35];
    assert top[..2] == [0x32, 0x35] && top[..2][..1] == [0x32] && top[..2][..1][..0] == [];
    assert DecimalValue(top[..2]) == 25;
    assert top[..|top| - 1] == top[..2];
    assert DecimalValue(top) == 255;
  }

  /** Examples of the auth rules. */
  lemma AuthExamples()
    ensures ValidateAuth(Ascii(":")) == Failure(NO_PASSWORD)
    ensures ValidateAuth(Ascii("a:b:c")).Success?
    ensures ValidateAuth(Ascii(":b")) == Failure(NO_USERNAME)
    ensures ValidateAuth(Ascii("ab")) == Failure(NO_PASSWORD)
    ensures ValidateAuth([]) == Failure(NO_PASSWORD)
  {
    var colon := Ascii(":");
    assert colon == [COLON] && colon[..0] == [];
    var abc := Ascii("a:b:c");
    assert abc == [0x61] + [COLON] + [0x62, COLON, 0x63];
    AuthAcceptsCredentials([0x61], [0x62, COLON, 0x63]);
    var nouser := Ascii(":b");
    assert nouser == [COLON, 0x62] && nouser[..0] == [];
    var nocolon := Ascii("ab");
    assert nocolon == [0x61, 0x62];
  }
}
