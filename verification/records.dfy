/**
  The Gource log record, its total order, and the pure steps that build a record
  from one git delta (src/structs.rs).
 */
module Records {
  import opened Wrappers
  import opened Machine

  /** Gource's change kinds; the derived order is declaration order. */
  datatype Action = A | M | D

  /** One line of the Gource log. */
  datatype LogRecord = LogRecord(timestamp: i64, username: string, action: Action, file: string)

  datatype Ordering = Less | Equal | Greater {
    function Reverse(): Ordering {
      match this
      case Less => Greater
      case Equal => Equal
      case Greater => Less
    }

    /** `Ordering::then`: keep a decided comparison, otherwise use `next`. */
    function Then(next: Ordering): Ordering {
      if this == Equal then next else this
    }
  }

  function CmpInt(x: int, y: int): (o: Ordering)
    ensures o == Equal <==> x == y
    ensures o == Less <==> x < y
  {
    if x < y then Less else if x == y then Equal else Greater
  }

  function Rank(a: Action): nat {
    match a
    case A => 0
    case M => 1
    case D => 2
  }

  /** Derived `Ord` of `GourceActionType`: A < M < D. */
  function CmpAction(x: Action, y: Action): (o: Ordering)
    ensures o == Equal <==> x == y
    ensures o == Less <==> (x == A && y != A) || (x == M && y == D)
  {
    CmpInt(Rank(x), Rank(y))
  }

  /**
    `String` ordering. Rust compares the UTF-8 bytes, which orders strings the
    same way as comparing their code points one by one.
   */
  function CmpStr(s: string, t: string): (o: Ordering)
    ensures o == Equal <==> s == t
  {
    if s == [] then (if t == [] then Equal else Less)
    else if t == [] then Greater
    else if s[0] < t[0] then Less
    else if s[0] > t[0] then Greater
    else
      var o := CmpStr(s[1..], t[1..]);
      assert o == Equal ==> s == [s[0]] + s[1..] == [t[0]] + t[1..] == t;
      o
  }

  /** Lexicographic "strictly before", stated without recursion. */
  ghost predicate LexLess(s: string, t: string) {
    || (|s| < |t| && s == t[..|s|])
    || exists k :: 0 <= k < |s| && k < |t| && s[..k] == t[..k] && s[k] < t[k]
  }

  lemma {:induction false} CmpStrLess(s: string, t: string)
    ensures CmpStr(s, t) == Less <==> LexLess(s, t)
    decreases |s|
  {
    if s == [] || t == [] {
    } else if s[0] < t[0] {
      assert s[..0] == t[..0];
    } else if s[0] > t[0] {
      if |s| < |t| {
        assert t[..|s|][0] == t[0];
      }
      forall k | 0 <= k < |s| && k < |t| && s[..k] == t[..k]
        ensures !(s[k] < t[k])
      {
        assert forall j :: 0 <= j < k ==> s[..k][j] == s[j] && t[..k][j] == t[j];
      }
    } else {
      CmpStrLess(s[1..], t[1..]);
      if LexLess(s[1..], t[1..]) {
        if |s[1..]| < |t[1..]| && s[1..] == t[1..][..|s[1..]|] {
          assert s == [s[0]] + s[1..];
          assert t[..|s|] == [t[0]] + t[1..][..|s[1..]|];
        } else {
          var k :| 0 <= k < |s[1..]| && k < |t[1..]| && s[1..][..k] == t[1..][..k] && s[1..][k] < t[1..][k];
          assert s[..k + 1] == [s[0]] + s[1..][..k];
          assert t[..k + 1] == [t[0]] + t[1..][..k];
        }
      }
      if LexLess(s, t) {
        if |s| < |t| && s == t[..|s|] {
          assert s[1..] == t[1..][..|s[1..]|];
        } else {
          var k :| 0 <= k < |s| && k < |t| && s[..k] == t[..k] && s[k] < t[k];
          assert k > 0;
          assert s[1..][..k - 1] == s[..k][1..];
          assert t[1..][..k - 1] == t[..k][1..];
          assert s[1..][k - 1] == s[k];
        }
      }
    }
  }

  lemma {:induction false} CmpStrReverse(s: string, t: string)
    ensures CmpStr(t, s) == CmpStr(s, t).Reverse()
    decreases |s|
  {
    if s != [] && t != [] && s[0] == t[0] {
      CmpStrReverse(s[1..], t[1..]);
    }
  }

  lemma {:induction false} CmpStrTransitive(s: string, t: string, u: string)
    requires CmpStr(s, t) == Less && CmpStr(t, u) == Less
    ensures CmpStr(s, u) == Less
    decreases |s|
  {
    if s != [] && t != [] && u != [] && s[0] == t[0] && t[0] == u[0] {
      CmpStrTransitive(s[1..], t[1..], u[1..]);
    }
  }

  /** `Ord for GourceLogFormat`: timestamp, then file, then action, then username. */
  function Cmp(a: LogRecord, b: LogRecord): (o: Ordering)
    ensures o == Equal <==> a == b
  {
    CmpInt(a.timestamp, b.timestamp)
      .Then(CmpStr(a.file, b.file))
      .Then(CmpAction(a.action, b.action))
      .Then(CmpStr(a.username, b.username))
  }

  /** `a <= b` under the record order. */
  predicate Le(a: LogRecord, b: LogRecord) {
    Cmp(a, b) != Greater
  }

  /**
    The record order is the lexicographic order of the key
    (timestamp, file, action, username).
   */
  lemma CmpIsLexicographic(a: LogRecord, b: LogRecord)
    ensures Cmp(a, b) == Less <==>
      || a.timestamp < b.timestamp
      || (a.timestamp == b.timestamp && LexLess(a.file, b.file))
      || (a.timestamp == b.timestamp && a.file == b.file && Rank(a.action) < Rank(b.action))
      || (a.timestamp == b.timestamp && a.file == b.file && a.action == b.action
          && LexLess(a.username, b.username))
  {
    CmpStrLess(a.file, b.file);
    CmpStrLess(a.username, b.username);
  }

  lemma CmpReverse(a: LogRecord, b: LogRecord)
    ensures Cmp(b, a) == Cmp(a, b).Reverse()
  {
    CmpStrReverse(a.file, b.file);
    CmpStrReverse(a.username, b.username);
  }

  lemma CmpTransitive(a: LogRecord, b: LogRecord, c: LogRecord)
    requires Cmp(a, b) == Less && Cmp(b, c) == Less
    ensures Cmp(a, c) == Less
  {
    if a.timestamp == b.timestamp == c.timestamp {
      if CmpStr(a.file, b.file) == Less && CmpStr(b.file, c.file) == Less {
        CmpStrTransitive(a.file, b.file, c.file);
      }
      if a.file == b.file == c.file && a.action == b.action == c.action {
        CmpStrTransitive(a.username, b.username, c.username);
      }
    }
  }

  lemma LeAntisymmetric(a: LogRecord, b: LogRecord)
    requires Le(a, b) && Le(b, a)
    ensures a == b
  {
    CmpReverse(a, b);
  }

  lemma LeTransitive(a: LogRecord, b: LogRecord, c: LogRecord)
    requires Le(a, b) && Le(b, c)
    ensures Le(a, c)
  {
    if Cmp(a, b) == Less && Cmp(b, c) == Less {
      CmpTransitive(a, b, c);
    }
  }

  lemma LeTotal(a: LogRecord, b: LogRecord)
    ensures Le(a, b) || Le(b, a)
  {
    CmpReverse(a, b);
  }

  // ---------------------------------------------------------------------------
  // Building a record from a git delta

  /** `git2::Delta`, the status of one file in a tree-to-tree diff. */
  datatype DeltaStatus =
    | Unmodified | Added | Deleted | Modified | Renamed | Copied
    | Ignored | Untracked | Typechange | Unreadable | Conflicted

  /** The action a delta contributes, or None for statuses that change no tree. */
  function ActionOf(status: DeltaStatus): (r: Option<Action>)
    ensures r == Some(A) <==> status == Added
    ensures r == Some(D) <==> status == Deleted
    ensures r == Some(M) <==> status in {Modified, Renamed, Copied, Typechange}
    ensures r == None <==> status in {Untracked, Unmodified, Unreadable, Conflicted, Ignored}
  {
    match status
    case Added => Some(A)
    case Deleted => Some(D)
    case Modified | Renamed | Copied | Typechange => Some(M)
    case Untracked | Unmodified | Unreadable | Conflicted | Ignored => None
  }

  /** Pipes would break the `|`-delimited output, so each becomes `#`. */
  function Sanitise(name: string): (r: string)
    ensures |r| == |name|
    ensures '|' !in r
    ensures forall i :: 0 <= i < |name| && name[i] != '|' ==> r[i] == name[i]
    ensures forall i :: 0 <= i < |name| && name[i] == '|' ==> r[i] == '#'
  {
    if name == [] then []
    else [if name[0] == '|' then '#' else name[0]] + Sanitise(name[1..])
  }

  lemma SanitiseIdempotent(name: string)
    ensures Sanitise(Sanitise(name)) == Sanitise(name)
  {
    var once := Sanitise(name);
    assert forall i :: 0 <= i < |once| ==> once[i] != '|';
  }

  /** The repository's location below the walked root, as `try_from_delta` finds it. */
  datatype RepoPrefix =
    | Unresolved            // strip_prefix or parent() failed
    | Prefix(text: string)  // a UTF-8 prefix, possibly empty
    | NonUtf8Prefix         // a non-empty prefix that is not UTF-8

  /** The Gource file name: the delta path, under the repository prefix when there is one. */
  function JoinPath(prefix: string, path: string): (r: string)
    ensures prefix == [] ==> r == path
    ensures prefix != [] ==> |r| == |prefix| + 1 + |path|
    ensures prefix != [] ==> r[..|prefix|] == prefix && r[|prefix|] == '/'
    ensures r[|r| - |path|..] == path
  {
    if prefix == [] then path else prefix + "/" + path
  }

  /**
    `try_from_delta` once git2 has been asked for the repository prefix, the
    author name, the delta status and the new path (None where git2 yields none
    or the text is not UTF-8), and the commit time in seconds.
   */
  function TryFromDelta(prefix: RepoPrefix, author: Option<string>, status: DeltaStatus,
                        newPath: Option<string>, seconds: i64): (r: Result<Option<LogRecord>, Error>)
    ensures prefix.Unresolved? ==> r == Failure(RelativePathUnknown)
    ensures r == Success(None) <==> !prefix.Unresolved? && author.Some? && ActionOf(status).None?
    ensures r.Success? && r.value.Some? <==>
      && (prefix.Prefix? && author.Some? && ActionOf(status).Some? && newPath.Some?)
    ensures r.Success? && r.value.Some? ==>
      var log := r.value.value;
      && log.timestamp == seconds
      && log.username == Sanitise(author.value)
      && '|' !in log.username
      && Some(log.action) == ActionOf(status)
      && log.file == JoinPath(prefix.text, newPath.value)
  {
    if prefix.Unresolved? then Failure(RelativePathUnknown)
    else if author.None? then Failure(UnparsableCommit)
    else
      var username := Sanitise(author.value);
      match ActionOf(status)
      case None => Success(None)
      case Some(action) =>
        if newPath.None? then Failure(UnparsableCommit)
        else if prefix.NonUtf8Prefix? then Failure(UnparsablePrefix)
        else Success(Some(LogRecord(seconds, username, action, JoinPath(prefix.text, newPath.value))))
  }

  // ---------------------------------------------------------------------------
  // Merge-sort configuration

  const DEFAULT_CHUNK_MB: u64 := 4096
  const MIN_CHUNK_MB: u64 := 50

  datatype MergeSortConfig = MergeSortConfig(chunkSize: u64, tmpLocation: string)

  /**
    `MergeSortConfig::new`. The temporary directory is checked first; whether its
    parent exists and it could be created is the filesystem's answer
    `tmpUsable`. `tmpLocation` is the path already resolved: the tilde-expanded
    user path, or the generated `./rource-temp-XXXXX/`, which is kept as given.
    The error text promises a 64 MB minimum, but the check is 50.
   */
  function NewMergeSortConfig(chunkSize: Option<u64>, tmpLocation: string, tmpUsable: bool)
    : (r: Result<MergeSortConfig, Error>)
    ensures !tmpUsable ==> r == Failure(TempDirUnusable)
    ensures r.Success? <==> tmpUsable && (chunkSize.None? || chunkSize.value >= 50)
    ensures r.Failure? && tmpUsable ==> r.error == ChunkTooSmall
    ensures r.Success? ==> r.value.chunkSize >= 50 && r.value.tmpLocation == tmpLocation
    ensures r.Success? && chunkSize.None? ==> r.value.chunkSize == 4096
    ensures r.Success? && chunkSize.Some? ==> r.value.chunkSize == chunkSize.value
  {
    if !tmpUsable then Failure(TempDirUnusable)
    else
      var size := match chunkSize case Some(n) => n case None => DEFAULT_CHUNK_MB;
      if size < MIN_CHUNK_MB then Failure(ChunkTooSmall)
      else Success(MergeSortConfig(size, tmpLocation))
  }
}
