/**
  Assembling the Gource log (src/main.rs): the per-repository results are
  joined, sorted in memory by timestamp, and aliased on their way to the writer.
 */
module Output {
  import opened Wrappers
  import opened Machine
  import opened Records
  import opened GitLog
  import opened Spool

  // ---------------------------------------------------------------------------
  // Joining the repositories' records

  /** The records of every repository, concatenated in repository order. */
  function Flatten(parts: seq<seq<LogRecord>>): seq<LogRecord>
    decreases |parts|
  {
    if parts == [] then [] else parts[0] + Flatten(parts[1..])
  }

  /**
    `collect::<anyhow::Result<Vec<_>>>()?` followed by `flatten()`: one failed
    repository fails the whole run; otherwise the records of all of them.
   */
  function CollectLogs(results: seq<Result<seq<LogRecord>, Error>>): (r: Result<seq<LogRecord>, Error>)
    ensures r.Failure? <==> exists i :: 0 <= i < |results| && results[i].Failure?
    ensures r.Failure? ==> exists i :: 0 <= i < |results| && results[i] == Failure(r.error)
    decreases |results|
  {
    if results == [] then Success([])
    else
      var rest := CollectLogs(results[1..]);
      assert forall i :: 1 <= i < |results| ==> results[i] == results[1..][i - 1];
      assert forall i :: 0 <= i < |results[1..]| ==> results[1..][i] == results[i + 1];
      match results[0]
      case Failure(e) => Failure(e)
      case Success(logs) =>
        match rest
        case Failure(e) => Failure(e)
        case Success(more) => Success(logs + more)
  }

  /** On success the records are each repository's vector, in repository order. */
  lemma {:induction false} CollectLogsConcatenates(results: seq<Result<seq<LogRecord>, Error>>, parts: seq<seq<LogRecord>>)
    requires |parts| == |results|
    requires forall i :: 0 <= i < |results| ==> results[i] == Success(parts[i])
    ensures CollectLogs(results) == Success(Flatten(parts))
    decreases |results|
  {
    if results != [] {
      CollectLogsConcatenates(results[1..], parts[1..]);
    }
  }

  /**
    Buffered mode end to end: when every repository can be read, the records
    reaching the sort are every commit's changes, repository by repository.
   */
  lemma BufferedRunCollects(c: Codec, limit: Option<usize>, sink: Sink, repos: seq<seq<Commit>>)
    ensures CollectLogs(seq(|repos|, i requires 0 <= i < |repos| => Success(ReadGitLog(c, false, limit, sink, repos[i]).logs)))
         == Success(Flatten(seq(|repos|, i requires 0 <= i < |repos| => AllChanges(limit, repos[i]))))
  {
    var results := seq(|repos|, i requires 0 <= i < |repos| => Success(ReadGitLog(c, false, limit, sink, repos[i]).logs));
    var parts := seq(|repos|, i requires 0 <= i < |repos| => AllChanges(limit, repos[i]));
    CollectLogsConcatenates(results, parts);
  }

  // ---------------------------------------------------------------------------
  // The in-memory sort

  /** Non-decreasing by timestamp, the only key the in-memory sort looks at. */
  predicate SortedByTime(xs: seq<LogRecord>) {
    forall i, j :: 0 <= i < j < |xs| ==> xs[i].timestamp <= xs[j].timestamp
  }

  /** Insert `x` before the first record with a timestamp not below it. */
  function Insert(x: LogRecord, xs: seq<LogRecord>): (r: seq<LogRecord>)
    ensures multiset(r) == multiset(xs) + multiset{x}
    ensures |r| == |xs| + 1
    decreases |xs|
  {
    if xs == [] then [x]
    else if x.timestamp <= xs[0].timestamp then [x] + xs
    else
      assert xs == [xs[0]] + xs[1..];
      [xs[0]] + Insert(x, xs[1..])
  }

  /** No record of `xs` is earlier than `t`. */
  predicate NoneBefore(t: i64, xs: seq<LogRecord>) {
    forall i :: 0 <= i < |xs| ==> t <= xs[i].timestamp
  }

  lemma SortedTail(xs: seq<LogRecord>)
    requires SortedByTime(xs) && xs != []
    ensures NoneBefore(xs[0].timestamp, xs[1..]) && SortedByTime(xs[1..])
  {
    var t := xs[1..];
    assert forall i :: 0 <= i < |t| ==> t[i] == xs[i + 1];
  }

  lemma ConsSorted(h: LogRecord, rest: seq<LogRecord>)
    requires NoneBefore(h.timestamp, rest) && SortedByTime(rest)
    ensures SortedByTime([h] + rest)
  {
    var r := [h] + rest;
    forall i, j | 0 <= i < j < |r|
      ensures r[i].timestamp <= r[j].timestamp
    {
      assert r[j] == rest[j - 1];
      if i > 0 {
        assert r[i] == rest[i - 1];
      }
    }
  }

  /** Inserting a record no earlier than `t` keeps every record no earlier than `t`. */
  lemma {:induction false} InsertNoneBefore(t: i64, x: LogRecord, xs: seq<LogRecord>)
    requires t <= x.timestamp && NoneBefore(t, xs)
    ensures NoneBefore(t, Insert(x, xs))
    decreases |xs|
  {
    if xs == [] {
    } else if x.timestamp <= xs[0].timestamp {
      var r := [x] + xs;
      assert forall i :: 1 <= i < |r| ==> r[i] == xs[i - 1];
    } else {
      var tail := xs[1..];
      assert forall i :: 0 <= i < |tail| ==> tail[i] == xs[i + 1];
      InsertNoneBefore(t, x, tail);
      var r := [xs[0]] + Insert(x, tail);
      assert forall i :: 1 <= i < |r| ==> r[i] == Insert(x, tail)[i - 1];
    }
  }

  lemma {:induction false} InsertKeepsSorted(x: LogRecord, xs: seq<LogRecord>)
    requires SortedByTime(xs)
    ensures SortedByTime(Insert(x, xs))
    decreases |xs|
  {
    if xs == [] {
    } else if x.timestamp <= xs[0].timestamp {
      SortedTail(xs);
      assert NoneBefore(x.timestamp, xs);
      ConsSorted(x, xs);
    } else {
      SortedTail(xs);
      InsertKeepsSorted(x, xs[1..]);
      InsertNoneBefore(xs[0].timestamp, x, xs[1..]);
      ConsSorted(xs[0], Insert(x, xs[1..]));
    }
  }

  /**
    `sort_unstable_by_key(|log| log.timestamp)`: a permutation of the input in
    non-decreasing timestamp order. Records with equal timestamps may come out
    in any order; this model picks one of them.
   */
  function SortByTime(xs: seq<LogRecord>): (r: seq<LogRecord>)
    ensures multiset(r) == multiset(xs)
    ensures |r| == |xs|
    ensures SortedByTime(r)
    decreases |xs|
  {
    if xs == [] then []
    else
      assert xs == [xs[0]] + xs[1..];
      InsertKeepsSorted(xs[0], SortByTime(xs[1..]));
      Insert(xs[0], SortByTime(xs[1..]))
  }

  /**
    Sorting by timestamp alone does not fix the order: two records that differ
    only in username are timestamp-sorted either way round, while the full
    record order used by the external sort admits only one of the two.
   */
  lemma TimestampOrderNotUnique()
    ensures var a := LogRecord(0, "alice", A, "f");
            var b := LogRecord(0, "bob", A, "f");
            && SortedByTime([a, b]) && SortedByTime([b, a])
            && multiset([a, b]) == multiset([b, a]) && [a, b] != [b, a]
            && SortedByOrd([a, b]) && !SortedByOrd([b, a])
  {
    var a := LogRecord(0, "alice", A, "f");
    var b := LogRecord(0, "bob", A, "f");
    assert CmpStr("alice", "bob") == Less;
    assert CmpStr("bob", "alice") == Greater;
    assert Cmp(b, a) == Greater;
    assert !Le(b, a);
  }

  /** Non-decreasing under `Ord for GourceLogFormat`, the order of the external merge sort. */
  predicate SortedByOrd(xs: seq<LogRecord>) {
    forall i, j :: 0 <= i < j < |xs| ==> Le(xs[i], xs[j])
  }

  /** The full record order refines the timestamp order. */
  lemma OrdSortedIsTimeSorted(xs: seq<LogRecord>)
    requires SortedByOrd(xs)
    ensures SortedByTime(xs)
  {
    forall i, j | 0 <= i < j < |xs|
      ensures xs[i].timestamp <= xs[j].timestamp
    {
      assert Le(xs[i], xs[j]);
    }
  }

  /** The least element of an `Ord`-sorted sequence is its head. */
  lemma OrdSortedHeadIsLeast(xs: seq<LogRecord>, y: LogRecord)
    requires SortedByOrd(xs) && y in xs
    ensures Le(xs[0], y)
  {
    var k :| 0 <= k < |xs| && xs[k] == y;
    if k == 0 {
      assert Cmp(y, y) == Equal;
    }
  }

  /**
    Under the full record order there is exactly one sorted arrangement of a
    multiset of records, so the external sort's output is determined by its
    input, unlike the in-memory timestamp sort's.
   */
  lemma {:induction false} OrdSortedUnique(xs: seq<LogRecord>, ys: seq<LogRecord>)
    requires SortedByOrd(xs) && SortedByOrd(ys)
    requires multiset(xs) == multiset(ys)
    ensures xs == ys
    decreases |xs|
  {
    assert |xs| == |multiset(xs)| == |ys|;
    if xs != [] {
      OrdSortedSameHead(xs, ys);
      MultisetTail(xs);
      MultisetTail(ys);
      OrdSortedTail(xs);
      OrdSortedTail(ys);
      OrdSortedUnique(xs[1..], ys[1..]);
      SameHeadSameTail(xs, ys);
    }
  }

  lemma OrdSortedSameHead(xs: seq<LogRecord>, ys: seq<LogRecord>)
    requires SortedByOrd(xs) && SortedByOrd(ys)
    requires multiset(xs) == multiset(ys) && xs != [] && ys != []
    ensures xs[0] == ys[0]
  {
    assert xs[0] in multiset(ys) && ys[0] in multiset(xs);
    OrdSortedHeadIsLeast(xs, ys[0]);
    OrdSortedHeadIsLeast(ys, xs[0]);
    LeAntisymmetric(xs[0], ys[0]);
  }

  lemma SameHeadSameTail<T>(xs: seq<T>, ys: seq<T>)
    requires xs != [] && ys != [] && xs[0] == ys[0] && xs[1..] == ys[1..]
    ensures xs == ys
  {
    assert xs == [xs[0]] + xs[1..] && ys == [ys[0]] + ys[1..];
  }

  lemma OrdSortedTail(xs: seq<LogRecord>)
    requires SortedByOrd(xs) && xs != []
    ensures SortedByOrd(xs[1..])
  {
    var t := xs[1..];
    forall i, j | 0 <= i < j < |t|
      ensures Le(t[i], t[j])
    {
      assert t[i] == xs[i + 1] && t[j] == xs[j + 1];
    }
  }

  lemma MultisetTail<T>(xs: seq<T>)
    requires xs != []
    ensures multiset(xs[1..]) == multiset(xs) - multiset{xs[0]}
  {
    assert xs == [xs[0]] + xs[1..];
  }

  /**
    Three changes, two of them to the same file at the same second: whatever
    chunking the external sort uses, its `Ord`-sorted output can only be this.
   */
  lemma ExternalSortScenario(out: seq<LogRecord>)
    requires SortedByOrd(out)
    requires multiset(out) == multiset([LogRecord(100, "alice", M, "root/a.txt"),
                                        LogRecord(50, "bob", A, "root/b.txt"),
                                        LogRecord(100, "carol", A, "root/a.txt")])
    ensures out == [LogRecord(50, "bob", A, "root/b.txt"),
                    LogRecord(100, "carol", A, "root/a.txt"),
                    LogRecord(100, "alice", M, "root/a.txt")]
  {
    SortedArrangementOfThree(out, LogRecord(50, "bob", A, "root/b.txt"),
                             LogRecord(100, "carol", A, "root/a.txt"), LogRecord(100, "alice", M, "root/a.txt"));
  }

  lemma SortedArrangementOfThree(out: seq<LogRecord>, x: LogRecord, y: LogRecord, z: LogRecord)
    requires x.timestamp < y.timestamp == z.timestamp
    requires y.file == z.file && Rank(y.action) < Rank(z.action)
    requires SortedByOrd(out) && multiset(out) == multiset([z, x, y])
    ensures out == [x, y, z]
  {
    EarlierSortsFirst(x, y);
    EarlierSortsFirst(x, z);
    SameChangeSortsByAction(y, z);
    SortedThree(x, y, z);
    assert multiset([z, x, y]) == multiset([x, y, z]);
    OrdSortedUnique(out, [x, y, z]);
  }

  lemma EarlierSortsFirst(a: LogRecord, b: LogRecord)
    requires a.timestamp < b.timestamp
    ensures Le(a, b)
  {
  }

  lemma SameChangeSortsByAction(a: LogRecord, b: LogRecord)
    requires a.timestamp == b.timestamp && a.file == b.file && Rank(a.action) < Rank(b.action)
    ensures Le(a, b)
  {
    CmpIsLexicographic(a, b);
  }

  lemma SortedThree(x: LogRecord, y: LogRecord, z: LogRecord)
    requires Le(x, y) && Le(x, z) && Le(y, z)
    ensures SortedByOrd([x, y, z])
  {
  }

  // ---------------------------------------------------------------------------
  // Record sources

  /** `LogSource`: the records in output order and the progress bar's length. */
  datatype LogSource = LogSource(records: seq<LogRecord>, sizeHint: u64)

  /** The in-memory branch of `write_gource_log`. */
  function InMemorySource(logs: seq<LogRecord>): (r: LogSource)
    requires |logs| <= USIZE_MAX
    ensures r.sizeHint == |logs| == |r.records|
    ensures multiset(r.records) == multiset(logs)
    ensures SortedByTime(r.records)
  {
    LogSource(SortByTime(logs), |logs|)
  }

  /** Bytes per megabyte in the sorter's memory budget. */
  const MEBIBYTE: int := 1024 * 1024

  /**
    The memory budget handed to the external sorter. `chunk_size * 1024 * 1024`
    is a `u64` product, so the chunk size must leave it below 2^64.
   */
  function ChunkBudget(chunkMb: u64): (bytes: u64)
    requires chunkMb * MEBIBYTE < U64_LIMIT
    ensures bytes % MEBIBYTE == 0 && bytes / MEBIBYTE == chunkMb
  {
    chunkMb * 1024 * 1024
  }

  /** The default chunk size is a 4 GiB budget, the smallest accepted one 50 MiB. */
  lemma ChunkBudgetExamples()
    ensures ChunkBudget(DEFAULT_CHUNK_MB) == 0x1_0000_0000
    ensures ChunkBudget(MIN_CHUNK_MB) == 52_428_800
  {
  }

  // ---------------------------------------------------------------------------
  // Aliases

  /** The loop body of `write_to_output`: swap the username for its alias, if it has one. */
  function ApplyAlias(aliases: map<string, string>, log: LogRecord): (r: LogRecord)
    ensures r.timestamp == log.timestamp && r.action == log.action && r.file == log.file
    ensures log.username in aliases ==> r.username == aliases[log.username]
    ensures log.username !in aliases ==> r == log
  {
    if log.username in aliases then log.(username := aliases[log.username]) else log
  }

  /** The records in the order the writer receives them, each aliased. */
  function ApplyAliases(aliases: map<string, string>, logs: seq<LogRecord>): (r: seq<LogRecord>)
    ensures |r| == |logs|
    ensures forall i :: 0 <= i < |logs| ==> r[i] == ApplyAlias(aliases, logs[i])
    decreases |logs|
  {
    if logs == [] then [] else [ApplyAlias(aliases, logs[0])] + ApplyAliases(aliases, logs[1..])
  }

  /** Aliasing keeps timestamps, so it keeps the sort order. */
  lemma AliasesKeepOrder(aliases: map<string, string>, logs: seq<LogRecord>)
    ensures SortedByTime(ApplyAliases(aliases, logs)) <==> SortedByTime(logs)
  {
    var r := ApplyAliases(aliases, logs);
    assert forall i :: 0 <= i < |logs| ==> r[i].timestamp == logs[i].timestamp;
  }

  /** Aliasing commutes with reordering: it maps a permutation to a permutation. */
  lemma {:induction false} AliasesRespectPermutation(aliases: map<string, string>, xs: seq<LogRecord>, ys: seq<LogRecord>)
    requires multiset(xs) == multiset(ys)
    ensures multiset(ApplyAliases(aliases, xs)) == multiset(ApplyAliases(aliases, ys))
    decreases |xs|
  {
    assert |xs| == |multiset(xs)| == |ys|;
    if xs != [] {
      var x := xs[0];
      assert x in multiset(ys);
      var k :| 0 <= k < |ys| && ys[k] == x;
      var a, b := ys[..k], ys[k + 1..];
      assert ys == a + [x] + b;
      MultisetMiddle(a, x, b);
      MultisetTail(xs);
      AliasesRespectPermutation(aliases, xs[1..], a + b);
      AliasesMiddle(aliases, a, x, b);
      assert ApplyAliases(aliases, xs) == [ApplyAlias(aliases, x)] + ApplyAliases(aliases, xs[1..]);
    }
  }

  lemma AliasesMiddle(aliases: map<string, string>, a: seq<LogRecord>, y: LogRecord, b: seq<LogRecord>)
    ensures multiset(ApplyAliases(aliases, a + [y] + b))
         == multiset{ApplyAlias(aliases, y)} + multiset(ApplyAliases(aliases, a + b))
  {
    AliasesAround(aliases, a, y, b);
    MultisetMiddle(ApplyAliases(aliases, a), ApplyAlias(aliases, y), ApplyAliases(aliases, b));
  }

  lemma AliasesAround(aliases: map<string, string>, a: seq<LogRecord>, y: LogRecord, b: seq<LogRecord>)
    ensures ApplyAliases(aliases, a + [y] + b)
         == ApplyAliases(aliases, a) + [ApplyAlias(aliases, y)] + ApplyAliases(aliases, b)
    ensures ApplyAliases(aliases, a + b) == ApplyAliases(aliases, a) + ApplyAliases(aliases, b)
  {
    AliasesConcat(aliases, a + [y], b);
    AliasesConcat(aliases, a, [y]);
    AliasesConcat(aliases, a, b);
  }

  lemma MultisetMiddle<T>(a: seq<T>, y: T, b: seq<T>)
    ensures multiset(a + [y] + b) == multiset{y} + multiset(a + b)
  {
  }

  lemma AliasesConcat(aliases: map<string, string>, a: seq<LogRecord>, b: seq<LogRecord>)
    ensures ApplyAliases(aliases, a + b) == ApplyAliases(aliases, a) + ApplyAliases(aliases, b)
  {
    var lhs := ApplyAliases(aliases, a + b);
    var rhs := ApplyAliases(aliases, a) + ApplyAliases(aliases, b);
    forall i | 0 <= i < |lhs|
      ensures lhs[i] == rhs[i]
    {
      if i >= |a| {
        assert (a + b)[i] == b[i - |a|];
      }
    }
  }

  /**
    The records the in-memory path writes: the input sorted by timestamp, then
    aliased, with a progress length equal to their number.
   */
  function InMemoryOutput(aliases: map<string, string>, logs: seq<LogRecord>): (r: seq<LogRecord>)
    requires |logs| <= USIZE_MAX
    ensures |r| == InMemorySource(logs).sizeHint
    ensures SortedByTime(r)
    ensures multiset(r) == multiset(ApplyAliases(aliases, logs))
  {
    var src := InMemorySource(logs);
    AliasesKeepOrder(aliases, src.records);
    AliasesRespectPermutation(aliases, src.records, logs);
    ApplyAliases(aliases, src.records)
  }
}
