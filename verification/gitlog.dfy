/**
  One repository's history turned into records (src/git_stuff.rs): the
  changeset-size limit of `compute_diff`, and the per-commit routing of the
  `read_git_log` closure, run as a sequential fold over the commits.
 */
module GitLog {
  import opened Wrappers
  import opened Machine
  import opened Records
  import opened Spool

  /** What `try_from_delta` made of one delta of a diff. */
  type DeltaOutcome = Result<Option<LogRecord>, Error>

  /** The record a delta yields once `unwrap_or_else` has turned errors into `None`. */
  function Kept(d: DeltaOutcome): seq<LogRecord> {
    if d.Success? && d.value.Some? then [d.value.value] else []
  }

  /**
    The `filter_map` over a diff's deltas: skipped deltas and failing deltas are
    dropped, the others yield their record, in diff order.
   */
  function Survivors(deltas: seq<DeltaOutcome>): (r: seq<LogRecord>)
    ensures |r| <= |deltas|
    decreases |deltas|
  {
    if deltas == [] then [] else Kept(deltas[0]) + Survivors(deltas[1..])
  }

  /** A record survives exactly when some delta produced it. */
  lemma {:induction false} SurvivorsMembers(deltas: seq<DeltaOutcome>, x: LogRecord)
    ensures x in Survivors(deltas) <==> exists i :: 0 <= i < |deltas| && deltas[i] == Success(Some(x))
    decreases |deltas|
  {
    if deltas != [] {
      SurvivorsMembers(deltas[1..], x);
      assert forall i :: 1 <= i < |deltas| ==> deltas[i] == deltas[1..][i - 1];
      assert forall i :: 0 <= i < |deltas[1..]| ==> deltas[1..][i] == deltas[i + 1];
    }
  }

  /** Dropping is order-preserving: the survivors of a split diff are the two halves' survivors. */
  lemma {:induction false} SurvivorsAppend(a: seq<DeltaOutcome>, b: seq<DeltaOutcome>)
    ensures Survivors(a + b) == Survivors(a) + Survivors(b)
    decreases |a|
  {
    if a == [] {
      assert a + b == b;
    } else {
      assert (a + b)[0] == a[0];
      assert (a + b)[1..] == a[1..] + b;
      SurvivorsAppend(a[1..], b);
      assert Kept(a[0]) + (Survivors(a[1..]) + Survivors(b)) == (Kept(a[0]) + Survivors(a[1..])) + Survivors(b);
    }
  }

  /** A delta that fails does not abort the diff: it is as if it were not there. */
  lemma FailedDeltaDropped(a: seq<DeltaOutcome>, e: Error, b: seq<DeltaOutcome>)
    ensures Survivors(a + [Failure(e)] + b) == Survivors(a + b)
  {
    var f: seq<DeltaOutcome> := [Failure(e)];
    assert Survivors(f) == [];
    SurvivorsAppend(a + f, b);
    SurvivorsAppend(a, f);
    SurvivorsAppend(a, b);
    assert Survivors(a) + [] == Survivors(a);
  }

  /** `Iterator::take`. */
  function Take(xs: seq<LogRecord>, n: nat): (r: seq<LogRecord>)
    ensures r <= xs && |r| == Min(n, |xs|)
  {
    if n <= |xs| then xs[..n] else xs
  }

  /** `usize` addition of one in a release build: wraps to 0 at `usize::MAX`. */
  function WrappingIncrement(n: usize): (r: usize)
    ensures r == (n + 1) % U64_LIMIT
  {
    if n == USIZE_MAX then 0 else n + 1
  }

  /**
    `compute_diff` as written: `take(limit + 1)`, then an empty result if more
    than `limit` records came through. `limit + 1` is a `usize` addition, which
    wraps to 0 in a release build when `limit` is `usize::MAX`.
   */
  function ComputeDiffAsWritten(deltas: seq<DeltaOutcome>, limit: Option<usize>): (r: seq<LogRecord>)
    ensures r == [] || r == Survivors(deltas)
  {
    var found := Survivors(deltas);
    match limit
    case None => found
    case Some(n) =>
      var c := Take(found, WrappingIncrement(n));
      assert |c| <= n ==> c == found || c == [];
      if |c| > n then [] else c
  }

  /**
    `compute_diff` with the changeset limit as intended: all surviving records
    in order, or none of them when there are more than `limit`.
   */
  function ComputeDiff(deltas: seq<DeltaOutcome>, limit: Option<usize>): (r: seq<LogRecord>)
    ensures r == [] || r == Survivors(deltas)
    ensures limit.Some? ==> |r| <= limit.value
    ensures limit.None? || |Survivors(deltas)| <= limit.value ==> r == Survivors(deltas)
  {
    var found := Survivors(deltas);
    if limit.Some? && |found| > limit.value then [] else found
  }

  /** Below `usize::MAX` the code as written follows the rule exactly. */
  lemma AsWrittenAgreesBelowMax(deltas: seq<DeltaOutcome>, limit: Option<usize>)
    requires limit.None? || limit.value < USIZE_MAX
    ensures ComputeDiffAsWritten(deltas, limit) == ComputeDiff(deltas, limit)
  {
  }

  /**
    At `limit == usize::MAX` the wrapped `take(0)` collects nothing, so every
    commit loses all its changes, where no limit at all was meant.
   */
  lemma AsWrittenDropsEverythingAtMax(deltas: seq<DeltaOutcome>)
    requires Survivors(deltas) != []
    requires |deltas| <= USIZE_MAX
    ensures ComputeDiffAsWritten(deltas, Some(USIZE_MAX)) == []
    ensures ComputeDiff(deltas, Some(USIZE_MAX)) == Survivors(deltas) != []
  {
  }

  /** The smallest such diff: one added file under `usize::MAX`. */
  lemma AsWrittenCounterexample(log: LogRecord)
    ensures ComputeDiffAsWritten([Success(Some(log))], Some(USIZE_MAX)) == []
    ensures ComputeDiff([Success(Some(log))], Some(USIZE_MAX)) == [log]
  {
    assert Survivors([Success(Some(log))]) == [log] + Survivors([]);
  }

  /**
    The old tree of a commit's diff: its parent's tree for exactly one parent,
    the empty tree otherwise. It stands alone: a `Commit` arrives with its diff
    already taken, so nothing else in the model consumes the base tree.
   */
  function DiffBase<T>(parentTrees: seq<T>): (r: Option<T>)
    ensures r.Some? <==> |parentTrees| == 1
    ensures r.Some? ==> r.value == parentTrees[0]
  {
    if |parentTrees| == 1 then Some(parentTrees[0]) else None
  }

  // ---------------------------------------------------------------------------
  // Routing each commit's changes

  /** A revision as the closure sees it. */
  datatype Commit =
    | Unavailable                          // the repository, revision, commit or diff could not be read
    | Available(deltas: seq<DeltaOutcome>) // what each delta of the commit's diff gave

  /** The two destinations: the in-memory vector, and the spool writer. */
  datatype Progress = Progress(logs: seq<LogRecord>, sink: Sink)

  /**
    The changes `compute_diff` hands the closure for one commit, under the
    intended limit rule; `ChangesAsWrittenBelowMax` ties it to the code as written.
   */
  function Changes(limit: Option<usize>, commit: Commit): seq<LogRecord> {
    if commit.Unavailable? then [] else ComputeDiff(commit.deltas, limit)
  }

  /** For every limit but `usize::MAX` the routed changes are what the code as written computes. */
  lemma ChangesAsWrittenBelowMax(limit: Option<usize>, commit: Commit)
    requires limit.None? || limit.value < USIZE_MAX
    ensures Changes(limit, commit) == (if commit.Unavailable? then [] else ComputeDiffAsWritten(commit.deltas, limit))
  {
    if commit.Available? {
      AsWrittenAgreesBelowMax(commit.deltas, limit);
    }
  }

  /**
    One pass of the closure. In spool mode the whole batch is serialised first
    and written with one `batch_log_write`; in buffered mode the changes are
    appended to the vector.
   */
  function HandleCommit(c: Codec, spooled: bool, limit: Option<usize>, st: Progress, commit: Commit): (r: Progress)
    ensures Changes(limit, commit) == [] ==> r == st
    ensures spooled ==> r.logs == st.logs
    ensures spooled && SerializeLogs(c, Changes(limit, commit)).Failure? ==> r == st
    ensures spooled && SerializeLogs(c, Changes(limit, commit)).Success? ==>
      var f := Frames(SerializeLogs(c, Changes(limit, commit)).value);
      && r.sink.bytes == st.sink.bytes + f[..Min(|f|, st.sink.room)]
      && r.sink.room == st.sink.room - Min(|f|, st.sink.room)
    ensures !spooled ==> r.logs == st.logs + Changes(limit, commit) && r.sink == st.sink
  {
    var changes := Changes(limit, commit);
    if changes == [] then st
    else if spooled then
      match SerializeLogs(c, changes)
      case Failure(_) => st
      case Success(ds) => Progress(st.logs, BatchLogWrite(st.sink, ds).sink)
    else Progress(st.logs + changes, st.sink)
  }

  /** The closure applied to every commit in turn. */
  function ReadCommits(c: Codec, spooled: bool, limit: Option<usize>, st: Progress, commits: seq<Commit>): Progress
    decreases |commits|
  {
    if commits == [] then st
    else HandleCommit(c, spooled, limit, ReadCommits(c, spooled, limit, st, commits[..|commits| - 1]), commits[|commits| - 1])
  }

  /** Every commit's changes, concatenated in commit order. */
  function AllChanges(limit: Option<usize>, commits: seq<Commit>): seq<LogRecord>
    decreases |commits|
  {
    if commits == [] then []
    else AllChanges(limit, commits[..|commits| - 1]) + Changes(limit, commits[|commits| - 1])
  }

  /** The batch a commit contributes to the spool, if any. */
  function SpooledBatch(c: Codec, limit: Option<usize>, commit: Commit): seq<DiskLog> {
    var changes := Changes(limit, commit);
    if changes != [] && SerializeLogs(c, changes).Success? then SerializeLogs(c, changes).value else []
  }

  /** The records of the commits that reach the spool. */
  function SpooledRecords(c: Codec, limit: Option<usize>, commit: Commit): seq<LogRecord> {
    var changes := Changes(limit, commit);
    if changes != [] && SerializeLogs(c, changes).Success? then changes else []
  }

  /** Every commit's batch, in commit order. */
  function AllBatches(c: Codec, limit: Option<usize>, commits: seq<Commit>): seq<DiskLog>
    decreases |commits|
  {
    if commits == [] then []
    else AllBatches(c, limit, commits[..|commits| - 1]) + SpooledBatch(c, limit, commits[|commits| - 1])
  }

  /** The records of every commit that reaches the spool, in commit order. */
  function AllSpooledRecords(c: Codec, limit: Option<usize>, commits: seq<Commit>): seq<LogRecord>
    decreases |commits|
  {
    if commits == [] then []
    else AllSpooledRecords(c, limit, commits[..|commits| - 1]) + SpooledRecords(c, limit, commits[|commits| - 1])
  }

  /** Folding over two runs of commits is folding over the first, then the second. */
  lemma {:induction false} ReadCommitsAppend(c: Codec, spooled: bool, limit: Option<usize>, st: Progress,
                                             first: seq<Commit>, second: seq<Commit>)
    ensures ReadCommits(c, spooled, limit, st, first + second)
         == ReadCommits(c, spooled, limit, ReadCommits(c, spooled, limit, st, first), second)
    decreases |second|
  {
    if second == [] {
      assert first + second == first;
    } else {
      var n := |second|;
      assert (first + second)[..|first + second| - 1] == first + second[..n - 1];
      assert (first + second)[|first + second| - 1] == second[n - 1];
      ReadCommitsAppend(c, spooled, limit, st, first, second[..n - 1]);
    }
  }

  /** Buffered mode: the vector gains every commit's changes in commit order, and the spool is untouched. */
  lemma {:induction false} BufferedCollectsAll(c: Codec, limit: Option<usize>, st: Progress, commits: seq<Commit>)
    ensures ReadCommits(c, false, limit, st, commits) == Progress(st.logs + AllChanges(limit, commits), st.sink)
    decreases |commits|
  {
    if commits != [] {
      var init, last := commits[..|commits| - 1], commits[|commits| - 1];
      var prev := ReadCommits(c, false, limit, st, init);
      BufferedCollectsAll(c, limit, st, init);
      BufferedStep(c, limit, prev, last);
      ReadCommitsLast(c, false, limit, st, commits);
      AllChangesLast(limit, commits);
      AppendAssoc(st.logs, AllChanges(limit, init), Changes(limit, last));
    }
  }

  lemma BufferedStep(c: Codec, limit: Option<usize>, st: Progress, commit: Commit)
    ensures HandleCommit(c, false, limit, st, commit) == Progress(st.logs + Changes(limit, commit), st.sink)
  {
  }

  lemma ReadCommitsLast(c: Codec, spooled: bool, limit: Option<usize>, st: Progress, commits: seq<Commit>)
    requires commits != []
    ensures ReadCommits(c, spooled, limit, st, commits)
         == HandleCommit(c, spooled, limit, ReadCommits(c, spooled, limit, st, commits[..|commits| - 1]), commits[|commits| - 1])
  {
  }

  lemma AllChangesLast(limit: Option<usize>, commits: seq<Commit>)
    requires commits != []
    ensures AllChanges(limit, commits) == AllChanges(limit, commits[..|commits| - 1]) + Changes(limit, commits[|commits| - 1])
  {
  }

  lemma AppendAssoc<T>(a: seq<T>, b: seq<T>, c: seq<T>)
    ensures (a + b) + c == a + (b + c)
  {
  }

  lemma {:induction false} FramesConcat(a: seq<DiskLog>, b: seq<DiskLog>)
    ensures Frames(a + b) == Frames(a) + Frames(b)
    decreases |a|
  {
    if a == [] {
      assert a + b == b;
    } else {
      assert (a + b)[0] == a[0];
      assert (a + b)[1..] == a[1..] + b;
      FramesConcat(a[1..], b);
      assert Frame(a[0]) + (Frames(a[1..]) + Frames(b)) == (Frame(a[0]) + Frames(a[1..])) + Frames(b);
    }
  }

  /** Appending as far as the room allows, twice, is appending the concatenation once. */
  lemma AppendTwice(init: seq<byte>, f: seq<byte>, g: seq<byte>, room: nat)
    ensures init + f[..Min(|f|, room)] + g[..Min(|g|, room - Min(|f|, room))]
         == init + (f + g)[..Min(|f + g|, room)]
  {
    if room >= |f| {
      assert (f + g)[..Min(|f + g|, room)] == f + g[..Min(|g|, room - |f|)];
    } else {
      assert (f + g)[..room] == f[..room];
    }
  }

  /**
    Spool mode: the vector stays as it was, and the spool gains the frames of
    every serialisable commit, one contiguous batch per commit in commit order,
    as far as the writer's room allows.
   */
  lemma {:induction false} SpoolHoldsBatches(c: Codec, limit: Option<usize>, st: Progress, commits: seq<Commit>)
    ensures var r := ReadCommits(c, true, limit, st, commits);
            var f := Frames(AllBatches(c, limit, commits));
            && r.logs == st.logs
            && r.sink.bytes == st.sink.bytes + f[..Min(|f|, st.sink.room)]
            && r.sink.room == st.sink.room - Min(|f|, st.sink.room)
    decreases |commits|
  {
    if commits == [] {
      assert Frames([]) == [];
    } else {
      var n := |commits|;
      var init, commit := commits[..n - 1], commits[n - 1];
      var prev := ReadCommits(c, true, limit, st, init);
      assert ReadCommits(c, true, limit, st, commits) == HandleCommit(c, true, limit, prev, commit);
      SpoolHoldsBatches(c, limit, st, init);
      var before := AllBatches(c, limit, init);
      var batch := SpooledBatch(c, limit, commit);
      assert AllBatches(c, limit, commits) == before + batch;
      FramesConcat(before, batch);
      var changes := Changes(limit, commit);
      if changes != [] && SerializeLogs(c, changes).Success? {
        AppendTwice(st.sink.bytes, Frames(before), Frames(batch), st.sink.room);
      } else {
        assert Frames(batch) == [];
        assert Frames(before) + [] == Frames(before);
      }
    }
  }

  lemma CarriesConcat(c: Codec, a: seq<DiskLog>, x: seq<LogRecord>, b: seq<DiskLog>, y: seq<LogRecord>)
    requires Carries(c, a, x) && Carries(c, b, y)
    ensures Carries(c, a + b, x + y)
  {
    forall i | 0 <= i < |a + b|
      ensures WellSized((a + b)[i]) && c.decode((a + b)[i].data) == Some((x + y)[i])
    {
      if i >= |a| {
        assert (a + b)[i] == b[i - |a|] && (x + y)[i] == y[i - |a|];
      }
    }
  }

  /** With a faithful codec the spooled batches carry exactly the spooled records. */
  lemma {:induction false} BatchesCarryRecords(c: Codec, limit: Option<usize>, commits: seq<Commit>)
    requires Faithful(c)
    ensures Carries(c, AllBatches(c, limit, commits), AllSpooledRecords(c, limit, commits))
    decreases |commits|
  {
    if commits != [] {
      var n := |commits|;
      var commit := commits[n - 1];
      BatchesCarryRecords(c, limit, commits[..n - 1]);
      var changes := Changes(limit, commit);
      if changes != [] && SerializeLogs(c, changes).Success? {
        SerializedCarries(c, changes, SerializeLogs(c, changes).value);
      }
      CarriesConcat(c, AllBatches(c, limit, commits[..n - 1]), AllSpooledRecords(c, limit, commits[..n - 1]),
                    SpooledBatch(c, limit, commit), SpooledRecords(c, limit, commit));
    }
  }

  /** A spool holding, after `init`, the frames of `ds` cut to `room` bytes. */
  lemma SpoolCutReadsBack(c: Codec, ds: seq<DiskLog>, logs: seq<LogRecord>, init: seq<byte>, room: nat, b: seq<byte>)
    requires Carries(c, ds, logs)
    requires b == init + Frames(ds)[..Min(|Frames(ds)|, room)]
    ensures ReadAll(c, b[|init|..]) <= logs
    ensures |Frames(ds)| <= room ==> ReadAll(c, b[|init|..]) == logs && CountFrames(b[|init|..]) == |logs|
  {
    var f := Frames(ds);
    assert b[|init|..] == f[..Min(|f|, room)];
    TruncatedSpoolYieldsPrefix(c, logs, ds, b[|init|..]);
    if |f| <= room {
      assert b[|init|..] == f;
      CountMatchesRead(c, logs, ds);
    }
  }

  /**
    Reading the spool back from where this repository started writing yields
    the spooled records in commit order, a prefix of them if the writer ran out
    of room, and `record_count` agrees when nothing was cut off.
   */
  lemma SpoolReadsBack(c: Codec, limit: Option<usize>, st: Progress, commits: seq<Commit>)
    requires Faithful(c)
    ensures var r := ReadCommits(c, true, limit, st, commits);
            && st.sink.bytes <= r.sink.bytes
            && ReadAll(c, r.sink.bytes[|st.sink.bytes|..]) <= AllSpooledRecords(c, limit, commits)
    ensures var r := ReadCommits(c, true, limit, st, commits);
            |Frames(AllBatches(c, limit, commits))| <= st.sink.room ==>
              && st.sink.bytes <= r.sink.bytes
              && ReadAll(c, r.sink.bytes[|st.sink.bytes|..]) == AllSpooledRecords(c, limit, commits)
              && CountFrames(r.sink.bytes[|st.sink.bytes|..]) == |AllSpooledRecords(c, limit, commits)|
  {
    SpoolHoldsBatches(c, limit, st, commits);
    BatchesCarryRecords(c, limit, commits);
    SpoolCutReadsBack(c, AllBatches(c, limit, commits), AllSpooledRecords(c, limit, commits),
                      st.sink.bytes, st.sink.room, ReadCommits(c, true, limit, st, commits).sink.bytes);
  }

  /**
    `read_git_log` over a repository's commits: in spool mode the returned
    vector is empty and the records went to the writer; in buffered mode it is
    every commit's changes concatenated.
   */
  function ReadGitLog(c: Codec, spooled: bool, limit: Option<usize>, sink: Sink, commits: seq<Commit>): (r: Progress)
    ensures spooled ==> r.logs == []
    ensures !spooled ==> r.logs == AllChanges(limit, commits) && r.sink == sink
  {
    var init := Progress([], sink);
    if spooled then
      SpoolHoldsBatches(c, limit, init, commits);
      ReadCommits(c, spooled, limit, init, commits)
    else
      BufferedCollectsAll(c, limit, init, commits);
      ReadCommits(c, spooled, limit, init, commits)
  }
}
