/** The application object: start-up with the saved settings, the collision
    check before a batch, the dispatch of a batch, and the dataset log written
    when a batch finishes. The file system comes in as parameters: which
    paths exist (`Path::exists`, true of files and directories alike), the
    dimensions `image_dimensions` reports for each input, and whether the log
    file could be created. */
module App {
  import opened Common
  import opened State
  import Settings
  import opened Handlers
  import opened Convert

  /** One conversion handed to a worker: the item's identifier, its path and
      the options as they were when the batch started. */
  datatype Task = Task(id: Uuid, path: FilePath, options: ConversionOptions)

  /** The queue's identifiers are pairwise different (fresh UUIDs). */
  predicate DistinctIds(files: seq<FileItem>) {
    forall i, j :: 0 <= i < j < |files| ==> files[i].id != files[j].id
  }

  // ------------------------------------------------ collision check

  /** Where the collision check looks for `path`'s output: the output
      directory (the custom one only when it exists) joined with the target
      name computed from the input's dimensions. */
  function CheckedTarget(path: FilePath, opts: ConversionOptions, dims: Option<(nat, nat)>, pathExists: string -> bool): FilePath {
    Join(OutputDirectory(path, opts, pathExists), TargetFilename(path, opts, dims))
  }

  /** Whether converting an item would overwrite an existing file. */
  function Collides(opts: ConversionOptions, dims: FilePath -> Option<(nat, nat)>,
                    pathExists: string -> bool, fileExists: FilePath -> bool): FileItem -> bool {
    (item: FileItem) => fileExists(CheckedTarget(item.path, opts, dims(item.path), pathExists))
  }

  /** How many queued files would overwrite an existing file. */
  function CountCollisions(files: seq<FileItem>, opts: ConversionOptions, dims: FilePath -> Option<(nat, nat)>,
                           pathExists: string -> bool, fileExists: FilePath -> bool): (c: nat)
    ensures c <= |files|
  {
    CountWhere(files, Collides(opts, dims, pathExists, fileExists))
  }

  /** The loop of `start_conversion` over the queue. */
  method CheckCollisions(files: seq<FileItem>, opts: ConversionOptions, dims: FilePath -> Option<(nat, nat)>,
                         pathExists: string -> bool, fileExists: FilePath -> bool) returns (collisions: nat)
    ensures collisions == CountCollisions(files, opts, dims, pathExists, fileExists)
  {
    collisions := 0;
    var i := 0;
    while i < |files|
      invariant 0 <= i <= |files|
      invariant collisions == CountCollisions(files[..i], opts, dims, pathExists, fileExists)
    {
      var path := files[i].path;
      var name := GetTargetFilename(path, opts, dims(path));
      var parent := OutputDirectory(path, opts, pathExists);
      CountCollisionsExtend(files, opts, dims, pathExists, fileExists, i);
      if fileExists(Join(parent, name)) {
        collisions := collisions + 1;
      }
      i := i + 1;
    }
    assert files[..i] == files;
  }

  lemma CountCollisionsExtend(files: seq<FileItem>, opts: ConversionOptions, dims: FilePath -> Option<(nat, nat)>,
                              pathExists: string -> bool, fileExists: FilePath -> bool, i: nat)
    requires i < |files|
    ensures CountCollisions(files[..i + 1], opts, dims, pathExists, fileExists) ==
      CountCollisions(files[..i], opts, dims, pathExists, fileExists)
        + (if fileExists(CheckedTarget(files[i].path, opts, dims(files[i].path), pathExists)) then 1 else 0)
  {
    CountWhereExtend(files, Collides(opts, dims, pathExists, fileExists), i);
  }

  /** No collision is counted exactly when no checked target exists. */
  lemma CountCollisionsZeroIff(files: seq<FileItem>, opts: ConversionOptions, dims: FilePath -> Option<(nat, nat)>,
                              pathExists: string -> bool, fileExists: FilePath -> bool)
    ensures CountCollisions(files, opts, dims, pathExists, fileExists) == 0 <==>
      forall k :: 0 <= k < |files| ==> !fileExists(CheckedTarget(files[k].path, opts, dims(files[k].path), pathExists))
  {
    CountWhereZeroIff(files, Collides(opts, dims, pathExists, fileExists));
  }

  /** Without the smart suffix, the checked target is exactly the file a
      successful conversion writes. */
  lemma CollisionCheckTargetsOutput(path: FilePath, opts: ConversionOptions, env: Environment, dims: Option<(nat, nat)>)
    requires !opts.autoSuffix
    requires ConvertImage(path, opts, env).Converted?
    ensures CheckedTarget(path, opts, dims, env.pathExists) == ConvertImage(path, opts, env).plan.output
  {
    ConvertedOutput(path, opts, env);
  }

  /** With the smart suffix, the check only matches the written file when the
      input's dimensions are those of the image handed to the encoder. */
  lemma CollisionCheckWithSuffix(path: FilePath, opts: ConversionOptions, env: Environment)
    requires ConvertImage(path, opts, env).Converted?
    ensures CheckedTarget(path, opts, Some(env.processedDims), env.pathExists) == ConvertImage(path, opts, env).plan.output
  {
    ConvertedOutput(path, opts, env);
  }

  // ------------------------------------------------ batch dispatch

  /** Every item of the queue marked as being converted. */
  function MarkedProcessing(files: seq<FileItem>): (r: seq<FileItem>)
    ensures |r| == |files|
    ensures forall k :: 0 <= k < |r| ==> r[k] == files[k].(status := Processing)
  {
    if files == [] then []
    else MarkedProcessing(files[..|files| - 1]) + [files[|files| - 1].(status := Processing)]
  }

  /** The tasks of a batch: the first `max_batch_size` items of the queue (or
      all of them when there are fewer), in queue order. */
  function BatchTasks(files: seq<FileItem>, opts: ConversionOptions): (r: seq<Task>)
    ensures |r| == Min(opts.maxBatchSize, |files|)
    ensures forall k :: 0 <= k < |r| ==> r[k] == Task(files[k].id, files[k].path, opts)
  {
    if |files| == 0 || opts.maxBatchSize == 0 then []
    else if opts.maxBatchSize < |files| then BatchTasks(files[..opts.maxBatchSize], opts)
    else BatchTasks(files[..|files| - 1], opts) + [Task(files[|files| - 1].id, files[|files| - 1].path, opts)]
  }

  /** The marking loop of `process_conversion`. */
  method MarkAll(files: seq<FileItem>) returns (marked: seq<FileItem>)
    ensures marked == MarkedProcessing(files)
  {
    marked := files;
    var i := 0;
    while i < |marked|
      invariant 0 <= i <= |marked| == |files|
      invariant forall k :: 0 <= k < i ==> marked[k] == files[k].(status := Processing)
      invariant forall k :: i <= k < |marked| ==> marked[k] == files[k]
    {
      marked := marked[i := marked[i].(status := Processing)];
      i := i + 1;
    }
  }

  /** The dispatch loop of `process_conversion`: one task per item of the
      batch. */
  method TakeBatch(files: seq<FileItem>, options: ConversionOptions) returns (tasks: seq<Task>)
    ensures tasks == BatchTasks(files, options)
  {
    var batchSize := Min(options.maxBatchSize, |files|);
    tasks := [];
    var j := 0;
    while j < batchSize
      invariant 0 <= j <= batchSize
      invariant tasks == BatchTasks(files, options)[..j]
    {
      tasks := tasks + [Task(files[j].id, files[j].path, options)];
      j := j + 1;
    }
  }

  /** Marking keeps every item's identifier and path, so the batch is the same. */
  lemma MarkingKeepsBatch(files: seq<FileItem>, opts: ConversionOptions)
    ensures BatchTasks(MarkedProcessing(files), opts) == BatchTasks(files, opts)
  {
  }

  /** Whether `id` is the identifier of one of `tasks`. */
  predicate Dispatched(tasks: seq<Task>, id: Uuid) {
    exists k :: 0 <= k < |tasks| && tasks[k].id == id
  }

  /** The queue after the results `reports` arrive, in order, each through
      `handle_file_converted`. */
  function AfterReports(files: seq<FileItem>, reports: seq<(Uuid, ConversionResult)>): (r: seq<FileItem>)
    ensures |r| == |files|
    decreases |reports|
  {
    if reports == [] then files
    else AfterReports(WithStatus(files, reports[0].0, StatusFor(reports[0].1)), reports[1..])
  }

  /** Recording a result keeps every identifier and path, and changes an item
      only by giving it the recorded status. */
  lemma WithStatusKeepsItems(files: seq<FileItem>, id: Uuid, st: FileStatus)
    ensures var r := WithStatus(files, id, st);
      forall k :: 0 <= k < |files| ==>
        && r[k].id == files[k].id && r[k].path == files[k].path
        && (files[k].id != id ==> r[k] == files[k])
        && (r[k] != files[k] ==> r[k].status == st)
  {
  }

  /** An item none of whose results arrives keeps its status. */
  lemma {:induction false} UnreportedItemUnchanged(files: seq<FileItem>, reports: seq<(Uuid, ConversionResult)>, n: nat)
    requires n < |files|
    requires forall j :: 0 <= j < |reports| ==> reports[j].0 != files[n].id
    ensures AfterReports(files, reports)[n] == files[n]
    decreases |reports|
  {
    if reports != [] {
      var next := WithStatus(files, reports[0].0, StatusFor(reports[0].1));
      WithStatusKeepsItems(files, reports[0].0, StatusFor(reports[0].1));
      assert next[n] == files[n];
      assert forall j :: 0 <= j < |reports[1..]| ==> reports[1..][j] == reports[j + 1];
      UnreportedItemUnchanged(next, reports[1..], n);
    }
  }

  /** Every item still being converted gets a result later in `reports`. */
  predicate ReportsCover(files: seq<FileItem>, reports: seq<(Uuid, ConversionResult)>) {
    forall k :: 0 <= k < |files| && files[k].status == Processing ==>
      exists j :: 0 <= j < |reports| && reports[j].0 == files[k].id
  }

  /** When every item being converted gets a result (and identifiers are
      unique), none is left being converted. */
  lemma {:induction false} CoveredReportsSettle(files: seq<FileItem>, reports: seq<(Uuid, ConversionResult)>)
    requires DistinctIds(files)
    requires ReportsCover(files, reports)
    ensures !AnyProcessing(AfterReports(files, reports))
    decreases |reports|
  {
    if reports == [] {
      assert forall k :: 0 <= k < |files| ==> files[k].status != Processing;
    } else {
      var id := reports[0].0;
      var st := StatusFor(reports[0].1);
      var next := WithStatus(files, id, st);
      var rest := reports[1..];
      WithStatusKeepsItems(files, id, st);
      assert DistinctIds(next);
      forall k | 0 <= k < |next| && next[k].status == Processing
        ensures exists j :: 0 <= j < |rest| && rest[j].0 == next[k].id
      {
        assert next[k] == files[k];
        if files[k].id == id {
          WithStatusTouchesOnlyItsItem(files, id, st, k);
          assert false;
        }
        var j :| 0 <= j < |reports| && reports[j].0 == files[k].id;
        assert rest[j - 1] == reports[j];
      }
      CoveredReportsSettle(next, rest);
    }
  }

  /** The batch as written stalls whenever the queue is longer than the batch
      size: every item is marked as being converted but only the first
      `max_batch_size` are dispatched, so whatever results come back (each
      for a dispatched item), an item stays marked and `handle_file_converted`
      never reports the batch finished. */
  lemma BatchStallsAsWritten(files: seq<FileItem>, opts: ConversionOptions, reports: seq<(Uuid, ConversionResult)>)
    requires DistinctIds(files)
    requires opts.maxBatchSize < |files|
    requires forall j :: 0 <= j < |reports| ==> Dispatched(BatchTasks(files, opts), reports[j].0)
    ensures AfterReports(MarkedProcessing(files), reports)[opts.maxBatchSize].status == Processing
    ensures AnyProcessing(AfterReports(MarkedProcessing(files), reports))
  {
    var n := opts.maxBatchSize;
    var marked := MarkedProcessing(files);
    var tasks := BatchTasks(files, opts);
    forall j | 0 <= j < |reports|
      ensures reports[j].0 != marked[n].id
    {
      var k :| 0 <= k < |tasks| && tasks[k].id == reports[j].0;
    }
    UnreportedItemUnchanged(marked, reports, n);
  }

  /** The smallest queue showing the stall: two items, batches of one, the
      first item converted; the second stays marked and the batch never ends. */
  lemma BatchStallExample()
    ensures var files := [NewFileItem(1, FilePath(None, "a.png")), NewFileItem(2, FilePath(None, "b.png"))];
      var opts := DefaultOptions().(maxBatchSize := 1);
      && BatchTasks(files, opts) == [Task(1, FilePath(None, "a.png"), opts)]
      && AnyProcessing(AfterReports(MarkedProcessing(files), [(1, Succeeded)]))
  {
    var files := [NewFileItem(1, FilePath(None, "a.png")), NewFileItem(2, FilePath(None, "b.png"))];
    var opts := DefaultOptions().(maxBatchSize := 1);
    assert Dispatched(BatchTasks(files, opts), 1);
    BatchStallsAsWritten(files, opts, [(1, Succeeded)]);
  }

  // ------------------------------------------------ corrected batch: rolling dispatch

  /** One task per queued item, in queue order. */
  function AllTasks(files: seq<FileItem>, opts: ConversionOptions): (r: seq<Task>)
    ensures |r| == |files|
    ensures forall k :: 0 <= k < |r| ==> r[k] == Task(files[k].id, files[k].path, opts)
  {
    seq(|files|, k requires 0 <= k < |files| => Task(files[k].id, files[k].path, opts))
  }

  /** A run of the corrected batch: the queue, how many of its items have
      been dispatched (always the first ones, in queue order), and whether the
      batch is running (`is_processing`). */
  datatype Run = Run(files: seq<FileItem>, next: nat, running: bool)

  /** An item whose conversion is over. */
  predicate Settled(item: FileItem) {
    item.status != Processing
  }

  /** Corrected `process_conversion`: the same first dispatch of
      `min(max_batch_size, len)` items, with every item marked as being
      converted; a batch runs only when something was dispatched. */
  function RollingStart(files: seq<FileItem>, opts: ConversionOptions): (r: (Run, seq<Task>))
    ensures r.1 == BatchTasks(files, opts) && r.0.next == |r.1|
    ensures r.0.running <==> r.1 != []
    ensures r.1 == [] ==> r.0.files == files
  {
    var n := Min(opts.maxBatchSize, |files|);
    if n == 0 then (Run(files, 0, false), [])
    else (Run(MarkedProcessing(files), n, true), BatchTasks(files, opts))
  }

  /** Corrected `handle_file_converted`: the result is recorded as before and,
      while an item is still waiting, the next one in the queue is dispatched,
      so that each result frees its slot for the next item. The batch ends
      once no item is left being converted. */
  function RollingReport(run: Run, id: Uuid, result: ConversionResult, opts: ConversionOptions): (r: (Run, seq<Task>))
    ensures |r.0.files| == |run.files| && |r.1| <= 1
  {
    var files := WithStatus(run.files, id, StatusFor(result));
    var running := run.running && AnyProcessing(files);
    if run.next < |files| then
      (Run(files, run.next + 1, running), [Task(files[run.next].id, files[run.next].path, opts)])
    else
      (Run(files, run.next, running), [])
  }

  /** Whether `id` is that of an item dispatched and not yet reported. */
  predicate InFlight(run: Run, id: Uuid) {
    exists k :: 0 <= k < run.next && k < |run.files| && run.files[k].id == id && run.files[k].status == Processing
  }

  /** The run after the results `reports` arrive in order, and the tasks
      dispatched meanwhile. */
  function RollingAfter(run: Run, reports: seq<(Uuid, ConversionResult)>, opts: ConversionOptions): (r: (Run, seq<Task>))
    decreases |reports|
  {
    if reports == [] then (run, [])
    else
      var step := RollingReport(run, reports[0].0, reports[0].1, opts);
      var rest := RollingAfter(step.0, reports[1..], opts);
      (rest.0, step.1 + rest.1)
  }

  /** The first result, then the rest. */
  lemma RollingAfterFirst(run: Run, reports: seq<(Uuid, ConversionResult)>, opts: ConversionOptions)
    requires reports != []
    ensures var step := RollingReport(run, reports[0].0, reports[0].1, opts);
      var rest := RollingAfter(step.0, reports[1..], opts);
      RollingAfter(run, reports, opts) == (rest.0, step.1 + rest.1)
  {
  }

  /** Each result is for an item in flight when it arrives. */
  predicate ValidReports(run: Run, reports: seq<(Uuid, ConversionResult)>, opts: ConversionOptions)
    decreases |reports|
  {
    || reports == []
    || (&& InFlight(run, reports[0].0)
        && ValidReports(RollingReport(run, reports[0].0, reports[0].1, opts).0, reports[1..], opts))
  }

  /** `fs` holds the items of `files`, in the same order. */
  predicate SameItems(files: seq<FileItem>, fs: seq<FileItem>) {
    && |fs| == |files|
    && forall k :: 0 <= k < |files| ==> fs[k].id == files[k].id && fs[k].path == files[k].path
  }

  /** Every item from position `next` on is still being converted. */
  predicate WaitingFrom(fs: seq<FileItem>, next: nat) {
    forall k :: next <= k < |fs| ==> fs[k].status == Processing
  }

  /** Settling a dispatched item keeps the items and every waiting one. */
  lemma SettleKeeps(files: seq<FileItem>, fs: seq<FileItem>, next: nat, k: nat, st: FileStatus)
    requires SameItems(files, fs) && WaitingFrom(fs, next) && k < next && k < |fs|
    ensures SameItems(files, fs[k := fs[k].(status := st)])
    ensures WaitingFrom(fs[k := fs[k].(status := st)], next)
  {
  }

  /** The task for the item at position `n` is the `n`-th of the queue. */
  lemma TaskAt(files: seq<FileItem>, fs: seq<FileItem>, opts: ConversionOptions, n: nat)
    requires SameItems(files, fs) && n < |files|
    ensures [Task(fs[n].id, fs[n].path, opts)] == AllTasks(files, opts)[n..n + 1]
  {
  }

  /** An item still being converted. */
  predicate Converting(item: FileItem) {
    item.status == Processing
  }

  /** The state of a corrected run over `files` after `r` results: items and
      order kept, the first `min(len, max_batch_size + r)` dispatched, every
      undispatched item waiting, exactly `r` items settled, and the batch
      running exactly while some item is being converted. */
  predicate RunInvariant(files: seq<FileItem>, opts: ConversionOptions, run: Run, r: nat) {
    && SameItems(files, run.files)
    && run.next == Min(|files|, opts.maxBatchSize + r)
    && WaitingFrom(run.files, run.next)
    && CountWhere(run.files, Settled) == r
    && (run.running <==> AnyProcessing(run.files))
  }

  lemma RollingStartInvariant(files: seq<FileItem>, opts: ConversionOptions)
    requires opts.maxBatchSize > 0
    ensures RunInvariant(files, opts, RollingStart(files, opts).0, 0)
  {
    var run := RollingStart(files, opts).0;
    if files != [] {
      assert run.files == MarkedProcessing(files);
      CountWhereZeroIff(run.files, Settled);
      assert run.files[0].status == Processing;
    }
  }

  /** Settling the in-flight item at position `k` and moving the dispatch
      point one item on (while one is waiting) keeps the invariant, with one
      more item settled. */
  lemma SettleStep(files: seq<FileItem>, opts: ConversionOptions, run: Run, k: nat, st: FileStatus, r: nat)
    requires RunInvariant(files, opts, run, r)
    requires k < run.next && k < |run.files| && run.files[k].status == Processing && st != Processing
    ensures var settled := run.files[k := run.files[k].(status := st)];
      RunInvariant(files, opts, Run(settled, if run.next < |files| then run.next + 1 else run.next, AnyProcessing(settled)), r + 1)
  {
    SettleKeeps(files, run.files, run.next, k, st);
    CountWhereUpdate(run.files, Settled, k, run.files[k].(status := st));
  }

  /** A result dispatches the next waiting item of the queue, if any. */
  lemma RollingDispatchesNext(files: seq<FileItem>, opts: ConversionOptions, run: Run, id: Uuid, result: ConversionResult)
    requires SameItems(files, run.files) && run.next <= |files|
    ensures var step := RollingReport(run, id, result, opts);
      && step.0.next == (if run.next < |files| then run.next + 1 else run.next)
      && step.1 == AllTasks(files, opts)[run.next..step.0.next]
  {
    var step := RollingReport(run, id, result, opts);
    var fs := WithStatus(run.files, id, StatusFor(result));
    if run.next < |files| {
      assert step.1 == [Task(fs[run.next].id, fs[run.next].path, opts)];
      TaskAt(files, fs, opts, run.next);
    } else {
      assert AllTasks(files, opts)[run.next..run.next] == [];
    }
  }

  /** One result for an item in flight settles that item and dispatches the
      next waiting item, if any. */
  lemma RollingStep(files: seq<FileItem>, opts: ConversionOptions, run: Run, id: Uuid, result: ConversionResult, r: nat)
    requires DistinctIds(files) && RunInvariant(files, opts, run, r) && InFlight(run, id)
    ensures var step := RollingReport(run, id, result, opts);
      && RunInvariant(files, opts, step.0, r + 1)
      && run.next <= step.0.next <= |files|
      && step.1 == AllTasks(files, opts)[run.next..step.0.next]
  {
    var k :| 0 <= k < run.next && k < |run.files| && run.files[k].id == id && run.files[k].status == Processing;
    var st := StatusFor(result);
    var settled := run.files[k := run.files[k].(status := st)];
    WithStatusTouchesOnlyItsItem(run.files, id, st, k);
    SettleStep(files, opts, run, k, st, r);
    RollingDispatchesNext(files, opts, run, id, result);
    assert AnyProcessing(run.files);
    assert RollingReport(run, id, result, opts).0
        == Run(settled, if run.next < |files| then run.next + 1 else run.next, AnyProcessing(settled));
  }

  /** Any run of valid results keeps the invariant and dispatches the next
      items of the queue, in order. */
  lemma {:induction false} RollingRun(files: seq<FileItem>, opts: ConversionOptions, run: Run,
                                      reports: seq<(Uuid, ConversionResult)>, r: nat)
    requires DistinctIds(files) && RunInvariant(files, opts, run, r)
    requires ValidReports(run, reports, opts)
    ensures var after := RollingAfter(run, reports, opts);
      && RunInvariant(files, opts, after.0, r + |reports|)
      && run.next <= after.0.next <= |files|
      && after.1 == AllTasks(files, opts)[run.next..after.0.next]
    decreases |reports|
  {
    var all := AllTasks(files, opts);
    if reports == [] {
      assert all[run.next..run.next] == [];
    } else {
      var step := RollingReport(run, reports[0].0, reports[0].1, opts);
      assert InFlight(run, reports[0].0) && ValidReports(step.0, reports[1..], opts);
      RollingStep(files, opts, run, reports[0].0, reports[0].1, r);
      RollingRun(files, opts, step.0, reports[1..], r + 1);
      var rest := RollingAfter(step.0, reports[1..], opts);
      RollingAfterFirst(run, reports, opts);
      SlicesJoin(all, run.next, step.0.next, rest.0.next);
    }
  }

  /** A corrected run from its start: after `r` valid results the invariant
      holds with `r` items settled, and the tasks dispatched meanwhile are the
      next ones of the queue. */
  lemma RollingFromStart(files: seq<FileItem>, opts: ConversionOptions, reports: seq<(Uuid, ConversionResult)>)
    requires DistinctIds(files) && opts.maxBatchSize > 0
    requires ValidReports(RollingStart(files, opts).0, reports, opts)
    ensures var start := RollingStart(files, opts);
      var after := RollingAfter(start.0, reports, opts);
      && RunInvariant(files, opts, after.0, |reports|)
      && start.0.next <= after.0.next <= |files|
      && after.1 == AllTasks(files, opts)[start.0.next..after.0.next]
  {
    RollingStartInvariant(files, opts);
    RollingRun(files, opts, RollingStart(files, opts).0, reports, 0);
  }

  /** In a run that keeps the invariant, the dispatched items still being
      converted number the dispatched ones less the settled ones, which is
      at most `max_batch_size`. */
  lemma RunWindow(files: seq<FileItem>, opts: ConversionOptions, run: Run, r: nat)
    requires RunInvariant(files, opts, run, r)
    ensures CountWhere(run.files[..run.next], Converting) == run.next - r <= opts.maxBatchSize
  {
    var fs := run.files;
    CountWhereSplit(fs, Settled, run.next);
    CountWhereZeroIff(fs[run.next..], Settled);
    CountWhereComplement(fs[..run.next], Settled, Converting);
  }

  /** With the rolling dispatch, at no point of the batch are more than
      `max_batch_size` items being converted at once. */
  lemma RollingBounded(files: seq<FileItem>, opts: ConversionOptions, reports: seq<(Uuid, ConversionResult)>)
    requires DistinctIds(files) && opts.maxBatchSize > 0
    requires ValidReports(RollingStart(files, opts).0, reports, opts)
    ensures var after := RollingAfter(RollingStart(files, opts).0, reports, opts).0;
      after.next <= |after.files| && CountWhere(after.files[..after.next], Converting) <= opts.maxBatchSize
  {
    RollingFromStart(files, opts, reports);
    RunWindow(files, opts, RollingAfter(RollingStart(files, opts).0, reports, opts).0, |reports|);
  }

  /** Once every item has reported, all are dispatched and none is still
      being converted, so the batch is over. */
  lemma RunSettled(files: seq<FileItem>, opts: ConversionOptions, run: Run)
    requires RunInvariant(files, opts, run, |files|)
    ensures run.next == |files| && !run.running && !AnyProcessing(run.files)
  {
    CountWhereAll(run.files, Settled);
  }

  /** The first dispatch is the head of the queue's tasks. */
  lemma FirstBatchLeadsQueue(files: seq<FileItem>, opts: ConversionOptions)
    ensures BatchTasks(files, opts) == AllTasks(files, opts)[0..Min(opts.maxBatchSize, |files|)]
  {
  }

  /** With the rolling dispatch, a queue of any length is converted in full.
      Over the run, one task per queued item is dispatched, in queue order,
      so each item is dispatched exactly once; the last result ends the
      batch with no item left being converted. */
  lemma RollingConvertsAll(files: seq<FileItem>, opts: ConversionOptions, reports: seq<(Uuid, ConversionResult)>)
    requires DistinctIds(files) && opts.maxBatchSize > 0
    requires |reports| == |files|
    requires ValidReports(RollingStart(files, opts).0, reports, opts)
    ensures var start := RollingStart(files, opts);
      var after := RollingAfter(start.0, reports, opts);
      && start.1 + after.1 == AllTasks(files, opts)
      && !after.0.running && !AnyProcessing(after.0.files)
  {
    var start := RollingStart(files, opts);
    RollingFromStart(files, opts, reports);
    var after := RollingAfter(start.0, reports, opts);
    RunSettled(files, opts, after.0);
    var all := AllTasks(files, opts);
    FirstBatchLeadsQueue(files, opts);
    SlicesJoin(all, 0, start.0.next, |all|);
    assert all[0..|all|] == all;
  }

  /** Until the last result arrives, the batch keeps running. */
  lemma RollingRunsUntilLast(files: seq<FileItem>, opts: ConversionOptions, reports: seq<(Uuid, ConversionResult)>)
    requires DistinctIds(files) && opts.maxBatchSize > 0
    requires |reports| < |files|
    requires ValidReports(RollingStart(files, opts).0, reports, opts)
    ensures RollingAfter(RollingStart(files, opts).0, reports, opts).0.running
  {
    RollingFromStart(files, opts, reports);
    CountWhereAll(RollingAfter(RollingStart(files, opts).0, reports, opts).0.files, Settled);
  }

  /** In the two-file queue, the first file's result arrives while it is in
      flight, and so does the second's after it. */
  lemma RollingExampleReports()
    ensures var files := [NewFileItem(1, FilePath(None, "a.png")), NewFileItem(2, FilePath(None, "b.png"))];
      var opts := DefaultOptions().(maxBatchSize := 1);
      ValidReports(RollingStart(files, opts).0, [(1, Succeeded), (2, Succeeded)], opts)
  {
    var files := [NewFileItem(1, FilePath(None, "a.png")), NewFileItem(2, FilePath(None, "b.png"))];
    var opts := DefaultOptions().(maxBatchSize := 1);
    var reports: seq<(Uuid, ConversionResult)> := [(1, Succeeded), (2, Succeeded)];
    var start := RollingStart(files, opts);
    assert InFlight(start.0, 1) by {
      assert start.0.files[0].id == 1 && start.0.files[0].status == Processing;
    }
    var step := RollingReport(start.0, 1, Succeeded, opts);
    assert InFlight(step.0, 2) by {
      WithStatusTouchesOnlyItsItem(start.0.files, 1, Done, 0);
      assert step.0.files[1].id == 2 && step.0.files[1].status == Processing && step.0.next == 2;
    }
    assert reports[1..] == [(2, Succeeded)];
    assert ValidReports(step.0, reports[1..], opts);
  }

  /** The queue that stalls as written: with the rolling dispatch, the first
      result dispatches the second file and the second result ends the batch. */
  lemma RollingExample()
    ensures var files := [NewFileItem(1, FilePath(None, "a.png")), NewFileItem(2, FilePath(None, "b.png"))];
      var opts := DefaultOptions().(maxBatchSize := 1);
      var reports := [(1, Succeeded), (2, Succeeded)];
      var start := RollingStart(files, opts);
      var after := RollingAfter(start.0, reports, opts);
      && ValidReports(start.0, reports, opts)
      && start.1 + after.1 == [Task(1, FilePath(None, "a.png"), opts), Task(2, FilePath(None, "b.png"), opts)]
      && !after.0.running
  {
    var files := [NewFileItem(1, FilePath(None, "a.png")), NewFileItem(2, FilePath(None, "b.png"))];
    var opts := DefaultOptions().(maxBatchSize := 1);
    RollingExampleReports();
    RollingConvertsAll(files, opts, [(1, Succeeded), (2, Succeeded)]);
    var all := AllTasks(files, opts);
    assert all == [all[0], all[1]];
  }

  // ------------------------------------------------ dataset log

  /** The log's directory: the custom output directory when one is used and
      set (whether or not it exists), else the working directory. */
  function LogDirectory(opts: ConversionOptions): (d: string)
    ensures opts.useCustomOutput && opts.customOutputPath.Some? ==> d == opts.customOutputPath.value
    ensures !(opts.useCustomOutput && opts.customOutputPath.Some?) ==> d == "."
  {
    if opts.useCustomOutput then opts.customOutputPath.GetOr(".") else "."
  }

  const LogFileName: string := "dataset_log.txt"

  /** One line of the log: the target name, numbered from 1 when asked. */
  function LogLine(i: nat, name: string, numbered: bool): string {
    if numbered then NatToString(i + 1) + ". " + name else name
  }

  /** The log's lines, one per queued file in queue order. */
  function LogLines(files: seq<FileItem>, opts: ConversionOptions, dims: FilePath -> Option<(nat, nat)>): (r: seq<string>)
    ensures |r| == |files|
    ensures forall i :: 0 <= i < |files| ==>
      r[i] == LogLine(i, TargetFilename(files[i].path, opts, dims(files[i].path)), opts.addNumbering)
  {
    MapIndexed(files, (i: nat, item: FileItem) => LogLine(i, TargetFilename(item.path, opts, dims(item.path)), opts.addNumbering))
  }

  /** The loop of `generate_log_file` over the queue: one line per item. */
  method WriteLogLines(files: seq<FileItem>, opts: ConversionOptions, dims: FilePath -> Option<(nat, nat)>) returns (lines: seq<string>)
    ensures lines == LogLines(files, opts, dims)
  {
    lines := [];
    var i := 0;
    while i < |files|
      invariant 0 <= i <= |files|
      invariant lines == LogLines(files[..i], opts, dims)
    {
      var name := GetTargetFilename(files[i].path, opts, dims(files[i].path));
      var line := if opts.addNumbering then NatToString(i + 1) + ". " + name else name;
      LogLinesExtend(files, opts, dims, i);
      lines := lines + [line];
      i := i + 1;
    }
    assert files[..i] == files;
  }

  lemma LogLinesExtend(files: seq<FileItem>, opts: ConversionOptions, dims: FilePath -> Option<(nat, nat)>, i: nat)
    requires i < |files|
    ensures LogLines(files[..i + 1], opts, dims) ==
      LogLines(files[..i], opts, dims) + [LogLine(i, TargetFilename(files[i].path, opts, dims(files[i].path)), opts.addNumbering)]
  {
    MapIndexedExtend(files, (i: nat, item: FileItem) => LogLine(i, TargetFilename(item.path, opts, dims(item.path)), opts.addNumbering), i);
  }

  /** Length of the run of decimal digits that starts `x`. */
  function LeadingDigitCount(x: string): (n: nat)
    ensures n <= |x|
  {
    if x == [] || !IsDigit(x[0]) then 0 else 1 + LeadingDigitCount(x[1..])
  }

  /** Digits followed by a non-digit: the run is exactly the digits. */
  lemma {:induction false} LeadingDigits(s: string, rest: string)
    requires AllDigits(s) && rest != [] && !IsDigit(rest[0])
    ensures LeadingDigitCount(s + rest) == |s|
  {
    if s == [] {
      assert s + rest == rest;
    } else {
      assert (s + rest)[1..] == s[1..] + rest;
      LeadingDigits(s[1..], rest);
    }
  }

  /** Numbered lines never coincide, even for files with the same target
      name: the number before ". " tells them apart. */
  lemma NumberedLinesDiffer(i: nat, j: nat, a: string, b: string)
    requires LogLine(i, a, true) == LogLine(j, b, true)
    ensures i == j && a == b
  {
    var s := NatToString(i + 1);
    var t := NatToString(j + 1);
    var line := s + ". " + a;
    assert line == t + ". " + b;
    assert |s| == |t| by {
      LeadingDigits(s, ". " + a);
      LeadingDigits(t, ". " + b);
      assert s + (". " + a) == line;
      assert t + (". " + b) == line;
    }
    assert s == line[..|s|];
    assert t == (t + ". " + b)[..|t|];
    NatToStringInjective(i + 1, j + 1);
    assert a == line[|s| + 2..];
    assert b == (t + ". " + b)[|t| + 2..];
  }

  /** With numbering on, the log has no two equal lines. */
  lemma NumberedLogDistinct(files: seq<FileItem>, opts: ConversionOptions, dims: FilePath -> Option<(nat, nat)>)
    requires opts.addNumbering
    ensures var lines := LogLines(files, opts, dims);
      forall i, j :: 0 <= i < j < |lines| ==> lines[i] != lines[j]
  {
    var lines := LogLines(files, opts, dims);
    forall i, j | 0 <= i < j < |lines|
      ensures lines[i] != lines[j]
    {
      if lines[i] == lines[j] {
        NumberedLinesDiffer(i, j, TargetFilename(files[i].path, opts, dims(files[i].path)),
                            TargetFilename(files[j].path, opts, dims(files[j].path)));
      }
    }
  }

  /** Unlike the conversion, the log does not fall back when the custom
      directory is missing: the log goes to a directory the converted files
      were not written to. */
  lemma LogIgnoresMissingDirectory(path: FilePath, opts: ConversionOptions, pathExists: string -> bool)
    requires opts.useCustomOutput && opts.customOutputPath.Some?
    requires !pathExists(opts.customOutputPath.value)
    requires path.parent.GetOr(".") != opts.customOutputPath.value
    ensures LogDirectory(opts) != OutputDirectory(path, opts, pathExists)
  {
  }

  // ------------------------------------------------ the application

  class ImageConverterApp {
    const state: AppState

    /** `new`: the default state with the options read from the settings
        table (`None` when the database cannot be opened). */
    constructor (conn: Settings.SettingsTable?)
      ensures fresh(state)
      ensures state.files == [] && state.selectedIndices == {} && !state.isProcessing
      ensures state.draggingIndex == None && state.hoveredIndex == None
      ensures conn == null ==> state.options == DefaultOptions()
      ensures conn != null ==> state.options == Settings.DecodeSettings(conn.rows)
    {
      var s := new AppState();
      var o := Settings.LoadSettings(conn);
      s.options := o;
      state := s;
    }

    /** `start_conversion`: counts the queued files whose output already
        exists; the user is asked to confirm exactly when there is one. */
    method StartConversion(dims: FilePath -> Option<(nat, nat)>, pathExists: string -> bool, fileExists: FilePath -> bool)
      returns (collisions: nat, prompt: bool)
      ensures collisions == CountCollisions(state.files, state.options, dims, pathExists, fileExists)
      ensures prompt <==> collisions > 0
    {
      collisions := CheckCollisions(state.files, state.options, dims, pathExists, fileExists);
      prompt := collisions > 0;
    }

    /** `process_conversion`: after a refusal nothing happens; otherwise a
        batch starts, every item is marked as being converted, and the
        first `max_batch_size` items are dispatched in queue order. */
    method ProcessConversion(proceed: bool) returns (dispatched: seq<Task>)
      modifies state
      ensures !proceed ==> dispatched == [] && unchanged(state)
      ensures proceed ==> state.isProcessing && state.files == MarkedProcessing(old(state.files))
      ensures proceed ==> dispatched == BatchTasks(old(state.files), old(state.options))
      ensures unchanged(state`selectedIndices, state`options, state`draggingIndex, state`hoveredIndex)
    {
      if !proceed {
        return [];
      }
      state.isProcessing := true;
      var files := MarkAll(state.files);
      state.files := files;
      dispatched := TakeBatch(files, state.options);
      MarkingKeepsBatch(old(state.files), state.options);
    }

    /** `generate_log_file`: the log's path, and the lines written to it
        (none when the file cannot be created). */
    method GenerateLogFile(dims: FilePath -> Option<(nat, nat)>, created: bool) returns (logFile: FilePath, lines: seq<string>)
      ensures logFile == Join(LogDirectory(state.options), LogFileName)
      ensures lines == if created then LogLines(state.files, state.options, dims) else []
    {
      var opts := state.options;
      var targetDir := if opts.useCustomOutput then opts.customOutputPath.GetOr(".") else ".";
      logFile := Join(targetDir, LogFileName);
      lines := [];
      if !created {
        return;
      }
      lines := WriteLogLines(state.files, opts, dims);
    }

    /** The `ConversionFinished` message: the batch ends, and the log is
        written when it is enabled. */
    method OnConversionFinished(dims: FilePath -> Option<(nat, nat)>, created: bool) returns (log: Option<(FilePath, seq<string>)>)
      modifies state
      ensures !state.isProcessing
      ensures old(state.options).generateLog ==>
        log == Some((Join(LogDirectory(state.options), LogFileName), if created then LogLines(state.files, state.options, dims) else []))
      ensures !old(state.options).generateLog ==> log == None
      ensures unchanged(state`files, state`selectedIndices, state`options, state`draggingIndex, state`hoveredIndex)
    {
      ConversionFinished(state);
      log := None;
      if state.options.generateLog {
        var logFile, lines := GenerateLogFile(dims, created);
        log := Some((logFile, lines));
      }
    }
  }
}
