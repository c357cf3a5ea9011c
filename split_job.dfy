/**
 * What one run of the split job does to the job's observable fields, as a
 * function of the state before it and of the outcomes of the foreign calls
 * (opening the clip, encoding each part). The class method that runs the
 * job is proved to end in exactly this state.
 */
module SplitJob {
  import opened Wrappers
  import opened VideoRecords
  import opened SegmentPlan
  import opened Arith

  /** The fields the split job reads and writes. */
  datatype SplitView = SplitView(isProcessing: bool, progress: int, segments: seq<VideoSegment>, zipUrl: string)

  /** The published progress once `done` of `count` parts are written: the
   *  truncated percentage `int(done / count * 100)`, in exact arithmetic. */
  function Progress(done: nat, count: nat): int
    requires count > 0
  {
    (done * 100) / count
  }

  /** How many parts, from part i on, are encoded before the first failure. */
  function CompletedFrom(encodes: nat -> bool, i: nat, count: nat): (k: nat)
    requires i <= count
    ensures i <= k <= count
    ensures forall j :: i <= j < k ==> encodes(j)
    ensures k < count ==> !encodes(k)
    decreases count - i
  {
    if i == count || !encodes(i) then i else CompletedFrom(encodes, i + 1, count)
  }

  /** The number of parts written before the first encoder failure (all of them when none fails). */
  function Completed(encodes: nat -> bool, count: nat): (k: nat)
    ensures k <= count
    ensures forall j :: 0 <= j < k ==> encodes(j)
    ensures k < count ==> !encodes(k)
  {
    CompletedFrom(encodes, 0, count)
  }

  /** The guard of the first critical section. */
  predicate Accepts(before: SplitView, meta: Option<VideoMetadata>)
  {
    meta.Some? && !before.isProcessing
  }

  /** The state that the first critical section leaves behind. */
  function Started(before: SplitView): SplitView
  {
    SplitView(true, 0, [], before.zipUrl)
  }

  /**
   * The state after the work that follows a successful start. `clipCloses`
   * says whether closing the clip after the last part succeeds; when it
   * raises, the parts are not published either.
   */
  function RunOutcome(started: SplitView, stem: string, uploadDir: string, count: nat,
                      clipOpens: bool, duration: real, encodes: nat -> bool, clipCloses: bool): SplitView
    requires count > 0
  {
    if !clipOpens then SplitView(false, started.progress, started.segments, started.zipUrl)
    else
      var k := Completed(encodes, count);
      if k == count && clipCloses then
        SplitView(false, Progress(count, count), PlannedSegments(stem, uploadDir, duration, count), "")
      else SplitView(false, Progress(k, count), started.segments, started.zipUrl)
  }

  /** A whole call of the split job. */
  function SplitOutcome(before: SplitView, meta: Option<VideoMetadata>, uploadDir: string, count: nat,
                        clipOpens: bool, duration: real, encodes: nat -> bool, clipCloses: bool): SplitView
    requires count > 0
  {
    if Accepts(before, meta) then
      RunOutcome(Started(before), Stem(meta.value.filename), uploadDir, count, clipOpens, duration, encodes, clipCloses)
    else before
  }

  /** How many parts are handed to the encoder: up to and including the first one that fails. */
  function AttemptedCount(encodes: nat -> bool, count: nat, clipOpens: bool): nat
  {
    var k := Completed(encodes, count);
    if !clipOpens then 0 else if k < count then k + 1 else count
  }

  /** The parts handed to the encoder, in order: 0, 1, ..., n - 1. */
  function Indices(n: nat): (r: seq<nat>)
    ensures |r| == n && forall j :: 0 <= j < n ==> r[j] == j
  {
    if n == 0 then [] else Indices(n - 1) + [n - 1]
  }

  /** The progress values published one after another during a run: the j-th is that of j + 1 parts. */
  function ProgressTrace(done: nat, count: nat): (r: seq<int>)
    requires count > 0
    ensures |r| == done && forall j :: 0 <= j < done ==> r[j] == Progress(j + 1, count)
  {
    if done == 0 then [] else ProgressTrace(done - 1, count) + [Progress(done, count)]
  }

  // ---------------------------------------------------------------------
  // Properties

  /** Progress never falls as parts complete, stays within 0..100, and reaches 100 with the last part. */
  lemma ProgressMonotone(a: nat, b: nat, count: nat)
    requires count > 0 && a <= b <= count
    ensures 0 <= Progress(a, count) <= Progress(b, count) <= 100
    ensures Progress(0, count) == 0 && Progress(count, count) == 100
  {
    DivMonotone(a * 100, b * 100, count);
    DivMonotone(b * 100, count * 100, count);
    DivIsUnique(count * 100, count, 100);
    DivIsUnique(0, count, 0);
  }

  lemma ProgressTraceMonotone(done: nat, count: nat)
    requires 0 < count && done <= count
    ensures forall a, b :: 0 <= a <= b < done ==> ProgressTrace(done, count)[a] <= ProgressTrace(done, count)[b]
    ensures forall a :: 0 <= a < done ==> 0 <= ProgressTrace(done, count)[a] <= 100
    ensures done == count ==> ProgressTrace(done, count)[done - 1] == 100
  {
    var t := ProgressTrace(done, count);
    forall a, b | 0 <= a <= b < done
      ensures 0 <= t[a] <= t[b] <= 100
    {
      ProgressMonotone(a + 1, b + 1, count);
    }
    ProgressMonotone(count, count, count);
  }

  /** A call while a job is running, or with no video loaded, changes nothing. */
  lemma SplitRejected(before: SplitView, meta: Option<VideoMetadata>, uploadDir: string, count: nat,
                      clipOpens: bool, duration: real, encodes: nat -> bool, clipCloses: bool)
    requires count > 0 && (meta.None? || before.isProcessing)
    ensures SplitOutcome(before, meta, uploadDir, count, clipOpens, duration, encodes, clipCloses) == before
  {
  }

  /** An accepted call first marks the job running with no progress and no parts. */
  lemma SplitStartResets(before: SplitView, meta: Option<VideoMetadata>)
    requires Accepts(before, meta)
    ensures var s := Started(before);
      s.isProcessing && s.progress == 0 && s.segments == [] && s.zipUrl == before.zipUrl
  {
  }

  /**
   * When every part encodes and the clip closes: the job stops, progress is 100, all `count`
   * parts are published in index order, and the stale archive URL is cleared.
   */
  lemma SplitSucceeds(before: SplitView, meta: Option<VideoMetadata>, uploadDir: string, count: nat,
                      duration: real, encodes: nat -> bool)
    requires 0 < count <= 20 && Accepts(before, meta)
    requires forall j :: 0 <= j < count ==> encodes(j)
    ensures var after := SplitOutcome(before, meta, uploadDir, count, true, duration, encodes, true);
      && !after.isProcessing
      && after.progress == 100
      && after.zipUrl == ""
      && after.segments == PlannedSegments(Stem(meta.value.filename), uploadDir, duration, count)
      && |after.segments| == count
      && DistinctNames(after.segments)
    ensures AttemptedCount(encodes, count, true) == count
  {
    ProgressMonotone(count, count, count);
    PlannedSegmentsDistinct(Stem(meta.value.filename), uploadDir, duration, count);
  }

  /**
   * When every part encodes but closing the clip raises: the job stops at
   * progress 100 with no part published and the archive URL kept.
   */
  lemma SplitCloseFails(before: SplitView, meta: Option<VideoMetadata>, uploadDir: string, count: nat,
                        duration: real, encodes: nat -> bool)
    requires 0 < count && Accepts(before, meta)
    requires forall j :: 0 <= j < count ==> encodes(j)
    ensures SplitOutcome(before, meta, uploadDir, count, true, duration, encodes, false)
         == SplitView(false, 100, [], before.zipUrl)
    ensures AttemptedCount(encodes, count, true) == count
  {
    ProgressMonotone(count, count, count);
  }

  /**
   * When part k is the first to fail: nothing after it is attempted, the
   * job stops, no part is published, the progress of the last written part
   * is kept, and the archive URL is left as it was.
   */
  lemma SplitFailsAt(before: SplitView, meta: Option<VideoMetadata>, uploadDir: string, count: nat,
                     duration: real, encodes: nat -> bool, clipCloses: bool, k: nat)
    requires 0 < count && k < count && Accepts(before, meta)
    requires forall j :: 0 <= j < k ==> encodes(j)
    requires !encodes(k)
    ensures SplitOutcome(before, meta, uploadDir, count, true, duration, encodes, clipCloses)
         == SplitView(false, Progress(k, count), [], before.zipUrl)
    ensures AttemptedCount(encodes, count, true) == k + 1
  {
    ProgressMonotone(0, 0, count);
  }

  /** When the clip cannot be opened, only the running flag drops: no part is attempted. */
  lemma SplitClipFails(before: SplitView, meta: Option<VideoMetadata>, uploadDir: string, count: nat,
                       duration: real, encodes: nat -> bool, clipCloses: bool)
    requires 0 < count && Accepts(before, meta)
    ensures SplitOutcome(before, meta, uploadDir, count, false, duration, encodes, clipCloses)
         == SplitView(false, 0, [], before.zipUrl)
    ensures AttemptedCount(encodes, count, false) == 0
  {
  }

  /** Splitting into five parts where the third fails: progress stays at 40 and no part is published. */
  lemma ThirdOfFiveFails(before: SplitView, meta: Option<VideoMetadata>, uploadDir: string, duration: real,
                         encodes: nat -> bool, clipCloses: bool)
    requires Accepts(before, meta)
    requires forall j :: encodes(j) == (j != 2)
    ensures SplitOutcome(before, meta, uploadDir, 5, true, duration, encodes, clipCloses)
         == SplitView(false, 40, [], before.zipUrl)
    ensures AttemptedCount(encodes, 5, true) == 3
  {
    SplitFailsAt(before, meta, uploadDir, 5, duration, encodes, clipCloses, 2);
    assert Progress(2, 5) == 40;
  }

  /** The first two of five parts publish 20 and then 40. */
  lemma TraceOfTwoOfFive()
    ensures ProgressTrace(2, 5) == [20, 40]
  {
    assert Progress(1, 5) == 20 && Progress(2, 5) == 40;
  }
}
