/**
 * Planning a split: the uniform time ranges of the segments, the file name
 * and download URL of each part, and the segment records built from them.
 */
module SegmentPlan {
  import opened Wrappers
  import opened Decimal
  import opened Clock
  import opened VideoRecords

  datatype TimeRange = TimeRange(start: real, end: real)

  function Min(a: real, b: real): real { if a <= b then a else b }

  /** `duration / segment_count`. */
  function SegmentLength(duration: real, count: nat): real
    requires count > 0
  {
    duration / count as real
  }

  /** Range i: from `i * len` to `min((i + 1) * len, duration)`. */
  function RangeAt(duration: real, count: nat, i: nat): TimeRange
    requires count > 0
  {
    var len := SegmentLength(duration, count);
    TimeRange(i as real * len, Min((i + 1) as real * len, duration))
  }

  /** The ranges for `i in range(count)`, in index order. */
  function Plan(duration: real, count: nat): seq<TimeRange>
    requires count > 0
  {
    seq(count, i requires 0 <= i < count => RangeAt(duration, count, i))
  }

  function TotalLength(ranges: seq<TimeRange>): real
  {
    if ranges == [] then 0.0
    else TotalLength(ranges[..|ranges| - 1]) + (ranges[|ranges| - 1].end - ranges[|ranges| - 1].start)
  }

  /** With exact arithmetic the clamp never shortens a range. */
  lemma RangeAtUnclamped(duration: real, count: nat, i: nat)
    requires duration >= 0.0 && count > 0 && i < count
    ensures var len := SegmentLength(duration, count);
      && RangeAt(duration, count, i).start == i as real * len
      && RangeAt(duration, count, i).end == i as real * len + len
      && RangeAt(duration, count, i).end <= duration
  {
    var len := SegmentLength(duration, count);
    var c := count as real;
    assert len * c == duration;
    assert len >= 0.0;
    assert (i + 1) as real <= c;
    assert (i + 1) as real * len <= c * len;
    assert (i + 1) as real * len == i as real * len + len;
  }

  /**
   * Exactly `count` ranges; range i starts at i * (duration / count) and is
   * duration / count long, and none ends past the duration.
   */
  lemma PlanRanges(duration: real, count: nat)
    requires duration >= 0.0 && count > 0
    ensures |Plan(duration, count)| == count
    ensures forall i :: 0 <= i < count ==>
      && Plan(duration, count)[i].start == i as real * SegmentLength(duration, count)
      && Plan(duration, count)[i].end - Plan(duration, count)[i].start == SegmentLength(duration, count)
      && Plan(duration, count)[i].end <= duration
  {
    var p := Plan(duration, count);
    forall i | 0 <= i < count
      ensures p[i].start == i as real * SegmentLength(duration, count)
      ensures p[i].end - p[i].start == SegmentLength(duration, count)
      ensures p[i].end <= duration
    {
      RangeAtUnclamped(duration, count, i);
    }
  }

  lemma RangesAdjacent(duration: real, count: nat, i: nat)
    requires duration >= 0.0 && i + 1 < count
    ensures RangeAt(duration, count, i).end == RangeAt(duration, count, i + 1).start
  {
    var len := SegmentLength(duration, count);
    RangeAtUnclamped(duration, count, i);
    assert RangeAt(duration, count, i + 1).start == (i + 1) as real * len;
    assert (i + 1) as real * len == i as real * len + len;
  }

  lemma LastRangeEnd(duration: real, count: nat)
    requires duration >= 0.0 && count > 0
    ensures RangeAt(duration, count, count - 1).end == duration
  {
    var len := SegmentLength(duration, count);
    var c := count as real;
    assert len * c == duration;
    assert ((count - 1) + 1) as real == c;
    assert RangeAt(duration, count, count - 1).end == Min(c * len, duration);
  }

  /** Each range ends where the next one starts; the first starts at zero and the last ends at the duration. */
  lemma PlanContiguous(duration: real, count: nat)
    requires duration >= 0.0 && count > 0
    ensures forall i :: 0 <= i < count - 1 ==> Plan(duration, count)[i].end == Plan(duration, count)[i + 1].start
    ensures Plan(duration, count)[0].start == 0.0
    ensures Plan(duration, count)[count - 1].end == duration
  {
    var p := Plan(duration, count);
    forall i | 0 <= i < count - 1
      ensures p[i].end == p[i + 1].start
    {
      RangesAdjacent(duration, count, i);
    }
    LastRangeEnd(duration, count);
  }

  lemma {:induction false} PlanPrefixLength(duration: real, count: nat, k: nat)
    requires duration >= 0.0 && count > 0 && k <= count
    ensures TotalLength(Plan(duration, count)[..k]) == k as real * SegmentLength(duration, count)
  {
    if k > 0 {
      var p := Plan(duration, count);
      var len := SegmentLength(duration, count);
      assert p[..k][..k - 1] == p[..k - 1];
      PlanPrefixLength(duration, count, k - 1);
      RangeAtUnclamped(duration, count, k - 1);
      assert TotalLength(p[..k]) == TotalLength(p[..k - 1]) + (p[k - 1].end - p[k - 1].start);
      assert p[k - 1].end - p[k - 1].start == len;
      assert (k - 1) as real * len + len == k as real * len;
    }
  }

  /** The ranges together cover the whole duration. */
  lemma PlanCoversDuration(duration: real, count: nat)
    requires duration >= 0.0 && count > 0
    ensures TotalLength(Plan(duration, count)) == duration
  {
    var p := Plan(duration, count);
    PlanPrefixLength(duration, count, count);
    assert p[..count] == p;
    assert count as real * SegmentLength(duration, count) == duration;
  }

  /**
   * A negative duration is not refused, and then the `min` does clamp: of
   * -10 seconds in two parts, both ranges end at -10.
   */
  lemma NegativeDurationClamps()
    ensures RangeAt(-10.0, 2, 0) == TimeRange(0.0, -10.0)
    ensures RangeAt(-10.0, 2, 1) == TimeRange(-5.0, -10.0)
  {
  }

  lemma PlanExample()
    ensures Plan(600.0, 5) == [TimeRange(0.0, 120.0), TimeRange(120.0, 240.0), TimeRange(240.0, 360.0),
                               TimeRange(360.0, 480.0), TimeRange(480.0, 600.0)]
  {
  }

  // ---------------------------------------------------------------------
  // Names and URLs

  function LastIndexOf(s: string, c: char): (r: Option<nat>)
    ensures r.Some? ==> r.value < |s| && s[r.value] == c && forall j :: r.value < j < |s| ==> s[j] != c
    ensures r.None? ==> forall j :: 0 <= j < |s| ==> s[j] != c
  {
    if s == [] then None
    else if s[|s| - 1] == c then Some(|s| - 1)
    else LastIndexOf(s[..|s| - 1], c)
  }

  /** `Path(p).name`: the text after the last '/'. */
  function BaseName(path: string): string
  {
    match LastIndexOf(path, '/')
    case None => path
    case Some(i) => path[i + 1..]
  }

  /** `Path(p).stem`: the name without its last suffix, where a suffix is a
   *  dot that neither starts nor ends the name, and what follows it. */
  function Stem(path: string): string
  {
    var name := BaseName(path);
    match LastIndexOf(name, '.')
    case None => name
    case Some(i) => if 0 < i < |name| - 1 then name[..i] else name
  }

  /** `f"{stem}_part_{i + 1:03d}.mp4"`. */
  function SegmentFileName(stem: string, i: nat): string
  {
    stem + "_part_" + ZeroPad(i + 1, 3) + ".mp4"
  }

  /** `f"/_upload/{name}"`: where an uploaded or generated file is served. */
  function UploadUrl(name: string): string
  {
    "/_upload/" + name
  }

  /** `str(upload_dir / name)`. */
  function JoinPath(dir: string, name: string): string
  {
    dir + "/" + name
  }

  /** The record for segment i of a plan. */
  function MakeSegment(stem: string, uploadDir: string, duration: real, count: nat, i: nat): VideoSegment
    requires count > 0
  {
    var r := RangeAt(duration, count, i);
    var name := SegmentFileName(stem, i);
    VideoSegment(name, FormatHms(r.end - r.start), JoinPath(uploadDir, name), UploadUrl(name))
  }

  /** The records of all segments of a plan, in index order. */
  function PlannedSegments(stem: string, uploadDir: string, duration: real, count: nat): seq<VideoSegment>
    requires count > 0
  {
    seq(count, i requires 0 <= i < count => MakeSegment(stem, uploadDir, duration, count, i))
  }

  /** The first i + 1 records of a plan extend the first i by record i. */
  lemma PlannedSegmentsStep(stem: string, uploadDir: string, duration: real, count: nat, i: nat)
    requires 0 < count && i < count
    ensures PlannedSegments(stem, uploadDir, duration, count)[..i + 1]
         == PlannedSegments(stem, uploadDir, duration, count)[..i] + [MakeSegment(stem, uploadDir, duration, count, i)]
  {
    var plan := PlannedSegments(stem, uploadDir, duration, count);
    assert plan[..i + 1] == plan[..i] + [plan[i]];
  }

  lemma StemStripsExtension(base: string, ext: string)
    requires |base| > 0 && |ext| > 0
    requires forall j :: 0 <= j < |base| ==> base[j] != '/'
    requires forall j :: 0 <= j < |ext| ==> ext[j] != '/' && ext[j] != '.'
    ensures Stem(base + "." + ext) == base
  {
    var name := base + "." + ext;
    assert BaseName(name) == name;
    assert name[|base|] == '.';
    assert LastIndexOf(name, '.') == Some(|base|);
    assert name[..|base|] == base;
  }

  /** The three digits in a part name carry the 1-based index. */
  lemma SegmentFileNameParts(stem: string, i: nat)
    requires i + 1 < 1000
    ensures var name := SegmentFileName(stem, i);
      && |name| == |stem| + 13
      && name[..|stem| + 6] == stem + "_part_"
      && name[|stem| + 9..] == ".mp4"
      && AllDigits(name[|stem| + 6..|stem| + 9])
      && DigitsValue(name[|stem| + 6..|stem| + 9]) == i + 1
  {
    assert Pow10(3) == 1000;
    ZeroPadDigits(i + 1, 3);
    var name := SegmentFileName(stem, i);
    var pad := ZeroPad(i + 1, 3);
    assert name == (stem + "_part_") + pad + ".mp4";
    assert name[|stem| + 6..|stem| + 9] == pad;
  }

  /** Two different parts of the same source never share a file name. */
  lemma SegmentFileNamesDistinct(stem: string, i: nat, j: nat)
    requires i != j && i + 1 < 1000 && j + 1 < 1000
    ensures SegmentFileName(stem, i) != SegmentFileName(stem, j)
  {
    SegmentFileNameParts(stem, i);
    SegmentFileNameParts(stem, j);
  }

  lemma SegmentFileNameExample()
    ensures SegmentFileName("clip", 0) == "clip_part_001.mp4"
    ensures SegmentFileName("clip", 19) == "clip_part_020.mp4"
  {
    assert ZeroPad(1, 3) == "001";
    assert ZeroPad(20, 3) == "020" by { assert NatToString(20) == NatToString(2) + [DigitChar(0)]; }
  }

  lemma MakeSegmentShape(stem: string, uploadDir: string, duration: real, count: nat, i: nat)
    requires duration >= 0.0 && 0 < count && i < count
    ensures var seg := MakeSegment(stem, uploadDir, duration, count, i);
      && seg.filename == SegmentFileName(stem, i)
      && seg.filePath == JoinPath(uploadDir, seg.filename)
      && seg.downloadUrl == UploadUrl(seg.filename)
      && seg.durationFormatted == FormatHms(SegmentLength(duration, count))
  {
    RangeAtUnclamped(duration, count, i);
    var r := RangeAt(duration, count, i);
    assert r.end - r.start == SegmentLength(duration, count);
  }

  /**
   * The plan's records: one per range in index order, each named after its
   * 1-based index, stored in the upload directory under that name, served
   * at the upload URL of that name, and showing the segment's length.
   */
  lemma PlannedSegmentsShape(stem: string, uploadDir: string, duration: real, count: nat)
    requires duration >= 0.0 && 0 < count < 1000
    ensures var segs := PlannedSegments(stem, uploadDir, duration, count);
      && |segs| == count
      && forall i :: 0 <= i < count ==>
          && segs[i].filename == SegmentFileName(stem, i)
          && segs[i].filePath == JoinPath(uploadDir, segs[i].filename)
          && segs[i].downloadUrl == UploadUrl(segs[i].filename)
          && segs[i].durationFormatted == FormatHms(SegmentLength(duration, count))
  {
    var segs := PlannedSegments(stem, uploadDir, duration, count);
    forall i | 0 <= i < count
      ensures segs[i].filename == SegmentFileName(stem, i)
      ensures segs[i].filePath == JoinPath(uploadDir, segs[i].filename)
      ensures segs[i].downloadUrl == UploadUrl(segs[i].filename)
      ensures segs[i].durationFormatted == FormatHms(SegmentLength(duration, count))
    {
      MakeSegmentShape(stem, uploadDir, duration, count, i);
    }
  }

  /** The parts of one plan have pairwise different file names. */
  lemma PlannedSegmentsDistinct(stem: string, uploadDir: string, duration: real, count: nat)
    requires 0 < count < 1000
    ensures DistinctNames(PlannedSegments(stem, uploadDir, duration, count))
  {
    var segs := PlannedSegments(stem, uploadDir, duration, count);
    forall i, j | 0 <= i < j < count
      ensures segs[i].filename != segs[j].filename
    {
      SegmentFileNamesDistinct(stem, i, j);
    }
  }
}
