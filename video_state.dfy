/**
 * The per-session video state: the uploaded source, the segment count
 * control, and the split and archive jobs. Each event handler is a method;
 * each `async with self:` block of a background job is one step of the
 * method, in order, with nothing interleaved.
 */
module VideoStates {
  import opened Wrappers
  import opened Decimal
  import opened Clock
  import opened VideoRecords
  import opened SegmentPlan
  import opened SplitJob
  import opened ArchiveJob

  /**
   * What reading an uploaded file as a clip gives: its duration and frame
   * size, and `sizeMb`, the text the program's own `:.1f` f-string makes
   * of the file's size in megabytes (the model takes that text as given).
   */
  datatype ClipInfo = ClipInfo(duration: real, width: int, height: int, sizeMb: string)

  /** One uploaded file: its client-side name, where its bytes were stored, and what reading it as a clip gave. */
  datatype UploadedFile = UploadedFile(name: string, storedPath: string, probe: Option<ClipInfo>)

  /** The metadata record built for an upload that could be read as a clip. */
  function MetadataOf(f: UploadedFile, info: ClipInfo): VideoMetadata
  {
    VideoMetadata(f.name, info.duration, FormatHms(info.duration),
                  IntToString(info.width) + "x" + IntToString(info.height), info.sizeMb, f.storedPath)
  }

  /** The metadata after uploading `files`: that of the last readable file, or the old one when none is. */
  function MetadataAfterUpload(current: Option<VideoMetadata>, files: seq<UploadedFile>): Option<VideoMetadata>
  {
    if files == [] then current
    else
      var last := files[|files| - 1];
      if last.probe.Some? then Some(MetadataOf(last, last.probe.value))
      else MetadataAfterUpload(current, files[..|files| - 1])
  }

  /** The segment count after `set_segment_count(text)`. */
  function NewSegmentCount(current: int, text: string): int
  {
    match ParseInt(text)
    case Some(v) => if 1 <= v <= 20 then v else current
    case None => current
  }

  /**
   * Text that `int()` reads as an integer in 1..20 sets the count to it,
   * and the count changes only so; text that is not an integer, or an
   * integer out of range, leaves it.
   */
  lemma SegmentCountValidation(current: int, text: string)
    ensures var r := NewSegmentCount(current, text);
      && (r != current ==> ParseInt(text) == Some(r) && 1 <= r <= 20)
      && (ParseInt(text).None? ==> r == current)
      && (ParseInt(text).Some? && 1 <= ParseInt(text).value <= 20 ==> r == ParseInt(text).value)
      && (ParseInt(text).Some? && !(1 <= ParseInt(text).value <= 20) ==> r == current)
      && (1 <= current <= 20 ==> 1 <= r <= 20)
  {
  }

  /** Setting the count from the text of a number accepts exactly 1..20. */
  lemma SegmentCountFromNumber(current: int, n: int)
    requires |NatToString(if n < 0 then -n else n)| <= MaxStrDigits
    ensures NewSegmentCount(current, IntToString(n)) == if 1 <= n <= 20 then n else current
  {
    ParseIntOfIntToString(n);
  }

  /** Text of more digits than `int()` reads leaves the count, even when it denotes a value in range. */
  lemma SegmentCountIgnoresLongText(current: int)
    ensures NewSegmentCount(current, Zeros(MaxStrDigits) + "5") == current
  {
    ParseIntDigitLimit(Zeros(MaxStrDigits) + "5");
  }

  /** Text that `int()` refuses for a leading file separator leaves the count. */
  lemma SegmentCountIgnoresSeparator(current: int)
    ensures NewSegmentCount(current, "\U{1C}5") == current
  {
    ParseIntRefusesSeparator();
  }

  /** The last readable file decides the metadata; its duration text shows the truncated whole seconds. */
  lemma {:induction false} UploadKeepsLastReadable(current: Option<VideoMetadata>, files: seq<UploadedFile>, j: nat)
    requires j < |files| && files[j].probe.Some?
    requires forall l :: j < l < |files| ==> files[l].probe.None?
    ensures MetadataAfterUpload(current, files) == Some(MetadataOf(files[j], files[j].probe.value))
    ensures files[j].probe.value.duration >= 0.0 ==>
      ParseClock(MetadataAfterUpload(current, files).value.durationFormatted)
        == Some(HmsOfSeconds(files[j].probe.value.duration.Floor))
  {
    if j < |files| - 1 {
      var init := files[..|files| - 1];
      assert forall l :: j < l < |init| ==> init[l] == files[l];
      UploadKeepsLastReadable(current, init, j);
    }
    if files[j].probe.value.duration >= 0.0 {
      FormatHmsRoundTrip(files[j].probe.value.duration);
    }
  }

  /** When no uploaded file is readable the metadata is left as it was. */
  lemma {:induction false} UploadWithoutReadableFile(current: Option<VideoMetadata>, files: seq<UploadedFile>)
    requires forall l :: 0 <= l < |files| ==> files[l].probe.None?
    ensures MetadataAfterUpload(current, files) == current
  {
    if files != [] {
      var init := files[..|files| - 1];
      assert forall l :: 0 <= l < |init| ==> init[l] == files[l];
      UploadWithoutReadableFile(current, init);
    }
  }

  /** After an upload there is a video exactly when there was one before or some uploaded file could be read. */
  lemma {:induction false} UploadGivesVideo(current: Option<VideoMetadata>, files: seq<UploadedFile>)
    ensures MetadataAfterUpload(current, files).Some? <==>
      current.Some? || exists l :: 0 <= l < |files| && files[l].probe.Some?
  {
    if files != [] && files[|files| - 1].probe.None? {
      var init := files[..|files| - 1];
      assert forall l :: 0 <= l < |init| ==> init[l] == files[l];
      UploadGivesVideo(current, init);
    }
  }

  class VideoState {
    var isUploading: bool
    var uploadProgress: int
    var videoMetadata: Option<VideoMetadata>
    var segmentCount: int
    var dragActive: bool
    var isProcessing: bool
    var processingProgress: int
    var generatedSegments: seq<VideoSegment>
    var zipDownloadUrl: string
    var isZipping: bool

    /** The count is always a valid control value, progress a percentage, and part names unique. */
    ghost predicate Valid()
      reads this
    {
      && 1 <= segmentCount <= 20
      && 0 <= processingProgress <= 100
      && 0 <= uploadProgress <= 100
      && DistinctNames(generatedSegments)
    }

    constructor ()
      ensures Valid()
      ensures !isUploading && uploadProgress == 0 && videoMetadata == None && segmentCount == 5 && !dragActive
      ensures !isProcessing && processingProgress == 0 && generatedSegments == [] && zipDownloadUrl == "" && !isZipping
    {
      isUploading, uploadProgress, videoMetadata := false, 0, None;
      segmentCount, dragActive := 5, false;
      isProcessing, processingProgress, generatedSegments := false, 0, [];
      zipDownloadUrl, isZipping := "", false;
    }

    function HasVideo(): bool
      reads this
    {
      videoMetadata.Some?
    }

    /**
     * The length of one part as `HH:MM:SS`; without a video, or with a
     * non-positive count, "00:00:00". The text denotes the whole seconds of
     * duration / count.
     */
    function SegmentDurationFormatted(): (r: string)
      reads this
      ensures !HasVideo() || segmentCount <= 0 ==> r == "00:00:00"
      ensures HasVideo() && segmentCount > 0 && videoMetadata.value.durationRaw >= 0.0 ==>
        ParseClock(r) == Some(HmsOfSeconds((videoMetadata.value.durationRaw / segmentCount as real).Floor))
    {
      if !HasVideo() then "00:00:00"
      else
        var total := videoMetadata.value.durationRaw;
        if segmentCount <= 0 then "00:00:00"
        else
          var seg := total / segmentCount as real;
          if total >= 0.0 then FormatHmsRoundTrip(seg); FormatHms(seg)
          else FormatHms(seg)
    }

    function SplitFields(): SplitView
      reads this
    {
      SplitView(isProcessing, processingProgress, generatedSegments, zipDownloadUrl)
    }

    function ZipFields(): ZipView
      reads this
    {
      ZipView(isZipping, zipDownloadUrl)
    }

    method SetSegmentCount(text: string)
      requires Valid()
      modifies this`segmentCount
      ensures Valid()
      ensures segmentCount == NewSegmentCount(old(segmentCount), text)
    {
      var parsed := ParseInt(text);
      if parsed.Some? && 1 <= parsed.value <= 20 {
        segmentCount := parsed.value;
      }
    }

    /** Forgets the source; the parts and the archive URL of an earlier split are kept. */
    method ClearVideo()
      requires Valid()
      modifies this`videoMetadata, this`uploadProgress
      ensures Valid()
      ensures videoMetadata == None && uploadProgress == 0
      ensures !HasVideo()
    {
      videoMetadata := None;
      uploadProgress := 0;
    }

    method ToggleDrag()
      requires Valid()
      modifies this`dragActive
      ensures Valid()
      ensures dragActive == !old(dragActive)
    {
      dragActive := !dragActive;
    }

    /** Stores each file and reads its metadata; the last readable file becomes the source. */
    method HandleUpload(files: seq<UploadedFile>)
      requires Valid()
      modifies this`isUploading, this`uploadProgress, this`videoMetadata
      ensures Valid()
      ensures !isUploading && uploadProgress == 100
      ensures videoMetadata == MetadataAfterUpload(old(videoMetadata), files)
      ensures HasVideo() <==> old(HasVideo()) || exists l :: 0 <= l < |files| && files[l].probe.Some?
    {
      UploadGivesVideo(videoMetadata, files);
      isUploading := true;
      uploadProgress := 0;
      var i := 0;
      while i < |files|
        invariant 0 <= i <= |files|
        invariant videoMetadata == MetadataAfterUpload(old(videoMetadata), files[..i])
      {
        assert files[..i + 1][..i] == files[..i];
        var f := files[i];
        if f.probe.Some? {
          videoMetadata := Some(MetadataOf(f, f.probe.value));
        }
        i := i + 1;
      }
      assert files[..|files|] == files;
      isUploading := false;
      uploadProgress := 100;
    }

    /** The first critical section of the split job: the guard and the reset. */
    method BeginSplit() returns (started: bool)
      requires Valid()
      modifies this`isProcessing, this`processingProgress, this`generatedSegments
      ensures Valid()
      ensures started == Accepts(old(SplitFields()), videoMetadata)
      ensures SplitFields() == if started then Started(old(SplitFields())) else old(SplitFields())
    {
      if videoMetadata.None? || isProcessing {
        return false;
      }
      isProcessing := true;
      processingProgress := 0;
      generatedSegments := [];
      return true;
    }

    /**
     * The loop of the split job: part after part in index order, each
     * encoded, recorded and followed by a progress update, until a part
     * fails (its exception leaves the loop) or all are done.
     */
    method EncodeParts(stem: string, uploadDir: string, duration: real, count: nat, encodes: nat -> bool)
      returns (segments: seq<VideoSegment>, failed: bool, ghost attempted: seq<nat>, ghost published: seq<int>)
      requires 0 < count <= 20 && processingProgress == 0
      modifies this`processingProgress
      ensures var k := Completed(encodes, count);
        && failed == (k < count)
        && segments == PlannedSegments(stem, uploadDir, duration, count)[..k]
        && processingProgress == Progress(k, count)
        && attempted == Indices(if failed then k + 1 else k)
        && published == ProgressTrace(k, count)
    {
      ghost var plan := PlannedSegments(stem, uploadDir, duration, count);
      ghost var k := Completed(encodes, count);
      attempted, published := [], [];
      segments := [];
      failed := false;
      var i := 0;
      while i < count
        invariant 0 <= i <= k
        invariant segments == plan[..i]
        invariant attempted == Indices(i)
        invariant published == ProgressTrace(i, count)
        invariant processingProgress == Progress(i, count)
      {
        attempted := attempted + [i];
        if !encodes(i) {
          failed := true;
          break;
        }
        var seg := MakeSegment(stem, uploadDir, duration, count, i);
        PlannedSegmentsStep(stem, uploadDir, duration, count, i);
        segments := segments + [seg];
        var progress := Progress(i + 1, count);
        processingProgress := progress;
        published := published + [progress];
        i := i + 1;
      }
    }

    /**
     * The split job. `clipOpens` says whether the source can be opened,
     * `clipDuration` is the duration it reports, `encodes(i)` whether
     * writing part i succeeds, and `clipCloses` whether closing the clip
     * after the last part succeeds. `attempted` lists the parts handed to the
     * encoder (0, 1, ... in order) and `published` the progress values set
     * along the way.
     */
    method SplitVideo(uploadDir: string, clipOpens: bool, clipDuration: real, encodes: nat -> bool, clipCloses: bool)
      returns (ghost attempted: seq<nat>, ghost published: seq<int>)
      requires Valid()
      modifies this`isProcessing, this`processingProgress, this`generatedSegments, this`zipDownloadUrl
      ensures Valid()
      ensures SplitFields() == SplitOutcome(old(SplitFields()), videoMetadata, uploadDir, segmentCount,
                                            clipOpens, clipDuration, encodes, clipCloses)
      ensures attempted == Indices(if Accepts(old(SplitFields()), videoMetadata) then AttemptedCount(encodes, segmentCount, clipOpens) else 0)
      ensures published == if Accepts(old(SplitFields()), videoMetadata) && clipOpens
                           then ProgressTrace(Completed(encodes, segmentCount), segmentCount) else []
    {
      attempted, published := [], [];
      var started := BeginSplit();
      if !started {
        return;
      }
      attempted, published := RunSplit(Stem(videoMetadata.value.filename), uploadDir, segmentCount,
                                       clipOpens, clipDuration, encodes, clipCloses);
    }

    /**
     * The split job after its start: open the clip, encode the parts, and
     * in the final critical section publish them or only drop the running
     * flag.
     */
    method RunSplit(stem: string, uploadDir: string, count: nat, clipOpens: bool, clipDuration: real,
                    encodes: nat -> bool, clipCloses: bool)
      returns (ghost attempted: seq<nat>, ghost published: seq<int>)
      requires Valid() && 0 < count <= 20 && processingProgress == 0
      modifies this`isProcessing, this`processingProgress, this`generatedSegments, this`zipDownloadUrl
      ensures Valid()
      ensures SplitFields() == RunOutcome(old(SplitFields()), stem, uploadDir, count, clipOpens, clipDuration, encodes, clipCloses)
      ensures attempted == Indices(AttemptedCount(encodes, count, clipOpens))
      ensures published == if clipOpens then ProgressTrace(Completed(encodes, count), count) else []
    {
      attempted, published := [], [];
      if !clipOpens {
        isProcessing := false;
        return;
      }
      var segments, failed;
      segments, failed, attempted, published := EncodeParts(stem, uploadDir, clipDuration, count, encodes);
      ProgressMonotone(Completed(encodes, count), count, count);
      if failed || !clipCloses {
        isProcessing := false;
        return;
      }
      assert segments == PlannedSegments(stem, uploadDir, clipDuration, count);
      PlannedSegmentsDistinct(stem, uploadDir, clipDuration, count);
      generatedSegments := segments;
      isProcessing := false;
      zipDownloadUrl := "";
    }

    /**
     * The loop of the archive job: the segments whose file exists are
     * written in list order under their file names; the first entry that
     * cannot be written ends the loop with `ok` false, and `entries` is
     * then what was written before it.
     */
    method WriteEntries(segments: seq<VideoSegment>, fileExists: string -> bool, added: nat -> bool)
      returns (entries: seq<ArchiveEntry>, ok: bool)
      ensures ok == AllAdded(segments, fileExists, added)
      ensures ok ==> entries == ExistingEntries(segments, fileExists)
      ensures !ok ==> entries == ExistingEntries(segments[..FirstUnadded(segments, fileExists, added)], fileExists)
    {
      ghost var f := FirstUnadded(segments, fileExists, added);
      entries := [];
      var i := 0;
      while i < |segments|
        invariant 0 <= i <= f
        invariant entries == ExistingEntries(segments[..i], fileExists)
        invariant AllAdded(segments[..i], fileExists, added)
      {
        assert segments[..i + 1][..i] == segments[..i];
        var seg := segments[i];
        if fileExists(seg.filePath) {
          if !added(i) {
            return entries, false;
          }
          entries := entries + [EntryOf(seg)];
        }
        i := i + 1;
      }
      assert segments[..|segments|] == segments;
      return entries, true;
    }

    /**
     * The archive job. `fileExists` tells which files are on disk,
     * `created` whether the archive file can be opened for writing,
     * `added(j)` whether writing the entry for segment j succeeds, and
     * `closes` whether closing the archive at the end of the `with` block
     * succeeds. Returns the archive this call writes: none when it could not
     * be opened (the call writes nothing), the entries written so far when
     * one of them failed, and every entry otherwise.
     */
    method CreateZipDownload(uploadDir: string, fileExists: string -> bool, created: bool, added: nat -> bool, closes: bool)
      returns (archive: Option<Archive>)
      requires Valid()
      modifies this`isZipping, this`zipDownloadUrl
      ensures Valid()
      ensures ZipResult(ZipFields(), archive)
           == ZipOutcome(old(ZipFields()), generatedSegments, videoMetadata, uploadDir, fileExists, created, added, closes)
    {
      if |generatedSegments| == 0 || isZipping {
        return None;
      }
      isZipping := true;
      var segments := generatedSegments;
      var originalName := if videoMetadata.Some? then Stem(videoMetadata.value.filename) else "video";
      var zipFilename := originalName + "_all_parts.zip";
      var zipPath := JoinPath(uploadDir, zipFilename);
      if !created {
        isZipping := false;
        return None;
      }
      var entries, ok := WriteEntries(segments, fileExists, added);
      archive := Some(Archive(zipFilename, zipPath, entries));
      if !ok || !closes {
        isZipping := false;
        return;
      }
      zipDownloadUrl := UploadUrl(zipFilename);
      isZipping := false;
    }
  }
}
