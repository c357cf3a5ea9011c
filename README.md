# Video segment splitter — a Dafny model of its session state

The video segment splitter is a web application. A user uploads a video,
chooses how many equal parts (1 to 20) it should be cut into, and starts a
split job. The job encodes the parts one after another and publishes their
records and download URLs. An archive job then bundles the produced part
files into one zip file for download. A system monitor dialog shows host
statistics, including the uptime, refreshed every two seconds while it is
open.

This project models two state classes and the arithmetic and text handling
they rely on:

- `VideoState`, in `video_segment_splitter/states/video_state.py`: the upload
  handler, the segment-count control, the split job and the archive job.
- `SystemState`, in `video_segment_splitter/states/system_state.py`: the
  monitor dialog and its refresh logic, plus the uptime decomposition and
  its text form.

## Layout

| file | module | what it holds |
|---|---|---|
| `wrappers.dfy` | `Wrappers` | `Option` |
| `arith.dfy` | `Arith` | facts about Euclidean division |
| `decimal.dfy` | `Decimal` | `str(n)`, `f"{n:0Wd}"` and Python's `int(text)` |
| `clock.dfy` | `Clock` | the `HH:MM:SS` rendering of float seconds and reading it back |
| `video_records.dfy` | `VideoRecords` | the `VideoMetadata` and `VideoSegment` records |
| `segment_plan.dfy` | `SegmentPlan` | time ranges of the parts, `Path.stem`, part names, URLs, segment records |
| `split_job.dfy` | `SplitJob` | what a split run does to the job fields: guard, encoder failures, progress |
| `archive_job.dfy` | `ArchiveJob` | what an archive run does: entries, archive name, published URL |
| `video_state.dfy` | `VideoStates` | class `VideoState`, whose event handlers are methods proved against the two job modules |
| `system_state.dfy` | `Uptime`, `SystemStates` | uptime parts and text, and class `SystemState` |

Each event handler is a method of its class, and its `modifies` clause
names the fields the handler assigns. The one addition is
`SystemState.AutoRefresh`, which also sets `showSystemModal`. It takes the
value from its `openAtTick` input, which stands for the events handled
while the loop sleeps. Each method's `ensures` clauses give the new state as
a function of the old state, and the lemmas next to those functions prove
the properties.

The two background jobs are modelled as follows:

- Each `async with self:` block is one atomic step, and the steps of a job
  run in order with nothing interleaved.
- Each call into a library the model cannot see that decides what a job
  does becomes a parameter saying how the call turns out:

  | parameter | meaning |
  |---|---|
  | `clipOpens` | whether moviepy can open the source clip |
  | `clipDuration` | the duration the clip reports |
  | `encodes(i)` | whether writing part `i` succeeds |
  | `clipCloses` | whether `clip.close()` after the last part succeeds |
  | `fileExists(path)` | whether a part file is on disk |
  | `created` | whether the archive file can be opened |
  | `added(j)` | whether the entry for segment `j` can be written |
  | `closes` | whether closing the archive at the end of the `with` block succeeds |
  | `probe` | what reading an uploaded file as a clip gives |

  A raise in the remaining calls of a job leads to the same outcome as one
  of these:
  - `rx.get_upload_dir()` or `VideoFileClip` raising in the split job is
    `clipOpens` false.
  - `clip.subclipped` raising for part `i` is `encodes(i)` false.
  - `rx.get_upload_dir()` raising in the archive job is `created` false.

Durations are exact `real`s:

- Python's float `//` and `%` are written out with `Floor`, following
  Python's floored semantics.
- `int(x)` on a float truncates toward zero (`Clock.Trunc`).

Progress is `int((i + 1) / segment_count * 100)` in the source. The model
uses the exact `((i + 1) * 100) / count`. For every count from 1 to 20 and
every `i` below the count, the float expression gives the same integer.

Behaviour of the code that the model keeps:

- Progress is truncated by `int()`
  (`video_segment_splitter/states/video_state.py:162`).
- A failed run only sets `is_processing` to false
  (`video_segment_splitter/states/video_state.py:175-176`). Progress stays at
  the last value published.
- A run that fails publishes no segments. The list is assigned only after
  the loop (`video_segment_splitter/states/video_state.py:167`), so it stays
  empty, as `BeginSplit` left it.
- Download URLs are `/_upload/<name>`
  (`video_segment_splitter/states/video_state.py:159` and `:204`).
- The docstring at `video_segment_splitter/states/system_state.py:12-15`
  says that `video_state.py` limits ffmpeg's thread count. The
  `write_videofile` call (`video_segment_splitter/states/video_state.py:141-149`)
  passes no thread count, and the model has none.
- A non-positive duration is not refused
  (`video_segment_splitter/states/video_state.py:129-131`). For a negative
  duration the `min` at `video_segment_splitter/states/video_state.py:136`
  clamps every range end to the duration (`SegmentPlan.NegativeDurationClamps`).
  The plan and duration-text lemmas hold for a non-negative duration, which
  is what a readable clip reports.
- `clear_video` (`video_segment_splitter/states/video_state.py:108-110`)
  resets only the metadata and the upload progress. The generated parts
  and the archive URL stay.
- The archive is named after the video that is loaded when the archive job
  runs, or `video` if none is
  (`video_segment_splitter/states/video_state.py:190-196`). The parts keep
  the name of the video they were cut from.
- When an entry cannot be written, the `with` block still closes the
  archive (`video_segment_splitter/states/video_state.py:198-202`). The file
  at the path then holds the entries written before the failure, and no URL
  is published. If that close itself raises after every entry has been
  written, the job likewise publishes no URL.

## Model

| member | source | states |
|---|---|---|
| `Decimal.IntToString` | video_segment_splitter/states/system_state.py:44 | `str(n)` of an integer: a minus sign for negative `n`, then its decimal digits; specified by `NatToStringValue` and `ParseIntOfIntToString` |
| `Decimal.ZeroPad` | video_segment_splitter/states/video_state.py:54 | `f"{n:0Wd}"`; specified by `ZeroPadDigits` |
| `Decimal.NatToStringValue` | video_segment_splitter/states/system_state.py:44 | the decimal text that `str(n)` writes denotes `n` |
| `Decimal.ZeroPadDigits` | video_segment_splitter/states/video_state.py:54 | `{n:02d}`/`{n:03d}` of a non-negative `n`: a digit string of at least the width, exactly the width when `n` fits, denoting `n` |
| `Decimal.ParseInt` | video_segment_splitter/states/video_state.py:59 | Python's `int(text)` on a string, `None` where it raises `ValueError`; specified by the five `ParseInt…` lemmas below and `ParseIntDigitLimit` |
| `Decimal.ParseIntOfIntToString` | video_segment_splitter/states/video_state.py:58-59 | `int(str(n)) == n` for every integer that `str` can write (at most 4300 digits), negative ones included |
| `Decimal.ParseIntRefuses` | video_segment_splitter/states/video_state.py:58-63 | `int()` raises on `""`, `"abc"`, `"5.0"` and `"1__0"` (a doubled underscore) |
| `Decimal.ParseIntRefusesSeparator` | video_segment_splitter/states/video_state.py:58-63 | `int("\x1c5")` raises: the file separator is not white space to `int()` |
| `Decimal.ParseIntSkipsSpace` | video_segment_splitter/states/video_state.py:59 | `int(" 7\n") == 7`: surrounding white space is skipped |
| `Decimal.ParseIntReadsSign` | video_segment_splitter/states/video_state.py:59 | `int("+12") == 12` and `int("-3") == -3` |
| `Decimal.ParseIntReadsGrouping` | video_segment_splitter/states/video_state.py:59 | `int("0_20") == 20`: leading zeros and a single underscore between digits are accepted |
| `Decimal.ParseIntDigitLimit` | video_segment_splitter/states/video_state.py:58-63 | `int()` refuses a run of more than 4300 digits, whatever value it denotes |
| `Clock.Trunc` | video_segment_splitter/states/video_state.py:51-53 | `int(x)` of a float: truncation toward zero, `Floor` for non-negative `x` and `-Floor(-x)` below; used by `HmsFieldsOfFloor` and `Uptime.UptimeSeconds` |
| `Clock.HmsFields` | video_segment_splitter/states/video_state.py:51-53 | the three fields `int(x // 3600)`, `int(x % 3600 // 60)` and `int(x % 60)`; specified by `HmsFieldsOfFloor` |
| `Clock.FormatHms` | video_segment_splitter/states/video_state.py:51-54 | the `HH:MM:SS` text of a float duration; specified by `FormatHmsRoundTrip` and the three examples |
| `Clock.ClockString` | video_segment_splitter/states/video_state.py:54 | `f"{h:02d}:{m:02d}:{s:02d}"` of three integers; specified by `ClockRoundTrip` |
| `Clock.HmsOfSeconds` | video_segment_splitter/states/video_state.py:51-53 | hours, minutes and seconds of whole seconds recombine to the total; minutes and seconds are below 60 |
| `Clock.HmsFieldsOfFloor` | video_segment_splitter/states/video_state.py:51-53 | the three float expressions `int(x // 3600)`, `int(x % 3600 // 60)` and `int(x % 60)` equal the whole-second split of `floor(x)`, for every real `x` |
| `Clock.ClockRoundTrip` | video_segment_splitter/states/video_state.py:54 | reading `HH:MM:SS` back gives the hours, minutes and seconds it was built from (hours unbounded) |
| `Clock.FormatHmsRoundTrip` | video_segment_splitter/states/video_state.py:85-88 | for a non-negative duration the clock text reads back as the whole seconds of the duration, with truncation and not rounding |
| `Clock.FormatFractionalMinute` | video_segment_splitter/states/video_state.py:85-88 | 59.9 seconds is shown as `00:00:59` |
| `Clock.FormatHourMinuteSecond` | video_segment_splitter/states/video_state.py:85-88 | 3661 seconds is shown as `01:01:01` |
| `Clock.FormatTwoMinutes` | video_segment_splitter/states/video_state.py:85-88 | 120 seconds is shown as `00:02:00` |
| `SegmentPlan.SegmentLength` | video_segment_splitter/states/video_state.py:131 | `duration / segment_count`; for a non-negative duration `RangeAtUnclamped` and `PlanRanges` state that each range is that long |
| `SegmentPlan.RangeAt` | video_segment_splitter/states/video_state.py:135-136 | range `i`: from `i * len` to `min((i + 1) * len, duration)`; specified by `RangeAtUnclamped` |
| `SegmentPlan.Plan` | video_segment_splitter/states/video_state.py:131-136 | the ranges of parts `0..count-1`; specified by `PlanRanges`, `PlanContiguous` and `PlanCoversDuration` |
| `SegmentPlan.RangeAtUnclamped` | video_segment_splitter/states/video_state.py:135-136 | for a non-negative duration, range `i < count` starts at `i * len`, is exactly `len = duration / count` long and ends within the duration, so the `min` never clamps |
| `SegmentPlan.PlanRanges` | video_segment_splitter/states/video_state.py:131-136 | for a non-negative duration, the plan has `count` ranges, each starting at `i * len`, each `len` long, none ending past the duration |
| `SegmentPlan.PlanContiguous` | video_segment_splitter/states/video_state.py:134-136 | for a non-negative duration, each range ends where the next starts; the first starts at 0 and the last ends at the duration |
| `SegmentPlan.LastRangeEnd` | video_segment_splitter/states/video_state.py:136 | for a non-negative duration, the last range ends exactly at the duration |
| `SegmentPlan.PlanPrefixLength` | video_segment_splitter/states/video_state.py:131-136 | for a non-negative duration, the first `k` ranges together last `k * len` |
| `SegmentPlan.PlanCoversDuration` | video_segment_splitter/states/video_state.py:131-136 | for a non-negative duration, the ranges together last exactly the duration |
| `SegmentPlan.PlanExample` | video_segment_splitter/states/video_state.py:131-136 | 600 seconds in 5 parts: 0–120, 120–240, 240–360, 360–480, 480–600 |
| `SegmentPlan.NegativeDurationClamps` | video_segment_splitter/states/video_state.py:135-136 | a negative duration is not refused and the `min` clamps: -10 seconds in two parts give the ranges 0 to -10 and -5 to -10 |
| `SegmentPlan.LastIndexOf` | video_segment_splitter/states/video_state.py:138 | the position found holds the character and no later one does; none means the character does not occur |
| `SegmentPlan.BaseName` | video_segment_splitter/states/video_state.py:138 | `Path(p).name`, the text after the last `/`, on which `Stem` works; used by `StemStripsExtension` |
| `SegmentPlan.Stem` | video_segment_splitter/states/video_state.py:138 | `Path(name).stem`; specified by `StemStripsExtension` |
| `SegmentPlan.StemStripsExtension` | video_segment_splitter/states/video_state.py:138 | `Path("base.ext").stem == "base"` for a base and an extension without separators |
| `SegmentPlan.SegmentFileName` | video_segment_splitter/states/video_state.py:139 | `f"{stem}_part_{i + 1:03d}.mp4"`; specified by `SegmentFileNameParts` and `SegmentFileNamesDistinct` |
| `SegmentPlan.UploadUrl` | video_segment_splitter/states/video_state.py:159 | `f"/_upload/{name}"`, the download URL of a stored file; used by `MakeSegmentShape` and `ArchiveJob.ZipSucceeds` |
| `SegmentPlan.JoinPath` | video_segment_splitter/states/video_state.py:140 | `str(upload_dir / name)`, also the archive path at :197; used by `MakeSegmentShape` and `ArchiveJob.ZipWriteFails` |
| `SegmentPlan.SegmentFileNameParts` | video_segment_splitter/states/video_state.py:139 | a part name is the stem, `_part_`, three digits denoting `i + 1`, and `.mp4` |
| `SegmentPlan.SegmentFileNamesDistinct` | video_segment_splitter/states/video_state.py:139 | two different parts (below 999) of one stem never share a file name |
| `SegmentPlan.SegmentFileNameExample` | video_segment_splitter/states/video_state.py:139 | parts 0 and 19 of `clip` are `clip_part_001.mp4` and `clip_part_020.mp4` |
| `SegmentPlan.MakeSegment` | video_segment_splitter/states/video_state.py:150-160 | the record of part `i`; specified by `MakeSegmentShape` |
| `SegmentPlan.PlannedSegments` | video_segment_splitter/states/video_state.py:132-161 | the records a full run appends, in index order; specified by `PlannedSegmentsShape` and `PlannedSegmentsDistinct` |
| `SegmentPlan.MakeSegmentShape` | video_segment_splitter/states/video_state.py:150-160 | for a non-negative duration, record `i` has the part name, the path in the upload directory, the `/_upload/` URL of that name and the clock text of `duration / count` |
| `SegmentPlan.PlannedSegmentsStep` | video_segment_splitter/states/video_state.py:161 | appending record `i` to the first `i` records gives the first `i + 1` |
| `SegmentPlan.PlannedSegmentsShape` | video_segment_splitter/states/video_state.py:134-161 | for a non-negative duration, the planned records: `count` of them in index order, each with its own name, path, URL and duration text |
| `SegmentPlan.PlannedSegmentsDistinct` | video_segment_splitter/states/video_state.py:139 | the records of one plan have pairwise different file names |
| `SplitJob.Progress` | video_segment_splitter/states/video_state.py:162 | the progress after `done` of `count` parts, `(done * 100) / count`, the integer the float expression gives for counts 1..20; specified by `ProgressMonotone` |
| `SplitJob.Accepts` | video_segment_splitter/states/video_state.py:119 | the guard of the first critical section: a video is loaded and no run is in progress; `SplitRejected` and `SplitStartResets` state both sides |
| `SplitJob.Started` | video_segment_splitter/states/video_state.py:121-123 | the fields the first critical section leaves: running, progress 0, no parts, archive URL kept; used by `SplitStartResets` |
| `SplitJob.AttemptedCount` | video_segment_splitter/states/video_state.py:134-149 | how many parts the loop hands to the encoder: none without a clip, else up to and including the first failure; stated by `SplitSucceeds`, `SplitFailsAt` and `SplitClipFails` |
| `SplitJob.RunOutcome` | video_segment_splitter/states/video_state.py:124-177 | the job fields after a started run; specified by `SplitSucceeds`, `SplitCloseFails`, `SplitFailsAt` and `SplitClipFails` |
| `SplitJob.SplitOutcome` | video_segment_splitter/states/video_state.py:116-177 | the job fields after a whole call: unchanged when refused, else `RunOutcome` of the reset fields; specified by `SplitRejected`, `SplitStartResets` and the lemmas above |
| `SplitJob.CompletedFrom` | video_segment_splitter/states/video_state.py:134-149 | from part `i` on, the parts before the returned index all encode and the returned index, if below `count`, fails |
| `SplitJob.Completed` | video_segment_splitter/states/video_state.py:134-149 | the number of parts written before the first encoder failure: all earlier parts encode, the next fails |
| `SplitJob.Indices` | video_segment_splitter/states/video_state.py:134 | the parts handed to the encoder are 0, 1, … in order |
| `SplitJob.ProgressTrace` | video_segment_splitter/states/video_state.py:162-164 | the `j`-th progress value published is that of `j + 1` parts |
| `SplitJob.ProgressMonotone` | video_segment_splitter/states/video_state.py:162 | progress stays within 0..100, never falls as parts complete, is 0 with none and 100 with all |
| `SplitJob.ProgressTraceMonotone` | video_segment_splitter/states/video_state.py:162-164 | the published progress values never decrease, lie in 0..100, and end at 100 when every part is done |
| `SplitJob.TraceOfTwoOfFive` | video_segment_splitter/states/video_state.py:162-164 | two of five parts publish 20 and then 40 |
| `SplitJob.SplitRejected` | video_segment_splitter/states/video_state.py:118-120 | with no video, or a run in progress, a split changes nothing |
| `SplitJob.SplitStartResets` | video_segment_splitter/states/video_state.py:121-123 | an accepted split first sets the job running, progress 0 and no parts, and keeps the archive URL |
| `SplitJob.SplitSucceeds` | video_segment_splitter/states/video_state.py:165-169 | for any duration the clip reports, when every part encodes and the clip closes: not running, progress 100, the `count` planned records with distinct names published, archive URL cleared, all parts attempted |
| `SplitJob.SplitCloseFails` | video_segment_splitter/states/video_state.py:165-176 | when every part encodes but `clip.close()` raises: not running, progress 100, no parts published, archive URL kept, all parts attempted |
| `SplitJob.SplitFailsAt` | video_segment_splitter/states/video_state.py:171-176 | when part `k` is the first to fail: parts 0..k are attempted, the job stops at the progress of `k` parts, with no parts published and the archive URL kept |
| `SplitJob.SplitClipFails` | video_segment_splitter/states/video_state.py:124-176 | when the clip cannot be opened: no part is attempted and the job stops at progress 0 with no parts |
| `SplitJob.ThirdOfFiveFails` | video_segment_splitter/states/video_state.py:134-176 | five parts with the third failing: three parts attempted, progress 40, no parts published |
| `ArchiveJob.EntryOf` | video_segment_splitter/states/video_state.py:202 | a segment is stored under `arcname=seg.filename`, read from its path; used by `ExistingEntriesExactly` and `ArchiveNamesDistinct` |
| `ArchiveJob.AllAdded` | video_segment_splitter/states/video_state.py:199-202 | every segment whose file exists can be written; `WriteEntries` succeeds exactly when it holds |
| `ArchiveJob.ExistingEntries` | video_segment_splitter/states/video_state.py:198-202 | the entries of the segments whose file exists, in list order; at most one per segment; specified by `ExistingEntriesExactly` |
| `ArchiveJob.ArchiveName` | video_segment_splitter/states/video_state.py:190-196 | `f"{stem}_all_parts.zip"`, the stem of the loaded video or `video`; used by `ZipSucceeds` and `OneMissingOfFour` |
| `ArchiveJob.FirstUnaddedFrom` | video_segment_splitter/states/video_state.py:199-202 | from position `i` on, every existing file before the returned position can be written, and the returned position, if inside the list, is an existing file whose entry cannot be written |
| `ArchiveJob.FirstUnadded` | video_segment_splitter/states/video_state.py:199-202 | where the entry loop stops: every existing file before it can be written, and it is an existing file whose entry cannot be written, or the end of the list |
| `ArchiveJob.ExistingEntriesExactly` | video_segment_splitter/states/video_state.py:198-202 | the entries are exactly the segments whose file exists, in list order, each stored under its bare file name; missing files are skipped |
| `ArchiveJob.KeptIndicesSelect` | video_segment_splitter/states/video_state.py:199-202 | entry `p` is the entry of the segment at the `p`-th kept position |
| `ArchiveJob.KeptIndicesOrdered` | video_segment_splitter/states/video_state.py:199-201 | kept positions increase strictly, and a position is kept if and only if its file exists |
| `ArchiveJob.ArchiveNamesDistinct` | video_segment_splitter/states/video_state.py:198-202 | segments with distinct file names give archive entries with distinct names |
| `ArchiveJob.AllExistAllEntries` | video_segment_splitter/states/video_state.py:198-202 | when every file exists the archive holds every segment, in order |
| `ArchiveJob.ExistingEntriesPrefix` | video_segment_splitter/states/video_state.py:199-202 | the entries of a prefix of the segments are a prefix of the entries of all of them |
| `ArchiveJob.ZipRejected` | video_segment_splitter/states/video_state.py:183-185 | with no parts, or an archive being built, the call changes nothing and writes nothing |
| `ArchiveJob.ZipOutcome` | video_segment_splitter/states/video_state.py:179-213 | the archive fields after a call and the archive it writes; specified by `ZipRejected`, `ZipSucceeds`, `ZipNotCreated`, `ZipWriteFails` and `ZipCloseFails` |
| `ArchiveJob.ZipSucceeds` | video_segment_splitter/states/video_state.py:186-205 | a call that writes every entry and closes the archive publishes `/_upload/<stem>_all_parts.zip` and drops the flag; an entry is in the archive if and only if it belongs to a segment whose file exists |
| `ArchiveJob.ZipNotCreated` | video_segment_splitter/states/video_state.py:198 | when the archive file cannot be opened: only the building flag drops, the URL is kept and this call writes nothing |
| `ArchiveJob.ZipWriteFails` | video_segment_splitter/states/video_state.py:198-212 | when an entry cannot be written: the flag drops and the URL is kept; the archive at the path holds, in order, the entries of the existing files before the failing one, a prefix of the full list |
| `ArchiveJob.ZipCloseFails` | video_segment_splitter/states/video_state.py:198-212 | when every entry is written but closing the archive raises: the flag drops, the URL is kept, and every existing file was written to the archive at the path |
| `ArchiveJob.OneMissingEntries` | video_segment_splitter/states/video_state.py:199-202 | of four segments with the third file missing, the other three are stored in order |
| `ArchiveJob.OneMissingOfFour` | video_segment_splitter/states/video_state.py:190-205 | that job with no video loaded succeeds as `/_upload/video_all_parts.zip` holding the three existing parts |
| `VideoStates.NewSegmentCount` | video_segment_splitter/states/video_state.py:56-63 | the count after `set_segment_count(text)`; specified by `SegmentCountValidation`, `SegmentCountFromNumber`, `SegmentCountIgnoresLongText` and `SegmentCountIgnoresSeparator` |
| `VideoStates.SegmentCountValidation` | video_segment_splitter/states/video_state.py:56-63 | text that `int()` reads as an integer in 1..20 sets the count to it, and the count changes only so; non-integers and out-of-range values leave it; a valid count stays valid |
| `VideoStates.SegmentCountFromNumber` | video_segment_splitter/states/video_state.py:56-63 | setting the count from the text `str` writes for a number accepts exactly 1..20 |
| `VideoStates.SegmentCountIgnoresLongText` | video_segment_splitter/states/video_state.py:58-63 | text of 4300 zeros and a 5 leaves the count unchanged, because `int()` refuses it |
| `VideoStates.SegmentCountIgnoresSeparator` | video_segment_splitter/states/video_state.py:58-63 | the text `"\x1c5"` leaves the count unchanged, because `int()` refuses it |
| `VideoStates.MetadataOf` | video_segment_splitter/states/video_state.py:82-97 | the metadata record of a readable upload: name, duration, its clock text, `<w>x<h>`, size text and stored path; used by `UploadKeepsLastReadable` |
| `VideoStates.MetadataAfterUpload` | video_segment_splitter/states/video_state.py:69-97 | the metadata after an upload; specified by `UploadKeepsLastReadable`, `UploadWithoutReadableFile` and `UploadGivesVideo` |
| `VideoStates.UploadKeepsLastReadable` | video_segment_splitter/states/video_state.py:69-97 | the last readable file of an upload decides the metadata, and its duration text reads back as the truncated seconds |
| `VideoStates.UploadWithoutReadableFile` | video_segment_splitter/states/video_state.py:81-103 | when no uploaded file can be read as a clip the metadata is left as it was |
| `VideoStates.UploadGivesVideo` | video_segment_splitter/states/video_state.py:69-97 | after an upload there is a video exactly when there was one before or some uploaded file could be read |
| `VideoStates.VideoState.constructor` | video_segment_splitter/states/video_state.py:27-37 | the initial field values (count 5, nothing loaded, no job running); the state invariant holds |
| `VideoStates.VideoState.HasVideo` | video_segment_splitter/states/video_state.py:39-41 | whether a video is loaded; `ClearVideo` makes it false, and `HandleUpload` makes it true exactly when it was true or some file could be read |
| `VideoStates.VideoState.SegmentDurationFormatted` | video_segment_splitter/states/video_state.py:43-54 | `00:00:00` without a video or with a non-positive count; otherwise, for a non-negative duration, the text reads back as the whole seconds of `duration / count` |
| `VideoStates.VideoState.SetSegmentCount` | video_segment_splitter/states/video_state.py:56-63 | the new count is the validated value of the text; only the count changes |
| `VideoStates.VideoState.ClearVideo` | video_segment_splitter/states/video_state.py:107-110 | the video is forgotten (`HasVideo` is false) and the upload progress reset; the parts and the archive URL stay |
| `VideoStates.VideoState.ToggleDrag` | video_segment_splitter/states/video_state.py:112-114 | the drag flag flips; the state invariant holds |
| `VideoStates.VideoState.HandleUpload` | video_segment_splitter/states/video_state.py:65-105 | uploading ends not uploading, at 100 percent, with the metadata of the last readable file or the earlier metadata; there is a video exactly when there was one or some file could be read |
| `VideoStates.VideoState.BeginSplit` | video_segment_splitter/states/video_state.py:118-123 | the job starts exactly when a video is loaded and no run is in progress, and then resets progress and parts |
| `VideoStates.VideoState.EncodeParts` | video_segment_splitter/states/video_state.py:134-164 | from progress 0, the loop writes the first `Completed` planned records in order and stops at the first failure; it ends at their progress, having attempted 0..k and published the trace |
| `VideoStates.VideoState.RunSplit` | video_segment_splitter/states/video_state.py:124-177 | the fields after a started run equal `RunOutcome`, the clip close included; lists the parts attempted and the progress published |
| `VideoStates.VideoState.SplitVideo` | video_segment_splitter/states/video_state.py:116-177 | the job fields after the call equal `SplitOutcome` of the old ones; lists the parts attempted and the progress published; the invariant holds |
| `VideoStates.VideoState.WriteEntries` | video_segment_splitter/states/video_state.py:198-202 | the entry loop succeeds exactly when every due entry can be written, and then writes exactly `ExistingEntries`; otherwise it has written the entries before the first that fails |
| `VideoStates.VideoState.CreateZipDownload` | video_segment_splitter/states/video_state.py:179-213 | the archive fields and the archive this call writes (none, partial or complete) equal `ZipOutcome` of the old state, the close of the archive included |
| `Uptime.UptimeSeconds` | video_segment_splitter/states/system_state.py:24-25 | `int(time.time() - boot_time)`, truncated toward zero; used by `SystemStates.CollectedUptimeReadsBack` |
| `Uptime.Decompose` | video_segment_splitter/states/system_state.py:25-29 | days, hours, minutes and seconds add up to the uptime, with hours below 24 and minutes and seconds below 60 |
| `Uptime.DecomposeUnique` | video_segment_splitter/states/system_state.py:25-29 | any split into in-range parts that adds up to the uptime is the one computed |
| `Uptime.UptimeExample` | video_segment_splitter/states/system_state.py:25-29 | 90061 seconds is 1 day 1:01:01; 86399 seconds is 0 days 23:59:59 |
| `Uptime.UptimeString` | video_segment_splitter/states/system_state.py:26-44 | `f"{days} days, {hours:02d}:{minutes:02d}:{seconds:02d}"` of the decomposed uptime; specified by `UptimeStringRoundTrip` |
| `Uptime.ParseUptimePieces` | video_segment_splitter/states/system_state.py:44 | reading `<days> days, <clock>` combines what the day count and the clock read as |
| `Uptime.UptimeStringRoundTrip` | video_segment_splitter/states/system_state.py:44 | the uptime text reads back as the uptime in seconds, whenever `str` can write the day count |
| `SystemStates.CollectStats` | video_segment_splitter/states/system_state.py:11-45 | the dictionary built from one host reading; specified by `CollectedUptimeReadsBack` |
| `SystemStates.CollectedUptimeReadsBack` | video_segment_splitter/states/system_state.py:11-45 | a collection's uptime text reads back as `int(now - boot_time)`; the task count is the number of processes |
| `SystemStates.OpenRun` | video_segment_splitter/states/system_state.py:91-96 | the passes that find the dialog open before the first that finds it closed |
| `SystemStates.SystemState.constructor` | video_segment_splitter/states/system_state.py:48-62 | the dialog starts closed and every statistic starts at its default |
| `SystemStates.SystemState.ToggleSystemModal` | video_segment_splitter/states/system_state.py:64-69 | the dialog flips, and the refresh loop is requested exactly when it opens |
| `SystemStates.SystemState.CloseSystemModal` | video_segment_splitter/states/system_state.py:71-73 | the dialog is closed |
| `SystemStates.SystemState.ApplyStats` | video_segment_splitter/states/system_state.py:99-113 | every shown statistic is the dictionary's value |
| `SystemStates.SystemState.RefreshTick` | video_segment_splitter/states/system_state.py:93-96 | with the dialog closed the loop ends and nothing changes; otherwise the reading is shown and the loop goes on |
| `SystemStates.SystemState.RefreshOnce` | video_segment_splitter/states/system_state.py:80-85 | the statistics shown are those collected from the reading |
| `SystemStates.SystemState.AutoRefresh` | video_segment_splitter/states/system_state.py:87-97 | readings are collected and shown while the dialog stays open; the loop ends at the first pass that finds it closed, showing the statistics collected from the last reading taken while open, whose uptime text reads back as that reading's uptime |

## Left out

- Clip reading, encoding and zip writing are moviepy, ffmpeg and
  `zipfile` calls. The model has only their outcomes, as parameters. The
  codec options and the temporary audio files are not modelled.
- `upload_dir` is a parameter: `rx.get_upload_dir()` and `mkdir` are
  framework and file-system calls. Reading and storing the uploaded bytes
  is left out too. A stored file's path is an input.
- The random ten-character prefix added to stored upload names is left
  out, because it is randomness.
- `VideoStates.VideoState.HandleUpload`: exceptions raised outside the `try` block
  (reading or writing the uploaded bytes) are not modelled. In the source
  such an error leaves `is_uploading` true.
- `VideoStates.VideoState.HandleUpload`: if `clip.close()` raises after the metadata
  is assigned, the source keeps that metadata. The model counts the file as
  either readable or not.
- The program's own f-strings format sizes, memory and load averages as
  `:.1f` and `:.2f` (`video_segment_splitter/states/video_state.py:89`,
  `video_segment_splitter/states/system_state.py:34-42`). The model does not
  round floats, so it takes that text as given (`ClipInfo.sizeMb` and the
  `HostSample` strings).
- `Decimal.IntToString` does not model the `ValueError` that `str()` raises on
  an integer of more than 4300 digits. The lemmas that read its text back
  require the integer to be within that limit.
- The model does not represent IEEE floats. Durations, range ends and
  `seg_len` are exact reals, so the `min` clamp never applies for a
  non-negative duration in the model.
- Concurrency between events is left out. A job's critical sections run in
  order with no other event in between, and the values the job reads in
  its second section are those the first section saw. The only
  interleaving modelled is the dialog state that each pass of the refresh
  loop sees, through `openAtTick`.
- `SystemStates.SystemState.AutoRefresh`: the loop has no end in the
  source. The model runs it over a finite sequence of readings and leaves
  out the two-second sleep.
- The psutil sampling and `time.time()` are inputs (`HostSample`). The
  priming call at import time is left out.
- `refresh_stats` returns the `auto_refresh_once` event and does nothing
  else. `RefreshOnce` models that event.
- Toasts, logging and the exception messages they show are left out.
- Closing the clip on the error path is left out: the source does not
  close it there, and the model has no resources.
- `SegmentPlan.Stem` follows the `Path.stem` rule for names that use `/`
  separators: the text after the last `/`, cut at the last dot unless that
  dot starts or ends the name. Trailing separators, `.` and `..` components,
  and Windows paths are left out.
- `Decimal.ParseInt` accepts ASCII digits and ASCII white space only
  (space, and tab to carriage return; not the separators `\x1c`..`\x1f`,
  which `int()` does not skip either). Python's `int()` also accepts Unicode
  digits and non-ASCII Unicode white space.
- The UI components and the page layout are left out; they are view code.
