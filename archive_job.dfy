/**
 * What one run of the archive job does: which entries go into the archive,
 * under which names, and what the job's fields are afterwards, as a
 * function of the state before it and of the outcomes of the file-system
 * calls (does a file exist, can the archive be created, can an entry be
 * written, does closing the archive succeed).
 */
module ArchiveJob {
  import opened Wrappers
  import opened VideoRecords
  import opened SegmentPlan

  /** One member of the archive: the name it is stored under and the file it is read from. */
  datatype ArchiveEntry = ArchiveEntry(arcname: string, source: string)

  /** The archive a call writes: its name, its path and the entries written to it, in order. */
  datatype Archive = Archive(name: string, path: string, entries: seq<ArchiveEntry>)

  /** The fields the archive job reads and writes. */
  datatype ZipView = ZipView(isZipping: bool, zipUrl: string)

  datatype ZipResult = ZipResult(view: ZipView, archive: Option<Archive>)

  /** A segment is stored under its bare file name, not its path. */
  function EntryOf(seg: VideoSegment): ArchiveEntry
  {
    ArchiveEntry(seg.filename, seg.filePath)
  }

  /** The entries for the segments whose file exists, in list order. */
  function ExistingEntries(segments: seq<VideoSegment>, fileExists: string -> bool): (r: seq<ArchiveEntry>)
    ensures |r| <= |segments|
  {
    if segments == [] then []
    else
      var last := segments[|segments| - 1];
      ExistingEntries(segments[..|segments| - 1], fileExists) + (if fileExists(last.filePath) then [EntryOf(last)] else [])
  }

  /** The positions of the segments whose file exists, in increasing order. */
  function KeptIndices(segments: seq<VideoSegment>, fileExists: string -> bool): seq<nat>
  {
    if segments == [] then []
    else
      var n := |segments| - 1;
      KeptIndices(segments[..n], fileExists) + (if fileExists(segments[n].filePath) then [n] else [])
  }

  /** `f"{stem}_all_parts.zip"`, the stem being "video" when no source is loaded. */
  function ArchiveName(meta: Option<VideoMetadata>): string
  {
    (if meta.Some? then Stem(meta.value.filename) else "video") + "_all_parts.zip"
  }

  /** Every entry that is due to be written can be written. */
  predicate AllAdded(segments: seq<VideoSegment>, fileExists: string -> bool, added: nat -> bool)
  {
    forall j :: 0 <= j < |segments| && fileExists(segments[j].filePath) ==> added(j)
  }

  /** The first position from i on whose file exists but whose entry cannot be written (the length when none). */
  function FirstUnaddedFrom(segments: seq<VideoSegment>, fileExists: string -> bool, added: nat -> bool, i: nat): (f: nat)
    requires i <= |segments|
    ensures i <= f <= |segments|
    ensures forall j :: i <= j < f && fileExists(segments[j].filePath) ==> added(j)
    ensures f < |segments| ==> fileExists(segments[f].filePath) && !added(f)
    decreases |segments| - i
  {
    if i == |segments| then i
    else if fileExists(segments[i].filePath) && !added(i) then i
    else FirstUnaddedFrom(segments, fileExists, added, i + 1)
  }

  /** Where the entry loop stops: the first segment whose file exists and whose entry cannot be written. */
  function FirstUnadded(segments: seq<VideoSegment>, fileExists: string -> bool, added: nat -> bool): (f: nat)
    ensures f <= |segments|
    ensures forall j :: 0 <= j < f && fileExists(segments[j].filePath) ==> added(j)
    ensures f < |segments| ==> fileExists(segments[f].filePath) && !added(f)
  {
    FirstUnaddedFrom(segments, fileExists, added, 0)
  }

  /**
   * A whole call of the archive job: its fields afterwards and the archive
   * it writes (`None` when it writes nothing). Once the archive file is
   * open, leaving the `with` block closes it and keeps what was written, so
   * an entry that cannot be written leaves an archive of the entries before
   * it. `closes` is whether that close succeeds after every entry has been
   * written; when it raises, the job fails like a failed write.
   */
  function ZipOutcome(before: ZipView, segments: seq<VideoSegment>, meta: Option<VideoMetadata>, uploadDir: string,
                      fileExists: string -> bool, created: bool, added: nat -> bool, closes: bool): ZipResult
  {
    if |segments| == 0 || before.isZipping then ZipResult(before, None)
    else
      var name := ArchiveName(meta);
      var path := JoinPath(uploadDir, name);
      if !created then ZipResult(ZipView(false, before.zipUrl), None)
      else if !AllAdded(segments, fileExists, added) then
        var f := FirstUnadded(segments, fileExists, added);
        ZipResult(ZipView(false, before.zipUrl), Some(Archive(name, path, ExistingEntries(segments[..f], fileExists))))
      else if !closes then
        ZipResult(ZipView(false, before.zipUrl), Some(Archive(name, path, ExistingEntries(segments, fileExists))))
      else
        ZipResult(ZipView(false, UploadUrl(name)), Some(Archive(name, path, ExistingEntries(segments, fileExists))))
  }

  // ---------------------------------------------------------------------
  // Properties

  /** Entry p is the entry of the segment at the p-th kept position. */
  lemma {:induction false} KeptIndicesSelect(segments: seq<VideoSegment>, fileExists: string -> bool)
    ensures var e, k := ExistingEntries(segments, fileExists), KeptIndices(segments, fileExists);
      && |e| == |k|
      && forall p :: 0 <= p < |k| ==> k[p] < |segments| && e[p] == EntryOf(segments[k[p]])
  {
    if segments != [] {
      var n := |segments| - 1;
      var init := segments[..n];
      KeptIndicesSelect(init, fileExists);
      var k0 := KeptIndices(init, fileExists);
      assert forall p :: 0 <= p < |k0| ==> init[k0[p]] == segments[k0[p]];
    }
  }

  /** The kept positions increase strictly, and a position is kept exactly when its file exists. */
  lemma {:induction false} KeptIndicesOrdered(segments: seq<VideoSegment>, fileExists: string -> bool)
    ensures var k := KeptIndices(segments, fileExists);
      && (forall p :: 0 <= p < |k| ==> k[p] < |segments|)
      && (forall p, q :: 0 <= p < q < |k| ==> k[p] < k[q])
      && (forall j :: 0 <= j < |segments| ==> (j in k <==> fileExists(segments[j].filePath)))
  {
    if segments != [] {
      var n := |segments| - 1;
      var init := segments[..n];
      KeptIndicesOrdered(init, fileExists);
      var k0 := KeptIndices(init, fileExists);
      var k := KeptIndices(segments, fileExists);
      forall j | 0 <= j < |segments|
        ensures j in k <==> fileExists(segments[j].filePath)
      {
        if j < n {
          assert init[j] == segments[j];
        } else {
          assert n !in k0;
        }
      }
    }
  }

  /**
   * The entries are exactly the segments whose file exists, each under its
   * file name, in the order of the segment list; missing files are skipped.
   */
  lemma ExistingEntriesExactly(segments: seq<VideoSegment>, fileExists: string -> bool)
    ensures var e, k := ExistingEntries(segments, fileExists), KeptIndices(segments, fileExists);
      && |e| == |k|
      && (forall p :: 0 <= p < |k| ==> k[p] < |segments| && e[p] == EntryOf(segments[k[p]]))
      && (forall p, q :: 0 <= p < q < |k| ==> k[p] < k[q])
      && (forall j :: 0 <= j < |segments| ==> (j in k <==> fileExists(segments[j].filePath)))
  {
    KeptIndicesSelect(segments, fileExists);
    KeptIndicesOrdered(segments, fileExists);
  }

  /** Segments with distinct file names give entries with distinct names. */
  lemma ArchiveNamesDistinct(segments: seq<VideoSegment>, fileExists: string -> bool)
    requires DistinctNames(segments)
    ensures var e := ExistingEntries(segments, fileExists);
      forall p, q :: 0 <= p < q < |e| ==> e[p].arcname != e[q].arcname
  {
    ExistingEntriesExactly(segments, fileExists);
  }

  /** When every file exists the archive holds every segment, in order. */
  lemma {:induction false} AllExistAllEntries(segments: seq<VideoSegment>, fileExists: string -> bool)
    requires forall j :: 0 <= j < |segments| ==> fileExists(segments[j].filePath)
    ensures ExistingEntries(segments, fileExists) == seq(|segments|, j requires 0 <= j < |segments| => EntryOf(segments[j]))
  {
    if segments != [] {
      var n := |segments| - 1;
      var init := segments[..n];
      assert forall j :: 0 <= j < n ==> init[j] == segments[j];
      AllExistAllEntries(init, fileExists);
    }
  }

  /** A call with no segments, or while an archive is being built, changes nothing and writes nothing. */
  lemma ZipRejected(before: ZipView, segments: seq<VideoSegment>, meta: Option<VideoMetadata>, uploadDir: string,
                    fileExists: string -> bool, created: bool, added: nat -> bool, closes: bool)
    requires |segments| == 0 || before.isZipping
    ensures ZipOutcome(before, segments, meta, uploadDir, fileExists, created, added, closes) == ZipResult(before, None)
  {
  }

  /**
   * A call in which every entry is written and the archive closes publishes
   * `/_upload/<stem>_all_parts.zip`, drops the building flag and writes an
   * archive of exactly the existing segment files.
   */
  lemma ZipSucceeds(before: ZipView, segments: seq<VideoSegment>, meta: Option<VideoMetadata>, uploadDir: string,
                    fileExists: string -> bool, added: nat -> bool)
    requires |segments| > 0 && !before.isZipping && AllAdded(segments, fileExists, added)
    ensures var r := ZipOutcome(before, segments, meta, uploadDir, fileExists, true, added, true);
      && r.view == ZipView(false, "/_upload/" + ArchiveName(meta))
      && r.archive.Some?
      && r.archive.value.path == JoinPath(uploadDir, ArchiveName(meta))
      && (forall e :: e in r.archive.value.entries <==>
            exists j :: 0 <= j < |segments| && fileExists(segments[j].filePath) && e == EntryOf(segments[j]))
  {
    var e, k := ExistingEntries(segments, fileExists), KeptIndices(segments, fileExists);
    ExistingEntriesExactly(segments, fileExists);
    forall x
      ensures x in e <==> exists j :: 0 <= j < |segments| && fileExists(segments[j].filePath) && x == EntryOf(segments[j])
    {
      if x in e {
        var p :| 0 <= p < |e| && e[p] == x;
        assert k[p] in k;
      }
      if j :| 0 <= j < |segments| && fileExists(segments[j].filePath) && x == EntryOf(segments[j]) {
        var p :| 0 <= p < |k| && k[p] == j;
        assert e[p] == x;
      }
    }
  }

  /**
   * A call whose archive file cannot be opened only drops the building flag
   * and writes nothing: an archive left at the path by an earlier call,
   * which the kept URL may name, is untouched.
   */
  lemma ZipNotCreated(before: ZipView, segments: seq<VideoSegment>, meta: Option<VideoMetadata>, uploadDir: string,
                      fileExists: string -> bool, added: nat -> bool, closes: bool)
    requires |segments| > 0 && !before.isZipping
    ensures ZipOutcome(before, segments, meta, uploadDir, fileExists, false, added, closes) == ZipResult(ZipView(false, before.zipUrl), None)
  {
  }

  /**
   * A call in which the entry for some existing file cannot be written
   * drops the building flag and keeps the old URL; the archive left at the
   * path holds, in order, the entries of the existing files before the
   * first one that failed, which is itself not in it.
   */
  lemma ZipWriteFails(before: ZipView, segments: seq<VideoSegment>, meta: Option<VideoMetadata>, uploadDir: string,
                      fileExists: string -> bool, added: nat -> bool, closes: bool)
    requires |segments| > 0 && !before.isZipping && !AllAdded(segments, fileExists, added)
    ensures var r, f := ZipOutcome(before, segments, meta, uploadDir, fileExists, true, added, closes),
                        FirstUnadded(segments, fileExists, added);
      && r.view == ZipView(false, before.zipUrl)
      && r.archive.Some?
      && r.archive.value.path == JoinPath(uploadDir, ArchiveName(meta))
      && f < |segments| && fileExists(segments[f].filePath) && !added(f)
      && r.archive.value.entries == ExistingEntries(segments[..f], fileExists)
      && r.archive.value.entries <= ExistingEntries(segments, fileExists)
  {
    var f := FirstUnadded(segments, fileExists, added);
    ExistingEntriesPrefix(segments, fileExists, f);
  }

  /**
   * A call in which every entry is written but closing the archive raises
   * drops the building flag and keeps the old URL; every existing file was
   * written to the archive at the path before the close failed.
   */
  lemma ZipCloseFails(before: ZipView, segments: seq<VideoSegment>, meta: Option<VideoMetadata>, uploadDir: string,
                      fileExists: string -> bool, added: nat -> bool)
    requires |segments| > 0 && !before.isZipping && AllAdded(segments, fileExists, added)
    ensures var r := ZipOutcome(before, segments, meta, uploadDir, fileExists, true, added, false);
      && r.view == ZipView(false, before.zipUrl)
      && r.archive == Some(Archive(ArchiveName(meta), JoinPath(uploadDir, ArchiveName(meta)), ExistingEntries(segments, fileExists)))
  {
  }

  /** The entries of a prefix of the segments are a prefix of the entries of all of them. */
  lemma {:induction false} ExistingEntriesPrefix(segments: seq<VideoSegment>, fileExists: string -> bool, k: nat)
    requires k <= |segments|
    ensures ExistingEntries(segments[..k], fileExists) <= ExistingEntries(segments, fileExists)
    decreases |segments|
  {
    if k < |segments| {
      var n := |segments| - 1;
      var init := segments[..n];
      assert init[..k] == segments[..k];
      ExistingEntriesPrefix(init, fileExists, k);
    } else {
      assert segments[..k] == segments;
    }
  }

  /** The missing third file is skipped; the others keep their order. */
  lemma OneMissingEntries(a: VideoSegment, b: VideoSegment, c: VideoSegment, d: VideoSegment, fileExists: string -> bool)
    requires fileExists(a.filePath) && fileExists(b.filePath) && !fileExists(c.filePath) && fileExists(d.filePath)
    ensures ExistingEntries([a, b, c, d], fileExists) == [EntryOf(a), EntryOf(b), EntryOf(d)]
  {
    assert [a, b, c, d][..3] == [a, b, c];
    assert [a, b, c][..2] == [a, b];
    assert [a, b][..1] == [a];
    assert ExistingEntries([a], fileExists) == [EntryOf(a)];
    assert ExistingEntries([a, b], fileExists) == [EntryOf(a), EntryOf(b)];
    assert ExistingEntries([a, b, c], fileExists) == [EntryOf(a), EntryOf(b)];
  }

  /** Three existing files and one missing: the archive holds the three and the job succeeds. */
  lemma OneMissingOfFour(a: VideoSegment, b: VideoSegment, c: VideoSegment, d: VideoSegment,
                         fileExists: string -> bool, added: nat -> bool)
    requires fileExists(a.filePath) && fileExists(b.filePath) && !fileExists(c.filePath) && fileExists(d.filePath)
    requires added(0) && added(1) && added(3)
    ensures var r := ZipOutcome(ZipView(false, ""), [a, b, c, d], None, "up", fileExists, true, added, true);
      && r.view == ZipView(false, "/_upload/video_all_parts.zip")
      && r.archive.Some?
      && r.archive.value.entries == [EntryOf(a), EntryOf(b), EntryOf(d)]
  {
    var s := [a, b, c, d];
    OneMissingEntries(a, b, c, d, fileExists);
    assert ArchiveName(None) == "video_all_parts.zip";
    assert UploadUrl("video_all_parts.zip") == "/_upload/video_all_parts.zip";
    assert AllAdded(s, fileExists, added) by {
      forall j | 0 <= j < 4 && fileExists(s[j].filePath) ensures added(j) {
        assert j != 2;
      }
    }
  }
}
