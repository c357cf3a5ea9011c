/** The two plain records of the video state. */
module VideoRecords {
  /** One uploaded source video, replaced wholesale on each upload. */
  datatype VideoMetadata = VideoMetadata(
    filename: string,
    durationRaw: real,
    durationFormatted: string,
    resolution: string,
    fileSizeMb: string,
    filePath: string)

  /** One produced segment file and where it can be downloaded. */
  datatype VideoSegment = VideoSegment(
    filename: string,
    durationFormatted: string,
    filePath: string,
    downloadUrl: string)

  /** No two segments of a list share a file name. */
  predicate DistinctNames(segments: seq<VideoSegment>)
  {
    forall i, j :: 0 <= i < j < |segments| ==> segments[i].filename != segments[j].filename
  }
}
