/**
  `load_annotation_file`: the annotation TSV lists every image together with
  its segmentation mask; the manifest keeps the images only (file names not
  ending in `_SEG.nii.gz`), in file order, as `(filename, series_submitter_id)`.
*/
module Manifest {
  import opened Wrappers
  import opened Strings
  import opened Records
  import opened FileSystem

  const SegmentationSuffix: string := "_SEG.nii.gz"

  const AnnotationFileName: string := "annotation_file_RSNA_20250321.tsv"

  function AnnotationPath(structuredDir: Path): Path {
    Join(structuredDir, AnnotationFileName)
  }

  /**
    The filter `~file_name.str.ends_with("_SEG.nii.gz")`: a null file name
    makes the predicate null, and the filter drops the row.
  */
  predicate Kept(row: AnnotationRow) {
    row.fileName.Some? && !EndsWith(row.fileName.value, SegmentationSuffix)
  }

  /** The select: `file_name` as `filename`, `mr_series_files.submitter_id` as `series_submitter_id`. */
  function EntryOf(row: AnnotationRow): ManifestEntry
    requires Kept(row)
  {
    ManifestEntry(row.fileName.value, row.seriesFilesSubmitterId)
  }

  function Entries(rows: seq<AnnotationRow>): seq<ManifestEntry> {
    if rows == [] then []
    else
      var n := |rows| - 1;
      Entries(rows[..n]) + if Kept(rows[n]) then [EntryOf(rows[n])] else []
  }

  /** Reads the annotation TSV under `structuredDir` and filters it to image files. */
  function LoadAnnotationFile(s: FsState, structuredDir: Path): (r: Result<seq<ManifestEntry>, VolumeError>)
    ensures !PathExists(s, AnnotationPath(structuredDir)) ==> r == Failure(AnnotationFileNotFound(AnnotationPath(structuredDir)))
    ensures r.Success? <==> TsvAt(s, AnnotationPath(structuredDir)).Some?
    ensures r.Success? ==> r.value == Entries(TsvAt(s, AnnotationPath(structuredDir)).value)
  {
    var path := AnnotationPath(structuredDir);
    if !PathExists(s, path) then Failure(AnnotationFileNotFound(path))
    else match TsvAt(s, path)
      case None => Failure(AnnotationFileUnreadable(path))
      case Some(rows) => Success(Entries(rows))
  }

  /** Filtering distributes over concatenation: the kept rows keep their file order. */
  lemma {:induction false} EntriesAppend(a: seq<AnnotationRow>, b: seq<AnnotationRow>)
    ensures Entries(a + b) == Entries(a) + Entries(b)
  {
    if b == [] {
      assert a + b == a;
    } else {
      var n := |b| - 1;
      assert (a + b)[..|a| + n] == a + b[..n];
      assert (a + b)[|a| + n] == b[n];
      EntriesAppend(a, b[..n]);
    }
  }

  /** No manifest entry names a segmentation file. */
  lemma {:induction false} EntriesExcludeSegmentations(rows: seq<AnnotationRow>)
    ensures forall e | e in Entries(rows) :: !EndsWith(e.filename, SegmentationSuffix)
  {
    if rows != [] {
      EntriesExcludeSegmentations(rows[..|rows| - 1]);
    }
  }

  /**
    An entry is in the manifest exactly when some row with a non-null,
    non-segmentation file name projects to it.
  */
  lemma {:induction false} EntriesMembership(rows: seq<AnnotationRow>)
    ensures forall e | e in Entries(rows) :: exists row | row in rows && Kept(row) :: EntryOf(row) == e
    ensures forall row | row in rows && Kept(row) :: EntryOf(row) in Entries(rows)
  {
    if rows != [] {
      var n := |rows| - 1;
      EntriesMembership(rows[..n]);
      assert rows == rows[..n] + [rows[n]];
      forall e | e in Entries(rows) ensures exists row | row in rows && Kept(row) :: EntryOf(row) == e {
        if e in Entries(rows[..n]) {
          var row :| row in rows[..n] && Kept(row) && EntryOf(row) == e;
          assert row in rows;
        } else {
          assert rows[n] in rows;
        }
      }
    }
  }

  /** A row is dropped exactly when its file name is null or a segmentation's. */
  lemma {:induction false} EntriesCount(rows: seq<AnnotationRow>)
    ensures |Entries(rows)| <= |rows|
    ensures |Entries(rows)| == |rows| <==> forall i | 0 <= i < |rows| :: Kept(rows[i])
  {
    if rows != [] {
      var n := |rows| - 1;
      EntriesCount(rows[..n]);
      if forall i | 0 <= i < |rows| :: Kept(rows[i]) {
        assert forall i | 0 <= i < n :: Kept(rows[..n][i]) by {
          forall i | 0 <= i < n ensures Kept(rows[..n][i]) {
            assert rows[..n][i] == rows[i];
          }
        }
      } else if Kept(rows[n]) {
        var i :| 0 <= i < |rows| && !Kept(rows[i]);
        assert rows[..n][i] == rows[i];
      }
    }
  }
}
