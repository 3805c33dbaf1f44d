/**
  The records the volume pipeline reads and produces: rows of the annotation
  TSV, the manifest entries derived from them, the per-volume property rows,
  the per-file failure records, and the errors the pipeline raises.
*/
module Records {
  import opened Wrappers

  type Path = string

  /** One row of the annotation TSV: its `file_name` and `mr_series_files.submitter_id` cells (null allowed). */
  datatype AnnotationRow = AnnotationRow(fileName: Option<string>, seriesFilesSubmitterId: Option<string>)

  /** One image of the manifest: `filename` and the `series_submitter_id` it belongs to. */
  datatype ManifestEntry = ManifestEntry(filename: string, seriesSubmitterId: Option<string>)

  /**
    One row of the volume-property table. Voxel counts are Python ints;
    spacings, physical sizes and ratios are modelled as exact reals.
  */
  datatype VolumeRow = VolumeRow(
    filename: string,
    seriesSubmitterId: Option<string>,
    width: int,
    height: int,
    nSlices: int,
    totalVoxels: int,
    spacingX: real,
    spacingY: real,
    spacingZ: real,
    physicalWidth: real,
    physicalHeight: real,
    physicalDepth: real,
    physicalVolume: real,
    aspectRatioXy: real,
    aspectRatioXz: real,
    aspectRatioYz: real)

  /** A `(filename, reason)` pair of `failed_files`. */
  datatype FailedFile = FailedFile(filename: string, reason: string)

  /** The exceptions that end a volume-property run. */
  datatype VolumeError =
    | AnnotationFileNotFound(path: Path)       // raised by load_annotation_file
    | AnnotationFileUnreadable(path: Path)     // read_csv cannot parse the TSV
    | AnnotationDirNotFound(dir: Path)
    | NoSuchFile(path: Path)                   // stat() of the TSV during the cache check
    | NoPropertiesExtracted                    // every file failed
}
