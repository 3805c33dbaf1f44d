/**
  The part of the filesystem the volume pipeline touches: files with a
  modification time and a content, and directories. A file's content is
  given by what the readers the pipeline calls make of it: the annotation
  TSV's rows, a NIfTI header (shape and zooms), a Parquet table of volume
  rows, or bytes none of them can parse. Directories have a modification
  time too, since `stat` succeeds on them.
*/
module FileSystem {
  import opened Wrappers
  import opened Records

  datatype Data =
    | AnnotationTsv(annotationRows: seq<AnnotationRow>)
    | NiftiImage(shape: seq<int>, zooms: seq<real>)
    | ParquetTable(volumeRows: seq<VolumeRow>)
    | Unreadable(message: string)   // the message the header reader raises on these bytes

  datatype File = File(mtime: int, data: Data)

  /** The files, and the directories with their modification times. */
  datatype FsState = FsState(files: map<Path, File>, dirs: map<Path, int>)

  /** What loading a NIfTI header yields: its shape and zooms, or the exception's message. */
  datatype HeaderRead = Header(shape: seq<int>, zooms: seq<real>) | LoadError(message: string)

  /** `dir / name` for a bare file name. */
  function Join(dir: Path, name: string): (p: Path)
    ensures |p| == |dir| + 1 + |name| && p[..|dir|] == dir && p[|dir|] == '/' && p[|dir| + 1..] == name
  {
    dir + "/" + name
  }

  /** `Path.exists()`: true of files and of directories. */
  predicate PathExists(s: FsState, p: Path) {
    p in s.files || p in s.dirs
  }

  /** `stat().st_mtime`: a file's or a directory's modification time, or None where `stat` raises FileNotFoundError. */
  function MTimeOf(s: FsState, p: Path): (t: Option<int>)
    ensures t.Some? <==> PathExists(s, p)
    ensures p in s.files ==> t == Some(s.files[p].mtime)
    ensures p !in s.files && p in s.dirs ==> t == Some(s.dirs[p])
  {
    if p in s.files then Some(s.files[p].mtime)
    else if p in s.dirs then Some(s.dirs[p])
    else None
  }

  /** The directories after `mkdir(exist_ok=True)` at time `now`: an existing directory is left as it is. */
  function WithDir(dirs: map<Path, int>, p: Path, now: int): (r: map<Path, int>)
    ensures p in r && r.Keys == dirs.Keys + {p}
    ensures forall q | q in dirs :: r[q] == dirs[q]
    ensures p !in dirs ==> r[p] == now
  {
    if p in dirs then dirs else dirs[p := now]
  }

  /** The message with which the header reader rejects a path whose type it cannot tell. */
  function UnknownTypeMessage(p: Path): string {
    "Cannot work out file type of \"" + p + "\""
  }

  /** The header reader as an oracle over the filesystem. */
  function HeaderOf(s: FsState, p: Path): (h: HeaderRead)
    ensures p in s.files && s.files[p].data.NiftiImage? ==>
              h == Header(s.files[p].data.shape, s.files[p].data.zooms)
    ensures !(p in s.files && s.files[p].data.NiftiImage?) ==> h.LoadError?
  {
    if p !in s.files then LoadError(UnknownTypeMessage(p))
    else match s.files[p].data
      case NiftiImage(shape, zooms) => Header(shape, zooms)
      case Unreadable(message) => LoadError(message)
      case _ => LoadError(UnknownTypeMessage(p))
  }

  /** What `read_parquet` yields for a path, or None when it raises. */
  function ParquetAt(s: FsState, p: Path): (r: Option<seq<VolumeRow>>)
    ensures r.Some? <==> p in s.files && s.files[p].data.ParquetTable?
  {
    if p in s.files && s.files[p].data.ParquetTable? then Some(s.files[p].data.volumeRows) else None
  }

  /** What `read_csv(path, separator="\t")` yields for a path, or None when it raises. */
  function TsvAt(s: FsState, p: Path): (r: Option<seq<AnnotationRow>>)
    ensures r.Some? <==> p in s.files && s.files[p].data.AnnotationTsv?
  {
    if p in s.files && s.files[p].data.AnnotationTsv? then Some(s.files[p].data.annotationRows) else None
  }

  /**
    The filesystem as the pipeline mutates it. `headerReads` records, in order, the
    paths whose header was read, so that a run can be shown not to read any.
  */
  class Disk {
    var files: map<Path, File>
    var dirs: map<Path, int>
    ghost var headerReads: seq<Path>

    function State(): FsState
      reads this`files, this`dirs
    {
      FsState(files, dirs)
    }

    constructor (s: FsState)
      ensures State() == s && headerReads == []
    {
      files := s.files;
      dirs := s.dirs;
      headerReads := [];
    }

    method Exists(p: Path) returns (b: bool)
      ensures b == PathExists(State(), p)
    {
      b := p in files || p in dirs;
    }

    method IsFile(p: Path) returns (b: bool)
      ensures b == (p in State().files)
    {
      b := p in files;
    }

    /** `stat().st_mtime` of a file or a directory, or None where `stat` raises FileNotFoundError. */
    method ModifiedTime(p: Path) returns (t: Option<int>)
      ensures t.Some? <==> PathExists(State(), p)
      ensures p in State().files ==> t == Some(State().files[p].mtime)
      ensures p !in State().files && p in State().dirs ==> t == Some(State().dirs[p])
    {
      if p in files {
        t := Some(files[p].mtime);
      } else if p in dirs {
        t := Some(dirs[p]);
      } else {
        t := None;
      }
    }

    method ReadParquet(p: Path) returns (r: Option<seq<VolumeRow>>)
      ensures r == ParquetAt(State(), p)
    {
      r := if p in files && files[p].data.ParquetTable? then Some(files[p].data.volumeRows) else None;
    }

    /** Loads the header of `p` (never the voxel data) and logs the read. */
    method ReadHeader(p: Path) returns (h: HeaderRead)
      modifies this`headerReads
      ensures h == HeaderOf(State(), p)
      ensures headerReads == old(headerReads) + [p]
    {
      h := HeaderOf(State(), p);
      headerReads := headerReads + [p];
    }

    /** `unlink(missing_ok=True)`. */
    method Unlink(p: Path)
      modifies this`files
      ensures files == old(files) - {p}
    {
      files := files - {p};
    }

    /** `mkdir(parents=True, exist_ok=True)` at time `now`: an existing directory is left as it is. */
    method MakeDirs(p: Path, now: int)
      modifies this`dirs
      ensures p in old(dirs) ==> dirs == old(dirs)
      ensures p !in old(dirs) ==> dirs == old(dirs)[p := now]
    {
      if p !in dirs {
        dirs := dirs[p := now];
      }
    }

    /** `write_parquet`: replaces whatever `p` held by a table written at time `now`. */
    method WriteParquet(p: Path, rows: seq<VolumeRow>, now: int)
      modifies this`files
      ensures files == old(files)[p := File(now, ParquetTable(rows))]
    {
      files := files[p := File(now, ParquetTable(rows))];
    }
  }
}
