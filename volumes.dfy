/**
  `extract_volume_properties`: a run first decides whether the Parquet cache
  can answer (not forced, present, strictly newer than the annotation TSV,
  and loadable); a cache that fails to load is deleted. Otherwise every
  manifest entry's NIfTI header is read in turn, each entry giving either a
  property row or a `(filename, reason)` failure without stopping the run;
  a run with no row raises, any other writes the rows to the cache once,
  after the loop.

  `Extract` states a run as a function of the filesystem it starts from;
  `ExtractVolumeProperties` is the run itself, over a `Disk`.
*/
module Volumes {
  import opened Wrappers
  import opened Strings
  import opened Records
  import opened FileSystem
  import opened Manifest

  const CacheFileName: string := "volume_properties.parquet"

  const NotFoundReason: string := "File not found on disk"
  const MissingSpacingReason: string := "Missing spacing information"
  /** The message of the ZeroDivisionError raised by `int / int` with a zero divisor. */
  const DivisionByZeroReason: string := "division by zero"

  /** The three configured directories the pipeline uses. */
  datatype Settings = Settings(structuredDir: Path, processedDir: Path, annotationDir: Path)

  function CachePath(cfg: Settings): Path {
    Join(cfg.processedDir, CacheFileName)
  }

  function TsvPath(cfg: Settings): Path {
    AnnotationPath(cfg.structuredDir)
  }

  /** The cache and the annotation TSV are never the same file (their names end in different letters). */
  lemma CacheIsNotTsv(cfg: Settings)
    ensures CachePath(cfg) != TsvPath(cfg)
  {
    var c, t := CachePath(cfg), TsvPath(cfg);
    assert c[|c| - 1] == 't' && t[|t| - 1] == 'v';
  }

  // ---------------------------------------------------------------------------
  // One manifest entry

  /** What one pass of the loop body makes of one entry. */
  datatype Outcome = Extracted(row: VolumeRow) | Failed(failure: FailedFile)

  /** The property row of a 3-D header with at least three zooms and non-zero height and depth. */
  function PropertiesOf(e: ManifestEntry, shape: seq<int>, zooms: seq<real>): (row: VolumeRow)
    requires |shape| == 3 && |zooms| >= 3 && shape[1] != 0 && shape[2] != 0
    ensures row.filename == e.filename && row.seriesSubmitterId == e.seriesSubmitterId
    ensures [row.width, row.height, row.nSlices] == shape
    ensures row.totalVoxels == row.width * row.height * row.nSlices
    ensures [row.spacingX, row.spacingY, row.spacingZ] == zooms[..3]
  {
    var width, height, nSlices := shape[0], shape[1], shape[2];
    var physicalWidth := width as real * zooms[0];
    var physicalHeight := height as real * zooms[1];
    var physicalDepth := nSlices as real * zooms[2];
    VolumeRow(
      e.filename, e.seriesSubmitterId,
      width, height, nSlices, width * height * nSlices,
      zooms[0], zooms[1], zooms[2],
      physicalWidth, physicalHeight, physicalDepth, physicalWidth * physicalHeight * physicalDepth,
      width as real / height as real, width as real / nSlices as real, height as real / nSlices as real)
  }

  /**
    The derived physical fields: each extent is the voxel count times the
    spacing along that axis, and the volume is the product of the extents.
  */
  lemma PhysicalExtents(e: ManifestEntry, shape: seq<int>, zooms: seq<real>)
    requires |shape| == 3 && |zooms| >= 3 && shape[1] != 0 && shape[2] != 0
    ensures var row := PropertiesOf(e, shape, zooms);
      && row.physicalWidth == row.width as real * row.spacingX
      && row.physicalHeight == row.height as real * row.spacingY
      && row.physicalDepth == row.nSlices as real * row.spacingZ
      && row.physicalVolume == row.physicalWidth * row.physicalHeight * row.physicalDepth
  {
  }

  /** Whether a header passes every check of the loop body and yields a row. */
  predicate Usable(h: HeaderRead) {
    h.Header? && |h.shape| == 3 && |h.zooms| >= 3 && h.shape[1] != 0 && h.shape[2] != 0
  }

  /**
    The `try` block for an entry whose file exists: each way the header can
    be unusable has its own reason, in the order the code checks them.
  */
  function FromHeader(e: ManifestEntry, h: HeaderRead): (o: Outcome)
    ensures o.Extracted? <==> Usable(h)
    ensures o.Extracted? ==> o.row == PropertiesOf(e, h.shape, h.zooms)
    ensures o.Failed? ==> o.failure.filename == e.filename
    ensures h.LoadError? ==> o.failure.reason == h.message
    ensures h.Header? && |h.shape| != 3 ==> o.failure.reason == "Unexpected shape: " + TupleRepr(h.shape)
    ensures h.Header? && |h.shape| == 3 && |h.zooms| < 3 ==> o.failure.reason == MissingSpacingReason
    ensures h.Header? && |h.shape| == 3 && |h.zooms| >= 3 && !Usable(h) ==> o.failure.reason == DivisionByZeroReason
  {
    match h
    case LoadError(message) => Failed(FailedFile(e.filename, message))
    case Header(shape, zooms) =>
      if |shape| != 3 then Failed(FailedFile(e.filename, "Unexpected shape: " + TupleRepr(shape)))
      else if |zooms| < 3 then Failed(FailedFile(e.filename, MissingSpacingReason))
      else if shape[1] == 0 || shape[2] == 0 then Failed(FailedFile(e.filename, DivisionByZeroReason))
      else Extracted(PropertiesOf(e, shape, zooms))
  }

  function ImagePath(dir: Path, e: ManifestEntry): Path {
    Join(dir, e.filename)
  }

  /** The outcome of one entry: a missing file fails before any header is read. */
  function OutcomeOf(s: FsState, dir: Path, e: ManifestEntry): (o: Outcome)
    ensures !PathExists(s, ImagePath(dir, e)) ==> o == Failed(FailedFile(e.filename, NotFoundReason))
    ensures PathExists(s, ImagePath(dir, e)) ==> o == FromHeader(e, HeaderOf(s, ImagePath(dir, e)))
  {
    var path := ImagePath(dir, e);
    if !PathExists(s, path) then Failed(FailedFile(e.filename, NotFoundReason))
    else FromHeader(e, HeaderOf(s, path))
  }

  function Outcomes(s: FsState, dir: Path, es: seq<ManifestEntry>): (os: seq<Outcome>)
    ensures |os| == |es| && forall i | 0 <= i < |es| :: os[i] == OutcomeOf(s, dir, es[i])
  {
    seq(|es|, i requires 0 <= i < |es| => OutcomeOf(s, dir, es[i]))
  }

  /** The rows of the successful outcomes, in order: the `properties` list. */
  function Successes(os: seq<Outcome>): seq<VolumeRow> {
    if os == [] then []
    else
      var n := |os| - 1;
      Successes(os[..n]) + if os[n].Extracted? then [os[n].row] else []
  }

  /** The failures, in order: the `failed_files` list. */
  function Failures(os: seq<Outcome>): seq<FailedFile> {
    if os == [] then []
    else
      var n := |os| - 1;
      Failures(os[..n]) + if os[n].Failed? then [os[n].failure] else []
  }

  /** The paths whose header the loop reads: those of the entries whose file exists. */
  function HeadersRead(s: FsState, dir: Path, es: seq<ManifestEntry>): seq<Path> {
    if es == [] then []
    else
      var n := |es| - 1;
      HeadersRead(s, dir, es[..n]) + if PathExists(s, ImagePath(dir, es[n])) then [ImagePath(dir, es[n])] else []
  }

  // ---------------------------------------------------------------------------
  // A whole run

  /** What a run returns or raises, the failures it collected, the filesystem it leaves, and the headers it read. */
  datatype Run = Run(result: Result<seq<VolumeRow>, VolumeError>, failed: seq<FailedFile>, state: FsState, headersRead: seq<Path>)

  /** The filesystem after the rows are cached: the processed directory made and the cache overwritten. */
  function Cached(s: FsState, cfg: Settings, rows: seq<VolumeRow>, now: int): FsState {
    FsState(s.files[CachePath(cfg) := File(now, ParquetTable(rows))], WithDir(s.dirs, cfg.processedDir, now))
  }

  /** Full extraction, from the annotation-directory check to the cache write. */
  function Extraction(s: FsState, cfg: Settings, now: int): Run {
    if !PathExists(s, cfg.annotationDir) then Run(Failure(AnnotationDirNotFound(cfg.annotationDir)), [], s, [])
    else match LoadAnnotationFile(s, cfg.structuredDir)
      case Failure(err) => Run(Failure(err), [], s, [])
      case Success(entries) =>
        var os := Outcomes(s, cfg.annotationDir, entries);
        var rows := Successes(os);
        var read := HeadersRead(s, cfg.annotationDir, entries);
        if rows == [] then Run(Failure(NoPropertiesExtracted), Failures(os), s, read)
        else Run(Success(rows), Failures(os), Cached(s, cfg, rows, now), read)
  }

  /**
    Whether the cache check reaches the cache load: not forced, and the cache
    strictly newer than whatever is at the TSV path (`stat` also succeeds on a
    directory).
  */
  predicate CacheFresh(s: FsState, cfg: Settings, force: bool) {
    && !force
    && CachePath(cfg) in s.files && PathExists(s, TsvPath(cfg))
    && s.files[CachePath(cfg)].mtime > MTimeOf(s, TsvPath(cfg)).value
  }

  /**
    A run started on filesystem `s` at time `now`: the cache check (the TSV is
    stat-ed only when the cache exists and the run is not forced), the cache
    load with its corruption fallback, then full extraction.
  */
  function Extract(s: FsState, cfg: Settings, force: bool, now: int): Run {
    var cache := CachePath(cfg);
    if !force && cache in s.files && !PathExists(s, TsvPath(cfg)) then
      Run(Failure(NoSuchFile(TsvPath(cfg))), [], s, [])
    else if CacheFresh(s, cfg, force) then
      match ParquetAt(s, cache)
      case Some(rows) => Run(Success(rows), [], s, [])
      case None => Extraction(s.(files := s.files - {cache}), cfg, now)
    else Extraction(s, cfg, now)
  }

  // ---------------------------------------------------------------------------
  // The run over a disk

  /** One more entry adds its outcome to the rows or to the failures, and its path to the reads when the file exists. */
  lemma LoopStep(s: FsState, dir: Path, es: seq<ManifestEntry>, i: nat)
    requires i < |es|
    ensures var o := OutcomeOf(s, dir, es[i]);
      && Successes(Outcomes(s, dir, es[..i + 1])) == Successes(Outcomes(s, dir, es[..i])) + (if o.Extracted? then [o.row] else [])
      && Failures(Outcomes(s, dir, es[..i + 1])) == Failures(Outcomes(s, dir, es[..i])) + (if o.Failed? then [o.failure] else [])
      && HeadersRead(s, dir, es[..i + 1]) ==
           HeadersRead(s, dir, es[..i]) + (if PathExists(s, ImagePath(dir, es[i])) then [ImagePath(dir, es[i])] else [])
  {
    var os := Outcomes(s, dir, es[..i + 1]);
    assert os[..i] == Outcomes(s, dir, es[..i]);
    assert es[..i + 1][..i] == es[..i];
  }

  /**
    The body of the loop for one manifest entry: a missing file fails without
    a read; otherwise the header (and only the header) is read and either
    yields the row or the reason it could not.
  */
  method ExtractOne(disk: Disk, dir: Path, e: ManifestEntry) returns (o: Outcome)
    modifies disk`headerReads
    ensures o == OutcomeOf(disk.State(), dir, e)
    ensures disk.headerReads == old(disk.headerReads) +
              if PathExists(disk.State(), ImagePath(dir, e)) then [ImagePath(dir, e)] else []
  {
    var path := Join(dir, e.filename);
    var present := disk.Exists(path);
    if !present {
      return Failed(FailedFile(e.filename, NotFoundReason));
    }
    var header := disk.ReadHeader(path);
    match header
    case LoadError(message) =>
      o := Failed(FailedFile(e.filename, message));
    case Header(shape, zooms) =>
      if |shape| != 3 {
        o := Failed(FailedFile(e.filename, "Unexpected shape: " + TupleRepr(shape)));
      } else if |zooms| < 3 {
        o := Failed(FailedFile(e.filename, MissingSpacingReason));
      } else if shape[1] == 0 || shape[2] == 0 {
        o := Failed(FailedFile(e.filename, DivisionByZeroReason));
      } else {
        o := Extracted(PropertiesOf(e, shape, zooms));
      }
  }

  /**
    The loop over the manifest: every entry gives a row or a failure, in
    manifest order, and only existing files have their header read. Nothing
    but the read log changes.
  */
  method ExtractEntries(disk: Disk, dir: Path, entries: seq<ManifestEntry>)
    returns (properties: seq<VolumeRow>, failed: seq<FailedFile>)
    modifies disk`headerReads
    ensures properties == Successes(Outcomes(disk.State(), dir, entries))
    ensures failed == Failures(Outcomes(disk.State(), dir, entries))
    ensures disk.headerReads == old(disk.headerReads) + HeadersRead(disk.State(), dir, entries)
  {
    ghost var s := disk.State();
    ghost var reads0 := disk.headerReads;
    properties, failed := [], [];
    var i := 0;
    while i < |entries|
      invariant 0 <= i <= |entries|
      invariant disk.State() == s
      invariant properties == Successes(Outcomes(s, dir, entries[..i]))
      invariant failed == Failures(Outcomes(s, dir, entries[..i]))
      invariant disk.headerReads == reads0 + HeadersRead(s, dir, entries[..i])
    {
      LoopStep(s, dir, entries, i);
      var o := ExtractOne(disk, dir, entries[i]);
      match o {
        case Extracted(row) => properties := properties + [row];
        case Failed(failure) => failed := failed + [failure];
      }
      i := i + 1;
    }
    assert entries[..i] == entries;
  }

  /** Full extraction over a disk, as `Extraction` states it. */
  method ExtractAndCache(disk: Disk, cfg: Settings, now: int)
    returns (result: Result<seq<VolumeRow>, VolumeError>, failed: seq<FailedFile>)
    modifies disk
    ensures var run := Extraction(old(disk.State()), cfg, now);
      && result == run.result
      && failed == run.failed
      && disk.State() == run.state
      && disk.headerReads == old(disk.headerReads) + run.headersRead
  {
    var dirExists := disk.Exists(cfg.annotationDir);
    if !dirExists {
      return Failure(AnnotationDirNotFound(cfg.annotationDir)), [];
    }
    var manifest := LoadAnnotationFile(disk.State(), cfg.structuredDir);
    if manifest.Failure? {
      return Failure(manifest.error), [];
    }
    var properties;
    properties, failed := ExtractEntries(disk, cfg.annotationDir, manifest.value);
    if properties == [] {
      return Failure(NoPropertiesExtracted), failed;
    }
    disk.MakeDirs(cfg.processedDir, now);
    disk.WriteParquet(CachePath(cfg), properties, now);
    result := Success(properties);
  }

  /**
    The run as the source performs it. Its result, failures and final
    filesystem are those of `Extract` on the filesystem it starts from, and
    it reads exactly the headers `Extract` says, in that order.
  */
  method ExtractVolumeProperties(disk: Disk, cfg: Settings, force: bool, now: int)
    returns (result: Result<seq<VolumeRow>, VolumeError>, failed: seq<FailedFile>)
    modifies disk
    ensures var run := Extract(old(disk.State()), cfg, force, now);
      && result == run.result
      && failed == run.failed
      && disk.State() == run.state
      && disk.headerReads == old(disk.headerReads) + run.headersRead
  {
    var cache := CachePath(cfg);
    var cacheExists := disk.IsFile(cache);
    if !force && cacheExists {
      var cacheTime := disk.ModifiedTime(cache);
      var tsvTime := disk.ModifiedTime(TsvPath(cfg));
      if tsvTime.None? {
        return Failure(NoSuchFile(TsvPath(cfg))), [];
      }
      if cacheTime.value > tsvTime.value {
        var cached := disk.ReadParquet(cache);
        if cached.Some? {
          return Success(cached.value), [];
        }
        disk.Unlink(cache);
      }
    }
    result, failed := ExtractAndCache(disk, cfg, now);
  }

  /** `load_volume_properties`: the public entry point, which runs the extraction. */
  method LoadVolumeProperties(disk: Disk, cfg: Settings, force: bool, now: int)
    returns (result: Result<seq<VolumeRow>, VolumeError>, failed: seq<FailedFile>)
    modifies disk
    ensures var run := Extract(old(disk.State()), cfg, force, now);
      && result == run.result
      && failed == run.failed
      && disk.State() == run.state
      && disk.headerReads == old(disk.headerReads) + run.headersRead
  {
    result, failed := ExtractVolumeProperties(disk, cfg, force, now);
  }

  // ---------------------------------------------------------------------------
  // Properties of a run

  /** Partitioning the outcomes distributes over concatenation: successes and failures keep manifest order. */
  lemma {:induction false} PartitionAppend(a: seq<Outcome>, b: seq<Outcome>)
    ensures Successes(a + b) == Successes(a) + Successes(b)
    ensures Failures(a + b) == Failures(a) + Failures(b)
  {
    if b == [] {
      assert a + b == a;
    } else {
      var n := |b| - 1;
      assert (a + b)[..|a| + n] == a + b[..n];
      assert (a + b)[|a| + n] == b[n];
      PartitionAppend(a, b[..n]);
    }
  }

  /** Every outcome is a success or a failure, never both and never neither. */
  lemma {:induction false} PartitionCount(os: seq<Outcome>)
    ensures |Successes(os)| + |Failures(os)| == |os|
  {
    if os != [] {
      PartitionCount(os[..|os| - 1]);
    }
  }

  /**
    Every row comes from a manifest entry whose header yielded it: same
    filename and series, and `total_voxels` the product of the three
    dimensions.
  */
  lemma {:induction false} SuccessesFromEntries(s: FsState, dir: Path, es: seq<ManifestEntry>)
    ensures forall row | row in Successes(Outcomes(s, dir, es)) ::
              exists e | e in es :: && OutcomeOf(s, dir, e) == Extracted(row)
                                    && row.filename == e.filename && row.seriesSubmitterId == e.seriesSubmitterId
                                    && row.totalVoxels == row.width * row.height * row.nSlices
  {
    if es != [] {
      var n := |es| - 1;
      SuccessesFromEntries(s, dir, es[..n]);
      var os := Outcomes(s, dir, es);
      assert os[..n] == Outcomes(s, dir, es[..n]);
      forall row | row in Successes(os)
        ensures exists e | e in es :: && OutcomeOf(s, dir, e) == Extracted(row)
                                      && row.filename == e.filename && row.seriesSubmitterId == e.seriesSubmitterId
                                      && row.totalVoxels == row.width * row.height * row.nSlices
      {
        if row in Successes(os[..n]) {
          var e :| e in es[..n] && OutcomeOf(s, dir, e) == Extracted(row);
          assert e in es;
        } else {
          assert es[n] in es && os[n] == Extracted(row);
        }
      }
    }
  }

  /** Every failure names a manifest entry whose outcome it is. */
  lemma {:induction false} FailuresFromEntries(s: FsState, dir: Path, es: seq<ManifestEntry>)
    ensures forall f | f in Failures(Outcomes(s, dir, es)) ::
              exists e | e in es :: OutcomeOf(s, dir, e) == Failed(f) && f.filename == e.filename
  {
    if es != [] {
      var n := |es| - 1;
      FailuresFromEntries(s, dir, es[..n]);
      var os := Outcomes(s, dir, es);
      assert os[..n] == Outcomes(s, dir, es[..n]);
      forall f | f in Failures(os)
        ensures exists e | e in es :: OutcomeOf(s, dir, e) == Failed(f) && f.filename == e.filename
      {
        if f in Failures(os[..n]) {
          var e :| e in es[..n] && OutcomeOf(s, dir, e) == Failed(f) && f.filename == e.filename;
          assert e in es;
        } else {
          assert es[n] in es && os[n] == Failed(f);
        }
      }
    }
  }

  /** A row can only come from a header that was read. */
  lemma {:induction false} RowsNeedReads(s: FsState, dir: Path, es: seq<ManifestEntry>)
    ensures Successes(Outcomes(s, dir, es)) != [] ==> HeadersRead(s, dir, es) != []
  {
    if es != [] {
      var n := |es| - 1;
      RowsNeedReads(s, dir, es[..n]);
      assert Outcomes(s, dir, es)[..n] == Outcomes(s, dir, es[..n]);
    }
  }

  /**
    A full extraction accounts for every manifest entry exactly once: the
    rows and the failures together number the entries, and the run raises
    precisely when every entry failed.
  */
  lemma ExtractionAccounts(s: FsState, cfg: Settings, now: int)
    requires PathExists(s, cfg.annotationDir)
    requires LoadAnnotationFile(s, cfg.structuredDir).Success?
    ensures var run := Extraction(s, cfg, now);
      var entries := LoadAnnotationFile(s, cfg.structuredDir).value;
      && (run.result.Success? ==> |run.result.value| + |run.failed| == |entries|)
      && (run.result.Failure? <==> |run.failed| == |entries|)
      && (run.result.Failure? ==> run.result.error == NoPropertiesExtracted)
  {
    var entries := LoadAnnotationFile(s, cfg.structuredDir).value;
    PartitionCount(Outcomes(s, cfg.annotationDir, entries));
  }

  /**
    A fresh, loadable cache answers the run: its rows are returned, no header
    is read, nothing on disk changes, and the annotation directory is not
    consulted.
  */
  lemma CacheHit(s: FsState, cfg: Settings, now: int)
    requires CacheFresh(s, cfg, false) && ParquetAt(s, CachePath(cfg)).Some?
    ensures Extract(s, cfg, false, now) == Run(Success(ParquetAt(s, CachePath(cfg)).value), [], s, [])
  {
  }

  /**
    Conversely, a run that succeeds without reading any header was answered
    by the cache: the run was not forced, the cache was strictly newer than
    the TSV, and its rows are the result.
  */
  lemma CacheOnlyWhenFresh(s: FsState, cfg: Settings, force: bool, now: int)
    requires Extract(s, cfg, force, now).result.Success? && Extract(s, cfg, force, now).headersRead == []
    ensures CacheFresh(s, cfg, force) && ParquetAt(s, CachePath(cfg)).Some?
    ensures Extract(s, cfg, force, now).result == Success(ParquetAt(s, CachePath(cfg)).value)
    ensures Extract(s, cfg, force, now).state == s
  {
    var cache := CachePath(cfg);
    if !CacheFresh(s, cfg, force) || ParquetAt(s, cache).None? {
      var s' := if CacheFresh(s, cfg, force) then s.(files := s.files - {cache}) else s;
      assert Extract(s, cfg, force, now) == Extraction(s', cfg, now);
      var entries := LoadAnnotationFile(s', cfg.structuredDir).value;
      RowsNeedReads(s', cfg.annotationDir, entries);
      assert false;
    }
  }

  /** A forced run, a missing cache and a stale cache all lead straight to full extraction. */
  lemma CacheBypassed(s: FsState, cfg: Settings, force: bool, now: int)
    requires !CacheFresh(s, cfg, force)
    requires force || CachePath(cfg) !in s.files || PathExists(s, TsvPath(cfg))
    ensures Extract(s, cfg, force, now) == Extraction(s, cfg, now)
  {
  }

  /** A fresh cache that cannot be loaded is deleted and the run extracts afresh instead of raising. */
  lemma CorruptCacheRecomputed(s: FsState, cfg: Settings, now: int)
    requires CacheFresh(s, cfg, false) && ParquetAt(s, CachePath(cfg)).None?
    ensures Extract(s, cfg, false, now) == Extraction(s.(files := s.files - {CachePath(cfg)}), cfg, now)
    ensures Extract(s, cfg, false, now) == Extract(s.(files := s.files - {CachePath(cfg)}), cfg, false, now)
  {
  }

  /**
    With the cache present and the run not forced, nothing at the TSV path
    (neither a file nor a directory) makes the staleness check raise.
  */
  lemma MissingTsvAtCacheCheck(s: FsState, cfg: Settings, now: int)
    requires CachePath(cfg) in s.files && !PathExists(s, TsvPath(cfg))
    ensures Extract(s, cfg, false, now) == Run(Failure(NoSuchFile(TsvPath(cfg))), [], s, [])
  {
  }

  /**
    A run that raises writes no cache and makes no directory; at most it has
    deleted a corrupt cache.
  */
  lemma NoCacheWriteOnFailure(s: FsState, cfg: Settings, force: bool, now: int)
    requires Extract(s, cfg, force, now).result.Failure?
    ensures Extract(s, cfg, force, now).state.dirs == s.dirs
    ensures Extract(s, cfg, force, now).state.files == s.files ||
            Extract(s, cfg, force, now).state.files == s.files - {CachePath(cfg)}
  {
  }

  /**
    A run touches nothing but the cache file and the processed directory, and
    leaves every existing directory as it was.
  */
  lemma ExtractFrame(s: FsState, cfg: Settings, force: bool, now: int)
    ensures var t := Extract(s, cfg, force, now).state;
      && (forall p | p != CachePath(cfg) :: (p in t.files <==> p in s.files) && (p in s.files ==> t.files[p] == s.files[p]))
      && (forall p | p in s.dirs :: p in t.dirs && t.dirs[p] == s.dirs[p])
      && (forall p | p in t.dirs && p != cfg.processedDir :: p in s.dirs)
  {
  }

  /** After a successful run the cache file holds exactly the rows returned. */
  lemma ExtractCachesResult(s: FsState, cfg: Settings, force: bool, now: int)
    ensures var run := Extract(s, cfg, force, now);
      run.result.Success? ==> ParquetAt(run.state, CachePath(cfg)) == Some(run.result.value)
  {
  }

  /**
    Once a run has succeeded at a time later than the TSV's modification, a
    later unforced run returns the same rows from the cache, reads no header
    and changes nothing.
  */
  lemma RoundTrip(s: FsState, cfg: Settings, force: bool, now: int, later: int)
    requires Extract(s, cfg, force, now).result.Success?
    requires TsvPath(cfg) in s.files ==> s.files[TsvPath(cfg)].mtime < now
    ensures var run := Extract(s, cfg, force, now);
      Extract(run.state, cfg, false, later) == Run(run.result, [], run.state, [])
  {
    var cache, tsv := CachePath(cfg), TsvPath(cfg);
    CacheIsNotTsv(cfg);
    var run := Extract(s, cfg, force, now);
    if !(CacheFresh(s, cfg, force) && ParquetAt(s, cache).Some?) {
      var s' := if CacheFresh(s, cfg, force) then s.(files := s.files - {cache}) else s;
      assert run == Extraction(s', cfg, now);
      assert tsv in s'.files;
      assert run.state.files[tsv] == s.files[tsv];
      assert run.state.files[cache] == File(now, ParquetTable(run.result.value));
    }
  }

  /** The example's annotation TSV: an image, its segmentation mask, and a second image. */
  function ExampleTsv(): seq<AnnotationRow> {
    [AnnotationRow(Some("x.nii.gz"), Some("S1")),
     AnnotationRow(Some("x_SEG.nii.gz"), Some("S1")),
     AnnotationRow(Some("y.nii.gz"), Some("S2"))]
  }

  /** The mask is filtered out; the two images stay, in file order. */
  lemma ExampleManifest()
    ensures Entries(ExampleTsv()) == [ManifestEntry("x.nii.gz", Some("S1")), ManifestEntry("y.nii.gz", Some("S2"))]
  {
    var rows := ExampleTsv();
    assert "x_SEG.nii.gz"[1..] == SegmentationSuffix;
    assert Kept(rows[0]) && !Kept(rows[1]) && Kept(rows[2]);
    assert rows[..2][..1] == rows[..1] && rows[..1][..0] == [];
    assert Entries(rows[..1]) == [EntryOf(rows[0])];
  }

  /** The loop over the example's two entries when only the first image exists. */
  lemma ExampleOutcomes(s: FsState, dir: Path, x: ManifestEntry, y: ManifestEntry)
    requires HeaderOf(s, ImagePath(dir, x)) == Header([2, 3, 4], [0.5, 0.5, 2.0]) && ImagePath(dir, x) in s.files
    requires !PathExists(s, ImagePath(dir, y))
    ensures Successes(Outcomes(s, dir, [x, y])) == [PropertiesOf(x, [2, 3, 4], [0.5, 0.5, 2.0])]
    ensures Failures(Outcomes(s, dir, [x, y])) == [FailedFile(y.filename, NotFoundReason)]
    ensures HeadersRead(s, dir, [x, y]) == [ImagePath(dir, x)]
  {
    var os := Outcomes(s, dir, [x, y]);
    assert os[0] == Extracted(PropertiesOf(x, [2, 3, 4], [0.5, 0.5, 2.0]));
    assert os[1] == Failed(FailedFile(y.filename, NotFoundReason));
    assert os[..1] == [os[0]] && os[..1][..0] == [];
    assert Successes(os[..1]) == [os[0].row] && Failures(os[..1]) == [];
    assert [x, y][..1] == [x] && [x][..0] == [];
    assert HeadersRead(s, dir, [x]) == [ImagePath(dir, x)];
  }

  /**
    A worked run over that manifest with only the first image on disk: the
    missing image is reported, only the first image's header is read, and
    its row is returned and cached.
  */
  lemma ExampleRun(cfg: Settings)
    requires cfg.annotationDir == "an"
    ensures var x := ManifestEntry("x.nii.gz", Some("S1"));
      var s := FsState(map[TsvPath(cfg) := File(1, AnnotationTsv(ExampleTsv())),
                           ImagePath("an", x) := File(1, NiftiImage([2, 3, 4], [0.5, 0.5, 2.0]))], map["an" := 0]);
      var run := Extract(s, cfg, false, 5);
      && run.result == Success([PropertiesOf(x, [2, 3, 4], [0.5, 0.5, 2.0])])
      && run.result.value[0].totalVoxels == 24
      && run.failed == [FailedFile("y.nii.gz", NotFoundReason)]
      && run.headersRead == [ImagePath("an", x)]
      && ParquetAt(run.state, CachePath(cfg)) == Some(run.result.value)
  {
    var x, y := ManifestEntry("x.nii.gz", Some("S1")), ManifestEntry("y.nii.gz", Some("S2"));
    var s := FsState(map[TsvPath(cfg) := File(1, AnnotationTsv(ExampleTsv())),
                         ImagePath("an", x) := File(1, NiftiImage([2, 3, 4], [0.5, 0.5, 2.0]))], map["an" := 0]);
    ExampleManifest();
    var cache, tsv, px, py := CachePath(cfg), TsvPath(cfg), ImagePath("an", x), ImagePath("an", y);
    assert cache[|cache| - 1] == 't' && tsv[|tsv| - 1] == 'v' && px[|px| - 1] == 'z' && py[|py| - 1] == 'z';
    assert py[3] != px[3];
    assert cache !in s.files && py !in s.files;
    assert LoadAnnotationFile(s, cfg.structuredDir) == Success([x, y]);
    ExampleOutcomes(s, "an", x, y);
  }
}
