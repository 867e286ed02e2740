/**
 * Archive production and the main pipeline: picking the newest database
 * snapshot (`latest_file_in_dir`), the staging plan and archive name of the
 * Immich backup (`backup_immich`), one archive per configured directory
 * (`backup_other_dirs`), and the order in which `main` hands the archives to
 * `upload_with_versioning`.
 *
 * The filesystem is not modelled: a directory listing is a parameter (each
 * entry with its ctime), the copies into the staging directory are returned
 * as a list of actions, and zipping, encryption and cleanup are left out.
 */
module Backup {
  import opened Strings
  import opened Timestamps
  import opened Paths
  import opened Remote
  import opened Versioning

  datatype Option<T> = None | Some(value: T)

  /** One entry of `os.listdir(path)` together with `os.path.getctime` of it. */
  datatype DirEntry = DirEntry(name: string, ctime: real)

  /** A copy into the staging directory: `shutil.copy(src, dir)` or `shutil.copytree(src, dst)`. */
  datatype CopyAction = CopyFile(src: string, dstDir: string) | CopyTree(src: string, dst: string)

  /** The Immich part of the configuration. */
  datatype ImmichConfig = ImmichConfig(enabled: bool, backupDir: string, otherDirs: seq<string>)

  /** `BACKUP_CONFIG` and `TEMP_ZIP_DIR`. */
  datatype Config = Config(immich: ImmichConfig, directories: seq<string>, tempZipDir: string)

  const DbBackupPrefix: string := "immich-db-backup"
  const DumpName: string := "dump.sql.gz"
  const StagingName: string := "immich_staging"

  // ---------------------------------------------------------------------
  // latest_file_in_dir
  // ---------------------------------------------------------------------

  predicate HasMatch(listing: seq<DirEntry>, prefix: string)
  {
    exists i :: 0 <= i < |listing| && StartsWith(listing[i].name, prefix)
  }

  /** `listing[k]` is the entry `max(..., key=getctime)` picks among those starting with `prefix`. */
  predicate IsLatest(listing: seq<DirEntry>, prefix: string, k: int)
  {
    0 <= k < |listing| && StartsWith(listing[k].name, prefix) &&
    (forall i :: 0 <= i < |listing| && StartsWith(listing[i].name, prefix) ==> listing[i].ctime <= listing[k].ctime) &&
    (forall i :: 0 <= i < k && StartsWith(listing[i].name, prefix) ==> listing[i].ctime < listing[k].ctime)
  }

  /**
   * The position `max` ends on when it scans the matching entries in listing
   * order, replacing its candidate only by a strictly newer one.
   */
  function LatestIndex(listing: seq<DirEntry>, prefix: string): (r: Option<nat>)
    ensures r.None? <==> !HasMatch(listing, prefix)
    ensures r.Some? ==> IsLatest(listing, prefix, r.value)
  {
    if listing == [] then None
    else
      var n := |listing| - 1;
      var prev := LatestIndex(listing[..n], prefix);
      assert forall i :: 0 <= i < n ==> listing[..n][i] == listing[i];
      if !StartsWith(listing[n].name, prefix) then
        assert HasMatch(listing, prefix) ==> HasMatch(listing[..n], prefix);
        prev
      else if prev.None? || listing[prev.value].ctime < listing[n].ctime then
        Some(n)
      else
        prev
  }

  /** The latest matching entry is unique: ties go to the first one in listing order. */
  lemma LatestUnique(listing: seq<DirEntry>, prefix: string, k: int)
    requires IsLatest(listing, prefix, k)
    ensures LatestIndex(listing, prefix) == Some(k)
  {
  }

  /** `latest_file_in_dir(path, prefix)`: the joined path of the latest matching entry, or `None`. */
  function LatestFileInDir(path: string, prefix: string, listing: seq<DirEntry>): (r: Option<string>)
    ensures r.None? <==> !HasMatch(listing, prefix)
    ensures r.Some? ==> exists k :: IsLatest(listing, prefix, k) && r.value == Join(path, listing[k].name)
  {
    match LatestIndex(listing, prefix)
    case None => None
    case Some(k) => Some(Join(path, listing[k].name))
  }

  // ---------------------------------------------------------------------
  // backup_immich
  // ---------------------------------------------------------------------

  /** A joined path with a non-empty last component is non-empty (truthy). */
  lemma JoinNonEmpty(a: string, b: string)
    requires b != []
    ensures Join(a, b) != []
  {
  }

  /** The database files to stage: the latest snapshot when there is one, then the fresh dump; empty paths are dropped. */
  function ImmichDbFiles(backupDir: string, listing: seq<DirEntry>): (files: seq<string>)
    ensures 1 <= |files| <= 2 && files[|files| - 1] == Join(backupDir, DumpName)
    ensures |files| == 2 <==> HasMatch(listing, DbBackupPrefix)
    ensures |files| == 2 ==> LatestFileInDir(backupDir, DbBackupPrefix, listing) == Some(files[0])
  {
    var latest := LatestFileInDir(backupDir, DbBackupPrefix, listing);
    if latest.Some? then
      var k := LatestIndex(listing, DbBackupPrefix).value;
      assert listing[k].name != [] by {
        assert |DbBackupPrefix| <= |listing[k].name|;
      }
      JoinNonEmpty(backupDir, listing[k].name);
      if latest.value != [] then [latest.value, Join(backupDir, DumpName)] else [Join(backupDir, DumpName)]
    else
      [Join(backupDir, DumpName)]
  }

  /** The directory name a configured path contributes: `os.path.basename(d.rstrip("/"))`. */
  function DirSegment(d: string): (r: string)
    ensures '/' !in r
  {
    Basename(RStripSlash(d))
  }

  /** Where `copytree` puts a directory inside the staging directory. */
  function StagingTarget(staging: string, d: string): string
  {
    Join(staging, DirSegment(d))
  }

  /** Two directories land on the same staging target exactly when their names agree. */
  lemma StagingTargetsCollide(staging: string, d1: string, d2: string)
    ensures StagingTarget(staging, d1) == StagingTarget(staging, d2) <==> DirSegment(d1) == DirSegment(d2)
    ensures Basename(StagingTarget(staging, d1)) == DirSegment(d1)
  {
    BasenameOfJoin(staging, DirSegment(d1));
    BasenameOfJoin(staging, DirSegment(d2));
  }

  /** The Immich archive's file name: a fixed stem, the run's timestamp and the zip extension. */
  function ImmichArchiveName(now: DateTime): (r: string)
    ensures '/' !in r
  {
    NoSlashAppend("immich-backup-", Strftime(now));
    NoSlashAppend("immich-backup-" + Strftime(now), ".zip");
    "immich-backup-" + Strftime(now) + ".zip"
  }

  /** Step 3: `shutil.copy(f, staging)` for each database file, in order. */
  function FileCopies(files: seq<string>, staging: string): (r: seq<CopyAction>)
    ensures |r| == |files|
  {
    seq(|files|, i requires 0 <= i < |files| => CopyFile(files[i], staging))
  }

  /** Step 4: `shutil.copytree(d, join(staging, name))` for each other directory, in order. */
  function TreeCopies(dirs: seq<string>, staging: string): (r: seq<CopyAction>)
    ensures |r| == |dirs|
  {
    seq(|dirs|, i requires 0 <= i < |dirs| => CopyTree(dirs[i], StagingTarget(staging, dirs[i])))
  }

  lemma FileCopiesStep(files: seq<string>, staging: string, i: int)
    requires 0 <= i < |files|
    ensures FileCopies(files[..i + 1], staging) == FileCopies(files[..i], staging) + [CopyFile(files[i], staging)]
  {
    var a := FileCopies(files[..i + 1], staging);
    var b := FileCopies(files[..i], staging) + [CopyFile(files[i], staging)];
    forall k | 0 <= k <= i ensures a[k] == b[k] {
      assert files[..i + 1][k] == files[k];
      if k < i {
        assert files[..i][k] == files[k];
      }
    }
  }

  lemma TreeCopiesStep(dirs: seq<string>, staging: string, j: int)
    requires 0 <= j < |dirs|
    ensures TreeCopies(dirs[..j + 1], staging) == TreeCopies(dirs[..j], staging) + [CopyTree(dirs[j], StagingTarget(staging, dirs[j]))]
  {
    var a := TreeCopies(dirs[..j + 1], staging);
    var b := TreeCopies(dirs[..j], staging) + [CopyTree(dirs[j], StagingTarget(staging, dirs[j]))];
    forall k | 0 <= k <= j ensures a[k] == b[k] {
      assert dirs[..j + 1][k] == dirs[k];
      if k < j {
        assert dirs[..j][k] == dirs[k];
      }
    }
  }

  /**
   * Steps 2 to 5 of `backup_immich`: copy the database files into the staging
   * directory, then each other Immich directory under its own name, and
   * return the path of the archive made from the staging directory.
   * `listing` is the backup directory after the dump has been written.
   */
  method BackupImmich(tempDir: string, cfg: ImmichConfig, listing: seq<DirEntry>, now: DateTime)
    returns (zip: string, copies: seq<CopyAction>)
    ensures zip == Join(tempDir, ImmichArchiveName(now)) && Basename(zip) == ImmichArchiveName(now)
    ensures copies == FileCopies(ImmichDbFiles(cfg.backupDir, listing), Join(tempDir, StagingName))
                      + TreeCopies(cfg.otherDirs, Join(tempDir, StagingName))
  {
    var files := ImmichDbFiles(cfg.backupDir, listing);
    var staging := Join(tempDir, StagingName);

    var fileCopies := [];
    for i := 0 to |files|
      invariant fileCopies == FileCopies(files[..i], staging)
    {
      FileCopiesStep(files, staging, i);
      fileCopies := fileCopies + [CopyFile(files[i], staging)];
    }
    assert files[..|files|] == files;
    var treeCopies := [];
    for j := 0 to |cfg.otherDirs|
      invariant treeCopies == TreeCopies(cfg.otherDirs[..j], staging)
    {
      var d := cfg.otherDirs[j];
      var name := DirSegment(d);
      TreeCopiesStep(cfg.otherDirs, staging, j);
      treeCopies := treeCopies + [CopyTree(d, Join(staging, name))];
    }
    assert cfg.otherDirs[..|cfg.otherDirs|] == cfg.otherDirs;
    copies := fileCopies + treeCopies;

    zip := Join(tempDir, ImmichArchiveName(now));
    BasenameOfJoin(tempDir, ImmichArchiveName(now));
  }

  /**
   * Each other directory is copied under its own name, so two of them merge
   * into one staging target exactly when their names agree.
   */
  lemma TreeTargets(dirs: seq<string>, staging: string)
    ensures forall j :: 0 <= j < |dirs| ==>
              TreeCopies(dirs, staging)[j].src == dirs[j] &&
              Basename(TreeCopies(dirs, staging)[j].dst) == DirSegment(dirs[j])
    ensures forall j, k :: 0 <= j < |dirs| && 0 <= k < |dirs| ==>
              (TreeCopies(dirs, staging)[j].dst == TreeCopies(dirs, staging)[k].dst <==> DirSegment(dirs[j]) == DirSegment(dirs[k]))
  {
    var t := TreeCopies(dirs, staging);
    forall j, k | 0 <= j < |dirs| && 0 <= k < |dirs|
      ensures Basename(t[j].dst) == DirSegment(dirs[j])
      ensures t[j].dst == t[k].dst <==> DirSegment(dirs[j]) == DirSegment(dirs[k])
    {
      StagingTargetsCollide(staging, dirs[j], dirs[k]);
    }
  }

  // ---------------------------------------------------------------------
  // backup_other_dirs
  // ---------------------------------------------------------------------

  /** A directory archive's file name: the directory's last segment, a dash, the run's timestamp and the zip extension. */
  function DirArchiveName(d: string, now: DateTime): (r: string)
    ensures '/' !in r
  {
    NoSlashAppend(DirSegment(d), "-");
    NoSlashAppend(DirSegment(d) + "-", Strftime(now));
    NoSlashAppend(DirSegment(d) + "-" + Strftime(now), ".zip");
    DirSegment(d) + "-" + Strftime(now) + ".zip"
  }

  /** The archive paths `backup_other_dirs` returns, the i-th stamped with `clock[i]`. */
  function DirArchivePaths(tempDir: string, dirs: seq<string>, clock: seq<DateTime>): (r: seq<string>)
    requires |clock| == |dirs|
    ensures |r| == |dirs|
  {
    seq(|dirs|, i requires 0 <= i < |dirs| => Join(tempDir, DirArchiveName(dirs[i], clock[i])))
  }

  /** The file name of each directory archive is its archive name, which is also its upload key. */
  lemma DirArchiveBasenames(tempDir: string, dirs: seq<string>, clock: seq<DateTime>)
    requires |clock| == |dirs|
    ensures forall i :: 0 <= i < |dirs| ==>
              Basename(DirArchivePaths(tempDir, dirs, clock)[i]) == DirArchiveName(dirs[i], clock[i])
  {
    forall i | 0 <= i < |dirs|
      ensures Basename(DirArchivePaths(tempDir, dirs, clock)[i]) == DirArchiveName(dirs[i], clock[i])
    {
      BasenameOfJoin(tempDir, DirArchiveName(dirs[i], clock[i]));
    }
  }

  /** `backup_other_dirs()`: one archive per configured directory, in configuration order. */
  method BackupOtherDirs(tempDir: string, dirs: seq<string>, clock: seq<DateTime>) returns (created: seq<string>)
    requires |clock| == |dirs|
    ensures created == DirArchivePaths(tempDir, dirs, clock)
  {
    created := [];
    for i := 0 to |dirs|
      invariant created == DirArchivePaths(tempDir, dirs[..i], clock[..i])
    {
      var zipName := Join(tempDir, DirArchiveName(dirs[i], clock[i]));
      DirArchivePathsStep(tempDir, dirs, clock, i);
      created := created + [zipName];
    }
    assert dirs[..|dirs|] == dirs && clock[..|clock|] == clock;
  }

  lemma DirArchivePathsStep(tempDir: string, dirs: seq<string>, clock: seq<DateTime>, i: int)
    requires |clock| == |dirs| && 0 <= i < |dirs|
    ensures DirArchivePaths(tempDir, dirs[..i + 1], clock[..i + 1])
            == DirArchivePaths(tempDir, dirs[..i], clock[..i]) + [Join(tempDir, DirArchiveName(dirs[i], clock[i]))]
  {
    var a := DirArchivePaths(tempDir, dirs[..i + 1], clock[..i + 1]);
    var b := DirArchivePaths(tempDir, dirs[..i], clock[..i]) + [Join(tempDir, DirArchiveName(dirs[i], clock[i]))];
    forall k | 0 <= k <= i ensures a[k] == b[k] {
      assert dirs[..i + 1][k] == dirs[k] && clock[..i + 1][k] == clock[k];
      if k < i {
        assert dirs[..i][k] == dirs[k] && clock[..i][k] == clock[k];
      }
    }
  }

  /**
   * Directory archive names determine the directory name and the moment:
   * two archives of one run share a name only when their directories have
   * the same name and were zipped within the same second.
   */
  lemma DirArchiveNameInjective(d1: string, t1: DateTime, d2: string, t2: DateTime)
    ensures DirArchiveName(d1, t1) == DirArchiveName(d2, t2) <==> DirSegment(d1) == DirSegment(d2) && t1 == t2
  {
    var s1, s2 := DirSegment(d1), DirSegment(d2);
    if DirArchiveName(d1, t1) == DirArchiveName(d2, t2) {
      assert |s1| == |s2|;
      ConcatEq(s1 + "-" + Strftime(t1), ".zip", s2 + "-" + Strftime(t2), ".zip");
      ConcatEq(s1 + "-", Strftime(t1), s2 + "-", Strftime(t2));
      ConcatEq(s1, "-", s2, "-");
      StrftimeOrder(t1, t2);
    }
  }

  // ---------------------------------------------------------------------
  // main
  // ---------------------------------------------------------------------

  /** `all_zips`: the Immich archive first when enabled, then the directory archives in configuration order. */
  function ArchiveList(cfg: Config, immichNow: DateTime, dirClock: seq<DateTime>): seq<string>
    requires |dirClock| == |cfg.directories|
  {
    (if cfg.immich.enabled then [Join(cfg.tempZipDir, ImmichArchiveName(immichNow))] else [])
      + DirArchivePaths(cfg.tempZipDir, cfg.directories, dirClock)
  }

  /** Where each archive sits in the list handed to the upload step. */
  lemma ArchiveOrder(cfg: Config, immichNow: DateTime, dirClock: seq<DateTime>)
    requires |dirClock| == |cfg.directories|
    ensures var zips := ArchiveList(cfg, immichNow, dirClock);
            var first := if cfg.immich.enabled then 1 else 0;
            |zips| == first + |cfg.directories| &&
            (cfg.immich.enabled ==> Basename(zips[0]) == ImmichArchiveName(immichNow)) &&
            (forall i :: 0 <= i < |cfg.directories| ==>
               Basename(zips[first + i]) == DirArchiveName(cfg.directories[i], dirClock[i]))
  {
    var zips := ArchiveList(cfg, immichNow, dirClock);
    var paths := DirArchivePaths(cfg.tempZipDir, cfg.directories, dirClock);
    BasenameOfJoin(cfg.tempZipDir, ImmichArchiveName(immichNow));
    DirArchiveBasenames(cfg.tempZipDir, cfg.directories, dirClock);
    if cfg.immich.enabled {
      assert zips == [Join(cfg.tempZipDir, ImmichArchiveName(immichNow))] + paths;
      forall i | 0 <= i < |cfg.directories| ensures zips[1 + i] == paths[i] { }
    } else {
      assert zips == paths;
    }
  }

  /** Pairs each archive path with its size (`os.path.getsize`). */
  function Sized(zips: seq<string>, sizeOf: string -> nat): seq<Archive>
  {
    seq(|zips|, i requires 0 <= i < |zips| => Archive(zips[i], sizeOf(zips[i])))
  }

  /**
   * `main()`: produce the archives, then sync them to the remote directory.
   * The clock readings and the archive sizes are parameters.
   */
  method RunPipeline(cfg: Config, listing: seq<DirEntry>, immichNow: DateTime, dirClock: seq<DateTime>,
                     uploadClock: seq<DateTime>, sizeOf: string -> nat, remote: RemoteDir)
    returns (zips: seq<string>)
    requires |dirClock| == |cfg.directories|
    requires |uploadClock| == (if cfg.immich.enabled then 1 else 0) + |cfg.directories|
    modifies remote
    ensures zips == ArchiveList(cfg, immichNow, dirClock)
    ensures remote.objects == SyncAll(old(remote.objects), Sized(zips, sizeOf), uploadClock)
    ensures remote.log == old(remote.log) + RunOps(old(remote.objects), Sized(zips, sizeOf), uploadClock)
  {
    zips := [];
    if cfg.immich.enabled {
      var immichZip, _ := BackupImmich(cfg.tempZipDir, cfg.immich, listing, immichNow);
      zips := zips + [immichZip];
    }
    var created := BackupOtherDirs(cfg.tempZipDir, cfg.directories, dirClock);
    zips := zips + created;
    UploadWithVersioning(remote, Sized(zips, sizeOf), uploadClock);
  }

  // ---------------------------------------------------------------------
  // Version keys across runs
  // ---------------------------------------------------------------------

  /**
   * As written, the upload key of a directory archive carries the run's
   * timestamp, so the versions one run uploads never start with the key of a
   * run stamped at another second.
   */
  lemma StampedKeysNeverMatch(d: string, t1: DateTime, t2: DateTime, u: DateTime)
    requires t1 != t2
    ensures !StartsWith(UploadName(DirArchiveName(d, t1), u), DirArchiveName(d, t2))
  {
    var b1, b2 := DirArchiveName(d, t1), DirArchiveName(d, t2);
    var x := UploadName(b1, u);
    if StartsWith(x, b2) {
      PrefixOfLonger(b1, ".", Strftime(u), b2);
      DirArchiveNameInjective(d, t1, d, t2);
    }
  }

  /** A prefix as long as the first part of a concatenation is that part. */
  lemma PrefixOfLonger(b: string, c: string, e: string, p: string)
    requires StartsWith(b + c + e, p) && |p| == |b|
    ensures p == b
  {
    assert (b + c + e)[..|b|] == b;
  }

  /**
   * Consequence: two runs over an unchanged directory, starting from a remote
   * directory holding no version of either key, store the archive twice; the
   * first copy is neither compared against nor pruned.
   */
  lemma StampedRerunUploadsAgain(m: map<string, nat>, d: string, size: nat, t1: DateTime, t2: DateTime, u1: DateTime, u2: DateTime)
    requires t1 != t2
    requires Matching(m, DirArchiveName(d, t1)) == {} && Matching(m, DirArchiveName(d, t2)) == {}
    ensures var b1, b2 := DirArchiveName(d, t1), DirArchiveName(d, t2);
            var m1 := SyncOne(m, b1, size, u1);
            SyncOps(m1, b2, size, u2) == [Stor(UploadName(b2, u2), size)] &&
            SyncOne(m1, b2, size, u2) == m[UploadName(b1, u1) := size][UploadName(b2, u2) := size]
  {
    var b1, b2 := DirArchiveName(d, t1), DirArchiveName(d, t2);
    FirstUpload(m, b1, size, u1);
    var m1 := m[UploadName(b1, u1) := size];
    StampedKeysNeverMatch(d, t1, t2, u1);
    assert Matching(m1, b2) == {};
    FirstUpload(m1, b2, size, u2);
  }

  /** The evidently intended key: the directory's archive name without the run's timestamp. */
  function StableArchiveName(d: string): (r: string)
    ensures '/' !in r
  {
    var s := DirSegment(d);
    assert '/' !in ".zip" by {
      assert ".zip" == ['.', 'z', 'i', 'p'];
    }
    NoSlashAppend(s, ".zip");
    s + ".zip"
  }

  /**
   * With the stable key, the first run's version is found by the second run,
   * and a re-run over an unchanged directory leaves the remote directory as
   * it was, issuing no change.
   */
  lemma StableRerunIsNoOp(m: map<string, nat>, d: string, size: nat, u1: DateTime, u2: DateTime)
    requires Matching(m, StableArchiveName(d)) == {}
    ensures var b := StableArchiveName(d);
            UploadName(b, u1) in Matching(SyncOne(m, b, size, u1), b) &&
            SyncOne(SyncOne(m, b, size, u1), b, size, u2) == SyncOne(m, b, size, u1) &&
            SyncOps(SyncOne(m, b, size, u1), b, size, u2) == []
  {
    var b := StableArchiveName(d);
    FirstUpload(m, b, size, u1);
    UploadNameMatches(b, u1);
    RerunIsNoOp(m, b, size, u1, u2);
  }
}
