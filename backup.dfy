/** The later version of the backup manager. The worlds directory is the
    server's saves directory, kept as a path; backups are written under
    the category folder "worlds" and read back from the same folder. */
module Backups {
  import opened Paths
  import opened Wrappers
  import opened FileSystems
  import opened Archiving
  import opened Restoring

  class Backup {
    const backupDirectory: Path
    const worldsDirectory: Path

    constructor (backupDirectory: Path, worldsDirectory: Path)
      requires ValidPath(backupDirectory) && ValidPath(worldsDirectory)
      ensures this.backupDirectory == backupDirectory && this.worldsDirectory == worldsDirectory
    {
      this.backupDirectory := backupDirectory;
      this.worldsDirectory := worldsDirectory;
    }

    ghost predicate Valid()
    {
      ValidPath(backupDirectory) && ValidPath(worldsDirectory)
    }

    /** `new File(worldsDirectory, name)`. */
    function WorldFolder(name: string): Path
    {
      Split(Join(worldsDirectory) + "/" + name)
    }

    /** The category folder backups are written to. */
    function BackupFolder(): Path
    {
      Split(Join(backupDirectory) + "/" + "worlds")
    }

    /** The archive `load` opens for `backupName`. */
    function LoadArchive(backupName: string): Path
    {
      Split(Join(backupDirectory) + "/" + ("worlds" + "/" + (backupName + ".zip")))
    }

    /** The number of characters `generateFileList` strips from each
        file's path text: the saves directory's last name and a separator. */
    function Strip(): nat
    {
      |Name(worldsDirectory)| + 1
    }

    /** `world(worldName)`: fails unless the server has a world of that
        name, then compresses it into the "worlds" folder. With a saves
        directory of one name the archive, when nothing stops the step
        early, is a snapshot of the world. */
    method World(fs: FileSystem, loaded: set<string>, worldName: string)
      returns (outcome: Outcome, ghost listed: seq<string>, ghost paths: seq<Path>, ghost entries: seq<Entry>)
      requires Valid() && fs.Valid()
      modifies fs
      ensures fs.Valid()
      ensures worldName !in loaded ==> outcome == Thrown(NoSuchWorld) && fs.nodes == old(fs.nodes)
      ensures worldName in loaded ==>
                Compressed(old(fs.nodes), fs.nodes, outcome, Join(worldsDirectory), backupDirectory,
                           WorldFolder(worldName), BackupFolder(), Strip(), listed, paths, entries)
      ensures worldName in loaded && |worldsDirectory| == 1 && ValidSegment(worldName)
              && CanArchive(old(fs.nodes), backupDirectory, WorldFolder(worldName), BackupFolder()) ==>
                && outcome == Returned
                && var n2 := Opened(old(fs.nodes), BackupFolder(), WorldFolder(worldName));
                   && fs.nodes == n2[ArchivePath(BackupFolder(), WorldFolder(worldName)) := Zip(entries)]
                   && Snapshot(entries, paths, n2, WorldFolder(worldName))
    {
      listed, paths, entries := [], [], [];
      if worldName !in loaded {
        return Thrown(NoSuchWorld), listed, paths, entries;
      }
      ghost var n0 := fs.nodes;
      outcome, listed, paths, entries :=
        Compress(fs, Join(worldsDirectory), backupDirectory, WorldFolder(worldName), BackupFolder(), Strip());
      if |worldsDirectory| == 1 && ValidSegment(worldName)
         && CanArchive(n0, backupDirectory, WorldFolder(worldName), BackupFolder()) {
        WorldFolderPath(worldName);
        CompressSnapshot(n0, fs.nodes, outcome, worldsDirectory, worldName, backupDirectory, BackupFolder(),
                         listed, paths, entries);
      }
    }

    /** `load(backupName, worldName, overwrite)`. */
    method Load(fs: FileSystem, loaded: set<string>, backupName: string, worldName: string, overwrite: bool)
      returns (outcome: Outcome)
      requires Valid() && fs.Valid()
      modifies fs
      ensures fs.Valid()
      ensures Loaded(old(fs.nodes), fs.nodes, outcome, worldName in loaded, overwrite, WriteAborted,
                     WorldFolder(worldName), LoadArchive(backupName))
    {
      outcome := Restore(fs, worldName in loaded, overwrite, WriteAborted, WorldFolder(worldName), LoadArchive(backupName));
    }

    /** `load(backupName)`: restores under the same name, never overwriting. */
    method LoadAs(fs: FileSystem, loaded: set<string>, backupName: string) returns (outcome: Outcome)
      requires Valid() && fs.Valid()
      modifies fs
      ensures fs.Valid()
      ensures Loaded(old(fs.nodes), fs.nodes, outcome, backupName in loaded, false, WriteAborted,
                     WorldFolder(backupName), LoadArchive(backupName))
    {
      outcome := Load(fs, loaded, backupName, backupName, false);
    }

    /** `load(backupName, worldName)`: restores under another name, never overwriting. */
    method LoadRenamed(fs: FileSystem, loaded: set<string>, backupName: string, worldName: string)
      returns (outcome: Outcome)
      requires Valid() && fs.Valid()
      modifies fs
      ensures fs.Valid()
      ensures Loaded(old(fs.nodes), fs.nodes, outcome, worldName in loaded, false, WriteAborted,
                     WorldFolder(worldName), LoadArchive(backupName))
    {
      outcome := Load(fs, loaded, backupName, worldName, false);
    }

    /** A world's folder is the saves directory followed by its name. */
    lemma WorldFolderPath(name: string)
      requires Valid() && ValidSegment(name)
      ensures WorldFolder(name) == worldsDirectory + [name]
      ensures Name(WorldFolder(name)) == name
    {
      SplitConcat(Join(worldsDirectory), name);
      SplitJoin(worldsDirectory);
      SplitSegment(name);
    }

    /** The archive `world` writes for `worldName` is the one `load` opens
        for `backupName` exactly when the names agree. */
    lemma ArchivesAgree(worldName: string, backupName: string)
      requires Valid() && ValidSegment(worldName) && ValidSegment(backupName)
      ensures ArchivePath(BackupFolder(), WorldFolder(worldName)) == LoadArchive(backupName) <==> worldName == backupName
    {
      var bd := backupDirectory;
      WorldFolderPath(worldName);
      SplitConcat(Join(bd), "worlds");
      SplitConcat(Join(bd), "worlds" + "/" + (backupName + ".zip"));
      SplitConcat("worlds", backupName + ".zip");
      SplitJoin(bd);
      SplitSegment("worlds");
      SplitSegment(backupName + ".zip");
      var written := bd + ["worlds", worldName + ".zip"];
      var read := bd + ["worlds", backupName + ".zip"];
      assert ArchivePath(BackupFolder(), WorldFolder(worldName)) == written;
      assert LoadArchive(backupName) == read;
      if written == read {
        assert written[|bd| + 1] == worldName + ".zip" && read[|bd| + 1] == backupName + ".zip";
        assert worldName == (worldName + ".zip")[..|worldName|];
        assert backupName == (backupName + ".zip")[..|backupName|];
      }
    }
  }

  /** A node that is absent has nothing below it in a well-formed tree. */
  lemma NothingBelowAbsent(fs: Nodes, p: Path)
    requires WellFormed(fs) && p !in fs && |p| > 0
    ensures Below(fs, p) == {}
  {
    forall q | q in fs && |q| > |p| ensures q[..|p|] != p {
      AncestorIsDir(fs, q, |p|);
    }
  }

  /** Backing up a world and loading that backup under a name no folder
      has yet: with a saves directory of one name and nothing stopping the
      backup early, the load ends normally, keeps every node and restores
      each file of the world, as it stood when the archive was opened, at
      the new world folder with its full bytes followed by buffer padding. */
  lemma BackupThenLoad(b: Backup, n0: Nodes, n: Nodes, entries: seq<Entry>, paths: seq<Path>,
                       n': Nodes, outcome': Outcome, worldName: string, newName: string)
    requires b.Valid() && |b.worldsDirectory| == 1 && ValidSegment(worldName) && ValidSegment(newName)
    requires WellFormed(n0) && CanArchive(n0, b.backupDirectory, b.WorldFolder(worldName), b.BackupFolder())
    requires var n2 := Opened(n0, b.BackupFolder(), b.WorldFolder(worldName));
      && n == n2[ArchivePath(b.BackupFolder(), b.WorldFolder(worldName)) := Zip(entries)]
      && Snapshot(entries, paths, n2, b.WorldFolder(worldName))
    requires WellFormed(n) && b.WorldFolder(newName) !in n
    requires Loaded(n, n', outcome', false, false, WriteAborted, b.WorldFolder(newName), b.LoadArchive(worldName))
    ensures outcome' == Returned
    ensures forall q :: q in n ==> q in n' && n'[q] == n[q]
    ensures var n2 := Opened(n0, b.BackupFolder(), b.WorldFolder(worldName));
      forall i :: 0 <= i < |paths| ==>
        var restored := b.WorldFolder(newName) + paths[i][|b.WorldFolder(worldName)|..];
        && restored in n' && n'[restored].File?
        && ReadAt(n2, paths[i]).Some?
        && PaddedCopy(ReadAt(n2, paths[i]).value, n'[restored].data)
  {
    var src := b.WorldFolder(worldName);
    var target := b.WorldFolder(newName);
    var archive := ArchivePath(b.BackupFolder(), src);
    var n2 := Opened(n0, b.BackupFolder(), src);
    b.ArchivesAgree(worldName, worldName);
    b.WorldFolderPath(newName);
    assert ParentIsDir(n, target) by {
      b.WorldFolderPath(worldName);
      assert src in n2 && n2[src].Dir?;
      assert src in n;
      assert |src| > 1 ==> IsDir(n, Parent(src));
      assert Parent(target) == Parent(src);
    }
    var n1 := AfterMkdir(n, target);
    assert n1 == n[target := Dir];
    NothingBelowAbsent(n, target);
    assert Below(n1, target) == {};
    assert archive in n1 && n1[archive] == Zip(entries);
    OpenedWellFormed(n0, b.BackupFolder(), src);
    RestoreSnapshot(n2, src, paths, entries, n1, target, Zeros());
  }

  /** With a saves directory of two or more names the strip count is too
      small: each listed file is read back at a path with more names than
      the file's own, so the copy never reads the file it listed. */
  lemma NestedSavesMisread(wd: Path, s: string, p: Path)
    requires ValidPath(wd) && |wd| >= 2 && ValidSegment(s) && ValidPath(p)
    requires |p| > |wd| + 1 && p[..|wd| + 1] == wd + [s]
    ensures |Name(wd)| + 1 <= |Join(p)|
    ensures |Split(Join(wd) + "/" + Join(p)[|Name(wd)| + 1..])| > |p|
  {
    var k := |Name(wd)| + 1;
    var rest := p[|wd|..];
    assert p == wd + rest;
    assert |rest| > 1 && rest[0] == s;
    JoinAppend(wd, rest);
    JoinLength(wd);
    JoinLast(wd);
    var tail := Join(wd)[k..];
    assert Join(p)[k..] == tail + "/" + Join(rest);
    SplitNonEmpty(tail);
    SplitConcat(tail, Join(rest));
    SplitJoin(rest);
    SplitConcat(Join(wd), Join(p)[k..]);
    SplitJoin(wd);
  }

  /** The `Backup(path)` constructor: makes the backup folder if missing
      and fails unless it is then a directory. The saves directory comes
      from the game. */
  method Open(fs: FileSystem, path: string, savesDirectory: Path) returns (r: Result<Backup, Error>)
    requires fs.Valid() && ValidPath(savesDirectory)
    modifies fs
    ensures fs.Valid()
    ensures fs.nodes == AfterMkdir(old(fs.nodes), Split(path))
    ensures !IsDir(fs.nodes, Split(path)) ==> r == Err(IllegalBackupDestination)
    ensures IsDir(fs.nodes, Split(path)) ==>
              && r.Ok? && fresh(r.value) && r.value.Valid()
              && r.value.backupDirectory == Split(path)
              && r.value.worldsDirectory == savesDirectory
  {
    var directory := Split(path);
    if !fs.Exists(directory) {
      var _ := fs.MakeDir(directory);
    }
    if !fs.IsDirectory(directory) {
      return Err(IllegalBackupDestination);
    }
    var b := new Backup(directory, savesDirectory);
    return Ok(b);
  }

  /** The static `instance` field. */
  class Holder {
    var instance: Option<Backup>

    constructor ()
      ensures instance == None
    {
      instance := None;
    }

    /** `Backup.instance(path)`: the first call runs the constructor and
        keeps the manager it builds, failing as the constructor does; every
        later call returns the kept manager, whatever its path. */
    method Instance(fs: FileSystem, path: string, savesDirectory: Path) returns (r: Result<Backup, Error>)
      requires fs.Valid() && ValidPath(savesDirectory)
      requires instance.Some? ==> instance.value.Valid()
      modifies this, fs
      ensures fs.Valid()
      ensures instance.Some? ==> instance.value.Valid()
      ensures old(instance).Some? ==> r == Ok(old(instance).value) && instance == old(instance) && fs.nodes == old(fs.nodes)
      ensures old(instance).None? && r.Ok? ==> instance == Some(r.value) && fresh(r.value)
      ensures old(instance).None? && r.Err? ==> instance == None
      ensures old(instance).None? ==> fs.nodes == AfterMkdir(old(fs.nodes), Split(path))
      ensures old(instance).None? && !IsDir(fs.nodes, Split(path)) ==> r == Err(IllegalBackupDestination)
      ensures old(instance).None? && IsDir(fs.nodes, Split(path)) ==>
                r.Ok? && r.value.backupDirectory == Split(path) && r.value.worldsDirectory == savesDirectory
    {
      if instance.Some? {
        return Ok(instance.value);
      }
      r := Open(fs, path, savesDirectory);
      if r.Ok? {
        instance := Some(r.value);
      }
    }
  }
}
