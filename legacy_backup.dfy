/** The first version of the backup manager. The worlds directory is the
    `level-name` text read from server.properties, used in string
    concatenations; backups are written under the category folder
    "Worlds" and read back from "worlds". */
module LegacyBackups {
  import opened Paths
  import opened Wrappers
  import opened FileSystems
  import opened Archiving
  import opened Restoring

  /** The text is that of a non-empty relative path: no empty names, no
      leading or trailing separator. For the path texts this model
      represents, only then does stripping its length plus one from a path
      text remove exactly the directory and its separator. */
  predicate NormalText(t: string)
  {
    |Split(t)| > 0 && Join(Split(t)) == t
  }

  class Backup {
    const backupDirectory: Path
    const worldsDirectory: string

    constructor (backupDirectory: Path, worldsDirectory: string)
      requires ValidPath(backupDirectory)
      ensures this.backupDirectory == backupDirectory && this.worldsDirectory == worldsDirectory
    {
      this.backupDirectory := backupDirectory;
      this.worldsDirectory := worldsDirectory;
    }

    ghost predicate Valid()
    {
      ValidPath(backupDirectory)
    }

    /** The world folder `worldsDirectory + "/" + worldName`. */
    function WorldFolder(worldName: string): Path
    {
      Split(worldsDirectory + "/" + worldName)
    }

    /** The category folder backups are written to. */
    function BackupFolder(): Path
    {
      Split(Join(backupDirectory) + "/" + "Worlds")
    }

    /** The archive `loadWorld` opens for `backupName`. */
    function LoadArchive(backupName: string): Path
    {
      Split(Join(backupDirectory) + "/" + ("worlds" + "/" + (backupName + ".zip")))
    }

    /** `backupWorld(worldName)`: fails unless the server has a world of
        that name, then compresses it into the "Worlds" folder. */
    method BackupWorld(fs: FileSystem, loaded: set<string>, worldName: string)
      returns (outcome: Outcome, ghost listed: seq<string>, ghost paths: seq<Path>, ghost entries: seq<Entry>)
      requires Valid() && fs.Valid()
      modifies fs
      ensures fs.Valid()
      ensures worldName !in loaded ==> outcome == Thrown(NoSuchWorld) && fs.nodes == old(fs.nodes)
      ensures worldName in loaded ==>
                Compressed(old(fs.nodes), fs.nodes, outcome, worldsDirectory, backupDirectory,
                           WorldFolder(worldName), BackupFolder(), |worldsDirectory| + 1, listed, paths, entries)
      ensures worldName in loaded && NormalText(worldsDirectory) && ValidSegment(worldName)
              && CanArchive(old(fs.nodes), backupDirectory, WorldFolder(worldName), BackupFolder()) ==>
                && outcome == Returned
                && var n2 := Opened(old(fs.nodes), BackupFolder(), WorldFolder(worldName));
                   && fs.nodes == n2[ArchivePath(BackupFolder(), WorldFolder(worldName)) := Zip(entries)]
                   && Snapshot(entries, paths, n2, WorldFolder(worldName))
    {
      listed, paths, entries := [], [], [];
      if worldName !in loaded {
        return Thrown(NoSuchWorld), listed, paths, entries;
      }
      ghost var n0 := fs.nodes;
      outcome, listed, paths, entries :=
        Compress(fs, worldsDirectory, backupDirectory, WorldFolder(worldName), BackupFolder(), |worldsDirectory| + 1);
      if NormalText(worldsDirectory) && ValidSegment(worldName)
         && CanArchive(n0, backupDirectory, WorldFolder(worldName), BackupFolder()) {
        var wd := Split(worldsDirectory);
        SplitConcat(worldsDirectory, worldName);
        SplitSegment(worldName);
        CompressSnapshot(n0, fs.nodes, outcome, wd, worldName, backupDirectory, BackupFolder(), listed, paths, entries);
      }
    }

    /** `loadWorld(backupName, worldName, overwrite)`. */
    method LoadWorld(fs: FileSystem, loaded: set<string>, backupName: string, worldName: string, overwrite: bool)
      returns (outcome: Outcome)
      requires Valid() && fs.Valid()
      modifies fs
      ensures fs.Valid()
      ensures Loaded(old(fs.nodes), fs.nodes, outcome, worldName in loaded, overwrite, WorldAlreadyExists,
                     WorldFolder(worldName), LoadArchive(backupName))
    {
      outcome := Restore(fs, worldName in loaded, overwrite, WorldAlreadyExists, WorldFolder(worldName), LoadArchive(backupName));
    }

    /** `loadWorld(backupName)`: restores under the same name, never overwriting. */
    method LoadWorldAs(fs: FileSystem, loaded: set<string>, backupName: string) returns (outcome: Outcome)
      requires Valid() && fs.Valid()
      modifies fs
      ensures fs.Valid()
      ensures Loaded(old(fs.nodes), fs.nodes, outcome, backupName in loaded, false, WorldAlreadyExists,
                     WorldFolder(backupName), LoadArchive(backupName))
    {
      outcome := LoadWorld(fs, loaded, backupName, backupName, false);
    }

    /** `loadWorld(backupName, worldName)`: restores under another name, never overwriting. */
    method LoadWorldRenamed(fs: FileSystem, loaded: set<string>, backupName: string, worldName: string)
      returns (outcome: Outcome)
      requires Valid() && fs.Valid()
      modifies fs
      ensures fs.Valid()
      ensures Loaded(old(fs.nodes), fs.nodes, outcome, worldName in loaded, false, WorldAlreadyExists,
                     WorldFolder(worldName), LoadArchive(backupName))
    {
      outcome := LoadWorld(fs, loaded, backupName, worldName, false);
    }
  }

  /** The archive `backupWorld` writes is never the one `loadWorld` opens:
      the category folders differ in case ("Worlds" and "worlds"). */
  lemma BackupNeverLoaded(b: Backup, worldName: string, backupName: string)
    requires b.Valid()
    ensures ArchivePath(b.BackupFolder(), b.WorldFolder(worldName)) != b.LoadArchive(backupName)
  {
    var bd := b.backupDirectory;
    SplitConcat(Join(bd), "Worlds");
    SplitConcat(Join(bd), "worlds" + "/" + (backupName + ".zip"));
    SplitConcat("worlds", backupName + ".zip");
    SplitJoin(bd);
    SplitSegment("Worlds");
    SplitSegment("worlds");
    assert ArchivePath(b.BackupFolder(), b.WorldFolder(worldName))[|bd|] == "Worlds";
    assert b.LoadArchive(backupName)[|bd|] == "worlds";
  }

  /** The `Backup(path)` constructor: makes the backup folder if missing,
      fails unless it is then a directory, and fails when server.properties
      cannot be read (`levelName` is `None`). */
  method Open(fs: FileSystem, path: string, levelName: Option<string>) returns (r: Result<Backup, Error>)
    requires fs.Valid()
    modifies fs
    ensures fs.Valid()
    ensures fs.nodes == AfterMkdir(old(fs.nodes), Split(path))
    ensures !IsDir(fs.nodes, Split(path)) ==> r == Err(IllegalBackupDestination)
    ensures IsDir(fs.nodes, Split(path)) && levelName.None? ==> r == Err(ServerPropertiesUnreadable)
    ensures IsDir(fs.nodes, Split(path)) && levelName.Some? ==>
              && r.Ok? && fresh(r.value) && r.value.Valid()
              && r.value.backupDirectory == Split(path)
              && r.value.worldsDirectory == levelName.value
  {
    var directory := Split(path);
    if !fs.Exists(directory) {
      var _ := fs.MakeDir(directory);
    }
    if !fs.IsDirectory(directory) {
      return Err(IllegalBackupDestination);
    }
    if levelName.None? {
      return Err(ServerPropertiesUnreadable);
    }
    var b := new Backup(directory, levelName.value);
    return Ok(b);
  }

  /** The static `instance` field. */
  class Holder {
    var instance: Option<Backup>

    constructor ()
      ensures instance == None
    {
      instance := None;
    }

    /** `Backup.instance(path)`: the first call runs the constructor and
        keeps the manager it builds, failing as the constructor does; every
        later call returns the kept manager, whatever its path. */
    method Instance(fs: FileSystem, path: string, levelName: Option<string>) returns (r: Result<Backup, Error>)
      requires fs.Valid()
      requires instance.Some? ==> instance.value.Valid()
      modifies this, fs
      ensures fs.Valid()
      ensures instance.Some? ==> instance.value.Valid()
      ensures old(instance).Some? ==> r == Ok(old(instance).value) && instance == old(instance) && fs.nodes == old(fs.nodes)
      ensures old(instance).None? && r.Ok? ==> instance == Some(r.value) && fresh(r.value)
      ensures old(instance).None? && r.Err? ==> instance == None
      ensures old(instance).None? ==> fs.nodes == AfterMkdir(old(fs.nodes), Split(path))
      ensures old(instance).None? && !IsDir(fs.nodes, Split(path)) ==> r == Err(IllegalBackupDestination)
      ensures old(instance).None? && IsDir(fs.nodes, Split(path)) && levelName.None? ==> r == Err(ServerPropertiesUnreadable)
      ensures old(instance).None? && IsDir(fs.nodes, Split(path)) && levelName.Some? ==>
                r.Ok? && r.value.backupDirectory == Split(path) && r.value.worldsDirectory == levelName.value
    {
      if instance.Some? {
        return Ok(instance.value);
      }
      r := Open(fs, path, levelName);
      if r.Ok? {
        instance := Some(r.value);
      }
    }
  }
}
