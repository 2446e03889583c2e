# Ember core, modelled in Dafny

Ember is a minigame plugin for Sponge Minecraft servers. This project models its three pieces of sequential logic and proves properties of them:

- **The world backup manager.** It archives a world folder into `<backup>/<category>/<world>.zip` and restores an archive into a world folder. There are two versions:
  - the first version, `src/com/dracade/ember/system/Backup.java`, also nested in `Ember.java`;
  - the later version, `src/main/java/com/dracade/ember/system/Backup.java`.
- **The arena registry.** It is a table from arenas to the scheduler tasks running their minigames (`Ember.java`).
- **The serializer.** It is a table of Gson type adapters, plus the lookup of an object's class from the `"type"` member of its JSON form (`system/Serializer.java`, also nested in `Ember.java`).

The file system is a map from paths to nodes (directory, file bytes, or archive). A path is a sequence of names; `new File(text)` splits the text on `/` and drops empty names. Every path is relative: a leading `/` is not kept (see "Left out").

The library modules are shared by the backup classes:
- `Paths`;
- `FileSystems` (the `java.io.File` operations, as the class `FileSystem`);
- `Streams` (the two 1024-byte copy loops);
- `Archiving` (`generateFileList` and the compress step);
- `Restoring` (the load step).

`LegacyBackups` and `Backups` are thin classes over those modules. Each holds the version's field values, category folder names, strip counts and exception.

The model proves the quirks of the code as written:
- **The first version never loads its own backups** where file names are case-sensitive. It writes them under `Worlds` and opens them under `worlds` (`LegacyBackups.BackupNeverLoaded`). The later version uses `worlds` for both, and its archive paths agree exactly when the names do (`Backups.Backup.ArchivesAgree`).
- **Restored files are padded.** The restore loop writes the whole buffer after each read, so a restored file is its original bytes followed by stale buffer bytes, up to a whole number of 1024-byte blocks (`Streams.PaddedShort`, `Restoring.RestoredArePadded`). It equals the original only when the original's length is a multiple of 1024 (`Streams.PaddedExact`).
- **An existing world folder is never deleted.** The guard looks for the strings `level.dat` and `level_sponge.dat` in a list of `File` objects, so it never matches (`Restoring.MarkersNeverFound`).
- **The strip count is right in the cases the model proves.** Among relative paths, it is right when the worlds directory's text names a normalised path (first version), or when the saves directory has a single name (later version). The code is also right for a normalised absolute text, which is not modelled (see "Left out"). In the proved cases a backup is a snapshot of the world (`Archiving.CompressSnapshot`), and backing up and loading under a fresh name restores every file, padded (`Backups.BackupThenLoad`). With a saves directory of two or more names, every listed file is read back from a path that is not its own (`Backups.NestedSavesMisread`).

## Model

| member | source | states |
|---|---|---|
| Paths.SplitConcat | src/com/dracade/ember/system/Backup.java:104 | `new File(a + "/" + b)` is the path of `a` followed by the path of `b` |
| Paths.SplitJoin | src/main/java/com/dracade/ember/system/Backup.java:99 | a File built from a path's text is that path again |
| Paths.JoinInjective | src/com/dracade/ember/system/Backup.java:184 | two valid paths have the same `getPath()` text iff they are the same path |
| Paths.StripJoin | src/com/dracade/ember/system/Backup.java:188 | removing a leading path's text and one separator from a longer path's text leaves the text of the rest |
| FileSystems.Mkdir | src/com/dracade/ember/system/Backup.java:49-51 | `mkdir` succeeds iff the path is absent and its parent is a directory; then it adds exactly that directory, otherwise it changes nothing; a well-formed tree (every node's parent a directory) stays well formed |
| FileSystems.Mkdirs | src/com/dracade/ember/system/Backup.java:264-268 | `mkdirs` keeps every existing node and adds only directories on the way to the path |
| FileSystems.MkdirsMakesDir | src/com/dracade/ember/system/Backup.java:265 | when no node on the way is a file, the path is a directory after `mkdirs` |
| FileSystems.Delete | src/com/dracade/ember/system/Backup.java:235 | `delete` removes the node iff it is a file or an empty directory; a well-formed tree stays well formed, and a node is removed only when nothing at any depth lies below it |
| FileSystems.FileSystem.ListFiles | src/com/dracade/ember/system/Backup.java:177 | `listFiles` is null iff the path is not a directory; otherwise it lists each child exactly once |
| FileSystems.FileSystem.ReadAll | src/com/dracade/ember/system/Backup.java:145 | a FileInputStream opens iff the node exists and is not a directory; it reads the node's bytes |
| FileSystems.FileSystem.OpenZip | src/com/dracade/ember/system/Backup.java:248-251 | `new ZipFile` opens iff the node is an archive; its entries are the archive's |
| FileSystems.FileSystem.OpenOutput | src/com/dracade/ember/system/Backup.java:128 | a FileOutputStream opens iff the parent is a directory and the path is not one; it truncates the file to empty |
| FileSystems.FileSystem.MakeDir | src/com/dracade/ember/system/Backup.java:111-113 | the state after `mkdir` is `Mkdir`'s result, and the tree stays well formed |
| FileSystems.FileSystem.MakeDirs | src/com/dracade/ember/system/Backup.java:267 | the state after `mkdirs` is `Mkdirs`'s result, and the tree stays well formed |
| FileSystems.FileSystem.Remove | src/com/dracade/ember/system/Backup.java:235 | the state after `delete` is `Delete`'s result, and the tree stays well formed |
| FileSystems.FileSystem.Store | src/com/dracade/ember/system/Backup.java:158 | closing an output stream stores what was written at that path only |
| Streams.CopyIntoEntry | src/com/dracade/ember/system/Backup.java:148-150 | whatever lengths the reads return, the entry receives exactly the file's bytes |
| Streams.WriteEntry | src/com/dracade/ember/system/Backup.java:275-277 | the restore loop writes `Padded(data, buffer)` and leaves the shared buffer as `BufferAfter` says |
| Streams.ReadChunk | src/com/dracade/ember/system/Backup.java:275 | one read copies as many bytes as fit or remain to the front of the buffer and leaves the rest of the buffer as it was |
| Streams.PaddedPrefix | src/com/dracade/ember/system/Backup.java:276 | the restored bytes begin with the entry's bytes |
| Streams.PaddedLength | src/main/java/com/dracade/ember/system/Backup.java:287 | the restored length is a multiple of 1024, at least the entry's length, and less than it plus 1024 |
| Streams.PaddedExact | src/main/java/com/dracade/ember/system/Backup.java:286-288 | the restored bytes equal the entry's iff its length is a multiple of 1024 |
| Streams.PaddedShort | src/com/dracade/ember/Ember.java:704-706 | an entry shorter than the buffer is restored followed by the buffer's stale tail |
| Archiving.GenerateFileList | src/com/dracade/ember/system/Backup.java:172-194 | the result is NullPointerException iff the source is not a directory; otherwise StringIndexOutOfBounds only when some file's text is too short; otherwise every non-directory node below the source, once, as its path text minus the strip count; also models src/main/java/com/dracade/ember/system/Backup.java:170-193 and src/com/dracade/ember/Ember.java:466-499 |
| Archiving.CopyFiles | src/com/dracade/ember/system/Backup.java:137-155 | it succeeds iff every string is long enough, the entry names are distinct and every file opens; then entry i is named by string i minus its world prefix and holds the bytes read for it |
| Archiving.Compress | src/com/dracade/ember/system/Backup.java:102-163 | makes the category folder; throws IllegalBackupDestination when the backup folder is not a directory or the source is missing, before any archive exists; when the archive opens, lists and copies, leaving an empty archive file on any later failure; a failed copy escapes as StringIndexOutOfBounds only when some listed string is shorter than the world prefix, and otherwise the I/O failure is swallowed and it returns; also models src/main/java/com/dracade/ember/system/Backup.java:97-161 and src/com/dracade/ember/Ember.java:508-585 |
| Archiving.ArchivePathText | src/com/dracade/ember/system/Backup.java:128 | the archive is the category folder followed by `<source name>.zip` |
| Archiving.NoShortFile | src/com/dracade/ember/system/Backup.java:188 | with the strip count equal to the worlds directory's text length plus one, no file in a world is too short |
| Archiving.ListedFile | src/com/dracade/ember/system/Backup.java:141-145 | such a listed string starts with `<world>/`, the rest is the file's path relative to the world, and re-prefixing the worlds directory reads the file itself |
| Archiving.ListedNamesInjective | src/com/dracade/ember/system/Backup.java:141 | two listed files with the same entry name are the same file, so no duplicate-entry failure occurs |
| Archiving.ListingCopies | src/com/dracade/ember/system/Backup.java:137-150 | with that strip count, every listed file copies |
| Archiving.ListingSnapshot | src/com/dracade/ember/system/Backup.java:139-142 | entries made from such a listing are named by each file's path relative to the world (the world's own name removed once) and hold its bytes |
| Archiving.OpenedWellFormed | src/com/dracade/ember/system/Backup.java:111-128 | the tree stays well formed once the category folder is made and the archive opened |
| Archiving.CompressSnapshot | src/com/dracade/ember/system/Backup.java:102-163 | when the worlds directory's text is a path and nothing stops the step early, it returns normally and the archive is a snapshot of the world |
| Restoring.MarkersNeverFound | src/com/dracade/ember/system/Backup.java:234 | a list of File objects never contains the marker strings, so the existing folder is never deleted; also models src/main/java/com/dracade/ember/system/Backup.java:242-243 |
| Restoring.NoStringAmongFiles | src/com/dracade/ember/Ember.java:658 | `contains` of a String in a list of Files is false |
| Restoring.RestoreEntry | src/com/dracade/ember/system/Backup.java:259-281 | one entry: `mkdirs` of the entry or its parent, NullPointerException for a path without a parent, stop when the output does not open, else the padded bytes; also models src/main/java/com/dracade/ember/system/Backup.java:268-292 |
| Restoring.Restore | src/com/dracade/ember/system/Backup.java:222-290 | the load step: the version's exception before any change when the world exists without overwrite; NullPointerException when its folder cannot be listed; no deletion; world folder made; entries restored in order when the archive opens; also models src/main/java/com/dracade/ember/system/Backup.java:228-301 and src/com/dracade/ember/Ember.java:640-722 |
| Restoring.RestoreAll | src/com/dracade/ember/system/Backup.java:254-282 | the loop over the entries, with one buffer that starts zeroed and is shared by all entries, ends as `Extract` says; also models src/main/java/com/dracade/ember/system/Backup.java:263-293 |
| Restoring.ExtractPlaces | src/com/dracade/ember/system/Backup.java:258-282 | restoring plain, prefix-free entries into writable places ends normally, keeps every node, puts entry i at the world folder plus its name with its padded bytes, and adds nothing but those files and directories |
| Restoring.NamedByIndex | src/com/dracade/ember/system/Backup.java:262 | a path is named by the entries iff it is the world folder followed by the name of some entry |
| Restoring.RestoredArePadded | src/com/dracade/ember/system/Backup.java:254-277 | with the buffer shared across entries, every restored file is a padded copy of its entry |
| Restoring.PaddedCopyExact | src/com/dracade/ember/system/Backup.java:276 | a padded copy of a whole number of buffers is the original |
| Restoring.EntryPathText | src/main/java/com/dracade/ember/system/Backup.java:271 | `new File(worldDir, name)` is the world folder followed by the name's path |
| Restoring.FilePrefixOnlyOfItself | src/com/dracade/ember/system/Backup.java:264-268 | in a well-formed tree a file is a prefix of no other node |
| Restoring.SnapshotEntries | src/com/dracade/ember/system/Backup.java:262 | a snapshot's entries are plain file entries, prefix-free, each naming its file's relative path |
| Restoring.FreshTargetWritable | src/com/dracade/ember/system/Backup.java:240-244 | every path below a freshly made, empty world folder is writable |
| Restoring.RestoreSnapshot | src/com/dracade/ember/system/Backup.java:246-289 | restoring a snapshot into an empty world folder ends normally, keeps every node and places a padded copy of each file at its relative path |
| LegacyBackups.Open | src/com/dracade/ember/system/Backup.java:44-74 | makes the backup folder if missing; IllegalBackupDestination unless it is then a directory; unreadable server.properties is an error; otherwise a manager over that folder and the level name; also models src/com/dracade/ember/Ember.java:419-457 |
| LegacyBackups.Holder.constructor | src/com/dracade/ember/system/Backup.java:23 | the singleton field starts empty |
| LegacyBackups.Holder.Instance | src/com/dracade/ember/system/Backup.java:29-31 | the first call fails exactly as `Open` does (IllegalBackupDestination, or ServerPropertiesUnreadable when server.properties cannot be read) and otherwise builds and keeps the manager over that path and the level name; later calls return the same one and ignore their path |
| LegacyBackups.Backup.BackupWorld | src/com/dracade/ember/system/Backup.java:82-93 | an unknown world throws before any change; otherwise the compress step into `Worlds`, which yields a snapshot when the worlds directory text is normal; also models src/com/dracade/ember/Ember.java:593-612 |
| LegacyBackups.Backup.LoadWorld | src/com/dracade/ember/system/Backup.java:222-290 | the load step into `<level>/<world>` from `<backup>/worlds/<name>.zip`, refusing an existing world without overwrite |
| LegacyBackups.Backup.LoadWorldAs | src/com/dracade/ember/system/Backup.java:201-203 | loads under the backup's own name with overwrite off; also models src/com/dracade/ember/Ember.java:619-621 |
| LegacyBackups.Backup.LoadWorldRenamed | src/com/dracade/ember/system/Backup.java:211-213 | loads under another name with overwrite off; also models src/com/dracade/ember/Ember.java:629-631 |
| LegacyBackups.BackupNeverLoaded | src/com/dracade/ember/system/Backup.java:248 | the archive `loadWorld` opens (under `worlds`) is never the one `backupWorld` wrote (under `Worlds`, line 92); also models src/com/dracade/ember/Ember.java:610 |
| Backups.Open | src/main/java/com/dracade/ember/system/Backup.java:51-68 | makes the backup folder if missing; IllegalBackupDestination unless it is then a directory; otherwise a manager over it and the saves directory |
| Backups.Holder.constructor | src/main/java/com/dracade/ember/system/Backup.java:30 | the singleton field starts empty |
| Backups.Holder.Instance | src/main/java/com/dracade/ember/system/Backup.java:36-38 | the first call fails exactly as `Open` does (IllegalBackupDestination) and otherwise builds and keeps the manager over that path and the saves directory; later calls return the same one and ignore their path |
| Backups.Backup.World | src/main/java/com/dracade/ember/system/Backup.java:76-87 | an unknown world throws before any change; otherwise the compress step into `worlds`, a snapshot when the saves directory has one name |
| Backups.Backup.Load | src/main/java/com/dracade/ember/system/Backup.java:228-234 | the load step, with WriteAbortedException for an existing world without overwrite |
| Backups.Backup.LoadAs | src/main/java/com/dracade/ember/system/Backup.java:202-204 | loads under the backup's own name with overwrite off |
| Backups.Backup.LoadRenamed | src/main/java/com/dracade/ember/system/Backup.java:214-216 | loads under another name with overwrite off |
| Backups.Backup.WorldFolderPath | src/main/java/com/dracade/ember/system/Backup.java:249 | `new File(worldsDirectory, name)` is the saves directory followed by the name |
| Backups.Backup.ArchivesAgree | src/main/java/com/dracade/ember/system/Backup.java:257 | the archive `load` opens is the one `world` writes (line 124) iff the names agree |
| Backups.NothingBelowAbsent | src/main/java/com/dracade/ember/system/Backup.java:251-253 | a folder that does not exist has nothing below it |
| Backups.BackupThenLoad | src/main/java/com/dracade/ember/system/Backup.java:255-300 | after a successful backup, loading it under a fresh name ends normally, keeps every node and restores every file of the world, padded |
| Backups.NestedSavesMisread | src/main/java/com/dracade/ember/system/Backup.java:187 | with a saves directory of two or more names, each listed file is read back from a path with more names than its own |
| Registry.Ember.constructor | src/com/dracade/ember/Ember.java:71-75 | initialisation leaves an empty, valid table |
| Registry.Ember.GetArenaById | src/com/dracade/ember/Ember.java:187-192 | returns a registered arena with that id; absent iff there is none |
| Registry.Ember.GetArenaOf | src/com/dracade/ember/Ember.java:200-205 | returns the arena whose task runs the minigame; absent iff it runs nowhere or is null; unique in a valid table |
| Registry.Ember.MinigameOf | src/com/dracade/ember/Ember.java:213-215 | the arena's minigame; absent iff the arena is not registered; in a valid table no other arena runs that minigame |
| Registry.Ember.MinigameRoundTrip | src/com/dracade/ember/Ember.java:200-215 | in a valid table, `getArena(getMinigame(arena))` is the arena itself when it is registered and absent otherwise |
| Registry.Ember.GetArenas | src/com/dracade/ember/Ember.java:222-224 | every registered arena, once |
| Registry.Ember.GetArenasIn | src/com/dracade/ember/Ember.java:232-247 | exactly the registered arenas whose spawn is in the world, once each |
| Registry.Ember.GetMinigames | src/com/dracade/ember/Ember.java:254-260 | one minigame per registered arena, each that arena's; distinct in a valid table |
| Registry.Ember.GetMinigamesIn | src/com/dracade/ember/Ember.java:268-285 | exactly the minigames of the arenas in the world, one per arena |
| Registry.Ember.GamesOf | src/com/dracade/ember/Ember.java:273-283 | collects the minigame of each listed arena that is registered |
| Registry.Ember.Unregister | src/com/dracade/ember/Ember.java:151-179 | false and no change without a task; the exception and no change when stopping is cancelled; otherwise the arena and its task removed, true; validity kept |
| Registry.Ember.Register | src/com/dracade/ember/Ember.java:110-142 | false and no change when the minigame runs somewhere; otherwise the arena unregistered first (the exception propagating) and, for a non-null minigame, mapped to a fresh task; true; validity kept |
| Registry.Ember.Start | src/com/dracade/ember/Ember.java:118-138 | for a non-null minigame, a fresh task is scheduled and mapped to the arena; a null minigame changes nothing; validity is kept |
| Serialization.GetType | src/com/dracade/ember/system/Serializer.java:102-121 | a class iff the tree has a string `type.class` naming a loadable class; IllegalState iff `type.class` is not a primitive; ClassNotFound otherwise; also models src/com/dracade/ember/Ember.java:369-388 |
| Serialization.TypeTag | src/com/dracade/ember/core/adapters/ClassAdapter.java:36-49 | the class adapter's `{"name", "class"}` form, under `type`, carries the class in `type.class` |
| Serialization.TypeTagRoundTrip | src/com/dracade/ember/core/Arena.java:38 | reading the class back from an object's `type` tag gives the tagged class when it is loadable |
| Serialization.OtherMembersIgnored | src/com/dracade/ember/system/Serializer.java:105-108 | members other than `type` do not affect the lookup |
| Serialization.Serializer.constructor | src/com/dracade/ember/system/Serializer.java:32-37 | a new serializer holds exactly the `Class` and `World` adapters; also models src/com/dracade/ember/Ember.java:299-304 |
| Serialization.Serializer.Register | src/com/dracade/ember/system/Serializer.java:47-52 | inserts only when the class is absent, never replaces, always answers true; also models src/com/dracade/ember/Ember.java:314-319 |
| Serialization.Serializer.Unregister | src/com/dracade/ember/system/Serializer.java:60-65 | never changes the table; answers whether the class had an adapter; also models src/com/dracade/ember/Ember.java:327-332 |
| Serialization.Holder.constructor | src/com/dracade/ember/system/Serializer.java:17 | the singleton field starts empty |
| Serialization.Holder.Instance | src/com/dracade/ember/system/Serializer.java:22-24 | built on the first call with the two default adapters; the same object on every later call |

## Left out

- The ZIP container encoding and DEFLATE. An archive is a node holding its entries. Reading an archive as a plain file yields its entries' bytes one after another, a stand-in for the container's bytes.
- An archive stream left open after a swallowed exception is modelled as an empty file. The partial container bytes are not modelled.
- Reading `server.properties` through HOCON, and `getSavesDirectory()`.
  - The level name and the saves directory are parameters.
  - An unreadable file is `levelName == None`.
  - A missing `level-name` key (a null name) is not modelled.
- The Sponge server, event manager and scheduler.
  - Whether a world exists is a set of world names.
  - Whether the stopping event is cancelled is a parameter.
  - The started and stopped events, and the registration of a minigame as an event listener, are not modelled.
  - A task is a fresh token carrying its minigame. Its name, delay and interval are not modelled.
- Arena and minigame objects are compared by identity in the code. Here they are compared by value: an arena is its id and spawn world. Moving a registered arena's spawn (`setSpawn`) is not modelled.
- `register` unregisters the given arena, not the registered arena it found by id. Under value equality, a different arena with the same id stays registered. The contract states this as written.
- Gson: `gson()`, `getAndLoad`, JSON text parsing, reflective instantiation and `Class.forName`.
  - The lookup starts from a JSON tree.
  - The classes that load are a set of names.
  - A Gson object keeps only the last of duplicate member names, so an object is a map.
- `Ember.game()`, `serializer()`, `backup()` and the static `backup` field built from `"backup/"`. These are plain accessors over the objects modelled here.
- `getAbsolutePath()`. Relative and absolute forms of a path are the same path; `.` and `..` names are not interpreted.
- Absolute level names and saves directories. `getPath()` keeps a leading `/`, but the model's path text does not, so the strip count is one character off for an absolute worlds directory. For example, with the level name `/srv/world` the code backs up the file `/srv/world/w/a` as entry `a`. The model takes the stripped text as `/a`: the entry name is empty and the read path is absent, so its compress step fails where the code succeeds.
- File names compare case-sensitively. On a case-insensitive file system `Worlds` and `worlds` are one folder and the first version does load its own backups; `LegacyBackups.BackupNeverLoaded` holds only where names are case-sensitive.
- Inflater reads shorter than the buffer. The restore loop's reads fill the buffer whenever enough bytes remain.
- Archiving.CopyFiles: when a listed string is too short and another failure comes earlier, the contract allows either outcome. It does not state which failure comes first.
- Archiving.CompressSnapshot and Backups.BackupThenLoad: these state the snapshot and round trip only for a normalised worlds directory text (first version) or a one-name saves directory (later version). Otherwise Backups.NestedSavesMisread shows the listing reads the wrong paths.
- Arena.java, Spawnpoint.java, the Minigame interfaces, the event classes, the adapters' Gson stream code and the empty `system/serialization/Serializer.java`. They hold no logic, apart from the shape of the adapter's class tag.
