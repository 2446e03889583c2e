/** Archiving a world: the file listing and the compress step shared by
    both versions of the backup manager. The versions differ only in the
    number of characters they strip from each listed path and in the name
    of the category folder, which are parameters here. */
module Archiving {
  import opened Paths
  import opened Wrappers
  import opened FileSystems
  import opened Streams

  /** The exceptions the backup manager lets escape. */
  datatype Error =
    | IllegalBackupDestination
    | NoSuchWorld
    | WorldAlreadyExists
    | WriteAborted
    | NullPointer
    | StringIndexOutOfBounds
    | ServerPropertiesUnreadable

  /** How a call ends: normally (I/O exceptions are printed and swallowed),
      or with an exception. */
  datatype Outcome = Returned | Thrown(error: Error)

  /** The bytes a FileInputStream on `p` reads, if it opens. */
  function ReadAt(fs: Nodes, p: Path): Option<Bytes>
  {
    if p in fs then Content(fs[p]) else None
  }

  /** The nodes after `if (!d.exists()) d.mkdir();`. */
  function AfterMkdir(fs: Nodes, d: Path): Nodes
  {
    if d in fs then fs else Mkdir(fs, d).1
  }

  /** Where the archive of `source` is written inside the category folder `dest`. */
  function ArchivePath(dest: Path, source: Path): Path
  {
    dest + [Name(source) + ".zip"]
  }

  /** `listed` is what `generateFileList(source)` returns: one string for
      each non-directory node below `source`, enumerated in `paths`, each the
      node's path text without its first `strip` characters. */
  ghost predicate Listing(listed: seq<string>, paths: seq<Path>, fs: Nodes, source: Path, strip: nat)
  {
    && |listed| == |paths|
    && Distinct(paths)
    && (forall q :: q in paths <==> q in FilesUnder(fs, source))
    && (forall i :: 0 <= i < |paths| ==> strip <= |Join(paths[i])| && listed[i] == Join(paths[i])[strip..])
  }

  /** Every listed string is long enough to lose `cut` characters, the
      entry names are pairwise different and every listed file opens. */
  ghost predicate CopyOk(listed: seq<string>, cut: nat, worldsText: string, fs: Nodes)
  {
    && (forall i :: 0 <= i < |listed| ==> cut <= |listed[i]| && ReadAt(fs, Split(worldsText + "/" + listed[i])).Some?)
    && (forall i, j :: 0 <= i < j < |listed| && cut <= |listed[i]| && cut <= |listed[j]| ==>
          listed[i][cut..] != listed[j][cut..])
  }

  /** The archive entries made from the listed strings: named by the string
      without its first `cut` characters and holding the bytes of the file
      at `worldsText + "/" + string`. */
  ghost predicate EntriesOf(es: seq<Entry>, listed: seq<string>, cut: nat, worldsText: string, fs: Nodes)
  {
    && |es| == |listed|
    && forall i :: 0 <= i < |es| ==>
         && cut <= |listed[i]|
         && es[i].name == listed[i][cut..]
         && Some(es[i].data) == ReadAt(fs, Split(worldsText + "/" + listed[i]))
  }

  /** `es` is a snapshot of the tree below `source`: one entry per file,
      enumerated in `paths`, named by the file's path relative to `source`
      and holding its bytes. */
  ghost predicate Snapshot(es: seq<Entry>, paths: seq<Path>, fs: Nodes, source: Path)
  {
    && |es| == |paths|
    && Distinct(paths)
    && (forall q :: q in paths <==> q in FilesUnder(fs, source))
    && forall i :: 0 <= i < |es| ==>
         && |paths[i]| > |source|
         && es[i].name == Join(paths[i][|source|..])
         && Some(es[i].data) == ReadAt(fs, paths[i])
  }

  lemma DistinctAppend<T>(a: seq<T>, b: seq<T>)
    requires Distinct(a) && Distinct(b)
    requires forall x :: x in a ==> x !in b
    ensures Distinct(a + b)
  {
    var c := a + b;
    forall i, j | 0 <= i < j < |c| ensures c[i] != c[j] {
      if j >= |a| && i < |a| {
        assert c[i] in a && c[j] in b;
      }
    }
  }

  lemma FileHasChild(fs: Nodes, source: Path, q: Path)
    requires WellFormed(fs) && q in FilesUnder(fs, source)
    ensures q[..|source| + 1] in Children(fs, source)
  {
    var k := q[..|source| + 1];
    if |q| > |source| + 1 {
      AncestorIsDir(fs, q, |source| + 1);
    } else {
      assert k == q;
    }
    assert k[..|source|] == q[..|source|];
  }

  lemma DirChildFiles(fs: Nodes, source: Path, k: Path)
    requires k in Children(fs, source) && IsDir(fs, k)
    ensures forall q :: q in FilesUnder(fs, k) <==> q in FilesUnder(fs, source) && q[..|source| + 1] == k
  {
    forall q
      ensures q in FilesUnder(fs, k) <==> q in FilesUnder(fs, source) && q[..|source| + 1] == k
    {
      if q in FilesUnder(fs, k) {
        assert q[..|k|][..|source|] == q[..|source|];
      }
      if q in FilesUnder(fs, source) && q[..|source| + 1] == k {
        assert q != k;
      }
    }
  }

  lemma FileChildFiles(fs: Nodes, source: Path, k: Path)
    requires WellFormed(fs) && k in Children(fs, source) && !IsDir(fs, k)
    ensures forall q :: q in FilesUnder(fs, source) && q[..|source| + 1] == k <==> q == k
  {
    forall q | q in FilesUnder(fs, source) && q[..|source| + 1] == k
      ensures q == k
    {
      if |q| > |k| {
        AncestorIsDir(fs, q, |k|);
      }
      assert q == q[..|k|];
    }
    assert k[..|source|] == source;
  }

  lemma BelowShrinks(fs: Nodes, source: Path, k: Path)
    requires k in Children(fs, source)
    ensures Below(fs, k) < Below(fs, source)
  {
    forall q | q in Below(fs, k) ensures q in Below(fs, source) {
      assert q[..|k|][..|source|] == q[..|source|];
    }
    assert k in Below(fs, source);
  }

  /** The listing so far: every file below the children in `seen`. */
  ghost predicate PartialListing(files: seq<string>, paths: seq<Path>, fs: Nodes, source: Path, strip: nat, seen: set<Path>)
  {
    && |files| == |paths|
    && Distinct(paths)
    && (forall q :: q in paths <==> q in FilesUnder(fs, source) && q[..|source| + 1] in seen)
    && (forall j :: 0 <= j < |paths| ==> strip <= |Join(paths[j])| && files[j] == Join(paths[j])[strip..])
  }

  lemma AddDirChild(fs: Nodes, source: Path, strip: nat, files: seq<string>, paths: seq<Path>, seen: set<Path>,
                    k: Path, sub: seq<string>, subPaths: seq<Path>)
    requires PartialListing(files, paths, fs, source, strip, seen)
    requires k in Children(fs, source) && IsDir(fs, k) && k !in seen
    requires Listing(sub, subPaths, fs, k, strip)
    ensures PartialListing(files + sub, paths + subPaths, fs, source, strip, seen + {k})
  {
    DirChildFiles(fs, source, k);
    DistinctAppend(paths, subPaths);
    var fs', ps' := files + sub, paths + subPaths;
    forall j | 0 <= j < |ps'| ensures strip <= |Join(ps'[j])| && fs'[j] == Join(ps'[j])[strip..] {
      if j >= |paths| {
        assert ps'[j] == subPaths[j - |paths|];
      }
    }
  }

  lemma AddFileChild(fs: Nodes, source: Path, strip: nat, files: seq<string>, paths: seq<Path>, seen: set<Path>, k: Path)
    requires WellFormed(fs) && strip <= |Join(k)|
    requires PartialListing(files, paths, fs, source, strip, seen)
    requires k in Children(fs, source) && !IsDir(fs, k) && k !in seen
    ensures PartialListing(files + [Join(k)[strip..]], paths + [k], fs, source, strip, seen + {k})
  {
    FileChildFiles(fs, source, k);
    assert k !in paths by {
      assert k[..|source| + 1] == k;
    }
    DistinctAppend(paths, [k]);
    assert k in FilesUnder(fs, source);
    forall q ensures q in paths + [k] <==> q in FilesUnder(fs, source) && q[..|source| + 1] in seen + {k} {
      if q in FilesUnder(fs, source) && q[..|source| + 1] == k {
        assert q == k;
      }
    }
  }

  lemma FinishListing(fs: Nodes, source: Path, strip: nat, files: seq<string>, paths: seq<Path>, seen: set<Path>)
    requires WellFormed(fs)
    requires PartialListing(files, paths, fs, source, strip, seen)
    requires Children(fs, source) <= seen
    ensures Listing(files, paths, fs, source, strip)
  {
    forall q | q in FilesUnder(fs, source) ensures q in paths {
      FileHasChild(fs, source, q);
    }
  }

  /** Some file below `source` has a path text shorter than `strip`. */
  ghost predicate ShortFile(fs: Nodes, source: Path, strip: nat)
  {
    exists q :: q in FilesUnder(fs, source) && |Join(q)| < strip
  }

  /** `generateFileList(source)`: walks the tree below `source`, recursing
      into directories, and lists every other node's path text without its
      first `strip` characters. It fails with a NullPointerException when
      `source` is not a directory (`listFiles()` returns null) and with a
      StringIndexOutOfBoundsException when a path text is shorter than
      `strip`. */
  method GenerateFileList(fs: FileSystem, source: Path, strip: nat)
    returns (r: Result<seq<string>, Error>, ghost paths: seq<Path>)
    requires fs.Valid()
    ensures r == Err(NullPointer) <==> !IsDir(fs.nodes, source)
    ensures IsDir(fs.nodes, source) && r.Err? ==> r.error == StringIndexOutOfBounds && ShortFile(fs.nodes, source, strip)
    ensures r.Ok? ==> Listing(r.value, paths, fs.nodes, source, strip)
    decreases Below(fs.nodes, source)
  {
    var listing := fs.ListFiles(source);
    if listing.None? {
      return Err(NullPointer), [];
    }
    var kids := listing.value;
    var files: seq<string> := [];
    paths := [];
    ghost var seen: set<Path> := {};
    var i := 0;
    while i < |kids|
      invariant 0 <= i <= |kids|
      invariant PartialListing(files, paths, fs.nodes, source, strip, seen)
      invariant forall j :: 0 <= j < i ==> kids[j] in seen
      invariant forall j :: i <= j < |kids| ==> kids[j] !in seen
    {
      var k := kids[i];
      assert k in Children(fs.nodes, source);
      if fs.IsDirectory(k) {
        BelowShrinks(fs.nodes, source, k);
        var sub, subPaths := GenerateFileList(fs, k, strip);
        if sub.Err? {
          ghost var q :| q in FilesUnder(fs.nodes, k) && |Join(q)| < strip;
          DirChildFiles(fs.nodes, source, k);
          return sub, [];
        }
        AddDirChild(fs.nodes, source, strip, files, paths, seen, k, sub.value, subPaths);
        files := files + sub.value;
        paths := paths + subPaths;
      } else {
        var path := Join(k);
        if |path| < strip {
          assert k in FilesUnder(fs.nodes, source);
          return Err(StringIndexOutOfBounds), [];
        }
        AddFileChild(fs.nodes, source, strip, files, paths, seen, k);
        files := files + [path[strip..]];
        paths := paths + [k];
      }
      seen := seen + {k};
      i := i + 1;
    }
    FinishListing(fs.nodes, source, strip, files, paths, seen);
    return Ok(files), paths;
  }

  lemma ArchivePathText(dest: Path, source: Path)
    requires ValidPath(dest) && ValidPath(source)
    ensures Split(Join(dest) + "/" + (Name(source) + ".zip")) == ArchivePath(dest, source)
  {
    SplitConcat(Join(dest), Name(source) + ".zip");
    SplitJoin(dest);
    assert '/' !in Name(source) + ".zip" by {
      if |source| > 0 { assert Name(source) == source[|source| - 1]; }
    }
    SplitSegment(Name(source) + ".zip");
  }

  /** The copy loop of the compress step: one entry per listed string,
      named by the string without its first `cut` characters. It stops at
      the first string shorter than `cut` (StringIndexOutOfBoundsException,
      which escapes), the first duplicate entry name (ZipException) or the
      first file that does not open (FileNotFoundException); the I/O
      exceptions are swallowed, which `Err(Returned)` stands for. */
  method CopyFiles(fs: FileSystem, files: seq<string>, cut: nat, worldsText: string) returns (r: Result<seq<Entry>, Outcome>)
    ensures r.Ok? <==> CopyOk(files, cut, worldsText, fs.nodes)
    ensures r.Ok? ==> EntriesOf(r.value, files, cut, worldsText, fs.nodes)
    ensures r.Err? ==> r.error == Returned || r.error == Thrown(StringIndexOutOfBounds)
    ensures r == Err(Thrown(StringIndexOutOfBounds)) ==> exists i :: 0 <= i < |files| && |files[i]| < cut
  {
    var names: set<string> := {};
    var es: seq<Entry> := [];
    var i := 0;
    while i < |files|
      invariant 0 <= i <= |files|
      invariant |es| == i
      invariant forall j :: 0 <= j < i ==>
                  && cut <= |files[j]|
                  && es[j].name == files[j][cut..]
                  && Some(es[j].data) == ReadAt(fs.nodes, Split(worldsText + "/" + files[j]))
      invariant forall j, j' :: 0 <= j < j' < i ==> es[j].name != es[j'].name
      invariant forall x :: x in names <==> exists j :: 0 <= j < i && es[j].name == x
    {
      var f := files[i];
      if |f| < cut {
        return Err(Thrown(StringIndexOutOfBounds));
      }
      var name := f[cut..];
      if name in names {
        ghost var j :| 0 <= j < i && es[j].name == name;
        assert files[j][cut..] == files[i][cut..];
        return Err(Returned);
      }
      var data := fs.ReadAll(Split(worldsText + "/" + f));
      if data.None? {
        assert ReadAt(fs.nodes, Split(worldsText + "/" + files[i])).None?;
        return Err(Returned);
      }
      var bytes := CopyIntoEntry(data.value);
      es := es + [Entry(name, bytes)];
      names := names + {name};
      i := i + 1;
    }
    return Ok(es);
  }

  /** The effect of the compress step, from nodes `n0` to nodes `n`: the
      category folder `destination` is made if missing; then the backup
      folder must be a directory and the source must exist; the archive is
      opened (truncating it); the source is listed, and each listed file is
      copied into an entry. Each failure leaves the nodes as they are at
      that point, the opened archive as an empty file. */
  ghost predicate Compressed(n0: Nodes, n: Nodes, outcome: Outcome, worldsText: string, backupDir: Path,
                             sourcePath: Path, destination: Path, strip: nat,
                             listed: seq<string>, paths: seq<Path>, entries: seq<Entry>)
  {
    var n1 := AfterMkdir(n0, destination);
    var archive := ArchivePath(destination, sourcePath);
    var n2 := n1[archive := File([])];
    var cut := |Name(sourcePath)| + 1;
    && (!IsDir(n1, backupDir) || sourcePath !in n1 ==> outcome == Thrown(IllegalBackupDestination) && n == n1)
    && (IsDir(n1, backupDir) && sourcePath in n1 && !CanOpenOutput(n1, archive) ==> outcome == Returned && n == n1)
    && (IsDir(n1, backupDir) && sourcePath in n1 && CanOpenOutput(n1, archive) && !IsDir(n2, sourcePath) ==>
          outcome == Thrown(NullPointer) && n == n2)
    && (IsDir(n1, backupDir) && sourcePath in n1 && CanOpenOutput(n1, archive) && IsDir(n2, sourcePath) ==>
          if ShortFile(n2, sourcePath, strip) then
            outcome == Thrown(StringIndexOutOfBounds) && n == n2
          else
            && Listing(listed, paths, n2, sourcePath, strip)
            && (CopyOk(listed, cut, worldsText, n2) ==>
                  outcome == Returned && EntriesOf(entries, listed, cut, worldsText, n2) && n == n2[archive := Zip(entries)])
            && (!CopyOk(listed, cut, worldsText, n2) ==>
                  && n == n2 && (outcome == Returned || outcome == Thrown(StringIndexOutOfBounds))
                  && (outcome == Thrown(StringIndexOutOfBounds) ==> exists i :: 0 <= i < |listed| && |listed[i]| < cut)))
  }

  /** `compressWorld(source, category)` / `createCompressedBackup`: makes the
      category folder if missing, checks the backup folder and the source,
      opens `<category>/<name>.zip`, lists the source tree and copies each
      listed file into an entry. An I/O failure while copying (a duplicate
      entry name, a file that does not open) is swallowed and leaves the
      archive unfinished, which the model records as an empty plain file. */
  method Compress(fs: FileSystem, worldsText: string, backupDir: Path, sourcePath: Path, destination: Path, strip: nat)
    returns (outcome: Outcome, ghost listed: seq<string>, ghost paths: seq<Path>, ghost entries: seq<Entry>)
    requires fs.Valid() && ValidPath(backupDir) && ValidPath(sourcePath) && ValidPath(destination)
    modifies fs
    ensures fs.Valid()
    ensures Compressed(old(fs.nodes), fs.nodes, outcome, worldsText, backupDir, sourcePath, destination, strip, listed, paths, entries)
  {
    listed, paths, entries := [], [], [];
    if !fs.Exists(destination) {
      var _ := fs.MakeDir(destination);
    }
    ghost var n1 := fs.nodes;
    assert n1 == AfterMkdir(old(fs.nodes), destination);
    if !fs.IsDirectory(backupDir) {
      return Thrown(IllegalBackupDestination), listed, paths, entries;
    }
    if !fs.Exists(sourcePath) {
      return Thrown(IllegalBackupDestination), listed, paths, entries;
    }
    ArchivePathText(destination, sourcePath);
    var archive := Split(Join(destination) + "/" + (Name(sourcePath) + ".zip"));
    var created := fs.OpenOutput(archive);
    if !created {
      return Returned, listed, paths, entries;
    }
    var files;
    files, paths := GenerateFileList(fs, sourcePath, strip);
    if files.Err? {
      return Thrown(files.error), listed, paths, entries;
    }
    listed := files.value;
    assert !ShortFile(fs.nodes, sourcePath, strip) by {
      forall q | q in FilesUnder(fs.nodes, sourcePath) ensures strip <= |Join(q)| {
        assert q in paths;
      }
    }
    var copied := CopyFiles(fs, files.value, |Name(sourcePath)| + 1, worldsText);
    if copied.Err? {
      return copied.error, listed, paths, entries;
    }
    entries := copied.value;
    fs.Store(archive, Zip(copied.value));
    return Returned, listed, paths, entries;
  }

  /** The text arithmetic behind a correct listing: for a file `wd + [s] + rel`,
      stripping the worlds directory's text and a separator leaves
      `s/rel`, stripping the world's name and a separator from that leaves
      `rel`'s text, and re-prefixing the worlds directory gives the file back. */
  lemma RelativeText(wd: Path, s: string, rel: Path)
    requires ValidPath(wd) && |wd| > 0 && ValidSegment(s) && ValidPath(rel) && |rel| > 0
    ensures |Join(wd)| + 1 <= |Join(wd + [s] + rel)|
    ensures Join(wd + [s] + rel)[|Join(wd)| + 1..] == s + "/" + Join(rel)
    ensures Split(Join(wd) + "/" + (s + "/" + Join(rel))) == wd + [s] + rel
  {
    assert wd + [s] + rel == wd + ([s] + rel);
    StripJoin(wd, [s] + rel);
    JoinAppend([s], rel);
    SplitConcat(Join(wd), s + "/" + Join(rel));
    SplitJoin(wd);
    SplitJoin([s] + rel);
  }

  /** With the strip count equal to the worlds directory's text length plus
      one, no file below a world is too short to strip. */
  lemma NoShortFile(fs: Nodes, wd: Path, s: string)
    requires WellFormed(fs) && ValidPath(wd) && |wd| > 0 && ValidSegment(s)
    ensures !ShortFile(fs, wd + [s], |Join(wd)| + 1)
  {
    var src := wd + [s];
    forall q | q in FilesUnder(fs, src) ensures |Join(wd)| + 1 <= |Join(q)| {
      assert q in fs && |q| > |src| && q[..|src|] == src;
      var rel := q[|src|..];
      assert ValidPath(rel) by {
        assert ValidPath(q);
        forall i | 0 <= i < |rel| ensures ValidSegment(rel[i]) {
          assert rel[i] == q[|src| + i];
        }
      }
      assert q == wd + [s] + rel by {
        assert q == q[..|src|] + rel;
      }
      RelativeText(wd, s, rel);
    }
  }

  /** One listed file under that strip count: its entry name is its path
      relative to the world and its read path is the file itself. */
  lemma ListedFile(wd: Path, s: string, p: Path, f: string)
    requires ValidPath(wd) && |wd| > 0 && ValidSegment(s) && ValidPath(p)
    requires |p| > |wd| + 1 && p[..|wd| + 1] == wd + [s]
    requires |Join(wd)| + 1 <= |Join(p)| && f == Join(p)[|Join(wd)| + 1..]
    ensures |s| + 1 <= |f| && f[..|s| + 1] == s + "/"
    ensures f[|s| + 1..] == Join(p[|wd| + 1..])
    ensures Split(Join(wd) + "/" + f) == p
  {
    var rel := p[|wd| + 1..];
    assert p == wd + [s] + rel;
    RelativeText(wd, s, rel);
  }

  /** Listed files with the same entry name are the same file. */
  lemma ListedNamesInjective(wd: Path, s: string, p: Path, f: string, p': Path, f': string)
    requires ValidPath(wd) && |wd| > 0 && ValidSegment(s) && ValidPath(p) && ValidPath(p')
    requires |p| > |wd| + 1 && p[..|wd| + 1] == wd + [s]
    requires |p'| > |wd| + 1 && p'[..|wd| + 1] == wd + [s]
    requires |Join(wd)| + 1 <= |Join(p)| && f == Join(p)[|Join(wd)| + 1..]
    requires |Join(wd)| + 1 <= |Join(p')| && f' == Join(p')[|Join(wd)| + 1..]
    ensures |s| + 1 <= |f| && |s| + 1 <= |f'|
    ensures f[|s| + 1..] == f'[|s| + 1..] ==> p == p'
  {
    ListedFile(wd, s, p, f);
    ListedFile(wd, s, p', f');
    if f[|s| + 1..] == f'[|s| + 1..] {
      EqualBySplit(f, f', |s| + 1);
    }
  }

  /** A file below the world `wd + [s]` is a valid path that extends it. */
  lemma UnderWorld(fs: Nodes, wd: Path, s: string, q: Path)
    requires WellFormed(fs) && q in FilesUnder(fs, wd + [s])
    ensures ValidPath(q) && |q| > |wd| + 1 && q[..|wd| + 1] == wd + [s]
  {
  }

  /** With that strip count, every listed string is long enough to lose
      the world's name and reads the file it was listed for. */
  lemma ListingReads(fs: Nodes, wd: Path, s: string, listed: seq<string>, paths: seq<Path>)
    requires WellFormed(fs) && ValidPath(wd) && |wd| > 0 && ValidSegment(s)
    requires Listing(listed, paths, fs, wd + [s], |Join(wd)| + 1)
    ensures forall i :: 0 <= i < |listed| ==>
              |s| + 1 <= |listed[i]| && ReadAt(fs, Split(Join(wd) + "/" + listed[i])).Some?
  {
    forall i | 0 <= i < |listed|
      ensures |s| + 1 <= |listed[i]| && ReadAt(fs, Split(Join(wd) + "/" + listed[i])).Some?
    {
      ListedPathUnder(listed, paths, fs, wd + [s], |Join(wd)| + 1, i);
      UnderWorld(fs, wd, s, paths[i]);
      ListedFile(wd, s, paths[i], listed[i]);
    }
  }

  /** With that strip count, the entry names of two different listed
      files differ. */
  lemma ListingNamesDistinct(fs: Nodes, wd: Path, s: string, listed: seq<string>, paths: seq<Path>)
    requires WellFormed(fs) && ValidPath(wd) && |wd| > 0 && ValidSegment(s)
    requires Listing(listed, paths, fs, wd + [s], |Join(wd)| + 1)
    ensures forall i, j :: 0 <= i < j < |listed| && |s| + 1 <= |listed[i]| && |s| + 1 <= |listed[j]| ==>
              listed[i][|s| + 1..] != listed[j][|s| + 1..]
  {
    forall i, j | 0 <= i < j < |listed| && |s| + 1 <= |listed[i]| && |s| + 1 <= |listed[j]|
      ensures listed[i][|s| + 1..] != listed[j][|s| + 1..]
    {
      ListedPathUnder(listed, paths, fs, wd + [s], |Join(wd)| + 1, i);
      ListedPathUnder(listed, paths, fs, wd + [s], |Join(wd)| + 1, j);
      DifferentFilesNames(fs, wd, s, paths[i], listed[i], paths[j], listed[j]);
    }
  }

  /** The `i`th listed string belongs to a file below the source. */
  lemma ListedPathUnder(listed: seq<string>, paths: seq<Path>, fs: Nodes, source: Path, strip: nat, i: int)
    requires Listing(listed, paths, fs, source, strip) && 0 <= i < |listed|
    ensures paths[i] in FilesUnder(fs, source)
    ensures strip <= |Join(paths[i])| && listed[i] == Join(paths[i])[strip..]
  {
    assert paths[i] in paths;
  }

  /** Two different files below the world are listed under different
      entry names. */
  lemma DifferentFilesNames(fs: Nodes, wd: Path, s: string, p: Path, f: string, p': Path, f': string)
    requires WellFormed(fs) && ValidPath(wd) && |wd| > 0 && ValidSegment(s)
    requires p in FilesUnder(fs, wd + [s]) && p' in FilesUnder(fs, wd + [s]) && p != p'
    requires |Join(wd)| + 1 <= |Join(p)| && f == Join(p)[|Join(wd)| + 1..]
    requires |Join(wd)| + 1 <= |Join(p')| && f' == Join(p')[|Join(wd)| + 1..]
    ensures |s| + 1 <= |f| && |s| + 1 <= |f'| && f[|s| + 1..] != f'[|s| + 1..]
  {
    UnderWorld(fs, wd, s, p);
    UnderWorld(fs, wd, s, p');
    ListedNamesInjective(wd, s, p, f, p', f');
  }

  /** With that strip count, every listed file copies: the entry names are
      the files' paths relative to the world, hence distinct, and every file
      opens. */
  lemma ListingCopies(fs: Nodes, wd: Path, s: string, listed: seq<string>, paths: seq<Path>)
    requires WellFormed(fs) && ValidPath(wd) && |wd| > 0 && ValidSegment(s)
    requires Listing(listed, paths, fs, wd + [s], |Join(wd)| + 1)
    ensures CopyOk(listed, |s| + 1, Join(wd), fs)
  {
    ListingReads(fs, wd, s, listed, paths);
    ListingNamesDistinct(fs, wd, s, listed, paths);
  }

  /** The entries made from such a listing are a snapshot of the world. */
  lemma ListingSnapshot(fs: Nodes, wd: Path, s: string, listed: seq<string>, paths: seq<Path>, es: seq<Entry>)
    requires WellFormed(fs) && ValidPath(wd) && |wd| > 0 && ValidSegment(s)
    requires Listing(listed, paths, fs, wd + [s], |Join(wd)| + 1)
    requires EntriesOf(es, listed, |s| + 1, Join(wd), fs)
    ensures Snapshot(es, paths, fs, wd + [s])
  {
    forall i | 0 <= i < |es|
      ensures |paths[i]| > |wd + [s]|
      ensures es[i].name == Join(paths[i][|wd + [s]|..])
      ensures Some(es[i].data) == ReadAt(fs, paths[i])
    {
      ListedPathUnder(listed, paths, fs, wd + [s], |Join(wd)| + 1, i);
      UnderWorld(fs, wd, s, paths[i]);
      ListedFile(wd, s, paths[i], listed[i]);
    }
  }

  /** The nodes once the archive is opened: the category folder made if
      missing and the archive truncated. */
  function Opened(n0: Nodes, destination: Path, sourcePath: Path): Nodes
  {
    AfterMkdir(n0, destination)[ArchivePath(destination, sourcePath) := File([])]
  }

  /** Nothing stops the compress step before the copy loop: the backup
      folder is a directory, the archive opens and the source is a
      directory. */
  ghost predicate CanArchive(n0: Nodes, backupDir: Path, sourcePath: Path, destination: Path)
  {
    var n1 := AfterMkdir(n0, destination);
    && IsDir(n1, backupDir)
    && CanOpenOutput(n1, ArchivePath(destination, sourcePath))
    && IsDir(Opened(n0, destination, sourcePath), sourcePath)
  }

  lemma OpenedWellFormed(n0: Nodes, destination: Path, sourcePath: Path)
    requires WellFormed(n0) && ValidPath(destination) && ValidPath(sourcePath)
    requires CanOpenOutput(AfterMkdir(n0, destination), ArchivePath(destination, sourcePath))
    ensures WellFormed(Opened(n0, destination, sourcePath))
  {
    ArchivePathText(destination, sourcePath);
    StoreWellFormed(AfterMkdir(n0, destination), ArchivePath(destination, sourcePath), File([]));
  }

  /** When nothing stops the compress step early and no file is too short,
      the source is listed, and the archive is written when every listed
      file copies. */
  lemma CompressedWrites(n0: Nodes, n: Nodes, outcome: Outcome, worldsText: string, backupDir: Path,
                         sourcePath: Path, destination: Path, strip: nat,
                         listed: seq<string>, paths: seq<Path>, entries: seq<Entry>)
    requires Compressed(n0, n, outcome, worldsText, backupDir, sourcePath, destination, strip, listed, paths, entries)
    requires CanArchive(n0, backupDir, sourcePath, destination)
    requires !ShortFile(Opened(n0, destination, sourcePath), sourcePath, strip)
    ensures Listing(listed, paths, Opened(n0, destination, sourcePath), sourcePath, strip)
    ensures CopyOk(listed, |Name(sourcePath)| + 1, worldsText, Opened(n0, destination, sourcePath)) ==>
              && outcome == Returned
              && EntriesOf(entries, listed, |Name(sourcePath)| + 1, worldsText, Opened(n0, destination, sourcePath))
              && n == Opened(n0, destination, sourcePath)[ArchivePath(destination, sourcePath) := Zip(entries)]
  {
    var n1 := AfterMkdir(n0, destination);
    var n2 := Opened(n0, destination, sourcePath);
    assert n2 == n1[ArchivePath(destination, sourcePath) := File([])];
    assert sourcePath in n1 by {
      assert sourcePath in n2 && n2[sourcePath].Dir?;
    }
  }

  /** When the worlds directory's text is that of a non-empty path `wd`, the
      strip count is that text's length plus one and nothing stops the
      compress step early, the archive is written and is a snapshot of the
      world's tree as it stands once the archive is opened. */
  lemma CompressSnapshot(n0: Nodes, n: Nodes, outcome: Outcome, wd: Path, s: string, backupDir: Path, destination: Path,
                         listed: seq<string>, paths: seq<Path>, entries: seq<Entry>)
    requires WellFormed(n0) && ValidPath(wd) && |wd| > 0 && ValidSegment(s) && ValidPath(destination)
    requires Compressed(n0, n, outcome, Join(wd), backupDir, wd + [s], destination, |Join(wd)| + 1, listed, paths, entries)
    requires CanArchive(n0, backupDir, wd + [s], destination)
    ensures outcome == Returned
    ensures n == Opened(n0, destination, wd + [s])[ArchivePath(destination, wd + [s]) := Zip(entries)]
    ensures Snapshot(entries, paths, Opened(n0, destination, wd + [s]), wd + [s])
  {
    var src := wd + [s];
    OpenedWorld(n0, destination, wd, s);
    CompressedWrites(n0, n, outcome, Join(wd), backupDir, src, destination, |Join(wd)| + 1, listed, paths, entries);
    WorldArchive(Opened(n0, destination, src), wd, s, listed, paths, entries);
  }

  /** Once the archive of the world `wd + [s]` is opened, the tree is well
      formed and no file of the world is too short to strip. */
  lemma OpenedWorld(n0: Nodes, destination: Path, wd: Path, s: string)
    requires WellFormed(n0) && ValidPath(wd) && |wd| > 0 && ValidSegment(s) && ValidPath(destination)
    requires CanOpenOutput(AfterMkdir(n0, destination), ArchivePath(destination, wd + [s]))
    ensures WellFormed(Opened(n0, destination, wd + [s]))
    ensures !ShortFile(Opened(n0, destination, wd + [s]), wd + [s], |Join(wd)| + 1)
    ensures Name(wd + [s]) == s
  {
    assert ValidPath(wd + [s]);
    OpenedWellFormed(n0, destination, wd + [s]);
    NoShortFile(Opened(n0, destination, wd + [s]), wd, s);
  }

  /** A listing of the world `wd + [s]` under the right strip count copies,
      and the entries copied from it are a snapshot of the world. */
  lemma WorldArchive(fs: Nodes, wd: Path, s: string, listed: seq<string>, paths: seq<Path>, entries: seq<Entry>)
    requires WellFormed(fs) && ValidPath(wd) && |wd| > 0 && ValidSegment(s)
    requires Listing(listed, paths, fs, wd + [s], |Join(wd)| + 1)
    ensures CopyOk(listed, |Name(wd + [s])| + 1, Join(wd), fs)
    ensures EntriesOf(entries, listed, |Name(wd + [s])| + 1, Join(wd), fs) ==> Snapshot(entries, paths, fs, wd + [s])
  {
    assert Name(wd + [s]) == s;
    ListingCopies(fs, wd, s, listed, paths);
    if EntriesOf(entries, listed, |s| + 1, Join(wd), fs) {
      ListingSnapshot(fs, wd, s, listed, paths, entries);
    }
  }
}
