/** Restoring a world from its archive: the load step shared by both
    versions of the backup manager. */
module Restoring {
  import opened Paths
  import opened Wrappers
  import opened FileSystems
  import opened Streams
  import opened Archiving

  /** `ZipEntry.isDirectory()`: the name ends with a separator. */
  predicate IsDirectoryName(name: string)
  {
    |name| > 0 && name[|name| - 1] == '/'
  }

  /** The buffer as `new byte[1024]` creates it. */
  function Zeros(): (r: Bytes)
    ensures |r| == BufferSize
  {
    seq(BufferSize, _ => 0)
  }

  /** The Java objects the marker check compares. */
  datatype JavaObject = FileObject(path: Path) | StringObject(text: string)

  /** `a.equals(b)`: a String equals only a String with the same
      characters, a File only a File with the same path. */
  function Equals(a: JavaObject, b: JavaObject): bool
  {
    match (a, b)
    case (FileObject(p), FileObject(q)) => p == q
    case (StringObject(s), StringObject(t)) => s == t
    case _ => false
  }

  /** `list.contains(o)`. */
  function Contains(xs: seq<JavaObject>, o: JavaObject): bool
  {
    |xs| > 0 && (Equals(o, xs[0]) || Contains(xs[1..], o))
  }

  /** `Arrays.asList(dir.listFiles())`. */
  function AsFileList(listing: seq<Path>): (r: seq<JavaObject>)
    ensures |r| == |listing| && forall i :: 0 <= i < |r| ==> r[i] == FileObject(listing[i])
  {
    seq(|listing|, i requires 0 <= i < |listing| => FileObject(listing[i]))
  }

  /** The guard before deleting an existing world: its listing contains
      the strings "level.dat" and "level_sponge.dat". */
  function HasWorldMarkers(listing: seq<Path>): bool
  {
    && Contains(AsFileList(listing), StringObject("level.dat"))
    && Contains(AsFileList(listing), StringObject("level_sponge.dat"))
  }

  /** A list of files contains no string. */
  lemma {:induction false} NoStringAmongFiles(xs: seq<JavaObject>, s: string)
    requires forall i :: 0 <= i < |xs| ==> xs[i].FileObject?
    ensures !Contains(xs, StringObject(s))
    decreases |xs|
  {
    if |xs| > 0 {
      NoStringAmongFiles(xs[1..], s);
    }
  }

  /** The guard compares File objects with strings, so it never holds and
      an existing world is never deleted. */
  lemma MarkersNeverFound(listing: seq<Path>)
    ensures !HasWorldMarkers(listing)
  {
    NoStringAmongFiles(AsFileList(listing), "level.dat");
  }

  /** Restoring one entry into the world folder `target` when the shared
      buffer holds `buf`: the entry goes to `target` followed by the
      entry's name. A directory entry is made with `mkdirs`, any other entry
      gets its parent made with `mkdirs` (a path without a parent is a
      NullPointerException). Opening the output fails on a directory or
      when the parent is missing, which ends the restore (an IOException,
      swallowed). Otherwise the file gets the padded bytes and the loop
      goes on (`None`) with the buffer as the copy leaves it. */
  function Step(fs: Nodes, target: Path, e: Entry, buf: Bytes): (r: (Option<Outcome>, Nodes, Bytes))
    requires |buf| == BufferSize
    ensures |r.2| == BufferSize
  {
    var p := target + Split(e.name);
    if !IsDirectoryName(e.name) && |p| <= 1 then (Some(Thrown(NullPointer)), fs, buf)
    else
      var made := if IsDirectoryName(e.name) then Mkdirs(fs, p) else Mkdirs(fs, Parent(p));
      if !CanOpenOutput(made, p) then (Some(Returned), made, buf)
      else (None, made[p := File(Padded(e.data, buf))], BufferAfter(e.data, buf))
  }

  /** The restore loop over the archive's entries. */
  function Extract(fs: Nodes, target: Path, es: seq<Entry>, buf: Bytes): (Outcome, Nodes)
    requires |buf| == BufferSize
    decreases |es|
  {
    if es == [] then (Returned, fs)
    else
      var (stop, next, buf') := Step(fs, target, es[0], buf);
      if stop.Some? then (stop.value, next) else Extract(next, target, es[1..], buf')
  }

  /** The bytes each entry is restored with, the buffer carried from one
      entry to the next. */
  function RestoredBytes(es: seq<Entry>, buf: Bytes): (r: seq<Bytes>)
    requires |buf| == BufferSize
    ensures |r| == |es|
    decreases |es|
  {
    if es == [] then []
    else [Padded(es[0].data, buf)] + RestoredBytes(es[1..], BufferAfter(es[0].data, buf))
  }

  ghost predicate IsPrefix(a: Path, b: Path)
  {
    |a| <= |b| && b[..|a|] == a
  }

  /** Every entry is a file entry with a non-empty path. */
  ghost predicate PlainEntries(es: seq<Entry>)
  {
    forall i :: 0 <= i < |es| ==> !IsDirectoryName(es[i].name) && Split(es[i].name) != []
  }

  /** No entry's path is a prefix of another's, nor equal to it. */
  ghost predicate PrefixFree(es: seq<Entry>)
  {
    forall i, j :: 0 <= i < |es| && 0 <= j < |es| && i != j ==> !IsPrefix(Split(es[i].name), Split(es[j].name))
  }

  /** Nothing is at `p` yet, and everything on the way to it is a directory. */
  ghost predicate Writable(fs: Nodes, p: Path)
  {
    p !in fs && forall k :: 0 < k < |p| && p[..k] in fs ==> fs[p[..k]].Dir?
  }

  lemma PrefixCancel(t: Path, a: Path, b: Path)
    ensures IsPrefix(t + a, t + b) <==> IsPrefix(a, b)
  {
    if IsPrefix(a, b) {
      assert (t + b)[..|t + a|] == t + b[..|a|];
    }
    if IsPrefix(t + a, t + b) {
      assert (t + b)[..|t + a|][|t|..] == b[..|a|];
    }
  }

  /** A writable file path with a parent can be opened once `mkdirs` has
      made the parent, and every node the latter adds is a directory on
      the way to the file. */
  lemma FirstEntryOpens(fs: Nodes, p: Path)
    requires |p| > 1 && Writable(fs, p)
    ensures CanOpenOutput(Mkdirs(fs, Parent(p)), p)
    ensures forall x :: x in Mkdirs(fs, Parent(p)) && x !in fs ==> Mkdirs(fs, Parent(p))[x] == Dir && IsPrefix(x, p)
  {
    var up := Parent(p);
    forall k | 0 < k <= |up| && up[..k] in fs ensures fs[up[..k]].Dir? {
      assert up[..k] == p[..k];
    }
    MkdirsMakesDir(fs, up);
    forall x | x in Mkdirs(fs, up) && x !in fs ensures IsPrefix(x, p) {
      assert up[..|x|] == p[..|x|];
    }
  }

  /** Writing the first entry keeps every other entry's path writable. */
  lemma OthersStayWritable(fs: Nodes, next: Nodes, p: Path, t: Path, a: Path, b: Path)
    requires p == t + a && Writable(fs, t + b)
    requires !IsPrefix(a, b) && !IsPrefix(b, a)
    requires forall x :: x in fs ==> x in next && next[x] == fs[x]
    requires forall x :: x in next && x !in fs ==> (next[x] == Dir || x == p) && IsPrefix(x, p)
    ensures Writable(next, t + b)
  {
    var q := t + b;
    PrefixCancel(t, a, b);
    PrefixCancel(t, b, a);
    forall k | 0 < k < |q| && q[..k] in next ensures next[q[..k]].Dir? {
      if q[..k] == p {
        assert IsPrefix(p, q);
      }
    }
  }

  /** The first of plain, prefix-free, writable entries is restored: the
      step goes on, keeps every node, puts the padded bytes at the entry's
      path, adds only directories besides, and leaves the other entries'
      paths writable. */
  lemma FirstStep(fs: Nodes, target: Path, es: seq<Entry>, buf: Bytes)
    requires |buf| == BufferSize && |target| > 0 && es != []
    requires PlainEntries(es) && PrefixFree(es)
    requires forall i :: 0 <= i < |es| ==> Writable(fs, target + Split(es[i].name))
    ensures var (stop, next, buf') := Step(fs, target, es[0], buf);
      var p := target + Split(es[0].name);
      && stop.None?
      && buf' == BufferAfter(es[0].data, buf)
      && (forall q :: q in fs ==> q in next && next[q] == fs[q])
      && p in next && next[p] == File(Padded(es[0].data, buf))
      && (forall q :: q in next && q !in fs ==> next[q] == Dir || q == p)
      && (forall j :: 0 < j < |es| ==> Writable(next, target + Split(es[j].name)))
  {
    var e := es[0];
    var p := target + Split(e.name);
    assert !IsDirectoryName(e.name) && Split(e.name) != [];
    WriteFile(fs, p, Padded(e.data, buf));
    var next := Mkdirs(fs, Parent(p))[p := File(Padded(e.data, buf))];
    assert Step(fs, target, e, buf) == (None, next, BufferAfter(e.data, buf));
    RestStayWritable(fs, next, target, es);
  }

  /** Writing a file at a writable path with a parent: the output opens
      once `mkdirs` has made the parent, every node is kept, and the nodes
      added are the file and directories on the way to it. */
  lemma WriteFile(fs: Nodes, p: Path, data: Bytes)
    requires |p| > 1 && Writable(fs, p)
    ensures CanOpenOutput(Mkdirs(fs, Parent(p)), p)
    ensures var next := Mkdirs(fs, Parent(p))[p := File(data)];
      && (forall x :: x in fs ==> x in next && next[x] == fs[x])
      && (forall x :: x in next && x !in fs ==> (next[x] == Dir || x == p) && IsPrefix(x, p))
  {
    FirstEntryOpens(fs, p);
  }

  /** Once the first entry is written, the other entries' paths are
      still writable. */
  lemma RestStayWritable(fs: Nodes, next: Nodes, target: Path, es: seq<Entry>)
    requires es != [] && PrefixFree(es)
    requires forall i :: 0 <= i < |es| ==> Writable(fs, target + Split(es[i].name))
    requires forall x :: x in fs ==> x in next && next[x] == fs[x]
    requires forall x :: x in next && x !in fs ==>
               (next[x] == Dir || x == target + Split(es[0].name)) && IsPrefix(x, target + Split(es[0].name))
    ensures forall j :: 0 < j < |es| ==> Writable(next, target + Split(es[j].name))
  {
    forall j | 0 < j < |es| ensures Writable(next, target + Split(es[j].name)) {
      OthersStayWritable(fs, next, target + Split(es[0].name), target, Split(es[0].name), Split(es[j].name));
    }
  }

  /** Restoring plain, prefix-free entries whose paths are all writable
      ends normally; it keeps every existing node, places each entry's
      restored bytes at its path below `target`, and adds nothing else but
      directories. */
  lemma {:induction false} ExtractPlaces(fs: Nodes, target: Path, es: seq<Entry>, buf: Bytes)
    requires |buf| == BufferSize && |target| > 0
    requires PlainEntries(es) && PrefixFree(es)
    requires forall i :: 0 <= i < |es| ==> Writable(fs, target + Split(es[i].name))
    ensures Extract(fs, target, es, buf).0 == Returned
    ensures var r := Extract(fs, target, es, buf).1;
      && (forall q :: q in fs ==> q in r && r[q] == fs[q])
      && (forall i :: 0 <= i < |es| ==>
            target + Split(es[i].name) in r && r[target + Split(es[i].name)] == File(RestoredBytes(es, buf)[i]))
      && (forall q :: q in r && q !in fs ==>
            r[q] == Dir || NamedBy(q, target, es))
    decreases |es|
  {
    if es != [] {
      FirstStep(fs, target, es, buf);
      var (_, next, buf') := Step(fs, target, es[0], buf);
      var rest := es[1..];
      assert PlainEntries(rest) && PrefixFree(rest) && forall j :: 0 <= j < |rest| ==> rest[j] == es[j + 1];
      ExtractPlaces(next, target, rest, buf');
      assert Extract(fs, target, es, buf) == Extract(next, target, rest, buf');
      PlacesCons(fs, next, Extract(next, target, rest, buf').1, target, es, rest, buf, buf');
    }
  }

  /** The inductive step of `ExtractPlaces`: what the first step does,
      followed by what the rest of the loop does, is what the whole loop
      does. */
  lemma PlacesCons(fs: Nodes, next: Nodes, r: Nodes, target: Path, es: seq<Entry>, rest: seq<Entry>, buf: Bytes, buf': Bytes)
    requires |buf| == BufferSize && |buf'| == BufferSize && es != [] && rest == es[1..]
    requires buf' == BufferAfter(es[0].data, buf)
    requires forall q :: q in fs ==> q in next && next[q] == fs[q]
    requires target + Split(es[0].name) in next && next[target + Split(es[0].name)] == File(Padded(es[0].data, buf))
    requires forall q :: q in next && q !in fs ==> next[q] == Dir || q == target + Split(es[0].name)
    requires forall q :: q in next ==> q in r && r[q] == next[q]
    requires forall i :: 0 <= i < |rest| ==>
               target + Split(rest[i].name) in r && r[target + Split(rest[i].name)] == File(RestoredBytes(rest, buf')[i])
    requires forall q :: q in r && q !in next ==>
               r[q] == Dir || NamedBy(q, target, rest)
    ensures forall q :: q in fs ==> q in r && r[q] == fs[q]
    ensures forall i :: 0 <= i < |es| ==>
              target + Split(es[i].name) in r && r[target + Split(es[i].name)] == File(RestoredBytes(es, buf)[i])
    ensures forall q :: q in r && q !in fs ==>
              r[q] == Dir || NamedBy(q, target, es)
  {
    forall i | 0 <= i < |es|
      ensures target + Split(es[i].name) in r && r[target + Split(es[i].name)] == File(RestoredBytes(es, buf)[i])
    {
      RestoredBytesAt(es, buf, i);
      if i > 0 {
        assert es[i] == rest[i - 1];
      }
    }
    forall q | q in r && q !in fs
      ensures r[q] == Dir || NamedBy(q, target, es)
    {
      if q !in next && r[q] != Dir {
        assert NamedBy(q, target, rest);
      }
    }
  }

  /** The first entry is restored with the buffer as it is, each later one
      with the buffer the earlier ones leave. */
  lemma RestoredBytesAt(es: seq<Entry>, buf: Bytes, i: int)
    requires |buf| == BufferSize && 0 <= i < |es|
    ensures i == 0 ==> RestoredBytes(es, buf)[i] == Padded(es[0].data, buf)
    ensures i > 0 ==> RestoredBytes(es, buf)[i] == RestoredBytes(es[1..], BufferAfter(es[0].data, buf))[i - 1]
  {
  }

  /** `q` is the path of one of the entries below `target`. */
  ghost predicate NamedBy(q: Path, target: Path, es: seq<Entry>)
    decreases |es|
  {
    |es| > 0 && (q == target + Split(es[0].name) || NamedBy(q, target, es[1..]))
  }

  lemma {:induction false} NamedByIndex(q: Path, target: Path, es: seq<Entry>)
    ensures NamedBy(q, target, es) <==> exists i :: 0 <= i < |es| && q == target + Split(es[i].name)
    decreases |es|
  {
    if |es| > 0 {
      NamedByIndex(q, target, es[1..]);
      if exists i :: 0 <= i < |es| && q == target + Split(es[i].name) {
        var i :| 0 <= i < |es| && q == target + Split(es[i].name);
        if i > 0 {
          assert es[1..][i - 1] == es[i];
        }
      }
      if NamedBy(q, target, es[1..]) {
        var i :| 0 <= i < |es[1..]| && q == target + Split(es[1..][i].name);
        assert es[i + 1] == es[1..][i];
      }
    }
  }

  /** The body of the restore loop for one entry. */
  method RestoreEntry(fs: FileSystem, buffer: array<byte>, target: Path, e: Entry) returns (stop: Option<Outcome>)
    requires fs.Valid() && ValidPath(target) && buffer.Length == BufferSize
    modifies fs, buffer
    ensures fs.Valid()
    ensures stop == Step(old(fs.nodes), target, e, old(buffer[..])).0
    ensures fs.nodes == Step(old(fs.nodes), target, e, old(buffer[..])).1
    ensures buffer[..] == Step(old(fs.nodes), target, e, old(buffer[..])).2
  {
    ghost var step := Step(fs.nodes, target, e, buffer[..]);
    EntryPathText(target, e.name);
    var p := Split(Join(target) + "/" + e.name);
    if IsDirectoryName(e.name) {
      fs.MakeDirs(p);
    } else {
      if |p| <= 1 {
        return Some(Thrown(NullPointer));
      }
      fs.MakeDirs(Parent(p));
    }
    ghost var made := fs.nodes;
    var created := fs.OpenOutput(p);
    if !created {
      return Some(Returned);
    }
    var written := WriteEntry(buffer, e.data);
    fs.Store(p, File(written));
    assert fs.nodes == made[p := File(written)];
    return None;
  }

  /** The effect of the load step, from nodes `n0` to nodes `n`: a world
      of that name on the server means the version's error without
      `overwrite`, and a NullPointerException when its folder cannot be
      listed; the folder is never deleted. Then the world folder is made if
      missing, and the archive, when there is one, is restored into it. */
  ghost predicate Loaded(n0: Nodes, n: Nodes, outcome: Outcome, loaded: bool, overwrite: bool, existsError: Error,
                           target: Path, archive: Path)
  {
    var n1 := AfterMkdir(n0, target);
    && (loaded && !overwrite ==> outcome == Thrown(existsError) && n == n0)
    && (loaded && overwrite && !IsDir(n0, target) ==> outcome == Thrown(NullPointer) && n == n0)
    && (!loaded || (overwrite && IsDir(n0, target)) ==>
          && (archive in n1 && n1[archive].Zip? ==> (outcome, n) == Extract(n1, target, n1[archive].entries, Zeros()))
          && (!(archive in n1 && n1[archive].Zip?) ==> outcome == Returned && n == n1))
  }

  /** `load(backupName, worldName, overwrite)` / `loadWorld(...)` after the
      paths are built: `loaded` says whether the server has a world of that
      name, `target` is the world folder and `archive` the backup. */
  method Restore(fs: FileSystem, loaded: bool, overwrite: bool, existsError: Error, target: Path, archive: Path)
    returns (outcome: Outcome)
    requires fs.Valid() && ValidPath(target) && ValidPath(archive)
    modifies fs
    ensures fs.Valid()
    ensures Loaded(old(fs.nodes), fs.nodes, outcome, loaded, overwrite, existsError, target, archive)
  {
    if loaded {
      if !overwrite {
        return Thrown(existsError);
      }
      var listing := fs.ListFiles(target);
      if listing.None? {
        return Thrown(NullPointer);
      }
      if HasWorldMarkers(listing.value) {
        var _ := fs.Remove(target);
      }
      MarkersNeverFound(listing.value);
    }
    if !fs.Exists(target) {
      var _ := fs.MakeDir(target);
    }
    var archived := fs.OpenZip(archive);
    if archived.None? {
      return Returned;
    }
    outcome := RestoreAll(fs, target, archived.value);
  }

  /** The restore loop: every entry in order, sharing one buffer, until
      an entry stops it. */
  method RestoreAll(fs: FileSystem, target: Path, entries: seq<Entry>) returns (outcome: Outcome)
    requires fs.Valid() && ValidPath(target)
    modifies fs
    ensures fs.Valid()
    ensures (outcome, fs.nodes) == Extract(old(fs.nodes), target, entries, Zeros())
  {
    var buffer := new byte[BufferSize](_ => 0);
    assert buffer[..] == Zeros();
    var i := 0;
    while i < |entries|
      invariant 0 <= i <= |entries|
      invariant fs.Valid() && buffer.Length == BufferSize
      invariant Extract(fs.nodes, target, entries[i..], buffer[..]) == Extract(old(fs.nodes), target, entries, Zeros())
    {
      assert entries[i..][1..] == entries[i + 1..];
      var stop := RestoreEntry(fs, buffer, target, entries[i]);
      if stop.Some? {
        return stop.value;
      }
      i := i + 1;
    }
    return Returned;
  }

  /** `new File(worldDir, name)` is the world folder followed by the name's path. */
  lemma EntryPathText(target: Path, name: string)
    requires ValidPath(target)
    ensures Split(Join(target) + "/" + name) == target + Split(name)
  {
    SplitConcat(Join(target), name);
    SplitJoin(target);
  }

  /** What restoring does to a file's bytes: they come back in full,
      followed by stale buffer bytes up to a whole number of buffers. */
  ghost predicate PaddedCopy(original: Bytes, restored: Bytes)
  {
    && |original| <= |restored| < |original| + BufferSize
    && |restored| % BufferSize == 0
    && restored[..|original|] == original
  }

  lemma {:induction false} RestoredArePadded(es: seq<Entry>, buf: Bytes)
    requires |buf| == BufferSize
    ensures forall i :: 0 <= i < |es| ==> PaddedCopy(es[i].data, RestoredBytes(es, buf)[i])
    decreases |es|
  {
    if es != [] {
      PaddedPrefix(es[0].data, buf);
      PaddedLength(es[0].data, buf);
      RestoredArePadded(es[1..], BufferAfter(es[0].data, buf));
      forall i | 0 < i < |es| ensures PaddedCopy(es[i].data, RestoredBytes(es, buf)[i]) {
        assert es[i] == es[1..][i - 1];
      }
    }
  }

  /** A padded copy of a whole number of buffers is the original. */
  lemma PaddedCopyExact(original: Bytes, restored: Bytes)
    requires PaddedCopy(original, restored) && |original| % BufferSize == 0
    ensures restored == original
  {
  }

  /** In a well-formed tree a file is a prefix of no other node. */
  lemma FilePrefixOnlyOfItself(fs: Nodes, p: Path, q: Path)
    requires WellFormed(fs) && p in fs && q in fs && !fs[p].Dir?
    ensures IsPrefix(p, q) ==> p == q
  {
    if IsPrefix(p, q) && |p| < |q| {
      assert q[..|p|] == p;
      AncestorIsDir(fs, q, |p|);
    }
  }

  /** A snapshot archive holds plain, prefix-free entries, each named by
      its file's path relative to the source. */
  lemma SnapshotEntries(fs: Nodes, src: Path, paths: seq<Path>, es: seq<Entry>)
    requires WellFormed(fs) && Snapshot(es, paths, fs, src)
    ensures forall i :: 0 <= i < |es| ==> Split(es[i].name) == paths[i][|src|..]
    ensures PlainEntries(es) && PrefixFree(es)
  {
    forall i | 0 <= i < |es|
      ensures Split(es[i].name) == paths[i][|src|..] && !IsDirectoryName(es[i].name) && Split(es[i].name) != []
    {
      assert paths[i] in FilesUnder(fs, src);
      var rel := paths[i][|src|..];
      SplitJoin(rel);
      JoinLast(rel);
    }
    forall i, j | 0 <= i < |es| && 0 <= j < |es| && i != j
      ensures !IsPrefix(Split(es[i].name), Split(es[j].name))
    {
      assert paths[i] in FilesUnder(fs, src) && paths[j] in FilesUnder(fs, src);
      assert paths[i] == src + paths[i][|src|..] && paths[j] == src + paths[j][|src|..];
      PrefixCancel(src, paths[i][|src|..], paths[j][|src|..]);
      FilePrefixOnlyOfItself(fs, paths[i], paths[j]);
    }
  }

  /** Every path below an empty directory is writable. */
  lemma FreshTargetWritable(fs: Nodes, target: Path, rel: Path)
    requires WellFormed(fs) && IsDir(fs, target) && Below(fs, target) == {} && |rel| > 0
    ensures Writable(fs, target + rel)
  {
    var q := target + rel;
    forall k | |target| < k <= |q| ensures q[..k] !in fs {
      assert q[..k][..|target|] == target;
      assert q[..k] !in Below(fs, target);
    }
    assert q == q[..|q|];
    forall k | 0 < k < |q| && q[..k] in fs ensures fs[q[..k]].Dir? {
      if k < |target| {
        AncestorIsDir(fs, target, k);
        assert q[..k] == target[..k];
      } else {
        assert q[..k] == target;
      }
    }
  }

  /** Restoring a snapshot of `src` into an empty world folder `target`
      ends normally, keeps every existing node and puts each file of the
      snapshot at `target` followed by its path relative to `src`, holding
      a padded copy of the file's bytes. */
  lemma RestoreSnapshot(fs0: Nodes, src: Path, paths: seq<Path>, es: seq<Entry>, fs: Nodes, target: Path, buf: Bytes)
    requires WellFormed(fs0) && Snapshot(es, paths, fs0, src)
    requires WellFormed(fs) && IsDir(fs, target) && Below(fs, target) == {} && |buf| == BufferSize
    ensures Extract(fs, target, es, buf).0 == Returned
    ensures var r := Extract(fs, target, es, buf).1;
      && (forall q :: q in fs ==> q in r && r[q] == fs[q])
      && (forall i :: 0 <= i < |paths| ==>
            && target + paths[i][|src|..] in r
            && r[target + paths[i][|src|..]].File?
            && ReadAt(fs0, paths[i]).Some?
            && PaddedCopy(ReadAt(fs0, paths[i]).value, r[target + paths[i][|src|..]].data))
  {
    SnapshotEntries(fs0, src, paths, es);
    assert |target| > 0;
    forall i | 0 <= i < |es| ensures Writable(fs, target + Split(es[i].name)) {
      FreshTargetWritable(fs, target, Split(es[i].name));
    }
    ExtractPlaces(fs, target, es, buf);
    RestoredArePadded(es, buf);
  }
}
