/** The file system the backup manager works on, as a map from paths to
    nodes, and the java.io.File operations it uses. A ZIP archive on disk is
    a node of its own holding its entries; the container encoding is not
    modelled. The root (the empty path) is never a node: `new File("")`
    does not exist and cannot be created. */
module FileSystems {
  import opened Paths
  import opened Wrappers

  type byte = x: int | 0 <= x < 256
  type Bytes = seq<byte>

  /** One entry of an archive: its name and its bytes. */
  datatype Entry = Entry(name: string, data: Bytes)

  datatype Node = Dir | File(data: Bytes) | Zip(entries: seq<Entry>)

  type Nodes = map<Path, Node>

  predicate IsDir(fs: Nodes, p: Path)
  {
    p in fs && fs[p].Dir?
  }

  function Parent(p: Path): Path
    requires |p| > 0
  {
    p[..|p| - 1]
  }

  /** The parent of `p` is a directory; the root counts as one. */
  predicate ParentIsDir(fs: Nodes, p: Path)
  {
    |p| > 0 && (|p| == 1 || IsDir(fs, Parent(p)))
  }

  /** Every node has valid names and sits in a directory. */
  ghost predicate WellFormed(fs: Nodes)
  {
    && [] !in fs
    && (forall p :: p in fs ==> ValidPath(p))
    && (forall p {:trigger Parent(p)} :: p in fs && |p| > 1 ==> IsDir(fs, Parent(p)))
  }

  /** The bytes a FileInputStream reads from a node; a directory cannot be
      opened. The byte image of a ZIP container is not modelled: an
      archive read as a plain file yields its entries' data, one after
      the other. */
  function Content(n: Node): Option<Bytes>
  {
    match n
    case Dir => None
    case File(d) => Some(d)
    case Zip(es) => Some(ZipImage(es))
  }

  function ZipImage(es: seq<Entry>): Bytes
  {
    if es == [] then [] else es[0].data + ZipImage(es[1..])
  }

  /** The paths directly inside `d`: what `listFiles()` enumerates. */
  function Children(fs: Nodes, d: Path): set<Path>
  {
    set q | q in fs && |q| == |d| + 1 && q[..|d|] == d
  }

  /** Every node strictly below `d`. */
  function Below(fs: Nodes, d: Path): set<Path>
  {
    set q | q in fs && |q| > |d| && q[..|d|] == d
  }

  /** Every non-directory node at any depth below `d`. */
  function FilesUnder(fs: Nodes, d: Path): set<Path>
  {
    set q | q in fs && |q| > |d| && q[..|d|] == d && !fs[q].Dir?
  }

  /** `File.mkdir()`: creates `p` when it is absent and its parent is a
      directory; a well-formed tree stays well formed. */
  function Mkdir(fs: Nodes, p: Path): (r: (bool, Nodes))
    ensures r.0 <==> p !in fs && ParentIsDir(fs, p)
    ensures r.0 ==> r.1 == fs[p := Dir]
    ensures !r.0 ==> r.1 == fs
    ensures WellFormed(fs) && ValidPath(p) ==> WellFormed(r.1)
  {
    if p !in fs && ParentIsDir(fs, p) then (true, fs[p := Dir]) else (false, fs)
  }

  /** The proper and improper non-empty prefixes of `p`. */
  ghost predicate OnPath(q: Path, p: Path)
  {
    0 < |q| <= |p| && q == p[..|q|]
  }

  /** `File.mkdirs()`: creates every missing directory on the way to `p`;
      it stops below the first prefix that is not a directory. It only ever
      adds directories, and only on the way to `p`. */
  function Mkdirs(fs: Nodes, p: Path): (r: Nodes)
    ensures forall q :: q in fs ==> q in r && r[q] == fs[q]
    ensures forall q :: q in r && q !in fs ==> r[q] == Dir && OnPath(q, p)
    decreases |p|
  {
    if |p| == 0 || p in fs then fs
    else
      var up := Mkdirs(fs, Parent(p));
      if ParentIsDir(up, p) then up[p := Dir] else up
  }

  /** `File.delete()`: removes a file, or a directory with nothing in it.
      In a well-formed tree the tree stays well formed, and a node is only
      removed when nothing at all lies below it. */
  function Delete(fs: Nodes, p: Path): (r: (bool, Nodes))
    ensures r.0 <==> p in fs && (fs[p].Dir? ==> Children(fs, p) == {})
    ensures r.0 ==> r.1 == fs - {p}
    ensures !r.0 ==> r.1 == fs
    ensures WellFormed(fs) ==> WellFormed(r.1)
    ensures WellFormed(fs) && r.0 ==> Below(fs, p) == {} && Below(r.1, p) == {}
  {
    if p in fs && (fs[p].Dir? ==> Children(fs, p) == {}) then
      RemoveLeaf(fs, p);
      (true, fs - {p})
    else (false, fs)
  }

  /** Whether `new FileOutputStream(p)` opens: the parent is a directory and
      `p` is not one. */
  predicate CanOpenOutput(fs: Nodes, p: Path)
  {
    ParentIsDir(fs, p) && !IsDir(fs, p)
  }

  lemma {:induction false} AncestorIsDir(fs: Nodes, p: Path, k: nat)
    requires WellFormed(fs) && p in fs && 0 < k < |p|
    ensures IsDir(fs, p[..k])
    decreases |p| - k
  {
    if k < |p| - 1 {
      AncestorIsDir(fs, Parent(p), k);
      assert Parent(p)[..k] == p[..k];
    } else {
      assert p[..k] == Parent(p);
    }
  }

  lemma {:induction false} MkdirsWellFormed(fs: Nodes, p: Path)
    requires WellFormed(fs) && ValidPath(p)
    ensures WellFormed(Mkdirs(fs, p))
    decreases |p|
  {
    if |p| > 0 && p !in fs {
      MkdirsWellFormed(fs, Parent(p));
    }
  }

  /** When no node on the way to `p` is a file, `mkdirs` leaves `p` a directory. */
  lemma {:induction false} MkdirsMakesDir(fs: Nodes, p: Path)
    requires |p| > 0
    requires forall k :: 0 < k <= |p| && p[..k] in fs ==> fs[p[..k]].Dir?
    ensures IsDir(Mkdirs(fs, p), p)
    decreases |p|
  {
    if p !in fs {
      assert p[..|p|] == p;
      if |p| > 1 {
        forall k | 0 < k <= |Parent(p)| && Parent(p)[..k] in fs
          ensures fs[Parent(p)[..k]].Dir?
        {
          assert Parent(p)[..k] == p[..k];
        }
        MkdirsMakesDir(fs, Parent(p));
      }
    } else {
      assert p[..|p|] == p;
    }
  }

  /** Removing a file or an empty directory keeps the tree well formed,
      and nothing lay below it. */
  lemma RemoveLeaf(fs: Nodes, p: Path)
    requires p in fs && (fs[p].Dir? ==> Children(fs, p) == {})
    ensures WellFormed(fs) ==> WellFormed(fs - {p}) && Below(fs, p) == {}
  {
    if WellFormed(fs) {
      var r := fs - {p};
      forall q | q in r && |q| > 1 ensures IsDir(r, Parent(q)) {
        assert IsDir(fs, Parent(q));
        assert Parent(q) != p || q in Children(fs, p);
      }
      forall q | q in Below(fs, p) ensures IsDir(fs, p) && q[..|p| + 1] in Children(fs, p) {
        AncestorIsDir(fs, q, |p|);
        if |p| + 1 < |q| {
          AncestorIsDir(fs, q, |p| + 1);
        }
        assert q[..|p| + 1][..|p|] == p;
      }
    }
  }

  lemma StoreWellFormed(fs: Nodes, p: Path, n: Node)
    requires WellFormed(fs) && ValidPath(p) && CanOpenOutput(fs, p) && !n.Dir?
    ensures WellFormed(fs[p := n])
  {
    var r := fs[p := n];
    forall q | q in r && |q| > 1 ensures IsDir(r, Parent(q)) {
      if q == p {
        assert IsDir(fs, Parent(p));
        assert Parent(p) != p;
      } else {
        assert IsDir(fs, Parent(q));
      }
    }
  }

  /** The host file system. */
  class FileSystem {
    var nodes: Nodes

    ghost predicate Valid()
      reads this
    {
      WellFormed(nodes)
    }

    constructor (initial: Nodes)
      requires WellFormed(initial)
      ensures Valid() && nodes == initial
    {
      nodes := initial;
    }

    /** `File.exists()`. */
    function Exists(p: Path): bool
      reads this
    {
      p in nodes
    }

    /** `File.isDirectory()`. */
    function IsDirectory(p: Path): bool
      reads this
    {
      IsDir(nodes, p)
    }

    method MakeDir(p: Path) returns (ok: bool)
      requires Valid() && ValidPath(p)
      modifies this
      ensures Valid()
      ensures (ok, nodes) == Mkdir(old(nodes), p)
    {
      ok, nodes := Mkdir(nodes, p).0, Mkdir(nodes, p).1;
    }

    method MakeDirs(p: Path)
      requires Valid() && ValidPath(p)
      modifies this
      ensures Valid()
      ensures nodes == Mkdirs(old(nodes), p)
    {
      MkdirsWellFormed(nodes, p);
      nodes := Mkdirs(nodes, p);
    }

    method Remove(p: Path) returns (ok: bool)
      requires Valid()
      modifies this
      ensures Valid()
      ensures (ok, nodes) == Delete(old(nodes), p)
    {
      ok, nodes := Delete(nodes, p).0, Delete(nodes, p).1;
    }

    /** `new FileOutputStream(p)`: creates or truncates the file, or fails
        with an IOException. */
    method OpenOutput(p: Path) returns (ok: bool)
      requires Valid() && ValidPath(p)
      modifies this
      ensures Valid()
      ensures ok <==> CanOpenOutput(old(nodes), p)
      ensures nodes == if ok then old(nodes)[p := File([])] else old(nodes)
    {
      ok := CanOpenOutput(nodes, p);
      if ok {
        StoreWellFormed(nodes, p, File([]));
        nodes := nodes[p := File([])];
      }
    }

    /** Closing an output stream opened with `OpenOutput`: the node gets what
        was written. */
    method Store(p: Path, n: Node)
      requires Valid() && ValidPath(p) && CanOpenOutput(nodes, p) && !n.Dir?
      modifies this
      ensures Valid()
      ensures nodes == old(nodes)[p := n]
    {
      StoreWellFormed(nodes, p, n);
      nodes := nodes[p := n];
    }

    /** `File.listFiles()`: the children of a directory in some order, or
        null when `d` is not a directory. */
    method ListFiles(d: Path) returns (r: Option<seq<Path>>)
      ensures r.None? <==> !IsDir(nodes, d)
      ensures r.Some? ==> Distinct(r.value)
      ensures r.Some? ==> forall q :: q in r.value <==> q in Children(nodes, d)
    {
      if !IsDir(nodes, d) {
        return None;
      }
      var rest := Children(nodes, d);
      var listed: seq<Path> := [];
      while rest != {}
        invariant Distinct(listed)
        invariant forall q :: q in listed ==> q !in rest
        invariant forall q :: q in Children(nodes, d) <==> q in listed || q in rest
        decreases rest
      {
        var q :| q in rest;
        listed := listed + [q];
        rest := rest - {q};
      }
      return Some(listed);
    }

    /** Opens `p` with a FileInputStream and reads it to the end, or fails
        with an IOException. */
    method ReadAll(p: Path) returns (r: Option<Bytes>)
      ensures r.Some? <==> p in nodes && !nodes[p].Dir?
      ensures r.Some? ==> Some(r.value) == Content(nodes[p])
    {
      if p in nodes {
        return Content(nodes[p]);
      }
      return None;
    }

    /** `new ZipFile(p)` followed by `entries()`: fails with an IOException
        unless `p` holds an archive. */
    method OpenZip(p: Path) returns (r: Option<seq<Entry>>)
      ensures r.Some? <==> p in nodes && nodes[p].Zip?
      ensures r.Some? ==> r.value == nodes[p].entries
    {
      if p in nodes && nodes[p].Zip? {
        return Some(nodes[p].entries);
      }
      return None;
    }
  }
}
