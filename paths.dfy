/** Paths as java.io.File sees them.
    A path is a sequence of names; the text form joins them with '/', and
    a File built from text drops the empty pieces (so "a//b/" is "a/b"). */
module Paths {

  /** A single name inside a path: non-empty and free of the separator. */
  predicate ValidSegment(s: string)
  {
    s != [] && '/' !in s
  }

  type Path = seq<string>

  predicate ValidPath(p: Path)
  {
    forall i :: 0 <= i < |p| ==> ValidSegment(p[i])
  }

  /** No element occurs twice. */
  predicate Distinct<T(==)>(s: seq<T>)
  {
    forall i, j :: 0 <= i < j < |s| ==> s[i] != s[j]
  }

  /** The text `File.getPath()` gives for a path. */
  function Join(p: Path): string
  {
    if |p| == 0 then "" else if |p| == 1 then p[0] else p[0] + "/" + Join(p[1..])
  }

  function Flush(cur: string): Path
  {
    if cur == [] then [] else [cur]
  }

  /** Splits `s` on '/', continuing the current name `cur`; empty names are dropped. */
  function SplitFrom(s: string, cur: string): (r: Path)
    requires '/' !in cur
    ensures ValidPath(r)
    decreases |s|
  {
    if s == [] then Flush(cur)
    else if s[0] == '/' then Flush(cur) + SplitFrom(s[1..], [])
    else SplitFrom(s[1..], cur + [s[0]])
  }

  /** The path denoted by `new File(s)`. */
  function Split(s: string): (r: Path)
    ensures ValidPath(r)
  {
    SplitFrom(s, [])
  }

  /** `File.getName()`: the last name of the path, or "" for the empty path. */
  function Name(p: Path): (r: string)
    ensures |p| > 0 ==> r == p[|p| - 1]
    ensures |p| == 0 ==> r == ""
  {
    if |p| == 0 then "" else p[|p| - 1]
  }

  lemma {:induction false} SplitFromNoSlash(s: string, cur: string)
    requires '/' !in s && '/' !in cur
    ensures SplitFrom(s, cur) == Flush(cur + s)
    decreases |s|
  {
    if s != [] {
      assert s[0] != '/' by { assert s[0] in s; }
      assert '/' !in s[1..] by {
        forall c | c in s[1..] ensures c != '/' { assert c in s; }
      }
      SplitFromNoSlash(s[1..], cur + [s[0]]);
      assert cur + [s[0]] + s[1..] == cur + s;
    } else {
      assert cur + s == cur;
    }
  }

  lemma SplitSegment(s: string)
    requires ValidSegment(s)
    ensures Split(s) == [s]
  {
    SplitFromNoSlash(s, []);
    assert [] + s == s;
  }

  lemma {:induction false} SplitFromConcat(a: string, cur: string, b: string)
    requires '/' !in cur
    ensures SplitFrom(a + "/" + b, cur) == SplitFrom(a, cur) + Split(b)
    decreases |a|
  {
    var s := a + "/" + b;
    if a == [] {
      assert s == "/" + b;
      assert s[1..] == b;
      assert SplitFrom(s, cur) == Flush(cur) + Split(b);
    } else {
      assert s[0] == a[0];
      assert s[1..] == a[1..] + "/" + b;
      if a[0] == '/' {
        SplitFromConcat(a[1..], [], b);
      } else {
        SplitFromConcat(a[1..], cur + [a[0]], b);
      }
    }
  }

  /** Concatenating with a separator concatenates the paths: the rule that
      `new File(parent + "/" + child)` denotes parent's path followed by child's. */
  lemma SplitConcat(a: string, b: string)
    ensures Split(a + "/" + b) == Split(a) + Split(b)
  {
    SplitFromConcat(a, [], b);
  }

  lemma {:induction false} SplitJoin(p: Path)
    requires ValidPath(p)
    ensures Split(Join(p)) == p
    decreases |p|
  {
    if |p| == 1 {
      SplitSegment(p[0]);
    } else if |p| > 1 {
      SplitConcat(p[0], Join(p[1..]));
      SplitSegment(p[0]);
      SplitJoin(p[1..]);
      assert [p[0]] + p[1..] == p;
    }
  }

  /** Distinct valid paths have distinct texts. */
  lemma JoinInjective(p: Path, q: Path)
    requires ValidPath(p) && ValidPath(q)
    ensures Join(p) == Join(q) <==> p == q
  {
    SplitJoin(p);
    SplitJoin(q);
  }

  lemma {:induction false} JoinAppend(p: Path, q: Path)
    requires |p| > 0 && |q| > 0
    ensures Join(p + q) == Join(p) + "/" + Join(q)
    decreases |p|
  {
    if |p| == 1 {
      assert (p + q)[1..] == q;
    } else {
      assert (p + q)[1..] == p[1..] + q;
      JoinAppend(p[1..], q);
    }
  }

  /** Removing the text of a leading path and one separator leaves the rest:
      the prefix-stripping `path.substring(prefix.length() + 1)`. */
  lemma StripJoin(p: Path, q: Path)
    requires |p| > 0 && |q| > 0
    ensures |Join(p)| + 1 <= |Join(p + q)|
    ensures Join(p + q)[|Join(p)| + 1..] == Join(q)
  {
    JoinAppend(p, q);
  }

  lemma {:induction false} JoinLength(p: Path)
    requires ValidPath(p) && |p| > 0
    ensures |Join(p)| >= |Name(p)|
    ensures |p| > 1 ==> |Join(p)| >= |Name(p)| + 2
    decreases |p|
  {
    if |p| > 1 {
      var rest := p[1..];
      assert ValidPath(rest) by {
        forall i | 0 <= i < |rest| ensures ValidSegment(rest[i]) { assert rest[i] == p[i + 1]; }
      }
      JoinLength(rest);
      assert Name(p) == Name(rest);
      assert ValidSegment(p[0]);
      assert Join(p) == p[0] + "/" + Join(rest);
    }
  }

  /** The text of a non-empty path does not end with a separator. */
  lemma {:induction false} JoinLast(p: Path)
    requires ValidPath(p) && |p| > 0
    ensures |Join(p)| > 0 && Join(p)[|Join(p)| - 1] != '/'
    decreases |p|
  {
    if |p| == 1 {
      assert p[0][|p[0]| - 1] in p[0];
    } else {
      JoinLast(p[1..]);
    }
  }

  /** Sequences that agree before and after a cut are equal. */
  lemma EqualBySplit<T>(a: seq<T>, b: seq<T>, k: nat)
    requires k <= |a| && k <= |b| && a[..k] == b[..k] && a[k..] == b[k..]
    ensures a == b
  {
    assert a == a[..k] + a[k..];
    assert b == b[..k] + b[k..];
  }

  /** The text of a path that has `p` as a proper prefix is longer than
      that of `p` by at least a separator and a name. */
  lemma JoinLonger(p: Path, q: Path)
    requires ValidPath(q) && |p| > 0 && |q| > 0
    ensures |Join(p + q)| >= |Join(p)| + 2
  {
    JoinAppend(p, q);
    assert q[0] != [];
    assert |Join(q)| >= 1 by {
      if |q| > 1 { assert Join(q) == q[0] + "/" + Join(q[1..]); }
    }
  }

  /** A text with a pending name, or ending in a character other than the
      separator, splits into at least one name. */
  lemma {:induction false} SplitFromNonEmpty(s: string, cur: string)
    requires '/' !in cur
    requires cur != [] || (|s| > 0 && s[|s| - 1] != '/')
    ensures |SplitFrom(s, cur)| > 0
    decreases |s|
  {
    if s != [] {
      if s[0] == '/' {
        if cur == [] {
          SplitFromNonEmpty(s[1..], []);
        }
      } else {
        SplitFromNonEmpty(s[1..], cur + [s[0]]);
      }
    }
  }

  lemma SplitNonEmpty(s: string)
    requires |s| > 0 && s[|s| - 1] != '/'
    ensures |Split(s)| > 0
  {
    SplitFromNonEmpty(s, []);
  }
}
