/** server.js's recursive lister, over an abstract directory tree instead of
    the filesystem. For every entry of a directory, in the order the
    directory read returns them, it builds the entry's relative path; a
    directory contributes the listing of its own entries at that position,
    and any other entry (a regular file, a symbolic link, ...) contributes
    its path. */
module Listing {
  import opened Text

  /** An entry of a directory: a directory with its own entries, or anything
      else, which the lister treats as a file. */
  datatype Node = File(name: string) | Dir(name: string, children: seq<Node>)

  /* ---------------------------------------------------------------------- */
  /* Paths                                                                   */
  /* ---------------------------------------------------------------------- */

  /** A name a directory read can return: non-empty, slash-free, and neither
      `.` nor `..`. */
  predicate ValidName(name: string)
  {
    name != "" && '/' !in name && name != "." && name != ".."
  }

  /** `path.join(base, name)` for a valid entry name: the name itself under
      the empty base, otherwise the two joined by one slash. */
  function PathJoin(base: string, name: string): (path: string)
    ensures base == "" ==> path == name
    ensures base != "" ==> |path| == |base| + 1 + |name|
  {
    if base == "" then name else base + "/" + name
  }

  /** A joined path ends with the name and, under a non-empty base, starts
      with the base and one slash. */
  lemma PathJoinParts(base: string, name: string)
    ensures |name| <= |PathJoin(base, name)|
    ensures PathJoin(base, name)[|PathJoin(base, name)| - |name|..] == name
    ensures base != "" ==> PathJoin(base, name)[..|base| + 1] == base + "/"
  {
  }

  /** The relative path reached from `base` by descending through `names`. */
  function PathOf(base: string, names: seq<string>): string
    decreases names
  {
    if names == [] then base else PathOf(PathJoin(base, names[0]), names[1..])
  }

  predicate AllValid(names: seq<string>)
  {
    forall i :: 0 <= i < |names| ==> ValidName(names[i])
  }

  /** A path of non-empty names is the base joined with the names spelled out
      with slashes between them. */
  lemma {:induction false} PathOfIsJoin(base: string, names: seq<string>)
    requires |names| >= 1 && AllValid(names)
    ensures PathOf(base, names) == PathJoin(base, Join(names, '/'))
    decreases names
  {
    if |names| > 1 {
      var head := PathJoin(base, names[0]);
      PathOfIsJoin(head, names[1..]);
      assert head != "";
      if base == "" {
        assert PathOf(base, names) == names[0] + "/" + Join(names[1..], '/');
      } else {
        assert PathOf(base, names) == base + "/" + names[0] + "/" + Join(names[1..], '/');
      }
    }
  }

  /** Different name paths from one base give different relative paths. */
  lemma PathOfInjective(base: string, p: seq<string>, q: seq<string>)
    requires |p| >= 1 && AllValid(p)
    requires |q| >= 1 && AllValid(q)
    requires PathOf(base, p) == PathOf(base, q)
    ensures p == q
  {
    PathOfIsJoin(base, p);
    PathOfIsJoin(base, q);
    var jp, jq := Join(p, '/'), Join(q, '/');
    if base != "" {
      assert jp == (base + "/" + jp)[|base| + 1..];
      assert jq == (base + "/" + jq)[|base| + 1..];
    }
    JoinInjective(p, q, '/');
  }

  /* ---------------------------------------------------------------------- */
  /* Trees                                                                   */
  /* ---------------------------------------------------------------------- */

  /** What a real directory read guarantees: valid names, no two entries of a
      directory sharing a name, at every level. */
  ghost predicate WellFormed(items: seq<Node>)
  {
    && (forall i :: 0 <= i < |items| ==> ValidName(items[i].name))
    && (forall i, j :: 0 <= i < j < |items| ==> items[i].name != items[j].name)
    && (forall i :: 0 <= i < |items| && items[i].Dir? ==> WellFormed(items[i].children))
  }

  /** There is a non-directory entry at the end of the name path `names`. */
  ghost predicate FileAt(items: seq<Node>, names: seq<string>)
    decreases |names|
  {
    && |names| >= 1
    && exists i :: 0 <= i < |items| && items[i].name == names[0] &&
        if |names| == 1 then items[i].File?
        else items[i].Dir? && FileAt(items[i].children, names[1..])
  }

  /** There is a directory at the end of the name path `names`. */
  ghost predicate DirAt(items: seq<Node>, names: seq<string>)
    decreases |names|
  {
    && |names| >= 1
    && exists i :: 0 <= i < |items| && items[i].name == names[0] && items[i].Dir? &&
        (|names| == 1 || DirAt(items[i].children, names[1..]))
  }

  /** The number of non-directory entries at any depth. */
  function FileCount(items: seq<Node>): nat
    decreases items
  {
    if items == [] then 0 else NodeFileCount(items[0]) + FileCount(items[1..])
  }

  function NodeFileCount(item: Node): nat
    decreases item
  {
    match item
    case File(_) => 1
    case Dir(_, children) => FileCount(children)
  }

  /* ---------------------------------------------------------------------- */
  /* The lister                                                              */
  /* ---------------------------------------------------------------------- */

  /** `listFilesRecursively(dir, base)` on the entries of `dir`, as a
      function: each entry's contribution in order. */
  function Listed(items: seq<Node>, base: string): seq<string>
    decreases items
  {
    if items == [] then [] else Contribution(items[0], base) + Listed(items[1..], base)
  }

  /** What one entry adds to its directory's listing: its own path, or, for a
      directory, the listing of its entries under its path. */
  function Contribution(item: Node, base: string): seq<string>
    decreases item
  {
    match item
    case File(name) => [PathJoin(base, name)]
    case Dir(name, children) => Listed(children, PathJoin(base, name))
  }

  /** The loop over a directory's entries, concatenating a
      subdirectory's results and pushing any other entry's path. */
  method ListFilesRecursively(items: seq<Node>, basePath: string) returns (results: seq<string>)
    ensures results == Listed(items, basePath)
    ensures |results| == FileCount(items)
    decreases items
  {
    results := [];
    for k := 0 to |items|
      invariant results == Listed(items[..k], basePath)
    {
      var item := items[k];
      var relativePath := PathJoin(basePath, item.name);
      ListedConcat(items[..k], [item], basePath);
      assert items[..k + 1] == items[..k] + [item];
      if item.Dir? {
        var sub := ListFilesRecursively(item.children, relativePath);
        results := results + sub;
      } else {
        results := results + [relativePath];
      }
    }
    assert items[..|items|] == items;
    ListedCount(items, basePath);
  }

  /** The listing of two runs of entries is the two listings in a row. */
  lemma {:induction false} ListedConcat(a: seq<Node>, b: seq<Node>, base: string)
    ensures Listed(a + b, base) == Listed(a, base) + Listed(b, base)
  {
    if a == [] {
      assert a + b == b;
    } else {
      var c := Contribution(a[0], base);
      assert Listed(a + b, base) == c + Listed(a[1..] + b, base) by {
        assert (a + b)[0] == a[0];
        assert (a + b)[1..] == a[1..] + b;
      }
      ListedConcat(a[1..], b, base);
      assert c + (Listed(a[1..], base) + Listed(b, base))
          == (c + Listed(a[1..], base)) + Listed(b, base);
    }
  }

  /** One entry per non-directory node. */
  lemma {:induction false} ListedCount(items: seq<Node>, base: string)
    ensures |Listed(items, base)| == FileCount(items)
  {
    if items != [] {
      ListedCount(items[1..], base);
      match items[0]
      case File(_) =>
      case Dir(name, children) =>
        ListedCount(children, PathJoin(base, name));
      assert |Contribution(items[0], base)| == NodeFileCount(items[0]);
    }
  }

  /** A subdirectory's results appear exactly at that directory's position
      among its siblings; an empty directory contributes nothing. */
  lemma SubdirectorySpliced(before: seq<Node>, name: string, children: seq<Node>,
                            after: seq<Node>, base: string)
    ensures Listed(before + [Dir(name, children)] + after, base)
      == Listed(before, base) + Listed(children, PathJoin(base, name)) + Listed(after, base)
    ensures children == [] ==>
      Listed(before + [Dir(name, children)] + after, base) == Listed(before + after, base)
  {
    var d := Dir(name, children);
    var inner := Listed(children, PathJoin(base, name));
    assert Listed([d], base) == inner by {
      assert [d][1..] == [];
    }
    ListedConcat(before + [d], after, base);
    ListedConcat(before, [d], base);
    if children == [] {
      ListedConcat(before, after, base);
    }
  }

  /* ---------------------------------------------------------------------- */
  /* Coverage                                                                */
  /* ---------------------------------------------------------------------- */

  lemma FileAtShift(items: seq<Node>, names: seq<string>)
    requires items != [] && FileAt(items[1..], names)
    ensures FileAt(items, names)
  {
    var i :| 0 <= i < |items[1..]| && items[1..][i].name == names[0] &&
      if |names| == 1 then items[1..][i].File?
      else items[1..][i].Dir? && FileAt(items[1..][i].children, names[1..]);
    assert items[i + 1] == items[1..][i];
  }

  /** Every listed entry is the path, from the base, of a non-directory node. */
  lemma {:induction false} ListedIsFile(items: seq<Node>, base: string, p: string)
    requires p in Listed(items, base)
    ensures exists names :: FileAt(items, names) && p == PathOf(base, names)
    decreases items
  {
    var rest := Listed(items[1..], base);
    if p in rest {
      ListedIsFile(items[1..], base, p);
      var names :| FileAt(items[1..], names) && p == PathOf(base, names);
      FileAtShift(items, names);
    } else {
      match items[0]
      case File(name) =>
        assert p == PathJoin(base, name);
        assert PathOf(base, [name]) == PathOf(PathJoin(base, name), []);
        assert FileAt(items, [name]);
      case Dir(name, children) =>
        ListedIsFile(children, PathJoin(base, name), p);
        var sub :| FileAt(children, sub) && p == PathOf(PathJoin(base, name), sub);
        var names := [name] + sub;
        assert names[1..] == sub;
        assert FileAt(items, names);
    }
  }

  /** Every non-directory node is listed under its path from the base. */
  lemma {:induction false} FileIsListed(items: seq<Node>, base: string, names: seq<string>)
    requires FileAt(items, names)
    ensures PathOf(base, names) in Listed(items, base)
    decreases items
  {
    var i :| 0 <= i < |items| && items[i].name == names[0] &&
      if |names| == 1 then items[i].File?
      else items[i].Dir? && FileAt(items[i].children, names[1..]);
    var item := items[i];
    assert items == items[..i] + [item] + items[i + 1..];
    ListedConcat(items[..i] + [item], items[i + 1..], base);
    ListedConcat(items[..i], [item], base);
    assert [item][1..] == [];
    if |names| == 1 {
      assert PathOf(base, names) == PathJoin(base, item.name);
    } else {
      FileIsListed(item.children, PathJoin(base, item.name), names[1..]);
    }
  }

  /* ---------------------------------------------------------------------- */
  /* No directories, no duplicates                                           */
  /* ---------------------------------------------------------------------- */

  lemma {:induction false} FileAtValid(items: seq<Node>, names: seq<string>)
    requires WellFormed(items) && FileAt(items, names)
    ensures AllValid(names)
    decreases |names|
  {
    var i :| 0 <= i < |items| && items[i].name == names[0] &&
      if |names| == 1 then items[i].File?
      else items[i].Dir? && FileAt(items[i].children, names[1..]);
    if |names| > 1 {
      FileAtValid(items[i].children, names[1..]);
      assert forall k :: 1 <= k < |names| ==> names[k] == names[1..][k - 1];
    }
  }

  lemma {:induction false} DirAtValid(items: seq<Node>, names: seq<string>)
    requires WellFormed(items) && DirAt(items, names)
    ensures AllValid(names)
    decreases |names|
  {
    var i :| 0 <= i < |items| && items[i].name == names[0] && items[i].Dir? &&
      (|names| == 1 || DirAt(items[i].children, names[1..]));
    if |names| > 1 {
      DirAtValid(items[i].children, names[1..]);
      assert forall k :: 1 <= k < |names| ==> names[k] == names[1..][k - 1];
    }
  }

  /** In a well-formed tree no name path leads both to a file and to a
      directory. */
  lemma {:induction false} FileAndDirExclusive(items: seq<Node>, names: seq<string>)
    requires WellFormed(items)
    ensures !(FileAt(items, names) && DirAt(items, names))
    decreases |names|
  {
    if FileAt(items, names) && DirAt(items, names) {
      var i :| 0 <= i < |items| && items[i].name == names[0] &&
        if |names| == 1 then items[i].File?
        else items[i].Dir? && FileAt(items[i].children, names[1..]);
      var j :| 0 <= j < |items| && items[j].name == names[0] && items[j].Dir? &&
        (|names| == 1 || DirAt(items[j].children, names[1..]));
      assert i == j;
      if |names| > 1 {
        FileAndDirExclusive(items[i].children, names[1..]);
      }
      assert false;
    }
  }

  /** No directory, empty or not, ever appears as an entry of the listing. */
  lemma NoDirectoryListed(items: seq<Node>, base: string, names: seq<string>)
    requires WellFormed(items) && DirAt(items, names)
    ensures PathOf(base, names) !in Listed(items, base)
  {
    if PathOf(base, names) in Listed(items, base) {
      ListedIsFile(items, base, PathOf(base, names));
      var fnames :| FileAt(items, fnames) && PathOf(base, names) == PathOf(base, fnames);
      FileAtValid(items, fnames);
      DirAtValid(items, names);
      PathOfInjective(base, fnames, names);
      FileAndDirExclusive(items, names);
    }
  }

  predicate Distinct(s: seq<string>)
  {
    forall i, j :: 0 <= i < j < |s| ==> s[i] != s[j]
  }

  lemma DistinctConcat(a: seq<string>, b: seq<string>)
    requires Distinct(a) && Distinct(b)
    requires forall x :: x in a ==> x !in b
    ensures Distinct(a + b)
  {
    forall i, j | 0 <= i < j < |a + b|
      ensures (a + b)[i] != (a + b)[j]
    {
      if i < |a| && j >= |a| {
        assert (a + b)[i] in a && (a + b)[j] in b;
      }
    }
  }

  lemma WellFormedTail(items: seq<Node>)
    requires WellFormed(items) && items != []
    ensures WellFormed(items[1..])
  {
    forall i | 0 <= i < |items[1..]| && items[1..][i].Dir?
      ensures WellFormed(items[1..][i].children)
    {
      assert items[1..][i] == items[i + 1];
    }
  }

  /** The paths contributed by the first entry of a well-formed directory
      are not contributed again by its later entries. */
  lemma FirstContributionDisjoint(items: seq<Node>, base: string, x: string)
    requires WellFormed(items) && items != []
    requires x in Listed([items[0]], base)
    ensures x !in Listed(items[1..], base)
  {
    if x in Listed(items[1..], base) {
      var head := [items[0]];
      ListedIsFile(head, base, x);
      var p :| FileAt(head, p) && x == PathOf(base, p);
      ListedIsFile(items[1..], base, x);
      var q :| FileAt(items[1..], q) && x == PathOf(base, q);
      FileAtShift(items, q);
      FileAtValid(items, q);
      assert FileAt(items, p) by {
        assert items[0] == head[0];
      }
      FileAtValid(items, p);
      PathOfInjective(base, p, q);
    }
  }

  /** In a well-formed tree every path is listed at most once. */
  lemma {:induction false} ListedDistinct(items: seq<Node>, base: string)
    requires WellFormed(items)
    ensures Distinct(Listed(items, base))
    decreases items
  {
    if items != [] {
      var head := [items[0]];
      var first := Listed(head, base);
      var rest := Listed(items[1..], base);
      ListedConcat(head, items[1..], base);
      assert head + items[1..] == items;
      WellFormedTail(items);
      ListedDistinct(items[1..], base);
      assert Distinct(first) by {
        assert head[1..] == [];
        match items[0]
        case File(_) =>
        case Dir(name, children) =>
          ListedDistinct(children, PathJoin(base, name));
      }
      forall x | x in first
        ensures x !in rest
      {
        FirstContributionDisjoint(items, base, x);
      }
      DistinctConcat(first, rest);
    }
  }
}
