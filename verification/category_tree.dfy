/** `buildCategoryTree` of lib/utils.ts: every category string except "All" is cut at `/` and
    its parts are walked down from the root, reusing the child with the same name or appending
    a new one. */
module CategoryTree {
  import opened Wrappers
  import opened Strings

  datatype CategoryNode = CategoryNode(name: string, fullPath: string, children: seq<CategoryNode>)

  /** `currentPath ? currentPath + "/" + part : part`; the empty path is falsy. */
  function JoinPath(path: string, part: string): string {
    if path == "" then part else path + "/" + part
  }

  /** The path reached after walking `names` from `path`. */
  function FoldPath(path: string, names: seq<string>): string
    decreases |names|
  {
    if |names| == 0 then path else FoldPath(JoinPath(path, names[0]), names[1..])
  }

  /** `level.find(node => node.name === name)`, as an index. */
  function FindIndex(level: seq<CategoryNode>, name: string): (r: Option<nat>)
    ensures r.Some? ==> r.value < |level| && level[r.value].name == name
    ensures r.Some? ==> forall k :: 0 <= k < r.value ==> level[k].name != name
    ensures r.None? ==> forall k :: 0 <= k < |level| ==> level[k].name != name
  {
    if |level| == 0 then None
    else if level[0].name == name then Some(0)
    else match FindIndex(level[1..], name)
      case Some(i) => Some(i + 1)
      case None => None
  }

  /** The walk for one category: `parts` still to place under `level`, whose path is `path`. */
  function InsertPath(level: seq<CategoryNode>, parts: seq<string>, path: string): (r: seq<CategoryNode>)
    ensures |level| <= |r|
    decreases |parts|
  {
    if |parts| == 0 then level
    else
      var p := JoinPath(path, parts[0]);
      match FindIndex(level, parts[0])
      case Some(i) => level[i := level[i].(children := InsertPath(level[i].children, parts[1..], p))]
      case None => level + [CategoryNode(parts[0], p, InsertPath([], parts[1..], p))]
  }

  function InsertCategory(root: seq<CategoryNode>, cat: string): seq<CategoryNode> {
    if cat == "All" then root else InsertPath(root, Split(cat, {'/'}), "")
  }

  function BuildFrom(root: seq<CategoryNode>, cats: seq<string>): seq<CategoryNode>
    decreases |cats|
  {
    if |cats| == 0 then root else BuildFrom(InsertCategory(root, cats[0]), cats[1..])
  }

  function BuildCategoryTree(cats: seq<string>): seq<CategoryNode> {
    BuildFrom([], cats)
  }

  /** The node reached by following `names` from `level`. */
  function Lookup(level: seq<CategoryNode>, names: seq<string>): Option<CategoryNode>
    decreases |names|
  {
    if |names| == 0 then None
    else
      match FindIndex(level, names[0])
      case None => None
      case Some(i) => if |names| == 1 then Some(level[i]) else Lookup(level[i].children, names[1..])
  }

  function Names(level: seq<CategoryNode>): seq<string> {
    seq(|level|, i requires 0 <= i < |level| => level[i].name)
  }

  // ---------------------------------------------------------------------------------------
  // Names and lookups

  lemma FindIndexSameNames(a: seq<CategoryNode>, b: seq<CategoryNode>, name: string)
    requires Names(a) == Names(b)
    ensures FindIndex(a, name) == FindIndex(b, name)
  {
    assert |a| == |Names(a)|;
    assert forall k :: 0 <= k < |a| ==> a[k].name == Names(a)[k] == b[k].name;
  }

  /** The first index whose name matches is the one `find` returns. */
  lemma FindIndexAt(level: seq<CategoryNode>, name: string, i: nat)
    requires i < |level| && level[i].name == name
    requires forall k :: 0 <= k < i ==> level[k].name != name
    ensures FindIndex(level, name) == Some(i)
  {
  }

  lemma FindIndexAppend(level: seq<CategoryNode>, n: CategoryNode, name: string)
    requires FindIndex(level, name).None?
    ensures FindIndex(level + [n], name) == if n.name == name then Some(|level|) else None
  {
    var l := level + [n];
    assert forall k :: 0 <= k < |level| ==> l[k] == level[k];
    if n.name == name {
      FindIndexAt(l, name, |level|);
    }
  }

  lemma FindIndexPrefix(level: seq<CategoryNode>, n: CategoryNode, name: string)
    requires FindIndex(level, name).Some?
    ensures FindIndex(level + [n], name) == FindIndex(level, name)
  {
    var l := level + [n];
    assert forall k :: 0 <= k < |level| ==> l[k] == level[k];
  }

  /** The walk keeps every existing sibling in place and only appends: the names of a level
      before the walk are a prefix of its names after it. */
  lemma InsertPathNames(level: seq<CategoryNode>, parts: seq<string>, path: string)
    ensures Names(level) == Names(InsertPath(level, parts, path))[..|level|]
    ensures |parts| > 0 && FindIndex(level, parts[0]).None? ==>
      Names(InsertPath(level, parts, path)) == Names(level) + [parts[0]]
    ensures |parts| > 0 && FindIndex(level, parts[0]).Some? ==>
      Names(InsertPath(level, parts, path)) == Names(level)
  {
  }

  /** After the walk, every prefix of the parts leads to a node. */
  lemma {:induction false} InsertPathFinds(level: seq<CategoryNode>, parts: seq<string>, path: string, k: nat)
    requires 1 <= k <= |parts|
    ensures Lookup(InsertPath(level, parts, path), parts[..k]).Some?
    decreases |parts|
  {
    var r := InsertPath(level, parts, path);
    var p := JoinPath(path, parts[0]);
    var q := parts[..k];
    assert q[0] == parts[0];
    InsertPathNames(level, parts, path);
    match FindIndex(level, parts[0])
    case Some(i) =>
      FindIndexSameNames(level, r, parts[0]);
      if k > 1 {
        InsertPathFinds(level[i].children, parts[1..], p, k - 1);
        assert q[1..] == parts[1..][..k - 1];
      }
    case None =>
      var n := r[|level|];
      assert r == level + [n];
      FindIndexAppend(level, n, parts[0]);
      if k > 1 {
        InsertPathFinds([], parts[1..], p, k - 1);
        assert q[1..] == parts[1..][..k - 1];
      }
  }

  /** The walk loses no node: whatever was reachable stays reachable. */
  lemma {:induction false} InsertPathKeeps(level: seq<CategoryNode>, parts: seq<string>, path: string, q: seq<string>)
    requires Lookup(level, q).Some?
    ensures Lookup(InsertPath(level, parts, path), q).Some?
    decreases |parts|
  {
    if |parts| > 0 {
      var r := InsertPath(level, parts, path);
      var p := JoinPath(path, parts[0]);
      InsertPathNames(level, parts, path);
      var j := FindIndex(level, q[0]).value;
      match FindIndex(level, parts[0])
      case Some(i) =>
        FindIndexSameNames(level, r, q[0]);
        if |q| > 1 && i == j {
          InsertPathKeeps(level[i].children, parts[1..], p, q[1..]);
        }
      case None =>
        assert r == level + [r[|level|]];
        FindIndexPrefix(level, r[|level|], q[0]);
    }
  }

  /** `q` is a non-empty leading part of `parts`. */
  predicate IsPathPrefix(q: seq<string>, parts: seq<string>) {
    1 <= |q| <= |parts| && q == parts[..|q|]
  }

  /** The walk adds nothing but the nodes on its own path. */
  lemma {:induction false} InsertPathOnly(level: seq<CategoryNode>, parts: seq<string>, path: string, q: seq<string>)
    requires Lookup(InsertPath(level, parts, path), q).Some?
    ensures Lookup(level, q).Some? || IsPathPrefix(q, parts)
    decreases |parts|
  {
    if |parts| > 0 {
      var r := InsertPath(level, parts, path);
      var p := JoinPath(path, parts[0]);
      InsertPathNames(level, parts, path);
      match FindIndex(level, parts[0])
      case Some(i) =>
        FindIndexSameNames(level, r, q[0]);
        var j := FindIndex(level, q[0]).value;
        if |q| > 1 && i == j {
          InsertPathOnly(level[i].children, parts[1..], p, q[1..]);
          if IsPathPrefix(q[1..], parts[1..]) {
            assert q == [q[0]] + q[1..] && parts[..|q|] == [parts[0]] + parts[1..][..|q| - 1];
          }
        }
      case None =>
        var n := r[|level|];
        assert r == level + [n];
        if FindIndex(level, q[0]).None? {
          FindIndexAppend(level, n, q[0]);
          assert q[0] == parts[0];
          if |q| > 1 {
            InsertPathOnly([], parts[1..], p, q[1..]);
            assert q == [q[0]] + q[1..] && parts[..|q|] == [parts[0]] + parts[1..][..|q| - 1];
          }
        } else {
          FindIndexPrefix(level, n, q[0]);
        }
    }
  }

  /** Some category other than "All" has `q` as a leading part of its `/`-separated parts. */
  predicate Reaches(cats: seq<string>, q: seq<string>) {
    exists m :: 0 <= m < |cats| && cats[m] != "All" && IsPathPrefix(q, Split(cats[m], {'/'}))
  }

  /** The tree holds exactly the leading parts of the categories, "All" excepted. */
  lemma {:induction false} BuildFromLookup(root: seq<CategoryNode>, cats: seq<string>, q: seq<string>)
    ensures Lookup(BuildFrom(root, cats), q).Some? <==> Lookup(root, q).Some? || Reaches(cats, q)
    decreases |cats|
  {
    if |cats| > 0 {
      var c := cats[0];
      var root' := InsertCategory(root, c);
      BuildFromLookup(root', cats[1..], q);
      if c != "All" {
        var parts := Split(c, {'/'});
        if Lookup(root, q).Some? {
          InsertPathKeeps(root, parts, "", q);
        }
        if Lookup(root', q).Some? {
          InsertPathOnly(root, parts, "", q);
        }
        if IsPathPrefix(q, parts) {
          InsertPathFinds(root, parts, "", |q|);
        }
      }
      if Reaches(cats[1..], q) {
        var m :| 0 <= m < |cats[1..]| && cats[1..][m] != "All" && IsPathPrefix(q, Split(cats[1..][m], {'/'}));
        assert cats[m + 1] == cats[1..][m];
      }
    }
  }

  lemma BuildCategoryTreeLookup(cats: seq<string>, q: seq<string>)
    ensures Lookup(BuildCategoryTree(cats), q).Some? <==> Reaches(cats, q)
  {
    BuildFromLookup([], cats, q);
  }

  // ---------------------------------------------------------------------------------------
  // Shape of the tree

  predicate UniqueNames(level: seq<CategoryNode>) {
    forall i, j :: 0 <= i < j < |level| ==> level[i].name != level[j].name
  }

  /** Siblings have distinct names and every node's path is its parent's path joined with its
      name. */
  predicate WellFormed(level: seq<CategoryNode>, path: string)
    decreases level, 1
  {
    UniqueNames(level) && forall i :: 0 <= i < |level| ==> NodeWellFormed(level[i], path)
  }

  predicate NodeWellFormed(n: CategoryNode, path: string)
    decreases n, 0
  {
    n.fullPath == JoinPath(path, n.name) && WellFormed(n.children, n.fullPath)
  }

  lemma UniqueNamesByNames(a: seq<CategoryNode>, b: seq<CategoryNode>)
    requires UniqueNames(a) && Names(a) == Names(b)
    ensures UniqueNames(b)
  {
    assert forall k :: 0 <= k < |a| ==> a[k].name == Names(a)[k] == b[k].name;
  }

  lemma UniqueNamesAppend(level: seq<CategoryNode>, n: CategoryNode)
    requires UniqueNames(level) && FindIndex(level, n.name).None?
    ensures UniqueNames(level + [n])
  {
  }

  lemma {:induction false} InsertPathWellFormed(level: seq<CategoryNode>, parts: seq<string>, path: string)
    requires WellFormed(level, path)
    ensures WellFormed(InsertPath(level, parts, path), path)
    decreases |parts|
  {
    if |parts| > 0 {
      var r := InsertPath(level, parts, path);
      var p := JoinPath(path, parts[0]);
      match FindIndex(level, parts[0])
      case Some(i) =>
        InsertPathNames(level, parts, path);
        UniqueNamesByNames(level, r);
        assert NodeWellFormed(level[i], path);
        InsertPathWellFormed(level[i].children, parts[1..], p);
        assert NodeWellFormed(r[i], path);
      case None =>
        InsertPathWellFormed([], parts[1..], p);
        UniqueNamesAppend(level, r[|level|]);
        assert r == level + [r[|level|]];
    }
  }

  lemma {:induction false} BuildFromWellFormed(root: seq<CategoryNode>, cats: seq<string>)
    requires WellFormed(root, "")
    ensures WellFormed(BuildFrom(root, cats), "")
    decreases |cats|
  {
    if |cats| > 0 {
      if cats[0] != "All" {
        InsertPathWellFormed(root, Split(cats[0], {'/'}), "");
      }
      BuildFromWellFormed(InsertCategory(root, cats[0]), cats[1..]);
    }
  }

  /** The built tree never has two siblings of the same name, and each node's `fullPath` is
      the path walked to reach it. */
  lemma BuildCategoryTreeWellFormed(cats: seq<string>)
    ensures WellFormed(BuildCategoryTree(cats), "")
  {
    BuildFromWellFormed([], cats);
  }

  lemma {:induction false} LookupPath(level: seq<CategoryNode>, path: string, q: seq<string>)
    requires WellFormed(level, path) && Lookup(level, q).Some?
    ensures Lookup(level, q).value.fullPath == FoldPath(path, q)
    decreases |q|
  {
    var i := FindIndex(level, q[0]).value;
    if |q| > 1 {
      LookupPath(level[i].children, level[i].fullPath, q[1..]);
    }
  }

  /** Walking parts from a non-empty path joins them all with `/`. */
  lemma {:induction false} FoldPathJoin(path: string, names: seq<string>)
    requires path != "" && |names| >= 1
    ensures FoldPath(path, names) == path + "/" + Join(names, "/")
    decreases |names|
  {
    if |names| > 1 {
      FoldPathJoin(path + "/" + names[0], names[1..]);
    }
  }

  /** The first part of a split starts with the string's first unit when that is not the
      separator. */
  lemma SplitFirstNonEmpty(s: string, c: char)
    requires |s| > 0 && s[0] != c
    ensures Split(s, {c})[0] != ""
  {
  }

  /** The node of a category not starting with `/` carries the category itself as its path. */
  lemma CategoryFullPath(cats: seq<string>, m: nat)
    requires m < |cats| && cats[m] != "All"
    requires |cats[m]| > 0 ==> cats[m][0] != '/'
    ensures var n := Lookup(BuildCategoryTree(cats), Split(cats[m], {'/'}));
      n.Some? && n.value.fullPath == cats[m]
  {
    var c := cats[m];
    var parts := Split(c, {'/'});
    assert IsPathPrefix(parts, parts);
    BuildCategoryTreeLookup(cats, parts);
    BuildCategoryTreeWellFormed(cats);
    LookupPath(BuildCategoryTree(cats), "", parts);
    SplitJoin(c, '/');
    if |parts| > 1 {
      SplitFirstNonEmpty(c, '/');
      FoldPathJoin(parts[0], parts[1..]);
    }
  }

  /** A category with a leading `/` gets a node named "" whose child has a path without the
      slash: the empty path counts as false. */
  lemma LeadingSlashExample()
    ensures Lookup(BuildCategoryTree(["/a"]), ["", "a"]) == Some(CategoryNode("a", "a", []))
  {
    assert Split("/a", {'/'}) == ["", "a"] by {
      SplitAfterPiece("", "a", '/');
      SplitNoSep("a", '/');
      assert "" + ['/'] + "a" == "/a";
    }
  }
}
