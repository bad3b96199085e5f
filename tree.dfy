/**
 * The file-tree sidebar's first level (`buildTreeStructure`): the entries of
 * a directory listing are sorted into directories, keyed by name (the first
 * entry of a name wins), and files, kept in listing order.
 *
 * The directories are collected in an object literal, and the test for "not
 * seen yet" is `!tree.children[item.name]`. An object literal inherits the
 * members of `Object.prototype`, so for a directory named, say,
 * `constructor` or `toString` that test already fails on the empty object and
 * the directory is left out of the tree. `BuildTreeStructure` models the code
 * as written; `DirectoryTree` is the evidently intended result, which keeps
 * every directory.
 */
module Tree {
  import JsObject

  /** `path_type` of a listing entry. */
  datatype PathType = Dir | SymlinkDir | File | SymlinkFile

  /** An entry of the listing (`DATA.paths`). */
  datatype PathItem = PathItem(pathType: PathType, name: string, mtime: int, size: nat)

  /** The first level of the tree: the directory entries by name, and the
      other entries in order. A directory node's own `children` and `files`
      start empty and are filled later, so a node is its `info` entry here. */
  datatype Tree = Tree(children: map<string, PathItem>, files: seq<PathItem>)

  predicate IsDir(item: PathItem) {
    item.pathType == Dir || item.pathType == SymlinkDir
  }

  /** The tree after the first `|paths|` entries, when a directory whose name
      is in `skipped` counts as already present. */
  function Build(paths: seq<PathItem>, skipped: set<string>): Tree
    decreases |paths|
  {
    if paths == [] then Tree(map[], [])
    else
      var t := Build(paths[..|paths| - 1], skipped);
      var item := paths[|paths| - 1];
      if IsDir(item) then
        if item.name in t.children || item.name in skipped then t
        else Tree(t.children[item.name := item], t.files)
      else Tree(t.children, t.files + [item])
  }

  /** `buildTreeStructure(paths)` as written: a name counts as present when the
      object lookup finds an own or an inherited member. */
  method BuildTreeStructure(paths: seq<PathItem>) returns (tree: Tree)
    ensures tree == Build(paths, JsObject.InheritedKeys)
  {
    var children: map<string, PathItem> := map[];
    var files: seq<PathItem> := [];
    var i := 0;
    while i < |paths|
      invariant 0 <= i <= |paths|
      invariant Tree(children, files) == Build(paths[..i], JsObject.InheritedKeys)
    {
      var item := paths[i];
      assert paths[..i + 1][..i] == paths[..i];
      if item.pathType == Dir || item.pathType == SymlinkDir {
        if JsObject.Get(children, item.name).Undefined? {
          children := children[item.name := item];
        }
      } else {
        files := files + [item];
      }
      i := i + 1;
    }
    assert paths[..i] == paths;
    tree := Tree(children, files);
  }

  /** The tree the listing evidently means: every directory, under its name. */
  function DirectoryTree(paths: seq<PathItem>): Tree {
    Build(paths, {})
  }

  // ---------------------------------------------------------------------------
  // What the tree holds
  // ---------------------------------------------------------------------------

  /** The entries that are not directories, in listing order. */
  function NonDirs(paths: seq<PathItem>): (files: seq<PathItem>)
    ensures forall k :: 0 <= k < |files| ==> files[k] in paths && !IsDir(files[k])
    ensures forall k :: 0 <= k < |paths| && !IsDir(paths[k]) ==> paths[k] in files
    decreases |paths|
  {
    if paths == [] then []
    else
      var init := paths[..|paths| - 1];
      var rest := NonDirs(init);
      assert forall k :: 0 <= k < |init| ==> init[k] == paths[k];
      assert forall x :: x in init ==> x in paths;
      if IsDir(paths[|paths| - 1]) then rest else rest + [paths[|paths| - 1]]
  }

  /** `paths[i]` is the first directory entry named `name`. */
  predicate FirstDirNamed(paths: seq<PathItem>, name: string, i: nat) {
    i < |paths| && IsDir(paths[i]) && paths[i].name == name &&
    forall j :: 0 <= j < i ==> !(IsDir(paths[j]) && paths[j].name == name)
  }

  /** The files of the tree are the non-directory entries in order, whatever
      names are skipped. */
  lemma {:induction false} BuildFiles(paths: seq<PathItem>, skipped: set<string>)
    ensures Build(paths, skipped).files == NonDirs(paths)
    decreases |paths|
  {
    if paths != [] {
      BuildFiles(paths[..|paths| - 1], skipped);
    }
  }

  /** A name is a key of the tree exactly when it is not skipped and some
      directory entry has it; its node is the first such entry. */
  lemma {:induction false} BuildChildren(paths: seq<PathItem>, skipped: set<string>, name: string)
    ensures name in Build(paths, skipped).children <==>
      name !in skipped && exists i :: 0 <= i < |paths| && IsDir(paths[i]) && paths[i].name == name
    ensures name in Build(paths, skipped).children ==>
      exists i: nat :: FirstDirNamed(paths, name, i) && Build(paths, skipped).children[name] == paths[i]
    decreases |paths|
  {
    if paths != [] {
      var init := paths[..|paths| - 1];
      var item := paths[|paths| - 1];
      BuildChildren(init, skipped, name);
      var t := Build(init, skipped);
      assert forall k :: 0 <= k < |init| ==> init[k] == paths[k];
      if name in t.children {
        var i: nat :| FirstDirNamed(init, name, i) && t.children[name] == init[i];
        assert FirstDirNamed(paths, name, i);
      } else if IsDir(item) && item.name == name && name !in skipped {
        assert FirstDirNamed(paths, name, |paths| - 1);
      }
    }
  }

  /** The code as written loses exactly the directories whose names are
      inherited members of an object: its tree is the intended one with those
      keys removed. */
  lemma AsWrittenDropsInherited(paths: seq<PathItem>)
    ensures Build(paths, JsObject.InheritedKeys).files == DirectoryTree(paths).files
    ensures Build(paths, JsObject.InheritedKeys).children ==
      map name | name in DirectoryTree(paths).children && name !in JsObject.InheritedKeys ::
        DirectoryTree(paths).children[name]
  {
    BuildFiles(paths, JsObject.InheritedKeys);
    BuildFiles(paths, {});
    var written := Build(paths, JsObject.InheritedKeys).children;
    var intended := DirectoryTree(paths).children;
    forall name ensures name in written <==> name in intended && name !in JsObject.InheritedKeys {
      BuildChildren(paths, JsObject.InheritedKeys, name);
      BuildChildren(paths, {}, name);
    }
    forall name | name in written ensures written[name] == intended[name] {
      SameNode(paths, JsObject.InheritedKeys, name);
    }
  }

  /** Skipping names changes which directories are kept, never the node of a
      kept one. */
  lemma SameNode(paths: seq<PathItem>, skipped: set<string>, name: string)
    requires name in Build(paths, skipped).children
    ensures name in DirectoryTree(paths).children
    ensures Build(paths, skipped).children[name] == DirectoryTree(paths).children[name]
  {
    BuildChildren(paths, skipped, name);
    BuildChildren(paths, {}, name);
    var i: nat :| FirstDirNamed(paths, name, i) && Build(paths, skipped).children[name] == paths[i];
    var j: nat :| FirstDirNamed(paths, name, j) && DirectoryTree(paths).children[name] == paths[j];
    assert i == j;
  }

  /** A listing holding only a directory named `constructor`: the code as
      written shows an empty tree, the intended tree has that directory. */
  lemma ConstructorDirectoryDropped()
    ensures var paths := [PathItem(Dir, "constructor", 0, 0)];
      Build(paths, JsObject.InheritedKeys).children == map[] &&
      DirectoryTree(paths).children == map["constructor" := paths[0]]
  {
    var paths := [PathItem(Dir, "constructor", 0, 0)];
    assert paths[..0] == [];
  }
}
