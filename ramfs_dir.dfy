/**
 * The ramfs directory tree (axfs_ramfs/src/dir.rs). Nodes live in a heap
 * keyed by `NodeId`. A directory holds a name-ordered child table, whose
 * entries are the owning references of the tree, and a parent link, which is
 * a plain id (the source's `Weak` back-reference). Node identity is the id,
 * as the source compares directories by address.
 */
module RamfsDir {
  import opened Common
  import opened ChildTable
  import opened RamfsPath

  /** The node kinds of the filesystem interface; this tree creates only `File` and `Dir`. */
  datatype NodeType = Fifo | CharDevice | BlockDevice | Dir | File | SymLink | Socket

  datatype FsError = NotFound | AlreadyExists | DirectoryNotEmpty | Unsupported | InvalidInput

  /**
   * The outcome of an operation. `AtFile(file, rest)`: the walk reached the
   * file node `file` with `rest` of the path left and handed the request to
   * it; what a file node answers is its own behaviour, not part of this tree.
   */
  datatype Res<T> = Ok(value: T) | Err(error: FsError) | AtFile(file: NodeId, rest: string)

  /** A directory (child table and parent link) or an opaque file. */
  datatype Node = DirNode(entries: seq<Entry>, parent: Option<NodeId>) | FileNode

  /** One slot of a directory listing. */
  datatype DirEntry = DirEntry(name: string, ty: NodeType)

  datatype Attr = Attr(ty: NodeType, size: nat, blocks: nat)

  type Heap = map<NodeId, Node>

  predicate IsDir(h: Heap, id: NodeId)
  {
    id in h && h[id].DirNode?
  }

  /**
   * Every child table is sorted (so its names are unique) and refers only to
   * nodes of the heap; every parent link names a directory of the heap.
   */
  ghost predicate Closed(h: Heap)
  {
    forall id :: id in h && h[id].DirNode? ==>
      && Sorted(h[id].entries)
      && (forall i :: 0 <= i < |h[id].entries| ==> h[id].entries[i].node in h)
      && (h[id].parent.Some? ==> IsDir(h, h[id].parent.value))
  }

  /** The names `.`, `..` and the empty name, which always denote an existing directory. */
  predicate IsDotName(name: string)
  {
    name == "" || name == "." || name == ".."
  }

  lemma ChildInHeap(h: Heap, d: NodeId, name: string)
    requires Closed(h) && IsDir(h, d) && name in ToMap(h[d].entries)
    ensures ToMap(h[d].entries)[name] in h
  {
    var es := h[d].entries;
    ToMapEntries(es);
    var i :| 0 <= i < |es| && es[i] == Entry(name, ToMap(es)[name]);
  }

  /** `DirNode::exist`: whether the table has an entry named `name`. */
  function Exist(h: Heap, d: NodeId, name: string): (b: bool)
    requires IsDir(h, d)
    ensures b <==> exists i :: 0 <= i < |h[d].entries| && h[d].entries[i].name == name
  {
    ToMapEntries(h[d].entries);
    name in ToMap(h[d].entries)
  }

  /** `DirNode::get_entries`: the names of the table, in table order. */
  function GetEntries(h: Heap, d: NodeId): (ns: seq<string>)
    requires Closed(h) && IsDir(h, d)
    ensures forall i, j :: 0 <= i < j < |ns| ==> NameLess(ns[i], ns[j])
    ensures forall n :: n in ns <==> n in ToMap(h[d].entries)
  {
    ToMapEntries(h[d].entries);
    Names(h[d].entries)
  }

  /** `VfsNodeOps::parent` of a directory: its parent link. */
  function Parent(h: Heap, d: NodeId): (p: Option<NodeId>)
    requires Closed(h) && IsDir(h, d)
    ensures p.Some? ==> IsDir(h, p.value)
  {
    h[d].parent
  }

  /** `VfsNodeOps::get_attr` of a directory: a directory of fixed size 4096 using no blocks. */
  function GetAttr(h: Heap, d: NodeId): (a: Attr)
    requires IsDir(h, d)
    ensures a.ty == Dir && a.size == 4096 && a.blocks == 0
  {
    Attr(Dir, 4096, 0)
  }

  function TypeOf(n: Node): NodeType
  {
    if n.DirNode? then Dir else File
  }

  /**
   * Resolving one path component in directory `d`: "" and "." are `d`
   * itself, ".." its parent, anything else its child of that name; `None`
   * stands for NotFound.
   */
  function Step(h: Heap, d: NodeId, name: string): (r: Option<NodeId>)
    requires Closed(h) && IsDir(h, d)
    ensures r.Some? ==> r.value in h
    ensures (name == "" || name == ".") ==> r == Some(d)
    ensures name == ".." ==> r == h[d].parent
    ensures !IsDotName(name) ==>
      (r.Some? <==> name in ToMap(h[d].entries)) &&
      (r.Some? ==> r.value == ToMap(h[d].entries)[name])
  {
    if name == "" || name == "." then Some(d)
    else if name == ".." then h[d].parent
    else if name in ToMap(h[d].entries) then
      ChildInHeap(h, d, name);
      Some(ToMap(h[d].entries)[name])
    else None
  }

  /**
   * `lookup`: resolves the first component, then hands the rest of the path
   * to the node found, which for a directory is this same walk.
   */
  function Lookup(h: Heap, d: NodeId, path: string): (r: Res<NodeId>)
    requires Closed(h) && IsDir(h, d)
    ensures r.Ok? ==> r.value in h
    ensures r.Err? ==> r.error == NotFound
    ensures r.AtFile? ==> r.file in h && h[r.file].FileNode?
    decreases |path|
  {
    var (name, rest) := SplitPath(path);
    match Step(h, d, name)
    case None => Err(NotFound)
    case Some(n) =>
      if rest.None? then Ok(n)
      else if h[n].FileNode? then AtFile(n, rest.value)
      else Lookup(h, n, rest.value)
  }

  /**
   * The walk that `create` and `remove` do: every component but the last is
   * resolved as `lookup` resolves it; the result is the directory reached
   * and the last component.
   */
  function Walk(h: Heap, d: NodeId, path: string): (r: Res<(NodeId, string)>)
    requires Closed(h) && IsDir(h, d)
    ensures r.Ok? ==> IsDir(h, r.value.0) && '/' !in r.value.1
    ensures r.Err? ==> r.error == NotFound
    ensures r.AtFile? ==> r.file in h && h[r.file].FileNode?
    decreases |path|
  {
    var (name, rest) := SplitPath(path);
    if rest.None? then Ok((d, name))
    else match Step(h, d, name)
      case None => Err(NotFound)
      case Some(n) =>
        if h[n].FileNode? then AtFile(n, rest.value)
        else Walk(h, n, rest.value)
  }

  /** Resolving the last component in the directory a walk reached; a failed walk fails the same way. */
  function LastStep(h: Heap, w: Res<(NodeId, string)>): Res<NodeId>
    requires Closed(h) && (w.Ok? ==> IsDir(h, w.value.0))
  {
    match w
    case Ok((dir, name)) =>
      (match Step(h, dir, name)
       case None => Err(NotFound)
       case Some(n) => Ok(n))
    case Err(e) => Err(e)
    case AtFile(f, rest) => AtFile(f, rest)
  }

  /** Looking a path up is walking to its last component and resolving that in the directory reached. */
  lemma {:induction false} LookupIsWalkThenStep(h: Heap, d: NodeId, path: string)
    requires Closed(h) && IsDir(h, d)
    ensures Lookup(h, d, path) == LastStep(h, Walk(h, d, path))
    decreases |path|
  {
    var (name, rest) := SplitPath(path);
    if rest.Some? && Step(h, d, name).Some? && IsDir(h, Step(h, d, name).value) {
      DescendOneStep(h, d, path);
      LookupIsWalkThenStep(h, Step(h, d, name).value, rest.value);
    } else {
      StopWithinOneStep(h, d, path);
    }
  }

  /** At the last component, or when the next one is missing or a file, `lookup` and the walk stop together. */
  lemma StopWithinOneStep(h: Heap, d: NodeId, path: string)
    requires Closed(h) && IsDir(h, d)
    requires var (name, rest) := SplitPath(path);
      !(rest.Some? && Step(h, d, name).Some? && IsDir(h, Step(h, d, name).value))
    ensures Lookup(h, d, path) == LastStep(h, Walk(h, d, path))
  {
  }

  /** With more path to come and a directory found, `lookup` and the walk both go on from that directory. */
  lemma DescendOneStep(h: Heap, d: NodeId, path: string)
    requires Closed(h) && IsDir(h, d)
    requires var (name, rest) := SplitPath(path);
      rest.Some? && Step(h, d, name).Some? && IsDir(h, Step(h, d, name).value)
    ensures var (name, rest) := SplitPath(path); var n := Step(h, d, name).value;
      Walk(h, d, path) == Walk(h, n, rest.value) && Lookup(h, d, path) == Lookup(h, n, rest.value)
  {
  }

  /**
   * The virtual listing of directory `d` that `read_dir` pages through: `.`
   * and `..`, both directories, then one entry per child in table order.
   */
  function Listing(h: Heap, d: NodeId): (l: seq<DirEntry>)
    requires Closed(h) && IsDir(h, d)
  {
    var es := h[d].entries;
    [DirEntry(".", Dir), DirEntry("..", Dir)]
      + seq(|es|, i requires 0 <= i < |es| => DirEntry(es[i].name, TypeOf(h[es[i].node])))
  }

  /**
   * The listing starts with `.` and `..`, and after them lists the children
   * in strictly ascending name order.
   */
  lemma ListingOrder(h: Heap, d: NodeId)
    requires Closed(h) && IsDir(h, d)
    ensures var l := Listing(h, d);
      && |l| == |h[d].entries| + 2
      && l[0] == DirEntry(".", Dir) && l[1] == DirEntry("..", Dir)
      && (forall i, j :: 2 <= i < j < |l| ==> NameLess(l[i].name, l[j].name))
  {
  }

  /** After `.` and `..` the listing names every child. */
  lemma ListingCoversChildren(h: Heap, d: NodeId)
    requires Closed(h) && IsDir(h, d)
    ensures var l, m := Listing(h, d), ToMap(h[d].entries);
      forall n :: n in m <==> exists i :: 2 <= i < |l| && l[i].name == n
  {
    var es, l := h[d].entries, Listing(h, d);
    ToMapEntries(es);
    forall n | n in ToMap(es)
      ensures exists i :: 2 <= i < |l| && l[i].name == n
    {
      var k :| 0 <= k < |es| && es[k] == Entry(n, ToMap(es)[n]);
      assert l[k + 2].name == n;
    }
  }

  /**
   * Each listed child carries the type of the node its name maps to; as the
   * listing is sorted, no child is listed twice.
   */
  lemma ListingTypes(h: Heap, d: NodeId)
    requires Closed(h) && IsDir(h, d)
    ensures var l, m := Listing(h, d), ToMap(h[d].entries);
      forall i :: 2 <= i < |l| ==> l[i].name in m && m[l[i].name] in h && l[i].ty == TypeOf(h[m[l[i].name]])
  {
    var es, l := h[d].entries, Listing(h, d);
    ToMapEntries(es);
    forall i | 2 <= i < |l|
      ensures l[i].name in ToMap(es) && ToMap(es)[l[i].name] in h
      ensures l[i].ty == TypeOf(h[ToMap(es)[l[i].name]])
    {
      var n := es[i - 2].name;
      var k :| 0 <= k < |es| && es[k] == Entry(n, ToMap(es)[n]);
      if k != i - 2 {
        NameLessIrreflexive(n);
      }
    }
  }

  /** Writing a heap slot and then writing its old value back restores the heap. */
  lemma OverwriteBack(h: Heap, id: NodeId, n: Node)
    requires id in h
    ensures h[id := n][id := h[id]] == h
  {
  }

  /** Replacing the table of directory `d` by a sorted table over heap nodes keeps the heap closed. */
  lemma ClosedAfterTableChange(h: Heap, d: NodeId, es: seq<Entry>)
    requires Closed(h) && IsDir(h, d) && Sorted(es)
    requires forall e :: e in es ==> e.node in h
    ensures Closed(h[d := DirNode(es, h[d].parent)])
  {
    forall i | 0 <= i < |es| ensures es[i].node in h {
      assert es[i] in es;
    }
  }

  /** Every entry of a directory's table names a node of the heap. */
  lemma TableInHeap(h: Heap, d: NodeId)
    requires Closed(h) && IsDir(h, d)
    ensures forall e :: e in h[d].entries ==> e.node in h
  {
  }

  /** Adding a fresh file, or a fresh empty directory whose parent is a directory, keeps the heap closed. */
  lemma ClosedAfterAlloc(h: Heap, id: NodeId, node: Node)
    requires Closed(h) && id !in h
    requires node == FileNode || (node.DirNode? && node.entries == [] && node.parent.Some? && IsDir(h, node.parent.value))
    ensures Closed(h[id := node])
  {
  }

  /** What `create_node` does (dir.rs:45-57), as a relation between heaps before and after. */
  ghost predicate CreatedNode(h0: Heap, n0: NodeId, d: NodeId, name: string, ty: NodeType,
                              r: Res<()>, h1: Heap, n1: NodeId)
    requires Closed(h0) && IsDir(h0, d)
  {
    var es := h0[d].entries;
    if name in ToMap(es) then r == Err(AlreadyExists) && h1 == h0 && n1 == n0
    else if ty != File && ty != Dir then r == Err(Unsupported) && h1 == h0 && n1 == n0
    else
      && r == Ok(()) && n1 == n0 + 1
      && h1 == h0[n0 := if ty == Dir then DirNode([], Some(d)) else FileNode]
                 [d := DirNode(Insert(es, name, n0), h0[d].parent)]
  }

  /** What `remove_node` does (dir.rs:60-70). */
  ghost predicate RemovedNode(h0: Heap, d: NodeId, name: string, r: Res<()>, h1: Heap)
    requires Closed(h0) && IsDir(h0, d)
  {
    var es := h0[d].entries;
    if name !in ToMap(es) then r == Err(NotFound) && h1 == h0
    else
      ChildInHeap(h0, d, name);
      var child := h0[ToMap(es)[name]];
      if child.DirNode? && child.entries != [] then r == Err(DirectoryNotEmpty) && h1 == h0
      else r == Ok(()) && h1 == h0[d := DirNode(Remove(es, name), h0[d].parent)]
  }

  /** What `rename_node` does (dir.rs:72-83). */
  ghost predicate RenamedNode(h0: Heap, d: NodeId, oldName: string, newName: string, r: Res<()>, h1: Heap)
    requires Closed(h0) && IsDir(h0, d)
  {
    var es := h0[d].entries;
    if oldName !in ToMap(es) then r == Err(NotFound) && h1 == h0
    else if newName in ToMap(es) then r == Err(AlreadyExists) && h1 == h0
    else
      && r == Ok(())
      && h1 == h0[d := DirNode(Insert(Remove(es, oldName), newName, ToMap(es)[oldName]), h0[d].parent)]
  }

  /**
   * The cross-directory branch of `rename` (dir.rs:209-219): the entry leaves
   * the table of `s` and joins that of `t` under `newName`; a taken
   * `newName` leaves both tables as they were. The moved node itself,
   * including its parent link, is untouched.
   */
  ghost predicate Moved(h0: Heap, s: NodeId, oldName: string, t: NodeId, newName: string, r: Res<()>, h1: Heap)
    requires Closed(h0) && IsDir(h0, s) && IsDir(h0, t) && s != t
  {
    var se, te := h0[s].entries, h0[t].entries;
    if oldName !in ToMap(se) then r == Err(NotFound) && h1 == h0
    else if newName in ToMap(te) then r == Err(AlreadyExists) && h1 == h0
    else
      && r == Ok(())
      && h1 == h0[s := DirNode(Remove(se, oldName), h0[s].parent)]
                 [t := DirNode(Insert(te, newName, ToMap(se)[oldName]), h0[t].parent)]
  }

  /** The parent path and last name of each side of `rename`, after the path clean-up of dir.rs:186-191. */
  function RenameSplit(oldPath: string, newPath: string): (r: ((string, string), (string, string)))
  {
    (SplitParentName(TrimSlashes(oldPath)), SplitParentName(StripTmpPrefix(TrimSlashes(newPath))))
  }

  /** `rename("a", "a/a")` takes `a` out of the current directory and puts it into `a` under the name `a`. */
  lemma SplitIntoOwnSubdir()
    ensures RenameSplit("a", "a/a") == ((".", "a"), ("a", "a"))
  {
    var t: string := "a/a";
    assert TrimSlashes("a") == "a" && TrimSlashes(t) == t;
    assert !("tmp/" <= t) by { assert |t| < |"tmp/"|; }
    var k := RFindSlash(t);
    assert k == Some(1);
    assert t[..1] == "a" && t[2..] == "a";
    assert SplitParentName(t) == ("a", "a");
  }

  /** What `rename` on directory `d` does (dir.rs:182-220). */
  ghost predicate Renamed(h0: Heap, d: NodeId, oldPath: string, newPath: string, r: Res<()>, h1: Heap)
    requires Closed(h0) && IsDir(h0, d)
  {
    var ((op, on), (np, nn)) := RenameSplit(oldPath, newPath);
    var src := Lookup(h0, d, op);
    if src.Err? then r == Err(src.error) && h1 == h0
    else if src.AtFile? then r == AtFile(src.file, src.rest) && h1 == h0
    else if h0[src.value].FileNode? then r == Err(InvalidInput) && h1 == h0
    else
      var dst := Lookup(h0, d, np);
      if dst.Err? then r == Err(dst.error) && h1 == h0
      else if dst.AtFile? then r == AtFile(dst.file, dst.rest) && h1 == h0
      else if h0[dst.value].FileNode? then r == Err(InvalidInput) && h1 == h0
      else if src.value == dst.value then RenamedNode(h0, src.value, on, nn, r, h1)
      else Moved(h0, src.value, on, dst.value, nn, r, h1)
  }

  /** A path of one component is looked up by resolving that component. */
  lemma LookupOneComponent(h: Heap, d: NodeId, name: string)
    requires Closed(h) && IsDir(h, d) && '/' !in name
    ensures Lookup(h, d, name) == match Step(h, d, name)
                                  case None => Err(NotFound)
                                  case Some(n) => Ok(n)
  {
    assert TrimSlashes(name) == name;
    assert SplitPath(name) == (name, None);
  }

  /** The path "." names the directory the walk starts from. */
  lemma LookupDot(h: Heap, d: NodeId)
    requires Closed(h) && IsDir(h, d)
    ensures Lookup(h, d, ".") == Ok(d)
  {
    LookupOneComponent(h, d, ".");
  }

  /** After creating file `name` in `d`, looking `name` up in `d` finds the new file. */
  lemma CreateThenLookup(h0: Heap, n0: NodeId, d: NodeId, name: string, h1: Heap, n1: NodeId)
    requires Closed(h0) && IsDir(h0, d) && n0 !in h0 && Closed(h1) && IsDir(h1, d)
    requires !IsDotName(name) && '/' !in name
    requires CreatedNode(h0, n0, d, name, File, Ok(()), h1, n1)
    ensures Lookup(h1, d, name) == Ok(n0) && h1[n0] == FileNode
  {
    LookupOneComponent(h1, d, name);
    assert ToMap(h1[d].entries) == ToMap(h0[d].entries)[name := n0];
  }

  /** After renaming `a` to `b` within one directory, `a` is gone and `b` names the node `a` named. */
  lemma RenameInPlaceThenLookup(h0: Heap, d: NodeId, a: string, b: string, h1: Heap)
    requires Closed(h0) && IsDir(h0, d) && Closed(h1) && IsDir(h1, d)
    requires !IsDotName(a) && '/' !in a && !IsDotName(b) && '/' !in b
    requires RenamedNode(h0, d, a, b, Ok(()), h1)
    ensures Lookup(h0, d, a).Ok?
    ensures Lookup(h1, d, a) == Err(NotFound)
    ensures Lookup(h1, d, b) == Lookup(h0, d, a)
  {
    LookupOneComponent(h0, d, a);
    LookupOneComponent(h1, d, a);
    LookupOneComponent(h1, d, b);
    var es := h0[d].entries;
    assert ToMap(h1[d].entries) == (ToMap(es) - {a})[b := ToMap(es)[a]];
  }

  /**
   * A cross-directory move of a directory does not update its parent link:
   * afterwards its `..` still resolves to the directory it was moved out of.
   */
  lemma MovedDirKeepsOldParent(h0: Heap, s: NodeId, oldName: string, t: NodeId, newName: string, h1: Heap)
    requires Closed(h0) && IsDir(h0, s) && IsDir(h0, t) && s != t
    requires oldName in ToMap(h0[s].entries)
    requires Moved(h0, s, oldName, t, newName, Ok(()), h1) && Closed(h1)
    requires IsDir(h0, ToMap(h0[s].entries)[oldName]) && h0[ToMap(h0[s].entries)[oldName]].parent == Some(s)
    ensures var m := ToMap(h0[s].entries)[oldName];
      && IsDir(h1, m) && ToMap(h1[t].entries)[newName] == m
      && Lookup(h1, m, "..") == Ok(s)
  {
    var m := ToMap(h0[s].entries)[oldName];
    assert h1[m].parent == h0[m].parent;
    LookupOneComponent(h1, m, "..");
  }

  /**
   * Nothing stops a directory from being moved into itself: moving a child
   * directory `a` of `s` (entry `x`) into `a` under a name `y` that `a`
   * does not hold yet succeeds, and `a` is then its own child.
   */
  lemma MoveIntoItselfMakesCycle(h0: Heap, s: NodeId, x: string, y: string, r: Res<()>, h1: Heap)
    requires Closed(h0) && IsDir(h0, s) && x in ToMap(h0[s].entries)
    requires var a := ToMap(h0[s].entries)[x];
      IsDir(h0, a) && a != s && y !in ToMap(h0[a].entries)
    requires Moved(h0, s, x, ToMap(h0[s].entries)[x], y, r, h1)
    ensures var a := ToMap(h0[s].entries)[x];
      && r == Ok(())
      && x !in ToMap(h1[s].entries)
      && y in ToMap(h1[a].entries) && ToMap(h1[a].entries)[y] == a
  {
  }

  /**
   * The same through the path interface: a `rename` whose source is entry
   * `x` of the current directory and whose target directory is that same
   * entry (as in `rename("a", "a/a")`, see `SplitIntoOwnSubdir`) succeeds
   * when the child directory has no entry `y`, and leaves the child as its
   * own child.
   */
  lemma RenameIntoOwnSubdirMakesCycle(h0: Heap, d: NodeId, oldPath: string, newPath: string, x: string, y: string, r: Res<()>, h1: Heap)
    requires Closed(h0) && IsDir(h0, d) && x in ToMap(h0[d].entries) && !IsDotName(x)
    requires var a := ToMap(h0[d].entries)[x];
      IsDir(h0, a) && a != d && y !in ToMap(h0[a].entries)
    requires RenameSplit(oldPath, newPath) == ((".", x), (x, y))
    requires Renamed(h0, d, oldPath, newPath, r, h1)
    ensures var a := ToMap(h0[d].entries)[x];
      && r == Ok(())
      && a in h1 && h1[a].DirNode?
      && y in ToMap(h1[a].entries) && ToMap(h1[a].entries)[y] == a
  {
    var a := ToMap(h0[d].entries)[x];
    assert '/' !in x by { assert RenameSplit(oldPath, newPath).0.1 == x; }
    LookupDot(h0, d);
    LookupOneComponent(h0, d, x);
    RenamedAcross(h0, d, oldPath, newPath, d, a, r, h1);
    MoveIntoItselfMakesCycle(h0, d, x, y, r, h1);
  }

  /** When the two parent paths of `rename` resolve to distinct directories, `rename` is the cross-directory move. */
  lemma RenamedAcross(h0: Heap, d: NodeId, oldPath: string, newPath: string, s: NodeId, t: NodeId, r: Res<()>, h1: Heap)
    requires Closed(h0) && IsDir(h0, d) && IsDir(h0, s) && IsDir(h0, t) && s != t
    requires var ((op, _), (np, _)) := RenameSplit(oldPath, newPath);
      Lookup(h0, d, op) == Ok(s) && Lookup(h0, d, np) == Ok(t)
    requires Renamed(h0, d, oldPath, newPath, r, h1)
    ensures var ((_, on), (_, nn)) := RenameSplit(oldPath, newPath);
      Moved(h0, s, on, t, nn, r, h1)
  {
  }

  class RamFs {
    /** The node heap; a directory's child table owns its children. */
    var nodes: Heap
    /** The id the next created node gets; every node has a smaller one. */
    var next: NodeId
    /** The root directory. */
    const root: NodeId

    ghost predicate Valid()
      reads this
    {
      && Closed(nodes)
      && IsDir(nodes, root)
      && (forall id :: id in nodes ==> id < next)
    }

    /** An empty root directory without a parent (`DirNode::new(None)`). */
    constructor ()
      ensures Valid()
      ensures root == 0 && nodes == map[0 := DirNode([], None)] && next == 1
    {
      root := 0;
      nodes := map[0 := DirNode([], None)];
      next := 1;
    }

    /** `DirNode::create_node` (dir.rs:45-57). */
    method CreateNode(d: NodeId, name: string, ty: NodeType) returns (r: Res<()>)
      requires Valid() && IsDir(nodes, d)
      modifies this
      ensures Valid()
      ensures CreatedNode(old(nodes), old(next), d, name, ty, r, nodes, next)
    {
      if Exist(nodes, d, name) {
        return Err(AlreadyExists);
      }
      var node: Node;
      if ty == File {
        node := FileNode;
      } else if ty == Dir {
        node := DirNode([], Some(d));
      } else {
        return Err(Unsupported);
      }
      var id := next;
      var es := nodes[d].entries;
      TableInHeap(nodes, d);
      ClosedAfterAlloc(nodes, id, node);
      nodes := nodes[id := node];
      var added := Insert(es, name, id);
      ClosedAfterTableChange(nodes, d, added);
      nodes := nodes[d := DirNode(added, nodes[d].parent)];
      next := next + 1;
      r := Ok(());
    }

    /** `DirNode::remove_node` (dir.rs:60-70). */
    method RemoveNode(d: NodeId, name: string) returns (r: Res<()>)
      requires Valid() && IsDir(nodes, d)
      modifies this
      ensures Valid() && next == old(next)
      ensures RemovedNode(old(nodes), d, name, r, nodes)
    {
      var es := nodes[d].entries;
      if name !in ToMap(es) {
        return Err(NotFound);
      }
      ChildInHeap(nodes, d, name);
      var child := nodes[ToMap(es)[name]];
      if child.DirNode? && child.entries != [] {
        return Err(DirectoryNotEmpty);
      }
      TableInHeap(nodes, d);
      var removed := ChildTable.Remove(es, name);
      ClosedAfterTableChange(nodes, d, removed);
      nodes := nodes[d := DirNode(removed, nodes[d].parent)];
      r := Ok(());
    }

    /** `DirNode::rename_node` (dir.rs:72-83). */
    method RenameNode(d: NodeId, oldName: string, newName: string) returns (r: Res<()>)
      requires Valid() && IsDir(nodes, d)
      modifies this
      ensures Valid() && next == old(next)
      ensures RenamedNode(old(nodes), d, oldName, newName, r, nodes)
    {
      var es := nodes[d].entries;
      if oldName !in ToMap(es) {
        return Err(NotFound);
      }
      if newName in ToMap(es) {
        return Err(AlreadyExists);
      }
      ChildInHeap(nodes, d, oldName);
      var node := ToMap(es)[oldName];
      TableInHeap(nodes, d);
      var renamed := Insert(ChildTable.Remove(es, oldName), newName, node);
      ClosedAfterTableChange(nodes, d, renamed);
      nodes := nodes[d := DirNode(renamed, nodes[d].parent)];
      r := Ok(());
    }

    /** `VfsNodeOps::create` (dir.rs:134-156). */
    method Create(d: NodeId, path: string, ty: NodeType) returns (r: Res<()>)
      requires Valid() && IsDir(nodes, d)
      modifies this
      decreases |path|
      ensures Valid()
      ensures var w := Walk(old(nodes), d, path);
        && (w.Ok? && IsDotName(w.value.1) ==> r == Ok(()) && nodes == old(nodes) && next == old(next))
        && (w.Ok? && !IsDotName(w.value.1) ==>
              CreatedNode(old(nodes), old(next), w.value.0, w.value.1, ty, r, nodes, next))
        && (w.Err? ==> r == Err(w.error) && nodes == old(nodes) && next == old(next))
        && (w.AtFile? ==> r == AtFile(w.file, w.rest) && nodes == old(nodes) && next == old(next))
    {
      var (name, rest) := SplitPath(path);
      if rest.Some? {
        var sub := Step(nodes, d, name);
        if sub.None? {
          return Err(NotFound);
        }
        if nodes[sub.value].FileNode? {
          return AtFile(sub.value, rest.value);
        }
        r := Create(sub.value, rest.value, ty);
      } else if IsDotName(name) {
        r := Ok(());
      } else {
        r := CreateNode(d, name, ty);
      }
    }

    /** `VfsNodeOps::remove` (dir.rs:158-180). */
    method Remove(d: NodeId, path: string) returns (r: Res<()>)
      requires Valid() && IsDir(nodes, d)
      modifies this
      decreases |path|
      ensures Valid() && next == old(next)
      ensures var w := Walk(old(nodes), d, path);
        && (w.Ok? && IsDotName(w.value.1) ==> r == Err(InvalidInput) && nodes == old(nodes))
        && (w.Ok? && !IsDotName(w.value.1) ==> RemovedNode(old(nodes), w.value.0, w.value.1, r, nodes))
        && (w.Err? ==> r == Err(w.error) && nodes == old(nodes))
        && (w.AtFile? ==> r == AtFile(w.file, w.rest) && nodes == old(nodes))
    {
      var (name, rest) := SplitPath(path);
      if rest.Some? {
        var sub := Step(nodes, d, name);
        if sub.None? {
          return Err(NotFound);
        }
        if nodes[sub.value].FileNode? {
          return AtFile(sub.value, rest.value);
        }
        r := Remove(sub.value, rest.value);
      } else if IsDotName(name) {
        r := Err(InvalidInput);
      } else {
        r := RemoveNode(d, name);
      }
    }

    /**
     * `VfsNodeOps::rename` on directory `d` (dir.rs:182-220). Across two
     * directories it removes the entry first and puts it back when the
     * destination name turns out to be taken; the contract states that this
     * leaves both tables exactly as they were.
     */
    method Rename(d: NodeId, oldPath: string, newPath: string) returns (r: Res<()>)
      requires Valid() && IsDir(nodes, d)
      modifies this
      ensures Valid() && next == old(next)
      ensures Renamed(old(nodes), d, oldPath, newPath, r, nodes)
    {
      var oldTrimmed := TrimSlashes(oldPath);
      var newTrimmed := StripTmpPrefix(TrimSlashes(newPath));
      var (oldParentPath, oldName) := SplitParentName(oldTrimmed);
      var (newParentPath, newName) := SplitParentName(newTrimmed);

      var src := Lookup(nodes, d, oldParentPath);
      if src.Err? {
        return Err(src.error);
      } else if src.AtFile? {
        return AtFile(src.file, src.rest);
      }
      if nodes[src.value].FileNode? {
        return Err(InvalidInput);
      }
      var dst := Lookup(nodes, d, newParentPath);
      if dst.Err? {
        return Err(dst.error);
      } else if dst.AtFile? {
        return AtFile(dst.file, dst.rest);
      }
      if nodes[dst.value].FileNode? {
        return Err(InvalidInput);
      }
      var s, t := src.value, dst.value;
      if s == t {
        r := RenameNode(s, oldName, newName);
        return;
      }

      r := MoveAcross(s, oldName, t, newName);
    }

    /** The cross-directory branch of `rename` (dir.rs:209-219): remove, check, and roll back if needed. */
    method MoveAcross(s: NodeId, oldName: string, t: NodeId, newName: string) returns (r: Res<()>)
      requires Valid() && IsDir(nodes, s) && IsDir(nodes, t) && s != t
      modifies this
      ensures Valid() && next == old(next)
      ensures Moved(old(nodes), s, oldName, t, newName, r, nodes)
    {
      var se := nodes[s].entries;
      if oldName !in ToMap(se) {
        return Err(NotFound);
      }
      ChildInHeap(nodes, s, oldName);
      var node := ToMap(se)[oldName];
      TableInHeap(nodes, s);
      var removed := ChildTable.Remove(se, oldName);
      ClosedAfterTableChange(nodes, s, removed);
      nodes := nodes[s := DirNode(removed, nodes[s].parent)];
      var te := nodes[t].entries;
      if newName in ToMap(te) {
        // put the entry back where it was
        RemoveThenInsert(se, oldName);
        nodes := nodes[s := DirNode(Insert(nodes[s].entries, oldName, node), nodes[s].parent)];
        OverwriteBack(old(nodes), s, DirNode(removed, old(nodes)[s].parent));
        return Err(AlreadyExists);
      }
      TableInHeap(nodes, t);
      var added := Insert(te, newName, node);
      ClosedAfterTableChange(nodes, t, added);
      nodes := nodes[t := DirNode(added, nodes[t].parent)];
      r := Ok(());
    }

    /**
     * `VfsNodeOps::read_dir` (dir.rs:115-132): fills `slots` with the
     * listing of `d` from index `start` on and returns how many it filled;
     * slots past that count keep their contents.
     */
    method ReadDir(d: NodeId, start: nat, slots: array<DirEntry>) returns (n: nat)
      requires Valid() && IsDir(nodes, d)
      modifies slots
      ensures n == Min(slots.Length, Max(0, |Listing(nodes, d)| - start))
      ensures forall k :: 0 <= k < n ==> slots[k] == Listing(nodes, d)[start + k]
      ensures forall k :: n <= k < slots.Length ==> slots[k] == old(slots[k])
    {
      var es := nodes[d].entries;
      ghost var l := Listing(nodes, d);
      var c := Max(start, 2) - 2;
      var i := 0;
      while i < slots.Length
        invariant 0 <= i <= slots.Length
        invariant c == Max(i + start, 2) - 2
        invariant i > 0 ==> i + start <= |l|
        invariant forall k :: 0 <= k < i ==> slots[k] == l[start + k]
        invariant forall k :: i <= k < slots.Length ==> slots[k] == old(slots[k])
      {
        if i + start == 0 {
          slots[i] := DirEntry(".", Dir);
        } else if i + start == 1 {
          slots[i] := DirEntry("..", Dir);
        } else if c < |es| {
          slots[i] := DirEntry(es[c].name, TypeOf(nodes[es[c].node]));
          c := c + 1;
        } else {
          return i;
        }
        i := i + 1;
      }
      n := slots.Length;
    }
  }
}
