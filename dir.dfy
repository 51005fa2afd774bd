/** dir.go: the trie engine. A directory maps child names to nodes; path
    walks resolve a list of segments one level at a time.

    The shape of the whole tree is tracked by a ghost address map from paths
    to the node objects stored there, together with the sets of directory and
    file objects. `Wf` ties that map to the `nodes` fields of the directories,
    and `View` reads off the abstract filesystem of the Namespace module on
    which the walks are specified. */
module Dirs {
  import opened Errors
  import opened Config
  import opened Namespace
  import opened Files

  /** `Node`: one of the two kinds of tree node. */
  datatype Node = FileNode(file: File) | DirNode(dir: Dir)
  {
    /** `Name()` of the node, whichever kind it is. */
    function Name(): string
    {
      match this
      case FileNode(f) => f.name
      case DirNode(d) => d.name
    }
  }

  /** Where each node object of a tree sits, by path from the root. */
  type Tree = map<Path, Node>

  ghost predicate FilesIn(t: Tree, files: set<File>)
  {
    forall p :: p in t && t[p].FileNode? ==> t[p].file in files
  }

  /** The `nodes` map of every directory of a set, as a value. */
  type Snapshot = map<Dir, map<string, Node>>

  ghost function Snap(dirs: set<Dir>): (s: Snapshot)
    reads dirs
    ensures s.Keys == dirs
    ensures forall d :: d in dirs ==> s[d] == d.nodes
  {
    map d | d in dirs :: d.nodes
  }

  /** The path one level below `p` under the name `k`. */
  function Child(p: Path, k: string): Path
  {
    p + [k]
  }

  /** Every directory of the tree has a snapshot entry. */
  ghost predicate DirsKnown(t: Tree, s: Snapshot)
  {
    forall p {:trigger t[p]} :: p in t && t[p].DirNode? ==> t[p].dir in s
  }

  /** Paths `p` and `q` of the tree hold the same node object. */
  ghost predicate SameNode(t: Tree, p: Path, q: Path)
  {
    p in t && q in t && t[p] == t[q]
  }

  /** No node object sits at two paths (no sharing, no cycles). */
  ghost predicate Unshared(t: Tree)
  {
    forall p, q {:trigger SameNode(t, p, q)} :: SameNode(t, p, q) ==> p == q
  }

  /** Every path but the root hangs in its parent directory under its last
      segment, which is the node's own name. */
  ghost predicate Upward(t: Tree, s: Snapshot)
  {
    forall p {:trigger Parent(p)} :: p in t && p != [] ==>
      && Parent(p) in t && t[Parent(p)].DirNode? && t[Parent(p)].dir in s
      && p[|p| - 1] in s[t[Parent(p)].dir]
      && t[p].Name() == p[|p| - 1]
  }

  /** Every child of a directory is in the tree one level below it. */
  ghost predicate Downward(t: Tree, s: Snapshot)
  {
    forall p, k {:trigger Child(p, k)} ::
      p in t && t[p].DirNode? && t[p].dir in s && k in s[t[p].dir] ==>
      Child(p, k) in t && t[Child(p, k)] == s[t[p].dir][k]
  }

  /** Every directory carries the filesystem's options. */
  ghost predicate SameOptions(t: Tree, opt: Options)
  {
    forall p {:trigger t[p]} :: p in t && t[p].DirNode? ==> t[p].dir.opt == opt
  }

  /** The tree invariant over a snapshot of the directories: the address
      map has a directory at the root; every directory's children are
      exactly the paths one level below it, each stored under its own name;
      no node object sits at two paths; and every directory carries the
      filesystem's options. */
  ghost predicate WfS(t: Tree, s: Snapshot, files: set<File>, opt: Options)
  {
    && DirsKnown(t, s)
    && FilesIn(t, files)
    && [] in t && t[[]].DirNode?
    && Unshared(t)
    && Upward(t, s)
    && Downward(t, s)
    && SameOptions(t, opt)
  }

  /** The children of the directory at `at` are exactly the paths one level
      below it, each holding the node its map stores. */
  lemma ChildOf(t: Tree, s: Snapshot, files: set<File>, opt: Options, at: Path, k: string)
    requires WfS(t, s, files, opt) && at in t && t[at].DirNode?
    ensures t[at].dir in s
    ensures Child(at, k) in t <==> k in s[t[at].dir]
    ensures k in s[t[at].dir] ==> t[Child(at, k)] == s[t[at].dir][k]
  {
    var c := Child(at, k);
    if c in t {
      assert Parent(c) == at;
    }
  }

  /** Every child a directory stores under key `k` is named `k`. */
  lemma ChildNamed(t: Tree, s: Snapshot, files: set<File>, opt: Options, at: Path, k: string)
    requires WfS(t, s, files, opt) && at in t && t[at].DirNode? && t[at].dir in s
    requires k in s[t[at].dir]
    ensures s[t[at].dir][k].Name() == k
  {
    ChildOf(t, s, files, opt, at, k);
    var c := Child(at, k);
    assert Parent(c) == at && c[|c| - 1] == k;
  }

  /** The tree invariant on the heap: `WfS` of the current `nodes` fields. */
  ghost predicate Wf(t: Tree, dirs: set<Dir>, files: set<File>, opt: Options)
    reads dirs
  {
    WfS(t, Snap(dirs), files, opt)
  }

  /** What the abstract view records for a node. */
  function EntryOf(n: Node): Entry
    reads if n.FileNode? then {n.file} else {}
  {
    match n
    case FileNode(f) => FileEntry(f.data)
    case DirNode(_) => DirEntry
  }

  /** The abstract filesystem of a tree: each path mapped to a directory
      entry or to its file's current content. */
  ghost function View(t: Tree, files: set<File>): Fs
    requires FilesIn(t, files)
    reads files
  {
    map p | p in t :: EntryOf(t[p])
  }

  /** A well-formed tree has a valid view. */
  lemma ViewValid(t: Tree, dirs: set<Dir>, files: set<File>, opt: Options)
    requires Wf(t, dirs, files, opt)
    ensures Namespace.Valid(View(t, files))
  {
    var m := View(t, files);
    forall p | p in m && p != [] ensures Parent(p) in m && m[Parent(p)] == DirEntry {
      assert t[Parent(p)].DirNode?;
    }
  }

  lemma ViewAdd(t: Tree, files: set<File>, files': set<File>, p: Path, n: Node)
    requires FilesIn(t, files) && files <= files'
    requires n.FileNode? ==> n.file in files'
    ensures FilesIn(t[p := n], files')
    ensures View(t[p := n], files') == View(t, files)[p := EntryOf(n)]
  {
  }

  /** The objects a node adds to the directory and file sets. */
  function DirsOf(n: Node): set<Dir>
  {
    if n.DirNode? then {n.dir} else {}
  }

  function FilesOf(n: Node): set<File>
  {
    if n.FileNode? then {n.file} else {}
  }

  /** The snapshot after storing `n` under `name` in directory `d`; a new
      directory starts out empty. */
  function Added(s: Snapshot, d: Dir, name: string, n: Node): Snapshot
    requires d in s
  {
    var s1 := s[d := s[d][name := n]];
    if n.DirNode? then s1[n.dir := map[]] else s1
  }

  /** The requirements for storing node `n` under the free name `name` of
      the directory `d` at `at`: a new directory is unknown to the snapshot
      and has the filesystem's options, a new file is not yet in the tree. */
  ghost predicate CanAdd(t: Tree, s: Snapshot, files: set<File>, opt: Options, at: Path, d: Dir, name: string, n: Node)
  {
    && WfS(t, s, files, opt)
    && at in t && t[at] == DirNode(d)
    && d in s && name !in s[d] && n.Name() == name
    && (n.DirNode? ==> n.dir !in s && n.dir.opt == opt)
    && (n.FileNode? ==> n.file !in files)
  }

  /** After an addition the snapshot of a directory already in the tree is
      unchanged, except for the parent, which gains the new child. */
  lemma AddedAt(t: Tree, s: Snapshot, files: set<File>, opt: Options, at: Path, d: Dir, name: string, n: Node, p: Path)
    requires CanAdd(t, s, files, opt, at, d, name, n)
    requires p in t && t[p].DirNode?
    ensures t[p].dir in Added(s, d, name, n)
    ensures Added(s, d, name, n)[t[p].dir] == if p == at then s[d][name := n] else s[t[p].dir]
  {
    if t[p].dir == d {
      assert SameNode(t, p, at);
    }
  }

  lemma AddUnshared(t: Tree, s: Snapshot, files: set<File>, opt: Options, at: Path, d: Dir, name: string, n: Node)
    requires CanAdd(t, s, files, opt, at, d, name, n)
    requires Child(at, name) !in t
    ensures Unshared(t[Child(at, name) := n])
  {
    var P := Child(at, name);
    var t' := t[P := n];
    forall p, q | SameNode(t', p, q) ensures p == q {
      if p != P && q != P {
        assert SameNode(t, p, q);
      }
    }
  }

  lemma AddUpward(t: Tree, s: Snapshot, files: set<File>, opt: Options, at: Path, d: Dir, name: string, n: Node)
    requires CanAdd(t, s, files, opt, at, d, name, n)
    requires Child(at, name) !in t
    ensures Upward(t[Child(at, name) := n], Added(s, d, name, n))
  {
    var P := Child(at, name);
    var t' := t[P := n];
    var s' := Added(s, d, name, n);
    forall p | p in t' && p != []
      ensures Parent(p) in t' && t'[Parent(p)].DirNode? && t'[Parent(p)].dir in s'
      ensures p[|p| - 1] in s'[t'[Parent(p)].dir]
      ensures t'[p].Name() == p[|p| - 1]
    {
      if p == P {
        assert Parent(p) == at;
        AddedAt(t, s, files, opt, at, d, name, n, at);
      } else {
        assert Parent(p) in t;
        AddedAt(t, s, files, opt, at, d, name, n, Parent(p));
      }
    }
  }

  lemma AddDownward(t: Tree, s: Snapshot, files: set<File>, opt: Options, at: Path, d: Dir, name: string, n: Node)
    requires CanAdd(t, s, files, opt, at, d, name, n)
    requires Child(at, name) !in t
    ensures Downward(t[Child(at, name) := n], Added(s, d, name, n))
  {
    var P := Child(at, name);
    var t' := t[P := n];
    var s' := Added(s, d, name, n);
    forall p, k {:trigger Child(p, k)} | p in t' && p != P && t'[p].DirNode? && t'[p].dir in s' && k in s'[t'[p].dir]
      ensures Child(p, k) in t' && t'[Child(p, k)] == s'[t'[p].dir][k]
    {
      AddedAt(t, s, files, opt, at, d, name, n, p);
      if p != at || k != name {
        assert Child(p, k) in t;
      }
    }
    if n.DirNode? {
      assert s'[n.dir] == map[];
    }
  }

  /** Storing a new node under a free name of the directory at `at` keeps the
      tree well formed once the address map records it at `at + [name]`. */
  lemma AddChild(t: Tree, s: Snapshot, files: set<File>, opt: Options, at: Path, d: Dir, name: string, n: Node)
    requires CanAdd(t, s, files, opt, at, d, name, n)
    ensures Child(at, name) !in t
    ensures WfS(t[Child(at, name) := n], Added(s, d, name, n), files + FilesOf(n), opt)
  {
    ChildOf(t, s, files, opt, at, name);
    AddUnshared(t, s, files, opt, at, d, name, n);
    AddUpward(t, s, files, opt, at, d, name, n);
    AddDownward(t, s, files, opt, at, d, name, n);
  }

  /** The snapshot of the directories after `d` stored `n` under `name`
      and, for a new directory, that directory joined empty. */
  lemma SnapGrown(dirs: set<Dir>, s: Snapshot, d: Dir, name: string, n: Node)
    requires s.Keys == dirs && d in dirs
    requires forall e :: e in dirs && e != d ==> e.nodes == s[e]
    requires d.nodes == s[d][name := n]
    requires n.DirNode? ==> n.dir !in dirs && n.dir.nodes == map[]
    ensures Snap(dirs + DirsOf(n)) == Added(s, d, name, n)
  {
  }

  /** Recording in the address map a node that `CreateDir` or `CreateFile`
      just stored under a free name of the directory `d` at `at`, when no
      other directory changed (`s` is the snapshot from before): the tree
      stays well formed and the view gains exactly that entry. */
  lemma Grown(t: Tree, s: Snapshot, dirs: set<Dir>, files: set<File>, opt: Options, at: Path, d: Dir, name: string, n: Node)
    requires CanAdd(t, s, files, opt, at, d, name, n) && s.Keys == dirs
    requires forall e :: e in dirs && e != d ==> e.nodes == s[e]
    requires d.nodes == s[d][name := n]
    requires n.DirNode? ==> n.dir.nodes == map[]
    ensures Child(at, name) !in t
    ensures Wf(t[Child(at, name) := n], dirs + DirsOf(n), files + FilesOf(n), opt)
    ensures View(t[Child(at, name) := n], files + FilesOf(n)) == View(t, files)[Child(at, name) := EntryOf(n)]
  {
    AddChild(t, s, files, opt, at, d, name, n);
    SnapGrown(dirs, s, d, name, n);
    ViewAdd(t, files, files + FilesOf(n), Child(at, name), n);
  }

  /** After an append to the file at `p` the view changes at `p` alone, as
      no other path holds that file object; `m0` is the view from before,
      which agrees with the current tree everywhere else. */
  lemma ViewAppended(t: Tree, files: set<File>, m0: Fs, p: Path, f: File)
    requires FilesIn(t, files) && p in t && t[p] == FileNode(f)
    requires m0.Keys == t.Keys
    requires forall q :: q in t && q != p ==> m0[q] == EntryOf(t[q])
    ensures View(t, files) == m0[p := FileEntry(f.data)]
  {
  }

  /** A tree of one empty directory at the root is well formed, and its
      view holds the root alone. */
  lemma RootOnly(d: Dir)
    requires d.nodes == map[]
    ensures Wf(map[[] := DirNode(d)], {d}, {}, d.opt)
    ensures View(map[[] := DirNode(d)], {}) == Empty
  {
    var t := map[[] := DirNode(d)];
    assert Snap({d}) == map[d := map[]];
    forall p, q | SameNode(t, p, q) ensures p == q {
    }
  }

  /** A node of the tree is shown by the view as its entry, and a file node
      is one of the tracked files. */
  lemma Shown(t: Tree, files: set<File>, p: Path)
    requires FilesIn(t, files) && p in t
    ensures p in View(t, files) && View(t, files)[p] == EntryOf(t[p])
    ensures t[p].FileNode? ==> t[p].file in files
  {
  }

  /** Whether a lookup result is the one the abstract walk prescribes. */
  ghost predicate Resolves(r: Result<Node>, t: Tree, o: Resolution)
  {
    match o
    case Found(q) => q in t && r == Success(t[q])
    case Missing(rest) => r == Failure(NotFound(PathNotFoundError(rest)))
    case Invalid => r == Failure(InvalidPath)
  }

  /** `dir`: a named directory whose `nodes` map holds its children. */
  class Dir {
    const name: string
    const opt: Options
    var nodes: map<string, Node>

    /** An empty directory, as `CreateDir` and `NewFileSystem` build it. */
    constructor (name: string, opt: Options)
      ensures this.name == name && this.opt == opt && nodes == map[]
    {
      this.name := name;
      this.opt := opt;
      nodes := map[];
    }

    /** `Name()`: the name given at creation. */
    function Name(): string
    {
      name
    }

    /** `HasChild(name)`: whether some child, file or directory, holds `name`. */
    predicate HasChild(name: string)
      reads this
    {
      name in nodes
    }

    /** `GetChild(name)`: the node stored under `name`, or a not-found error
        whose path is that single name. */
    function GetChild(name: string): (r: Result<Node>)
      reads this
      ensures r.Success? <==> HasChild(name)
      ensures r.Success? ==> r.value == nodes[name]
      ensures r.Failure? ==> r.error == NotFound(PathNotFoundError([name]))
    {
      if name in nodes then Success(nodes[name])
      else Failure(NotFound(NewPathNotFoundError([name])))
    }

    /** `CreateDir(name)`: fails, changing nothing, exactly when `name` is
        taken; otherwise stores under `name` a new empty directory of that
        name with this directory's options, and nothing else changes. */
    method CreateDir(name: string) returns (r: Result<Dir>)
      modifies this
      ensures r.Success? <==> !old(HasChild(name))
      ensures r.Failure? ==> r.error == AlreadyExists(name) && nodes == old(nodes)
      ensures r.Success? ==>
        && fresh(r.value) && r.value.name == name && r.value.opt == opt && r.value.nodes == map[]
        && nodes == old(nodes)[name := DirNode(r.value)]
    {
      if HasChild(name) {
        return Failure(AlreadyExists(name));
      }
      var d := new Dir(name, opt);
      nodes := nodes[name := DirNode(d)];
      r := Success(d);
    }

    /** `CreateFile(name, data)`: fails, changing nothing, exactly when `name`
        is taken; otherwise stores under `name` a new file of that name
        holding `data`, and nothing else changes. */
    method CreateFile(name: string, data: string) returns (r: Outcome)
      modifies this
      ensures r.Pass? <==> !old(HasChild(name))
      ensures r.Fail? ==> r.error == AlreadyExists(name) && nodes == old(nodes)
      ensures r.Pass? ==>
        && name in nodes && nodes[name].FileNode?
        && fresh(nodes[name].file) && nodes[name].file.name == name && nodes[name].file.data == data
        && nodes == old(nodes)[name := nodes[name]]
    {
      if HasChild(name) {
        return Fail(AlreadyExists(name));
      }
      var f := new File(name, data);
      nodes := nodes[name := FileNode(f)];
      r := Pass;
    }

    /** `Find(path)`: looks `path` up below this directory (sitting at `at`
        in the tree) without changing anything, with exactly the outcome of
        the abstract `Lookup`: the node at the end, a not-found error carrying
        the rest of the path from the missing segment, or an invalid path
        when a file stands before the last segment. The source indexes
        `path[0]` unchecked, so the path must not be empty. */
    function Find(path: Path, ghost t: Tree, ghost dirs: set<Dir>, ghost files: set<File>, ghost at: Path): (r: Result<Node>)
      requires |path| > 0
      requires Wf(t, dirs, files, opt) && at in t && t[at] == DirNode(this)
      reads dirs, files
      ensures Resolves(r, t, Lookup(View(t, files), at, path))
      decreases |path|
    {
      var name := path[0];
      var child := GetChild(name);
      ChildOf(t, Snap(dirs), files, opt, at, name);
      if child.Failure? then
        Failure(NotFound(NewPathNotFoundError(path)))
      else if |path| == 1 then
        child
      else
        match child.value
        case FileNode(_) => Failure(InvalidPath)
        case DirNode(d) =>
          assert Child(at, name) + path[1..] == at + path;
          d.Find(path[1..], t, dirs, files, Child(at, name))
    }

    /** The first step of `CreatePath`: the child stored under `name`, or,
        when the name is free, a new empty directory created there (the
        source's not-found test on the `GetChild` error always holds, since
        `GetChild` fails with nothing else). The tree gains the new directory
        and nothing else changes. */
    method OpenChild(name: string, ghost t: Tree, ghost dirs: set<Dir>, ghost files: set<File>, ghost at: Path)
      returns (child: Node, ghost t': Tree, ghost dirs': set<Dir>)
      requires Wf(t, dirs, files, opt) && at in t && t[at] == DirNode(this)
      modifies this
      ensures Wf(t', dirs', files, opt)
      ensures dirs <= dirs' && forall d :: d in dirs' ==> d in dirs || fresh(d)
      ensures t' == if Child(at, name) in t then t else t[Child(at, name) := child]
      ensures Child(at, name) in t' && t'[Child(at, name)] == child
      ensures child.Name() == name
      ensures View(t', files) ==
        if Child(at, name) in old(View(t, files)) then old(View(t, files))
        else old(View(t, files))[Child(at, name) := DirEntry]
    {
      ghost var p := Child(at, name);
      ghost var m := View(t, files);
      ghost var s := Snap(dirs);
      ChildOf(t, s, files, opt, at, name);
      var got := GetChild(name);
      if got.Success? {
        ChildNamed(t, s, files, opt, at, name);
        return got.value, t, dirs;
      }
      assert got.error.notFound.Is(NotFound(Sentinel));
      var made := CreateDir(name);
      child := DirNode(made.value);
      Grown(t, s, dirs, files, opt, at, this, name, child);
      assert files + FilesOf(child) == files;
      assert unchanged(files);
      assert View(t, files) == m;
      t' := t[p := child];
      dirs' := dirs + {made.value};
    }

    /** `CreatePath(path)`: walks `path` below this directory (at `at`),
        creating each missing segment as a new empty directory, and with
        exactly the effect of the abstract `Mkpath` on the view. On success
        it returns the directory now at the end of the path; a segment that
        is a file gives an invalid path. Existing nodes stay where they are
        and every new directory is fresh. The path must not be empty. */
    method CreatePath(path: Path, ghost t: Tree, ghost dirs: set<Dir>, ghost files: set<File>, ghost at: Path)
      returns (r: Result<Dir>, ghost t': Tree, ghost dirs': set<Dir>)
      requires |path| > 0
      requires Wf(t, dirs, files, opt) && at in t && t[at] == DirNode(this)
      modifies dirs
      ensures Wf(t', dirs', files, opt)
      ensures dirs <= dirs' && forall d :: d in dirs' ==> d in dirs || fresh(d)
      ensures forall p :: p in t ==> p in t' && t'[p] == t[p]
      ensures View(t', files) == Mkpath(old(View(t, files)), at, path).fs
      ensures r.Success? <==> Mkpath(old(View(t, files)), at, path).ok
      ensures r.Success? ==> at + path in t' && t'[at + path] == DirNode(r.value)
      ensures r.Failure? ==> r.error == InvalidPath
      decreases |path|
    {
      var name := path[0];
      ghost var m := View(t, files);
      var child;
      child, t', dirs' := OpenChild(name, t, dirs, files, at);
      ghost var p := Child(at, name);
      MkpathStep(m, at, path);
      assert View(t', files)[p] == EntryOf(child);
      if !child.DirNode? {
        return Failure(InvalidPath), t', dirs';
      }
      if |path| == 1 {
        return Success(child.dir), t', dirs';
      }
      r, t', dirs' := child.dir.CreatePath(path[1..], t', dirs', files, p);
    }

    /** `PrettyPrint()`: the nested map of this directory (at `at`): its keys
        are exactly the child names, a file child maps to its content and a
        directory child to its own nested map, so an empty directory gives an
        empty map. This is the abstract `Render` of the view. */
    method PrettyPrint(ghost t: Tree, ghost dirs: set<Dir>, ghost files: set<File>, ghost at: Path)
      returns (r: Pretty)
      requires Wf(t, dirs, files, opt) && at in t && t[at] == DirNode(this)
      ensures r == Render(View(t, files), at)
      ensures r.Nested? && r.children.Keys == nodes.Keys
      ensures forall k :: k in nodes && nodes[k].FileNode? ==> r.children[k] == Text(nodes[k].file.data)
      decreases Below(t.Keys, at)
    {
      ghost var v := View(t, files);
      ghost var s := Snap(dirs);
      assert Children(v, at) == nodes.Keys by {
        forall k ensures k in Children(v, at) <==> k in nodes {
          ChildIn(v, at, k);
          ChildOf(t, s, files, opt, at, k);
        }
      }
      var m: map<string, Pretty> := map[];
      var keys := nodes.Keys;
      while keys != {}
        invariant keys <= nodes.Keys
        invariant m.Keys == nodes.Keys - keys
        invariant forall k :: k in m ==> m[k] == RenderChild(v, at, k)
        decreases keys
      {
        var k :| k in keys;
        ChildOf(t, s, files, opt, at, k);
        match nodes[k] {
          case DirNode(d) =>
            BelowShrinks(t.Keys, at, k);
            var sub := d.PrettyPrint(t, dirs, files, Child(at, k));
            m := m[k := sub];
          case FileNode(f) =>
            m := m[k := Text(f.Data())];
        }
        keys := keys - {k};
      }
      forall k | k in nodes && nodes[k].FileNode? ensures m[k] == Text(nodes[k].file.data) {
        ChildOf(t, s, files, opt, at, k);
      }
      r := Nested(m);
    }
  }
}
