/** filesystem.go: the path-string facade over a root directory. Every
    operation is first specified on the abstract view (a function from the
    old view to an outcome and a new view), its laws are proved there, and the
    `FileSystem` class then implements it on the directory objects. */
module FileSystems {
  import Strings
  import opened Errors
  import opened Config
  import opened Namespace
  import opened Files
  import opened Dirs

  // ---------------------------------------------------------------------
  // Paths
  // ---------------------------------------------------------------------

  /** `parsePathSegments`: the `/`-separated segments of a path and their
      number. There is always at least one segment, no segment holds the
      separator, and joining the segments with `/` gives the path back. */
  function ParsePathSegments(path: string): (r: (seq<string>, nat))
    ensures r.1 == |r.0| >= 1
    ensures forall i :: 0 <= i < |r.0| ==> '/' !in r.0[i]
    ensures Strings.Join(r.0, '/') == path
  {
    Strings.JoinSplit(path, '/');
    var segments := Strings.Split(path, '/');
    (segments, |segments|)
  }

  /** A path of two plain names is parsed into those two names. */
  lemma ParseTwo(a: string, b: string)
    requires '/' !in a && '/' !in b
    ensures ParsePathSegments(a + "/" + b).0 == [a, b]
  {
    assert a + "/" + b == a + ['/'] + b;
    Strings.SplitAtSep(a, b, '/');
    Strings.SplitWithoutSep(b, '/');
  }

  // ---------------------------------------------------------------------
  // The operations on the view
  // ---------------------------------------------------------------------

  /** What a facade operation does: its outcome and the view after it. */
  datatype Effect = Effect(out: Outcome, fs: Fs)

  /** `Mkdir` on the view. Permissive: the walk of `CreatePath` over all the
      segments. Restrictive: the parent must be found and be a directory, and
      the last name must be free. Restrictive mode takes the parent path
      `segments[:len-1]`, which the source hands to `Find`, where an empty path
      is indexed: a single segment is outside the operation's domain. */
  function MkdirSpec(m: Fs, restrictive: bool, segs: Path): Effect
    requires |segs| >= 1 && (restrictive ==> |segs| >= 2)
  {
    if !restrictive then
      var made := Mkpath(m, [], segs);
      Effect(if made.ok then Pass else Fail(InvalidPath), made.fs)
    else
      match Lookup(m, [], segs[..|segs| - 1])
      case Missing(rest) => Effect(Fail(NotFound(PathNotFoundError(rest))), m)
      case Invalid => Effect(Fail(InvalidPath), m)
      case Found(q) =>
        if m[q].FileEntry? then Effect(Fail(InvalidPath), m)
        else if segs in m then Effect(Fail(AlreadyExists(segs[|segs| - 1])), m)
        else Effect(Pass, m[segs := DirEntry])
  }

  /** `ReadFile` on the view: the content of the file the lookup finds. */
  function ReadSpec(m: Fs, segs: Path): Result<string>
    requires |segs| >= 1
  {
    match Lookup(m, [], segs)
    case Missing(rest) => Failure(NotFound(PathNotFoundError(rest)))
    case Invalid => Failure(InvalidPath)
    case Found(q) => if m[q].FileEntry? then Success(m[q].data) else Failure(NotAFile)
  }

  /** What `ReadFile` makes of the node the lookup returns: a file's
      content, or the lookup's error, or not-a-file for a directory. */
  function ReadNode(node: Result<Node>): Result<string>
    reads if node.Success? && node.value.FileNode? then {node.value.file} else {}
  {
    if node.Failure? then Failure(node.error)
    else match node.value
      case DirNode(_) => Failure(NotAFile)
      case FileNode(f) => Success(f.Data())
  }

  /** The node that `Find` resolves on a tree reads as `ReadSpec` prescribes
      on the tree's view, and a file it returns is a tracked one. */
  lemma ReadResolved(t: Tree, files: set<File>, segs: Path, node: Result<Node>)
    requires FilesIn(t, files) && |segs| >= 1
    requires Resolves(node, t, Lookup(View(t, files), [], segs))
    ensures node.Success? && node.value.FileNode? ==> node.value.file in files
    ensures ReadSpec(View(t, files), segs) == ReadNode(node)
  {
    var o := Lookup(View(t, files), [], segs);
    if o.Found? {
      Shown(t, files, o.at);
    }
  }

  /** The last step of `WriteFile` in the directory at `q`: a missing name
      becomes a file holding `data`, a file gets `data` appended, and a
      directory is refused. */
  function PutSpec(m: Fs, q: Path, name: string, data: string): Effect
  {
    var p := q + [name];
    if p !in m then Effect(Pass, m[p := FileEntry(data)])
    else if m[p].FileEntry? then Effect(Pass, m[p := FileEntry(m[p].data + data)])
    else Effect(Fail(NotAFile), m)
  }

  /** `WriteFile` on the view: the parent is reached by the walk of
      `CreatePath` (permissive) or by `Find` (restrictive), then `PutSpec`.
      Both modes hand the parent path `segments[:len-1]` to a walk that
      indexes its first segment, so a single segment is outside the domain. */
  function WriteSpec(m: Fs, restrictive: bool, segs: Path, data: string): Effect
    requires |segs| >= 2
  {
    var parent := segs[..|segs| - 1];
    var name := segs[|segs| - 1];
    if !restrictive then
      var made := Mkpath(m, [], parent);
      if made.ok then PutSpec(made.fs, parent, name, data)
      else Effect(Fail(InvalidPath), made.fs)
    else
      match Lookup(m, [], parent)
      case Missing(rest) => Effect(Fail(NotFound(PathNotFoundError(rest))), m)
      case Invalid => Effect(Fail(InvalidPath), m)
      case Found(q) =>
        if m[q].FileEntry? then Effect(Fail(InvalidPath), m)
        else PutSpec(m, parent, name, data)
  }

  // ---------------------------------------------------------------------
  // Laws of Mkdir
  // ---------------------------------------------------------------------

  /** Permissive `Mkdir` succeeds exactly when no segment of the path is a
      file; on failure nothing changes, so the lack of rollback in the source
      is never observable. */
  lemma MkdirPermissive(m: Fs, segs: Path)
    requires Valid(m) && |segs| >= 1
    ensures var e := MkdirSpec(m, false, segs);
      && (e.out.Pass? <==> NoFileOn(m, [], segs))
      && (e.out.Fail? ==> e.out == Fail(InvalidPath) && e.fs == m)
  {
    MkpathOkIff(m, [], segs);
    if !Mkpath(m, [], segs).ok {
      MkpathFailUnchanged(m, [], segs);
    }
  }

  /** A successful permissive `Mkdir` adds exactly the directories the path
      lacked, keeps everything else, and the path then names a directory. */
  lemma MkdirPermissiveGrows(m: Fs, segs: Path)
    requires |segs| >= 1 && MkdirSpec(m, false, segs).out.Pass?
    ensures var fs := MkdirSpec(m, false, segs).fs;
      && fs.Keys == m.Keys + Prefixes([], segs)
      && (forall q :: q in m ==> fs[q] == m[q])
      && segs in fs && fs[segs] == DirEntry
  {
    MkpathSuccess(m, [], segs);
    assert [] + segs == segs;
  }

  /** The cases of a restrictive `Mkdir`, by the outcome of the lookup of
      the parent path. */
  lemma MkdirRestrictiveCases(m: Fs, segs: Path)
    requires |segs| >= 2
    ensures var o := Lookup(m, [], segs[..|segs| - 1]);
      var e := MkdirSpec(m, true, segs);
      && (o.Missing? ==> e == Effect(Fail(NotFound(PathNotFoundError(o.rest))), m))
      && (o.Invalid? ==> e == Effect(Fail(InvalidPath), m))
      && (o.Found? && m[o.at].FileEntry? ==> e == Effect(Fail(InvalidPath), m))
      && (o.Found? && m[o.at] == DirEntry && segs in m ==> e == Effect(Fail(AlreadyExists(segs[|segs| - 1])), m))
      && (o.Found? && m[o.at] == DirEntry && segs !in m ==> e == Effect(Pass, m[segs := DirEntry]))
      && (e.out.Fail? ==> e.fs == m)
      && (e.out.Pass? ==> o.Found? && m[o.at] == DirEntry && segs !in m)
  {
  }

  /** The lookup of the parent path reaches a stored entry exactly when the
      ancestors above the parent are directories and the parent is stored. */
  lemma ParentReached(m: Fs, segs: Path)
    requires |segs| >= 2
    ensures Lookup(m, [], segs[..|segs| - 1]).Found?
        <==> OpenUpTo(m, [], segs, |segs| - 2) && segs[..|segs| - 1] in m
  {
    var n := |segs|;
    assert [] + segs[..n - 1] == segs[..n - 1];
    LookupFoundIff(m, [], segs[..n - 1]);
    OpenUpToTrim(m, [], segs, n - 1, n - 2);
  }

  /** Restrictive mode looks the parent path up: the lookup finds a
      directory at the parent exactly when every ancestor of the path is a
      directory. */
  lemma ParentFound(m: Fs, segs: Path)
    requires |segs| >= 2
    ensures var r := Lookup(m, [], segs[..|segs| - 1]);
      && (r.Found? ==> r.at == segs[..|segs| - 1])
      && (r.Found? && m[r.at] == DirEntry <==> OpenUpTo(m, [], segs, |segs| - 1))
  {
    var n := |segs|;
    assert [] + segs[..n - 1] == segs[..n - 1];
    ParentReached(m, segs);
    OpenUpToLast(m, [], segs, n - 1);
  }

  /** Restrictive `Mkdir` succeeds exactly when every ancestor is a
      directory and the name is free, and then adds that one directory; it
      fails with already-exists exactly when the ancestors are directories and
      the name is taken; it fails with not-found, carrying the parent path from
      the missing segment `i` on, exactly when the ancestors before `i` are
      directories and segment `i` is absent; and a failure changes nothing. */
  lemma MkdirRestrictive(m: Fs, segs: Path)
    requires Valid(m) && |segs| >= 2
    ensures var e := MkdirSpec(m, true, segs);
      && (e.out.Pass? <==> OpenUpTo(m, [], segs, |segs| - 1) && segs !in m)
      && (e.out.Pass? ==> e.fs == m[segs := DirEntry])
      && (e.out.Fail? ==> e.fs == m)
      && (e.out == Fail(AlreadyExists(segs[|segs| - 1])) <==> OpenUpTo(m, [], segs, |segs| - 1) && segs in m)
  {
    ParentFound(m, segs);
    MkdirRestrictiveCases(m, segs);
  }

  /** Restrictive `Mkdir` fails with not-found for `rest`, changing
      nothing, exactly when the lookup of the parent reports `rest` missing. */
  lemma MkdirNotFoundIff(m: Fs, segs: Path, rest: Path)
    requires |segs| >= 2
    ensures MkdirSpec(m, true, segs) == Effect(Fail(NotFound(PathNotFoundError(rest))), m)
        <==> Lookup(m, [], segs[..|segs| - 1]) == Missing(rest)
  {
    MkdirRestrictiveCases(m, segs);
    var o := Lookup(m, [], segs[..|segs| - 1]);
    if o.Found? {
      assert m[o.at].FileEntry? || m[o.at] == DirEntry;
    }
  }

  /** In restrictive mode a missing ancestor is reported with the parent
      path from that ancestor on. */
  lemma MkdirRestrictiveMissing(m: Fs, segs: Path, i: nat)
    requires |segs| >= 2 && i < |segs| - 1
    ensures MkdirSpec(m, true, segs) == Effect(Fail(NotFound(PathNotFoundError(segs[i..|segs| - 1]))), m)
        <==> OpenUpTo(m, [], segs, i) && segs[..i + 1] !in m
  {
    var n := |segs|;
    PrefixSlices(segs, n - 1, i);
    MkdirNotFoundIff(m, segs, segs[i..n - 1]);
    LookupMissingIff(m, [], segs[..n - 1], i);
    OpenUpToTrim(m, [], segs, n - 1, i);
  }

  /** Permissive `Mkdir` on a path that is already a directory succeeds
      and changes nothing. */
  lemma MkdirExisting(m: Fs, segs: Path)
    requires Valid(m) && |segs| >= 1 && segs in m && m[segs] == DirEntry
    ensures MkdirSpec(m, false, segs) == Effect(Pass, m)
  {
    var n := |segs|;
    OpenToStored(m, segs);
    assert [] + segs[..n] == segs;
    OpenUpToLast(m, [], segs, n);
    MkpathIdempotent(m, [], segs);
  }

  /** Both modes of `Mkdir` keep the view valid. */
  lemma MkdirValid(m: Fs, restrictive: bool, segs: Path)
    requires Valid(m) && |segs| >= 1 && (restrictive ==> |segs| >= 2)
    ensures Valid(MkdirSpec(m, restrictive, segs).fs)
  {
    if !restrictive {
      MkpathValid(m, [], segs);
    } else {
      var n := |segs|;
      MkdirRestrictiveCases(m, segs);
      if MkdirSpec(m, true, segs).out.Pass? {
        assert Parent(segs) == [] + segs[..n - 1];
        AddDirValid(m, segs);
      }
    }
  }

  // ---------------------------------------------------------------------
  // Laws of ReadFile and WriteFile
  // ---------------------------------------------------------------------

  /** In a valid view `ReadFile` returns the content of the file stored at
      the path, if there is one, and refuses a directory. */
  lemma ReadFileIff(m: Fs, segs: Path)
    requires Valid(m) && |segs| >= 1
    ensures ReadSpec(m, segs).Success? <==> segs in m && m[segs].FileEntry?
    ensures ReadSpec(m, segs).Success? ==> ReadSpec(m, segs).value == m[segs].data
    ensures ReadSpec(m, segs) == Failure(NotAFile) <==> segs in m && m[segs] == DirEntry
  {
    LookupFoundIff(m, [], segs);
    assert [] + segs == segs;
    if segs in m {
      OpenToStored(m, segs);
    }
  }

  /** The cases of a restrictive write, by the outcome of the lookup of
      the parent path. */
  lemma WriteRestrictiveCases(m: Fs, segs: Path, data: string)
    requires |segs| >= 2
    ensures var o := Lookup(m, [], segs[..|segs| - 1]);
      && (o.Missing? ==> WriteSpec(m, true, segs, data) == Effect(Fail(NotFound(PathNotFoundError(o.rest))), m))
      && (o.Invalid? ==> WriteSpec(m, true, segs, data) == Effect(Fail(InvalidPath), m))
      && (o.Found? && m[o.at].FileEntry? ==> WriteSpec(m, true, segs, data) == Effect(Fail(InvalidPath), m))
      && (o.Found? && m[o.at] == DirEntry ==>
            WriteSpec(m, true, segs, data) == PutSpec(m, segs[..|segs| - 1], segs[|segs| - 1], data))
  {
  }

  /** A restrictive write fails with not-found for `rest`, changing nothing,
      exactly when the lookup of the parent reports `rest` missing. */
  lemma WriteNotFoundIff(m: Fs, segs: Path, data: string, rest: Path)
    requires |segs| >= 2
    ensures WriteSpec(m, true, segs, data) == Effect(Fail(NotFound(PathNotFoundError(rest))), m)
        <==> Lookup(m, [], segs[..|segs| - 1]) == Missing(rest)
  {
    WriteRestrictiveCases(m, segs, data);
    var o := Lookup(m, [], segs[..|segs| - 1]);
    if o.Found? {
      assert m[o.at].FileEntry? || m[o.at] == DirEntry;
    }
  }

  /** A restrictive write reports a missing ancestor as `Mkdir` does: with
      the parent path from the missing segment `i` on, exactly when the
      ancestors before `i` are directories and segment `i` is absent. */
  lemma WriteRestrictiveMissing(m: Fs, segs: Path, data: string, i: nat)
    requires |segs| >= 2 && i < |segs| - 1
    ensures WriteSpec(m, true, segs, data) == Effect(Fail(NotFound(PathNotFoundError(segs[i..|segs| - 1]))), m)
        <==> OpenUpTo(m, [], segs, i) && segs[..i + 1] !in m
  {
    var n := |segs|;
    PrefixSlices(segs, n - 1, i);
    WriteNotFoundIff(m, segs, data, segs[i..n - 1]);
    LookupMissingIff(m, [], segs[..n - 1], i);
    OpenUpToTrim(m, [], segs, n - 1, i);
  }

  /** The content a path holds before a write: the file's data, or nothing. */
  function Content(m: Fs, segs: Path): string
  {
    if segs in m && m[segs].FileEntry? then m[segs].data else ""
  }

  /** Whether a write can reach its parent directory: every ancestor is a
      directory (restrictive), or none is a file (permissive). */
  ghost predicate ParentReady(m: Fs, restrictive: bool, segs: Path)
    requires |segs| >= 2
  {
    if restrictive then OpenUpTo(m, [], segs, |segs| - 1)
    else NoFileOn(m, [], segs[..|segs| - 1])
  }

  /** The last step of a write into a directory of a valid view succeeds
      unless the name is a directory, leaves a valid view whose file holds the
      old content followed by `data`, and changes nothing when it fails. */
  lemma PutLaws(m: Fs, q: Path, name: string, data: string)
    requires Valid(m) && q in m && m[q] == DirEntry
    ensures var e := PutSpec(m, q, name, data);
      && (e.out.Pass? <==> !(q + [name] in m && m[q + [name]] == DirEntry))
      && (e.out.Fail? ==> e == Effect(Fail(NotAFile), m))
      && (e.out.Pass? ==> Valid(e.fs) && e.fs == m[q + [name] := FileEntry(Content(m, q + [name]) + data)])
  {
    assert Parent(q + [name]) == q;
    assert "" + data == data;
  }

  /** The cases of a permissive write, by the outcome of the walk to the
      parent path. */
  lemma WritePermissiveCases(m: Fs, segs: Path, data: string)
    requires |segs| >= 2
    ensures var made := Mkpath(m, [], segs[..|segs| - 1]);
      && (made.ok ==> WriteSpec(m, false, segs, data) == PutSpec(made.fs, segs[..|segs| - 1], segs[|segs| - 1], data))
      && (!made.ok ==> WriteSpec(m, false, segs, data) == Effect(Fail(InvalidPath), made.fs))
  {
  }

  /** In a valid view every ancestor of a stored path of two or more
      segments is a directory, so the walk to its parent meets no file. */
  lemma StoredParentOpen(m: Fs, segs: Path)
    requires Valid(m) && |segs| >= 2 && segs in m
    ensures OpenUpTo(m, [], segs[..|segs| - 1], |segs| - 1)
    ensures NoFileOn(m, [], segs[..|segs| - 1])
  {
    var n := |segs|;
    OpenToStored(m, segs);
    OpenUpToTrim(m, [], segs, n - 1, n - 1);
    assert segs[..n - 1][..n - 1] == segs[..n - 1];
    OpenNoFile(m, [], segs[..n - 1]);
  }

  /** The walk to the parent of a path adds only paths shorter than it: the
      path itself is kept as it was, and the parent is a directory after a
      successful walk. */
  lemma MkpathBelowParent(m: Fs, segs: Path)
    requires |segs| >= 2 && Mkpath(m, [], segs[..|segs| - 1]).ok
    ensures var made := Mkpath(m, [], segs[..|segs| - 1]).fs;
      && segs[..|segs| - 1] in made && made[segs[..|segs| - 1]] == DirEntry
      && (segs in made <==> segs in m) && (segs in m ==> made[segs] == m[segs])
  {
    var parent := segs[..|segs| - 1];
    MkpathSuccess(m, [], parent);
    assert [] + parent == parent;
    forall q | q in Prefixes([], parent) ensures |q| < |segs| {
      var i :| 1 <= i <= |parent| && q == [] + parent[..i];
    }
  }

  /** A permissive write whose walk to the parent fails: some ancestor is a
      file, so the path is not stored at all, and nothing changes. */
  lemma WritePermissiveBlocked(m: Fs, segs: Path, data: string)
    requires Valid(m) && |segs| >= 2 && !Mkpath(m, [], segs[..|segs| - 1]).ok
    ensures !NoFileOn(m, [], segs[..|segs| - 1]) && segs !in m
    ensures WriteSpec(m, false, segs, data) == Effect(Fail(InvalidPath), m)
  {
    var parent := segs[..|segs| - 1];
    WritePermissiveCases(m, segs, data);
    MkpathOkIff(m, [], parent);
    MkpathFailUnchanged(m, [], parent);
    if segs in m {
      StoredParentOpen(m, segs);
    }
  }

  /** A permissive write whose walk to the parent succeeds: no ancestor is a
      file, and the last step is `PutSpec` on the view the walk left, which
      still holds what the path held before, and is the old view when the
      path was already stored. */
  lemma WritePermissiveMade(m: Fs, segs: Path, data: string)
    requires Valid(m) && |segs| >= 2 && Mkpath(m, [], segs[..|segs| - 1]).ok
    ensures var made := Mkpath(m, [], segs[..|segs| - 1]).fs;
      && NoFileOn(m, [], segs[..|segs| - 1])
      && Valid(made) && segs[..|segs| - 1] in made && made[segs[..|segs| - 1]] == DirEntry
      && (segs in made <==> segs in m) && (segs in m ==> made[segs] == m[segs])
      && (segs in m ==> made == m)
      && WriteSpec(m, false, segs, data) == PutSpec(made, segs[..|segs| - 1], segs[|segs| - 1], data)
  {
    var parent := segs[..|segs| - 1];
    WritePermissiveCases(m, segs, data);
    MkpathOkIff(m, [], parent);
    MkpathValid(m, [], parent);
    MkpathBelowParent(m, segs);
    if segs in m {
      StoredParentOpen(m, segs);
      MkpathIdempotent(m, [], parent);
    }
  }

  /** The outcomes of a permissive write, as for `WriteFileLaws`. */
  lemma WritePermissive(m: Fs, segs: Path, data: string)
    requires Valid(m) && |segs| >= 2
    ensures var e := WriteSpec(m, false, segs, data);
      && (e.out.Pass? <==> NoFileOn(m, [], segs[..|segs| - 1]) && !(segs in m && m[segs] == DirEntry))
      && (e.out.Fail? ==> e.fs == m)
      && (e.out == Fail(NotAFile) <==> segs in m && m[segs] == DirEntry)
      && (e.out.Pass? ==> Valid(e.fs) && e.fs == ParentView(m, false, segs)[segs := FileEntry(Content(m, segs) + data)])
  {
    var n := |segs|;
    var parent := segs[..n - 1];
    var made := Mkpath(m, [], parent);
    if made.ok {
      WritePermissiveMade(m, segs, data);
      assert parent + [segs[n - 1]] == segs;
      PutLaws(made.fs, parent, segs[n - 1], data);
      assert Content(made.fs, segs) == Content(m, segs);
    } else {
      WritePermissiveBlocked(m, segs, data);
    }
  }

  /** The outcomes of a restrictive write, as for `WriteFileLaws`. */
  lemma WriteRestrictive(m: Fs, segs: Path, data: string)
    requires Valid(m) && |segs| >= 2
    ensures var e := WriteSpec(m, true, segs, data);
      && (e.out.Pass? <==> OpenUpTo(m, [], segs, |segs| - 1) && !(segs in m && m[segs] == DirEntry))
      && (e.out.Fail? ==> e.fs == m)
      && (e.out == Fail(NotAFile) <==> segs in m && m[segs] == DirEntry)
      && (e.out.Pass? ==> Valid(e.fs) && e.fs == m[segs := FileEntry(Content(m, segs) + data)])
  {
    var n := |segs|;
    var parent := segs[..n - 1];
    assert parent + [segs[n - 1]] == segs;
    ParentFound(m, segs);
    if segs in m {
      OpenToStored(m, segs);
    }
    var open := OpenUpTo(m, [], segs, n - 1);
    var e := WriteSpec(m, true, segs, data);
    match Lookup(m, [], parent) {
      case Found(q) =>
        if m[q].FileEntry? {
          assert !open;
          assert e.out == Fail(InvalidPath) && e.fs == m;
        } else {
          assert open && e == PutSpec(m, parent, segs[n - 1], data);
          PutLaws(m, parent, segs[n - 1], data);
        }
      case Missing(rest) =>
        assert !open;
        assert e.out.Fail? && e.out.error.NotFound? && e.fs == m;
      case Invalid =>
        assert !open;
        assert e.out == Fail(InvalidPath) && e.fs == m;
    }
  }

  /** `WriteFile` succeeds exactly when the parent can be reached and the
      path is not a directory; it fails with not-a-file exactly when the path
      is a directory; a failure changes nothing; and a success leaves a valid
      view whose file at the path holds the old content followed by `data`,
      which `ReadFile` then returns. */
  lemma WriteFileLaws(m: Fs, restrictive: bool, segs: Path, data: string)
    requires Valid(m) && |segs| >= 2
    ensures var e := WriteSpec(m, restrictive, segs, data);
      && (e.out.Pass? <==> ParentReady(m, restrictive, segs) && !(segs in m && m[segs] == DirEntry))
      && (e.out == Fail(NotAFile) <==> segs in m && m[segs] == DirEntry)
      && (e.out.Fail? ==> e.fs == m)
      && (e.out.Pass? ==> && Valid(e.fs)
                          && e.fs == ParentView(m, restrictive, segs)[segs := FileEntry(Content(m, segs) + data)]
                          && ReadSpec(e.fs, segs) == Success(Content(m, segs) + data))
  {
    if restrictive {
      WriteRestrictive(m, segs, data);
    } else {
      WritePermissive(m, segs, data);
    }
    var e := WriteSpec(m, restrictive, segs, data);
    if e.out.Pass? {
      ReadFileIff(e.fs, segs);
    }
  }

  /** The view a write works in once its parent is reached: the view after
      the walk of `CreatePath` (permissive) or the same view (restrictive). */
  function ParentView(m: Fs, restrictive: bool, segs: Path): Fs
    requires |segs| >= 2
  {
    if restrictive then m else Mkpath(m, [], segs[..|segs| - 1]).fs
  }

  /** The view after writing each of `datas` to the same path, in order. */
  function WriteAll(m: Fs, restrictive: bool, segs: Path, datas: seq<string>): Fs
    requires |segs| >= 2
    decreases |datas|
  {
    if |datas| == 0 then m
    else WriteAll(WriteSpec(m, restrictive, segs, datas[0]).fs, restrictive, segs, datas[1..])
  }

  /** The pieces of `datas` one after the other. */
  function Concat(datas: seq<string>): string
    decreases |datas|
  {
    if |datas| == 0 then "" else datas[0] + Concat(datas[1..])
  }

  /** A write to a path that can be written leaves a valid view in which
      the path is a file holding the old content followed by `data`, and which
      can be written again. */
  lemma WriteReady(m: Fs, restrictive: bool, segs: Path, data: string)
    requires Valid(m) && |segs| >= 2
    requires ParentReady(m, restrictive, segs) && !(segs in m && m[segs] == DirEntry)
    ensures var fs := WriteSpec(m, restrictive, segs, data).fs;
      && Valid(fs) && segs in fs && fs[segs] == FileEntry(Content(m, segs) + data)
      && ParentReady(fs, restrictive, segs)
  {
    WriteFileLaws(m, restrictive, segs, data);
    var fs := WriteSpec(m, restrictive, segs, data).fs;
    var n := |segs|;
    OpenToStored(fs, segs);
    if !restrictive {
      OpenUpToTrim(fs, [], segs, n - 1, n - 1);
      assert segs[..n - 1][..n - 1] == segs[..n - 1];
      OpenNoFile(fs, [], segs[..n - 1]);
    }
  }

  /** Successive writes to a path that can be written leave a valid view
      in which the path is a file holding the old content followed by every
      piece in write order, and which can be written again. */
  lemma {:induction false} WritesAppend(m: Fs, restrictive: bool, segs: Path, datas: seq<string>)
    requires Valid(m) && |segs| >= 2 && |datas| >= 1
    requires ParentReady(m, restrictive, segs) && !(segs in m && m[segs] == DirEntry)
    ensures var fs := WriteAll(m, restrictive, segs, datas);
      && Valid(fs) && segs in fs && fs[segs] == FileEntry(Content(m, segs) + Concat(datas))
      && ParentReady(fs, restrictive, segs)
    decreases |datas|
  {
    WriteReady(m, restrictive, segs, datas[0]);
    var fs := WriteSpec(m, restrictive, segs, datas[0]).fs;
    var c, rest := Content(m, segs), Concat(datas[1..]);
    assert WriteAll(m, restrictive, segs, datas) == WriteAll(fs, restrictive, segs, datas[1..]);
    assert Concat(datas) == datas[0] + rest;
    if |datas| == 1 {
      assert datas[1..] == [];
      assert WriteAll(fs, restrictive, segs, datas[1..]) == fs;
      assert datas[0] + rest == datas[0];
    } else {
      WritesAppend(fs, restrictive, segs, datas[1..]);
      assert Content(fs, segs) == c + datas[0];
      assert (c + datas[0]) + rest == c + (datas[0] + rest);
    }
  }

  /** Successive writes to a path that can be written concatenate: reading
      it back gives the old content followed by every piece in write order,
      and the view stays valid. */
  lemma WritesConcatenate(m: Fs, restrictive: bool, segs: Path, datas: seq<string>)
    requires Valid(m) && |segs| >= 2 && |datas| >= 1
    requires ParentReady(m, restrictive, segs) && !(segs in m && m[segs] == DirEntry)
    ensures Valid(WriteAll(m, restrictive, segs, datas))
    ensures ReadSpec(WriteAll(m, restrictive, segs, datas), segs) == Success(Content(m, segs) + Concat(datas))
  {
    WritesAppend(m, restrictive, segs, datas);
    ReadFileIff(WriteAll(m, restrictive, segs, datas), segs);
  }

  // ---------------------------------------------------------------------
  // Examples
  // ---------------------------------------------------------------------

  /** A new filesystem prints as an empty map. */
  lemma EmptyPrettyPrint()
    ensures Render(Empty, []) == Nested(map[])
  {
    assert Children(Empty, []) == {};
  }

  /** The path "a/b" splits into the segments "a" and "b". */
  lemma ParseExample()
    ensures ParsePathSegments("a/b").0 == ["a", "b"]
  {
    ParseTwo("a", "b");
  }

  /** Empty segments are kept: "a//b" has an empty middle segment. */
  lemma ParseKeepsEmpty()
    ensures ParsePathSegments("a//b").0 == ["a", "", "b"]
  {
    assert "a//b" == "a" + ['/'] + "/b";
    assert "/b" == "" + ['/'] + "b";
    Strings.SplitAtSep("a", "/b", '/');
    Strings.SplitAtSep("", "b", '/');
    Strings.SplitWithoutSep("b", '/');
  }

  /** Walking to "a" in a new filesystem creates that one directory. */
  lemma MkpathExample()
    ensures Mkpath(Empty, [], ["a"]) == Made(Empty[["a"] := DirEntry], true)
  {
    MkpathStep(Empty, [], ["a"]);
    assert [] + ["a"] == ["a"];
  }

  /** In permissive mode, writing "x" to "a/b" in a new filesystem
      succeeds, creating the directory "a" and in it the file "b". */
  lemma WriteExample()
    ensures WriteSpec(Empty, false, ["a", "b"], "x")
            == Effect(Pass, map[[] := DirEntry, ["a"] := DirEntry, ["a", "b"] := FileEntry("x")])
  {
    var segs := ["a", "b"];
    var m1 := Empty[["a"] := DirEntry];
    assert segs[..1] == ["a"];
    MkpathExample();
    WritePermissiveCases(Empty, segs, "x");
    assert ["a"] + ["b"] == ["a", "b"];
  }

  /** The filesystem that write leaves prints as {a: {b: "x"}}. */
  lemma RenderExample()
    ensures Render(map[[] := DirEntry, ["a"] := DirEntry, ["a", "b"] := FileEntry("x")], [])
            == Nested(map["a" := Nested(map["b" := Text("x")])])
  {
    var fs := map[[] := DirEntry, ["a"] := DirEntry, ["a", "b"] := FileEntry("x")];
    assert [] + ["a"] == ["a"] && ["a"] + ["b"] == ["a", "b"];
    assert Children(fs, []) == {"a"} by {
      forall k ensures k in Children(fs, []) <==> k == "a" {
        ChildIn(fs, [], k);
        assert [] + [k] == [k];
      }
    }
    assert Children(fs, ["a"]) == {"b"} by {
      forall k ensures k in Children(fs, ["a"]) <==> k == "b" {
        ChildIn(fs, ["a"], k);
      }
    }
    assert Children(fs, ["a", "b"]) == {} by {
      forall k ensures k !in Children(fs, ["a", "b"]) {
        ChildIn(fs, ["a", "b"], k);
      }
    }
    assert RenderChild(fs, ["a"], "b") == Text("x");
    assert Render(fs, ["a"]) == Nested(map["b" := Text("x")]);
    assert RenderChild(fs, [], "a") == Nested(map["b" := Text("x")]);
  }

  /** In restrictive mode `Mkdir("a/b/c")` on a new filesystem fails with
      not-found for the missing "a/b" and changes nothing. */
  lemma MkdirRestrictiveExample()
    ensures MkdirSpec(Empty, true, ["a", "b", "c"]) == Effect(Fail(NotFound(PathNotFoundError(["a", "b"]))), Empty)
  {
    var segs := ["a", "b", "c"];
    MkdirRestrictiveMissing(Empty, segs, 0);
    assert segs[..1] == ["a"];
    assert segs[0..2] == ["a", "b"];
  }

  /** In permissive mode `Mkdir("a/b/c")` on a new filesystem succeeds and
      creates "a", "a/b" and "a/b/c". */
  lemma MkdirPermissiveExample()
    ensures MkdirSpec(Empty, false, ["a", "b", "c"]).out == Pass
    ensures MkdirSpec(Empty, false, ["a", "b", "c"]).fs.Keys == {[], ["a"], ["a", "b"], ["a", "b", "c"]}
  {
    var segs := ["a", "b", "c"];
    EmptyValid();
    MkdirPermissive(Empty, segs);
    assert NoFileOn(Empty, [], segs);
    MkdirPermissiveGrows(Empty, segs);
    assert Prefixes([], segs) == {["a"], ["a", "b"], ["a", "b", "c"]} by {
      assert [] + segs[..1] == ["a"];
      assert [] + segs[..2] == ["a", "b"];
      assert [] + segs[..3] == ["a", "b", "c"];
    }
  }

  /** Writing "a" and then "b" to the same new path gives "ab" on reading. */
  lemma AppendExample()
    ensures ReadSpec(WriteAll(Empty, false, ["d", "f"], ["a", "b"]), ["d", "f"]) == Success("ab")
  {
    EmptyValid();
    var segs := ["d", "f"];
    assert NoFileOn(Empty, [], segs[..1]);
    WritesConcatenate(Empty, false, segs, ["a", "b"]);
    assert Content(Empty, segs) == "";
    assert ["a", "b"][1..] == ["b"];
    assert ["b"][1..] == [];
    assert Concat(["a", "b"]) == "ab";
    assert "" + "ab" == "ab";
  }

  // ---------------------------------------------------------------------
  // The facade on the directory objects
  // ---------------------------------------------------------------------

  /** `fileSystem`: the root directory (named "" and carrying the options),
      with the ghost address map of its tree and the directory and file
      objects in it. */
  class FileSystem {
    const root: Dir
    ghost var tree: Tree
    ghost var dirs: set<Dir>
    ghost var files: set<File>

    /** The tree is well formed and rooted at `root`. */
    ghost predicate Valid()
      reads this, dirs
    {
      && Wf(tree, dirs, files, root.opt)
      && tree[[]] == DirNode(root)
      && root.name == ""
    }

    /** The filesystem as a map from paths to entries. */
    ghost function Abs(): Fs
      requires Valid()
      reads this, dirs, files
    {
      View(tree, files)
    }

    /** Records a new address map and object sets for the tree, which
        must be well formed and rooted at `root`; the view becomes theirs. */
    ghost method Install(t: Tree, ds: set<Dir>, fs: set<File>)
      requires Wf(t, ds, fs, root.opt) && t[[]] == DirNode(root) && root.name == ""
      modifies this
      ensures tree == t && dirs == ds && files == fs
      ensures Valid() && Abs() == old(View(t, fs))
    {
      tree, dirs, files := t, ds, fs;
    }

    /** `NewFileSystem(opts...)`: the options are the defaults with every
        option applied in order, and the filesystem holds only the root. */
    constructor NewFileSystem(opts: seq<Option>)
      ensures Valid() && Abs() == Empty
      ensures root.opt == Apply(Default, opts)
      ensures fresh(root) && dirs == {root} && files == {}
    {
      var o := Default;
      for i := 0 to |opts|
        invariant o == Apply(Default, opts[..i])
      {
        assert opts[..i + 1] == opts[..i] + [opts[i]];
        ApplySnoc(Default, opts[..i], opts[i]);
        o := opts[i](o);
      }
      assert opts[..|opts|] == opts;
      var d := new Dir("", o);
      RootOnly(d);
      root := d;
      tree := map[[] := DirNode(d)];
      dirs := {d};
      files := {};
    }

    /** `Mkdir(path)`: the outcome and the new view are those of `MkdirSpec`
        on the segments of the path; the tree stays well formed, and no
        file changes. In restrictive mode a path of one segment leaves the
        parent path empty, which the source indexes: it is excluded. */
    method Mkdir(path: string) returns (err: Outcome)
      requires Valid()
      requires root.opt.pFlagDisabled ==> |ParsePathSegments(path).0| >= 2
      modifies this, dirs
      ensures Valid() && files == old(files)
      ensures forall d :: d in dirs ==> d in old(dirs) || fresh(d)
      ensures Effect(err, Abs()) == MkdirSpec(old(Abs()), root.opt.pFlagDisabled, ParsePathSegments(path).0)
    {
      var (segments, _) := ParsePathSegments(path);
      if !root.opt.pFlagDisabled {
        err := MkdirWalking(segments);
      } else {
        err := MkdirInParent(segments);
      }
    }

    /** Permissive `Mkdir`: `CreatePath` over all the segments. */
    method MkdirWalking(segs: Path) returns (err: Outcome)
      requires Valid() && |segs| >= 1
      modifies this, dirs
      ensures Valid() && files == old(files)
      ensures forall d :: d in dirs ==> d in old(dirs) || fresh(d)
      ensures Effect(err, Abs()) == MkdirSpec(old(Abs()), false, segs)
    {
      var r;
      ghost var t', dirs';
      r, t', dirs' := root.CreatePath(segs, tree, dirs, files, []);
      assert [] + segs == segs;
      Install(t', dirs', files);
      err := if r.Success? then Pass else Fail(r.error);
    }

    /** Restrictive `Mkdir`: `Find` the parent, which must be a directory,
        and `CreateDir` the last segment there. */
    method MkdirInParent(segs: Path) returns (err: Outcome)
      requires Valid() && |segs| >= 2
      modifies this, dirs
      ensures Valid() && files == old(files)
      ensures forall d :: d in dirs ==> d in old(dirs) || fresh(d)
      ensures Effect(err, Abs()) == MkdirSpec(old(Abs()), true, segs)
    {
      var n := |segs|;
      var parentPath := segs[..n - 1];
      var name := segs[n - 1];
      ghost var m := Abs();
      MkdirRestrictiveCases(m, segs);
      var parent := root.Find(parentPath, tree, dirs, files, []);
      assert [] + parentPath == parentPath;
      if parent.Failure? {
        return Fail(parent.error);
      }
      if !parent.value.DirNode? {
        return Fail(InvalidPath);
      }
      assert Child(parentPath, name) == segs;
      err := AddDir(parent.value.dir, parentPath, name);
    }

    /** `CreateDir(name)` in the directory `d` at `q`: an already-exists
        failure that changes nothing when the name is taken, and otherwise a
        view with a new directory at `q + [name]`. */
    method AddDir(d: Dir, ghost q: Path, name: string) returns (err: Outcome)
      requires Valid() && q in tree && tree[q] == DirNode(d)
      modifies this, d
      ensures Valid() && files == old(files)
      ensures forall d :: d in dirs ==> d in old(dirs) || fresh(d)
      ensures Child(q, name) in old(Abs()) ==> err == Fail(AlreadyExists(name)) && Abs() == old(Abs())
      ensures Child(q, name) !in old(Abs()) ==> err == Pass && Abs() == old(Abs())[Child(q, name) := DirEntry]
    {
      ghost var s := Snap(dirs);
      ghost var m := Abs();
      ChildOf(tree, s, files, root.opt, q, name);
      var made := d.CreateDir(name);
      if made.Failure? {
        assert Snap(dirs) == s;
        assert unchanged(files);
        assert View(tree, files) == m;
        Install(tree, dirs, files);
        return Fail(made.error);
      }
      ghost var n := DirNode(made.value);
      Grown(tree, s, dirs, files, root.opt, q, d, name, n);
      assert files + FilesOf(n) == files;
      assert unchanged(files);
      assert View(tree, files) == m;
      Install(tree[Child(q, name) := n], dirs + {made.value}, files);
      err := Pass;
    }

    /** `ReadFile(path)`: exactly `ReadSpec` on the segments of the path. */
    function ReadFile(path: string): (r: Result<string>)
      requires Valid()
      reads this, dirs, files
      ensures r == ReadSpec(Abs(), Strings.Split(path, '/'))
    {
      var segments := Strings.Split(path, '/');
      var node := root.Find(segments, tree, dirs, files, []);
      ReadResolved(tree, files, segments, node);
      ReadNode(node)
    }

    /** Storing a new file under the free name `name` of the directory `d`
        at `q`: the view gains that file holding `data`. `CreateFile` cannot
        fail here, as the name is free. */
    method AddFile(d: Dir, ghost q: Path, name: string, data: string)
      requires Valid() && q in tree && tree[q] == DirNode(d) && Child(q, name) !in tree
      modifies this, d
      ensures Valid() && dirs == old(dirs)
      ensures forall f :: f in files ==> f in old(files) || fresh(f)
      ensures Abs() == old(Abs())[Child(q, name) := FileEntry(data)]
    {
      ghost var s := Snap(dirs);
      ghost var m := Abs();
      ChildOf(tree, s, files, root.opt, q, name);
      var created := d.CreateFile(name, data);
      assert created.Pass?;
      ghost var n := d.nodes[name];
      Grown(tree, s, dirs, files, root.opt, q, d, name, n);
      assert dirs + DirsOf(n) == dirs && files + FilesOf(n) == files + {n.file};
      assert unchanged(files);
      assert View(tree, files) == m;
      Install(tree[Child(q, name) := n], dirs, files + {n.file});
    }

    /** `Append` on the file `f` at `p`: the view changes at `p` alone, to
        the old content followed by `data`. */
    method AppendAt(f: File, ghost p: Path, data: string)
      requires Valid() && p in tree && tree[p] == FileNode(f)
      modifies f
      ensures Valid()
      ensures Abs() == old(Abs())[p := FileEntry(old(f.data) + data)]
    {
      ghost var m := Abs();
      forall r | r in tree && r != p ensures tree[r] != FileNode(f) {
        assert !SameNode(tree, r, p);
      }
      f.Append(data);
      ViewAppended(tree, files, m, p, f);
    }

    /** The last step of `WriteFile` in the directory `d` at `q`: the
        outcome and the new view are those of `PutSpec`. The source creates
        the file on any `GetChild` error, which is always a not-found one. */
    method Put(d: Dir, ghost q: Path, name: string, data: string) returns (err: Outcome)
      requires Valid() && q in tree && tree[q] == DirNode(d)
      modifies this, d, files
      ensures Valid() && dirs == old(dirs)
      ensures forall f :: f in files ==> f in old(files) || fresh(f)
      ensures Effect(err, Abs()) == PutSpec(old(Abs()), q, name, data)
    {
      ghost var m := Abs();
      ghost var p := Child(q, name);
      ChildOf(tree, Snap(dirs), files, root.opt, q, name);
      var child := d.GetChild(name);
      if child.Failure? {
        AddFile(d, q, name, data);
        return Pass;
      }
      match child.value {
        case DirNode(_) =>
          return Fail(NotAFile);
        case FileNode(f) =>
          assert m[p] == FileEntry(f.data);
          AppendAt(f, p, data);
          err := Pass;
      }
    }

    /** `WriteFile(path, data)`: the outcome and the new view are those of
        `WriteSpec` on the segments of the path; the tree stays well formed.
        Both modes hand the parent path to a walk that indexes its first
        segment, so a path of one segment is excluded. */
    method WriteFile(path: string, data: string) returns (err: Outcome)
      requires Valid() && |ParsePathSegments(path).0| >= 2
      modifies this, dirs, files
      ensures Valid()
      ensures forall d :: d in dirs ==> d in old(dirs) || fresh(d)
      ensures forall f :: f in files ==> f in old(files) || fresh(f)
      ensures Effect(err, Abs()) == WriteSpec(old(Abs()), root.opt.pFlagDisabled, ParsePathSegments(path).0, data)
    {
      var (segments, _) := ParsePathSegments(path);
      if !root.opt.pFlagDisabled {
        err := WriteWalking(segments, data);
      } else {
        err := WriteInParent(segments, data);
      }
    }

    /** Permissive `WriteFile`: `CreatePath` over the parent path, then `Put`. */
    method WriteWalking(segs: Path, data: string) returns (err: Outcome)
      requires Valid() && |segs| >= 2
      modifies this, dirs, files
      ensures Valid()
      ensures forall d :: d in dirs ==> d in old(dirs) || fresh(d)
      ensures forall f :: f in files ==> f in old(files) || fresh(f)
      ensures Effect(err, Abs()) == WriteSpec(old(Abs()), false, segs, data)
    {
      var n := |segs|;
      var parentPath := segs[..n - 1];
      ghost var m := Abs();
      ghost var made := Mkpath(m, [], parentPath);
      assert [] + parentPath == parentPath;
      var r;
      ghost var t', dirs';
      r, t', dirs' := root.CreatePath(parentPath, tree, dirs, files, []);
      Install(t', dirs', files);
      if r.Failure? {
        assert WriteSpec(m, false, segs, data) == Effect(Fail(InvalidPath), made.fs);
        return Fail(r.error);
      }
      err := Put(r.value, parentPath, segs[n - 1], data);
      assert WriteSpec(m, false, segs, data) == PutSpec(made.fs, parentPath, segs[n - 1], data);
    }

    /** Restrictive `WriteFile`: `Find` the parent, which must be a
        directory, then `Put`. */
    method WriteInParent(segs: Path, data: string) returns (err: Outcome)
      requires Valid() && |segs| >= 2
      modifies this, dirs, files
      ensures Valid()
      ensures forall d :: d in dirs ==> d in old(dirs) || fresh(d)
      ensures forall f :: f in files ==> f in old(files) || fresh(f)
      ensures Effect(err, Abs()) == WriteSpec(old(Abs()), true, segs, data)
    {
      var n := |segs|;
      var parentPath := segs[..n - 1];
      ghost var m := Abs();
      WriteRestrictiveCases(m, segs, data);
      var parent := root.Find(parentPath, tree, dirs, files, []);
      assert [] + parentPath == parentPath;
      if parent.Failure? {
        return Fail(parent.error);
      }
      if !parent.value.DirNode? {
        return Fail(InvalidPath);
      }
      err := Put(parent.value.dir, parentPath, segs[n - 1], data);
    }

    /** `PrettyPrint()`: the nested map of the whole tree, `Render` of the
        view from the root. */
    method PrettyPrint() returns (r: Pretty)
      requires Valid()
      ensures r == Render(Abs(), [])
    {
      r := root.PrettyPrint(tree, dirs, files, []);
    }
  }

  /** Two permissive writes of "x" and "y" to "a/b" in a new filesystem
      read back as "xy". */
  lemma WriteTwiceExample()
    ensures var m1 := WriteSpec(Empty, false, ["a", "b"], "x").fs;
      ReadSpec(WriteSpec(m1, false, ["a", "b"], "y").fs, ["a", "b"]) == Success("xy")
  {
    var segs := ["a", "b"];
    var m1 := map[[] := DirEntry, ["a"] := DirEntry, ["a", "b"] := FileEntry("x")];
    WriteExample();
    assert segs[..1] == ["a"] && ["a"] + ["b"] == segs;
    MkpathStep(m1, [], ["a"]);
    WritePermissiveCases(m1, segs, "y");
    var m2 := m1[segs := FileEntry("xy")];
    assert "x" + "y" == "xy";
    assert Mkpath(m1, [], ["a"]) == Made(m1, true);
    assert PutSpec(m1, ["a"], "b", "y") == Effect(Pass, m2);
    assert WriteSpec(m1, false, segs, "y").fs == m2;
    LookupFoundIff(m2, [], segs);
    assert OpenUpTo(m2, [], segs, 1) by {
      OpenUpToLast(m2, [], segs, 1);
    }
  }

  /** A client of the class: on a new permissive filesystem, writing "x" and
      then "y" to "a/b" and reading "a/b" back gives "xy". */
  method WriteTwiceThenRead() returns (r: Result<string>)
    ensures r == Success("xy")
  {
    var fs := new FileSystem.NewFileSystem([]);
    assert fs.root.opt == Default;
    ParseExample();
    assert ParsePathSegments("a/b").0 == Strings.Split("a/b", '/');
    WriteTwiceExample();
    ghost var segs := ["a", "b"];
    var w1 := fs.WriteFile("a/b", "x");
    ghost var m1 := WriteSpec(Empty, false, segs, "x").fs;
    assert fs.Abs() == m1;
    var w2 := fs.WriteFile("a/b", "y");
    assert fs.Abs() == WriteSpec(m1, false, segs, "y").fs;
    r := fs.ReadFile("a/b");
  }
}
