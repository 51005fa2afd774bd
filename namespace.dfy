/** The abstract view of a filesystem tree: a finite map from paths (lists of
    segment names, the root being the empty path) to what is stored there.
    Directory lookups and path walks of the trie are specified on this view. */
module Namespace {

  type Path = seq<string>

  /** What a path names: a directory, or a file with its content. */
  datatype Entry = DirEntry | FileEntry(data: string)

  type Fs = map<Path, Entry>

  function Parent(p: Path): Path
    requires |p| > 0
  {
    p[..|p| - 1]
  }

  /** A filesystem view: the root is a directory and every other path's
      parent is a directory of the view. */
  ghost predicate Valid(m: Fs)
  {
    && [] in m && m[[]] == DirEntry
    && forall p :: p in m && p != [] ==> Parent(p) in m && m[Parent(p)] == DirEntry
  }

  /** The filesystem with nothing but its root. */
  const Empty: Fs := map[[] := DirEntry]

  lemma EmptyValid()
    ensures Valid(Empty)
  {
  }

  /** A directory added below a directory keeps the view valid. */
  lemma AddDirValid(m: Fs, p: Path)
    requires Valid(m) && |p| > 0 && Parent(p) in m && m[Parent(p)] == DirEntry
    ensures Valid(m[p := DirEntry])
  {
    var m' := m[p := DirEntry];
    forall q | q in m' && q != [] ensures Parent(q) in m' && m'[Parent(q)] == DirEntry {
      if q != p {
        assert Parent(q) in m;
      }
    }
  }

  /** In a valid view every prefix of a path in the view is in the view, and
      every proper prefix is a directory. */
  lemma {:induction false} PrefixIn(m: Fs, q: Path, r: Path)
    requires Valid(m) && q in m && r <= q
    ensures r in m
    ensures r < q ==> m[r] == DirEntry
    decreases |q|
  {
    if r != q {
      assert r <= Parent(q);
      if r != Parent(q) {
        PrefixIn(m, Parent(q), r);
      }
    }
  }

  // ---------------------------------------------------------------------
  // Walking a path
  // ---------------------------------------------------------------------

  /** The first `n` segments of `path`, walked from `at`, are all directories. */
  ghost predicate OpenUpTo(m: Fs, at: Path, path: Path, n: nat)
    requires n <= |path|
  {
    forall i :: 1 <= i <= n ==> at + path[..i] in m && m[at + path[..i]] == DirEntry
  }

  /** Whether the first `n` segments are directories depends on those
      segments alone. */
  lemma OpenUpToTrim(m: Fs, at: Path, path: Path, k: nat, n: nat)
    requires n <= k <= |path|
    ensures OpenUpTo(m, at, path[..k], n) <==> OpenUpTo(m, at, path, n)
  {
    forall i | 1 <= i <= n ensures path[..k][..i] == path[..i] {
    }
  }

  /** Walking `n` directories is walking `n - 1` and finding a directory at
      the `n`-th segment. */
  lemma OpenUpToLast(m: Fs, at: Path, path: Path, n: nat)
    requires 1 <= n <= |path|
    ensures OpenUpTo(m, at, path, n) <==>
      OpenUpTo(m, at, path, n - 1) && at + path[..n] in m && m[at + path[..n]] == DirEntry
  {
  }

  /** In a valid view every segment before the last of a stored path is a
      directory. */
  lemma OpenToStored(m: Fs, path: Path)
    requires Valid(m) && path in m && |path| > 0
    ensures OpenUpTo(m, [], path, |path| - 1)
  {
    forall i | 1 <= i <= |path| - 1 ensures [] + path[..i] in m && m[[] + path[..i]] == DirEntry {
      assert [] + path[..i] == path[..i];
      PrefixIn(m, path, path[..i]);
    }
  }

  /** Slices of a prefix of `path` are slices of `path`. */
  lemma PrefixSlices(path: Path, k: nat, i: nat)
    requires i < k <= |path|
    ensures path[..k][i..] == path[i..k]
    ensures [] + path[..k][..i + 1] == path[..i + 1]
  {
    assert path[..k][..i + 1] == path[..i + 1];
  }

  lemma ShiftPrefix(at: Path, path: Path, i: nat)
    requires 0 <= i < |path|
    ensures at + path[..i + 1] == (at + [path[0]]) + path[1..][..i]
  {
    assert path[..i + 1] == [path[0]] + path[1..][..i];
  }

  /** Walking `n + 1` directories from `at` is stepping into the first one
      and walking `n` from there. */
  lemma OpenUpToShift(m: Fs, at: Path, path: Path, n: nat)
    requires n + 1 <= |path|
    ensures OpenUpTo(m, at, path, n + 1) <==>
      (at + [path[0]] in m && m[at + [path[0]]] == DirEntry && OpenUpTo(m, at + [path[0]], path[1..], n))
  {
    forall i | 0 <= i <= n {
      ShiftPrefix(at, path, i);
    }
    assert at + path[..1] == at + [path[0]];
    if OpenUpTo(m, at, path, n + 1) {
      forall i | 1 <= i <= n
        ensures (at + [path[0]]) + path[1..][..i] in m
        ensures m[(at + [path[0]]) + path[1..][..i]] == DirEntry
      {
        assert at + path[..i + 1] in m;
      }
    }
    if at + [path[0]] in m && m[at + [path[0]]] == DirEntry && OpenUpTo(m, at + [path[0]], path[1..], n) {
      forall i | 1 <= i <= n + 1
        ensures at + path[..i] in m && m[at + path[..i]] == DirEntry
      {
        if i > 1 { assert (at + [path[0]]) + path[1..][..i - 1] in m; }
      }
    }
  }

  /** How a lookup ends: at a node, at a missing segment (with the rest of
      the path from there), or at a file that a later segment would have to
      pass through. */
  datatype Resolution = Found(at: Path) | Missing(rest: Path) | Invalid

  /** The walk of `Dir.Find`: look `path` up below `at`, segment by segment. */
  function Lookup(m: Fs, at: Path, path: Path): (r: Resolution)
    requires |path| > 0
    ensures r.Found? ==> r.at == at + path && r.at in m
    ensures r.Missing? ==> 1 <= |r.rest| <= |path|
    decreases |path|
  {
    var p := at + [path[0]];
    if p !in m then Missing(path)
    else if |path| == 1 then Found(p)
    else if m[p].FileEntry? then Invalid
    else
      assert p + path[1..] == at + path;
      Lookup(m, p, path[1..])
  }

  /** A lookup that stops at a missing segment reports the path from that
      segment on. */
  lemma {:induction false} LookupMissingSuffix(m: Fs, at: Path, path: Path)
    requires |path| > 0
    ensures var r := Lookup(m, at, path);
      r.Missing? ==> r.rest == path[|path| - |r.rest|..]
    decreases |path|
  {
    var p := at + [path[0]];
    if p in m && |path| > 1 && m[p] == DirEntry {
      LookupMissingSuffix(m, p, path[1..]);
      var r := Lookup(m, p, path[1..]);
      if r.Missing? {
        assert path[1..][|path| - 1 - |r.rest|..] == path[|path| - |r.rest|..];
      }
    }
  }

  /** A lookup finds its target exactly when every segment but the last is a
      directory and the full path exists (as a file or a directory). */
  lemma {:induction false} LookupFoundIff(m: Fs, at: Path, path: Path)
    requires |path| > 0
    ensures Lookup(m, at, path).Found? <==> OpenUpTo(m, at, path, |path| - 1) && at + path in m
    decreases |path|
  {
    var p := at + [path[0]];
    if |path| == 1 {
      assert path == [path[0]];
    } else {
      OpenUpToShift(m, at, path, |path| - 2);
      assert p + path[1..] == at + path;
      if p in m && m[p] == DirEntry {
        LookupFoundIff(m, p, path[1..]);
      } else {
        assert !Lookup(m, at, path).Found?;
      }
    }
  }

  /** A lookup reports segment `i` missing, with the suffix from `i` on,
      exactly when the first `i` segments are directories and segment `i` is
      absent. */
  lemma {:induction false} LookupMissingIff(m: Fs, at: Path, path: Path, i: nat)
    requires i < |path|
    ensures Lookup(m, at, path) == Missing(path[i..]) <==>
      OpenUpTo(m, at, path, i) && at + path[..i + 1] !in m
    decreases |path|
  {
    var p := at + [path[0]];
    assert at + path[..1] == p;
    if i == 0 {
      if p in m && |path| > 1 && m[p] == DirEntry {
        var r := Lookup(m, p, path[1..]);
        assert r.Missing? ==> |r.rest| < |path|;
      }
    } else {
      OpenUpToShift(m, at, path, i - 1);
      ShiftPrefix(at, path, i);
      assert path[1..][i - 1..] == path[i..];
      if p in m && |path| > 1 && m[p] == DirEntry {
        LookupMissingIff(m, p, path[1..], i - 1);
      } else if p !in m {
        assert |path[i..]| < |path|;
      }
    }
  }

  /** A lookup ends in an invalid path exactly when some non-final segment,
      reached through directories, is a file: a file in the middle of a path
      is never reported as missing. */
  lemma {:induction false} LookupInvalidIff(m: Fs, at: Path, path: Path)
    requires |path| > 0
    ensures Lookup(m, at, path).Invalid? <==>
      exists i :: 0 <= i < |path| - 1 && OpenUpTo(m, at, path, i)
                  && at + path[..i + 1] in m && m[at + path[..i + 1]].FileEntry?
    decreases |path|
  {
    var p := at + [path[0]];
    assert at + path[..1] == p;
    if |path| > 1 && p in m && m[p] == DirEntry {
      LookupInvalidIff(m, p, path[1..]);
      if Lookup(m, at, path).Invalid? {
        var j :| 0 <= j < |path[1..]| - 1 && OpenUpTo(m, p, path[1..], j)
                 && p + path[1..][..j + 1] in m && m[p + path[1..][..j + 1]].FileEntry?;
        OpenUpToShift(m, at, path, j);
        ShiftPrefix(at, path, j + 1);
      } else {
        forall i | 0 <= i < |path| - 1 && OpenUpTo(m, at, path, i) && at + path[..i + 1] in m
          ensures !m[at + path[..i + 1]].FileEntry?
        {
          if i > 0 {
            OpenUpToShift(m, at, path, i - 1);
            ShiftPrefix(at, path, i);
          }
        }
      }
    } else if |path| > 1 && p in m {
      assert OpenUpTo(m, at, path, 0);
    } else if |path| > 1 {
      assert p !in m;
      forall i | 0 <= i < |path| - 1 && OpenUpTo(m, at, path, i) && at + path[..i + 1] in m
        ensures false
      {
      }
    }
  }

  // ---------------------------------------------------------------------
  // Creating a path
  // ---------------------------------------------------------------------

  /** The result of walking a path while creating missing directories: the
      new view, and whether the walk reached its end. */
  datatype Made = Made(fs: Fs, ok: bool)

  /** The walk of `Dir.CreatePath`: each missing segment becomes a new empty
      directory; a segment that is a file stops the walk. */
  function Mkpath(m: Fs, at: Path, path: Path): Made
    requires |path| > 0
    decreases |path|
  {
    var p := at + [path[0]];
    var m1 := if p in m then m else m[p := DirEntry];
    if m1[p].FileEntry? then Made(m1, false)
    else if |path| == 1 then Made(m1, true)
    else Mkpath(m1, p, path[1..])
  }

  /** One step of the walk: the first segment is opened, or created as a
      directory, and the walk stops there or goes on below it. */
  lemma MkpathStep(m: Fs, at: Path, path: Path)
    requires |path| > 0
    ensures var p := at + [path[0]];
      var m1 := if p in m then m else m[p := DirEntry];
      && (|path| == 1 ==> at + path == p)
      && (|path| > 1 ==> p + path[1..] == at + path)
      && Mkpath(m, at, path) ==
           if m1[p].FileEntry? then Made(m1, false)
           else if |path| == 1 then Made(m1, true)
           else Mkpath(m1, p, path[1..])
  {
    if |path| == 1 {
      assert path == [path[0]];
    } else {
      assert (at + [path[0]]) + path[1..] == at + path;
    }
  }

  /** The paths of the directories a walk of `path` from `at` passes. */
  function Prefixes(at: Path, path: Path): set<Path>
  {
    set i | 1 <= i <= |path| :: at + path[..i]
  }

  /** No path in the view lies strictly below `at`. */
  ghost predicate Leaf(m: Fs, at: Path)
  {
    forall q :: q in m ==> !(at < q)
  }

  /** Walking below a directory that has nothing under it always succeeds. */
  lemma {:induction false} MkpathBelowLeaf(m: Fs, at: Path, path: Path)
    requires |path| > 0
    requires Leaf(m, at)
    ensures Mkpath(m, at, path).ok
    decreases |path|
  {
    var p := at + [path[0]];
    assert at < p;
    if |path| > 1 {
      var m1 := m[p := DirEntry];
      assert Leaf(m1, p);
      MkpathBelowLeaf(m1, p, path[1..]);
    }
  }

  /** A walk that creates a directory never fails afterwards; hence a failed
      walk leaves the view as it was (there is nothing to roll back). */
  lemma {:induction false} MkpathFailUnchanged(m: Fs, at: Path, path: Path)
    requires |path| > 0
    requires Valid(m)
    requires !Mkpath(m, at, path).ok
    ensures Mkpath(m, at, path).fs == m
    decreases |path|
  {
    var p := at + [path[0]];
    if p !in m {
      var m1 := m[p := DirEntry];
      assert |path| > 1;
      forall q | q in m1 ensures !(p < q) {
        if q in m && p < q { PrefixIn(m, q, p); }
      }
      MkpathBelowLeaf(m1, p, path[1..]);
    } else if m[p] == DirEntry && |path| > 1 {
      MkpathFailUnchanged(m, p, path[1..]);
    }
  }

  /** A path whose every prefix is a directory has no file on it. */
  lemma OpenNoFile(m: Fs, at: Path, path: Path)
    requires OpenUpTo(m, at, path, |path|)
    ensures NoFileOn(m, at, path)
  {
  }

  /** No path the walk passes is a file. */
  ghost predicate NoFileOn(m: Fs, at: Path, path: Path)
  {
    forall i :: 1 <= i <= |path| && at + path[..i] in m ==> m[at + path[..i]] == DirEntry
  }

  lemma NoFileOnShift(m: Fs, at: Path, path: Path)
    requires |path| > 1
    ensures NoFileOn(m, at, path) <==>
      (at + [path[0]] in m ==> m[at + [path[0]]] == DirEntry) && NoFileOn(m, at + [path[0]], path[1..])
  {
    assert at + path[..1] == at + [path[0]];
    forall i | 0 <= i < |path| {
      ShiftPrefix(at, path, i);
    }
    if (at + [path[0]] in m ==> m[at + [path[0]]] == DirEntry) && NoFileOn(m, at + [path[0]], path[1..]) {
      forall i | 1 <= i <= |path| && at + path[..i] in m
        ensures m[at + path[..i]] == DirEntry
      {
        if i > 1 { assert at + path[..i] == (at + [path[0]]) + path[1..][..i - 1]; }
      }
    }
  }

  /** A walk succeeds exactly when no path it passes is a file. */
  lemma {:induction false} MkpathOkIff(m: Fs, at: Path, path: Path)
    requires |path| > 0
    requires Valid(m)
    ensures Mkpath(m, at, path).ok <==> NoFileOn(m, at, path)
    decreases |path|
  {
    var p := at + [path[0]];
    assert at + path[..1] == p;
    if |path| > 1 {
      NoFileOnShift(m, at, path);
      if p !in m {
        var m1 := m[p := DirEntry];
        forall q | q in m1 ensures !(p < q) {
          if q in m && p < q { PrefixIn(m, q, p); }
        }
        MkpathBelowLeaf(m1, p, path[1..]);
        forall i | 1 <= i <= |path[1..]| ensures p + path[1..][..i] !in m {
          if p + path[1..][..i] in m { PrefixIn(m, p + path[1..][..i], p); }
        }
      } else if m[p] == DirEntry {
        MkpathOkIff(m, p, path[1..]);
      }
    }
  }

  /** A walk keeps every entry of the view and adds only directories, all of
      them on the walked path. */
  lemma {:induction false} MkpathKeeps(m: Fs, at: Path, path: Path)
    requires |path| > 0
    ensures var fs := Mkpath(m, at, path).fs;
      && (forall q :: q in m ==> q in fs && fs[q] == m[q])
      && (forall q :: q in fs && q !in m ==> q in Prefixes(at, path) && fs[q] == DirEntry)
    decreases |path|
  {
    var p := at + [path[0]];
    var m1 := if p in m then m else m[p := DirEntry];
    assert p == at + path[..1];
    if m1[p] == DirEntry && |path| > 1 {
      MkpathKeeps(m1, p, path[1..]);
      forall q | q in Prefixes(p, path[1..]) ensures q in Prefixes(at, path) {
        var i :| 1 <= i <= |path[1..]| && q == p + path[1..][..i];
        ShiftPrefix(at, path, i);
      }
    }
  }

  /** A successful walk leaves every path it passes a directory. */
  lemma {:induction false} MkpathOpens(m: Fs, at: Path, path: Path)
    requires |path| > 0
    requires Mkpath(m, at, path).ok
    ensures OpenUpTo(Mkpath(m, at, path).fs, at, path, |path|)
    decreases |path|
  {
    var p := at + [path[0]];
    var m1 := if p in m then m else m[p := DirEntry];
    var fs := Mkpath(m, at, path).fs;
    assert p == at + path[..1];
    if |path| > 1 {
      MkpathOpens(m1, p, path[1..]);
      MkpathKeeps(m1, p, path[1..]);
      OpenUpToShift(fs, at, path, |path| - 1);
    }
  }

  /** On success the view gains exactly the directories the path lacked,
      keeps every entry it had, and the lookup of the path from `at` then
      finds a directory. */
  lemma MkpathSuccess(m: Fs, at: Path, path: Path)
    requires |path| > 0
    requires Mkpath(m, at, path).ok
    ensures var fs := Mkpath(m, at, path).fs;
      && fs.Keys == m.Keys + Prefixes(at, path)
      && (forall q :: q in m ==> fs[q] == m[q])
      && Lookup(fs, at, path) == Found(at + path) && fs[at + path] == DirEntry
  {
    var fs := Mkpath(m, at, path).fs;
    MkpathKeeps(m, at, path);
    MkpathOpens(m, at, path);
    forall q | q in Prefixes(at, path) ensures q in fs {
      var i :| 1 <= i <= |path| && q == at + path[..i];
    }
    assert at + path[..|path|] == at + path;
    LookupFoundIff(fs, at, path);
  }

  /** Creating a path whose every segment is already a directory changes
      nothing and succeeds. */
  lemma {:induction false} MkpathIdempotent(m: Fs, at: Path, path: Path)
    requires |path| > 0
    requires OpenUpTo(m, at, path, |path|)
    ensures Mkpath(m, at, path) == Made(m, true)
    decreases |path|
  {
    OpenUpToShift(m, at, path, |path| - 1);
    if |path| > 1 {
      MkpathIdempotent(m, at + [path[0]], path[1..]);
    }
  }

  /** Every walk, successful or not, yields a valid view. */
  lemma {:induction false} MkpathValid(m: Fs, at: Path, path: Path)
    requires |path| > 0
    requires Valid(m) && at in m && m[at] == DirEntry
    ensures Valid(Mkpath(m, at, path).fs)
    decreases |path|
  {
    var p := at + [path[0]];
    var m1 := if p in m then m else m[p := DirEntry];
    if p !in m {
      assert Parent(p) == at;
      AddDirValid(m, p);
    }
    if m1[p] == DirEntry && |path| > 1 {
      MkpathValid(m1, p, path[1..]);
    }
  }

  // ---------------------------------------------------------------------
  // The nested-map export
  // ---------------------------------------------------------------------

  /** The exported shape of a tree: a file's content, or a map from child
      names to their shapes. */
  datatype Pretty = Text(text: string) | Nested(children: map<string, Pretty>)

  /** The names of the entries directly below `at`. */
  function Children(m: Fs, at: Path): set<string>
  {
    set q | q in m && |q| == |at| + 1 && q[..|at|] == at :: q[|at|]
  }

  lemma ChildIn(m: Fs, at: Path, k: string)
    ensures k in Children(m, at) <==> at + [k] in m
  {
    if k in Children(m, at) {
      var q :| q in m && |q| == |at| + 1 && q[..|at|] == at && q[|at|] == k;
      assert q == at + [k];
    }
    if at + [k] in m {
      var q := at + [k];
      assert q[..|at|] == at && q[|at|] == k;
    }
  }

  /** The paths of the view at or below `at`. */
  function Below(keys: set<Path>, at: Path): set<Path>
  {
    set q | q in keys && at <= q
  }

  lemma BelowShrinks(keys: set<Path>, at: Path, k: string)
    requires at in keys
    ensures Below(keys, at + [k]) < Below(keys, at)
  {
    assert at !in Below(keys, at + [k]);
  }

  /** The nested map `Dir.PrettyPrint` builds for the directory at `at`. */
  function Render(m: Fs, at: Path): (r: Pretty)
    requires at in m
    ensures r.Nested? && r.children.Keys == Children(m, at)
    decreases Below(m.Keys, at), 1
  {
    Nested(map k | k in Children(m, at) :: RenderChild(m, at, k))
  }

  /** The shape stored under child `k` of `at`: a file's content or the
      directory's own nested map. */
  function RenderChild(m: Fs, at: Path, k: string): Pretty
    requires at in m && k in Children(m, at)
    decreases Below(m.Keys, at), 0
  {
    ChildIn(m, at, k);
    BelowShrinks(m.Keys, at, k);
    match m[at + [k]]
    case FileEntry(d) => Text(d)
    case DirEntry => Render(m, at + [k])
  }
}
