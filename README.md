# go-memory-filesystem in Dafny

This project models an in-memory, hierarchical filesystem and proves properties about it. The filesystem is a trie of named nodes:

- A **directory** (`dir`) maps child names to child nodes.
- A **file** (`file`) holds a name and text content that can only grow.

The root is an unnamed directory. A path string is split on `/` into segments and walked from the root one segment at a time. The facade offers four operations:

- `Mkdir(path)` creates a directory.
- `WriteFile(path, data)` creates a file with `data`, or appends `data` to an existing file.
- `ReadFile(path)` returns a file's content.
- `PrettyPrint()` returns the nested-map rendering of the whole tree.

A construction-time option, `DisablePFlag()`, switches the filesystem from *permissive* to *restrictive* mode:

- In permissive mode, `Mkdir` and `WriteFile` create every missing ancestor directory (`mkdir -p`).
- In restrictive mode, they want the parent to exist already.

Failures are values of one error datatype:

- not-found, carrying the segment path that was missing;
- already-exists, carrying the name;
- invalid path, when a file stands where a directory is needed;
- non-file, when reading or writing a directory.

## How the model is layered

- `Strings` (strings.dfy). Go's `strings.Split` and `strings.Join` on one separator, and the laws that make them inverse to each other.
- `Errors` (errors.dfy). The `pathNotFoundError` type with its message and its `Is` matcher, the package-level sentinel, and the error kinds of the facade. `Result` and `Outcome` are the two error-carrying return shapes.
- `Config` (options.dfy). `fileSystemOptions`, the functional option `DisablePFlag` and the left-to-right folding of options that `NewFileSystem` performs.
- `Namespace` (namespace.dfy). The abstract filesystem `Fs`, a map from segment paths to `DirEntry` or `FileEntry(data)`. `Valid` says:
  - the root is a directory;
  - the map is closed under prefixes;
  - only directories have children.

  On this map it defines three reference operations, one per recursive walk of dir.go, each with its laws:
  - `Lookup` (the walk of `Find`);
  - `Mkpath` (the walk of `CreatePath`);
  - `Render` (the nested map of `PrettyPrint`).
- `Files` (file.dfy). class `File`, whose `Append` updates the content in place.
- `Dirs` (dir.dfy). class `Dir`, which holds a mutable `nodes` map from names to `Node`s (a `FileNode` or a `DirNode`).
  - The heap is tied to the abstract map by a ghost address map `Tree` (path ↦ node object) and the invariant `Wf`. `Wf` says that:
    - every directory's children sit one level below it, under their own names;
    - no object sits at two paths;
    - every directory shares the filesystem's options.
  - `View` reads the abstract `Fs` off the heap.
  - `Find`, `CreatePath` and `PrettyPrint` are proved against the `Namespace` function they implement (`Lookup`, `Mkpath` and `Render`). They state the resulting view. These recursive methods take the ghost tree and the path of `this` as extra ghost parameters.
  - `OpenChild` is one step of `CreatePath`. Its contract spells out that step of `Mkpath` as an explicit map update: the view is unchanged when the child exists, and otherwise gains a directory entry for it.
  - `GetChild`, `CreateDir` and `CreateFile` act on one directory. Their contracts are stated directly on its `nodes` map.
- `FileSystems` (filesystem.dfy).
  - The facade class `FileSystem`. Its ghost `tree`, `dirs` and `files` make `Abs()` the abstract filesystem.
  - The path parser.
  - One specification function per facade operation: `MkdirSpec`, `ReadSpec` and `WriteSpec` (the latter through `PutSpec`, the last step of `WriteFile`).
  - The lemmas that characterise each specification function. They cover when it succeeds, which error it returns and why, that a failure changes nothing, and that `Valid` is preserved. They also prove that repeated writes concatenate.

The state-changing facade methods `Mkdir` and `WriteFile` are stated as `Effect(err, Abs()) == XSpec(old(Abs()), …)`, with `MkdirSpec` or `WriteSpec` in place of `XSpec`. Their helper methods follow the same pattern with `MkdirSpec`, `WriteSpec` or `PutSpec`. The queries are stated as equalities:

- `ReadFile` returns `ReadSpec(Abs(), …)`.
- `PrettyPrint` returns `Render(Abs(), [])`.
- `NewFileSystem` yields `Abs() == Empty`.

So everything proved about a specification function holds for the heap operation.

These methods also state that every directory and file object they add to the tracked sets is freshly allocated, and `NewFileSystem` states that it tracks only its fresh root. So a client can call one operation after another. `FileSystems.WriteTwiceThenRead` is such a client: it builds a filesystem, writes twice and reads the concatenation back.

The ghost method `FileSystem.Install` is proof bookkeeping with no counterpart in the source. It records a new address map and new object sets after an operation.

Four more lemmas only unfold a definition for the proofs:
- `Dirs.Shown` unfolds `View` at one path.
- `FileSystems.MkdirRestrictiveCases` unfolds `MkdirSpec` per case.
- `FileSystems.WriteRestrictiveCases` and `FileSystems.WritePermissiveCases` unfold `WriteSpec` per case.

What they support is stated by `ReadResolved`, `MkdirRestrictive`, `MkdirNotFoundIff`, `WriteRestrictive`, `WriteNotFoundIff` and `WritePermissive`.

## Behaviour worth noting

- Reading or writing a path that names a directory fails with its own non-file error, `NotAFile` (filesystem.go:116-119 and 160-163).
- The not-found error from `Find` carries the segments from the first missing one to the end of the path. The recursion passes `Find` only the suffix that reached it (dir.go:105 and 121).
- Permissive `Mkdir` on an existing directory succeeds. It never reports already-exists, because `CreatePath` reuses existing directories (dir.go:71-81). Already-exists comes only from restrictive `Mkdir` (filesystem.go:88-90).
- `CreatePath` does not roll back directories it created before failing. In the sequential model nothing is ever created before a failure (`Namespace.MkpathFailUnchanged`), because a file can only sit below existing directories.

## Model

| member | source | states |
|---|---|---|
| Strings.Split | filesystem.go:172 | splitting on a separator yields at least one piece, and no piece contains the separator |
| Strings.JoinSplit | filesystem.go:172 | joining the pieces of a split with the same separator gives the original string back |
| Strings.SplitJoin | filesystem.go:172 | splitting a join of separator-free pieces gives the pieces back |
| Strings.SplitWithoutSep | filesystem.go:172 | a string without the separator splits into itself alone |
| Strings.SplitAtSep | filesystem.go:172 | a separator after a separator-free prefix ends the first piece |
| Errors.NewPathNotFoundError | errors.go:11-15 | the error carries exactly the given segment path and matches the sentinel |
| Errors.PathNotFoundError.Is | errors.go:26-32 | matches exactly the errors that are path-not-found errors, whatever path they carry |
| Errors.PathNotFoundError.Message | errors.go:22-24 | definition: the segments joined with `/`, quoted in "path '…' does not exist"; its law is `MessageOfSplitPath` |
| Errors.Sentinel | errors.go:9 | definition: the not-found value that callers match against; `NewPathNotFoundError` proves that every not-found error matches it |
| Strings.Join | errors.go:23 | definition: the pieces with the separator between them; its laws are `JoinSplit` and `SplitJoin` |
| Errors.MessageOfSplitPath | errors.go:22-24 | the message of an error built from a split path quotes the original path string |
| Config.DisablePFlag | filesystem.go:28-33 | the option sets the flag and leaves every other field unchanged |
| Config.Apply | filesystem.go:42-45 | definition: the options applied to a start value one after the other, first to last; its laws are `ApplySnoc`, `ApplyConcat` and `ApplyDisableOnly` |
| Config.ApplySnoc | filesystem.go:42-45 | applying one more option applies it to the result of the earlier ones |
| Config.ApplyConcat | filesystem.go:42-45 | options fold left to right, so a list split in two applies its halves in turn |
| Config.ApplyDisableOnly | filesystem.go:41-45 | without options the filesystem is permissive; with only `DisablePFlag` options it is restrictive exactly when there is at least one |
| Files.File.constructor | dir.go:58-61 | a new file has the given name and initial content |
| Files.File.Append | file.go:17-19 | the content becomes the old content followed by the data, and grows by exactly its length |
| Namespace.EmptyValid | filesystem.go:47-53 | the filesystem with only an empty root directory is well formed |
| Namespace.AddDirValid | dir.go:40-46 | adding a directory under an existing directory keeps the filesystem well formed |
| Namespace.PrefixIn | dir.go:113-121 | in a well-formed filesystem every proper prefix of a stored path is a stored directory |
| Namespace.OpenToStored | dir.go:113-121 | every ancestor of a stored path is an existing directory |
| Namespace.Lookup | dir.go:100-122 | a found node sits at the walked path and exists; a missing rest is a non-empty part of the path |
| Namespace.LookupMissingSuffix | dir.go:103-106 | the not-found payload is a suffix of the path looked up: the segments from the missing one to the end |
| Namespace.LookupFoundIff | dir.go:100-122 | lookup finds a node iff every proper prefix is a directory and the full path exists |
| Namespace.LookupMissingIff | dir.go:103-106 | lookup reports the suffix from segment i as missing iff the first i prefixes are directories and prefix i+1 is absent |
| Namespace.LookupInvalidIff | dir.go:113-117 | lookup reports an invalid path iff, after some run of directories, a file stands before the final segment |
| Namespace.Prefixes | dir.go:68-97 | definition: the directories a walk of `CreatePath` passes; its laws are `MkpathKeeps` and `MkpathSuccess` |
| Namespace.Mkpath | dir.go:68-97 | definition: the walk of `CreatePath` on the abstract filesystem, reusing or creating each directory and stopping at a file; its laws are `MkpathOkIff`, `MkpathKeeps`, `MkpathOpens`, `MkpathSuccess`, `MkpathIdempotent`, `MkpathFailUnchanged` and `MkpathValid` |
| Namespace.RenderChild | dir.go:149-153 | definition: a file child renders as its content, a directory child as its own nested map; its law is `Render` |
| Namespace.MkpathBelowLeaf | dir.go:78-81 | below a directory with nothing under it, creating a path always succeeds |
| Namespace.MkpathFailUnchanged | dir.go:84-87 | in a well-formed filesystem a failed path creation has created nothing |
| Namespace.MkpathOkIff | dir.go:68-97 | path creation succeeds iff no segment of the path is a file |
| Namespace.MkpathKeeps | dir.go:68-97 | path creation keeps every existing entry, and every new entry is a directory on the path |
| Namespace.MkpathOpens | dir.go:68-97 | after a successful path creation every segment of the path is a directory |
| Namespace.MkpathSuccess | dir.go:68-97 | a successful path creation adds exactly the missing prefixes, keeps all entries, and leaves a directory that lookup then finds |
| Namespace.MkpathIdempotent | dir.go:71-91 | creating a path whose segments all exist as directories succeeds and changes nothing |
| Namespace.MkpathValid | dir.go:68-97 | path creation keeps the filesystem well formed |
| Namespace.ChildIn | dir.go:145-158 | a name is a child of a directory iff the path one level below it under that name exists |
| Namespace.Render | dir.go:145-158 | a directory renders as a nested map whose keys are exactly its children's names |
| Dirs.ChildOf | dir.go:126-143 | a name is stored in a directory's map iff the path one level below exists, and that path holds the stored node |
| Dirs.ChildNamed | dir.go:40-46 | every child is stored under its own name |
| Dirs.ViewValid | dir.go:21-26 | the abstract view of a well-formed heap is a well-formed filesystem |
| Dirs.RootOnly | filesystem.go:47-53 | a lone empty root directory forms a well-formed heap whose view is the empty filesystem |
| Dirs.Grown | dir.go:46 | storing a new child under an absent name keeps the heap well formed and adds exactly that entry to the view |
| Dirs.Dir.constructor | filesystem.go:48-52 | a new directory has the given name and options and no children |
| Dirs.Dir.GetChild | dir.go:126-134 | succeeds iff the child exists (`HasChild`), returns the stored node, and otherwise fails with not-found carrying just the name |
| Dirs.Dir.CreateDir | dir.go:35-49 | fails with already-exists and no change iff the name is taken; otherwise stores a fresh empty directory with that name and the same options |
| Dirs.Dir.CreateFile | dir.go:53-64 | fails with already-exists and no change iff the name is taken; otherwise stores a fresh file with that name and content |
| Dirs.Dir.Find | dir.go:100-122 | the node found, or the not-found or invalid-path error, is exactly what the abstract lookup gives on the view |
| Dirs.Dir.OpenChild | dir.go:71-81 | returns the existing child, or a new empty directory stored under the name; the node bears the name, and the view gains the directory only if it was absent |
| Dirs.Dir.CreatePath | dir.go:68-97 | the view changes exactly as abstract path creation says; it succeeds iff that does, returning the directory now at the end of the path, and otherwise fails with invalid path |
| Dirs.Dir.PrettyPrint | dir.go:145-158 | the result is the abstract rendering: one key per child, a file child mapped to its content and a directory child to its own nested map |
| FileSystems.ParsePathSegments | filesystem.go:171-175 | the count equals the number of segments, which is at least one; no segment holds a `/`; joining them with `/` gives the path back |
| FileSystems.ParseTwo | filesystem.go:171-175 | two separator-free names joined by `/` parse into those two segments |
| FileSystems.ParseKeepsEmpty | filesystem.go:172 | a doubled `/` yields an empty segment between the names |
| FileSystems.ParseExample | filesystem.go:172 | "a/b" parses into the segments "a" and "b" |
| FileSystems.MkdirSpec | filesystem.go:62-93 | definition: permissive mkdir is the `CreatePath` walk over all segments; restrictive mkdir looks up the parent and creates the last segment there; its laws are `MkdirPermissive`, `MkdirPermissiveGrows`, `MkdirExisting`, `MkdirRestrictive`, `MkdirRestrictiveMissing` and `MkdirValid` |
| FileSystems.MkdirPermissive | filesystem.go:68-71 | permissive mkdir succeeds iff no segment of the path is a file, and otherwise fails with invalid path and changes nothing |
| FileSystems.MkdirPermissiveGrows | filesystem.go:68-71 | a successful permissive mkdir adds exactly the missing prefixes of the path, keeps all entries and leaves a directory at the path |
| FileSystems.MkdirExisting | filesystem.go:68-71 | permissive mkdir of an existing directory succeeds and changes nothing |
| FileSystems.ParentFound | filesystem.go:73-83 | the parent lookup finds the parent path, and finds a directory iff every prefix up to the parent is a directory |
| FileSystems.MkdirRestrictive | filesystem.go:73-92 | restrictive mkdir succeeds iff all ancestors are directories and the path is absent, adding exactly that directory; it reports already-exists iff the ancestors are directories and the path exists; a failure changes nothing |
| FileSystems.MkdirNotFoundIff | filesystem.go:74-78 | restrictive mkdir fails with not-found carrying a suffix iff the parent lookup reports that suffix missing |
| FileSystems.MkdirRestrictiveMissing | filesystem.go:74-78 | restrictive mkdir fails with not-found for the segments from i to the parent iff the first i prefixes are directories and prefix i+1 is absent |
| FileSystems.MkdirValid | filesystem.go:62-93 | mkdir in either mode keeps the filesystem well formed |
| FileSystems.ReadSpec | filesystem.go:108-122 | definition: lookup of the segments, then the file's content, a non-file error for a directory, or the lookup's error; its law is `ReadFileIff` |
| FileSystems.ReadNode | filesystem.go:111-121 | definition: the content of the file node that find returned, a non-file error for a directory, or find's error; its law is `ReadResolved` |
| FileSystems.ReadResolved | filesystem.go:111-121 | the outcome of reading the node that find returned is the read specification on the view |
| FileSystems.ReadFileIff | filesystem.go:108-122 | read succeeds iff a file is stored at the path, returning its content, and fails with non-file iff a directory is stored there |
| FileSystems.WriteNotFoundIff | filesystem.go:136-141 | restrictive write fails with not-found carrying a suffix iff the parent lookup reports that suffix missing |
| FileSystems.WriteRestrictiveMissing | filesystem.go:136-141 | restrictive write fails with not-found for the segments from i to the parent iff the first i prefixes are directories and prefix i+1 is absent |
| FileSystems.PutSpec | filesystem.go:148-167 | definition: an absent name becomes a file holding the data, a file gets the data appended, and a directory is refused; its law is `PutLaws` |
| FileSystems.WriteSpec | filesystem.go:126-168 | definition: the parent is reached by the `CreatePath` walk (permissive) or by lookup (restrictive), then the put; its laws are `WritePermissive`, `WriteRestrictive`, `WriteFileLaws`, `WriteRestrictiveMissing` and `WritesAppend` |
| FileSystems.PutLaws | filesystem.go:148-167 | putting into a directory fails with non-file iff a directory holds the name, changing nothing; otherwise the entry becomes a file whose content is the old content, or "", followed by the data |
| FileSystems.StoredParentOpen | filesystem.go:133-137 | every ancestor of a stored path is a directory, so no file lies on its parent path |
| FileSystems.MkpathBelowParent | filesystem.go:134 | creating the parent path leaves a directory at the parent and does not touch the target entry |
| FileSystems.WritePermissiveBlocked | filesystem.go:139-141 | when the parent cannot be created, some ancestor is a file, the target is absent, and the write fails with invalid path and changes nothing |
| FileSystems.WritePermissiveMade | filesystem.go:133-141 | when the parent can be created, the result is well formed with a directory at the parent, the target is untouched, and the write is the put into that parent |
| FileSystems.WritePermissive | filesystem.go:126-168 | permissive write succeeds iff no ancestor is a file and the target is not a directory; non-file iff the target is a directory; on success the target holds old content plus data above the created ancestors; a failure changes nothing |
| FileSystems.WriteRestrictive | filesystem.go:126-168 | restrictive write succeeds iff every ancestor is a directory and the target is not a directory, storing old content plus data at the target alone; non-file iff the target is a directory; a failure changes nothing |
| FileSystems.WriteFileLaws | filesystem.go:126-168 | in either mode: the success condition, the non-file case, no change on failure, well-formedness on success, and reading the path back gives old content plus data |
| FileSystems.WriteReady | filesystem.go:150-167 | a write whose parent is ready stores old content plus data at the target and leaves the parent ready for the next write |
| FileSystems.WritesAppend | filesystem.go:150-167 | after a sequence of writes to one path, the file holds its old content followed by the concatenation of all the data |
| FileSystems.WritesConcatenate | filesystem.go:150-167 | reading after a sequence of writes returns old content followed by every write's data, in order |
| FileSystems.EmptyPrettyPrint | filesystem.go:96-97 | a new filesystem renders as an empty map |
| FileSystems.RenderExample | dir.go:145-158 | a directory "a" holding a file "b" with content "x" renders as {a: {b: "x"}} |
| FileSystems.MkpathExample | dir.go:68-97 | creating "a" in an empty filesystem adds that one directory and succeeds |
| FileSystems.WriteExample | filesystem.go:126-168 | a permissive write of "x" to "a/b" in an empty filesystem stores the directory "a" and the file "a/b" holding "x" |
| FileSystems.MkdirRestrictiveExample | filesystem.go:73-78 | restrictive mkdir of "a/b/c" in an empty filesystem fails with not-found for "a/b" and changes nothing |
| FileSystems.MkdirPermissiveExample | filesystem.go:68-71 | permissive mkdir of "a/b/c" in an empty filesystem succeeds and creates "a", "a/b" and "a/b/c" |
| FileSystems.AppendExample | filesystem.go:150-167 | writing "a" and then "b" to a new path reads back "ab" |
| FileSystems.WriteTwiceExample | filesystem.go:126-168 | two permissive writes of "x" and "y" to "a/b" in an empty filesystem read back as "xy" |
| FileSystems.WriteTwiceThenRead | filesystem.go:41-168 | on a new filesystem built by the constructor, `WriteFile("a/b", "x")`, `WriteFile("a/b", "y")` and then `ReadFile("a/b")` return "xy" |
| FileSystems.FileSystem.NewFileSystem | filesystem.go:41-54 | the new filesystem is well formed and empty; its options are the defaults with every option applied in order; it tracks only its fresh root directory and no file |
| FileSystems.FileSystem.Mkdir | filesystem.go:62-93 | the outcome and the new filesystem are those of the mkdir specification for the parsed path in the configured mode; no file changes, and every directory it adds is fresh |
| FileSystems.FileSystem.MkdirWalking | filesystem.go:68-71 | the permissive branch has exactly the effect of the permissive mkdir specification |
| FileSystems.FileSystem.MkdirInParent | filesystem.go:73-92 | the restrictive branch has exactly the effect of the restrictive mkdir specification |
| FileSystems.FileSystem.AddDir | filesystem.go:85-90 | adding a directory under a found parent fails with already-exists iff the name is taken and changes nothing; otherwise it adds exactly that directory |
| FileSystems.FileSystem.ReadFile | filesystem.go:108-122 | returns the read specification on the current filesystem for the path split on `/` |
| FileSystems.FileSystem.AddFile | filesystem.go:150-157 | storing a new file under an absent name adds exactly that file entry with the given content |
| FileSystems.FileSystem.AppendAt | filesystem.go:160-165 | appending to an existing file changes exactly that entry's content, to old content plus data |
| FileSystems.FileSystem.Put | filesystem.go:148-167 | the last step of a write has exactly the effect of the put specification |
| FileSystems.FileSystem.WriteFile | filesystem.go:126-168 | the outcome and the new filesystem are those of the write specification for the parsed path in the configured mode; every directory and file it adds is fresh |
| FileSystems.FileSystem.WriteWalking | filesystem.go:133-134 | the permissive write has exactly the effect of the permissive write specification |
| FileSystems.FileSystem.WriteInParent | filesystem.go:135-137 | the restrictive write has exactly the effect of the restrictive write specification |
| FileSystems.FileSystem.PrettyPrint | filesystem.go:96-97 | the nested map is the abstract rendering of the whole filesystem |

The accessors `File.Data`, `File.Name`, `Dir.Name` and `Dir.HasChild` (file.go:22-29, dir.go:29-31, dir.go:137-143) are plain field reads. They occur in the contracts above and carry no contract of their own.

## Left out

- Concurrency: the `sync.Map` inside each directory is a plain map here, and every operation runs to completion on its own. The check-then-act window between `HasChild` and `Store` in `CreateDir` and `CreateFile` (dir.go:36-46, 54-61) cannot be expressed.
- `PrettyPrint`'s JSON encoding (`json.MarshalIndent`, filesystem.go:99-104) and its error are not modelled. The facade returns the nested `Pretty` value that would be encoded. The order in which `Range` visits children does not matter, because the result is a map.
- Error texts built with `fmt.Errorf` and `%w` wrapping are reduced to the error kind (`InvalidPath`, `NotAFile`, `AlreadyExists(name)`). The not-found error keeps its segment path and its message.
- Go's type assertions to the `Dir` and `File` interfaces become matches on the `Node` datatype.
- FileSystems.FileSystem.WriteFile: requires at least two path segments. The source panics on a one-segment path in both modes, because it looks up an empty parent path (filesystem.go:128-137 with dir.go:69 and 101).
- FileSystems.FileSystem.Mkdir: requires at least two segments in restrictive mode, for the same panic (filesystem.go:73-74).
- Dirs.Dir.CreatePath: requires a non-empty path, as indexing `path[0]` panics otherwise. The source's branch that returns a `GetChild` error other than not-found (dir.go:74-76) cannot be taken, because `GetChild` only ever fails with not-found. The same holds for a `CreateDir` failure right after a failed child lookup (dir.go:78-80). The model proves both failures absent rather than returning them.
- Dirs.Dir.Find: requires a non-empty path for the same reason.
- Dirs.Dir.CreatePath: the returned directory's name is not stated in the method's contract. It follows from `Wf`, whose `Upward` part names every node by the last segment of its path. `Dirs.Dir.OpenChild` states the name for each step.
- FileSystems.FileSystem.WriteFile: the source's `CreateFile` failure branch (filesystem.go:153-155) is unreachable right after `GetChild` reported the name absent. The model proves it cannot occur rather than returning an error for it.
- Namespace.Lookup: its contract does not state that the missing rest is a suffix of the path. That fact is a separate lemma, `Namespace.LookupMissingSuffix`.
