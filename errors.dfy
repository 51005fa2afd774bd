/** Error values of the filesystem. The structured not-found error of
    errors.go keeps its path payload and its message; every other failure the
    source builds with `fmt.Errorf` is modelled by its kind alone. */
module Errors {
  import Strings

  /** `pathNotFoundError`: a not-found failure carrying the path that was
      attempted (as segments). */
  datatype PathNotFoundError = PathNotFoundError(path: seq<string>)
  {
    /** The error text: the segments joined with `/` and quoted. */
    function Message(): string
    {
      "path '" + Strings.Join(path, '/') + "' does not exist"
    }

    /** `errors.Is` support: a not-found error matches every not-found error,
        whatever either path payload is, and no error of any other kind. */
    predicate Is(target: Error)
      ensures Is(target) <==> exists q :: target == NotFound(PathNotFoundError(q))
    {
      match target
      case NotFound(e) => assert target == NotFound(PathNotFoundError(e.path)); true
      case _ => false
    }
  }

  /** The sentinel `PathNotFoundError` callers compare against; its payload is empty. */
  const Sentinel: PathNotFoundError := PathNotFoundError([])

  /** `NewPathNotFoundError(path)`: wraps exactly the given path. */
  function NewPathNotFoundError(path: seq<string>): (e: PathNotFoundError)
    ensures e.path == path
    ensures e.Is(NotFound(Sentinel))
  {
    PathNotFoundError(path)
  }

  /** The kinds of failure the filesystem reports. */
  datatype Error =
    | NotFound(notFound: PathNotFoundError)  // a missing segment (pathNotFoundError)
    | AlreadyExists(name: string)            // a create on a name that is taken, by a file or a dir
    | InvalidPath                            // a segment that must be a directory is a file
    | NotAFile                               // read or write of a node that is a directory

  /** A value or the error that prevented it. */
  datatype Result<+T> = Success(value: T) | Failure(error: Error)

  /** No value, or an error (Go's lone `error` result). */
  datatype Outcome = Pass | Fail(error: Error)

  /** The message of a not-found error built from a split path is the path
      text itself, quoted. */
  lemma MessageOfSplitPath(p: string)
    ensures NewPathNotFoundError(Strings.Split(p, '/')).Message()
            == "path '" + p + "' does not exist"
  {
    Strings.JoinSplit(p, '/');
  }
}
