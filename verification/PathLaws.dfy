/**
 What paths mean to a caller of the Zephyr file system port (src/qfs_zephyr.c), on written paths.
 */
module PathLaws {
  import opened PathSpec

  /** The root, then each segment behind a slash. */
  lemma PathsAreWritten(stack: seq<string>, seg: string)
    ensures Path([]) == "/lfs" && Path(stack + [seg]) == Path(stack) + "/" + seg
  {
    assert (stack + [seg])[..|stack|] == stack;
  }

  lemma ProperAfter(stack: seq<string>, seg: string)
    requires AllProper(stack) && Proper(seg)
    ensures AllProper(stack + [seg]) && |Path(stack)| < |Path(stack + [seg])|
  {
    PathsAreWritten(stack, seg);
  }

  lemma OneStep(stack: seq<string>, seg: string)
    requires IsSegment(seg)
    ensures Segments(seg) == [seg] && Fold(stack, [seg]) == Apply(stack, seg)
    ensures Fits(stack, [seg]) <==> (Proper(seg) ==> |Path(Apply(stack, seg))| < PATH_MAX)
  {
    SegmentsOfSegment(seg);
    assert Fold(Apply(stack, seg), [seg][1..]) == Apply(stack, seg);
  }

  /** Two dots take exactly the last segment. */
  lemma ParentOf(stack: seq<string>, seg: string, size: nat)
    requires AllProper(stack) && Proper(seg) && |Path(stack + [seg])| < PATH_MAX && |Path(stack)| < size
    ensures Normalize(Path(stack + [seg]) + "/..", size) == Ok(Path(stack))
  {
    ProperAfter(stack, seg);
    NormalizeOfJoin(stack + [seg], "..", size);
    OneStep(stack + [seg], "..");
    assert (stack + [seg])[..|stack|] == stack;
    assert Path(stack + [seg]) + "/" + ".." == Path(stack + [seg]) + "/..";
  }

  /** One dot, or a slash too many, takes nothing. */
  lemma SameAs(stack: seq<string>, size: nat)
    requires AllProper(stack) && |Path(stack)| < PATH_MAX && |Path(stack)| < size
    ensures Normalize(Path(stack) + "/.", size) == Ok(Path(stack))
    ensures Normalize(Path(stack) + "//", size) == Ok(Path(stack))
  {
    NormalizeOfJoin(stack, ".", size);
    OneStep(stack, ".");
    assert Path(stack) + "/" + "." == Path(stack) + "/.";
    NormalizeOfJoin(stack, "/", size);
    assert Segments("/") == Segments("/"[1..]) == [];
    assert Path(stack) + "/" + "/" == Path(stack) + "//";
  }

  /** A proper segment is appended, if the path stays below 256 characters and fits the caller's
      buffer; the two error codes say which it is. */
  lemma ChildOf(stack: seq<string>, seg: string, size: nat)
    requires AllProper(stack) && |Path(stack)| < PATH_MAX && Proper(seg)
    ensures var path := Path(stack) + "/" + seg;
            Normalize(path, size) == if |path| >= 256 then Err(-4) else if |path| >= size then Err(-5) else Ok(path)
  {
    NormalizeOfJoin(stack, seg, size);
    OneStep(stack, seg);
    PathsAreWritten(stack, seg);
  }

  /** A path that is too long on the way is refused, whatever follows. */
  lemma TooLongOnTheWay(stack: seq<string>, seg: string, rest: string, size: nat)
    requires AllProper(stack) && |Path(stack)| < PATH_MAX && Proper(seg) && |Path(stack) + "/" + seg| >= 256
    ensures Normalize(Path(stack) + "/" + seg + "/" + rest, size) == Err(-4)
  {
    var tail := seg + "/" + rest;
    Joined(Path(stack), seg, rest);
    NormalizeOfJoin(stack, tail, size);
    TailTooLong(stack, seg, rest);
  }

  lemma Joined(a: string, b: string, c: string)
    ensures a + "/" + (b + "/" + c) == a + "/" + b + "/" + c
  {
  }

  lemma TailTooLong(stack: seq<string>, seg: string, rest: string)
    requires Proper(seg) && |Path(stack) + "/" + seg| >= 256
    ensures !Fits(stack, Segments(seg + "/" + rest))
  {
    SegmentsOfJoin(seg, rest);
    OneStep(stack, seg);
    PathsAreWritten(stack, seg);
    FirstTooLong(stack, seg, Segments(rest));
  }

  lemma FirstTooLong(stack: seq<string>, seg: string, rest: seq<string>)
    requires Proper(seg) && |Path(stack + [seg])| >= PATH_MAX
    ensures !Fits(stack, [seg] + rest)
  {
  }

  /** A path that does not start with the root is refused. */
  lemma NotRooted(cwd: string, path: string, size: nat)
    requires IsAbsolute(path) && |path| < size && !("/lfs" <= path)
    ensures MakePath(cwd, path, size) == Err(-2)
  {
  }

  /** A rooted path does not depend on the current directory: it resolves as what follows the root
      does from the root. */
  lemma AbsoluteIsFromRoot(cwd: string, path: string, size: nat)
    requires path != "" && path[0] != '/' && 5 + |path| < size
    ensures MakePath(cwd, "/lfs/" + path, size) == MakePath("/lfs", path, size)
  {
    assert "/lfs" + "/" + path == "/lfs/" + path;
  }

  /** A path in normal form is its own resolution, and the empty one stands for the directory. */
  lemma NormalResolves(cwd: string, stack: seq<string>, size: nat)
    requires AllProper(stack) && |Path(stack)| < PATH_MAX && |Path(stack)| < size
    ensures MakePath(cwd, Path(stack), size) == Ok(Path(stack)) == MakePath(Path(stack), "", size)
  {
    NormalFormIsFixed(Path(stack), size);
    assert Path(stack)[..4] == "/lfs";
  }

  lemma TooLong(cwd: string, path: string, size: nat)
    requires path != "" && path[0] != '/' && size > 0 && |cwd| + 1 + |path| + 1 > size
    ensures MakePath(cwd, path, size) == Err(-1)
  {
  }

  /** The parent directory, if it is one. */
  lemma ChangeToParent(stack: seq<string>, seg: string, stat: Stat)
    requires AllProper(stack) && Proper(seg) && |Path(stack + [seg])| + 4 <= PATH_MAX
    ensures Chdir(Path(stack + [seg]), "..", stat)
            == match stat
               case Directory => (Path(stack), 0)
               case File => (Path(stack + [seg]), E_NOTFOUND)
               case Failed(code) => (Path(stack + [seg]), code)
  {
    ProperAfter(stack, seg);
    NormalPathEndsInSegment(stack + [seg]);
    ParentOf(stack, seg, PATH_MAX);
    assert Path(stack + [seg]) + "/" + ".." == Path(stack + [seg]) + "/..";
  }

  /** A directory in the current one. */
  lemma ChangeToChild(stack: seq<string>, seg: string)
    requires AllProper(stack) && Proper(seg) && |Path(stack + [seg])| < PATH_MAX
    ensures Chdir(Path(stack), seg, Directory) == (Path(stack) + "/" + seg, 0)
  {
    PathsAreWritten(stack, seg);
    NormalPathEndsInSegment(stack);
    ChildOf(stack, seg, PATH_MAX);
  }

  /** What does not fit the caller's buffer is cut: a long absolute path, and a long current directory. */
  lemma LongIsCut(cwd: string, path: string, size: nat)
    requires size > 1
    ensures IsAbsolute(path) && |path| >= size ==> MakePath(cwd, path, size) == MakePath(cwd, path[..size - 1], size)
    ensures |cwd| >= size ==> MakePath(cwd, "", size) == Ok(cwd[..size - 1])
  {
  }
}
