/**
 What the path normaliser of the Zephyr file system port computes (src/qfs_zephyr.c):
 a path is the root followed by a stack of segments, and resolving is a fold over
 segments. Strings are C strings without their terminating NUL.
 */
module PathSpec {

  const ROOT: string := "/lfs"
  const PATH_MAX: nat := 256

  datatype Result = Ok(path: string) | Err(code: int)

  // ----- Segments

  /** Length of the leading run of characters other than '/'. */
  function SegLen(s: string): (n: nat)
    ensures n <= |s| && (forall i :: 0 <= i < n ==> s[i] != '/')
    ensures n < |s| ==> s[n] == '/'
  {
    if s == "" || s[0] == '/' then 0 else 1 + SegLen(s[1..])
  }

  function Segments(s: string): seq<string>
    decreases |s|
  {
    if s == "" then []
    else if s[0] == '/' then Segments(s[1..])
    else [s[..SegLen(s)]] + Segments(s[SegLen(s)..])
  }

  predicate IsSegment(seg: string) {
    seg != "" && '/' !in seg
  }

  /** A segment that can stand in a normal path. */
  predicate Proper(seg: string) {
    IsSegment(seg) && seg != "." && seg != ".."
  }

  predicate AllProper(stack: seq<string>) {
    forall i :: 0 <= i < |stack| ==> Proper(stack[i])
  }

  // ----- The fold

  function Apply(stack: seq<string>, seg: string): seq<string> {
    if seg == "." then stack
    else if seg == ".." then if stack == [] then [] else stack[..|stack| - 1]
    else stack + [seg]
  }

  function Fold(stack: seq<string>, segs: seq<string>): seq<string>
    decreases |segs|
  {
    if segs == [] then stack else Fold(Apply(stack, segs[0]), segs[1..])
  }

  function Render(stack: seq<string>): string {
    if stack == [] then "" else Render(stack[..|stack| - 1]) + "/" + stack[|stack| - 1]
  }

  function Path(stack: seq<string>): string {
    ROOT + Render(stack)
  }

  /** Every intermediate path fits a buffer of PATH_MAX characters. */
  predicate Fits(stack: seq<string>, segs: seq<string>)
    decreases |segs|
  {
    segs == [] ||
    var next := Apply(stack, segs[0]);
    (Proper(segs[0]) ==> |Path(next)| < PATH_MAX) && Fits(next, segs[1..])
  }

  /** `normalize_path` on a buffer of `size` characters. */
  function Normalize(path: string, size: nat): Result {
    if !(ROOT <= path) then Err(-2)
    else
      var segs := Segments(path[|ROOT|..]);
      if !Fits([], segs) then Err(-4)
      else
        var out := Path(Fold([], segs));
        if |out| + 1 > size then Err(-5) else Ok(out)
  }

  function Truncate(s: string, n: nat): string {
    if |s| <= n then s else s[..n]
  }

  predicate IsAbsolute(path: string) {
    path != "" && path[0] == '/'
  }

  /** `make_path`: an empty input stands for the null pointer too. */
  function MakePath(cwd: string, path: string, size: nat): Result
    requires size > 0
  {
    if path == "" then Ok(Truncate(cwd, size - 1))
    else if IsAbsolute(path) then Normalize(Truncate(path, size - 1), size)
    else if |cwd| + 1 + |path| + 1 > size then Err(-1)
    else Normalize(cwd + (if cwd == "" || cwd[|cwd| - 1] != '/' then "/" else "") + path, size)
  }

  ghost predicate NormalForm(path: string) {
    |path| < PATH_MAX && exists stack :: AllProper(stack) && path == Path(stack)
  }

  // ----- Segments of joined paths

  lemma {:induction false} SegmentsAreSegments(s: string)
    ensures forall seg :: seg in Segments(s) ==> IsSegment(seg)
    decreases |s|
  {
    if s != "" {
      if s[0] == '/' {
        SegmentsAreSegments(s[1..]);
      } else {
        SegmentsAreSegments(s[SegLen(s)..]);
      }
    }
  }

  lemma SegLenIs(s: string, n: nat)
    requires n <= |s| && (forall i :: 0 <= i < n ==> s[i] != '/')
    requires n < |s| ==> s[n] == '/'
    ensures SegLen(s) == n
  {
  }

  lemma FirstOfJoin(a: string, b: string, n: nat)
    requires n == SegLen(a) > 0
    ensures Segments(a) == [a[..n]] + Segments(a[n..])
    ensures Segments(a + "/" + b) == [a[..n]] + Segments(a[n..] + "/" + b)
  {
    var j := a + "/" + b;
    SegLenIs(j, n);
    assert j[..n] == a[..n];
    assert j[n..] == a[n..] + "/" + b;
  }

  lemma FirstAndRest<T>(first: seq<T>, middle: seq<T>, last: seq<T>)
    ensures first + (middle + last) == first + middle + last
  {
  }

  lemma {:induction false} SegmentsOfJoin(a: string, b: string)
    ensures Segments(a + "/" + b) == Segments(a) + Segments(b)
    decreases |a|
  {
    var j := a + "/" + b;
    if a == "" {
      assert j[1..] == b;
    } else if a[0] == '/' {
      assert j[1..] == a[1..] + "/" + b;
      SegmentsOfJoin(a[1..], b);
    } else {
      var n := SegLen(a);
      FirstOfJoin(a, b, n);
      SegmentsOfJoin(a[n..], b);
      FirstAndRest([a[..n]], Segments(a[n..]), Segments(b));
    }
  }

  lemma SegmentsOfSegment(seg: string)
    requires IsSegment(seg)
    ensures Segments(seg) == [seg]
  {
    SegLenIs(seg, |seg|);
    assert seg[..|seg|] == seg;
  }

  lemma {:induction false} SegmentsOfRender(stack: seq<string>)
    requires AllProper(stack)
    ensures Segments(Render(stack)) == stack
  {
    if stack != [] {
      var init, last := stack[..|stack| - 1], stack[|stack| - 1];
      SegmentsOfRender(init);
      SegmentsOfSegment(last);
      SegmentsOfJoin(Render(init), last);
      assert stack == init + [last];
    }
  }

  // ----- The fold of joined segments

  lemma {:induction false} FoldOfProper(stack: seq<string>, segs: seq<string>)
    requires AllProper(segs)
    ensures Fold(stack, segs) == stack + segs
    decreases |segs|
  {
    if segs != [] {
      assert AllProper(segs[1..]);
      FoldOfProper(stack + [segs[0]], segs[1..]);
      assert stack + segs == stack + [segs[0]] + segs[1..];
    }
  }

  lemma {:induction false} FoldOfJoin(stack: seq<string>, a: seq<string>, b: seq<string>)
    ensures Fold(stack, a + b) == Fold(Fold(stack, a), b)
    ensures Fits(stack, a + b) <==> Fits(stack, a) && Fits(Fold(stack, a), b)
    decreases |a|
  {
    if a == [] {
      assert a + b == b;
    } else {
      assert (a + b)[1..] == a[1..] + b;
      FoldOfJoin(Apply(stack, a[0]), a[1..], b);
    }
  }

  lemma {:induction false} FoldKeepsProper(stack: seq<string>, segs: seq<string>)
    requires AllProper(stack) && forall seg :: seg in segs ==> IsSegment(seg)
    ensures AllProper(Fold(stack, segs))
    ensures |Path(stack)| < PATH_MAX && Fits(stack, segs) ==> |Path(Fold(stack, segs))| < PATH_MAX
    decreases |segs|
  {
    if segs != [] {
      FoldKeepsProper(Apply(stack, segs[0]), segs[1..]);
    }
  }

  lemma {:induction false} RenderGrows(a: seq<string>, b: seq<string>)
    ensures |Render(a)| <= |Render(a + b)|
    decreases |b|
  {
    if b == [] {
      assert a + b == a;
    } else {
      assert (a + b)[..|a + b| - 1] == a + b[..|b| - 1];
      RenderGrows(a, b[..|b| - 1]);
    }
  }

  lemma {:induction false} NormalPathFits(stack: seq<string>, segs: seq<string>)
    requires AllProper(segs) && |Path(stack + segs)| < PATH_MAX
    ensures Fits(stack, segs)
    decreases |segs|
  {
    if segs != [] {
      assert AllProper(segs[1..]);
      assert stack + segs == stack + [segs[0]] + segs[1..];
      RenderGrows(stack + [segs[0]], segs[1..]);
      NormalPathFits(stack + [segs[0]], segs[1..]);
    }
  }

  // ----- Main results

  /** The result is in normal form: the root, then proper segments. */
  lemma NormalizeIsNormal(path: string, size: nat)
    requires Normalize(path, size).Ok?
    ensures NormalForm(Normalize(path, size).path)
  {
    var segs := Segments(path[|ROOT|..]);
    SegmentsAreSegments(path[|ROOT|..]);
    FoldKeepsProper([], segs);
    assert Normalize(path, size).path == Path(Fold([], segs));
  }

  lemma NormalizeOfRooted(rest: string, size: nat)
    ensures Normalize(ROOT + rest, size) ==
            if !Fits([], Segments(rest)) then Err(-4)
            else if |Path(Fold([], Segments(rest)))| + 1 > size then Err(-5)
            else Ok(Path(Fold([], Segments(rest))))
  {
    assert (ROOT + rest)[|ROOT|..] == rest;
  }

  /** A normal path, extended by further segments. */
  lemma NormalizeOfJoin(stack: seq<string>, tail: string, size: nat)
    requires AllProper(stack) && |Path(stack)| < PATH_MAX
    ensures Normalize(Path(stack) + "/" + tail, size) ==
            if !Fits(stack, Segments(tail)) then Err(-4)
            else if |Path(Fold(stack, Segments(tail)))| + 1 > size then Err(-5)
            else Ok(Path(Fold(stack, Segments(tail))))
  {
    FirstAndRest(ROOT, Render(stack), "/" + tail);
    FirstAndRest(Render(stack), "/", tail);
    FirstAndRest(Path(stack), "/", tail);
    NormalizeOfRooted(Render(stack) + "/" + tail, size);
    SegmentsOfJoin(Render(stack), tail);
    SegmentsOfRender(stack);
    FoldFromRoot(stack, Segments(tail));
  }

  lemma FoldFromRoot(stack: seq<string>, segs: seq<string>)
    requires AllProper(stack) && |Path(stack)| < PATH_MAX
    ensures Fold([], stack + segs) == Fold(stack, segs) && (Fits([], stack + segs) <==> Fits(stack, segs))
  {
    FoldOfJoin([], stack, segs);
    FoldOfProper([], stack);
    assert [] + stack == stack;
    NormalPathFits([], stack);
  }

  lemma NormalFormIsFixed(path: string, size: nat)
    requires NormalForm(path) && |path| < size
    ensures Normalize(path, size) == Ok(path)
  {
    var stack :| AllProper(stack) && path == Path(stack);
    assert path[|ROOT|..] == Render(stack);
    SegmentsOfRender(stack);
    FoldOfProper([], stack);
    assert [] + stack == stack;
    NormalPathFits([], stack);
  }

  lemma NormalizeIsIdempotent(path: string, size: nat)
    requires Normalize(path, size).Ok?
    ensures Normalize(Normalize(path, size).path, size) == Normalize(path, size)
  {
    NormalizeIsNormal(path, size);
    NormalFormIsFixed(Normalize(path, size).path, size);
  }

  lemma NormalPathEndsInSegment(stack: seq<string>)
    requires AllProper(stack)
    ensures Path(stack)[|Path(stack)| - 1] != '/'
  {
    if stack != [] {
      var last := stack[|stack| - 1];
      assert Proper(last);
      assert Path(stack)[|Path(stack)| - 1] == last[|last| - 1];
    }
  }

  /** A path relative to a current directory in normal form: the fold continues from the
      directory's own stack. */
  lemma RelativeIsFold(stack: seq<string>, path: string, size: nat)
    requires AllProper(stack) && |Path(stack)| < PATH_MAX && path != "" && !IsAbsolute(path)
    requires |Path(stack)| + 1 + |path| + 1 <= size
    ensures MakePath(Path(stack), path, size) ==
            if !Fits(stack, Segments(path)) then Err(-4)
            else if |Path(Fold(stack, Segments(path)))| + 1 > size then Err(-5)
            else Ok(Path(Fold(stack, Segments(path))))
  {
    NormalPathEndsInSegment(stack);
    NormalizeOfJoin(stack, path, size);
  }

  /** Resolving "a/b" is resolving b from where a leads, whenever the joined texts fit. */
  lemma ResolveInTwoSteps(cwd: string, a: string, b: string, size: nat)
    requires NormalForm(cwd) && a != "" && !IsAbsolute(a) && !IsAbsolute(b)
    requires |cwd| + 1 + |a + "/" + b| + 1 <= size
    requires MakePath(cwd, a, size).Ok?
    requires var p := MakePath(cwd, a, size).path; |p| + 1 + |b| + 1 <= size
    ensures MakePath(cwd, a + "/" + b, size) == MakePath(MakePath(cwd, a, size).path, b, size)
  {
    var stack :| AllProper(stack) && cwd == Path(stack);
    RelativeIsFold(stack, a, size);
    RelativeIsFold(stack, a + "/" + b, size);
    SegmentsOfJoin(a, b);
    FoldOfJoin(stack, Segments(a), Segments(b));
    var there := Fold(stack, Segments(a));
    SegmentsAreSegments(a);
    FoldKeepsProper(stack, Segments(a));
    if b != "" {
      RelativeIsFold(there, b, size);
    }
  }

  /** A fold makes a path longer by no more than its text and a slash. */
  lemma {:induction false} FoldIsShort(stack: seq<string>, s: string)
    requires AllProper(stack)
    ensures |Path(Fold(stack, Segments(s)))| <= |Path(stack)| + |s| + if s != "" && s[0] != '/' then 1 else 0
    decreases |s|
  {
    if s != "" && s[0] == '/' {
      FoldIsShort(stack, s[1..]);
    } else if s != "" {
      var n := SegLen(s);
      ApplyIsShort(stack, s[..n]);
      FoldIsShort(Apply(stack, s[..n]), s[n..]);
    }
  }

  lemma ApplyIsShort(stack: seq<string>, seg: string)
    requires AllProper(stack) && IsSegment(seg)
    ensures AllProper(Apply(stack, seg)) && |Path(Apply(stack, seg))| <= |Path(stack)| + 1 + |seg|
  {
    assert (stack + [seg])[..|stack|] == stack;
  }

  /** ... and where a leads nowhere, "a/b" fails in the same way. */
  lemma ResolveFailsInTwoSteps(cwd: string, a: string, b: string, size: nat)
    requires NormalForm(cwd) && a != "" && !IsAbsolute(a)
    requires |cwd| + 1 + |a + "/" + b| + 1 <= size
    requires MakePath(cwd, a, size).Err?
    ensures MakePath(cwd, a + "/" + b, size) == MakePath(cwd, a, size) == Err(-4)
  {
    var stack :| AllProper(stack) && cwd == Path(stack);
    RelativeIsFold(stack, a, size);
    RelativeIsFold(stack, a + "/" + b, size);
    SegmentsOfJoin(a, b);
    FoldOfJoin(stack, Segments(a), Segments(b));
    FoldIsShort(stack, a);
  }

  /** Going up never leaves the root. */
  lemma {:induction false} ParentsClampAtRoot(stack: seq<string>, n: nat)
    requires n >= |stack|
    ensures Fold(stack, seq(n, _ => "..")) == []
    decreases n
  {
    if n > 0 {
      var ups := seq(n, _ => "..");
      assert ups[1..] == seq(n - 1, _ => "..");
      ParentsClampAtRoot(Apply(stack, ".."), n - 1);
    }
  }

  // ----- The current directory

  const E_NOTFOUND: int := -2308

  /** What the file system says of a path. */
  datatype Stat = Failed(code: int) | File | Directory

  /** `qfs_chdir`: the new current directory and the result code. */
  function Chdir(cwd: string, path: string, stat: Stat): (string, int)
  {
    match MakePath(cwd, path, PATH_MAX)
    case Err(code) => (cwd, code)
    case Ok(p) =>
      match stat
      case Failed(code) => (cwd, code)
      case File => (cwd, E_NOTFOUND)
      case Directory => (p, 0)
  }

  function ChdirRun(cwd: string, calls: seq<(string, Stat)>): string
    decreases |calls|
  {
    if calls == [] then cwd else ChdirRun(Chdir(cwd, calls[0].0, calls[0].1).0, calls[1..])
  }

  lemma ChdirKeepsNormalForm(cwd: string, path: string, stat: Stat)
    requires NormalForm(cwd)
    ensures NormalForm(Chdir(cwd, path, stat).0)
  {
    if path != "" && MakePath(cwd, path, PATH_MAX).Ok? {
      if IsAbsolute(path) {
        NormalizeIsNormal(Truncate(path, PATH_MAX - 1), PATH_MAX);
      } else {
        NormalizeIsNormal(cwd + (if cwd == "" || cwd[|cwd| - 1] != '/' then "/" else "") + path, PATH_MAX);
      }
    }
  }

  lemma {:induction false} CwdStaysNormal(cwd: string, calls: seq<(string, Stat)>)
    requires NormalForm(cwd)
    ensures NormalForm(ChdirRun(cwd, calls))
    decreases |calls|
  {
    if calls != [] {
      ChdirKeepsNormalForm(cwd, calls[0].0, calls[0].1);
      CwdStaysNormal(Chdir(cwd, calls[0].0, calls[0].1).0, calls[1..]);
    }
  }
}
