/**
 The path functions of the Zephyr file system port (src/qfs_zephyr.c) on their character
 buffers: `normalize_path`, `make_path` and the current directory of `qfs_chdir`.
 */
module Paths {
  import opened PathSpec

  // ----- C strings in buffers

  /** The buffer holds the string s, terminated. */
  ghost predicate Holds(buf: seq<char>, s: string) {
    |s| < |buf| && buf[..|s|] == s && buf[|s|] == '\0' && '\0' !in s
  }

  ghost predicate IsCString(buf: seq<char>) {
    exists s :: Holds(buf, s)
  }

  ghost function CString(buf: seq<char>): (s: string)
    requires IsCString(buf)
    ensures Holds(buf, s)
  {
    var s :| Holds(buf, s);
    s
  }

  lemma CStringIs(buf: seq<char>, s: string)
    requires Holds(buf, s)
    ensures IsCString(buf) && CString(buf) == s
  {
    var t := CString(buf);
    assert forall i :: 0 <= i < |t| ==> t[i] == buf[i];
    assert forall i :: 0 <= i < |s| ==> s[i] == buf[i];
  }

  /** `memcpy` of a text into a buffer. */
  method Copy(dst: array<char>, at: nat, src: string)
    requires at + |src| <= dst.Length
    modifies dst
    ensures dst[..] == old(dst[..at]) + src + old(dst[at + |src|..])
  {
    for i := 0 to |src|
      invariant dst[..] == old(dst[..at]) + src[..i] + old(dst[at + i..])
    {
      dst[at + i] := src[i];
      assert src[..i + 1] == src[..i] + [src[i]];
    }
  }

  /** `strncpy` of at most n characters, then the terminator the callers add. */
  method CopyTruncated(dst: array<char>, src: string)
    requires dst.Length > 0 && '\0' !in src
    modifies dst
    ensures Holds(dst[..], Truncate(src, dst.Length - 1))
  {
    var kept := Truncate(src, dst.Length - 1);
    Copy(dst, 0, kept);
    for i := |kept| to dst.Length
      invariant dst[..|kept|] == kept
      invariant forall j :: |kept| <= j < i ==> dst[j] == '\0'
    {
      dst[i] := '\0';
    }
  }

  // ----- normalize_path

  lemma SlashSkipped(s: string)
    requires s != "" && s[0] == '/'
    ensures Segments(s) == Segments(s[1..])
  {
  }

  /** The run of characters up to the next slash or the end is the next segment. */
  lemma SegmentRead(s: string, n: nat)
    requires 0 < n <= |s| && (forall i :: 0 <= i < n ==> s[i] != '/') && (n < |s| ==> s[n] == '/')
    ensures Segments(s) == [s[..n]] + Segments(s[n..])
  {
    SegLenIs(s, n);
  }

  method HasRootPrefix(path: array<char>) returns (yes: bool)
    requires IsCString(path[..])
    ensures yes == (ROOT <= CString(path[..]))
  {
    ghost var text := CString(path[..]);
    var i := 0;
    while i < |ROOT| && path[i] == ROOT[i]
      invariant i <= |ROOT| && i <= |text| && text[..i] == ROOT[..i]
      decreases |ROOT| - i
    {
      i := i + 1;
    }
    yes := i == |ROOT|;
    if !yes { assert i < |text| ==> text[i] == path[i]; }
  }

  method SkipSlashes(path: array<char>, from: nat, ghost text: string) returns (s: nat)
    requires Holds(path[..], text) && from <= |text|
    ensures from <= s <= |text| && Segments(text[from..]) == Segments(text[s..])
    ensures s < |text| ==> text[s] != '/'
  {
    s := from;
    while path[s] == '/'
      invariant from <= s <= |text| && Segments(text[from..]) == Segments(text[s..])
      decreases |text| - s
    {
      assert path[s] == path[..][s];
      SlashSkipped(text[s..]);
      assert text[s..][1..] == text[s + 1..];
      s := s + 1;
    }
    assert s < |text| ==> text[s] == path[s];
  }

  /** The segment that starts at `from`; empty only at the end of the text. */
  method SegmentEnd(path: array<char>, from: nat, ghost text: string) returns (s: nat)
    requires Holds(path[..], text) && from <= |text|
    requires from < |text| ==> text[from] != '/'
    ensures from <= s <= |text|
    ensures s == from ==> from == |text|
    ensures s > from ==> IsSegment(text[from..s]) && Segments(text[from..]) == [text[from..s]] + Segments(text[s..])
  {
    s := from;
    while path[s] != '\0' && path[s] != '/'
      invariant from <= s <= |text|
      invariant forall i :: from <= i < s ==> text[i] != '/'
      decreases |text| - s
    {
      assert text[s] == path[s];
      s := s + 1;
    }
    assert s < |text| ==> text[s] == path[s];
    if s > from {
      SegmentRead(text[from..], s - from);
      assert text[from..][..s - from] == text[from..s] && text[from..][s - from..] == text[s..];
    }
  }

  /** Byte by byte back to the previous segment, never above the root. */
  method PopSegment(tmp: array<char>, top: nat, ghost stack: seq<string>) returns (out: nat)
    requires AllProper(stack) && top <= tmp.Length && tmp[..top] == Path(stack)
    ensures |ROOT| <= out <= top && tmp[..out] == Path(if stack == [] then [] else stack[..|stack| - 1])
  {
    out := top;
    ghost var text := tmp[..top];
    if out > |ROOT| {
      ghost var below, last := Path(stack[..|stack| - 1]), stack[|stack| - 1];
      assert Proper(last);
      ghost var base := |below|;
      assert text == below + "/" + last && text[base] == '/' && text[..base] == below;
      assert forall i :: base < i < top ==> text[i] == last[i - base - 1] != '/';
      while out > |ROOT| && tmp[out - 1] != '/'
        invariant base < out <= top
      {
        assert text[out - 1] == tmp[out - 1];
        out := out - 1;
      }
      assert text[out - 1] == tmp[out - 1];
      assert out == base + 1;
      if out > |ROOT| && tmp[out - 1] == '/' { out := out - 1; }
      assert tmp[..out] == text[..out];
    }
  }

  /** A slash and the segment, if they leave room for the terminator. */
  method PushSegment(tmp: array<char>, top: nat, seg: string, ghost stack: seq<string>) returns (out: nat, ok: bool)
    requires AllProper(stack) && Proper(seg)
    requires top < tmp.Length && tmp[..top] == Path(stack)
    modifies tmp
    ensures ok <==> |Path(stack + [seg])| < tmp.Length
    ensures ok ==> out == |Path(stack + [seg])| && tmp[..out] == Path(stack + [seg])
  {
    out := top;
    ok := false;
    assert (stack + [seg])[..|stack|] == stack;
    assert Path(stack + [seg]) == Path(stack) + "/" + seg;
    if out + 1 >= tmp.Length { return; }
    NormalPathEndsInSegment(stack);
    assert tmp[out - 1] == tmp[..top][out - 1];
    if out == 0 || tmp[out - 1] != '/' {
      tmp[out] := '/';
      out := out + 1;
    }
    assert tmp[..out] == Path(stack) + "/";
    if out + |seg| >= tmp.Length { return; }
    Copy(tmp, out, seg);
    out := out + |seg|;
    ok := true;
  }

  /** One segment of the walk applied to the text under construction. */
  method ApplySegment(tmp: array<char>, top: nat, seg: string, ghost stack: seq<string>) returns (out: nat, ok: bool)
    requires AllProper(stack) && IsSegment(seg)
    requires |ROOT| <= top < tmp.Length && tmp[..top] == Path(stack)
    modifies tmp
    ensures ok <==> (Proper(seg) ==> |Path(Apply(stack, seg))| < tmp.Length)
    ensures ok ==> |ROOT| <= out < tmp.Length && tmp[..out] == Path(Apply(stack, seg))
  {
    if |seg| == 1 && seg[0] == '.' {
      assert seg == ".";
      return top, true;
    }
    if |seg| == 2 && seg[0] == '.' && seg[1] == '.' {
      assert seg == "..";
      out := PopSegment(tmp, top, stack);
      return out, true;
    }
    out, ok := PushSegment(tmp, top, seg, stack);
  }

  /** One turn of the walk: the segment from s on, if there is one. */
  method WalkTurn(path: array<char>, tmp: array<char>, s: nat, top: nat, ghost text: string, ghost stack: seq<string>)
      returns (end: nat, more: bool, out: nat, ok: bool)
    requires path != tmp && Holds(path[..], text) && s <= |text|
    requires tmp.Length == PATH_MAX && AllProper(stack) && |ROOT| <= top < PATH_MAX && tmp[..top] == Path(stack)
    modifies tmp
    ensures s <= end <= |text| && more == (Segments(text[s..]) != [])
    ensures !more ==> end <= |text| && out == top && ok && tmp[..] == old(tmp[..])
    ensures more ==>
      var segs := Segments(text[s..]);
      && s < end && segs[1..] == Segments(text[end..]) && IsSegment(segs[0])
      && (ok <==> (Proper(segs[0]) ==> |Path(Apply(stack, segs[0]))| < PATH_MAX))
      && (ok ==> |ROOT| <= out < PATH_MAX && tmp[..out] == Path(Apply(stack, segs[0])))
  {
    var seg := SkipSlashes(path, s, text);
    ghost var segs := Segments(text[s..]);
    end := SegmentEnd(path, seg, text);
    out, ok, more := top, true, end > seg;
    if more {
      var segment := path[seg..end];
      assert forall i :: seg <= i < end ==> path[i] == path[..][..|text|][i];
      assert segment == text[seg..end] && segs[0] == segment && segs[1..] == Segments(text[end..]);
      out, ok := ApplySegment(tmp, top, segment, stack);
    }
  }

  lemma FoldTurn(stack: seq<string>, segs: seq<string>)
    requires segs != []
    ensures Fold(stack, segs) == Fold(Apply(stack, segs[0]), segs[1..])
    ensures Fits(stack, segs) <==>
            (Proper(segs[0]) ==> |Path(Apply(stack, segs[0]))| < PATH_MAX) && Fits(Apply(stack, segs[0]), segs[1..])
  {
  }

  /** The walk over the text after the root. */
  method Walk(path: array<char>, tmp: array<char>, ghost text: string) returns (out: nat, ok: bool)
    requires path != tmp && Holds(path[..], text) && ROOT <= text
    requires tmp.Length == PATH_MAX && tmp[..|ROOT|] == ROOT
    modifies tmp
    ensures ok <==> Fits([], Segments(text[|ROOT|..]))
    ensures ok ==> |ROOT| <= out < PATH_MAX && tmp[..out] == Path(Fold([], Segments(text[|ROOT|..])))
  {
    out := |ROOT|;
    var s := |ROOT|;
    ghost var stack: seq<string> := [];
    ghost var all := Segments(text[|ROOT|..]);
    while path[s] != '\0'
      invariant path[..] == old(path[..])
      invariant |ROOT| <= s <= |text|
      invariant AllProper(stack) && |ROOT| <= out < PATH_MAX && tmp[..out] == Path(stack)
      invariant Fold([], all) == Fold(stack, Segments(text[s..]))
      invariant Fits([], all) <==> Fits(stack, Segments(text[s..]))
      decreases |text| - s
    {
      ghost var segs := Segments(text[s..]);
      var more;
      s, more, out, ok := WalkTurn(path, tmp, s, out, text, stack);
      if !more { ok := true; return; }
      FoldTurn(stack, segs);
      if !ok { return; }
      stack := Apply(stack, segs[0]);
    }
    assert Segments(text[s..]) == [];
    ok := true;
  }

  lemma FoldedPathIsText(text: string)
    requires '\0' !in text
    ensures AllProper(Fold([], Segments(text))) && '\0' !in Path(Fold([], Segments(text)))
  {
    SegmentsAreSegments(text);
    FoldKeepsProper([], Segments(text));
    SegmentsKeepFree(text);
    FoldKeepsFree([], Segments(text));
  }

  lemma {:induction false} SegmentsKeepFree(s: string)
    requires '\0' !in s
    ensures forall seg :: seg in Segments(s) ==> '\0' !in seg
    decreases |s|
  {
    if s != "" {
      SegmentsKeepFree(s[if s[0] == '/' then 1 else SegLen(s)..]);
    }
  }

  lemma {:induction false} FoldKeepsFree(stack: seq<string>, segs: seq<string>)
    requires '\0' !in Render(stack) && forall seg :: seg in segs ==> '\0' !in seg
    ensures '\0' !in Path(Fold(stack, segs))
    decreases |segs|
  {
    if segs != [] {
      FoldKeepsFree(Apply(stack, segs[0]), segs[1..]);
    }
  }

  /** `normalize_path`: the normal form replaces the text in the buffer, or an error code
      is returned and the buffer is untouched. */
  method NormalizePath(path: array<char>) returns (rc: int)
    requires IsCString(path[..])
    modifies path
    ensures match Normalize(old(CString(path[..])), path.Length)
            case Ok(p) => rc == 0 && Holds(path[..], p)
            case Err(code) => rc == code && path[..] == old(path[..])
  {
    ghost var text := CString(path[..]);
    var prefixed := HasRootPrefix(path);
    if !prefixed { return -2; }
    var tmp := new char[PATH_MAX];
    Copy(tmp, 0, ROOT);
    assert tmp[..|ROOT|] == ROOT && Holds(path[..], text);
    var out, ok := Walk(path, tmp, text);
    if !ok { return -4; }
    ghost var stack := Fold([], Segments(text[|ROOT|..]));
    ghost var normal := Path(stack);
    FoldedPathIsText(text[|ROOT|..]);
    NormalPathEndsInSegment(stack);
    assert tmp[out - 1] == tmp[..out][out - 1];
    if out > |ROOT| && tmp[out - 1] == '/' { out := out - 1; }
    rc := WriteBack(path, tmp, out, normal);
  }

  method WriteBack(path: array<char>, tmp: array<char>, out: nat, ghost normal: string) returns (rc: int)
    requires path != tmp && out < tmp.Length && tmp[..out] == normal && '\0' !in normal
    modifies path, tmp
    ensures if |normal| + 1 > path.Length then rc == -5 && path[..] == old(path[..])
            else rc == 0 && Holds(path[..], normal)
  {
    tmp[out] := '\0';
    assert tmp[..out] == normal;
    if out + 1 > path.Length { return -5; }
    Copy(path, 0, tmp[..out + 1]);
    assert path[..out] == tmp[..out];
    rc := 0;
  }

  // ----- make_path and the current directory

  class Cwd {
    const buf: array<char>

    ghost predicate Valid()
      reads this, buf
    {
      buf.Length == PATH_MAX && IsCString(buf[..]) && NormalForm(CString(buf[..]))
    }

    ghost function Dir(): string
      reads this, buf
      requires Valid()
    {
      CString(buf[..])
    }

    constructor ()
      ensures Valid() && fresh(buf) && Dir() == ROOT
    {
      buf := new char[PATH_MAX];
      new;
      CopyTruncated(buf, ROOT);
      CStringIs(buf[..], ROOT);
      assert AllProper([]) && ROOT == Path([]);
    }

    /** `make_path`. */
    method MakePathInto(out: array<char>, path: string) returns (rc: int)
      requires Valid() && out != buf && out.Length > 0 && '\0' !in path
      modifies out
      ensures match MakePath(Dir(), path, out.Length)
              case Ok(p) => rc == 0 && Holds(out[..], p)
              case Err(code) => rc == code
    {
      ghost var cwd := Dir();
      if path == "" {
        var text := ReadCwd();
        CopyTruncated(out, text);
        return 0;
      }
      if path[0] == '/' {
        CopyTruncated(out, path);
        CStringIs(out[..], Truncate(path, out.Length - 1));
      } else {
        var text := ReadCwd();
        var len := |text|;
        if len + 1 + |path| + 1 > out.Length { return -1; }
        Copy(out, 0, text);
        if len == 0 || out[len - 1] != '/' {
          out[len] := '/';
          len := len + 1;
        }
        ghost var joined := cwd + (if cwd == "" || cwd[|cwd| - 1] != '/' then "/" else "");
        assert out[..len] == joined;
        Copy(out, len, path + ['\0']);
        assert out[..|joined + path|] == joined + path;
        CStringIs(out[..], joined + path);
      }
      rc := NormalizePath(out);
    }

    /** `strlen` and the characters of the current directory. */
    method ReadCwd() returns (text: string)
      requires Valid()
      ensures text == Dir()
    {
      var n := 0;
      ghost var cwd := Dir();
      assert forall i :: 0 <= i < |cwd| ==> cwd[i] == buf[i];
      while buf[n] != '\0'
        invariant n <= |cwd|
        decreases |cwd| - n
      {
        n := n + 1;
      }
      text := buf[..n];
    }

    /** `qfs_chdir`: only an existing directory becomes the current directory, and the
        current directory stays in normal form. */
    method ChangeDir(path: string, stat: Stat) returns (rc: int)
      requires Valid() && '\0' !in path
      modifies buf
      ensures Valid()
      ensures (Dir(), rc) == Chdir(old(Dir()), path, stat)
    {
      ghost var cwd := Dir();
      var p := new char[PATH_MAX];
      rc := MakePathInto(p, path);
      if rc != 0 { return; }
      match stat {
        case Failed(code) => rc := code;
        case File => rc := E_NOTFOUND;
        case Directory =>
          ghost var target := MakePath(cwd, path, PATH_MAX).path;
          ChdirKeepsNormalForm(cwd, path, stat);
          Copy(buf, 0, p[..PATH_MAX - 1]);
          buf[PATH_MAX - 1] := '\0';
          assert buf[..|target|] == p[..|target|];
          CStringIs(buf[..], target);
      }
    }
  }
}
