/**
 String substitution (src/common/strsub.c): words between delimiters are replaced by what a
 handler makes of them, and an escape character takes the meaning from the next one.
 */
module StrSub {
  import opened Common

  const E_NOTFOUND: int := -2308
  const NO_LIMIT: nat := 0xFFFF_FFFF

  /** A pair of delimiters and its handlers, the first to be asked first. */
  datatype Delims = Delims(open: char, close: char, handlers: seq<string -> Option<string>>)

  /** The escape character is '\0' if there is none. */
  datatype Instance = Instance(escape: char, delims: seq<Delims>)

  predicate Escapes(inst: Instance, c: char) {
    inst.escape != '\0' && c == inst.escape
  }

  /** The first pair that has handlers and opens with c, from the i-th on, or the number of pairs. */
  function Opening(inst: Instance, c: char, i: nat): (r: nat)
    requires i <= |inst.delims|
    ensures i <= r <= |inst.delims|
    ensures r < |inst.delims| ==> inst.delims[r].open == c && inst.delims[r].handlers != []
    decreases |inst.delims| - i
  {
    if i == |inst.delims| || (inst.delims[i].open == c && inst.delims[i].handlers != []) then i
    else Opening(inst, c, i + 1)
  }

  predicate Opens(inst: Instance, c: char) {
    Opening(inst, c, 0) < |inst.delims|
  }

  /** The place of a character in a text, or the length of the text. */
  function Find(text: string, c: char): (n: nat)
    ensures n <= |text| && (forall i :: 0 <= i < n ==> text[i] != c)
    ensures n < |text| ==> text[n] == c
  {
    if text == "" || text[0] == c then 0 else 1 + Find(text[1..], c)
  }

  /** What the first handler gives that knows the word. */
  function Handled(handlers: seq<string -> Option<string>>, word: string): Option<string> {
    if handlers == [] then None
    else if handlers[0](word).Some? then handlers[0](word)
    else Handled(handlers[1..], word)
  }

  /** A word no handler knows stays as it is, with its delimiters. */
  function Replacement(d: Delims, word: string): string {
    match Handled(d.handlers, word)
    case Some(r) => r
    case None => [d.open] + word + [d.close]
  }

  /** The unbounded expansion. A last escape character, and text from an opening delimiter on
      that is never closed, are dropped. */
  function Expand(inst: Instance, text: string): string
    decreases |text|
  {
    if text == "" then ""
    else if Escapes(inst, text[0]) then
      if |text| == 1 then "" else [text[1]] + Expand(inst, text[2..])
    else if Opens(inst, text[0]) then
      var d := inst.delims[Opening(inst, text[0], 0)];
      var n := Find(text[1..], d.close);
      if n == |text| - 1 then "" else Replacement(d, text[1..][..n]) + Expand(inst, text[n + 2..])
    else [text[0]] + Expand(inst, text[1..])
  }

  /** How many words of the text a handler knows. */
  function Known(inst: Instance, text: string): nat
    decreases |text|
  {
    if text == "" then 0
    else if Escapes(inst, text[0]) then
      if |text| == 1 then 0 else Known(inst, text[2..])
    else if Opens(inst, text[0]) then
      var d := inst.delims[Opening(inst, text[0], 0)];
      var n := Find(text[1..], d.close);
      if n == |text| - 1 then 0
      else (if Handled(d.handlers, text[1..][..n]).Some? then 1 else 0) + Known(inst, text[n + 2..])
    else Known(inst, text[1..])
  }

  // ----- Escaping

  function Escape(inst: Instance, s: string): string {
    if s == "" then ""
    else (if s[0] == inst.escape || Opens(inst, s[0]) then [inst.escape, s[0]] else [s[0]]) + Escape(inst, s[1..])
  }

  /** Text whose escape and opening characters were escaped expands to itself. */
  lemma {:induction false} EscapedExpandsToItself(inst: Instance, s: string)
    requires inst.escape != '\0'
    ensures Expand(inst, Escape(inst, s)) == s && Known(inst, Escape(inst, s)) == 0
  {
    if s != "" {
      EscapedExpandsToItself(inst, s[1..]);
      var e := Escape(inst, s);
      if s[0] == inst.escape || Opens(inst, s[0]) {
        assert e[2..] == Escape(inst, s[1..]);
      } else {
        assert e[1..] == Escape(inst, s[1..]);
      }
    }
  }

  /** The whole text is taken in: no escape is left open at its end, and no delimiter. */
  predicate Complete(inst: Instance, text: string)
    decreases |text|
  {
    if text == "" then true
    else if Escapes(inst, text[0]) then |text| > 1 && Complete(inst, text[2..])
    else if Opens(inst, text[0]) then
      var n := Find(text[1..], inst.delims[Opening(inst, text[0], 0)].close);
      n < |text| - 1 && Complete(inst, text[n + 2..])
    else Complete(inst, text[1..])
  }

  lemma {:induction false} FindInFirst(a: string, b: string, c: char)
    requires Find(a, c) < |a|
    ensures Find(a + b, c) == Find(a, c)
  {
    if a[0] != c {
      FindInFirst(a[1..], b, c);
      assert (a + b)[1..] == a[1..] + b;
    }
  }

  lemma WordInFirst(inst: Instance, a: string, b: string, d: Delims, n: nat)
    requires a != "" && !Escapes(inst, a[0]) && Opens(inst, a[0]) && d == inst.delims[Opening(inst, a[0], 0)]
    requires n == Find(a[1..], d.close) < |a| - 1
    ensures Expand(inst, a) == Replacement(d, a[1..][..n]) + Expand(inst, a[n + 2..])
    ensures Expand(inst, a + b) == Replacement(d, a[1..][..n]) + Expand(inst, a[n + 2..] + b)
  {
    FindInFirst(a[1..], b, d.close);
    assert (a + b)[1..] == a[1..] + b;
    assert (a[1..] + b)[..n] == a[1..][..n];
    assert (a + b)[n + 2..] == a[n + 2..] + b;
  }

  lemma EscapeInFirst(inst: Instance, a: string, b: string)
    requires |a| > 1 && Escapes(inst, a[0])
    ensures Expand(inst, a) == [a[1]] + Expand(inst, a[2..]) && Expand(inst, a + b) == [a[1]] + Expand(inst, a[2..] + b)
  {
    assert (a + b)[2..] == a[2..] + b;
  }

  lemma PlainInFirst(inst: Instance, a: string, b: string)
    requires a != "" && !Escapes(inst, a[0]) && !Opens(inst, a[0])
    ensures Expand(inst, a) == [a[0]] + Expand(inst, a[1..]) && Expand(inst, a + b) == [a[0]] + Expand(inst, a[1..] + b)
  {
    assert (a + b)[1..] == a[1..] + b;
  }

  lemma Joined(a: string, b: string, c: string)
    ensures a + (b + c) == (a + b) + c
  {
  }

  lemma FirstPiece(inst: Instance, a: string, b: string) returns (first: string, k: nat)
    requires a != "" && Complete(inst, a)
    ensures 0 < k <= |a| && Complete(inst, a[k..])
    ensures Expand(inst, a) == first + Expand(inst, a[k..]) && Expand(inst, a + b) == first + Expand(inst, a[k..] + b)
  {
    if Escapes(inst, a[0]) {
      EscapeInFirst(inst, a, b);
      first, k := [a[1]], 2;
    } else if Opens(inst, a[0]) {
      var d := inst.delims[Opening(inst, a[0], 0)];
      var n := Find(a[1..], d.close);
      WordInFirst(inst, a, b, d, n);
      first, k := Replacement(d, a[1..][..n]), n + 2;
    } else {
      PlainInFirst(inst, a, b);
      first, k := [a[0]], 1;
    }
  }

  /** Complete texts expand one by one. */
  lemma {:induction false} ExpandInPieces(inst: Instance, a: string, b: string)
    requires Complete(inst, a)
    ensures Expand(inst, a + b) == Expand(inst, a) + Expand(inst, b)
    decreases |a|
  {
    if a == "" {
      assert a + b == b;
    } else {
      var first, k := FirstPiece(inst, a, b);
      ExpandInPieces(inst, a[k..], b);
      Joined(first, Expand(inst, a[k..]), Expand(inst, b));
    }
  }

  // ----- Writing to a bounded buffer

  function Min(a: nat, b: nat): nat {
    if a < b then a else b
  }

  /** Of `done` the buffer, if there is one, holds what fits before its last character. */
  ghost predicate Written(dst: array?<char>, cap: nat, done: string, offset: nat)
    requires cap >= 1 && (dst != null ==> dst.Length >= cap)
    reads dst
  {
    offset == Min(|done|, cap - 1) && (dst != null ==> dst[..offset] == done[..offset])
  }

  /** `strsub_cb`. */
  method Emit(dst: array?<char>, cap: nat, offset: nat, s: string, ghost done: string) returns (res: int)
    requires cap >= 1 && (dst != null ==> dst.Length >= cap) && Written(dst, cap, done, offset)
    modifies if dst == null then {} else {dst}
    ensures -1 <= res && (res == -1 <==> offset == cap - 1) && offset + res < cap
    ensures Written(dst, cap, done + s, if res < 0 then offset else offset + res)
    ensures dst != null ==> forall i :: offset + |s| <= i < dst.Length ==> dst[i] == old(dst[i])
    ensures dst != null ==> forall i :: cap - 1 <= i < dst.Length ==> dst[i] == old(dst[i])
  {
    if offset >= cap - 1 {
      assert dst != null ==> (done + s)[..offset] == done[..offset];
      return -1;
    }
    var len := if |s| + offset >= cap - 1 then cap - offset - 1 else |s|;
    assert offset == |done|;
    if dst != null {
      ghost var before := dst[..offset];
      forall i | 0 <= i < len { dst[offset + i] := s[i]; }
      assert dst[..offset] == before;
      assert dst[..offset + len] == done + s[..len];
      assert (done + s)[..offset + len] == done + s[..len];
    }
    res := len;
  }

  /** The handlers of a closed word, in turn; a full buffer looks to it like an unknown word. */
  method Handle(d: Delims, word: string, dst: array?<char>, cap: nat, offset: nat, ghost done: string)
    returns (res: int, known: nat)
    requires cap >= 1 && (dst != null ==> dst.Length >= cap) && Written(dst, cap, done, offset)
    modifies if dst == null then {} else {dst}
    ensures (res < 0 <==> offset == cap - 1) && res >= -1 && offset + res < cap
    ensures Written(dst, cap, done + Replacement(d, word), if res < 0 then offset else offset + res)
    ensures res >= 0 ==> known == if Handled(d.handlers, word).Some? then 1 else 0
    ensures dst != null ==> forall i :: cap - 1 <= i < dst.Length ==> dst[i] == old(dst[i])
    ensures dst != null ==> forall i :: offset + |Replacement(d, word)| <= i < dst.Length ==> dst[i] == old(dst[i])
  {
    known := 0;
    var h := 0;
    while h < |d.handlers|
      invariant h <= |d.handlers| && Written(dst, cap, done, offset)
      invariant dst != null ==> dst[..] == old(dst[..])
      invariant offset < cap - 1 ==> Handled(d.handlers, word) == Handled(d.handlers[h..], word)
    {
      var answer := d.handlers[h](word);
      if answer.Some? {
        res := Emit(dst, cap, offset, answer.value, done);
        if res >= 0 {
          known := 1;
          return;
        }
        assert dst != null ==> dst[..] == old(dst[..]);
      }
      h := h + 1;
    }
    res := Emit(dst, cap, offset, [d.open] + word + [d.close], done);
  }

  // ----- The state machine

  datatype Mode = Dull | Esc | Token(pair: nat)

  predicate ModeOk(inst: Instance, text: string, mode: Mode, start: nat, p: nat) {
    p <= |text| && (mode.Token? ==> mode.pair < |inst.delims| && start <= p)
  }

  /** What the text from p on will still expand to. */
  function Rest(inst: Instance, text: string, mode: Mode, start: nat, p: nat): string
    requires ModeOk(inst, text, mode, start, p)
  {
    match mode
    case Dull => Expand(inst, text[p..])
    case Esc => if p == |text| then "" else [text[p]] + Expand(inst, text[p + 1..])
    case Token(i) =>
      var m := Find(text[p..], inst.delims[i].close);
      if p + m == |text| then ""
      else Replacement(inst.delims[i], text[start..p + m]) + Expand(inst, text[p + m + 1..])
  }

  function RestKnown(inst: Instance, text: string, mode: Mode, start: nat, p: nat): nat
    requires ModeOk(inst, text, mode, start, p)
  {
    match mode
    case Dull => Known(inst, text[p..])
    case Esc => if p == |text| then 0 else Known(inst, text[p + 1..])
    case Token(i) =>
      var m := Find(text[p..], inst.delims[i].close);
      if p + m == |text| then 0
      else (if Handled(inst.delims[i].handlers, text[start..p + m]).Some? then 1 else 0) + Known(inst, text[p + m + 1..])
  }

  lemma DullTurn(inst: Instance, text: string, start: nat, p: nat)
    requires p < |text|
    ensures Escapes(inst, text[p]) ==>
      Rest(inst, text, Dull, start, p) == Rest(inst, text, Esc, start, p + 1) &&
      RestKnown(inst, text, Dull, start, p) == RestKnown(inst, text, Esc, start, p + 1)
    ensures !Escapes(inst, text[p]) && !Opens(inst, text[p]) ==>
      Rest(inst, text, Dull, start, p) == [text[p]] + Rest(inst, text, Dull, start, p + 1) &&
      RestKnown(inst, text, Dull, start, p) == RestKnown(inst, text, Dull, start, p + 1)
  {
    assert text[p..][1..] == text[p + 1..];
    if p + 1 < |text| { assert text[p..][2..] == text[p + 2..]; }
  }

  /** The text of a word in the text from an opening delimiter at p on. */
  lemma WordSlices(text: string, p: nat, n: nat)
    requires p < |text| && n <= |text| - p - 1
    ensures text[p..][1..] == text[p + 1..] && text[p + 1..][..n] == text[p + 1..p + 1 + n]
    ensures p + 1 + n < |text| ==> text[p..][n + 2..] == text[p + n + 2..]
  {
  }

  lemma OpenTurn(inst: Instance, text: string, start: nat, p: nat)
    requires p < |text| && !Escapes(inst, text[p]) && Opens(inst, text[p])
    ensures var i := Opening(inst, text[p], 0);
            && Rest(inst, text, Dull, start, p) == Rest(inst, text, Token(i), p + 1, p + 1)
            && RestKnown(inst, text, Dull, start, p) == RestKnown(inst, text, Token(i), p + 1, p + 1)
  {
    WordSlices(text, p, Find(text[p + 1..], inst.delims[Opening(inst, text[p], 0)].close));
  }

  lemma TokenTurn(inst: Instance, text: string, i: nat, start: nat, p: nat)
    requires p < |text| && start <= p && i < |inst.delims|
    ensures text[p] != inst.delims[i].close ==>
      Rest(inst, text, Token(i), start, p) == Rest(inst, text, Token(i), start, p + 1) &&
      RestKnown(inst, text, Token(i), start, p) == RestKnown(inst, text, Token(i), start, p + 1)
    ensures text[p] == inst.delims[i].close ==>
      Rest(inst, text, Token(i), start, p) == Replacement(inst.delims[i], text[start..p]) + Rest(inst, text, Dull, start, p + 1) &&
      RestKnown(inst, text, Token(i), start, p)
      == (if Handled(inst.delims[i].handlers, text[start..p]).Some? then 1 else 0) + RestKnown(inst, text, Dull, start, p + 1)
  {
    assert text[p..][1..] == text[p + 1..];
  }

  /** The search of the opening tokens. */
  method SeekOpening(inst: Instance, c: char) returns (i: nat)
    ensures i == Opening(inst, c, 0)
  {
    i := 0;
    while i < |inst.delims|
      invariant i <= |inst.delims| && Opening(inst, c, 0) == Opening(inst, c, i)
    {
      if inst.delims[i].handlers != [] && inst.delims[i].open == c { return; }
      i := i + 1;
    }
  }

  /** One turn of the loop of `strsub_parse`; `out` is what it gives out. */
  method Turn(inst: Instance, text: string, p: nat, mode: Mode, start: nat, dst: array?<char>, cap: nat, offset: nat, ghost done: string)
    returns (mode': Mode, start': nat, res: int, known: nat, ghost out: string)
    requires p < |text| && ModeOk(inst, text, mode, start, p)
    requires cap >= 1 && (dst != null ==> dst.Length >= cap) && Written(dst, cap, done, offset)
    modifies if dst == null then {} else {dst}
    ensures ModeOk(inst, text, mode', start', p + 1)
    ensures Rest(inst, text, mode, start, p) == out + Rest(inst, text, mode', start', p + 1)
    ensures res >= -1 && offset + res < cap && (res < 0 ==> offset == cap - 1)
    ensures Written(dst, cap, done + out, if res < 0 then offset else offset + res)
    ensures res >= 0 ==> RestKnown(inst, text, mode, start, p) == known + RestKnown(inst, text, mode', start', p + 1)
    ensures dst != null ==> forall i :: cap - 1 <= i < dst.Length ==> dst[i] == old(dst[i])
  {
    var c := text[p];
    mode', start', res, known, out := mode, start, 0, 0, "";
    assert done + out == done;
    match mode
    case Dull =>
      DullTurn(inst, text, start, p);
      if Escapes(inst, c) {
        mode' := Esc;
      } else {
        var i := SeekOpening(inst, c);
        if i < |inst.delims| {
          OpenTurn(inst, text, start, p);
          mode', start' := Token(i), p + 1;
        } else {
          out := [c];
          res := Emit(dst, cap, offset, [c], done);
        }
      }
    case Esc =>
      out := [c];
      res := Emit(dst, cap, offset, [c], done);
      mode' := Dull;
    case Token(i) =>
      TokenTurn(inst, text, i, start, p);
      if c == inst.delims[i].close {
        out := Replacement(inst.delims[i], text[start..p]);
        res, known := Handle(inst.delims[i], text[start..p], dst, cap, offset, done);
        mode' := Dull;
      }
  }

  lemma NothingLeft(inst: Instance, text: string, mode: Mode, start: nat)
    requires ModeOk(inst, text, mode, start, |text|)
    ensures Rest(inst, text, mode, start, |text|) == "" && RestKnown(inst, text, mode, start, |text|) == 0
  {
    assert text[|text|..] == "";
  }

  /** A full buffer holds no more of a longer text. */
  lemma FullOnly(done: string, rest: string, cap: nat)
    requires cap >= 1
    ensures |done| >= cap - 1 ==> Min(|done + rest|, cap - 1) == cap - 1 && (done + rest)[..cap - 1] == done[..cap - 1]
    ensures rest == "" ==> done + rest == done
  {
  }

  /** The end of `strsub_parse`. */
  method Terminate(dst: array?<char>, cap: nat, offset: nat, ghost done: string)
    requires cap >= 1 && (dst != null ==> dst.Length >= cap) && Written(dst, cap, done, offset)
    modifies if dst == null then {} else {dst}
    ensures Written(dst, cap, done, offset) && (dst != null && offset < cap - 1 ==> dst[offset] == '\0')
    ensures dst != null ==> forall i :: cap - 1 <= i < dst.Length ==> dst[i] == old(dst[i])
  {
    var res := Emit(dst, cap, offset, "\0", done);
    if dst != null && res == 1 {
      assert dst[..offset + 1] == (done + "\0")[..offset + 1] == done + "\0";
      assert dst[offset] == dst[..offset + 1][offset];
      assert dst[..offset] == dst[..offset + 1][..offset];
    }
  }

  /** `strsub_parse` with `strsub_cb`: of the expansion the buffer gets what fits before its last
      character, and a terminator if there is room for it before that character. */
  method Parse(inst: Instance, text: string, dst: array?<char>, cap: nat) returns (offset: nat, tokens: nat)
    requires cap >= 1 && (dst != null ==> dst.Length >= cap)
    modifies if dst == null then {} else {dst}
    ensures Written(dst, cap, Expand(inst, text), offset)
    ensures |Expand(inst, text)| < cap - 1 ==> tokens == Known(inst, text) && (dst != null ==> dst[offset] == '\0')
    ensures dst != null ==> forall i :: cap - 1 <= i < dst.Length ==> dst[i] == old(dst[i])
  {
    var p, mode, start, res := 0, Dull, 0, 0;
    offset, tokens := 0, 0;
    ghost var done, full := "", Expand(inst, text);
    assert text[0..] == text;
    while res >= 0 && p < |text|
      invariant ModeOk(inst, text, mode, start, p)
      invariant full == done + Rest(inst, text, mode, start, p)
      invariant Written(dst, cap, done, offset) && (res < 0 ==> offset == cap - 1)
      invariant res >= 0 ==> Known(inst, text) == tokens + RestKnown(inst, text, mode, start, p)
      invariant dst != null ==> forall i :: cap - 1 <= i < dst.Length ==> dst[i] == old(dst[i])
      decreases |text| - p
    {
      var known;
      ghost var out, rest := "", Rest(inst, text, mode, start, p);
      mode, start, res, known, out := Turn(inst, text, p, mode, start, dst, cap, offset, done);
      Joined(done, out, Rest(inst, text, mode, start, p + 1));
      done := done + out;
      p := p + 1;
      if res >= 0 {
        offset, tokens := offset + res, tokens + known;
      }
    }
    FullOnly(done, Rest(inst, text, mode, start, p), cap);
    if res >= 0 {
      NothingLeft(inst, text, mode, start);
      Terminate(dst, cap, offset, full);
    }
  }

  /** `strsub_parse_string_to`: the first characters of the expansion. They are terminated exactly
      if one character more would have fitted, or by what the buffer held before. */
  method ParseStringTo(inst: Instance, text: string, dst: array<char>, dstLen: nat) returns (offset: nat)
    requires 1 <= dstLen <= dst.Length
    modifies dst
    ensures offset == Min(|Expand(inst, text)|, dstLen - 1) && dst[..offset] == Expand(inst, text)[..offset]
    ensures dst[offset] == '\0' <==> |Expand(inst, text)| < dstLen - 1 || dstLen == 1 || old(dst[dstLen - 1]) == '\0'
    ensures forall i :: dstLen - 1 <= i < dst.Length && i > 0 ==> dst[i] == old(dst[i])
  {
    dst[0] := '\0';
    var tokens;
    offset, tokens := Parse(inst, text, dst, dstLen);
  }

  /** `strsub_parse_get_dst_length`. */
  method GetDstLength(inst: Instance, text: string) returns (n: int)
    requires |Expand(inst, text)| < 0x7FFF_FFFF
    ensures n == if Known(inst, text) == 0 then E_NOTFOUND else |Expand(inst, text)| + 1
  {
    var offset, tokens := Parse(inst, text, null, NO_LIMIT);
    n := if tokens == 0 then E_NOTFOUND else offset + 1;
  }

  /** A buffer of the size that was asked for holds the whole expansion. */
  method ExpandSized(inst: Instance, text: string) returns (dst: array<char>, offset: nat)
    requires |Expand(inst, text)| < 0x7FFF_FFFF && Known(inst, text) > 0
    ensures dst.Length == offset + 1 && dst[..offset] == Expand(inst, text)
  {
    var n := GetDstLength(inst, text);
    dst := new char[n];
    offset := ParseStringTo(inst, text, dst, n);
  }

  /** "a" in a buffer of two characters that held "xx": no terminator is written. */
  method Unterminated() returns (dst: array<char>)
    ensures dst[..] == "ax"
  {
    var inst := Instance('\0', []);
    dst := new char[]['x', 'x'];
    assert Expand(inst, "a") == ['a'] + Expand(inst, "a"[1..]) == "a";
    var offset := ParseStringTo(inst, "a", dst, 2);
    assert dst[0] == dst[..offset][0] == 'a';
  }
}
