/**
 What string substitution (src/common/strsub.c) makes of a text, piece by piece.
 */
module StrSubLaws {
  import opened Common
  import opened StrSub

  /** The pair d, the i-th, is the first with handlers that opens with its character. */
  predicate FirstToOpen(inst: Instance, i: nat) {
    && i < |inst.delims| && inst.delims[i].handlers != [] && !Escapes(inst, inst.delims[i].open)
    && forall j :: 0 <= j < i ==> inst.delims[j].open != inst.delims[i].open || inst.delims[j].handlers == []
  }

  lemma {:induction false} OpeningIs(inst: Instance, i: nat, from: nat)
    requires FirstToOpen(inst, i) && from <= i
    ensures Opening(inst, inst.delims[i].open, from) == i
    decreases i - from
  {
    if from < i { OpeningIs(inst, i, from + 1); }
  }

  lemma {:induction false} FindAfter(word: string, c: char, rest: string)
    requires c !in word
    ensures Find(word + [c] + rest, c) == |word|
  {
    var text := word + [c] + rest;
    if word != "" {
      FindAfter(word[1..], c, rest);
      assert text[1..] == word[1..] + [c] + rest;
    }
  }

  lemma WordIs(inst: Instance, i: nat, word: string, rest: string)
    requires FirstToOpen(inst, i) && inst.delims[i].close !in word
    ensures var d := inst.delims[i];
            var text := [d.open] + word + [d.close] + rest;
            && Expand(inst, text) == Replacement(d, word) + Expand(inst, rest)
            && Known(inst, text) == (if Handled(d.handlers, word).Some? then 1 else 0) + Known(inst, rest)
  {
    var d := inst.delims[i];
    var text := [d.open] + word + [d.close] + rest;
    OpeningIs(inst, i, 0);
    FindAfter(word, d.close, rest);
    assert text[0] == d.open && text[1..] == word + [d.close] + rest;
    assert text[1..][..|word|] == word && text[|word| + 2..] == rest;
  }

  lemma {:induction false} HandledBy(handlers: seq<string -> Option<string>>, word: string, k: nat)
    requires k <= |handlers| && forall j :: 0 <= j < k ==> handlers[j](word) == None
    ensures Handled(handlers, word) == if k < |handlers| && handlers[k](word).Some? then handlers[k](word) else Handled(handlers[k..], word)
  {
    if k > 0 {
      assert handlers[0](word) == None && handlers[1..][k - 1..] == handlers[k..];
      forall j | 0 <= j < k - 1 ensures handlers[1..][j](word) == None { assert handlers[1..][j] == handlers[j + 1]; }
      HandledBy(handlers[1..], word, k - 1);
    } else {
      assert handlers[0..] == handlers;
    }
  }

  /** A closed word becomes what the first handler that knows it gives, and counts as one. */
  lemma KnownWord(inst: Instance, i: nat, k: nat, word: string, rest: string, r: string)
    requires FirstToOpen(inst, i) && inst.delims[i].close !in word && k < |inst.delims[i].handlers|
    requires forall j :: 0 <= j < k ==> inst.delims[i].handlers[j](word) == None
    requires inst.delims[i].handlers[k](word) == Some(r)
    ensures var text := [inst.delims[i].open] + word + [inst.delims[i].close] + rest;
            Expand(inst, text) == r + Expand(inst, rest) && Known(inst, text) == 1 + Known(inst, rest)
  {
    WordIs(inst, i, word, rest);
    HandledBy(inst.delims[i].handlers, word, k);
  }

  /** A closed word that no handler knows stays, with its delimiters. */
  lemma UnknownWord(inst: Instance, i: nat, word: string, rest: string)
    requires FirstToOpen(inst, i) && inst.delims[i].close !in word
    requires forall j :: 0 <= j < |inst.delims[i].handlers| ==> inst.delims[i].handlers[j](word) == None
    ensures var text := [inst.delims[i].open] + word + [inst.delims[i].close];
            Expand(inst, text + rest) == text + Expand(inst, rest) && Known(inst, text + rest) == Known(inst, rest)
  {
    WordIs(inst, i, word, rest);
    HandledBy(inst.delims[i].handlers, word, |inst.delims[i].handlers|);
  }

  /** A character that was escaped, and one that has no meaning, stand for themselves. */
  lemma OneCharacter(inst: Instance, c: char, rest: string)
    ensures inst.escape != '\0' ==> Expand(inst, [inst.escape, c] + rest) == [c] + Expand(inst, rest)
    ensures !Escapes(inst, c) && (forall j :: 0 <= j < |inst.delims| ==> inst.delims[j].open != c || inst.delims[j].handlers == []) ==>
      Expand(inst, [c] + rest) == [c] + Expand(inst, rest)
  {
    assert ([inst.escape, c] + rest)[2..] == rest && ([c] + rest)[1..] == rest;
  }

  /** What is never closed or escapes nothing is dropped. */
  lemma Dropped(inst: Instance, i: nat, word: string)
    requires FirstToOpen(inst, i) && inst.delims[i].close !in word
    ensures Expand(inst, [inst.delims[i].open] + word) == ""
    ensures inst.escape != '\0' ==> Expand(inst, [inst.escape]) == ""
  {
    OpeningIs(inst, i, 0);
    assert ([inst.delims[i].open] + word)[1..] == word;
    assert Find(word, inst.delims[i].close) == |word|;
  }

  lemma UnknownIs(d: Delims, text: string, n: nat)
    requires n + 1 < |text| && text[0] == d.open && text[n + 1] == d.close && Handled(d.handlers, text[1..][..n]) == None
    ensures Replacement(d, text[1..][..n]) + text[n + 2..] == text
  {
    assert text == [text[0]] + text[1..][..n] + [text[n + 1]] + text[n + 2..];
  }

  /** A complete text without escapes of which no handler knows a word stays as it is. */
  lemma {:induction false} UnknownStays(inst: Instance, text: string)
    requires Complete(inst, text) && Known(inst, text) == 0 && forall i :: 0 <= i < |text| ==> !Escapes(inst, text[i])
    ensures Expand(inst, text) == text
    decreases |text|
  {
    if text != "" {
      if Opens(inst, text[0]) {
        var d := inst.delims[Opening(inst, text[0], 0)];
        var n := Find(text[1..], d.close);
        UnknownStays(inst, text[n + 2..]);
        UnknownIs(d, text, n);
      } else {
        UnknownStays(inst, text[1..]);
        assert text == [text[0]] + text[1..];
      }
    }
  }
}
