/**
 The wildcard matcher of the Zephyr file system port (src/qfs_zephyr.c).

 A C string is modelled by the characters before its terminating NUL, so reading
 the terminator is "the index has reached the length".
 */
module Wildcard {

  /** The declarative meaning of a pattern: '*' stands for any run of characters,
      '?' for any single character, and every other character for itself. */
  ghost predicate Matches(pat: string, str: string)
    decreases |pat|
  {
    if pat == [] then str == []
    else if pat[0] == '*' then exists k :: 0 <= k <= |str| && Matches(pat[1..], str[k..])
    else str != [] && Fits(pat[0], str[0]) && Matches(pat[1..], str[1..])
  }

  predicate Fits(p: char, c: char) {
    p == '?' || p == c
  }

  predicate StarFree(pat: string) {
    forall i :: 0 <= i < |pat| ==> pat[i] != '*'
  }

  /** A pattern without stars fixes the length of what it matches and matches
      character by character. */
  lemma {:induction false} StarFreePrefix(pat: string, m: nat, str: string)
    requires m <= |pat| && StarFree(pat[..m])
    ensures Matches(pat, str) <==>
            m <= |str| && (forall i :: 0 <= i < m ==> Fits(pat[i], str[i])) && Matches(pat[m..], str[m..])
  {
    if m == 0 {
      assert pat[0..] == pat && str[0..] == str;
    } else {
      assert pat[0] == pat[..m][0] != '*';
      if str != [] {
        var p, s := pat[1..], str[1..];
        assert p[..m - 1] == pat[..m][1..];
        StarFreePrefix(p, m - 1, s);
        assert p[m - 1..] == pat[m..];
        assert m <= |str| ==> s[m - 1..] == str[m..];
        assert forall i :: 0 <= i < m - 1 ==> p[i] == pat[i + 1];
        assert forall i :: 0 <= i < |s| ==> s[i] == str[i + 1];
        if Matches(pat, str) {
          forall i | 0 <= i < m ensures Fits(pat[i], str[i]) {
            if i > 0 { assert Fits(p[i - 1], s[i - 1]); }
          }
        }
      }
    }
  }

  /** What the matcher may still try: the current attempt, or a later restart of the
      last star. */
  ghost predicate Remaining(pat: string, str: string, p: nat, s: nat, ps: int, ss: nat)
    requires p <= |pat| && s <= |str| && ps <= p && ss <= |str|
  {
    Matches(pat[p..], str[s..]) || (ps >= 0 && LaterRestart(pat, str, ps, ss))
  }

  ghost predicate LaterRestart(pat: string, str: string, ps: nat, ss: nat)
    requires ps <= |pat| && ss <= |str|
  {
    exists k :: ss < k <= |str| && Matches(pat[ps..], str[k..])
  }

  /** Remembering only the last star loses nothing: a restart of the star before it
      leaves a suffix that the star at p can absorb by itself. */
  lemma RestartReaches(pat: string, str: string, ps: nat, ss: nat, p: nat, s: nat)
    requires ps <= p <= |pat| && ss <= s <= |str| && p - ps == s - ss
    requires StarFree(pat[ps..p])
    requires LaterRestart(pat, str, ps, ss)
    ensures exists k :: s < k <= |str| && Matches(pat[p..], str[k..])
  {
    var k :| ss < k <= |str| && Matches(pat[ps..], str[k..]);
    var m := p - ps;
    assert pat[ps..][..m] == pat[ps..p];
    StarFreePrefix(pat[ps..], m, str[k..]);
    assert pat[ps..][m..] == pat[p..] && str[k..][m..] == str[k + m..];
  }

  lemma StarStep(pat: string, str: string, ps: int, ss: nat, p: nat, s: nat)
    requires ps <= p < |pat| && ss <= s <= |str| && pat[p] == '*'
    requires ps >= 0 ==> p - ps == s - ss && StarFree(pat[ps..p])
    ensures Remaining(pat, str, p, s, ps, ss) <==> Remaining(pat, str, p + 1, s, p + 1, s)
  {
    assert pat[p..][1..] == pat[p + 1..];
    if ps >= 0 && LaterRestart(pat, str, ps, ss) {
      RestartReaches(pat, str, ps, ss, p, s);
      var k :| s < k <= |str| && Matches(pat[p..], str[k..]);
      var j :| 0 <= j <= |str[k..]| && Matches(pat[p + 1..], str[k..][j..]);
      assert str[k..][j..] == str[k + j..];
    }
    if Matches(pat[p..], str[s..]) {
      var j :| 0 <= j <= |str[s..]| && Matches(pat[p + 1..], str[s..][j..]);
      assert str[s..][j..] == str[s + j..];
    }
    if LaterRestart(pat, str, p + 1, s) {
      var k :| s < k <= |str| && Matches(pat[p + 1..], str[k..]);
      assert str[s..][k - s..] == str[k..];
    }
    if Matches(pat[p + 1..], str[s..]) {
      assert str[s..][0..] == str[s..];
    }
  }

  lemma RestartStep(pat: string, str: string, ps: nat, ss: nat)
    requires ps <= |pat| && ss < |str|
    ensures LaterRestart(pat, str, ps, ss) <==> Remaining(pat, str, ps, ss + 1, ps, ss + 1)
  {
  }

  lemma OnlyStarsMatchEmpty(pat: string)
    ensures Matches(pat, []) <==> forall i :: 0 <= i < |pat| ==> pat[i] == '*'
  {
    if pat != [] {
      OnlyStarsMatchEmpty(pat[1..]);
      var none: string := [];
      assert none[0..] == none;
      if forall i :: 0 <= i < |pat| ==> pat[i] == '*' {
        assert forall i :: 0 <= i < |pat[1..]| ==> pat[1..][i] == pat[i + 1];
      }
    }
  }

  lemma FitStep(pat: string, str: string, ps: int, ss: nat, p: nat, s: nat)
    requires ps <= p < |pat| && ss <= s < |str| && pat[p] != '*' && Fits(pat[p], str[s])
    requires ps >= 0 ==> StarFree(pat[ps..p])
    ensures Remaining(pat, str, p, s, ps, ss) <==> Remaining(pat, str, p + 1, s + 1, ps, ss)
    ensures ps >= 0 ==> StarFree(pat[ps..p + 1])
  {
    assert pat[p..][1..] == pat[p + 1..] && str[s..][1..] == str[s + 1..];
    assert ps >= 0 ==> pat[ps..p + 1] == pat[ps..p] + [pat[p]];
  }

  /** Where the attempt fails, only a later restart is left. */
  lemma NoFit(pat: string, str: string, ps: int, ss: nat, p: nat, s: nat)
    requires ps <= p <= |pat| && ss <= s < |str| && (p < |pat| ==> pat[p] != '*' && !Fits(pat[p], str[s]))
    ensures ps < 0 ==> !Remaining(pat, str, p, s, ps, ss)
    ensures ps >= 0 ==> (Remaining(pat, str, p, s, ps, ss) <==> Remaining(pat, str, ps, ss + 1, ps, ss + 1))
  {
    if ps >= 0 { RestartStep(pat, str, ps, ss); }
  }

  /** At the end of the string only stars may be left of the pattern. */
  lemma AtEnd(pat: string, str: string, ps: int, ss: nat, p: nat)
    requires ps <= p <= |pat| && ss <= |str|
    requires ps >= 0 ==> p - ps == |str| - ss && StarFree(pat[ps..p])
    ensures Remaining(pat, str, p, |str|, ps, ss) <==> forall i :: p <= i < |pat| ==> pat[i] == '*'
  {
    if ps >= 0 && LaterRestart(pat, str, ps, ss) {
      RestartReaches(pat, str, ps, ss, p, |str|);
      assert false;
    }
    assert str[|str|..] == [];
    OnlyStarsMatchEmpty(pat[p..]);
    assert forall i :: p <= i < |pat| ==> pat[i] == pat[p..][i - p];
  }

  /** `match_simple`: backtracks to the last star only, and decides Matches. */
  method MatchSimple(pat: string, str: string) returns (accepted: bool)
    ensures accepted == Matches(pat, str)
  {
    var p, s := 0, 0;
    var ps, ss := -1, 0;  // the last star's restart point; ps < 0 while there is none
    assert pat[0..] == pat && str[0..] == str;
    while s < |str|
      invariant p <= |pat| && ss <= s <= |str| && -1 <= ps <= p
      invariant ps >= 0 ==> p - ps == s - ss && StarFree(pat[ps..p])
      invariant Matches(pat, str) <==> Remaining(pat, str, p, s, ps, ss)
      decreases if ps < 0 then |str| + 1 else |str| - ss, |pat| - p
    {
      if p < |pat| && pat[p] == '*' {
        StarStep(pat, str, ps, ss, p, s);
        p := p + 1;
        ps, ss := p, s;
      } else if p < |pat| && Fits(pat[p], str[s]) {
        FitStep(pat, str, ps, ss, p, s);
        p, s := p + 1, s + 1;
      } else if ps >= 0 {
        NoFit(pat, str, ps, ss, p, s);
        p, ss := ps, ss + 1;
        s := ss;
      } else {
        NoFit(pat, str, ps, ss, p, s);
        return false;
      }
    }
    AtEnd(pat, str, ps, ss, p);
    ghost var rest := p;
    while p < |pat| && pat[p] == '*'
      invariant rest <= p <= |pat|
      invariant forall i :: rest <= i < p ==> pat[i] == '*'
    {
      p := p + 1;
    }
    accepted := p == |pat|;
  }

  /** What each character of a pattern means. */
  lemma CharactersMean(pat: string, str: string, c: char)
    ensures Matches([], str) <==> str == []
    ensures Matches("?" + pat, str) <==> |str| >= 1 && Matches(pat, str[1..])
    ensures Matches("*" + pat, str) <==> exists k :: 0 <= k <= |str| && Matches(pat, str[k..])
    ensures c != '?' && c != '*' ==> (Matches([c] + pat, str) <==> |str| >= 1 && str[0] == c && Matches(pat, str[1..]))
  {
    assert ("?" + pat)[1..] == pat && ("*" + pat)[1..] == pat && ([c] + pat)[1..] == pat;
  }

  /** "?" matches the texts of one character, "*" all. */
  lemma OneAndAny(str: string)
    ensures Matches("?", str) <==> |str| == 1
    ensures Matches("*", str)
  {
    CharactersMean([], str, 'a');
    assert "?" == "?" + [] && "*" == "*" + [] && str[|str|..] == [];
    assert |str| >= 1 && str[1..] == [] <==> |str| == 1;
  }
}
