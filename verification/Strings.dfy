/** The std::string operations the servers use: find, trimming, and splitting at a separator. */
module Strings {

  predicate At(s: string, i: int, p: string) {
    0 <= i && i + |p| <= |s| && s[i..i + |p|] == p
  }

  /** std::string::find: the first occurrence at or after `from`, or -1 for npos. */
  function Find(s: string, p: string, from: nat): (i: int)
    ensures i == -1 || (from <= i && At(s, i, p))
    ensures forall j :: from <= j && (i == -1 || j < i) ==> !At(s, j, p)
    decreases |s| - from
  {
    if At(s, from, p) then from
    else if from >= |s| then -1
    else Find(s, p, from + 1)
  }

  lemma FindUnique(s: string, p: string, from: nat, i: int)
    requires from <= i && At(s, i, p) && forall j :: from <= j < i ==> !At(s, j, p)
    ensures Find(s, p, from) == i
  {
  }

  predicate Contains(s: string, p: string) {
    Find(s, p, 0) != -1
  }

  predicate StartsWith(s: string, p: string) {
    At(s, 0, p)
  }

  /** The part of a string before the first c. */
  function Before(s: string, c: char): (r: string)
    ensures r <= s && c !in r
    ensures |r| < |s| ==> s[|r|] == c
  {
    if s == "" || s[0] == c then "" else
      var t := Before(s[1..], c);
      assert s[..|t| + 1] == [s[0]] + s[1..][..|t|];
      [s[0]] + t
  }

  lemma BeforeSeparator(s: string, c: char, t: string)
    requires c !in s
    ensures Before(s + [c] + t, c) == s && Before(s, c) == s
  {
    var whole := s + [c] + t;
    var r := Before(whole, c);
    assert whole[|s|] == c;
    assert forall i :: 0 <= i < |s| ==> whole[i] == s[i];
    assert |r| == |s|;
    assert r == whole[..|s|] == s;
    assert |Before(s, c)| == |s|;
  }

  // ---- trimming ----

  function TrimLeft(s: string, blanks: set<char>): (r: string)
    ensures |r| <= |s|
    ensures r != "" ==> r[0] !in blanks
  {
    if s != "" && s[0] in blanks then TrimLeft(s[1..], blanks) else s
  }

  function TrimRight(s: string, blanks: set<char>): (r: string)
    ensures |r| <= |s|
    ensures r != "" ==> r[|r| - 1] !in blanks
  {
    if s != "" && s[|s| - 1] in blanks then TrimRight(s[..|s| - 1], blanks) else s
  }

  lemma {:induction false} TrimLeftMeans(s: string, blanks: set<char>)
    ensures TrimLeft(s, blanks) == s[|s| - |TrimLeft(s, blanks)|..]
    ensures forall i :: 0 <= i < |s| - |TrimLeft(s, blanks)| ==> s[i] in blanks
  {
    if s != "" && s[0] in blanks {
      TrimLeftMeans(s[1..], blanks);
      assert forall i :: 1 <= i < |s| ==> s[i] == s[1..][i - 1];
    }
  }

  lemma {:induction false} TrimRightMeans(s: string, blanks: set<char>)
    ensures TrimRight(s, blanks) <= s
    ensures forall i :: |TrimRight(s, blanks)| <= i < |s| ==> s[i] in blanks
  {
    if s != "" && s[|s| - 1] in blanks {
      TrimRightMeans(s[..|s| - 1], blanks);
    }
  }

  function Trim(s: string, blanks: set<char>): string {
    TrimRight(TrimLeft(s, blanks), blanks)
  }

  /** No blank at either end, and not empty. */
  predicate Tight(s: string, blanks: set<char>) {
    s != "" && s[0] !in blanks && s[|s| - 1] !in blanks
  }

  lemma TrimTight(s: string, blanks: set<char>)
    requires s == "" || Tight(s, blanks)
    ensures Trim(s, blanks) == TrimLeft(s, blanks) == TrimRight(s, blanks) == s
  {
  }

  /** The pieces between the separators; always at least one. */
  function Split(s: string, c: char): (pieces: seq<string>)
    ensures |pieces| > 0
    decreases |s|
  {
    var first := Before(s, c);
    if |first| == |s| then [s] else [first] + Split(s[|first| + 1..], c)
  }

  lemma SplitUnfolds(s: string, c: char)
    ensures |Before(s, c)| == |s| ==> Split(s, c) == [s]
    ensures |Before(s, c)| < |s| ==> Split(s, c) == [Before(s, c)] + Split(s[|Before(s, c)| + 1..], c)
  {
  }

  lemma FindChar(s: string, c: char, t: string, from: nat)
    requires from <= |s| && c !in s[from..]
    ensures Find(s + [c] + t, [c], from) == |s|
  {
    var whole := s + [c] + t;
    assert whole[|s|..|s| + 1] == [c];
    forall j | from <= j < |s| ensures !At(whole, j, [c]) {
      assert whole[j] == s[j] == s[from..][j - from];
      assert whole[j..j + 1][0] == whole[j];
    }
    FindUnique(whole, [c], from, |s|);
  }

  function NonEmpty(tokens: seq<string>): (r: seq<string>)
    ensures "" !in r
  {
    if tokens == [] then []
    else NonEmpty(tokens[..|tokens| - 1]) + if tokens[|tokens| - 1] == "" then [] else [tokens[|tokens| - 1]]
  }

  /** Dropping the empty ones keeps the others, in order. */
  lemma {:induction false} NonEmptyOfSum(s: seq<string>, t: seq<string>)
    ensures NonEmpty(s + t) == NonEmpty(s) + NonEmpty(t)
  {
    if t == [] {
      assert s + t == s;
    } else {
      var init, last := t[..|t| - 1], t[|t| - 1];
      assert t == init + [last] && s + t == (s + init) + [last];
      NonEmptyOfSum(s, init);
      NonEmptyLast(s + init, last);
      NonEmptyLast(init, last);
    }
  }

  lemma NonEmptyLast(s: seq<string>, last: string)
    ensures NonEmpty(s + [last]) == NonEmpty(s) + if last == "" then [] else [last]
  {
    assert (s + [last])[..|s|] == s;
  }

  lemma {:induction false} NonEmptyMembers(tokens: seq<string>, s: string)
    ensures s in NonEmpty(tokens) <==> s in tokens && s != ""
  {
    if tokens != [] {
      NonEmptyMembers(tokens[..|tokens| - 1], s);
      assert tokens == tokens[..|tokens| - 1] + [tokens[|tokens| - 1]];
    }
  }

  lemma {:induction false} NoneEmpty(tokens: seq<string>)
    requires "" !in tokens
    ensures NonEmpty(tokens) == tokens
  {
    if tokens != [] {
      assert tokens[|tokens| - 1] in tokens;
      assert forall s :: s in tokens[..|tokens| - 1] ==> s in tokens;
      NoneEmpty(tokens[..|tokens| - 1]);
    }
  }
}
