/** Searching a string, and facts about sequences that the solver is slow to find by itself. */
module Sequences {

  lemma Associates<T>(a: seq<T>, b: seq<T>, c: seq<T>)
    ensures (a + b) + c == a + (b + c)
  {}

  /** The position of the first occurrence, or the length (`find`, `memchr`, `strchr`). */
  function Find(s: string, c: char): (i: nat)
    ensures i <= |s| && c !in s[..i]
    ensures i < |s| ==> s[i] == c
    ensures i < |s| <==> c in s
  {
    if s == "" then 0
    else if s[0] == c then 0
    else
      assert forall j :: 0 < j < |s| ==> s[j] == s[1..][j - 1];
      1 + Find(s[1..], c)
  }

  lemma {:induction false} FindIs(s: string, c: char, i: nat)
    requires i <= |s| && c !in s[..i] && (i < |s| ==> s[i] == c)
    ensures Find(s, c) == i
  {
    if i > 0 {
      assert s[0] == s[..i][0] && s[1..][..i - 1] == s[..i][1..];
      FindIs(s[1..], c, i - 1);
    }
  }

  lemma Drops<T>(a: seq<T>, b: seq<T>, k: nat)
    requires k <= |a|
    ensures (a + b)[k..] == a[k..] + b
  {}

  lemma FindSplits(s: string, c: char)
    ensures var i := Find(s, c);
            s == s[..i] + s[i..] && c !in s[..i] && (s[i..] == "" || s[i..][0] == c)
  {}

  lemma DropDrop<T>(s: seq<T>, k: nat, i: nat)
    requires k + i <= |s|
    ensures s[k..][i..] == s[k + i..]
  {}

  lemma FindNext(s: string, c: char)
    requires s != "" && s[0] != c
    ensures Find(s, c) == 1 + Find(s[1..], c) && s[Find(s, c)..] == s[1..][Find(s[1..], c)..]
  {
    DropDrop(s, 1, Find(s[1..], c));
  }
}
