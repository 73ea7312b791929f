/**
 The parts of a text between occurrences of a character.
 */
module Splitting {

  function Split(s: string, c: char): (g: seq<string>)
    ensures |g| >= 1
  {
    if s == [] then [[]]
    else
      var g := Split(s[1..], c);
      if s[0] == c then [[]] + g else [[s[0]] + g[0]] + g[1..]
  }

  lemma {:induction false} SplitNone(s: string, c: char)
    requires c !in s
    ensures Split(s, c) == [s]
  {
    if s != [] {
      SplitNone(s[1..], c);
      assert [s[0]] + s[1..] == s;
    }
  }

  lemma {:induction false} SplitConcat(a: string, c: char, b: string)
    ensures Split(a + ([c] + b), c) == Split(a, c) + Split(b, c)
  {
    var s := a + ([c] + b);
    if a == [] {
      assert s[1..] == b;
    } else {
      assert s[1..] == a[1..] + ([c] + b);
      SplitConcat(a[1..], c, b);
    }
  }

  lemma SplitTrailing(s: string, c: char)
    ensures Split(s + [c], c) == Split(s, c) + [[]]
  {
    SplitConcat(s, c, []);
    assert [c] + [] == [c];
  }

  /** What the first k characters say about the first part. */
  lemma {:induction false} SplitHead(s: string, c: char, k: nat)
    requires k <= |s| && c !in s[..k]
    ensures k == |s| ==> Split(s, c) == [s]
    ensures k < |s| && s[k] == c ==> Split(s, c) == [s[..k]] + Split(s[k + 1..], c)
    ensures k < |s| && s[k] != c ==> s[..k + 1] <= Split(s, c)[0]
    ensures s[..k] <= Split(s, c)[0]
  {
    if k == |s| {
      assert s[..k] == s;
      SplitNone(s, c);
    } else if k > 0 {
      assert s[..k][0] == s[0] && s[1..][..k - 1] == s[..k][1..] && s[1..][k..] == s[k + 1..];
      SplitHead(s[1..], c, k - 1);
      assert [s[0]] + s[1..][..k - 1] == s[..k];
      assert [s[0]] + s[1..][..k] == s[..k + 1];
    }
  }

  lemma {:induction false} SplitMany(s: string, c: char)
    requires c in s
    ensures |Split(s, c)| > 1
  {
    if s[0] != c { SplitMany(s[1..], c); }
  }
}
