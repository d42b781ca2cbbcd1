/** Searching in strings, as the request parser does it with `std::string::find`. */
module HttpText {
  /** `std::string::find` for a character: the first position from `from` on, or -1. */
  function FindChar(s: string, c: char, from: nat): (r: int)
    ensures r == -1 || (from <= r < |s| && s[r] == c)
    decreases |s| - from
  {
    if from >= |s| then -1 else if s[from] == c then from else FindChar(s, c, from + 1)
  }

  /** What `FindChar` passes over is not the character. */
  lemma {:induction false} PassedOver(s: string, c: char, from: nat)
    ensures var r := FindChar(s, c, from); forall i :: from <= i < (if r == -1 then |s| else r) ==> s[i] != c
    decreases |s| - from
  {
    if from < |s| && s[from] != c {
      PassedOver(s, c, from + 1);
      assert FindChar(s, c, from) == FindChar(s, c, from + 1);
    }
  }

  /** `part` stands at position `i`. */
  ghost predicate At(s: string, i: int, part: string) {
    0 <= i && i + |part| <= |s| && s[i..i + |part|] == part
  }

  /** `std::string::find` for a string. */
  function Find(s: string, pat: string, from: nat): (r: int)
    ensures r == -1 || (from <= r && At(s, r, pat))
    ensures forall i :: from <= i && At(s, i, pat) ==> 0 <= r <= i
    decreases |s| - from
  {
    if from + |pat| > |s| then -1 else if s[from..from + |pat|] == pat then from else Find(s, pat, from + 1)
  }

  lemma FirstChar(s: string, c: char, from: nat, r: nat)
    requires from <= r < |s| && s[r] == c && forall i :: from <= i < r ==> s[i] != c
    ensures FindChar(s, c, from) == r
  {
    hide FindChar;
    PassedOver(s, c, from);
  }

  ghost predicate Free(s: string, cs: set<char>) {
    forall i :: 0 <= i < |s| ==> s[i] !in cs
  }

  lemma FreeOfBoth(a: string, b: string, cs: set<char>)
    ensures Free(a + b, cs) <==> Free(a, cs) && Free(b, cs)
  {
    assert forall i :: 0 <= i < |a| ==> (a + b)[i] == a[i];
    assert forall i :: 0 <= i < |b| ==> (a + b)[|a| + i] == b[i];
  }

  lemma CharAt(str: string, i: nat, part: string, k: nat)
    requires At(str, i, part) && k < |part|
    ensures str[i + k] == part[k]
  {
    assert str[i..i + |part|][k] == part[k];
  }

  lemma AtSplit(str: string, i: nat, a: string, b: string)
    requires At(str, i, a + b)
    ensures At(str, i, a) && At(str, i + |a|, b)
  {
    assert str[i..i + |a|] == str[i..i + |a + b|][..|a|];
    assert str[i + |a|..i + |a| + |b|] == str[i..i + |a + b|][|a|..];
  }
}
