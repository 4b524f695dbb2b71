/** The search predicate `Question.question.ilike("%" + term + "%")`, with ASCII case folding. */
module TextMatch {

  function LowerChar(c: char): char
  {
    if 'A' <= c <= 'Z' then (c as int + 32) as char else c
  }

  /** ASCII case folding: capitals become their lower-case letter, every other character stays. */
  function Lower(s: string): (r: string)
    ensures |r| == |s|
    ensures forall i :: 0 <= i < |r| ==> !('A' <= r[i] <= 'Z')
    ensures forall i :: 0 <= i < |s| && !('A' <= s[i] <= 'Z') ==> r[i] == s[i]
    ensures forall i :: 0 <= i < |s| && 'A' <= s[i] <= 'Z' ==> 'a' <= r[i] <= 'z' && r[i] as int - s[i] as int == 'a' as int - 'A' as int
  {
    seq(|s|, i requires 0 <= i < |s| => LowerChar(s[i]))
  }

  /** `pat` occurs in `s` starting at position `i`. */
  ghost predicate OccursAt(pat: string, s: string, i: int)
  {
    0 <= i <= |s| - |pat| && s[i..i + |pat|] == pat
  }

  /** `pat` occurs in `s` at some position. */
  ghost predicate Occurs(pat: string, s: string)
  {
    exists i :: OccursAt(pat, s, i)
  }

  /** Tries every position of `s` from the left. */
  function IsSubstring(pat: string, s: string): (b: bool)
    ensures b <==> Occurs(pat, s)
    decreases |s|
  {
    if |pat| > |s| then false
    else if s[..|pat|] == pat then
      assert OccursAt(pat, s, 0);
      true
    else
      var b := IsSubstring(pat, s[1..]);
      assert b ==> Occurs(pat, s) by {
        if b {
          var i :| OccursAt(pat, s[1..], i);
          assert s[i + 1..i + 1 + |pat|] == s[1..][i..i + |pat|];
          assert OccursAt(pat, s, i + 1);
        }
      }
      assert Occurs(pat, s) ==> b by {
        if Occurs(pat, s) {
          var i :| OccursAt(pat, s, i);
          assert i != 0;
          assert s[1..][i - 1..i - 1 + |pat|] == s[i..i + |pat|];
          assert OccursAt(pat, s[1..], i - 1);
        }
      }
      b
  }

  /** `text ILIKE '%term%'`: the term occurs in the text once both are folded to lower case. */
  function ILikeContains(text: string, term: string): (b: bool)
    ensures b <==> Occurs(Lower(term), Lower(text))
  {
    IsSubstring(Lower(term), Lower(text))
  }

  /** The empty term matches every text (the pattern is `%%`). */
  lemma EmptyTermMatchesAll(text: string)
    ensures ILikeContains(text, "")
  {
    assert OccursAt(Lower(""), Lower(text), 0);
  }

  /** The match sees the term only through its lower-case form, so "TITLE" and "title" agree. */
  lemma ILikeIgnoresCase(text: string, t1: string, t2: string)
    requires Lower(t1) == Lower(t2)
    ensures ILikeContains(text, t1) == ILikeContains(text, t2)
  {
  }

  /** Folding twice is folding once. */
  lemma LowerIdempotent(s: string)
    ensures Lower(Lower(s)) == Lower(s)
  {
  }

  lemma AlphabetFolds()
    ensures Lower("ABCDEFGHIJKLMNOPQRSTUVWXYZ") == "abcdefghijklmnopqrstuvwxyz"
  {
  }

  lemma TitleFoldsToLower()
    ensures Lower("TITLE") == Lower("title") == "title"
  {
  }
}
