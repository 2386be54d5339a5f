/** Python's `pattern in text` on strings. */
module Text {

  /** `pat` occurs in `text` starting at position i. */
  ghost predicate OccursAt(text: string, pat: string, i: int)
  {
    0 <= i <= |text| - |pat| && text[i..i + |pat|] == pat
  }

  /** `pat` occurs somewhere in `text`. */
  ghost predicate Mentions(text: string, pat: string)
  {
    exists i :: OccursAt(text, pat, i)
  }

  /** The substring test: true exactly when `pat` occurs somewhere in `text`. */
  function Contains(text: string, pat: string): (b: bool)
    ensures b <==> Mentions(text, pat)
    decreases |text|
  {
    if |text| < |pat| then false
    else if text[..|pat|] == pat then (assert OccursAt(text, pat, 0); true)
    else
      var rest := Contains(text[1..], pat);
      assert rest ==> exists i :: OccursAt(text, pat, i) by {
        if rest {
          var i :| OccursAt(text[1..], pat, i);
          assert text[i + 1..i + 1 + |pat|] == text[1..][i..i + |pat|];
          assert OccursAt(text, pat, i + 1);
        }
      }
      assert forall i :: OccursAt(text, pat, i) ==> OccursAt(text[1..], pat, i - 1) by {
        forall i | OccursAt(text, pat, i)
          ensures OccursAt(text[1..], pat, i - 1)
        {
          assert text[1..][i - 1..i - 1 + |pat|] == text[i..i + |pat|];
        }
      }
      rest
  }

  /** The empty pattern occurs in every text, so an empty password opens every gate. */
  lemma EmptyPatternAlwaysContained(text: string)
    ensures Contains(text, "")
  {
  }
}
