/** The JavaScript string operations the page loader relies on, over
    `seq<char>`: `indexOf`, `includes`, `replace` with a string pattern
    (first occurrence only) and `split("/").pop()`. */
module Strings {

  /** `pat` occurs in `s` starting at index `i`. */
  predicate OccursAt(s: string, pat: string, i: int) {
    0 <= i && i + |pat| <= |s| && s[i..i + |pat|] == pat
  }

  /** Shifting the search window by one character when the first one is dropped. */
  lemma OccursAtTail(s: string, pat: string)
    requires |s| > 0
    ensures forall k :: 0 <= k ==> (OccursAt(s[1..], pat, k) <==> OccursAt(s, pat, k + 1))
    ensures forall j :: 1 <= j ==> (OccursAt(s, pat, j) <==> OccursAt(s[1..], pat, j - 1))
  {
    forall k | 0 <= k ensures OccursAt(s[1..], pat, k) <==> OccursAt(s, pat, k + 1) {
      if 0 <= k && k + |pat| <= |s| - 1 {
        assert s[1..][k..k + |pat|] == s[k + 1..k + 1 + |pat|];
      }
    }
    forall j | 1 <= j ensures OccursAt(s, pat, j) <==> OccursAt(s[1..], pat, j - 1) {
      assert OccursAt(s[1..], pat, j - 1) <==> OccursAt(s, pat, j - 1 + 1);
    }
  }

  /** `s.indexOf(pat)`: the index of the first occurrence of `pat`, or -1
      (see `IndexOfSpec`). */
  function IndexOf(s: string, pat: string): (r: int)
    ensures -1 <= r && (r >= 0 ==> r + |pat| <= |s|)
    decreases |s|
  {
    if |s| < |pat| then -1
    else if s[..|pat|] == pat then 0
    else
      var r := IndexOf(s[1..], pat);
      if r < 0 then -1 else r + 1
  }

  /** `indexOf` finds the first occurrence: a non-negative result is an
      occurrence with none before it, and -1 means there is none at all. */
  lemma {:induction false} IndexOfSpec(s: string, pat: string)
    ensures -1 <= IndexOf(s, pat) <= |s|
    ensures IndexOf(s, pat) >= 0 ==> OccursAt(s, pat, IndexOf(s, pat))
    ensures forall j :: 0 <= j && (IndexOf(s, pat) < 0 || j < IndexOf(s, pat)) ==> !OccursAt(s, pat, j)
    decreases |s|
  {
    if |s| < |pat| {
    } else if s[..|pat|] == pat {
    } else {
      IndexOfSpec(s[1..], pat);
      OccursAtTail(s, pat);
    }
  }

  /** `s.includes(pat)`, and equally `s.indexOf(pat) > -1`. */
  predicate Contains(s: string, pat: string) {
    IndexOf(s, pat) >= 0
  }

  /** `includes` holds exactly when some window of `s` spells `pat`. */
  lemma ContainsIff(s: string, pat: string)
    ensures Contains(s, pat) <==> exists j :: OccursAt(s, pat, j)
  {
    IndexOfSpec(s, pat);
  }

  /** `s.replace(pat, rep)` with a string pattern: only the first occurrence
      is replaced; without an occurrence `s` is returned as is. Exact only
      for a `rep` without `$`, whose `$&`, `$'`, `` $` `` and `$$` patterns
      JavaScript would expand; the loader only passes `""` and `"-"`. */
  function ReplaceFirst(s: string, pat: string, rep: string): string {
    var i := IndexOf(s, pat);
    if i < 0 then s else s[..i] + rep + s[i + |pat|..]
  }

  /** Replacing a leading `pat` by nothing removes exactly that prefix; the
      empty pattern occurs at 0, so it leaves `s` unchanged. */
  lemma ReplaceLeading(s: string, pat: string)
    requires |pat| <= |s| && s[..|pat|] == pat
    ensures ReplaceFirst(s, pat, "") == s[|pat|..]
  {
    IndexOfSpec(s, pat);
    assert OccursAt(s, pat, 0);
  }

  /** For a one-character pattern, `indexOf` is the first position holding
      that character. */
  lemma IndexOfChar(s: string, c: char)
    ensures IndexOf(s, [c]) < 0 <==> c !in s
    ensures IndexOf(s, [c]) >= 0 ==>
      var i := IndexOf(s, [c]); i < |s| && s[i] == c && c !in s[..i]
  {
    var i := IndexOf(s, [c]);
    IndexOfSpec(s, [c]);
    if i >= 0 {
      assert s[i] == s[i..i + 1][0];
      forall j | 0 <= j < i ensures s[..i][j] != c {
        assert !OccursAt(s, [c], j);
        assert s[j..j + 1] == [s[j]];
      }
    } else {
      forall j | 0 <= j < |s| ensures s[j] != c {
        assert !OccursAt(s, [c], j);
        assert s[j..j + 1] == [s[j]];
      }
    }
  }

  /** Replacing a one-character pattern by one character changes only the
      first position holding it; every earlier position does not hold it,
      every later one (including later copies of `c`) is kept. */
  lemma ReplaceFirstChar(s: string, c: char, d: char)
    ensures |ReplaceFirst(s, [c], [d])| == |s|
    ensures c !in s ==> ReplaceFirst(s, [c], [d]) == s
    ensures c in s ==>
      exists i :: 0 <= i < |s| && s[i] == c && c !in s[..i] &&
        ReplaceFirst(s, [c], [d]) == s[..i] + [d] + s[i + 1..]
  {
    IndexOfChar(s, c);
  }

  /** `s.split("/").pop()`: the text after the last `/`, or all of `s`
      when it holds no `/`. */
  function LastSegment(s: string): (r: string)
    ensures '/' !in r
    ensures |r| <= |s| && r == s[|s| - |r|..]
    ensures |r| < |s| ==> s[|s| - |r| - 1] == '/'
  {
    if |s| == 0 then ""
    else if s[|s| - 1] == '/' then ""
    else
      var r := LastSegment(s[..|s| - 1]);
      r + [s[|s| - 1]]
  }
}
