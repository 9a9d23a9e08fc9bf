/** The Foundation string operations the app relies on: substring search,
    `replacingOccurrences(of:with:)` with an empty replacement, and a
    case-insensitive `contains`. */
module Strings {

  /** `pat` occurs in `text` starting at index `i`. */
  predicate OccursAt(text: string, pat: string, i: nat) {
    i + |pat| <= |text| && text[i..i + |pat|] == pat
  }

  lemma OccursAtShift(text: string, pat: string, i: nat)
    requires |text| > 0
    ensures OccursAt(text, pat, i + 1) <==> OccursAt(text[1..], pat, i)
  {
    if i + 1 + |pat| <= |text| {
      assert text[1..][i..i + |pat|] == text[i + 1..i + 1 + |pat|];
    }
  }

  /** Substring search, scanning start positions left to right. */
  function Contains(text: string, pat: string): (r: bool)
    ensures r <==> exists i: nat :: OccursAt(text, pat, i)
    decreases |text|
  {
    if |pat| > |text| then
      assert forall i: nat :: !OccursAt(text, pat, i);
      false
    else if text[..|pat|] == pat then
      assert OccursAt(text, pat, 0);
      true
    else
      var rest := Contains(text[1..], pat);
      assert !OccursAt(text, pat, 0);
      assert rest <==> exists i: nat :: OccursAt(text, pat, i) by {
        if rest {
          var j: nat :| OccursAt(text[1..], pat, j);
          OccursAtShift(text, pat, j);
        } else {
          forall i: nat | OccursAt(text, pat, i) ensures false {
            OccursAtShift(text, pat, i - 1);
          }
        }
      }
      rest
  }

  /** `s.replacingOccurrences(of: pat, with: "")`: one left-to-right pass
      that drops every non-overlapping occurrence of `pat`. Text that only
      becomes an occurrence after a removal is kept. An empty `pat` leaves
      `s` as it is; otherwise a text holding an occurrence loses at least
      its length. */
  function RemoveOccurrences(s: string, pat: string): (r: string)
    ensures |r| <= |s|
    ensures !Contains(s, pat) ==> r == s
    ensures pat != [] && Contains(s, pat) ==> |r| <= |s| - |pat|
    decreases |s|
  {
    if pat == [] || |s| < |pat| then s
    else if s[..|pat|] == pat then RemoveOccurrences(s[|pat|..], pat)
    else [s[0]] + RemoveOccurrences(s[1..], pat)
  }

  /** A prefix that cannot start an occurrence passes through untouched. */
  lemma {:induction false} RemoveOccurrencesAfterPlain(a: string, b: string, pat: string)
    requires pat != []
    requires forall i :: 0 <= i < |a| ==> a[i] != pat[0]
    ensures RemoveOccurrences(a + b, pat) == a + RemoveOccurrences(b, pat)
    decreases |a|
  {
    var s := a + b;
    if a == [] {
      assert s == b;
    } else if |s| < |pat| {
      assert RemoveOccurrences(b, pat) == b;
    } else {
      assert s[..|pat|][0] == a[0] != pat[0];
      var tail := a[1..];
      forall i | 0 <= i < |tail| ensures tail[i] != pat[0] {
        assert tail[i] == a[i + 1];
      }
      assert s[1..] == tail + b;
      RemoveOccurrencesAfterPlain(tail, b, pat);
      assert a == [a[0]] + tail;
    }
  }

  /** Removing from a text that starts with `pat` drops that occurrence. */
  lemma RemoveOccurrencesLeading(b: string, pat: string)
    requires pat != []
    ensures RemoveOccurrences(pat + b, pat) == RemoveOccurrences(b, pat)
  {
    assert (pat + b)[..|pat|] == pat;
    assert (pat + b)[|pat|..] == b;
  }

  /** Simple case folding: ASCII `A`-`Z` and the Latin-1 capitals
      `À`-`Þ` (except `×`) map to their lower-case letters, so `Ü` folds
      to `ü`; every other character maps to itself. */
  function FoldChar(c: char): char {
    if 'A' <= c <= 'Z' || ('À' <= c <= 'Þ' && c != '×') then (c as int + 32) as char
    else c
  }

  function FoldCase(s: string): (r: string)
    ensures |r| == |s| && forall i :: 0 <= i < |s| ==> r[i] == FoldChar(s[i])
  {
    seq(|s|, i requires 0 <= i < |s| => FoldChar(s[i]))
  }

  /** Folding is idempotent: a folded text has nothing left to fold. */
  lemma FoldCaseIdempotent(s: string)
    ensures FoldCase(FoldCase(s)) == FoldCase(s)
  {
    var f := FoldCase(s);
    forall i | 0 <= i < |s| ensures FoldCase(f)[i] == f[i] {
    }
  }

  /** `text.localizedCaseInsensitiveContains(q)` with the simple folding
      above standing in for the locale's. Foundation reports no match for
      an empty `q`. */
  predicate CaseInsensitiveContains(text: string, q: string): (r: bool)
    ensures r <==> q != [] && exists i: nat :: OccursAt(FoldCase(text), FoldCase(q), i)
    ensures r ==> |q| <= |text|
  {
    q != [] && Contains(FoldCase(text), FoldCase(q))
  }

  /** The casing of the query does not matter. */
  lemma CaseInsensitiveQuery(text: string, q: string)
    ensures CaseInsensitiveContains(text, FoldCase(q)) == CaseInsensitiveContains(text, q)
  {
    FoldCaseIdempotent(q);
  }
}
