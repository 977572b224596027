/**
 The two string primitives the symptom checker relies on: lower-casing a text
 (Python's `str.lower`, restricted here to the ASCII letters) and substring
 search (Python's `needle in haystack` on strings).
 */
module Text {

  /** True for the 26 upper-case ASCII letters. */
  predicate IsUpper(c: char) {
    'A' <= c <= 'Z'
  }

  /** Lower-cases one character: upper-case ASCII letters become the lower-case
      letter at the same place in the alphabet, every other character is kept. */
  function LowerChar(c: char): (d: char)
    ensures !IsUpper(d)
    ensures IsUpper(c) <==> d != c
    ensures IsUpper(c) ==> 'a' <= d <= 'z' && d as int - 'a' as int == c as int - 'A' as int
  {
    if IsUpper(c) then (c as int - 'A' as int + 'a' as int) as char else c
  }

  /** A text with no upper-case ASCII letter. */
  predicate IsLower(s: string) {
    forall i :: 0 <= i < |s| ==> !IsUpper(s[i])
  }

  /** Lower-cases a whole text, character by character. */
  function ToLower(s: string): (r: string)
    ensures |r| == |s|
    ensures forall i :: 0 <= i < |s| ==> r[i] == LowerChar(s[i])
    ensures IsLower(r)
  {
    if s == [] then [] else [LowerChar(s[0])] + ToLower(s[1..])
  }

  /** Lower-casing a lower-case text changes nothing, and only then. */
  lemma ToLowerFixesExactlyLower(s: string)
    ensures ToLower(s) == s <==> IsLower(s)
  {
    if IsLower(s) {
      assert forall i :: 0 <= i < |s| ==> ToLower(s)[i] == s[i];
    } else {
      var i :| 0 <= i < |s| && IsUpper(s[i]);
      assert ToLower(s)[i] != s[i];
    }
  }

  /** Lower-casing twice is lower-casing once. */
  lemma ToLowerIdempotent(s: string)
    ensures ToLower(ToLower(s)) == ToLower(s)
  {
    ToLowerFixesExactlyLower(ToLower(s));
  }

  /** Lower-casing commutes with concatenation. */
  lemma ToLowerAppend(a: string, b: string)
    ensures ToLower(a + b) == ToLower(a) + ToLower(b)
  {
    assert forall i :: 0 <= i < |a + b| ==> ToLower(a + b)[i] == (ToLower(a) + ToLower(b))[i];
  }

  /** `needle` occurs in `haystack` starting at index `i`. */
  predicate OccursAt(haystack: string, needle: string, i: int) {
    0 <= i && i + |needle| <= |haystack| && haystack[i..i + |needle|] == needle
  }

  /** Substring search, scanning the start positions from left to right. As
      in Python, the empty needle occurs in every haystack. */
  predicate Contains(haystack: string, needle: string)
    ensures needle == [] ==> Contains(haystack, needle)
    ensures Contains(haystack, needle) ==> |needle| <= |haystack|
    decreases |haystack|
  {
    if |needle| <= |haystack| && haystack[..|needle|] == needle then true
    else if haystack == [] then false
    else Contains(haystack[1..], needle)
  }

  /** The search finds the needle exactly when it occurs at some position. */
  lemma {:induction false} ContainsIffOccurs(haystack: string, needle: string)
    ensures Contains(haystack, needle) <==> exists i :: OccursAt(haystack, needle, i)
    decreases |haystack|
  {
    if |needle| <= |haystack| && haystack[..|needle|] == needle {
      assert OccursAt(haystack, needle, 0);
    } else if haystack == [] {
    } else {
      var tail := haystack[1..];
      ContainsIffOccurs(tail, needle);
      if j :| OccursAt(tail, needle, j) {
        assert haystack[j + 1..j + 1 + |needle|] == tail[j..j + |needle|];
        assert OccursAt(haystack, needle, j + 1);
      }
      if i :| OccursAt(haystack, needle, i) {
        assert tail[i - 1..i - 1 + |needle|] == haystack[i..i + |needle|];
        assert OccursAt(tail, needle, i - 1);
      }
    }
  }

  /** `word` appears in `s` at index `i` when case is ignored, `word` being
      given in lower case. */
  predicate MatchesAt(s: string, word: string, i: int) {
    0 <= i && i + |word| <= |s| && forall k :: 0 <= k < |word| ==> LowerChar(s[i + k]) == word[k]
  }

  /** `word` appears somewhere in `s` when case is ignored. */
  ghost predicate Mentions(s: string, word: string) {
    exists i :: MatchesAt(s, word, i)
  }

  /** A case-ignoring match at `i` is an occurrence at `i` in the
      lower-cased text, and conversely. */
  lemma MatchesAtIffOccursLowered(s: string, word: string, i: int)
    ensures MatchesAt(s, word, i) <==> OccursAt(ToLower(s), word, i)
  {
    if 0 <= i && i + |word| <= |s| {
      var slice := ToLower(s)[i..i + |word|];
      assert forall k :: 0 <= k < |word| ==> slice[k] == LowerChar(s[i + k]);
    }
  }

  /** Searching the lower-cased text for a word finds it exactly when the
      text mentions the word, case ignored. */
  lemma ContainsLoweredIffMentions(s: string, word: string)
    ensures Contains(ToLower(s), word) <==> Mentions(s, word)
  {
    ContainsIffOccurs(ToLower(s), word);
    forall i
      ensures MatchesAt(s, word, i) <==> OccursAt(ToLower(s), word, i)
    {
      MatchesAtIffOccursLowered(s, word, i);
    }
  }

  /** A mention survives adding text on either side. */
  lemma MentionsExtend(s: string, t: string, word: string)
    requires Mentions(s, word)
    ensures Mentions(s + t, word) && Mentions(t + s, word)
  {
    var i :| MatchesAt(s, word, i);
    forall k | 0 <= k < |word|
      ensures LowerChar((s + t)[i + k]) == word[k] && LowerChar((t + s)[|t| + i + k]) == word[k]
    {
      assert (s + t)[i + k] == s[i + k] && (t + s)[|t| + i + k] == s[i + k];
    }
    assert MatchesAt(s + t, word, i);
    assert MatchesAt(t + s, word, |t| + i);
  }

  /** Any text that mentions a non-empty word holds a character whose lower
      case is the word's first letter. */
  lemma MentionsFirstLetter(s: string, word: string)
    requires |word| > 0 && Mentions(s, word)
    ensures exists j :: 0 <= j < |s| && LowerChar(s[j]) == word[0]
  {
    var i :| MatchesAt(s, word, i);
    assert LowerChar(s[i + 0]) == word[0];
  }
}
