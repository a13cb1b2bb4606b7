/**
 The two string operations of Go's `strings` package that the downloader
 relies on: `HasSuffix` (URL rewriting) and `EqualFold` (hash comparison).
 Strings are sequences of characters; `EqualFold` is modelled for ASCII,
 which is all a hexadecimal digest can contain.
 */
module Text {

  /** strings.HasSuffix: `s` is some stem followed by `suffix`. */
  predicate EndsWith(s: string, suffix: string): (b: bool)
    ensures b ==> |suffix| <= |s| && s == s[..|s| - |suffix|] + suffix
  {
    |suffix| <= |s| && s[|s| - |suffix|..] == suffix
  }

  /** Every stem followed by `suffix` ends with `suffix`. */
  lemma EndsWithAppend(stem: string, suffix: string)
    ensures EndsWith(stem + suffix, suffix)
  {
    assert (stem + suffix)[|stem|..] == suffix;
  }

  /** Simple case folding of one ASCII character. */
  function LowerChar(c: char): char {
    if 'A' <= c <= 'Z' then (c as int + 32) as char else c
  }

  function ToLower(s: string): (r: string)
    ensures |r| == |s|
  {
    seq(|s|, i requires 0 <= i < |s| => LowerChar(s[i]))
  }

  /**
   strings.EqualFold, walking both strings one character at a time: two
   characters match when they fold to the same character, and the strings
   match when they run out together.
   */
  predicate EqualFold(s: string, t: string): (b: bool)
    ensures b ==> |s| == |t|
    ensures b ==> forall i :: 0 <= i < |s| ==> LowerChar(s[i]) == LowerChar(t[i])
  {
    if s == [] || t == [] then s == t
    else LowerChar(s[0]) == LowerChar(t[0]) && EqualFold(s[1..], t[1..])
  }

  /** Case-insensitive equality is equality of the lower-cased strings. */
  lemma {:induction false} EqualFoldIsLowerEquality(s: string, t: string)
    ensures EqualFold(s, t) <==> ToLower(s) == ToLower(t)
  {
    if s != [] && t != [] {
      EqualFoldIsLowerEquality(s[1..], t[1..]);
      assert ToLower(s) == [LowerChar(s[0])] + ToLower(s[1..]);
      assert ToLower(t) == [LowerChar(t[0])] + ToLower(t[1..]);
      if ToLower(s) == ToLower(t) {
        assert ToLower(s)[0] == ToLower(t)[0];
        assert ToLower(s)[1..] == ToLower(t)[1..];
      }
    } else if s != t {
      assert |ToLower(s)| != |ToLower(t)|;
    }
  }

  /** EqualFold is an equivalence: reflexive, symmetric and transitive. */
  lemma EqualFoldIsEquivalence(s: string, t: string, u: string)
    ensures EqualFold(s, s)
    ensures EqualFold(s, t) ==> EqualFold(t, s)
    ensures EqualFold(s, t) && EqualFold(t, u) ==> EqualFold(s, u)
  {
    EqualFoldIsLowerEquality(s, s);
    EqualFoldIsLowerEquality(s, t);
    EqualFoldIsLowerEquality(t, s);
    EqualFoldIsLowerEquality(t, u);
    EqualFoldIsLowerEquality(s, u);
  }
}
