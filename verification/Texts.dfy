// Where a text stands inside another.
module Texts {

  // s[k], named so that quantifiers over positions are only used where asked for.
  ghost function At(s: string, k: nat): char
    requires k < |s|
  {
    s[k]
  }

  // text is what stands in s from position i on.
  ghost predicate StandsAt(text: string, s: string, i: nat) {
    i + |text| <= |s| && forall k :: 0 <= k < |text| ==> At(text, k) == At(s, i + k)
  }

  // The lower-case form of a letter.
  function Lower(c: char): char {
    if 'A' <= c <= 'Z' then (c as int + 32) as char else c
  }

  // The lower-case word stands in s from position i on, in letters of either case.
  predicate WordAt(s: string, i: nat, word: string) {
    i + |word| <= |s| && forall k :: 0 <= k < |word| ==> Lower(s[i + k]) == word[k]
  }

  lemma StandsChar(text: string, s: string, i: nat, k: nat)
    requires StandsAt(text, s, i) && k < |text|
    ensures s[i + k] == text[k]
  {
    assert At(text, k) == At(s, i + k);
  }

  lemma StandsConcat(a: string, b: string, s: string, i: nat)
    ensures StandsAt(a + b, s, i) <==> StandsAt(a, s, i) && StandsAt(b, s, i + |a|)
  {
    if StandsAt(a + b, s, i) {
      forall k | 0 <= k < |a|
        ensures At(a, k) == At(s, i + k)
      {
        assert At(a + b, k) == a[k];
      }
      forall k | 0 <= k < |b|
        ensures At(b, k) == At(s, i + |a| + k)
      {
        assert At(a + b, |a| + k) == b[k];
      }
    }
    if StandsAt(a, s, i) && StandsAt(b, s, i + |a|) {
      forall k | 0 <= k < |a + b|
        ensures At(a + b, k) == At(s, i + k)
      {
        if k < |a| {
          assert At(a, k) == At(s, i + k);
        } else {
          assert At(b, k - |a|) == At(s, i + |a| + (k - |a|));
        }
      }
    }
  }

  lemma StandsEmpty(s: string, i: nat)
    requires i <= |s|
    ensures StandsAt([], s, i)
  {}

  lemma StandsSlice(s: string, i: nat, e: nat)
    requires i <= e <= |s|
    ensures StandsAt(s[i..e], s, i)
  {}

  lemma SliceStands(text: string, s: string, i: nat)
    requires StandsAt(text, s, i)
    ensures s[i..i + |text|] == text
  {
    forall k | 0 <= k < |text|
      ensures s[i..i + |text|][k] == text[k]
    {
      StandsChar(text, s, i, k);
    }
  }
}
