/**
 * Slugs: the alphabet and `GenerateSlug` of src/Shortener.Api/Program.cs, and
 * the rule a caller-supplied slug must satisfy (at most 32 characters, each a
 * letter, a digit, `_` or `-`).
 *
 * The random bytes that `RandomNumberGenerator.GetBytes(length)` would produce
 * are a parameter, so generation is a deterministic map from bytes to text.
 */
module Slugs {

  const Lowercase := "abcdefghijklmnopqrstuvwxyz"
  const Uppercase := "ABCDEFGHIJKLMNOPQRSTUVWXYZ"
  const Digits := "0123456789"
  /** The 62 characters a generated slug draws from, in the source's order. */
  const Alphabet := Lowercase + Uppercase + Digits
  const DefaultSlugLength := 6
  const MaxCustomSlugLength := 32

  /** `[a-zA-Z0-9]` */
  predicate IsAlphanumeric(c: char) {
    ('a' <= c <= 'z') || ('A' <= c <= 'Z') || ('0' <= c <= '9')
  }

  /** `[a-zA-Z0-9_-]` */
  predicate IsSlugChar(c: char) {
    IsAlphanumeric(c) || c == '_' || c == '-'
  }

  /** The regular expression `^[a-zA-Z0-9_-]+$` (the slug it is applied to has
      been trimmed, so `$` matching before a final newline makes no difference). */
  predicate MatchesSlugPattern(s: string) {
    |s| >= 1 && forall i :: 0 <= i < |s| ==> IsSlugChar(s[i])
  }

  /** A custom slug passes the handler's check: not longer than 32 characters
      and matching the pattern. */
  predicate IsValidSlug(s: string) {
    |s| <= MaxCustomSlugLength && MatchesSlugPattern(s)
  }

  lemma AlphabetIsAlphanumeric()
    ensures |Alphabet| == 62
    ensures forall i :: 0 <= i < |Alphabet| ==> IsAlphanumeric(Alphabet[i])
  {
    assert forall i :: 0 <= i < |Lowercase| ==> 'a' <= Lowercase[i] <= 'z';
    assert forall i :: 0 <= i < |Uppercase| ==> 'A' <= Uppercase[i] <= 'Z';
    assert forall i :: 0 <= i < |Digits| ==> '0' <= Digits[i] <= '9';
    forall i | 0 <= i < |Alphabet| ensures IsAlphanumeric(Alphabet[i]) {
      if i < 26 {
        assert Alphabet[i] == Lowercase[i];
      } else if i < 52 {
        assert Alphabet[i] == Uppercase[i - 26];
      } else {
        assert Alphabet[i] == Digits[i - 52];
      }
    }
  }

  /** The slug the bytes `data` select: character `i` is the alphabet letter
      at `data[i] % 62`. */
  function SlugOf(data: seq<bv8>): (slug: string)
    ensures |slug| == |data|
    ensures forall i :: 0 <= i < |data| ==> slug[i] == Alphabet[data[i] as int % |Alphabet|]
  {
    if data == [] then []
    else SlugOf(data[..|data| - 1]) + [Alphabet[data[|data| - 1] as int % |Alphabet|]]
  }

  /** `GenerateSlug`: one alphabet letter appended per random byte. */
  method GenerateSlug(data: seq<bv8>) returns (slug: string)
    ensures |slug| == |data|
    ensures forall i :: 0 <= i < |data| ==> slug[i] == Alphabet[data[i] as int % |Alphabet|]
    ensures forall i :: 0 <= i < |data| ==> IsAlphanumeric(slug[i])
    ensures slug == SlugOf(data)
  {
    AlphabetIsAlphanumeric();
    var sb := "";
    for n := 0 to |data|
      invariant |sb| == n
      invariant forall i :: 0 <= i < n ==> sb[i] == Alphabet[data[i] as int % |Alphabet|]
    {
      sb := sb + [Alphabet[data[n] as int % |Alphabet|]];
    }
    slug := sb;
  }

  /** Generated slugs are alphanumeric, so one generated from between 1 and
      32 bytes (the handler uses 6) would also pass the custom-slug check. */
  lemma GeneratedSlugIsValid(data: seq<bv8>)
    ensures 1 <= |data| <= MaxCustomSlugLength ==> IsValidSlug(SlugOf(data))
    ensures forall i :: 0 <= i < |data| ==> IsAlphanumeric(SlugOf(data)[i])
  {
    AlphabetIsAlphanumeric();
    var slug := SlugOf(data);
    forall i | 0 <= i < |data| ensures IsAlphanumeric(slug[i]) {
      var k := data[i] as int % |Alphabet|;
      assert 0 <= k < |Alphabet| && slug[i] == Alphabet[k];
    }
  }
}
