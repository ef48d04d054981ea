/** The crate's documentation examples and unit tests, stated about the
    meaning of a match. By the contract of FuzzySearch.FuzzySearchMatch
    (its result is IsSubsequence(search, reference)), each lemma fixes what
    `fuzzy_search_match` returns on that input. Non-ASCII characters are
    written as explicit code points. */
module FuzzySearchExamples {
  import opened Utf8
  import opened Subsequence

  lemma DocExampleMatches()
    ensures IsSubsequence("fu_rch_match", "fuzzy_search_match")
  {
    assert IsEmbedding([0, 1, 5, 9, 10, 11, 12, 13, 14, 15, 16, 17], "fu_rch_match", "fuzzy_search_match");
  }

  /** Case matters: "Alaska Beer Crusade" has an upper-case B only. */
  lemma CaseSensitive()
    ensures !IsSubsequence("abc", "Alaska Beer Crusade")
  {
    MissingCharNoMatch("abc", "Alaska Beer Crusade", 1);
  }

  lemma PrefixMatches()
    ensures IsSubsequence("abc", "abcdefg")
    ensures IsSubsequence("str", "string")
  {
    PrefixIsSubsequence("abcdefg", 3);
    assert "abcdefg"[..3] == "abc";
    PrefixIsSubsequence("string", 3);
    assert "string"[..3] == "str";
  }

  lemma ExactStringMatches()
    ensures IsSubsequence("string", "string")
    ensures IsSubsequence("L\U{F6}we \U{8001}\U{864E} L\U{E9}opard", "L\U{F6}we \U{8001}\U{864E} L\U{E9}opard")
  {
    Reflexive("string");
    Reflexive("L\U{F6}we \U{8001}\U{864E} L\U{E9}opard");
  }

  /** The byte-length early exit: 6 bytes against 1. */
  lemma LongerSearchFails()
    ensures ByteLen("longer") > ByteLen("a")
    ensures !IsSubsequence("longer", "a")
  {
    assert ByteLen("longer") == 6 && ByteLen("a") == 1;
    if IsSubsequence("longer", "a") {
      SubsequenceByteLen("longer", "a");
    }
  }

  /** Multi-byte characters (2 and 3 bytes in UTF-8) match as whole
      characters across spaces and accented letters. */
  lemma MultibyteMatches()
    ensures IsSubsequence("\U{8001}\U{864E}\U{E9}", "L\U{F6}we \U{8001}\U{864E} L\U{E9}opard")
    ensures IsSubsequence("L\U{F6}we \U{8001}\U{864E}", "L\U{F6}we \U{8001}\U{864E} L\U{E9}opard")
  {
    var reference := "L\U{F6}we \U{8001}\U{864E} L\U{E9}opard";
    assert IsEmbedding([5, 6, 9], "\U{8001}\U{864E}\U{E9}", reference);
    PrefixIsSubsequence(reference, 7);
    assert reference[..7] == "L\U{F6}we \U{8001}\U{864E}";
  }

  lemma CodeExampleMatches()
    ensures IsSubsequence("Super.cs", "SuperAwesomeClass.cs")
  {
    assert IsEmbedding([0, 1, 2, 3, 4, 17, 18, 19], "Super.cs", "SuperAwesomeClass.cs");
  }

  /** Order matters: "tac" is "cat" reversed. */
  lemma ReversedLettersFail()
    ensures !IsSubsequence("tac", "cat")
  {
    ReversedDoesNotMatch("cat");
    assert Reversed("cat") == "tac";
  }

  /** A lone combining breve (U+0306) does not match the precomposed
      o-with-breve (U+014F): scalar values, not graphemes, are compared.
      Had the reference spelt that letter as o followed by U+0306, the
      breve would be present and the search would match. */
  lemma CombiningMarkIsItsOwnChar()
    ensures !IsSubsequence("y\U{0306}", "ya\U{014F}")
    ensures IsSubsequence("y\U{0306}", "yao\U{0306}")
  {
    MissingCharNoMatch("y\U{0306}", "ya\U{014F}", 1);
    assert IsEmbedding([0, 3], "y\U{0306}", "yao\U{0306}");
  }
}
