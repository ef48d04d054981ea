/** What a fuzzy match means: the characters of the search string occur in
    the reference string in the same order, not necessarily next to each
    other. The definition is by an explicit embedding, independent of any
    search strategy, and the lemmas below are what a search procedure needs
    to be proved against it. */
module Subsequence {
  import opened Utf8

  /** idx places search character i at reference position idx[i], the
      positions strictly increase, and each placed character is equal. */
  ghost predicate IsEmbedding(idx: seq<nat>, search: seq<char>, reference: seq<char>) {
    && |idx| == |search|
    && (forall i, j :: 0 <= i < j < |idx| ==> idx[i] < idx[j])
    && (forall i :: 0 <= i < |idx| ==> idx[i] < |reference| && reference[idx[i]] == search[i])
  }

  /** search is an in-order (possibly non-contiguous) subsequence of reference. */
  ghost predicate IsSubsequence(search: seq<char>, reference: seq<char>) {
    exists idx :: IsEmbedding(idx, search, reference)
  }

  /** The empty search string is a subsequence of everything. */
  lemma EmptyIsSubsequence(reference: seq<char>)
    ensures IsSubsequence([], reference)
  {
    assert IsEmbedding([], [], reference);
  }

  /** Nothing non-empty is a subsequence of the empty string. */
  lemma NothingInEmpty(search: seq<char>)
    requires search != []
    ensures !IsSubsequence(search, [])
  {
    forall idx: seq<nat> | |idx| == |search| ensures !IsEmbedding(idx, search, []) {
      var first := idx[0];
    }
  }

  /** Matching the first search character at reference position k and the
      rest after it gives a match of the whole. */
  lemma ConsEmbedding(search: seq<char>, reference: seq<char>, k: nat)
    requires search != [] && k < |reference| && reference[k] == search[0]
    requires IsSubsequence(search[1..], reference[k + 1..])
    ensures IsSubsequence(search, reference)
  {
    var tail :| IsEmbedding(tail, search[1..], reference[k + 1..]);
    var idx := [k] + seq(|tail|, i requires 0 <= i < |tail| => tail[i] + k + 1);
    assert forall i :: 1 <= i < |idx| ==> idx[i] == tail[i - 1] + k + 1;
    assert IsEmbedding(idx, search, reference);
  }

  /** From a match whose first character sits at or after position k, the
      rest of the search string matches what follows position k. */
  lemma DropHead(idx: seq<nat>, search: seq<char>, reference: seq<char>, k: nat)
    requires IsEmbedding(idx, search, reference) && search != []
    requires k <= idx[0]
    ensures k < |reference|
    ensures IsSubsequence(search[1..], reference[k + 1..])
  {
    var tail := seq(|idx| - 1, i requires 0 <= i < |idx| - 1 => idx[i + 1] - (k + 1));
    forall i | 0 <= i < |tail|
      ensures tail[i] < |reference[k + 1..]| && reference[k + 1..][tail[i]] == search[1..][i]
    {
      assert idx[0] < idx[i + 1];
    }
    assert IsEmbedding(tail, search[1..], reference[k + 1..]);
  }

  /** Greedy step: committing to the FIRST occurrence k of the first search
      character loses no match. */
  lemma FirstOccurrenceStep(search: seq<char>, reference: seq<char>, k: nat)
    requires search != [] && k < |reference| && reference[k] == search[0]
    requires forall j :: 0 <= j < k ==> reference[j] != search[0]
    ensures IsSubsequence(search, reference) <==> IsSubsequence(search[1..], reference[k + 1..])
  {
    if IsSubsequence(search, reference) {
      var idx :| IsEmbedding(idx, search, reference);
      assert reference[idx[0]] == search[0];
      DropHead(idx, search, reference, k);
    }
    if IsSubsequence(search[1..], reference[k + 1..]) {
      ConsEmbedding(search, reference, k);
    }
  }

  /** A search character that occurs nowhere in the reference rules out a match. */
  lemma AbsentFirstChar(search: seq<char>, reference: seq<char>)
    requires search != []
    requires forall j :: 0 <= j < |reference| ==> reference[j] != search[0]
    ensures !IsSubsequence(search, reference)
  {
    forall idx: seq<nat> | |idx| == |search| ensures !IsEmbedding(idx, search, reference) {
      var first := idx[0];
    }
  }

  /** Every character of a matched search string occurs in the reference. */
  lemma SubsequenceChars(search: seq<char>, reference: seq<char>)
    requires IsSubsequence(search, reference)
    ensures forall i :: 0 <= i < |search| ==> search[i] in reference
  {
    var idx :| IsEmbedding(idx, search, reference);
    forall i | 0 <= i < |search| ensures search[i] in reference {
      assert reference[idx[i]] == search[i];
    }
  }

  /** So a string holding a character the reference lacks never matches it. */
  lemma MissingCharNoMatch(search: seq<char>, reference: seq<char>, i: nat)
    requires i < |search| && search[i] !in reference
    ensures !IsSubsequence(search, reference)
  {
    if IsSubsequence(search, reference) {
      SubsequenceChars(search, reference);
    }
  }

  /** The encoded length of a subsequence never exceeds that of the string
      containing it; so a search string with more UTF-8 bytes than the
      reference cannot match it. */
  lemma {:induction false} SubsequenceByteLen(search: seq<char>, reference: seq<char>)
    requires IsSubsequence(search, reference)
    ensures ByteLen(search) <= ByteLen(reference)
    decreases |search|
  {
    if search != [] {
      var idx :| IsEmbedding(idx, search, reference);
      var m := idx[0];
      DropHead(idx, search, reference, m);
      SubsequenceByteLen(search[1..], reference[m + 1..]);
      assert reference[m] == search[0];
      assert reference == reference[..m] + [reference[m]] + reference[m + 1..];
      ByteLenAppend(reference[..m] + [reference[m]], reference[m + 1..]);
      ByteLenAppend(reference[..m], [reference[m]]);
    }
  }

  /** Position i of an embedding sits at least (j - i) before position j. */
  lemma {:induction false} EmbeddingGaps(idx: seq<nat>, search: seq<char>, reference: seq<char>, i: nat, j: nat)
    requires IsEmbedding(idx, search, reference) && i <= j < |idx|
    ensures idx[j] - idx[i] >= j - i
    decreases j - i
  {
    if i < j {
      EmbeddingGaps(idx, search, reference, i + 1, j);
    }
  }

  /** A subsequence is never longer, in characters, than its reference. */
  lemma SubsequenceLength(search: seq<char>, reference: seq<char>)
    requires IsSubsequence(search, reference)
    ensures |search| <= |reference|
  {
    var idx :| IsEmbedding(idx, search, reference);
    if search != [] {
      EmbeddingGaps(idx, search, reference, 0, |idx| - 1);
    }
  }

  /** A match of equal length is an exact copy, and an exact copy matches:
      for strings of the same length, being a subsequence is equality. */
  lemma SameLengthSubsequence(search: seq<char>, reference: seq<char>)
    requires |search| == |reference|
    ensures IsSubsequence(search, reference) <==> search == reference
  {
    if IsSubsequence(search, reference) {
      var idx :| IsEmbedding(idx, search, reference);
      forall i | 0 <= i < |search| ensures search[i] == reference[i] {
        EmbeddingGaps(idx, search, reference, 0, i);
        EmbeddingGaps(idx, search, reference, i, |idx| - 1);
        assert idx[i] == i;
      }
    }
    if search == reference {
      var idx := seq(|search|, i requires 0 <= i < |search| => i);
      assert IsEmbedding(idx, search, reference);
    }
  }

  /** Every string is a subsequence of itself. */
  lemma Reflexive(s: seq<char>)
    ensures IsSubsequence(s, s)
  {
    SameLengthSubsequence(s, s);
  }

  /** Every prefix of a string is a subsequence of it. */
  lemma PrefixIsSubsequence(s: seq<char>, n: nat)
    requires n <= |s|
    ensures IsSubsequence(s[..n], s)
  {
    var idx := seq(n, i requires 0 <= i < n => i);
    assert IsEmbedding(idx, s[..n], s);
  }

  /** The characters of s in reverse order. */
  function Reversed(s: seq<char>): seq<char> {
    seq(|s|, i requires 0 <= i < |s| => s[|s| - 1 - i])
  }

  /** A string reversed matches the original exactly when it is a palindrome. */
  lemma ReversedMatchesIffPalindrome(s: seq<char>)
    ensures IsSubsequence(Reversed(s), s) <==> Reversed(s) == s
  {
    SameLengthSubsequence(Reversed(s), s);
  }

  /** Order matters: a string whose first and last characters differ does
      not match its own reversal. */
  lemma ReversedDoesNotMatch(s: seq<char>)
    requires |s| > 0 && s[0] != s[|s| - 1]
    ensures !IsSubsequence(Reversed(s), s)
  {
    ReversedMatchesIffPalindrome(s);
    assert Reversed(s)[0] == s[|s| - 1];
  }
}
