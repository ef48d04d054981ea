/** The fuzzy_search crate: `fuzzy_search_match(search, reference)` is true
    when every character of the search string occurs, in order but not
    necessarily contiguously, in the reference string. Characters are whole
    Unicode scalar values; a Rust `&str` is modelled as the sequence of its
    scalar values, and its bytes as Utf8.EncodeString of that sequence. */
module FuzzySearch {
  import opened Utf8
  import opened Subsequence

  /** r is what `find_next_char_boundary(bytes, index)` may return: the first
      char boundary among index + 1 .. index + |bytes|, or index itself when
      there is none. */
  ghost predicate IsNextBoundary(bytes: seq<Byte>, index: nat, r: nat) {
    && index <= r <= index + |bytes|
    && (r > index ==> IsCharBoundary(bytes, r))
    && (forall j :: index < j < r ==> !IsCharBoundary(bytes, j))
    && (r == index ==> forall j :: index < j <= index + |bytes| ==> !IsCharBoundary(bytes, j))
  }

  /** `find_next_char_boundary`: try the offsets 1 ..= len in turn and return
      index + offset for the first that lands on a char boundary; when none
      does, return index unchanged. That happens exactly when index is at or
      past the end of the string, and otherwise the result is at most the
      string's length. */
  method FindNextCharBoundary(bytes: seq<Byte>, index: nat) returns (r: nat)
    ensures IsNextBoundary(bytes, index, r)
    ensures r == index <==> index >= |bytes|
    ensures index < |bytes| ==> r <= |bytes|
  {
    var offset := 1;
    while offset <= |bytes|
      invariant 1 <= offset <= |bytes| + 1
      invariant forall j :: index < j < index + offset ==> !IsCharBoundary(bytes, j)
    {
      if IsCharBoundary(bytes, index + offset) {
        return index + offset;
      }
      offset := offset + 1;
    }
    // The end of the string is itself a boundary, so nothing was found only
    // when it lies at or before index.
    assert index < |bytes| ==> IsCharBoundary(bytes, |bytes|);
    return index;
  }

  /** On the bytes of a string, the next boundary after the start of
      character k is the start of character k + 1, EncodedLen(s[k]) (1 to 4)
      bytes later, and the bytes from there on are those of the rest of the
      string: splitting there (`str::split_at`) drops exactly the characters
      up to and including k. */
  lemma NextBoundaryAfterChar(s: seq<char>, k: nat, r: nat)
    requires k < |s|
    requires IsNextBoundary(EncodeString(s), ByteLen(s[..k]), r)
    ensures r == ByteLen(s[..k]) + EncodedLen(s[k]) == ByteLen(s[..k + 1])
    ensures r <= |EncodeString(s)|
    ensures EncodeString(s)[r..] == EncodeString(s[k + 1..])
  {
    var bytes, start, next := EncodeString(s), ByteLen(s[..k]), ByteLen(s[..k + 1]);
    ByteLenStep(s, k);
    BoundaryAtCharStart(s, k + 1);
    EncodeStringSplit(s, k + 1);
    assert next <= |bytes|;
    if r < next {
      if r > start {
        NoBoundaryInsideChar(s, k, r);
      }
    }
  }

  /** `recursive_fuzzy_search`. The result is true exactly when the search
      string is an in-order subsequence of the reference string.
      The outer `for` over the search characters always returns in its first
      iteration, so it is the first character at byte index 0; the scan over
      the reference stops at the first occurrence of that character, and
      the search goes on with what follows it in both strings. */
  method RecursiveFuzzySearch(search: seq<char>, reference: seq<char>) returns (r: bool)
    ensures r == IsSubsequence(search, reference)
    decreases |search|
  {
    var searchLen := ByteLen(search);
    var referenceLen := ByteLen(reference);

    if search == [] {
      EmptyIsSubsequence(reference);
      return true;
    }

    if reference == [] {
      NothingInEmpty(search);
      return false;
    }

    // A search string with more bytes than the reference cannot match.
    if referenceLen < searchLen {
      if IsSubsequence(search, reference) {
        SubsequenceByteLen(search, reference);
      }
      return false;
    }

    var searchValue := search[0];
    var referenceIndex := 0;
    while referenceIndex < |reference|
      invariant referenceIndex <= |reference|
      invariant forall j :: 0 <= j < referenceIndex ==> reference[j] != searchValue
    {
      if reference[referenceIndex] == searchValue {
        // Split both strings just after the matched characters.
        var referenceCut := FindNextCharBoundary(EncodeString(reference), ByteLen(reference[..referenceIndex]));
        var searchCut := FindNextCharBoundary(EncodeString(search), 0);
        NextBoundaryAfterChar(reference, referenceIndex, referenceCut);
        assert search[..0] == [];
        NextBoundaryAfterChar(search, 0, searchCut);
        r := RecursiveFuzzySearch(search[1..], reference[referenceIndex + 1..]);
        FirstOccurrenceStep(search, reference, referenceIndex);
        return;
      }
      referenceIndex := referenceIndex + 1;
    }

    AbsentFirstChar(search, reference);
    return false;
  }

  /** `fuzzy_search_match`: the crate's entry point. */
  method FuzzySearchMatch(search: seq<char>, reference: seq<char>) returns (r: bool)
    ensures r == IsSubsequence(search, reference)
  {
    r := RecursiveFuzzySearch(search, reference);
  }
}
