# fuzzy_search: in-order character matching, modelled and proved in Dafny

The `fuzzy_search` crate has one public function, `fuzzy_search_match(search, reference)`. It answers
true when every character of the search string appears in the reference string, in order but not
necessarily next to each other. It delegates to `recursive_fuzzy_search`, which works like this:

- an empty search matches;
- a non-empty search against an empty reference fails;
- a search with more UTF-8 bytes than the reference fails early;
- otherwise it finds the first occurrence of the first search character in the reference, cuts both
  strings just after the matched characters (`find_next_char_boundary` plus `split_at`) and recurses.

This model proves that the recursion decides exactly "is an in-order subsequence of". It also proves
that the byte-length early exit is sound, and that cutting at the next char boundary drops exactly
one character.

Files:

- `Utf8.dfy` (module `Utf8`): the byte form of a Rust `&str`. A string is a `seq<char>` (a Dafny
  `char` is a Unicode scalar value, as a Rust `char` is). Its bytes are its UTF-8 encoding, following
  section 3 of RFC 3629: 1 byte below 0x80, 2 below 0x800, 3 below 0x10000, else 4. The file also
  holds `str::len` (`ByteLen`) and `str::is_char_boundary` (`IsCharBoundary`: index 0 and the end
  are boundaries, an inner index is one unless its byte is `10xxxxxx`, an index past the end is not
  one).
- `Subsequence.dfy` (module `Subsequence`): the meaning of a match. `IsSubsequence(search,
  reference)` says there is a strictly increasing map from search positions to reference positions
  with equal characters. This definition is independent of any search strategy. The module also
  holds the lemmas that the greedy recursion needs.
- `FuzzySearch.dfy` (module `FuzzySearch`): `fuzzy_search_match`, `recursive_fuzzy_search` and
  `find_next_char_boundary`. Each is a method written the way the source is: early returns, a scan
  loop and recursion. Each is proved against the definitions above.
- `FuzzySearchExamples.dfy` (module `FuzzySearchExamples`): the documentation examples and unit
  tests as lemmas, with non-ASCII characters written as explicit code points.

Two cut-offs in the source never fire:

- The outer `for` over the search characters (lib.rs:49) always returns in its first iteration, so
  the model takes the first search character at byte index 0.
- The check `search_index == search_len` (lib.rs:51-53) never holds: it runs with `search_index`
  0, and a non-empty search has a byte length above 0 (`Utf8.ByteLen` ensures this).
- The final `false` (lib.rs:66) is never reached: a non-empty search has a first character, and the
  first pass of the loop at lib.rs:49 always returns, at line 59 or at line 63.

Neither is written into the model.

The early exit is naturally read as "a search longer than the reference cannot match", which
suggests counting characters. The code instead compares UTF-8 byte lengths (lib.rs:33-34, 45), and
the model follows the code. `Subsequence.SubsequenceByteLen` proves the byte comparison sound, and
`Subsequence.SubsequenceLength` states the character-count bound separately.

The unit test at lib.rs:197-222 needs care. Its search string is `y` followed by U+0306 (combining
breve). Its reference string, as the bytes of line 214 show, is `y a U+014F`, where U+014F is a
precomposed o-with-breve. The comment at line 207 instead spells the reference with `o` followed by
U+0306. With the comment's spelling, the breve would be present and the match would be true. Both
cases are stated in `FuzzySearchExamples.CombiningMarkIsItsOwnChar`.

## Model

| member | source | states |
|---|---|---|
| `FuzzySearch.FuzzySearchMatch` | fuzzy_search/src/lib.rs:28-30 | the result is true exactly when the search string is an in-order subsequence of the reference string |
| `FuzzySearch.RecursiveFuzzySearch` | fuzzy_search/src/lib.rs:32-67 | the result is true exactly when the search string is an in-order subsequence of the reference (its ensures); that the scan stops at the first occurrence comes from its loop invariant and `FirstOccurrenceStep`, and termination from `decreases` on the search length, which each recursive call lowers by one character |
| `FuzzySearch.FindNextCharBoundary` | fuzzy_search/src/lib.rs:69-77 | returns the first char boundary among index+1 .. index+len; returns index unchanged exactly when index is at or past the end; otherwise the result is at most len |
| `FuzzySearch.NextBoundaryAfterChar` | fuzzy_search/src/lib.rs:57-58 | on the bytes of a string, the next boundary after the start of character k is that start plus the character's encoded length (1 to 4 bytes); `split_at` there leaves exactly the bytes of the characters after k |
| `Subsequence.IsSubsequence` | fuzzy_search/src/lib.rs:13 | the promise of the doc comment: a strictly increasing map from search positions to reference positions with equal characters exists |
| `Subsequence.EmptyIsSubsequence` | fuzzy_search/src/lib.rs:36-38 | the empty search matches every reference, the empty one included |
| `Subsequence.NothingInEmpty` | fuzzy_search/src/lib.rs:40-42 | a non-empty search never matches the empty reference |
| `Subsequence.SubsequenceByteLen` | fuzzy_search/src/lib.rs:44-47 | a subsequence never has more UTF-8 bytes than its reference, so the early exit on a longer search loses no match |
| `Subsequence.SubsequenceLength` | fuzzy_search/src/lib.rs:99-110 | a subsequence never has more characters than its reference |
| `Subsequence.FirstOccurrenceStep` | fuzzy_search/src/lib.rs:55-60 | committing to the first occurrence k of the first search character loses no match: the whole matches exactly when the rest of the search matches the reference after k |
| `Subsequence.AbsentFirstChar` | fuzzy_search/src/lib.rs:61-63 | when the first search character occurs nowhere in the reference, there is no match |
| `Subsequence.ConsEmbedding` | fuzzy_search/src/lib.rs:56-59 | a match of the first character at k followed by a match of the rest after k is a match of the whole |
| `Subsequence.DropHead` | fuzzy_search/src/lib.rs:57-59 | from a match whose first character lies at or after k, the rest of the search matches the reference after k |
| `Subsequence.SubsequenceChars` | fuzzy_search/src/lib.rs:56 | every character of a matched search occurs in the reference (exact scalar-value equality) |
| `Subsequence.MissingCharNoMatch` | fuzzy_search/src/lib.rs:56 | a search holding a character that the reference lacks never matches |
| `Subsequence.SameLengthSubsequence` | fuzzy_search/src/lib.rs:85-96 | for strings of equal length, matching is the same as equality (both directions) |
| `Subsequence.Reflexive` | fuzzy_search/src/lib.rs:141-152 | every string, multi-byte text included, matches itself |
| `Subsequence.PrefixIsSubsequence` | fuzzy_search/src/lib.rs:113-124 | every prefix of a string matches it |
| `Subsequence.ReversedMatchesIffPalindrome` | fuzzy_search/src/lib.rs:183-194 | a string reversed matches the original exactly when it is a palindrome (both directions) |
| `Subsequence.ReversedDoesNotMatch` | fuzzy_search/src/lib.rs:183-194 | order matters: a string whose first and last characters differ, reversed, does not match the original |
| `Utf8.EncodedLen` | fuzzy_search/src/lib.rs:33-34 | one scalar value takes 1 to 4 bytes, and 1 byte exactly below 0x80 (RFC 3629 section 3) |
| `Utf8.EncodeChar` | fuzzy_search/src/lib.rs:14 | the UTF-8 bytes of a scalar value: EncodedLen bytes, a leading byte that is not 10xxxxxx, then only 10xxxxxx continuation bytes |
| `Utf8.DecodeChar` | fuzzy_search/src/lib.rs:55 | the scalar value that `char_indices` reads from one character's bytes: the lead byte's payload, then six bits per continuation byte (RFC 3629 section 3) |
| `Utf8.DecodeEncodeChar` | fuzzy_search/src/lib.rs:55 | decoding the bytes of a character (what `char_indices` does) gives the character back |
| `Utf8.ByteLen` | fuzzy_search/src/lib.rs:33-34 | `str::len`: at least the character count and at most four times it, and 0 exactly for the empty string |
| `Utf8.EncodeString` | fuzzy_search/src/lib.rs:14 | the bytes of a string are ByteLen(s) long |
| `Utf8.ByteLenStep` | fuzzy_search/src/lib.rs:55 | the byte index that `char_indices` gives character k+1 is that of character k plus its encoded length |
| `Utf8.EncodeStringSplit` | fuzzy_search/src/lib.rs:57-58 | `split_at` on the byte index of character k leaves the bytes of the characters from k on |
| `Utf8.EncodeStringAt` | fuzzy_search/src/lib.rs:57 | the bytes of a string are those before character k, those of character k, then those after it |
| `Utf8.IsCharBoundary` | fuzzy_search/src/lib.rs:71 | `str::is_char_boundary`: index 0 and the length are boundaries, an inner index is one unless its byte is 10xxxxxx; an index past the end never is |
| `Utf8.BoundaryAtCharStart` | fuzzy_search/src/lib.rs:71 | the start of every character, and the end of the string, is a char boundary |
| `Utf8.NoBoundaryInsideChar` | fuzzy_search/src/lib.rs:71 | no index strictly inside the bytes of one character is a char boundary |
| `FuzzySearchExamples.DocExampleMatches` | fuzzy_search/src/lib.rs:6 | "fu_rch_match" matches "fuzzy_search_match" |
| `FuzzySearchExamples.CaseSensitive` | fuzzy_search/src/lib.rs:20 | "abc" does not match "Alaska Beer Crusade" (no case folding) |
| `FuzzySearchExamples.PrefixMatches` | fuzzy_search/src/lib.rs:26 | "abc" matches "abcdefg" and "str" matches "string" |
| `FuzzySearchExamples.ExactStringMatches` | fuzzy_search/src/lib.rs:85-96 | "string" and "Löwe 老虎 Léopard" each match themselves |
| `FuzzySearchExamples.LongerSearchFails` | fuzzy_search/src/lib.rs:99-110 | "longer" has more bytes than "a" and does not match it |
| `FuzzySearchExamples.MultibyteMatches` | fuzzy_search/src/lib.rs:127-166 | "老虎é" and "Löwe 老虎" match "Löwe 老虎 Léopard" |
| `FuzzySearchExamples.CodeExampleMatches` | fuzzy_search/src/lib.rs:169-180 | "Super.cs" matches "SuperAwesomeClass.cs" |
| `FuzzySearchExamples.ReversedLettersFail` | fuzzy_search/src/lib.rs:183-194 | "tac" does not match "cat" |
| `FuzzySearchExamples.CombiningMarkIsItsOwnChar` | fuzzy_search/src/lib.rs:197-222 | y + U+0306 does not match y a U+014F; it would match y a o U+0306 |

## Left out

- `f_to_c/src/temperature.rs` and `f_to_c/src/main.rs`: floating-point arithmetic and an interactive standard-input loop. They are not part of this model.
- Byte indices are unbounded naturals. The `usize` overflow of `index + offset` at lib.rs:71 is not modelled; it cannot occur for strings that fit in memory.
- Rust strings are valid UTF-8 by construction, so the model holds a string as its scalar values. `char_indices` is modelled by its defined result, character k at byte index `ByteLen(s[..k])`. Decoding of arbitrary, possibly invalid byte sequences is not modelled.
- `FuzzySearch.RecursiveFuzzySearch` recurses on the character suffixes `search[1..]` and `reference[k + 1..]`. It calls `FindNextCharBoundary` on the encoded bytes and proves (`NextBoundaryAfterChar`) that the byte suffix `split_at` would keep is exactly the encoding of those character suffixes. It does not re-decode bytes.
- Grapheme clusters and Unicode normalisation: the code compares scalar values only, and so does the model.
