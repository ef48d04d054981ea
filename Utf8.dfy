/** The byte form of Rust text (`&str`): a sequence of Unicode scalar values
    stored in UTF-8 as laid down in section 3 of RFC 3629, and the
    char-boundary test `str::is_char_boundary` over those bytes.
    A Dafny `char` is a Unicode scalar value (0 to 0x10FFFF, surrogates
    excluded), which is exactly Rust's `char`. */
module Utf8 {

  /** One storage byte. */
  type Byte = b: int | 0 <= b < 0x100

  /** A byte of the form 10xxxxxx, which only ever continues a character. */
  predicate IsContinuation(b: Byte) {
    0x80 <= b < 0xC0
  }

  /** Number of bytes RFC 3629 section 3 uses for one scalar value. */
  function EncodedLen(c: char): (n: nat)
    ensures 1 <= n <= 4
    ensures n == 1 <==> c as int < 0x80
  {
    if c as int < 0x80 then 1
    else if c as int < 0x800 then 2
    else if c as int < 0x10000 then 3
    else 4
  }

  /** The UTF-8 bytes of one scalar value (RFC 3629 section 3):
      a leading byte that is never a continuation byte, followed by
      EncodedLen(c) - 1 continuation bytes. */
  function EncodeChar(c: char): (bytes: seq<Byte>)
    ensures |bytes| == EncodedLen(c)
    ensures !IsContinuation(bytes[0])
    ensures forall j :: 1 <= j < |bytes| ==> IsContinuation(bytes[j])
  {
    var v := c as int;
    if v < 0x80 then
      [v]
    else if v < 0x800 then
      [0xC0 + v / 0x40, 0x80 + v % 0x40]
    else if v < 0x10000 then
      [0xE0 + v / 0x1000, 0x80 + (v / 0x40) % 0x40, 0x80 + v % 0x40]
    else
      [0xF0 + v / 0x40000, 0x80 + (v / 0x1000) % 0x40, 0x80 + (v / 0x40) % 0x40, 0x80 + v % 0x40]
  }

  /** The scalar value carried by the bytes of one encoded character: the
      leading byte's payload bits followed by six bits per continuation byte. */
  function DecodeChar(bytes: seq<Byte>): int
    requires 1 <= |bytes| <= 4
  {
    if |bytes| == 1 then
      bytes[0]
    else if |bytes| == 2 then
      (bytes[0] as int - 0xC0) * 0x40 + (bytes[1] as int - 0x80)
    else if |bytes| == 3 then
      (bytes[0] as int - 0xE0) * 0x1000 + (bytes[1] as int - 0x80) * 0x40 + (bytes[2] as int - 0x80)
    else
      (bytes[0] as int - 0xF0) * 0x40000 + (bytes[1] as int - 0x80) * 0x1000
        + (bytes[2] as int - 0x80) * 0x40 + (bytes[3] as int - 0x80)
  }

  /** Decoding the bytes of a character gives the character back. */
  lemma DecodeEncodeChar(c: char)
    ensures DecodeChar(EncodeChar(c)) == c as int
  {
    var v := c as int;
    if v < 0x80 {
    } else if v < 0x800 {
      assert v == (v / 0x40) * 0x40 + v % 0x40;
    } else if v < 0x10000 {
      assert v / 0x40 == (v / 0x1000) * 0x40 + (v / 0x40) % 0x40;
      assert v == (v / 0x40) * 0x40 + v % 0x40;
    } else {
      assert v / 0x1000 == (v / 0x40000) * 0x40 + (v / 0x1000) % 0x40;
      assert v / 0x40 == (v / 0x1000) * 0x40 + (v / 0x40) % 0x40;
      assert v == (v / 0x40) * 0x40 + v % 0x40;
    }
  }

  /** Length in bytes of a string (Rust's `str::len`). */
  function ByteLen(s: seq<char>): (n: nat)
    ensures |s| <= n <= 4 * |s|
    ensures n == 0 <==> s == []
  {
    if s == [] then 0 else EncodedLen(s[0]) + ByteLen(s[1..])
  }

  /** The UTF-8 bytes of a whole string, character after character. */
  function EncodeString(s: seq<char>): (bytes: seq<Byte>)
    ensures |bytes| == ByteLen(s)
  {
    if s == [] then [] else EncodeChar(s[0]) + EncodeString(s[1..])
  }

  /** Rust's `str::is_char_boundary`: index 0 and the end of the string are
      boundaries, an index inside the string is one when its byte is not a
      continuation byte, and an index past the end is not one. */
  predicate IsCharBoundary(bytes: seq<Byte>, i: nat): (boundary: bool)
    ensures boundary ==> i <= |bytes|
  {
    i == 0 || i == |bytes| || (i < |bytes| && !IsContinuation(bytes[i]))
  }

  lemma {:induction false} ByteLenAppend(a: seq<char>, b: seq<char>)
    ensures ByteLen(a + b) == ByteLen(a) + ByteLen(b)
  {
    if a == [] {
      assert a + b == b;
    } else {
      assert (a + b)[1..] == a[1..] + b;
      ByteLenAppend(a[1..], b);
    }
  }

  lemma {:induction false} EncodeStringAppend(a: seq<char>, b: seq<char>)
    ensures EncodeString(a + b) == EncodeString(a) + EncodeString(b)
  {
    if a == [] {
      assert a + b == b;
    } else {
      assert (a + b)[1..] == a[1..] + b;
      EncodeStringAppend(a[1..], b);
    }
  }

  /** The byte offset of character k is the byte length of the characters
      before it, and the character after it starts EncodedLen(s[k]) later. */
  lemma ByteLenStep(s: seq<char>, k: nat)
    requires k < |s|
    ensures ByteLen(s[..k + 1]) == ByteLen(s[..k]) + EncodedLen(s[k])
  {
    assert s[..k + 1] == s[..k] + [s[k]];
    ByteLenAppend(s[..k], [s[k]]);
  }

  /** The bytes of a string split after its k-th character: the bytes of the
      rest begin at the byte length of the first k + 1 characters. */
  lemma EncodeStringSplit(s: seq<char>, k: nat)
    requires k <= |s|
    ensures EncodeString(s) == EncodeString(s[..k]) + EncodeString(s[k..])
    ensures EncodeString(s[k..]) == EncodeString(s)[ByteLen(s[..k])..]
  {
    assert s == s[..k] + s[k..];
    EncodeStringAppend(s[..k], s[k..]);
  }

  /** The bytes of a string split around its k-th character. */
  lemma EncodeStringAt(s: seq<char>, k: nat)
    requires k < |s|
    ensures EncodeString(s) == EncodeString(s[..k]) + EncodeChar(s[k]) + EncodeString(s[k + 1..])
  {
    EncodeStringSplit(s, k);
    var rest := s[k..];
    assert rest != [] && rest[0] == s[k] && rest[1..] == s[k + 1..];
    var before, here, after := EncodeString(s[..k]), EncodeChar(s[k]), EncodeString(s[k + 1..]);
    assert EncodeString(rest) == here + after;
    assert before + (here + after) == before + here + after;
  }

  /** Every character of an encoded string starts on a char boundary, and so
      does the end of the string. */
  lemma BoundaryAtCharStart(s: seq<char>, k: nat)
    requires k <= |s|
    ensures IsCharBoundary(EncodeString(s), ByteLen(s[..k]))
  {
    if k == |s| {
      assert s[..k] == s;
    } else if k > 0 {
      EncodeStringAt(s, k);
      assert EncodeString(s)[ByteLen(s[..k])] == EncodeChar(s[k])[0];
    }
  }

  /** No index strictly inside the bytes of a character is a char boundary. */
  lemma NoBoundaryInsideChar(s: seq<char>, k: nat, j: nat)
    requires k < |s|
    requires ByteLen(s[..k]) < j < ByteLen(s[..k + 1])
    ensures !IsCharBoundary(EncodeString(s), j)
  {
    EncodeStringAt(s, k);
    ByteLenStep(s, k);
    var start := ByteLen(s[..k]);
    assert EncodeString(s)[j] == EncodeChar(s[k])[j - start];
  }
}
