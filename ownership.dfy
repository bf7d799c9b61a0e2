/**
 * The ownership chapter's string functions: `first_word`, which scans the
 * bytes of a string for the first ASCII space; `calculate_length`, which
 * reads the byte length through a shared borrow; `change_string`, which
 * appends through a mutable borrow; and the equivalent slice forms.
 */
module Ownership {
  import opened Str

  /** A byte of a string's UTF-8 encoding. */
  newtype byte = b: int | 0 <= b < 256

  /** `b' '`, the only byte that ends a word here. */
  const Space: byte := 32

  // ---------------------------------------------------------------------
  // first_word
  // ---------------------------------------------------------------------

  /** The bytes before the first space, or all bytes when there is none. */
  function FirstWordOf(bytes: seq<byte>): (word: seq<byte>)
    ensures word <= bytes
    ensures Space !in word
    ensures Space in bytes ==> |word| < |bytes| && bytes[|word|] == Space
    ensures Space !in bytes ==> word == bytes
  {
    if bytes == [] || bytes[0] == Space then []
    else [bytes[0]] + FirstWordOf(bytes[1..])
  }

  /**
   * `first_word`: walks the bytes with their indices and returns the slice
   * before the first space, or the whole string when no space is found.
   */
  method FirstWord(bytes: seq<byte>) returns (word: seq<byte>)
    ensures word == FirstWordOf(bytes)
  {
    for i := 0 to |bytes|
      invariant Space !in bytes[..i]
    {
      if bytes[i] == Space {
        assert bytes[..i] == FirstWordOf(bytes) by {
          PrefixBeforeSpace(bytes, i);
        }
        return bytes[..i];
      }
    }
    assert bytes[..|bytes|] == bytes;
    return bytes[..];
  }

  /** A space-free prefix followed by a space is the first word. */
  lemma {:induction false} PrefixBeforeSpace(bytes: seq<byte>, i: nat)
    requires i < |bytes| && bytes[i] == Space && Space !in bytes[..i]
    ensures FirstWordOf(bytes) == bytes[..i]
  {
    if i > 0 {
      assert bytes[..i] == [bytes[0]] + bytes[1..i];
      assert bytes[1..][..i - 1] == bytes[1..i];
      PrefixBeforeSpace(bytes[1..], i - 1);
    }
  }

  /** The first word of `word + " " + rest` is `word` when `word` has no space. */
  lemma {:induction false} FirstWordBeforeSpace(word: seq<byte>, rest: seq<byte>)
    requires Space !in word
    ensures FirstWordOf(word + [Space] + rest) == word
  {
    if word != [] {
      assert (word + [Space] + rest)[1..] == word[1..] + [Space] + rest;
      FirstWordBeforeSpace(word[1..], rest);
    } else {
      assert (word + [Space] + rest)[0] == Space;
    }
  }

  /** The ASCII bytes of an ASCII string. */
  function AsciiBytes(s: string): (bytes: seq<byte>)
    requires IsAscii(s)
    ensures |bytes| == |s|
    ensures forall i :: 0 <= i < |s| ==> bytes[i] as int == s[i] as int
  {
    seq(|s|, i requires 0 <= i < |s| => s[i] as int as byte)
  }

  /** The example of `main`: the first word of "hello world" is "hello". */
  lemma FirstWordExample()
    ensures FirstWordOf(AsciiBytes("hello world")) == AsciiBytes("hello")
  {
    assert AsciiBytes("hello world") == AsciiBytes("hello") + [Space] + AsciiBytes("world");
    FirstWordBeforeSpace(AsciiBytes("hello"), AsciiBytes("world"));
  }

  /** Only the ASCII space ends a word: a tab or a newline does not. */
  lemma OtherWhitespaceKept()
    ensures FirstWordOf(AsciiBytes("hi\tthere")) == AsciiBytes("hi\tthere")
    ensures FirstWordOf(AsciiBytes("hi\nthere")) == AsciiBytes("hi\nthere")
  {
    assert Space !in AsciiBytes("hi\tthere");
    assert Space !in AsciiBytes("hi\nthere");
  }

  // ---------------------------------------------------------------------
  // calculate_length and change_string
  // ---------------------------------------------------------------------

  /** Number of bytes UTF-8 uses for one character. */
  function Utf8Width(c: char): (n: nat)
    ensures 1 <= n <= 4
    ensures n == 1 <==> c as int < 0x80
  {
    if c as int < 0x80 then 1
    else if c as int < 0x800 then 2
    else if c as int < 0x10000 then 3
    else 4
  }

  /** `len()` of a `String`: the length of its UTF-8 encoding, in bytes. */
  function Utf8Length(s: string): (n: nat)
    ensures |s| <= n <= 4 * |s|
    ensures n == |s| <==> IsAscii(s)
  {
    if s == [] then 0 else Utf8Width(s[0]) + Utf8Length(s[1..])
  }

  /** The byte length of a concatenation is the sum of the byte lengths. */
  lemma {:induction false} Utf8LengthAppend(a: string, b: string)
    ensures Utf8Length(a + b) == Utf8Length(a) + Utf8Length(b)
  {
    if a != [] {
      assert (a + b)[1..] == a[1..] + b;
      Utf8LengthAppend(a[1..], b);
    } else {
      assert a + b == b;
    }
  }

  /** A heap-allocated, growable `String`, seen through its characters. */
  class OwnedString {
    var chars: string

    constructor(s: string)
      ensures chars == s
    {
      chars := s;
    }

    /** `len()`. */
    function Len(): nat
      reads this
    {
      Utf8Length(chars)
    }

    /** `push_str`: appends `t` in place. */
    method PushStr(t: string)
      modifies this
      ensures chars == old(chars) + t
      ensures Len() == old(Len()) + Utf8Length(t)
    {
      Utf8LengthAppend(chars, t);
      chars := chars + t;
    }
  }

  /**
   * `calculate_length`: the byte length, read through a shared borrow, so the
   * string cannot change.
   */
  function CalculateLength(s: OwnedString): (n: nat)
    reads s
    ensures |s.chars| <= n <= 4 * |s.chars|
    ensures n == |s.chars| <==> IsAscii(s.chars)
  {
    s.Len()
  }

  /** `change_string`: appends " World" through a mutable borrow. */
  method ChangeString(s: OwnedString)
    modifies s
    ensures s.chars == old(s.chars) + " World"
    ensures s.Len() == old(s.Len()) + 6
  {
    s.PushStr(" World");
  }

  /** The borrowing examples of `main`: "Hello!" has length 6 and becomes "Hello! World". */
  method BorrowExamples() returns (length: nat, changed: string)
    ensures length == 6
    ensures changed == "Hello!" + " World"
  {
    var s1 := new OwnedString("Hello!");
    length := CalculateLength(s1);
    var s2 := new OwnedString("Hello!");
    ChangeString(s2);
    changed := s2.chars;
  }

  /** The first example of `main`: "hello" followed by `push_str(", world!")`. */
  method PushStrExample() returns (s: string)
    ensures s == "hello" + ", world!"
  {
    var owned := new OwnedString("hello");
    owned.PushStr(", world!");
    s := owned.chars;
  }

  // ---------------------------------------------------------------------
  // Slices
  // ---------------------------------------------------------------------

  /** The slice forms with and without explicit bounds agree. */
  lemma SliceForms(s: string)
    requires |s| >= 2
    ensures s[0..2] == s[..2]
    ensures s[2..|s|] == s[2..]
    ensures s[..] == s
  {
  }

  /** "hello" gives "he", "llo" and "hello". */
  lemma SliceExample()
    ensures "hello"[..2] == "he"
    ensures "hello"[2..] == "llo"
    ensures "hello"[..] == "hello"
  {
  }
}
