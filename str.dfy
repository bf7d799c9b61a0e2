/**
 * The string operations of Rust's standard library that the modelled
 * programs rely on: `str::contains`, `str::lines`, `str::split_whitespace`
 * and a per-character `to_lowercase`. Strings are sequences of Unicode
 * scalar values (Dafny's `char`).
 */
module Str {

  /** True when every character is ASCII (one UTF-8 byte). */
  predicate IsAscii(s: string) {
    forall i :: 0 <= i < |s| ==> s[i] as int < 128
  }

  // ---------------------------------------------------------------------
  // `str::contains` with a `&str` pattern: literal substring search.
  // ---------------------------------------------------------------------

  /** `pattern` occurs in `s` starting at index `i`. */
  predicate OccursAt(s: string, pattern: string, i: nat) {
    i + |pattern| <= |s| && s[i..i + |pattern|] == pattern
  }

  /** `s.contains(pattern)`: the pattern starts at some position of `s`. */
  predicate Contains(s: string, pattern: string)
    ensures Contains(s, pattern) ==> |pattern| <= |s|
    decreases |s|
  {
    pattern <= s || (s != [] && Contains(s[1..], pattern))
  }

  /** `Contains` holds exactly when the pattern occurs at some index. */
  lemma {:induction false} ContainsAt(s: string, pattern: string)
    ensures Contains(s, pattern) <==> exists i: nat :: OccursAt(s, pattern, i)
  {
    if pattern <= s {
      assert OccursAt(s, pattern, 0);
    } else if s == [] {
    } else {
      ContainsAt(s[1..], pattern);
      if Contains(s[1..], pattern) {
        var i: nat :| OccursAt(s[1..], pattern, i);
        assert s[i + 1..i + 1 + |pattern|] == s[1..][i..i + |pattern|];
        assert OccursAt(s, pattern, i + 1);
      }
      if i: nat :| OccursAt(s, pattern, i) {
        assert i != 0;
        assert s[1..][i - 1..i - 1 + |pattern|] == s[i..i + |pattern|];
        assert OccursAt(s[1..], pattern, i - 1);
      }
    }
  }

  /** A pattern whose first character does not occur in `s` is not contained in it. */
  lemma {:induction false} NotContainsFirst(s: string, pattern: string)
    requires pattern != [] && pattern[0] !in s
    ensures !Contains(s, pattern)
    decreases |s|
  {
    if s != [] {
      assert s[0] != pattern[0];
      NotContainsFirst(s[1..], pattern);
      assert forall c :: c in s[1..] ==> c in s;
    }
  }

  /** A pattern holding a character that `s` lacks is not contained in `s`. */
  lemma NotContainsChar(s: string, pattern: string, k: nat)
    requires k < |pattern| && pattern[k] !in s
    ensures !Contains(s, pattern)
  {
    ContainsAt(s, pattern);
  }

  /** An occurrence cannot start in a prefix that lacks the pattern's first character. */
  lemma {:induction false} ContainsSkipsPrefix(s: string, k: nat, pattern: string)
    requires k <= |s| && pattern != [] && pattern[0] !in s[..k]
    ensures Contains(s, pattern) ==> Contains(s[k..], pattern)
    decreases k
  {
    if k > 0 {
      assert s[0] == s[..k][0];
      assert forall c :: c in s[1..][..k - 1] ==> c in s[..k];
      ContainsSkipsPrefix(s[1..], k - 1, pattern);
      assert s[1..][k - 1..] == s[k..];
    }
  }


  /** The empty pattern is contained in every string. */
  lemma ContainsEmpty(s: string)
    ensures Contains(s, [])
  {
  }

  // ---------------------------------------------------------------------
  // Lowercasing, abstracted to a function applied character by character.
  // ---------------------------------------------------------------------

  /** `s.to_lowercase()` under a per-character lowercase mapping `lower`. */
  function Lowercase(lower: char -> char, s: string): (r: string)
    ensures |r| == |s|
    ensures forall i :: 0 <= i < |s| ==> r[i] == lower(s[i])
  {
    seq(|s|, i requires 0 <= i < |s| => lower(s[i]))
  }

  /** ASCII lowercase: `A`..`Z` map to `a`..`z`, every other character is kept. */
  function AsciiLower(c: char): (r: char)
    ensures 'A' <= c <= 'Z' ==> r as int == c as int + 32
    ensures !('A' <= c <= 'Z') ==> r == c
  {
    if 'A' <= c <= 'Z' then (c as int + 32) as char else c
  }

  /** An occurrence of `pattern` in `s` is still an occurrence after lowercasing both. */
  lemma {:induction false} ContainsLowercase(lower: char -> char, s: string, pattern: string)
    requires Contains(s, pattern)
    ensures Contains(Lowercase(lower, s), Lowercase(lower, pattern))
  {
    var ls, lp := Lowercase(lower, s), Lowercase(lower, pattern);
    if pattern <= s {
      assert lp <= ls;
    } else {
      ContainsLowercase(lower, s[1..], pattern);
      assert Lowercase(lower, s[1..]) == ls[1..];
    }
  }

  // ---------------------------------------------------------------------
  // `str::lines`
  // ---------------------------------------------------------------------

  /** Index of the first `c` in `s`, or `|s|` when there is none. */
  function IndexOf(s: string, c: char): (k: nat)
    ensures k <= |s|
    ensures forall i :: 0 <= i < k ==> s[i] != c
    ensures k < |s| ==> s[k] == c
  {
    if s == [] || s[0] == c then 0 else 1 + IndexOf(s[1..], c)
  }

  /** Drops one `\r` at the end of a line that was terminated by `\n`. */
  function StripCarriageReturn(line: string): string {
    if line != [] && line[|line| - 1] == '\r' then line[..|line| - 1] else line
  }

  /**
   * `s.lines()`: the pieces between `\n` terminators; a `\r` right before a
   * `\n` is dropped; a final `\n` does not start an extra empty line; the empty
   * string has no lines. A final piece without `\n` is kept as it is.
   */
  function Lines(s: string): (r: seq<string>)
    ensures r == [] <==> s == []
    ensures |r| <= |s|
    decreases |s|
  {
    if s == [] then []
    else
      var k := IndexOf(s, '\n');
      if k == |s| then [s]
      else [StripCarriageReturn(s[..k])] + Lines(s[k + 1..])
  }

  /** Each line followed by `\n`, concatenated. */
  function Unlines(lines: seq<string>): string {
    if lines == [] then [] else lines[0] + "\n" + Unlines(lines[1..])
  }

  /** No line that `Lines` produces holds a `\n`. */
  lemma {:induction false} LinesHaveNoNewline(s: string)
    ensures forall j :: 0 <= j < |Lines(s)| ==> '\n' !in Lines(s)[j]
    decreases |s|
  {
    if s != [] {
      var k := IndexOf(s, '\n');
      if k < |s| {
        LinesHaveNoNewline(s[k + 1..]);
        var line := s[..k];
        assert '\n' !in line;
        assert '\n' !in StripCarriageReturn(line) by {
          if line != [] && line[|line| - 1] == '\r' {
            assert forall x :: x in line[..|line| - 1] ==> x in line;
          }
        }
      }
    }
  }

  /** A line followed by `\n` and more text splits off as the first line. */
  lemma LinesCons(line: string, rest: string)
    requires '\n' !in line
    requires line == [] || line[|line| - 1] != '\r'
    ensures Lines(line + "\n" + rest) == [line] + Lines(rest)
  {
    var s := line + "\n" + rest;
    assert s[|line|] == '\n';
    assert IndexOf(s, '\n') == |line| by {
      assert forall i :: 0 <= i < |line| ==> s[i] == line[i];
    }
    assert s[..|line|] == line;
    assert s[|line| + 1..] == rest;
  }

  /** A non-empty text without `\n` is a single line. */
  lemma LinesSingle(line: string)
    requires '\n' !in line && line != []
    ensures Lines(line) == [line]
  {
  }

  /** Splitting the `\n`-terminated text of some lines gives those lines back. */
  lemma {:induction false} LinesOfUnlines(lines: seq<string>)
    requires forall j :: 0 <= j < |lines| ==> '\n' !in lines[j]
    requires forall j :: 0 <= j < |lines| ==> lines[j] == [] || lines[j][|lines[j]| - 1] != '\r'
    ensures Lines(Unlines(lines)) == lines
  {
    if lines != [] {
      LinesCons(lines[0], Unlines(lines[1..]));
      LinesOfUnlines(lines[1..]);
    }
  }

  /**
   * Text without `\r` is recovered from its lines, up to the one `\n` that a
   * final unterminated line gains.
   */
  lemma {:induction false} UnlinesOfLines(s: string)
    requires '\r' !in s
    ensures Unlines(Lines(s)) == if s == [] || s[|s| - 1] == '\n' then s else s + "\n"
    decreases |s|
  {
    if s != [] {
      var k := IndexOf(s, '\n');
      if k == |s| {
        assert Unlines(Lines(s)) == s + "\n" + Unlines([]);
      } else {
        UnlinesOfLinesStep(s, k);
      }
    }
  }

  /** The step of `UnlinesOfLines` for text whose first `\n` is at index `k`. */
  lemma {:induction false} UnlinesOfLinesStep(s: string, k: nat)
    requires '\r' !in s
    requires k < |s| && k == IndexOf(s, '\n')
    ensures Unlines(Lines(s)) == if s[|s| - 1] == '\n' then s else s + "\n"
    decreases |s|, 0
  {
    var line, rest := s[..k], s[k + 1..];
    assert '\r' !in line && '\r' !in rest by {
      assert forall c :: c in line || c in rest ==> c in s;
    }
    NoCarriageReturnKept(line);
    assert Lines(s) == [line] + Lines(rest);
    UnlinesOfLines(rest);
    assert Unlines(Lines(s)) == line + "\n" + Unlines(Lines(rest));
    RejoinLine(s, k);
  }

  /** Text split at its `\n` at index `k` is rejoined by that `\n`, with or without a final one. */
  lemma RejoinLine(s: string, k: nat)
    requires k < |s| && s[k] == '\n'
    ensures s[..k] + "\n" + s[k + 1..] == s
    ensures k + 1 < |s| ==> s[..k] + "\n" + (s[k + 1..] + "\n") == s + "\n"
    ensures k + 1 < |s| ==> s[k + 1..][|s| - k - 2] == s[|s| - 1]
  {
    assert s[..k] + "\n" + s[k + 1..] == s;
  }

  /** A line without `\r` loses nothing to `StripCarriageReturn`. */
  lemma NoCarriageReturnKept(line: string)
    requires '\r' !in line
    ensures StripCarriageReturn(line) == line
  {
    if line != [] {
      assert line[|line| - 1] in line;
    }
  }

  // ---------------------------------------------------------------------
  // `str::split_whitespace`
  // ---------------------------------------------------------------------

  /** The Unicode `White_Space` property, which `split_whitespace` splits on. */
  predicate IsWhitespace(c: char) {
    ('\t' <= c <= '\r') || c == ' ' || c == '\U{85}' || c == '\U{A0}' || c == '\U{1680}'
    || ('\U{2000}' <= c <= '\U{200A}') || c == '\U{2028}' || c == '\U{2029}'
    || c == '\U{202F}' || c == '\U{205F}' || c == '\U{3000}'
  }

  /** A word as `split_whitespace` yields it: non-empty, without whitespace. */
  predicate IsWord(w: string) {
    w != [] && forall i :: 0 <= i < |w| ==> !IsWhitespace(w[i])
  }

  /** Length of the longest whitespace-free prefix of `s`. */
  function WordEnd(s: string): (k: nat)
    ensures k <= |s|
    ensures forall i :: 0 <= i < k ==> !IsWhitespace(s[i])
    ensures k < |s| ==> IsWhitespace(s[k])
  {
    if s == [] || IsWhitespace(s[0]) then 0 else 1 + WordEnd(s[1..])
  }

  /** `s.split_whitespace()`: the maximal whitespace-free runs of `s`, in order. */
  function SplitWhitespace(s: string): (r: seq<string>)
    ensures forall j :: 0 <= j < |r| ==> IsWord(r[j])
    decreases |s|
  {
    if s == [] then []
    else if IsWhitespace(s[0]) then SplitWhitespace(s[1..])
    else
      var k := WordEnd(s);
      [s[..k]] + SplitWhitespace(s[k..])
  }

  /** Text made only of whitespace has no words. */
  lemma {:induction false} AllWhitespaceHasNoWords(s: string)
    requires forall i :: 0 <= i < |s| ==> IsWhitespace(s[i])
    ensures SplitWhitespace(s) == []
    decreases |s|
  {
    if s != [] {
      AllWhitespaceHasNoWords(s[1..]);
    }
  }

  /** A whitespace-free prefix is not cut short by what follows it. */
  lemma {:induction false} WordEndAppend(a: string, b: string)
    requires WordEnd(a) < |a|
    ensures WordEnd(a + b) == WordEnd(a)
  {
    if IsWhitespace(a[0]) {
    } else {
      assert (a + b)[1..] == a[1..] + b;
      WordEndAppend(a[1..], b);
    }
  }

  /** Splitting distributes over a concatenation at a whitespace boundary. */
  lemma {:induction false} SplitWhitespaceAppend(a: string, b: string)
    requires a == [] || IsWhitespace(a[|a| - 1])
    ensures SplitWhitespace(a + b) == SplitWhitespace(a) + SplitWhitespace(b)
    decreases |a|
  {
    if a == [] {
      assert a + b == b;
    } else if IsWhitespace(a[0]) {
      assert (a + b)[1..] == a[1..] + b;
      SplitWhitespaceAppend(a[1..], b);
    } else {
      var k := WordEnd(a);
      WordEndAppend(a, b);
      assert (a + b)[..k] == a[..k];
      assert (a + b)[k..] == a[k..] + b;
      SplitWhitespaceAppend(a[k..], b);
    }
  }

  /** The words, each followed by one space, concatenated. */
  function Unwords(words: seq<string>): string {
    if words == [] then [] else Unwords(words[..|words| - 1]) + words[|words| - 1] + " "
  }

  /** A word followed by a space splits into just that word. */
  lemma SplitWordSpace(w: string)
    requires IsWord(w)
    ensures SplitWhitespace(w + " ") == [w]
  {
    assert (w + " ")[|w|] == ' ';
    assert WordEnd(w + " ") == |w| by {
      assert forall i :: 0 <= i < |w| ==> (w + " ")[i] == w[i];
    }
    assert (w + " ")[..|w|] == w;
    assert (w + " ")[|w|..] == " ";
    assert SplitWhitespace(" ") == SplitWhitespace([]);
  }

  /** A whitespace-free string is one run. */
  lemma {:induction false} WordEndOfWord(w: string)
    requires forall i :: 0 <= i < |w| ==> !IsWhitespace(w[i])
    ensures WordEnd(w) == |w|
  {
    if w != [] {
      assert forall i :: 0 <= i < |w[1..]| ==> w[1..][i] == w[i + 1];
      WordEndOfWord(w[1..]);
    }
  }

  /** A lone word is the only word of the text. */
  lemma SplitSingle(w: string)
    requires IsWord(w)
    ensures SplitWhitespace(w) == [w]
  {
    WordEndOfWord(w);
    assert w[..|w|] == w;
    assert w[|w|..] == [];
  }

  /** A word followed by a space starts the word list. */
  lemma SplitCons(w: string, rest: string)
    requires IsWord(w)
    ensures SplitWhitespace(w + " " + rest) == [w] + SplitWhitespace(rest)
  {
    SplitWhitespaceAppend(w + " ", rest);
    SplitWordSpace(w);
  }

  /** Four words separated by single spaces split back into those words. */
  lemma SplitFour(w1: string, w2: string, w3: string, w4: string)
    requires IsWord(w1) && IsWord(w2) && IsWord(w3) && IsWord(w4)
    ensures SplitWhitespace(w1 + " " + (w2 + " " + (w3 + " " + w4))) == [w1, w2, w3, w4]
  {
    SplitSingle(w4);
    SplitCons(w3, w4);
    SplitCons(w2, w3 + " " + w4);
    SplitCons(w1, w2 + " " + (w3 + " " + w4));
  }

  /** A trailing whitespace character adds no word. */
  lemma {:induction false} SplitTrailingWhitespace(t: string, c: char)
    requires IsWhitespace(c)
    ensures SplitWhitespace(t + [c]) == SplitWhitespace(t)
    decreases |t|
  {
    if t == [] {
      assert SplitWhitespace([c]) == SplitWhitespace([]);
    } else if IsWhitespace(t[0]) {
      assert (t + [c])[1..] == t[1..] + [c];
      SplitTrailingWhitespace(t[1..], c);
    } else {
      var k := WordEnd(t);
      if k < |t| {
        WordEndAppend(t, [c]);
        assert (t + [c])[..k] == t[..k];
        assert (t + [c])[k..] == t[k..] + [c];
        SplitTrailingWhitespace(t[k..], c);
      } else {
        assert (t + [c])[|t|] == c;
        assert WordEnd(t + [c]) == |t| by {
          assert forall i :: 0 <= i < |t| ==> (t + [c])[i] == t[i];
        }
        assert (t + [c])[..|t|] == t;
        assert (t + [c])[|t|..] == [c];
        assert SplitWhitespace([c]) == SplitWhitespace([]);
        SplitSingle(t);
      }
    }
  }

  /** Trailing whitespace, however long, adds no word. */
  lemma {:induction false} SplitTrailingWhitespaceRun(t: string, tail: string)
    requires forall i :: 0 <= i < |tail| ==> IsWhitespace(tail[i])
    ensures SplitWhitespace(t + tail) == SplitWhitespace(t)
    decreases |tail|
  {
    if tail == [] {
      assert t + tail == t;
    } else {
      var n := |tail| - 1;
      assert t + tail == (t + tail[..n]) + [tail[n]];
      SplitTrailingWhitespace(t + tail[..n], tail[n]);
      SplitTrailingWhitespaceRun(t, tail[..n]);
    }
  }


  /** Splitting space-terminated words gives the words back. */
  lemma {:induction false} SplitUnwords(words: seq<string>)
    requires forall j :: 0 <= j < |words| ==> IsWord(words[j])
    ensures SplitWhitespace(Unwords(words)) == words
  {
    if words != [] {
      var init, last := words[..|words| - 1], words[|words| - 1];
      SplitUnwords(init);
      SplitWhitespaceAppend(Unwords(init), last + " ");
      assert Unwords(words) == Unwords(init) + (last + " ");
      SplitWordSpace(last);
    }
  }

  /** Joining two word lists joins their texts. */
  lemma {:induction false} UnwordsAppend(xs: seq<string>, ys: seq<string>)
    ensures Unwords(xs + ys) == Unwords(xs) + Unwords(ys)
    decreases |ys|
  {
    if ys == [] {
      assert xs + ys == xs;
    } else {
      var init := ys[..|ys| - 1];
      assert (xs + ys)[..|xs + ys| - 1] == xs + init;
      UnwordsAppend(xs, init);
    }
  }
}
