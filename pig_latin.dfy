/**
 * The pig-latin converter: every whitespace-separated word of the text is
 * rewritten and followed by one space. A word that starts with a lowercase
 * vowel gains "-hay"; any other word has its first letter moved to the end,
 * followed by "ay" ("first" becomes "irst-fay").
 */
module PigLatin {
  import opened Str

  /** The keys of the vowel table: the lowercase ASCII vowels. */
  predicate IsVowel(c: char) {
    c == 'a' || c == 'e' || c == 'i' || c == 'o' || c == 'u'
  }

  /** A word's translation without its trailing space. */
  function Stem(word: string): (r: string)
    requires word != []
    ensures |r| == if IsVowel(word[0]) then |word| + 4 else |word| + 3
  {
    if IsVowel(word[0]) then word + "-hay" else word[1..] + "-" + word[..1] + "ay"
  }

  /** A stem keeps every letter of its word. */
  lemma StemKeepsLetters(word: string)
    requires word != []
    ensures multiset(word) <= multiset(Stem(word))
  {
    if IsVowel(word[0]) {
      assert Stem(word) == word + "-hay";
    } else {
      assert word == word[..1] + word[1..];
      assert Stem(word) == word[1..] + "-" + word[..1] + "ay";
    }
  }

  /** The text appended for one word: the stem and one space. */
  function TranslateWord(word: string): (r: string)
    requires word != []
    ensures |r| == if IsVowel(word[0]) then |word| + 5 else |word| + 4
    ensures r[|r| - 1] == ' '
  {
    Stem(word) + " "
  }

  /** The stems of a sequence of words. */
  function Stems(words: seq<string>): (r: seq<string>)
    requires forall j :: 0 <= j < |words| ==> words[j] != []
    ensures |r| == |words|
    ensures forall j :: 0 <= j < |words| ==> r[j] == Stem(words[j])
  {
    seq(|words|, j requires 0 <= j < |words| => Stem(words[j]))
  }

  /** What the converter produces for `text`. */
  function PigLatinOf(text: string): (r: string)
    ensures r == [] <==> SplitWhitespace(text) == []
    ensures r != [] ==> r[|r| - 1] == ' '
  {
    Unwords(Stems(SplitWhitespace(text)))
  }

  /**
   * The conversion loop of `main`, lifted into a method that takes the text.
   * The program assumes alphanumeric (ASCII) input: `split_at(1)` would panic
   * on a word whose first character is longer than one byte.
   */
  method Convert(text: string) returns (latinText: string)
    requires IsAscii(text)
    ensures latinText == PigLatinOf(text)
  {
    latinText := "";
    var vowel: map<string, int> := map[];
    vowel := vowel["a" := 0];
    vowel := vowel["e" := 0];
    vowel := vowel["i" := 0];
    vowel := vowel["o" := 0];
    vowel := vowel["u" := 0];

    VowelTableKeys(vowel);
    var words := SplitWhitespace(text);
    for i := 0 to |words|
      invariant latinText == Unwords(Stems(words[..i]))
    {
      var word := words[i];
      var start, rest := word[..1], word[1..];
      PieceIsTranslation(word, vowel);
      if start in vowel {
        latinText := latinText + (word + "-hay ");
      } else {
        latinText := latinText + (rest + "-" + start + "ay ");
      }
      TranslationStep(words, i);
    }
    assert words[..|words|] == words;
  }

  /** The output for the first `i + 1` words extends that for the first `i`. */
  lemma TranslationStep(words: seq<string>, i: nat)
    requires i < |words|
    requires forall j :: 0 <= j < |words| ==> words[j] != []
    ensures Unwords(Stems(words[..i + 1])) == Unwords(Stems(words[..i])) + TranslateWord(words[i])
  {
    assert Stems(words[..i + 1])[..i] == Stems(words[..i]);
  }

  /** The keys of the vowel table, as one-letter strings. */
  const VowelKeys: set<string> := {"a", "e", "i", "o", "u"}

  /** The five insertions of `main` build a table with exactly the vowel keys. */
  lemma VowelTableKeys(vowel: map<string, int>)
    requires vowel == map[]["a" := 0]["e" := 0]["i" := 0]["o" := 0]["u" := 0]
    ensures vowel.Keys == VowelKeys
  {
  }

  /** Looking up the first letter in the vowel table decides the rule. */
  lemma PieceIsTranslation(word: string, vowel: map<string, int>)
    requires word != [] && vowel.Keys == VowelKeys
    ensures word[..1] in vowel ==> word + "-hay " == TranslateWord(word)
    ensures word[..1] !in vowel ==> word[1..] + "-" + word[..1] + "ay " == TranslateWord(word)
  {
    assert word[..1] == [word[0]];
    assert word[..1] in vowel <==> IsVowel(word[0]);
  }

  /** A stem is itself one word: non-empty and without whitespace. */
  lemma StemIsWord(word: string)
    requires IsWord(word)
    ensures IsWord(Stem(word))
  {
    var s := Stem(word);
    forall i | 0 <= i < |s| ensures !IsWhitespace(s[i]) {
      if IsVowel(word[0]) {
        if i >= |word| {
          assert s[i] in "-hay";
        }
      } else if i < |word| - 1 {
        assert s[i] == word[i + 1];
      } else if i == |word| {
        assert s[i] == word[0];
      } else {
        assert s[i] in "-ay";
      }
    }
  }

  /**
   * The output has exactly one word per input word, in the same order: the
   * input word's stem.
   */
  lemma {:induction false} OutputWords(text: string)
    ensures SplitWhitespace(PigLatinOf(text)) == Stems(SplitWhitespace(text))
    ensures |SplitWhitespace(PigLatinOf(text))| == |SplitWhitespace(text)|
  {
    var words := SplitWhitespace(text);
    forall j | 0 <= j < |words| ensures IsWord(Stems(words)[j]) {
      StemIsWord(words[j]);
    }
    SplitUnwords(Stems(words));
  }

  /** Empty or all-whitespace text gives empty output, and only such text does. */
  lemma EmptyOutput(text: string)
    ensures PigLatinOf(text) == [] <==> SplitWhitespace(text) == []
    ensures (forall i :: 0 <= i < |text| ==> IsWhitespace(text[i])) ==> PigLatinOf(text) == []
  {
    if forall i :: 0 <= i < |text| ==> IsWhitespace(text[i]) {
      AllWhitespaceHasNoWords(text);
    }
  }

  /** Trailing whitespace of any kind and length does not change the output. */
  lemma TrailingWhitespaceIgnored(text: string, tail: string)
    requires forall i :: 0 <= i < |tail| ==> IsWhitespace(tail[i])
    ensures PigLatinOf(text + tail) == PigLatinOf(text)
  {
    SplitTrailingWhitespaceRun(text, tail);
  }

  /**
   * Words are translated independently: converting two texts joined by a
   * space gives the two conversions one after the other.
   */
  lemma ConvertAppend(a: string, b: string)
    ensures PigLatinOf(a + " " + b) == PigLatinOf(a) + PigLatinOf(b)
  {
    var wa, wb := SplitWhitespace(a), SplitWhitespace(b);
    SplitWhitespaceAppend(a + " ", b);
    SplitTrailingWhitespace(a, ' ');
    assert Stems(wa + wb) == Stems(wa) + Stems(wb);
    UnwordsAppend(Stems(wa), Stems(wb));
  }

  /** A lone word becomes its translation. */
  lemma SingleWord(w: string)
    requires IsWord(w)
    ensures PigLatinOf(w) == TranslateWord(w)
  {
    SplitSingle(w);
    assert Stems([w]) == [Stem(w)];
    assert [Stem(w)][..0] == [];
    assert Unwords([Stem(w)]) == Unwords([]) + Stem(w) + " ";
    assert [] + Stem(w) == Stem(w);
  }

  /** A word starting with a consonant: its first letter moves to the end. */
  lemma ConsonantExample()
    ensures PigLatinOf("first") == "irst-fay "
  {
    SingleWord("first");
  }

  /** A word starting with a vowel keeps its letters and gains "-hay". */
  lemma VowelExample()
    ensures PigLatinOf("apple") == "apple-hay "
  {
    SingleWord("apple");
  }

  /** Only lowercase vowels count: an uppercase vowel is moved like a consonant. */
  lemma UppercaseVowelExample()
    ensures PigLatinOf("Apple") == "pple-Aay "
  {
    SingleWord("Apple");
  }

  /** Eight words separated by single spaces are translated one by one. */
  lemma ConvertEight(w1: string, w2: string, w3: string, w4: string,
                     w5: string, w6: string, w7: string, w8: string)
    ensures PigLatinOf(w1 + " " + (w2 + " " + (w3 + " " + (w4 + " " + (w5 + " "
      + (w6 + " " + (w7 + " " + w8)))))))
      == PigLatinOf(w1) + (PigLatinOf(w2) + (PigLatinOf(w3) + (PigLatinOf(w4) + (PigLatinOf(w5)
      + (PigLatinOf(w6) + (PigLatinOf(w7) + PigLatinOf(w8)))))))
  {
    ConvertAppend(w7, w8);
    ConvertAppend(w6, w7 + " " + w8);
    ConvertAppend(w5, w6 + " " + (w7 + " " + w8));
    ConvertAppend(w4, w5 + " " + (w6 + " " + (w7 + " " + w8)));
    ConvertAppend(w3, w4 + " " + (w5 + " " + (w6 + " " + (w7 + " " + w8))));
    ConvertAppend(w2, w3 + " " + (w4 + " " + (w5 + " " + (w6 + " " + (w7 + " " + w8)))));
    ConvertAppend(w1, w2 + " " + (w3 + " " + (w4 + " " + (w5 + " " + (w6 + " " + (w7 + " " + w8))))));
  }

  // The remaining words of the sentence of `main`, one lemma each.
  lemma LetExample() ensures PigLatinOf("let") == "et-lay " { SingleWord("let"); }
  lemma UsExample() ensures PigLatinOf("us") == "us-hay " { SingleWord("us"); }
  lemma RunExample() ensures PigLatinOf("run") == "un-ray " { SingleWord("run"); }
  lemma ToExample() ensures PigLatinOf("to") == "o-tay " { SingleWord("to"); }
  lemma TheExample() ensures PigLatinOf("the") == "he-tay " { SingleWord("the"); }
  lemma ForgeExample() ensures PigLatinOf("forge") == "orge-fay " { SingleWord("forge"); }

  /** The sentence of `main`: "let us first run to the apple forge". */
  lemma MainExample()
    ensures PigLatinOf("let" + " " + ("us" + " " + ("first" + " " + ("run" + " " + ("to" + " "
      + ("the" + " " + ("apple" + " " + "forge")))))))
      == "et-lay " + ("us-hay " + ("irst-fay " + ("un-ray " + ("o-tay " + ("he-tay "
      + ("apple-hay " + "orge-fay "))))))
  {
    ConvertEight("let", "us", "first", "run", "to", "the", "apple", "forge");
    LetExample();
    UsExample();
    ConsonantExample();
    RunExample();
    ToExample();
    TheExample();
    VowelExample();
    ForgeExample();
  }
}
