# Rust book 2018 notes: a Dafny model of the exercise programs

The repository is a set of small Rust programs written while reading the Rust
book. Most of them only demonstrate language features. This project models the
ones with behaviour worth stating:

- the grep-like line search of chapter 12 (`Config::new`, `search`,
  `search_case_insensitive` and the choice between them in `run`);
- the pig-latin converter in `src/main.rs`;
- `first_word`, `calculate_length`, `change_string` and the slice forms of the
  ownership chapter;
- the `Counter` iterator and the range `next`/`sum`/`filter` examples of the
  iterator chapter;
- the vector and hash-map operations of the collections chapter, including the
  word-count loop.

Files:

- `wrappers.dfy`: `Option` and `Result`.
- `str.dfy` (module `Str`): the standard string operations the programs use.
  These are `contains`, `lines`, `split_whitespace` and lowercasing, each with
  its laws.
- `minigrep.dfy` (module `Minigrep`): chapter 12.
- `pig_latin.dfy` (module `PigLatin`): the pig-latin loop of `main`, lifted into
  a method that takes the text.
- `ownership.dfy` (module `Ownership`): chapter 4.
- `iterators.dfy` (module `Iterators`): chapter 13.
- `collections.dfy` (module `Collections`): chapter 8.

The searches, the converter, `first_word`, the counter, the range loops, the
vector update loop and the word count are methods with loops. Each is proved
equal to a specification function, and the properties are proved about that
function. `Counter`, `Range`, `Vec`, `HashMap` and the owned `String` are
classes whose methods update their fields in place.

Modelling choices:

- `str::lines()` splits on `\n` and drops a `\r` right before a `\n`. A final
  terminator gives no extra empty line, and the empty string has no lines. A
  lone `\r` at the end of the text is kept, as in current Rust.
- Lowercasing is a per-character function passed in by the caller.
  `AsciiLower` is one such function, used for the concrete examples.
- The `CASE_INSENSITIVE` lookup is an input with three outcomes: present with
  a value, absent, or present but not valid Unicode.
- `run` receives the outcome of reading the file as an input.
- `first_word` works on the bytes of the string, as the source does through
  `as_bytes()`.
- `len()` is the UTF-8 byte length of a string of characters.

## Model

| member | source | states |
|---|---|---|
| Minigrep.NewConfig | src/bin/ch12_building_a_cli_tool/lib.rs:32-44 | fails with "not enough arguments" exactly when there are fewer than 3 arguments; otherwise the query is `args[1]`, the file name `args[2]`, and the search is case-insensitive exactly when the variable lookup succeeds |
| Minigrep.ConfigIgnoresExtraArguments | src/bin/ch12_building_a_cli_tool/lib.rs:37-39 | arguments after the file name do not change the configuration |
| Minigrep.CaseFlagIgnoresValue | src/bin/ch12_building_a_cli_tool/lib.rs:42 | any value of the variable selects case-insensitive search; a non-Unicode value acts like an absent variable |
| Minigrep.Search | src/bin/ch12_building_a_cli_tool/lib.rs:47-58 | returns the lines of the contents that contain the query, in order |
| Minigrep.SearchCaseInsensitive | src/bin/ch12_building_a_cli_tool/lib.rs:61-74 | returns the original lines whose lowercase copy contains the lowercase query, in order |
| Minigrep.Run | src/bin/ch12_building_a_cli_tool/lib.rs:5-14 | a read error is passed on; otherwise the case-sensitive flag picks the search |
| Minigrep.Matching | src/bin/ch12_building_a_cli_tool/lib.rs:47-58 | never returns more lines than it is given, and every line returned matches the query under the chosen case mode |
| Minigrep.MatchingSelectsMatches | src/bin/ch12_building_a_cli_tool/lib.rs:51-55 | the result is the subsequence of lines at strictly increasing indices, and an index is selected exactly when its line matches |
| Minigrep.MatchIndicesIncrease | src/bin/ch12_building_a_cli_tool/lib.rs:51-55 | the selected positions are valid line indices in strictly increasing order |
| Minigrep.MatchIndicesSelect | src/bin/ch12_building_a_cli_tool/lib.rs:51-55 | a position is selected exactly when its line matches |
| Minigrep.MatchingAtIndices | src/bin/ch12_building_a_cli_tool/lib.rs:51-55 | the result has one line per selected position, and each is the line at that position |
| Minigrep.MatchingMembers | src/bin/ch12_building_a_cli_tool/lib.rs:51-55 | a line is in the result exactly when it is one of the lines and matches |
| Minigrep.MatchingAppend | src/bin/ch12_building_a_cli_tool/lib.rs:51-55 | searching two runs of lines gives the two results one after the other |
| Minigrep.MatchingSingle | src/bin/ch12_building_a_cli_tool/lib.rs:53-54 | a single line is kept once if it matches, however often the query occurs in it, and dropped otherwise |
| Minigrep.EmptyQueryMatchesAll | src/bin/ch12_building_a_cli_tool/lib.rs:53 | with an empty query every line is returned |
| Minigrep.EmptyContentsMatchNothing | src/bin/ch12_building_a_cli_tool/lib.rs:51 | empty contents give no result |
| Minigrep.InsensitiveIncludesSensitive | src/bin/ch12_building_a_cli_tool/lib.rs:53-68 | with a per-character lowercase mapping, every case-sensitive match is a case-insensitive match |
| Minigrep.SearchScenario | src/bin/ch12_building_a_cli_tool/lib.rs:47-58 | "duct" in the three-line sample text selects only "safe, fast, productive." |
| Minigrep.SearchCaseInsensitiveScenario | src/bin/ch12_building_a_cli_tool/lib.rs:61-74 | "rUsT" ignoring case selects "Rust:" and "Trust me." |
| Minigrep.SearchCaseSensitiveScenario | src/bin/ch12_building_a_cli_tool/lib.rs:47-58 | "rUsT" with case selects nothing from the same text |
| Str.Contains | src/bin/ch12_building_a_cli_tool/lib.rs:53-68 | a match needs a pattern no longer than the text |
| Str.Lowercase | src/bin/ch12_building_a_cli_tool/lib.rs:62-68 | lowercasing a string keeps its length and maps each character on its own through the character mapping, which is a parameter of the model |
| Str.ContainsAt | src/bin/ch12_building_a_cli_tool/lib.rs:53 | `contains` holds exactly when the pattern occurs at some index |
| Str.ContainsLowercase | src/bin/ch12_building_a_cli_tool/lib.rs:68 | an occurrence survives lowercasing both texts character by character |
| Str.Lines | src/bin/ch12_building_a_cli_tool/lib.rs:51 | the text has no lines exactly when it is empty, and never more lines than characters |
| Str.LinesHaveNoNewline | src/bin/ch12_building_a_cli_tool/lib.rs:51 | no line holds a newline |
| Str.LinesCons | src/bin/ch12_building_a_cli_tool/lib.rs:51 | a line followed by a newline is the first line of the rest |
| Str.LinesOfUnlines | src/bin/ch12_building_a_cli_tool/lib.rs:51 | lines joined with newline terminators split back into the same lines |
| Str.UnlinesOfLines | src/bin/ch12_building_a_cli_tool/lib.rs:51 | rejoining the lines of a text without `\r` gives it back, with a final newline added when missing |
| Str.SplitWhitespace | src/main.rs:20 | every piece is a non-empty run without whitespace |
| Str.AllWhitespaceHasNoWords | src/main.rs:20 | text made only of whitespace has no words |
| Str.SplitWhitespaceAppend | src/main.rs:20 | splitting distributes over a concatenation at a whitespace boundary |
| Str.SplitTrailingWhitespace | src/main.rs:20 | one trailing whitespace character of any kind adds no word |
| Str.SplitTrailingWhitespaceRun | src/main.rs:20 | a trailing run of whitespace of any kind and length adds no word |
| Str.SplitUnwords | src/main.rs:20 | space-terminated words split back into those words |
| Str.UnwordsAppend | src/main.rs:20-27 | joining two word lists joins their texts |
| PigLatin.Stem | src/main.rs:22-25 | a translated word is 4 characters longer than the word when it starts with a vowel and 3 longer otherwise |
| PigLatin.StemKeepsLetters | src/main.rs:23-25 | no letter of the word is lost: the word's letters are a sub-multiset of its translation |
| PigLatin.PigLatinOf | src/main.rs:20-27 | the output is empty exactly when the text has no words, and otherwise ends with a space |
| PigLatin.TranslateWord | src/main.rs:22-26 | a word's output is 5 bytes longer than the word when it starts with a vowel and 4 bytes longer otherwise, and ends with a space |
| PigLatin.Convert | src/main.rs:9-27 | builds the vowel table, then appends each word's translation in order |
| PigLatin.PieceIsTranslation | src/main.rs:21-25 | looking the first letter up in the vowel table picks the "-hay" rule for a lowercase vowel and the moved-letter rule otherwise |
| PigLatin.VowelTableKeys | src/main.rs:13-18 | the five insertions give exactly the keys "a", "e", "i", "o", "u" |
| PigLatin.StemIsWord | src/main.rs:23-25 | a translated word contains no whitespace |
| PigLatin.OutputWords | src/main.rs:20-27 | the output has one word per input word, each the translation of the input word, in order |
| PigLatin.EmptyOutput | src/main.rs:20 | the output is empty exactly when the input has no words, in particular for all-whitespace input |
| PigLatin.TrailingWhitespaceIgnored | src/main.rs:20 | appending any run of whitespace characters (spaces, tabs, newlines, …) does not change the output |
| PigLatin.ConvertAppend | src/main.rs:20-27 | the output of two texts joined by a space is the two outputs concatenated |
| PigLatin.SingleWord | src/main.rs:20-27 | a text of one word becomes that word's translation |
| PigLatin.ConsonantExample | src/main.rs:2 | "first" becomes "irst-fay " |
| PigLatin.VowelExample | src/main.rs:3 | "apple" becomes "apple-hay " |
| PigLatin.UppercaseVowelExample | src/main.rs:14-22 | an uppercase vowel is treated as a consonant: "Apple" becomes "pple-Aay " |
| PigLatin.MainExample | src/main.rs:10-27 | "let us first run to the apple forge" becomes "et-lay us-hay irst-fay un-ray o-tay he-tay apple-hay orge-fay " |
| Ownership.FirstWordOf | src/bin/ch4_ownership.rs:76-87 | the first word is a prefix without spaces; when the text has a space it is followed by that space, otherwise it is the whole text |
| Ownership.FirstWord | src/bin/ch4_ownership.rs:76-87 | the enumerating loop with its early return yields the first word |
| Ownership.PrefixBeforeSpace | src/bin/ch4_ownership.rs:81-82 | returning the prefix at the first space index gives the first word |
| Ownership.FirstWordBeforeSpace | src/bin/ch4_ownership.rs:81-82 | the first word of a space-free word, a space and anything else is that word |
| Ownership.FirstWordExample | src/bin/ch4_ownership.rs:74-88 | the first word of "hello world" is "hello" |
| Ownership.OtherWhitespaceKept | src/bin/ch4_ownership.rs:81 | tabs and newlines do not end a word |
| Ownership.Utf8Length | src/bin/ch4_ownership.rs:30-32 | the byte length lies between the character count and four times it, and equals the character count exactly for ASCII text |
| Ownership.Utf8LengthAppend | src/bin/ch4_ownership.rs:38-40 | the byte length of a concatenation is the sum of the byte lengths |
| Ownership.CalculateLength | src/bin/ch4_ownership.rs:30-32 | reads the string through a shared borrow and returns its byte length |
| Ownership.OwnedString.PushStr | src/bin/ch4_ownership.rs:4 | appends in place and grows the length by the appended byte length |
| Ownership.ChangeString | src/bin/ch4_ownership.rs:38-40 | the string becomes its old value followed by " World" and grows by 6 bytes |
| Ownership.BorrowExamples | src/bin/ch4_ownership.rs:29-42 | "Hello!" has length 6 and becomes "Hello! World" |
| Ownership.PushStrExample | src/bin/ch4_ownership.rs:3-4 | "hello" becomes "hello, world!" |
| Collections.DevanagariLength | src/bin/ch8_common_collections.rs:143 | "नमस्ते" is 18 bytes long |
| Ownership.SliceForms | src/bin/ch4_ownership.rs:62-69 | slices with and without explicit bounds agree |
| Ownership.SliceExample | src/bin/ch4_ownership.rs:62-71 | "hello" gives "he", "llo" and "hello" |
| Iterators.NextItem | src/bin/ch13_functional_language_features/iterators.rs:56-65 | the item is present exactly when the old count is below 5, and it is the new count |
| Iterators.Counter.Next | src/bin/ch13_functional_language_features/iterators.rs:56-65 | every call increments the count by one, also after exhaustion, and yields the new count while it is below 6 |
| Iterators.ItemsAt | src/bin/ch13_functional_language_features/iterators.rs:56-65 | the `j`-th call sees the count advanced by `j` |
| Iterators.ExhaustedStaysExhausted | src/bin/ch13_functional_language_features/iterators.rs:57-64 | once a call returns `None`, every later call does too |
| Iterators.FreshCounterItems | src/bin/ch13_functional_language_features/iterators.rs:69-75 | a fresh counter yields 1 to 5 and then `None` |
| Iterators.CounterExample | src/bin/ch13_functional_language_features/iterators.rs:68-80 | driving fresh counters gives the asserted items and the sum 15 |
| Iterators.Counter.Sum | src/bin/ch13_functional_language_features/iterators.rs:78-79 | `sum` stops at the first `None` and adds the numbers above the start count up to 5 |
| Iterators.RemainingSumClosed | src/bin/ch13_functional_language_features/iterators.rs:78-80 | the counter's remaining sum in closed form |
| Iterators.FreshCounterSum | src/bin/ch13_functional_language_features/iterators.rs:80 | the sum over a fresh counter is 15 |
| Iterators.Range.Next | src/bin/ch13_functional_language_features/iterators.rs:24-28 | yields the start and advances it while it is below the end, and yields `None` without change after that |
| Iterators.RangeExample | src/bin/ch13_functional_language_features/iterators.rs:24-28 | `0..10` yields 0, 1, 2, 3 |
| Iterators.SumRange | src/bin/ch13_functional_language_features/iterators.rs:33 | draining a range adds up its numbers |
| Iterators.RangeSumClosed | src/bin/ch13_functional_language_features/iterators.rs:33-34 | twice the sum of `lo..hi` is `(hi - lo) * (lo + hi - 1)` |
| Iterators.SumExample | src/bin/ch13_functional_language_features/iterators.rs:33-34 | the sum of `0..10` is 45 |
| Iterators.EvensMembers | src/bin/ch13_functional_language_features/iterators.rs:42-43 | the filter keeps exactly the even numbers of the range |
| Iterators.EvensIncreasing | src/bin/ch13_functional_language_features/iterators.rs:42-43 | the kept numbers stay in increasing order |
| Iterators.EvensClosed | src/bin/ch13_functional_language_features/iterators.rs:42-45 | from an even start the `k`-th kept number is `lo + 2k`, and there are `(hi - lo + 1) / 2` of them |
| Iterators.CollectEvens | src/bin/ch13_functional_language_features/iterators.rs:42-43 | the collecting loop gathers the even numbers of the range |
| Iterators.EvensExample | src/bin/ch13_functional_language_features/iterators.rs:42-45 | filtering `0..20` gives 0, 2, ..., 18 |
| Collections.Vec.Push | src/bin/ch8_common_collections.rs:16-17 | appends at the end |
| Collections.Vec.Pop | src/bin/ch8_common_collections.rs:21 | removes and returns exactly the last element, or `None` on an empty vector |
| Collections.Vec.Get | src/bin/ch8_common_collections.rs:31-40 | `Some(v[i])` exactly when `i` is in bounds, `None` otherwise |
| Collections.ShiftedInverse | src/bin/ch8_common_collections.rs:58-61 | shifting back undoes a shift |
| Collections.ShiftedKeepsOrder | src/bin/ch8_common_collections.rs:58-61 | shifting keeps the order between elements |
| Collections.Vec.AddToEach | src/bin/ch8_common_collections.rs:58-61 | the in-place loop adds the amount to every element |
| Collections.VectorExample | src/bin/ch8_common_collections.rs:13-40 | `[0, 1, 2, 3]` with two pushes and a pop is `[0, 1, 2, 3, 4]`; index 2 holds 2; index 100 is `None` |
| Collections.AddFiftyExample | src/bin/ch8_common_collections.rs:52-61 | `[30, 15, 60]` becomes `[80, 65, 110]` |
| Collections.HashMap.Get | src/bin/ch8_common_collections.rs:172 | the bound value exactly when the key is present |
| Collections.HashMap.Insert | src/bin/ch8_common_collections.rs:181 | binds the key, overwriting, and returns the previous value |
| Collections.InsertKeepsOthers | src/bin/ch8_common_collections.rs:181 | `insert` leaves every other key and its value unchanged |
| Collections.HashMap.EntryOrInsert | src/bin/ch8_common_collections.rs:184-185 | inserts only when the key is absent and returns the value now bound |
| Collections.ScoresExample | src/bin/ch8_common_collections.rs:168-185 | Blue reads 10, is overwritten to 25, and Yellow stays 50 after the second `or_insert` |
| Collections.FromPairs | src/bin/ch8_common_collections.rs:156-157 | the keys of the collected map are the keys of the pairs |
| Collections.FromPairsLastWins | src/bin/ch8_common_collections.rs:156-157 | a key is bound to the value of its last pair |
| Collections.TeamsExample | src/bin/ch8_common_collections.rs:156-158 | the teams give Blue 10 and Yellow 50 |
| Collections.CountWords | src/bin/ch8_common_collections.rs:191-194 | the keys are exactly the words |
| Collections.CountWordsOccurrences | src/bin/ch8_common_collections.rs:191-194 | each word's count is its number of occurrences |
| Collections.WordCount | src/bin/ch8_common_collections.rs:188-194 | the counting loop with `entry().or_insert(0)` and the increment builds those counts |
| Collections.WordCountExample | src/bin/ch8_common_collections.rs:188-194 | in "hello world wonderful world", "world" counts 2 and every other word 1 |

## Left out

- The I/O of the line search: `fs::read_to_string` (its outcome is an input to `Run`), printing the results, and `main.rs` of chapter 12 (reading `env::args`, printing errors, `process::exit`).
- `Str.Lowercase`: Unicode `to_lowercase` is modelled as a per-character function, so context-dependent rules (the final sigma) and characters whose lowercase is several characters are not modelled. `Minigrep.InsensitiveIncludesSensitive` holds only under that assumption.
- `PigLatin.Convert` requires ASCII text: `split_at(1)` panics on a word whose first character is longer than one byte, and the program assumes alphanumeric input.
- Printing (`println!`) in every modelled function, including the byte dump in `first_word` and the map dump after the word count.
- The ownership demonstrations that only the compiler checks (moves, `clone`, borrow scopes, the commented-out dangling reference, `takeLiteral`, the integer array slice), and `Ownership.FirstWord` takes the bytes rather than encoding a string to UTF-8.
- `Iterators.Counter.Next`: the `u32` field is a natural number, and a call at `u32::MAX` (an overflow panic in a debug build) is excluded by its precondition instead of modelled.
- `Iterators.SumRange`: the `i32` sum is unbounded here; an overflow is not modelled.
- The `map(|x| x + 1)` collect and the printing loops over the list in the iterator chapter: nothing is asserted about them.
- `Collections.Vec.AddToEach`: an addition that overflows `i32`, which panics in a debug build, is excluded by its precondition instead of modelled.
- `Collections.WordCount`: counts and scores are unbounded integers; `i32` overflow is not modelled. `*count += 1` writes through the reference returned by `or_insert`; the model writes the incremented value back with a second `insert` under the same key.
- The rest of the collections chapter: the `strings` function (only the 18-byte length of "नमस्ते" is modelled), the `Id` enum list, the `HashMap<i32, String>` move example, the borrow-checker push of 6 and map iteration order.
- The other chapters (3, 5, 6, 7, 9, 10, 11 and the closures of 13): they demonstrate syntax, types or I/O and make no statable promise.
