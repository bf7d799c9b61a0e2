/**
 * The grep-like line search utility of chapter 12: argument validation into a
 * `Config`, the case-sensitive and case-insensitive line searches, and the
 * choice between them in `run`.
 */
module Minigrep {
  import opened Wrappers
  import opened Str

  // ---------------------------------------------------------------------
  // Configuration
  // ---------------------------------------------------------------------

  /** What `env::var("CASE_INSENSITIVE")` finds in the process environment. */
  datatype EnvVar = Present(value: string) | NotPresent | NotUnicode

  /** The user's arguments for the search. */
  datatype Config = Config(query: string, filename: string, caseSensitive: bool)

  const NotEnoughArguments: string := "not enough arguments"

  /**
   * `Config::new`: index 0 of `args` is the program name, then the query and
   * the file name. `caseInsensitive` is the outcome of looking up the
   * `CASE_INSENSITIVE` variable; only whether the lookup succeeds matters.
   */
  function NewConfig(args: seq<string>, caseInsensitive: EnvVar): (r: Result<Config, string>)
    ensures r.Failure? <==> |args| < 3
    ensures r.Failure? ==> r.error == NotEnoughArguments
    ensures r.Success? ==> r.value.query == args[1] && r.value.filename == args[2]
    ensures r.Success? ==> (r.value.caseSensitive <==> !caseInsensitive.Present?)
  {
    if |args| < 3 then Failure(NotEnoughArguments)
    else Success(Config(args[1], args[2], !caseInsensitive.Present?))
  }

  /** Arguments after the file name are ignored. */
  lemma ConfigIgnoresExtraArguments(args: seq<string>, extra: seq<string>, caseInsensitive: EnvVar)
    requires |args| >= 3
    ensures NewConfig(args + extra, caseInsensitive) == NewConfig(args, caseInsensitive)
  {
  }

  /**
   * The value of `CASE_INSENSITIVE` is never inspected: any value, even the
   * empty string, selects case-insensitive search, and a variable that is set
   * but not valid Unicode selects case-sensitive search as if it were absent.
   */
  lemma CaseFlagIgnoresValue(args: seq<string>, v: string, w: string)
    requires |args| >= 3
    ensures NewConfig(args, Present(v)) == NewConfig(args, Present(w))
    ensures !NewConfig(args, Present(v)).value.caseSensitive
    ensures NewConfig(args, NotUnicode) == NewConfig(args, NotPresent)
    ensures NewConfig(args, NotPresent).value.caseSensitive
  {
  }

  // ---------------------------------------------------------------------
  // Line matching
  // ---------------------------------------------------------------------

  /** The two search variants; `lower` is the per-character lowercase mapping. */
  datatype CaseMode = Sensitive | Insensitive(lower: char -> char)

  /**
   * Whether `line` is a match: it contains the query, or, ignoring case, its
   * lowercase copy contains the query's lowercase copy.
   */
  predicate LineMatches(mode: CaseMode, query: string, line: string) {
    match mode
    case Sensitive => Contains(line, query)
    case Insensitive(lower) => Contains(Lowercase(lower, line), Lowercase(lower, query))
  }

  /** The matching lines, in the order in which they appear. */
  function Matching(mode: CaseMode, query: string, lines: seq<string>): (r: seq<string>)
    ensures |r| <= |lines|
    ensures forall i :: 0 <= i < |r| ==> LineMatches(mode, query, r[i])
  {
    if lines == [] then []
    else
      var init, last := lines[..|lines| - 1], lines[|lines| - 1];
      Matching(mode, query, init) + if LineMatches(mode, query, last) then [last] else []
  }

  /** The positions of the matching lines, in increasing order. */
  function MatchIndices(mode: CaseMode, query: string, lines: seq<string>): seq<nat> {
    if lines == [] then []
    else
      var n := |lines| - 1;
      MatchIndices(mode, query, lines[..n]) + if LineMatches(mode, query, lines[n]) then [n] else []
  }

  /**
   * The result is exactly the subsequence of `lines` at the matching
   * positions: each result element is the line at its position, the positions
   * strictly increase (original order, no line twice), and a position is
   * selected if and only if its line matches.
   */
  lemma MatchingSelectsMatches(mode: CaseMode, query: string, lines: seq<string>)
    ensures var r, idx := Matching(mode, query, lines), MatchIndices(mode, query, lines);
      && |r| == |idx|
      && (forall j :: 0 <= j < |idx| ==> idx[j] < |lines| && r[j] == lines[idx[j]])
      && (forall j, k :: 0 <= j < k < |idx| ==> idx[j] < idx[k])
      && (forall i :: 0 <= i < |lines| ==> (i in idx <==> LineMatches(mode, query, lines[i])))
  {
    MatchIndicesIncrease(mode, query, lines);
    MatchIndicesSelect(mode, query, lines);
    MatchingAtIndices(mode, query, lines);
  }

  /** The positions are valid indices of `lines`, in strictly increasing order. */
  lemma {:induction false} MatchIndicesIncrease(mode: CaseMode, query: string, lines: seq<string>)
    ensures forall j :: 0 <= j < |MatchIndices(mode, query, lines)| ==>
      MatchIndices(mode, query, lines)[j] < |lines|
    ensures forall j, k :: 0 <= j < k < |MatchIndices(mode, query, lines)| ==>
      MatchIndices(mode, query, lines)[j] < MatchIndices(mode, query, lines)[k]
  {
    if lines != [] {
      var n := |lines| - 1;
      var init := lines[..n];
      MatchIndicesIncrease(mode, query, init);
      var idx0 := MatchIndices(mode, query, init);
      if LineMatches(mode, query, lines[n]) {
        assert MatchIndices(mode, query, lines) == idx0 + [n];
      } else {
        assert MatchIndices(mode, query, lines) == idx0;
      }
    }
  }

  /** A position is among the positions if and only if its line matches. */
  lemma {:induction false} MatchIndicesSelect(mode: CaseMode, query: string, lines: seq<string>)
    ensures forall i :: 0 <= i < |lines| ==>
      (i in MatchIndices(mode, query, lines) <==> LineMatches(mode, query, lines[i]))
  {
    if lines != [] {
      var n := |lines| - 1;
      var init := lines[..n];
      MatchIndicesIncrease(mode, query, init);
      MatchIndicesSelect(mode, query, init);
      assert forall i :: 0 <= i < n ==> init[i] == lines[i];
      var idx0 := MatchIndices(mode, query, init);
      assert n !in idx0;
      if LineMatches(mode, query, lines[n]) {
        assert MatchIndices(mode, query, lines) == idx0 + [n];
      } else {
        assert MatchIndices(mode, query, lines) == idx0;
      }
    }
  }

  /** The result holds, in order, the lines at the positions. */
  lemma {:induction false} MatchingAtIndices(mode: CaseMode, query: string, lines: seq<string>)
    ensures var r, idx := Matching(mode, query, lines), MatchIndices(mode, query, lines);
      && |r| == |idx|
      && (forall j :: 0 <= j < |idx| ==> idx[j] < |lines| && r[j] == lines[idx[j]])
  {
    if lines != [] {
      var n := |lines| - 1;
      var init := lines[..n];
      MatchIndicesIncrease(mode, query, init);
      MatchingAtIndices(mode, query, init);
      assert forall i :: 0 <= i < n ==> init[i] == lines[i];
    }
  }

  /** A line is in the result if and only if it is one of the lines and it matches. */
  lemma MatchingMembers(mode: CaseMode, query: string, lines: seq<string>, line: string)
    ensures line in Matching(mode, query, lines) <==> line in lines && LineMatches(mode, query, line)
  {
    MatchingSelectsMatches(mode, query, lines);
    var r, idx := Matching(mode, query, lines), MatchIndices(mode, query, lines);
    if line in r {
      var j :| 0 <= j < |r| && r[j] == line;
      assert lines[idx[j]] == line;
    }
    if line in lines && LineMatches(mode, query, line) {
      var i :| 0 <= i < |lines| && lines[i] == line;
      assert i in idx;
      var j :| 0 <= j < |idx| && idx[j] == i;
      assert r[j] == line;
    }
  }

  /** The empty query matches every line, in both modes. */
  lemma {:induction false} EmptyQueryMatchesAll(mode: CaseMode, lines: seq<string>)
    ensures Matching(mode, [], lines) == lines
  {
    if lines != [] {
      var n := |lines| - 1;
      EmptyQueryMatchesAll(mode, lines[..n]);
      ContainsEmpty(lines[n]);
      if mode.Insensitive? {
        assert Lowercase(mode.lower, []) == [];
        ContainsEmpty(Lowercase(mode.lower, lines[n]));
      }
      assert lines[..n] + [lines[n]] == lines;
    }
  }

  /** Matching distributes over concatenation of the lines. */
  lemma {:induction false} MatchingAppend(mode: CaseMode, query: string, a: seq<string>, b: seq<string>)
    ensures Matching(mode, query, a + b) == Matching(mode, query, a) + Matching(mode, query, b)
    decreases |b|
  {
    if b == [] {
      assert a + b == a;
    } else {
      var n := |b| - 1;
      assert (a + b)[..|a + b| - 1] == a + b[..n];
      MatchingAppend(mode, query, a, b[..n]);
    }
  }

  /** One line is kept exactly when it matches. */
  lemma MatchingSingle(mode: CaseMode, query: string, line: string)
    ensures Matching(mode, query, [line]) == if LineMatches(mode, query, line) then [line] else []
  {
    assert [line][..0] == [];
  }

  /** Empty contents have no lines, so nothing matches. */
  lemma EmptyContentsMatchNothing(mode: CaseMode, query: string)
    ensures Matching(mode, query, Lines("")) == []
  {
  }

  /**
   * Every line the case-sensitive search selects is also selected ignoring
   * case, at the same position (for a per-character lowercase mapping).
   */
  lemma InsensitiveIncludesSensitive(lower: char -> char, query: string, lines: seq<string>)
    ensures forall i :: i in MatchIndices(Sensitive, query, lines) ==> i in MatchIndices(Insensitive(lower), query, lines)
    ensures forall l :: l in Matching(Sensitive, query, lines) ==> l in Matching(Insensitive(lower), query, lines)
  {
    MatchingSelectsMatches(Sensitive, query, lines);
    MatchingSelectsMatches(Insensitive(lower), query, lines);
    forall i | i in MatchIndices(Sensitive, query, lines)
      ensures i in MatchIndices(Insensitive(lower), query, lines)
    {
      ContainsLowercase(lower, lines[i], query);
    }
    forall l | l in Matching(Sensitive, query, lines)
      ensures l in Matching(Insensitive(lower), query, lines)
    {
      MatchingMembers(Sensitive, query, lines, l);
      ContainsLowercase(lower, l, query);
      MatchingMembers(Insensitive(lower), query, lines, l);
    }
  }

  /** `search`: the lines of `contents` that contain `query`. */
  method Search(query: string, contents: string) returns (results: seq<string>)
    ensures results == Matching(Sensitive, query, Lines(contents))
  {
    results := [];
    var lines := Lines(contents);
    for i := 0 to |lines|
      invariant results == Matching(Sensitive, query, lines[..i])
    {
      var line := lines[i];
      assert lines[..i + 1][..i] == lines[..i];
      if Contains(line, query) {
        results := results + [line];
      }
    }
    assert lines[..|lines|] == lines;
  }

  /**
   * `search_case_insensitive`: the original lines of `contents` whose
   * lowercase copy contains the lowercase copy of `query`.
   */
  method SearchCaseInsensitive(lower: char -> char, query: string, contents: string) returns (results: seq<string>)
    ensures results == Matching(Insensitive(lower), query, Lines(contents))
  {
    var q := Lowercase(lower, query);
    results := [];
    var lines := Lines(contents);
    for i := 0 to |lines|
      invariant results == Matching(Insensitive(lower), query, lines[..i])
    {
      var line := lines[i];
      assert lines[..i + 1][..i] == lines[..i];
      if Contains(Lowercase(lower, line), q) {
        results := results + [line];
      }
    }
    assert lines[..|lines|] == lines;
  }

  /**
   * `run` without its output: `file` is the outcome of reading the file named
   * in the configuration; a read error is passed on, otherwise the result is
   * the lines that would be printed.
   */
  method Run(config: Config, file: Result<string, string>, lower: char -> char)
    returns (r: Result<seq<string>, string>)
    ensures file.Failure? ==> r == Failure(file.error)
    ensures file.Success? && config.caseSensitive ==>
      r == Success(Matching(Sensitive, config.query, Lines(file.value)))
    ensures file.Success? && !config.caseSensitive ==>
      r == Success(Matching(Insensitive(lower), config.query, Lines(file.value)))
  {
    if file.Failure? {
      return Failure(file.error);
    }
    var contents := file.value;
    var results;
    if config.caseSensitive {
      results := Search(config.query, contents);
    } else {
      results := SearchCaseInsensitive(lower, config.query, contents);
    }
    return Success(results);
  }

  // ---------------------------------------------------------------------
  // The documented scenarios
  // ---------------------------------------------------------------------

  /** The lines of a sample text of three lines. */
  lemma SampleLines(l1: string, l2: string, l3: string)
    requires '\n' !in l1 && '\n' !in l2 && '\n' !in l3 && l3 != []
    requires l1 == [] || l1[|l1| - 1] != '\r'
    requires l2 == [] || l2[|l2| - 1] != '\r'
    ensures Lines(l1 + "\n" + (l2 + "\n" + l3)) == [l1, l2, l3]
  {
    LinesSingle(l3);
    LinesCons(l2, l3);
    LinesCons(l1, l2 + "\n" + l3);
    assert [l1] + ([l2] + [l3]) == [l1, l2, l3];
  }

  /** The matches among three lines, one line at a time. */
  lemma MatchingOfThree(mode: CaseMode, query: string, l1: string, l2: string, l3: string)
    ensures Matching(mode, query, [l1, l2, l3])
      == Matching(mode, query, [l1]) + Matching(mode, query, [l2]) + Matching(mode, query, [l3])
  {
    MatchingAppend(mode, query, [l1, l2], [l3]);
    MatchingAppend(mode, query, [l1], [l2]);
    assert [l1, l2] + [l3] == [l1, l2, l3];
    assert [l1] + [l2] == [l1, l2];
  }

  /** Which of the three sample lines contain "duct". */
  lemma DuctMatches(l1: string, l2: string, l3: string)
    requires l1 == "Rust:" && l2 == "safe, fast, productive." && l3 == "Pick three."
    ensures Matching(Sensitive, "duct", [l1, l2, l3]) == [l2]
  {
    assert Matching(Sensitive, "duct", [l1]) == [] by {
      NotContainsFirst(l1, "duct");
      MatchingSingle(Sensitive, "duct", l1);
    }
    assert Matching(Sensitive, "duct", [l2]) == [l2] by {
      assert OccursAt(l2, "duct", 15);
      ContainsAt(l2, "duct");
      MatchingSingle(Sensitive, "duct", l2);
    }
    assert Matching(Sensitive, "duct", [l3]) == [] by {
      NotContainsFirst(l3, "duct");
      MatchingSingle(Sensitive, "duct", l3);
    }
    MatchingOfThree(Sensitive, "duct", l1, l2, l3);
  }

  /** A case-sensitive search for "duct" finds one line. */
  lemma SearchScenario()
    ensures Matching(Sensitive, "duct", Lines("Rust:" + "\n" + ("safe, fast, productive." + "\n" + "Pick three.")))
      == ["safe, fast, productive."]
  {
    SampleLines("Rust:", "safe, fast, productive.", "Pick three.");
    DuctMatches("Rust:", "safe, fast, productive.", "Pick three.");
  }

  /** The matches among four lines, one line at a time. */
  lemma MatchingOfFour(mode: CaseMode, query: string, l1: string, l2: string, l3: string, l4: string)
    ensures Matching(mode, query, [l1, l2, l3, l4]) == Matching(mode, query, [l1])
      + Matching(mode, query, [l2]) + Matching(mode, query, [l3]) + Matching(mode, query, [l4])
  {
    MatchingOfThree(mode, query, l1, l2, l3);
    MatchingAppend(mode, query, [l1, l2, l3], [l4]);
    assert [l1, l2, l3] + [l4] == [l1, l2, l3, l4];
  }

  /** "Rust:" matches "rUsT" ignoring case. */
  lemma RustLineMatches()
    ensures Matching(Insensitive(AsciiLower), "rUsT", ["Rust:"]) == ["Rust:"]
  {
    assert Lowercase(AsciiLower, "rUsT") == "rust";
    assert Lowercase(AsciiLower, "Rust:") == "rust:";
    assert OccursAt("rust:", "rust", 0);
    ContainsAt("rust:", "rust");
    MatchingSingle(Insensitive(AsciiLower), "rUsT", "Rust:");
  }

  /** "rust" does not occur in "safe, fast, productive.": its only `r` starts "rodu". */
  lemma NoRustInSafeLine(s: string)
    requires s == "safe, fast, productive."
    ensures !Contains(s, "rust")
  {
    ContainsSkipsPrefix(s, 13, "rust");
    NotContainsChar(s[13..], "rust", 2);
  }

  /** "safe, fast, productive." does not match "rUsT" ignoring case. */
  lemma SafeLineDoesNotMatch()
    ensures Matching(Insensitive(AsciiLower), "rUsT", ["safe, fast, productive."]) == []
  {
    assert Lowercase(AsciiLower, "rUsT") == "rust";
    assert Lowercase(AsciiLower, "safe, fast, productive.") == "safe, fast, productive.";
    NoRustInSafeLine("safe, fast, productive.");
    MatchingSingle(Insensitive(AsciiLower), "rUsT", "safe, fast, productive.");
  }

  /** "Pick three." does not match "rUsT" ignoring case. */
  lemma PickLineDoesNotMatch()
    ensures Matching(Insensitive(AsciiLower), "rUsT", ["Pick three."]) == []
  {
    assert Lowercase(AsciiLower, "rUsT") == "rust";
    assert Lowercase(AsciiLower, "Pick three.") == "pick three.";
    NotContainsChar("pick three.", "rust", 1);
    MatchingSingle(Insensitive(AsciiLower), "rUsT", "Pick three.");
  }

  /** "Trust me." matches "rUsT" ignoring case. */
  lemma TrustLineMatches()
    ensures Matching(Insensitive(AsciiLower), "rUsT", ["Trust me."]) == ["Trust me."]
  {
    assert Lowercase(AsciiLower, "rUsT") == "rust";
    assert Lowercase(AsciiLower, "Trust me.") == "trust me.";
    assert OccursAt("trust me.", "rust", 1);
    ContainsAt("trust me.", "rust");
    MatchingSingle(Insensitive(AsciiLower), "rUsT", "Trust me.");
  }

  /** The lines of a sample text of four lines. */
  lemma SampleLinesOfFour(l1: string, l2: string, l3: string, l4: string)
    requires '\n' !in l1 && '\n' !in l2 && '\n' !in l3 && '\n' !in l4 && l4 != []
    requires l1 == [] || l1[|l1| - 1] != '\r'
    requires l2 == [] || l2[|l2| - 1] != '\r'
    requires l3 == [] || l3[|l3| - 1] != '\r'
    ensures Lines(l1 + "\n" + (l2 + "\n" + (l3 + "\n" + l4))) == [l1, l2, l3, l4]
  {
    SampleLines(l2, l3, l4);
    LinesCons(l1, l2 + "\n" + (l3 + "\n" + l4));
  }

  /** A search over a text of four lines, from what it finds on each line. */
  lemma SearchFourLines(mode: CaseMode, query: string, l1: string, l2: string, l3: string, l4: string,
                        r1: seq<string>, r2: seq<string>, r3: seq<string>, r4: seq<string>)
    requires '\n' !in l1 && '\n' !in l2 && '\n' !in l3 && '\n' !in l4 && l4 != []
    requires l1 == [] || l1[|l1| - 1] != '\r'
    requires l2 == [] || l2[|l2| - 1] != '\r'
    requires l3 == [] || l3[|l3| - 1] != '\r'
    requires Matching(mode, query, [l1]) == r1 && Matching(mode, query, [l2]) == r2
    requires Matching(mode, query, [l3]) == r3 && Matching(mode, query, [l4]) == r4
    ensures Matching(mode, query, Lines(l1 + "\n" + (l2 + "\n" + (l3 + "\n" + l4)))) == r1 + r2 + r3 + r4
  {
    SampleLinesOfFour(l1, l2, l3, l4);
    MatchingOfFour(mode, query, l1, l2, l3, l4);
  }

  /** "rUsT" matches "Rust:" and "Trust me." ignoring case (ASCII lowercase). */
  lemma SearchCaseInsensitiveScenario()
    ensures Matching(Insensitive(AsciiLower), "rUsT",
        Lines("Rust:" + "\n" + ("safe, fast, productive." + "\n" + ("Pick three." + "\n" + "Trust me."))))
      == ["Rust:", "Trust me."]
  {
    RustLineMatches();
    SafeLineDoesNotMatch();
    PickLineDoesNotMatch();
    TrustLineMatches();
    SearchFourLines(Insensitive(AsciiLower), "rUsT", "Rust:", "safe, fast, productive.", "Pick three.", "Trust me.",
      ["Rust:"], [], [], ["Trust me."]);
  }

  /** A case-sensitive search for "rUsT" finds nothing in four lines without a `U`. */
  lemma NoUppercaseUInFourLines(l1: string, l2: string, l3: string, l4: string)
    requires 'U' !in l1 && 'U' !in l2 && 'U' !in l3 && 'U' !in l4
    requires '\n' !in l1 && '\n' !in l2 && '\n' !in l3 && '\n' !in l4 && l4 != []
    requires l1 == [] || l1[|l1| - 1] != '\r'
    requires l2 == [] || l2[|l2| - 1] != '\r'
    requires l3 == [] || l3[|l3| - 1] != '\r'
    ensures Matching(Sensitive, "rUsT", Lines(l1 + "\n" + (l2 + "\n" + (l3 + "\n" + l4)))) == []
  {
    forall l | l in [l1, l2, l3, l4] ensures Matching(Sensitive, "rUsT", [l]) == [] {
      NotContainsChar(l, "rUsT", 1);
      MatchingSingle(Sensitive, "rUsT", l);
    }
    SearchFourLines(Sensitive, "rUsT", l1, l2, l3, l4, [], [], [], []);
  }

  /** The same search finds nothing when case matters. */
  lemma SearchCaseSensitiveScenario()
    ensures Matching(Sensitive, "rUsT",
        Lines("Rust:" + "\n" + ("safe, fast, productive." + "\n" + ("Pick three." + "\n" + "Trust me."))))
      == []
  {
    NoUppercaseUInFourLines("Rust:", "safe, fast, productive.", "Pick three.", "Trust me.");
  }
}
