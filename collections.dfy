/**
 * The collections chapter: a growable vector of `i32` with push, pop, get
 * and an in-place add-to-every-element loop, and a hash map with `insert`,
 * `get`, `entry().or_insert()`, collection from pairs and the word-count loop
 * built from them.
 */
module Collections {
  import opened Wrappers
  import opened Str
  import Ownership

  const I32Min: int := -0x8000_0000
  const I32Max: int := 0x7FFF_FFFF

  // ---------------------------------------------------------------------
  // Vec<i32>
  // ---------------------------------------------------------------------

  /** Every element shifted by `delta`. */
  function Shifted(xs: seq<int>, delta: int): (r: seq<int>)
    ensures |r| == |xs|
    ensures forall i :: 0 <= i < |xs| ==> r[i] == xs[i] + delta
  {
    seq(|xs|, i requires 0 <= i < |xs| => xs[i] + delta)
  }

  /** Shifting back undoes a shift. */
  lemma ShiftedInverse(xs: seq<int>, delta: int)
    ensures Shifted(Shifted(xs, delta), -delta) == xs
  {
  }

  /** Shifting keeps the order of the elements. */
  lemma ShiftedKeepsOrder(xs: seq<int>, delta: int, i: nat, j: nat)
    requires i < |xs| && j < |xs|
    ensures xs[i] <= xs[j] <==> Shifted(xs, delta)[i] <= Shifted(xs, delta)[j]
  {
  }

  /** `Vec<i32>`: a growable sequence of integers, changed in place. */
  class Vec {
    var elems: seq<int>

    /** `vec![...]`. */
    constructor(init: seq<int>)
      ensures elems == init
    {
      elems := init;
    }

    /** `push`: appends at the end. */
    method Push(x: int)
      modifies this
      ensures elems == old(elems) + [x]
    {
      elems := elems + [x];
    }

    /** `pop`: removes and returns the last element, or `None` on an empty vector. */
    method Pop() returns (last: Option<int>)
      modifies this
      ensures old(elems) == [] ==> last == None && elems == []
      ensures old(elems) != [] ==>
        last == Some(old(elems)[|old(elems)| - 1]) && elems == old(elems)[..|old(elems)| - 1]
      ensures last.Some? ==> elems + [last.value] == old(elems)
    {
      if elems == [] {
        last := None;
      } else {
        last := Some(elems[|elems| - 1]);
        elems := elems[..|elems| - 1];
      }
    }

    /** `get`: the element at `i`, or `None` when `i` is out of bounds. */
    function Get(i: nat): (r: Option<int>)
      reads this
      ensures r.Some? <==> i < |elems|
      ensures r.Some? ==> r.value == elems[i]
    {
      if i < |elems| then Some(elems[i]) else None
    }

    /**
     * `for i in &mut v { *i += delta; }`: adds `delta` to every element in
     * place. An `i32` overflow would panic, so every result must fit.
     */
    method AddToEach(delta: int)
      requires forall i :: 0 <= i < |elems| ==> I32Min <= elems[i] + delta <= I32Max
      modifies this
      ensures elems == Shifted(old(elems), delta)
    {
      ghost var original := elems;
      for i := 0 to |elems|
        invariant |elems| == |original|
        invariant elems[..i] == Shifted(original[..i], delta)
        invariant elems[i..] == original[i..]
      {
        elems := elems[i := elems[i] + delta];
      }
    }
  }

  /**
   * The first part of `vectors`: `[0, 1, 2, 3]` with 4 and 5 pushed and one
   * pop, then the element at index 2 and the element at index 100.
   */
  method VectorExample() returns (elems: seq<int>, popped: Option<int>, third: Option<int>, missing: Option<int>)
    ensures elems == [0, 1, 2, 3, 4]
    ensures popped == Some(5)
    ensures third == Some(2)
    ensures missing == None
  {
    var v := new Vec([0, 1, 2, 3]);
    v.Push(4);
    v.Push(5);
    popped := v.Pop();
    third := v.Get(2);
    missing := v.Get(100);
    elems := v.elems;
  }

  /** The `&mut` loop of `vectors`: `[30, 15, 60]` becomes `[80, 65, 110]`. */
  method AddFiftyExample() returns (elems: seq<int>)
    ensures elems == [80, 65, 110]
  {
    var v := new Vec([30, 15, 60]);
    v.AddToEach(50);
    elems := v.elems;
  }

  // ---------------------------------------------------------------------
  // HashMap
  // ---------------------------------------------------------------------

  /** `HashMap<K, V>`: a finite map updated in place. */
  class HashMap<K(==), V> {
    var entries: map<K, V>

    /** `HashMap::new()`. */
    constructor()
      ensures entries == map[]
    {
      entries := map[];
    }

    /** `get`: the value bound to `k`, if any. */
    function Get(k: K): (r: Option<V>)
      reads this
      ensures r.Some? <==> k in entries
      ensures r.Some? ==> r.value == entries[k]
    {
      if k in entries then Some(entries[k]) else None
    }

    /** `insert`: binds `k` to `v`, overwriting, and returns the old value. */
    method Insert(k: K, v: V) returns (previous: Option<V>)
      modifies this
      ensures entries == old(entries)[k := v]
      ensures previous == old(Get(k))
    {
      previous := Get(k);
      entries := entries[k := v];
    }

    /**
     * `entry(k).or_insert(v)`: binds `k` to `v` only when `k` is absent, and
     * returns the value now bound to `k`.
     */
    method EntryOrInsert(k: K, v: V) returns (current: V)
      modifies this
      ensures entries == if k in old(entries) then old(entries) else old(entries)[k := v]
      ensures k in entries && current == entries[k]
    {
      if k !in entries {
        entries := entries[k := v];
      }
      current := entries[k];
    }
  }

  /** `insert` changes the value of its own key only. */
  lemma InsertKeepsOthers<K, V>(m: map<K, V>, k: K, v: V, other: K)
    requires other != k
    ensures other in m[k := v] <==> other in m
    ensures other in m ==> m[k := v][other] == m[other]
  {
  }

  /** The score examples of `maps`. */
  method ScoresExample() returns (blue: Option<int>, overwritten: Option<int>, yellow: int, again: int, scores: map<string, int>)
    ensures blue == Some(10)
    ensures overwritten == Some(10)
    ensures yellow == 50 && again == 50
    ensures scores == map["Blue" := 25, "Red" := 10, "Yellow" := 50]
  {
    var m := new HashMap<string, int>();
    var _ := m.Insert("Blue", 10);
    var _ := m.Insert("Red", 10);
    blue := m.Get("Blue");
    overwritten := m.Insert("Blue", 25);
    yellow := m.EntryOrInsert("Yellow", 50);
    again := m.EntryOrInsert("Yellow", 55);
    scores := m.entries;
  }

  // ---------------------------------------------------------------------
  // Collecting pairs
  // ---------------------------------------------------------------------

  /** `pairs.into_iter().collect()` into a map: inserted in order, so the last binding wins. */
  function FromPairs<K, V>(pairs: seq<(K, V)>): (m: map<K, V>)
    ensures m.Keys == set i | 0 <= i < |pairs| :: pairs[i].0
  {
    if pairs == [] then map[]
    else
      var last := pairs[|pairs| - 1];
      FromPairs(pairs[..|pairs| - 1])[last.0 := last.1]
  }

  /** A key is bound to the value of its last pair. */
  lemma {:induction false} FromPairsLastWins<K, V>(pairs: seq<(K, V)>, i: nat)
    requires i < |pairs|
    requires forall j :: i < j < |pairs| ==> pairs[j].0 != pairs[i].0
    ensures FromPairs(pairs)[pairs[i].0] == pairs[i].1
  {
    if i < |pairs| - 1 {
      FromPairsLastWins(pairs[..|pairs| - 1], i);
    }
  }

  /** The teams of `maps` give Blue 10 and Yellow 50. */
  lemma TeamsExample()
    ensures FromPairs([("Blue", 10), ("Yellow", 50)]) == map["Blue" := 10, "Yellow" := 50]
  {
  }

  // ---------------------------------------------------------------------
  // Word count
  // ---------------------------------------------------------------------

  /** How many times each word occurs, built one word at a time. */
  function CountWords(words: seq<string>): (counts: map<string, nat>)
    ensures counts.Keys == set i | 0 <= i < |words| :: words[i]
  {
    if words == [] then map[]
    else
      var counts := CountWords(words[..|words| - 1]);
      var w := words[|words| - 1];
      counts[w := if w in counts then counts[w] + 1 else 1]
  }

  /** The count of a word is its number of occurrences. */
  lemma {:induction false} CountWordsOccurrences(words: seq<string>, w: string)
    requires w in CountWords(words)
    ensures CountWords(words)[w] == multiset(words)[w]
  {
    var init := words[..|words| - 1];
    assert words == init + [words[|words| - 1]];
    if w in CountWords(init) {
      CountWordsOccurrences(init, w);
    } else {
      assert w !in init;
    }
  }

  /**
   * The word-count loop of `maps`: `entry(word).or_insert(0)` followed by
   * `*count += 1`, which writes the incremented value back under the word.
   */
  method WordCount(text: string) returns (counts: map<string, nat>)
    ensures counts == CountWords(SplitWhitespace(text))
  {
    var m := new HashMap<string, nat>();
    var words := SplitWhitespace(text);
    for i := 0 to |words|
      invariant m.entries == CountWords(words[..i])
    {
      var word := words[i];
      var count := m.EntryOrInsert(word, 0);
      var _ := m.Insert(word, count + 1);
      assert words[..i + 1][..i] == words[..i];
    }
    assert words[..|words|] == words;
    counts := m.entries;
  }

  /** The words of "hello world wonderful world". */
  lemma WordCountExampleWords()
    ensures CountWords(["hello", "world", "wonderful", "world"])
      == map["hello" := 1, "world" := 2, "wonderful" := 1]
  {
    var words := ["hello", "world", "wonderful", "world"];
    assert words[..3][..2][..1] == ["hello"];
    assert CountWords(words[..3][..2]) == map["hello" := 1, "world" := 1];
    assert CountWords(words[..3]) == map["hello" := 1, "world" := 1, "wonderful" := 1];
  }

  /** The word count of `maps`: "world" occurs twice, every other word once. */
  method WordCountExample() returns (counts: map<string, nat>)
    ensures counts == map["hello" := 1, "world" := 2, "wonderful" := 1]
  {
    counts := WordCount("hello" + " " + ("world" + " " + ("wonderful" + " " + "world")));
    WordCountExampleText();
  }

  /** The counts of the text of `maps`. */
  lemma WordCountExampleText()
    ensures CountWords(SplitWhitespace("hello" + " " + ("world" + " " + ("wonderful" + " " + "world"))))
      == map["hello" := 1, "world" := 2, "wonderful" := 1]
  {
    SplitFour("hello", "world", "wonderful", "world");
    WordCountExampleWords();
  }

  // ---------------------------------------------------------------------
  // Strings
  // ---------------------------------------------------------------------

  /** Six Devanagari letters of three bytes each: "नमस्ते" is 18 bytes long. */
  lemma DevanagariLength()
    ensures Ownership.Utf8Length("नमस्ते") == 18
  {
  }
}
