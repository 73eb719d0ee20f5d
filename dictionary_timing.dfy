/**
 * dictionary_timing.py: a 26-entry dictionary keyed by the lower-case
 * alphabet, a shuffled copy of its keys, a function that looks every key up
 * once, and the two statistics (mean and median) that summarise the timed
 * trials. Trial times are exact reals here; the timer and the console are
 * outside the model.
 */
module DictionaryTiming {
  import opened Wrappers
  import opened Builtins

  // ===========================================================================
  // average

  /** The exception Python raises for `x / 0`. */
  datatype PyError = ZeroDivisionError

  /** `average`: the sum of the trials divided by their count; Python raises
      ZeroDivisionError when the list is empty. */
  function Average(values: seq<real>): (r: Result<real, PyError>)
    ensures r.Failure? <==> values == []
  {
    if values == [] then Failure(ZeroDivisionError)
    else Success(Sum(values) / |values| as real)
  }

  /** Dividing by n > 0 and multiplying back by n gives the total again. */
  lemma QuotientTimes(total: real, n: real)
    requires n > 0.0
    ensures (total / n) * n == total
  {
  }

  /** A total between n * lo and n * hi, divided by n > 0, lies between lo and hi. */
  lemma QuotientWithin(total: real, n: real, lo: real, hi: real)
    requires n > 0.0 && n * lo <= total <= n * hi
    ensures lo <= total / n <= hi
  {
    assert (total / n) * n == total;
  }

  /** A mean of trials that all lie in [lo, hi] lies in [lo, hi] too. */
  lemma AverageBetween(values: seq<real>, lo: real, hi: real)
    requires values != []
    requires forall i | 0 <= i < |values| :: lo <= values[i] <= hi
    ensures lo <= Average(values).value <= hi
  {
    SumBounds(values, lo, hi);
    QuotientWithin(Sum(values), |values| as real, lo, hi);
  }

  /** The mean of a non-empty list lies between its smallest and its largest trial. */
  lemma AverageWithin(values: seq<real>)
    requires values != []
    ensures Min(values) <= Average(values).value <= Max(values)
  {
    AverageBetween(values, Min(values), Max(values));
  }

  /** The mean, counted once for every trial, gives back the sum of the trials. */
  lemma AverageTimesCount(values: seq<real>)
    requires values != []
    ensures Average(values).value * |values| as real == Sum(values)
  {
    var total, n := Sum(values), |values| as real;
    assert Average(values) == Success(total / n);
    QuotientTimes(total, n);
  }

  /** The mean does not depend on the order of the trials. */
  lemma AveragePermutation(xs: seq<real>, ys: seq<real>)
    requires multiset(xs) == multiset(ys)
    ensures Average(xs) == Average(ys)
  {
    SameLength(xs, ys);
    SumPermutation(xs, ys);
  }

  // ===========================================================================
  // lazy_median

  /**
   * `lazy_median(array)`: `None` for an empty list; otherwise, on the ascending
   * copy `sorted(array)`, the middle element for an odd length and the mean of
   * the two middle elements for an even length. `length / 2` is Python 2 integer
   * division on a non-negative int, which is `/` on `nat`.
   */
  function LazyMedian(values: seq<real>): (r: Option<real>)
    ensures r.None? <==> values == []
  {
    if values == [] then None
    else Some(Middle(Sorted(values)))
  }

  /** The selection `lazy_median` makes on the sorted copy: the element at index
      `length / 2` for an odd length, the mean of the elements at `length / 2 - 1`
      and `length / 2` for an even one. */
  function Middle(sortedCopy: seq<real>): (m: real)
    requires sortedCopy != []
    ensures |sortedCopy| % 2 == 1 ==> m in sortedCopy
    ensures IsSorted(sortedCopy) ==>
            sortedCopy[(|sortedCopy| - 1) / 2] <= m <= sortedCopy[|sortedCopy| / 2]
  {
    var length := |sortedCopy|;
    if length % 2 == 1 then sortedCopy[length / 2]
    else Midpoint(sortedCopy[length / 2 - 1], sortedCopy[length / 2])
  }

  /** The median of a non-empty list lies between its smallest and its largest trial. */
  lemma MedianWithin(values: seq<real>)
    requires values != []
    ensures Min(values) <= LazyMedian(values).value <= Max(values)
  {
    var s, k := Sorted(values), |values| / 2;
    assert s[k] in multiset(values);
    if |values| % 2 == 0 {
      assert s[k - 1] in multiset(values);
    }
  }

  /** `(a + b) / 2.0`: the value halfway between `a` and `b`. */
  function Midpoint(a: real, b: real): (m: real)
    ensures a <= b ==> a <= m <= b
    ensures m - a == b - m
  {
    (a + b) / 2.0
  }

  /** `m` splits an odd-length list into two halves of equal size, the lower
      half at most `m` and the upper half at least `m`. */
  predicate IsOddSplit(values: seq<real>, lower: seq<real>, m: real, upper: seq<real>)
  {
    && |lower| == |upper|
    && multiset(values) == multiset(lower) + multiset{m} + multiset(upper)
    && (forall i | 0 <= i < |lower| :: lower[i] <= m)
    && (forall i | 0 <= i < |upper| :: m <= upper[i])
  }

  /** `a <= b` are the two middle values of an even-length list: the rest splits
      into a lower half at most `a` and an upper half, of the same size, at least `b`. */
  predicate IsEvenSplit(values: seq<real>, lower: seq<real>, a: real, b: real, upper: seq<real>)
  {
    && |lower| == |upper|
    && a <= b
    && multiset(values) == multiset(lower) + multiset{a, b} + multiset(upper)
    && (forall i | 0 <= i < |lower| :: lower[i] <= a)
    && (forall i | 0 <= i < |upper| :: b <= upper[i])
  }

  /** An ascending list of odd length splits at its middle element. */
  lemma OddSplitOfSorted(values: seq<real>, s: seq<real>)
    requires IsSorted(s) && multiset(s) == multiset(values) && |s| % 2 == 1
    ensures IsOddSplit(values, s[..|s| / 2], s[|s| / 2], s[|s| / 2 + 1..])
  {
    var k := |s| / 2;
    assert s == s[..k] + [s[k]] + s[k + 1..];
  }

  /** An ascending list of even, non-zero length splits at its two middle elements. */
  lemma EvenSplitOfSorted(values: seq<real>, s: seq<real>)
    requires IsSorted(s) && multiset(s) == multiset(values) && |s| % 2 == 0 && |s| > 0
    ensures IsEvenSplit(values, s[..|s| / 2 - 1], s[|s| / 2 - 1], s[|s| / 2], s[|s| / 2 + 1..])
  {
    var k := |s| / 2;
    assert s == s[..k - 1] + [s[k - 1], s[k]] + s[k + 1..];
  }

  /** Sorting the two halves around the middle rebuilds `sorted(array)`. */
  lemma SortedFromOddSplit(values: seq<real>, lower: seq<real>, m: real, upper: seq<real>)
    requires IsOddSplit(values, lower, m, upper)
    ensures Sorted(values) == Sorted(lower) + [m] + Sorted(upper)
  {
    var lo, hi := Sorted(lower), Sorted(upper);
    SortedBelow(lower, m);
    SortedAbove(upper, m);
    SortedAround(lo, [m], hi);
    assert multiset(lo + [m] + hi) == multiset(values);
    SortedUnique(Sorted(values), lo + [m] + hi);
  }

  /** Sorting the two halves around the middle pair rebuilds `sorted(array)`. */
  lemma SortedFromEvenSplit(values: seq<real>, lower: seq<real>, a: real, b: real, upper: seq<real>)
    requires IsEvenSplit(values, lower, a, b, upper)
    ensures Sorted(values) == Sorted(lower) + [a, b] + Sorted(upper)
  {
    var lo, hi := Sorted(lower), Sorted(upper);
    SortedBelow(lower, a);
    SortedAbove(upper, b);
    SortedAround(lo, [a, b], hi);
    assert multiset([a, b]) == multiset{a, b};
    assert multiset(lo + [a, b] + hi) == multiset(values);
    SortedUnique(Sorted(values), lo + [a, b] + hi);
  }

  /** Any middle value of an odd-length list is the value `lazy_median` returns. */
  lemma MedianFromOddSplit(values: seq<real>, lower: seq<real>, m: real, upper: seq<real>)
    requires IsOddSplit(values, lower, m, upper)
    ensures LazyMedian(values) == Some(m)
  {
    SortedFromOddSplit(values, lower, m, upper);
    var s, lo, hi := Sorted(values), Sorted(lower), Sorted(upper);
    var h := |lower|;
    assert |lo| == h && |hi| == h;
    assert |values| == |s| == 2 * h + 1;
    assert |values| / 2 == h;
    assert s[h] == m by { assert s == lo + [m] + hi; }
  }

  /** Any middle pair of an even-length list gives the value `lazy_median` returns. */
  lemma MedianFromEvenSplit(values: seq<real>, lower: seq<real>, a: real, b: real, upper: seq<real>)
    requires IsEvenSplit(values, lower, a, b, upper)
    ensures LazyMedian(values) == Some(Midpoint(a, b))
  {
    SortedFromEvenSplit(values, lower, a, b, upper);
    var s, lo, hi := Sorted(values), Sorted(lower), Sorted(upper);
    var h := |lower|;
    assert |lo| == h && |hi| == h;
    assert |values| == |s| == 2 * h + 2;
    assert |values| / 2 == h + 1;
    assert s[h] == a by { assert s == lo + [a, b] + hi; }
    assert s[h + 1] == b by { assert s == lo + [a, b] + hi; }
  }

  /** For an odd length, `lazy_median` returns `m` exactly when `m` is a middle
      value: one that splits the rest of the list into equal halves below and above it. */
  lemma MedianOddCharacterization(values: seq<real>, m: real)
    requires |values| % 2 == 1
    ensures LazyMedian(values) == Some(m) <==>
            exists lower, upper :: IsOddSplit(values, lower, m, upper)
  {
    if LazyMedian(values) == Some(m) {
      var s := Sorted(values);
      var k := |values| / 2;
      OddSplitOfSorted(values, s);
      assert IsOddSplit(values, s[..k], m, s[k + 1..]);
    }
    if exists lower, upper :: IsOddSplit(values, lower, m, upper) {
      var lower, upper :| IsOddSplit(values, lower, m, upper);
      MedianFromOddSplit(values, lower, m, upper);
    }
  }

  /** For an even, non-zero length, `lazy_median` returns `m` exactly when `m` is
      the mean of a middle pair: two values that split the rest of the list into
      equal halves below and above them. */
  lemma MedianEvenCharacterization(values: seq<real>, m: real)
    requires |values| % 2 == 0 && values != []
    ensures LazyMedian(values) == Some(m) <==>
            exists lower, a, b, upper :: IsEvenSplit(values, lower, a, b, upper) && m == Midpoint(a, b)
  {
    if LazyMedian(values) == Some(m) {
      var s := Sorted(values);
      var k := |values| / 2;
      EvenSplitOfSorted(values, s);
      assert Middle(s) == Midpoint(s[k - 1], s[k]);
      assert IsEvenSplit(values, s[..k - 1], s[k - 1], s[k], s[k + 1..]) && m == Midpoint(s[k - 1], s[k]);
    }
    if exists lower, a, b, upper :: IsEvenSplit(values, lower, a, b, upper) && m == Midpoint(a, b) {
      var lower, a, b, upper :| IsEvenSplit(values, lower, a, b, upper) && m == Midpoint(a, b);
      MedianFromEvenSplit(values, lower, a, b, upper);
    }
  }

  /** `lazy_median` does not depend on the order of the trials. */
  lemma MedianPermutation(xs: seq<real>, ys: seq<real>)
    requires multiset(xs) == multiset(ys)
    ensures LazyMedian(xs) == LazyMedian(ys)
  {
    SameLength(xs, ys);
    SortedPermutation(xs, ys);
  }

  /** On an already ascending list `lazy_median` reads the middle directly. */
  lemma MedianOfSorted(values: seq<real>)
    requires IsSorted(values) && values != []
    ensures |values| % 2 == 1 ==> LazyMedian(values) == Some(values[|values| / 2])
    ensures |values| % 2 == 0 ==>
            LazyMedian(values) == Some(Midpoint(values[|values| / 2 - 1], values[|values| / 2]))
  {
    SortedOfSorted(values);
  }

  /** Worked values: median([]) is None and median([3]) == 3. */
  lemma MedianExamplesShort()
    ensures LazyMedian([]) == None
    ensures LazyMedian([3.0]) == Some(3.0)
  {
    assert multiset([3.0]) == multiset([]) + multiset{3.0} + multiset([]);
    MedianFromOddSplit([3.0], [], 3.0, []);
  }

  /** Worked value: median([1, 3]) == 2, the mean of the two middle values. */
  lemma MedianExampleEven()
    ensures LazyMedian([1.0, 3.0]) == Some(2.0)
  {
    var xs := [1.0, 3.0];
    assert multiset(xs) == multiset([]) + multiset{1.0, 3.0} + multiset([]);
    MedianFromEvenSplit(xs, [], 1.0, 3.0, []);
  }

  /** Worked value: median([5, 1, 3]) == 3, the middle of [1, 3, 5]. */
  lemma MedianExampleOdd()
    ensures LazyMedian([5.0, 1.0, 3.0]) == Some(3.0)
  {
    var xs := [5.0, 1.0, 3.0];
    assert multiset(xs) == multiset([1.0]) + multiset{3.0} + multiset([5.0]);
    MedianFromOddSplit(xs, [1.0], 3.0, [5.0]);
  }

  /** Worked value: average([1, 2, 3, 4]) == 2.5. */
  lemma AverageExample()
    ensures Average([1.0, 2.0, 3.0, 4.0]) == Success(2.5)
  {
    var xs := [1.0, 2.0, 3.0, 4.0];
    assert Sum(xs[3..]) == 4.0;
    assert Sum(xs[2..]) == 7.0 by { assert xs[2..][1..] == xs[3..]; }
    assert Sum(xs[1..]) == 9.0 by { assert xs[1..][1..] == xs[2..]; }
    assert Sum(xs) == 10.0;
  }

  // ===========================================================================
  // Module set-up (lines 4-7) and the lookups

  /** `letters`: the lower-case alphabet as a list of one-character strings. */
  const Letters: seq<char> := "abcdefghijklmnopqrstuvwxyz"

  /** A dictionary key: a one-character string, or an int as in `mappy.get(1)`. */
  datatype Key = Chr(c: char) | Int(n: int)

  /** `mappy`: a dictionary from every letter to the int 1. */
  function BuildMappy(letters: seq<char>): (mappy: map<Key, int>)
    ensures forall k :: k in mappy <==> k.Chr? && k.c in letters
    ensures forall k | k in mappy :: mappy[k] == 1
  {
    map c | c in letters :: Chr(c) := 1
  }

  /** The module's globals once it has been imported. */
  datatype ModuleState = ModuleState(letters: seq<char>, mappy: map<Key, int>, lettersCopy: seq<char>)

  /** What the module set-up establishes: `mappy` maps exactly the letters, each
      to 1, and `letters_copy` is a rearrangement of `letters`. */
  ghost predicate WellFormed(st: ModuleState)
  {
    && (forall k :: k in st.mappy <==> k.Chr? && k.c in st.letters)
    && (forall k | k in st.mappy :: st.mappy[k] == 1)
    && |st.lettersCopy| == |st.letters|
    && multiset(st.lettersCopy) == multiset(st.letters)
  }

  /** Module set-up (dictionary_timing.py lines 4-7): build `letters` and `mappy`,
      copy `letters` and shuffle the copy; `swaps` are the exchanges the random
      shuffle happens to make. */
  function Setup(swaps: seq<(nat, nat)>): (st: ModuleState)
    requires ValidSwaps(swaps, |Letters|)
    ensures st.letters == Letters
    ensures WellFormed(st)
  {
    ModuleState(Letters, BuildMappy(Letters), Shuffle(Letters, swaps))
  }

  /** The letters are the 26 characters from 'a' to 'z', in order. */
  lemma LettersAreAlphabet()
    ensures |Letters| == 26
    ensures forall i | 0 <= i < 26 :: Letters[i] as int == 'a' as int + i
  {
  }

  /** A list holding the characters from 'a' to 'z' in order holds exactly them,
      each once. */
  lemma AlphabetMembers(letters: seq<char>)
    requires |letters| == 26
    requires forall i | 0 <= i < 26 :: letters[i] as int == 'a' as int + i
    ensures forall c :: c in letters <==> 'a' <= c <= 'z'
    ensures forall i, j | 0 <= i < j < |letters| :: letters[i] != letters[j]
  {
    forall c | 'a' <= c <= 'z' ensures c in letters {
      assert letters[c as int - 'a' as int] == c;
    }
  }

  /** A list without repetitions has as many distinct members as elements. */
  lemma {:induction false} DistinctCount(xs: seq<char>)
    requires forall i, j | 0 <= i < j < |xs| :: xs[i] != xs[j]
    ensures |set c | c in xs| == |xs|
    decreases |xs|
  {
    if xs != [] {
      var init := xs[..|xs| - 1];
      DistinctCount(init);
      assert (set c | c in xs) == (set c | c in init) + {xs[|xs| - 1]};
      assert xs[|xs| - 1] !in init;
    }
  }

  /** Wrapping characters as keys keeps them apart. */
  lemma {:induction false} KeyCount(cs: set<char>)
    ensures |set c | c in cs :: Chr(c)| == |cs|
    decreases |cs|
  {
    if cs != {} {
      var c :| c in cs;
      KeyCount(cs - {c});
      assert (set d | d in cs :: Chr(d)) == (set d | d in cs - {c} :: Chr(d)) + {Chr(c)};
    }
  }

  /** A dictionary built from a list without repetitions has one key per element. */
  lemma MappySize(letters: seq<char>)
    requires forall i, j | 0 <= i < j < |letters| :: letters[i] != letters[j]
    ensures |BuildMappy(letters)| == |letters|
  {
    var m := BuildMappy(letters);
    var members := set c | c in letters;
    DistinctCount(letters);
    KeyCount(members);
    assert m.Keys == set c | c in members :: Chr(c);
  }

  /** The dictionary built from the alphabet has exactly the 26 letters 'a'..'z'
      as keys, each mapped to 1; the int 1 is not one of them. */
  lemma AlphabetMappy(letters: seq<char>)
    requires |letters| == 26
    requires forall i | 0 <= i < 26 :: letters[i] as int == 'a' as int + i
    ensures forall c :: Chr(c) in BuildMappy(letters) <==> 'a' <= c <= 'z'
    ensures |BuildMappy(letters)| == 26
    ensures Int(1) !in BuildMappy(letters)
  {
    AlphabetMembers(letters);
    MappySize(letters);
  }

  /** The shuffled copy of the alphabet holds the 26 letters 'a'..'z', each exactly once. */
  lemma AlphabetCopy(letters: seq<char>, copy: seq<char>)
    requires |letters| == 26
    requires forall i | 0 <= i < 26 :: letters[i] as int == 'a' as int + i
    requires multiset(copy) == multiset(letters)
    ensures forall c :: multiset(copy)[c] == if 'a' <= c <= 'z' then 1 else 0
  {
    AlphabetMembers(letters);
    forall c ensures multiset(copy)[c] == if 'a' <= c <= 'z' then 1 else 0 {
      DistinctMultiplicity(letters, c);
    }
  }

  /** After set-up `mappy` has exactly the 26 letters 'a'..'z' as keys, each
      mapped to 1, the int 1 is not one of them, and `letters_copy` holds the
      26 letters, each exactly once. */
  lemma SetupFacts(swaps: seq<(nat, nat)>)
    requires ValidSwaps(swaps, |Letters|)
    ensures forall c :: Chr(c) in Setup(swaps).mappy <==> 'a' <= c <= 'z'
    ensures |Setup(swaps).mappy| == 26
    ensures Int(1) !in Setup(swaps).mappy
    ensures |Setup(swaps).lettersCopy| == 26
    ensures forall c :: multiset(Setup(swaps).lettersCopy)[c] == if 'a' <= c <= 'z' then 1 else 0
    ensures |GetEachKeyFromMap(Setup(swaps))| == 26
    ensures forall i | 0 <= i < 26 :: GetEachKeyFromMap(Setup(swaps))[i] == Some(1)
  {
    var st := Setup(swaps);
    LettersAreAlphabet();
    AlphabetMappy(st.letters);
    AlphabetCopy(st.letters, st.lettersCopy);
    EveryLookupHits(st);
  }

  /** In a list without repetitions every element occurs once and nothing else occurs. */
  lemma {:induction false} DistinctMultiplicity(xs: seq<char>, c: char)
    requires forall i, j | 0 <= i < j < |xs| :: xs[i] != xs[j]
    ensures multiset(xs)[c] == if c in xs then 1 else 0
    decreases |xs|
  {
    if xs != [] {
      var init := xs[..|xs| - 1];
      DistinctMultiplicity(init, c);
      assert xs == init + [xs[|xs| - 1]];
      assert xs[|xs| - 1] !in init;
    }
  }

  /** `get_each_key_from_map()`: `mappy.get(letter)` for each letter of the
      shuffled copy, in order. The source discards these values; the function
      only reads `mappy`. */
  function GetEachKeyFromMap(st: ModuleState): (lookups: seq<Option<int>>)
    ensures |lookups| == |st.lettersCopy|
    ensures forall i | 0 <= i < |lookups| ::
              lookups[i].Some? <==> Chr(st.lettersCopy[i]) in st.mappy
  {
    seq(|st.lettersCopy|, i requires 0 <= i < |st.lettersCopy| => Get(st.mappy, Chr(st.lettersCopy[i])))
  }

  /** In a well-formed state every lookup of `get_each_key_from_map` finds its
      key and yields 1, one lookup per letter. */
  lemma EveryLookupHits(st: ModuleState)
    requires WellFormed(st)
    ensures |GetEachKeyFromMap(st)| == |st.letters|
    ensures forall i | 0 <= i < |GetEachKeyFromMap(st)| :: GetEachKeyFromMap(st)[i] == Some(1)
  {
    var lookups := GetEachKeyFromMap(st);
    forall i | 0 <= i < |lookups| ensures lookups[i] == Some(1) {
      assert st.lettersCopy[i] in multiset(st.letters);
      assert Chr(st.lettersCopy[i]) in st.mappy;
    }
  }

  /** A key that is not a one-character string is never in a well-formed `mappy`:
      `mappy.get(1)` returns None. */
  lemma StrayLookupMisses(st: ModuleState, n: int)
    requires WellFormed(st)
    ensures Get(st.mappy, Int(n)) == None
  {
  }

  // ===========================================================================
  // main, without the timer and the console

  /** Trials per phase in `main`. */
  const Trials: nat := 100

  /** The mean and the median of one phase's trial times. */
  datatype PhaseStats = PhaseStats(average: Result<real, PyError>, median: Option<real>)

  /** `average(times)` and `lazy_median(times)` for one phase of `Trials` trials:
      neither raises nor returns None, and both lie within the phase's trial times. */
  function Summarise(times: seq<real>): (p: PhaseStats)
    requires |times| == Trials
    ensures p.average.Success? && p.median.Some?
    ensures Min(times) <= p.average.value <= Max(times)
    ensures Min(times) <= p.median.value <= Max(times)
  {
    AverageWithin(times);
    MedianWithin(times);
    PhaseStats(Average(times), LazyMedian(times))
  }

  /** What `main` prints on its last two lines, phase by phase, and what the
      stray lookup `mappy.get(1)` between the "fast" and the "slow" phase returns. */
  datatype Report = Report(warmup: PhaseStats, fast: PhaseStats, slow: PhaseStats, strayLookup: Option<int>)

  /** `main()`, given the three lists of trial times `timeit` produced, one per
      phase: the stray lookup misses, and each printed line shows, phase by
      phase, `average` and `lazy_median` of that phase's own trials, every one a
      number lying between that phase's fastest and slowest trial. */
  function RunMain(st: ModuleState, warmup: seq<real>, fast: seq<real>, slow: seq<real>): (r: Report)
    requires WellFormed(st)
    requires |warmup| == Trials && |fast| == Trials && |slow| == Trials
    ensures r.strayLookup == None
    ensures r.warmup.average == Average(warmup) && r.warmup.median == LazyMedian(warmup)
    ensures r.fast.average == Average(fast) && r.fast.median == LazyMedian(fast)
    ensures r.slow.average == Average(slow) && r.slow.median == LazyMedian(slow)
    ensures Describes(r.warmup, warmup) && Describes(r.fast, fast) && Describes(r.slow, slow)
  {
    var warmupStats := Summarise(warmup);
    var fastStats := Summarise(fast);
    StrayLookupMisses(st, 1);
    var stray := Get(st.mappy, Int(1));
    var slowStats := Summarise(slow);
    Report(warmupStats, fastStats, slowStats, stray)
  }

  /** Both statistics of a phase are numbers within the range of its trial times. */
  predicate Describes(p: PhaseStats, times: seq<real>)
    requires times != []
  {
    && p.average.Success? && p.median.Some?
    && Min(times) <= p.average.value <= Max(times)
    && Min(times) <= p.median.value <= Max(times)
  }

  /** Every trial took some time. */
  predicate AllPositive(times: seq<real>)
  {
    forall i | 0 <= i < |times| :: times[i] > 0.0
  }

  /** When every trial time is positive, all six statistics `main` prints are positive. */
  lemma RunMainPositive(st: ModuleState, warmup: seq<real>, fast: seq<real>, slow: seq<real>)
    requires WellFormed(st)
    requires |warmup| == Trials && |fast| == Trials && |slow| == Trials
    requires AllPositive(warmup) && AllPositive(fast) && AllPositive(slow)
    ensures var r := RunMain(st, warmup, fast, slow);
            && r.warmup.average.value > 0.0 && r.warmup.median.value > 0.0
            && r.fast.average.value > 0.0 && r.fast.median.value > 0.0
            && r.slow.average.value > 0.0 && r.slow.median.value > 0.0
  {
    assert Min(warmup) in warmup && Min(fast) in fast && Min(slow) in slow;
  }
}
