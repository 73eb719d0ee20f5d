# dictionary_timing, modelled in Dafny

`dictionary_timing.py` is a Python 2 micro-benchmark of dictionary lookups.
When the module loads, it builds `letters` (the lower-case alphabet), builds
`mappy` (a dictionary from every letter to 1), and makes `letters_copy`, a
copy of the letters that it shuffles at random. `get_each_key_from_map` looks
up every letter of the shuffled copy once. `main` times that function in three
phases of 100 trials each: warm-up, "fast" and "slow". Between the "fast" and
the "slow" phase it makes one stray lookup, `mappy.get(1)`, for a key that is
absent. Each phase is summarised by `average` (sum over count) and
`lazy_median` (the middle of a sorted copy).

The model has three files:

- `wrappers.dfy` (module `Wrappers`): `Option` stands for Python's `None`.
  `Result` stands for a value or a raised exception.
- `builtins.dfy` (module `Builtins`): the Python built-ins the script relies on,
  over exact reals. These are `sum`, `sorted`, `dict.get` and
  `random.shuffle`, plus `Min`/`Max` for stating bounds.
  - `Sorted` is an insertion sort. It is specified by "ascending" and "same
    multiset".
  - `SortedUnique` proves there is only one such list, so which sorting
    algorithm Python uses does not matter.
  - `Shuffle` takes the random choices as a parameter: the list of exchanges
    the shuffle performs.
- `dictionary_timing.dfy` (module `DictionaryTiming`): `average`,
  `lazy_median`, the module set-up, `get_each_key_from_map` and the non-timing
  part of `main`.
  - The median has its own characterisation, proved in both directions. For
    an odd length, `m` is the result exactly when `m` splits the rest of the
    list into two equal halves, one below `m` and one above. For an even
    length, the result is the mean of a middle pair that splits the list the
    same way.

All code is pure: functions and lemmas over `seq`, `multiset` and `map`. The
source's only in-place update is the library call `shuffle(letters_copy)`. It
is modelled as a function that returns the shuffled list.

## Model

| member | source | states |
|---|---|---|
| `DictionaryTiming.Average` | dictionary_timing.py:13-14 | raises ZeroDivisionError exactly when the list is empty, and returns a number otherwise |
| `DictionaryTiming.AverageBetween` | dictionary_timing.py:13-14 | when every trial lies in [lo, hi], the mean does too |
| `DictionaryTiming.AverageWithin` | dictionary_timing.py:13-14 | the mean of a non-empty list lies between its minimum and its maximum |
| `DictionaryTiming.AverageTimesCount` | dictionary_timing.py:13-14 | the mean multiplied by the count gives back the sum: it is sum divided by len |
| `DictionaryTiming.AveragePermutation` | dictionary_timing.py:13-14 | reordering the trials does not change the mean, or whether it raises |
| `DictionaryTiming.LazyMedian` | dictionary_timing.py:16-26 | returns None exactly when the list is empty (the selection it makes otherwise is stated by the characterisation lemmas below) |
| `DictionaryTiming.Middle` | dictionary_timing.py:23-26 | on the sorted copy, the value picked lies between the two middle elements (index (n-1)/2 and n/2, which coincide for odd n), and for odd n it is one of the elements |
| `DictionaryTiming.MedianWithin` | dictionary_timing.py:20-26 | for a non-empty list, the median lies between its minimum and its maximum |
| `DictionaryTiming.Midpoint` | dictionary_timing.py:26 | `(a + b) / 2.0` is equally far from `a` and `b`, and lies between them when `a <= b` |
| `DictionaryTiming.MedianFromOddSplit` | dictionary_timing.py:20-24 | for an odd length, any value that splits the rest into equal lower and upper halves is the value returned |
| `DictionaryTiming.MedianFromEvenSplit` | dictionary_timing.py:20-26 | for an even length, the mean of any middle pair that splits the rest into equal halves is the value returned |
| `DictionaryTiming.MedianOddCharacterization` | dictionary_timing.py:20-24 | for an odd length, the result is `m` if and only if `m` is a middle value: element n/2 of the sorted copy |
| `DictionaryTiming.MedianEvenCharacterization` | dictionary_timing.py:20-26 | for an even non-zero length, the result is `m` if and only if `m` is the mean of a middle pair: elements n/2-1 and n/2 of the sorted copy |
| `DictionaryTiming.MedianPermutation` | dictionary_timing.py:21-26 | reordering the trials does not change the median, because it sorts before selecting |
| `DictionaryTiming.MedianOfSorted` | dictionary_timing.py:23-26 | on an ascending list the median is read at index n/2 (odd length), or is the mean of indices n/2-1 and n/2 (even length) |
| `DictionaryTiming.MedianExamplesShort` | dictionary_timing.py:16-24 | median([]) is None and median([3]) is 3 |
| `DictionaryTiming.MedianExampleEven` | dictionary_timing.py:20-26 | median([1, 3]) is 2 |
| `DictionaryTiming.MedianExampleOdd` | dictionary_timing.py:20-24 | median([5, 1, 3]) is 3 |
| `DictionaryTiming.AverageExample` | dictionary_timing.py:13-14 | average([1, 2, 3, 4]) is 2.5 |
| `Builtins.Sorted` | dictionary_timing.py:21 | `sorted` returns a new list, ascending, with the same elements and length |
| `Builtins.SortedUnique` | dictionary_timing.py:21 | two ascending lists with the same elements are equal |
| `Builtins.SortedPermutation` | dictionary_timing.py:21 | `sorted` depends only on the multiset of its argument |
| `Builtins.SortedOfSorted` | dictionary_timing.py:21 | `sorted` leaves an ascending list as it is |
| `Builtins.Sum` | dictionary_timing.py:14 | the recursive sum equals the total Python's `sum` reaches adding the elements one by one from the left, starting at 0 |
| `Builtins.SumPermutation` | dictionary_timing.py:14 | `sum` does not depend on the order of the list |
| `Builtins.SumBounds` | dictionary_timing.py:14 | the sum of n values in [lo, hi] lies in [n*lo, n*hi] |
| `Builtins.Get` | dictionary_timing.py:11 | `dict.get` returns None exactly when the key is absent, and the stored value otherwise |
| `Builtins.Shuffle` | dictionary_timing.py:7 | whatever the random exchanges are, the shuffled list has the same length and the same multiset of elements |
| `DictionaryTiming.BuildMappy` | dictionary_timing.py:5 | the dictionary's keys are exactly the letters, and every value is 1 |
| `DictionaryTiming.Setup` | dictionary_timing.py:4-7 | after set-up, `mappy` maps exactly the letters to 1 and `letters_copy` is a permutation of `letters` |
| `DictionaryTiming.LettersAreAlphabet` | dictionary_timing.py:4 | `letters` is the 26 characters 'a' to 'z' in order |
| `DictionaryTiming.AlphabetMappy` | dictionary_timing.py:4-5 | a dictionary built from the alphabet has exactly the keys 'a'..'z' (26 of them), and not the int 1 |
| `DictionaryTiming.AlphabetCopy` | dictionary_timing.py:6-7 | a permutation of the alphabet holds each letter 'a'..'z' exactly once, and nothing else |
| `DictionaryTiming.SetupFacts` | dictionary_timing.py:4-11 | after set-up, `mappy` has exactly 26 keys 'a'..'z', not the int 1; `letters_copy` holds each letter once; and all 26 lookups of `get_each_key_from_map` return 1 |
| `DictionaryTiming.GetEachKeyFromMap` | dictionary_timing.py:9-11 | one lookup per letter of the shuffled copy, in order; lookup i finds its key exactly when that letter is a key |
| `DictionaryTiming.EveryLookupHits` | dictionary_timing.py:9-11 | in any state the set-up can produce, every lookup finds its key and yields 1 |
| `DictionaryTiming.StrayLookupMisses` | dictionary_timing.py:32 | `mappy.get(1)` returns None, because no int is a key |
| `DictionaryTiming.Summarise` | dictionary_timing.py:35-36 | on a phase of 100 trials, neither statistic raises or returns None, and both lie between the phase's minimum and maximum |
| `DictionaryTiming.RunMain` | dictionary_timing.py:29-36 | the stray lookup returns None; each phase's printed mean and median are `average` and `lazy_median` of that phase's own trials, and each is a number between that phase's fastest and slowest trial |
| `DictionaryTiming.RunMainPositive` | dictionary_timing.py:29-36 | when every trial time is positive, all six printed means and medians are positive |

## Left out

- Wall-clock timing (`timeit`, `number=10**4`): the three lists of trial times are parameters of `RunMain`. A timer in a foreign library has no functional result to model.
- Console output (`print`) and the `if __name__ == '__main__'` guard: these are I/O.
- Floating point: trial times are exact `real`. The rounding in `float(sum(array)) / len(array)` and in `/ 2.0` is not modelled. The odd-length median is Python's element itself, which may be an int; here it is the same number as a real.
- Randomness of `shuffle`: the exchanges are a parameter. The model proves every outcome is a permutation. It does not prove that every permutation can be produced.
- DictionaryTiming.LazyMedian: the model does not state that the caller's list is left unchanged. Lists are immutable `seq` values here, so no call can change one. The model therefore does not capture the aliasing of Python lists, nor that `sorted` allocates a new list.
- DictionaryTiming.GetEachKeyFromMap: the source discards the lookup results, and the model returns them so that they can be stated. That `mappy` is unchanged by this function and by `mappy.get(1)` holds because the model's dictionary is a value.
- Python's `sorted` algorithm (Timsort) is replaced by an insertion sort. `SortedUnique` shows that any correct sort gives the same list.
- The dictionary's hash-table implementation is Python's built-in `dict`, modelled only as a Dafny `map`.
- dictionary_item_getting_timing.py is not part of this model. Its two getters are one-line reads of a built-in dictionary, and the rest of that file is timing and printing.
