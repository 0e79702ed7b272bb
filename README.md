# bsym core in Dafny

bsym enumerates the distinct arrangements ("configurations") of labelled
objects over a fixed set of sites and groups them into classes under a set of
symmetry operations. This project models and proves properties of two pieces
of it.

- **The permutation routines** (`bsym/permutations.py`):
  - `unique_permutations` and its backtracking helper list every distinct
    rearrangement of a list of labels that may hold repeats. The helper keeps
    one remaining-occurrence counter per distinct label. It fills positions
    from the last down to the first, taking an occurrence before it recurses
    and giving it back afterwards.
  - `all_permutations` expands a label -> count table into an occupation list,
    optionally checks its length against a site count, and collects all the
    distinct rearrangements of that list.
  - `next_permutationS` steps a list in place to its lexicographically next
    arrangement, or wraps a largest arrangement round to the smallest.
- **The `Configuration` value** (`bsym/configuration.py`): a fixed-length vector
  of integer labels. Its operations are:
  - element-wise matching;
  - equivalence under symmetry operations;
  - searches for the configuration, or an equivalent of it, in a list;
  - the decimal encoding `as_number`, its values over all images, and the
    cached least of them;
  - the positions holding a label;
  - grouping a parallel list of objects by label.

Files:
- `wrappers.dfy`: `Option` and `Result`.
- `sequences.dfy`: reversal and lexicographic order. It also proves that a
  non-increasing sequence is the largest rearrangement of its elements and an
  ascending one the smallest.
- `permutations.dfy`: the permutation routines.
  - The helper is a recursive method over two arrays, the counters and the
    tuple under construction.
  - `next_permutationS` is a method on an array, split into its three steps.
  - What the generator yields is collected into a sequence.
- `configuration.dfy`: a configuration is its label sequence, and the
  read-only operations are functions of it. The class `Configuration` holds
  the labels and the one field the code updates, the cached lowest numeric
  representation.

Symmetry operations are defined outside this core. Here one is an index
mapping: operating with `mapping` on `c` gives the configuration whose label at
`i` is `c[mapping[i]]`.

## Model

| member | source | states |
|---|---|---|
| Permutations.UniquePermutations | bsym/permutations.py:8-12 | Every tuple returned has the input's length and is a rearrangement of it. Every rearrangement is returned, none twice. Their number times the product of the factorials of the multiplicities is N!, so an empty input gives exactly one tuple. |
| Permutations.UniquePermutationHelper | bsym/permutations.py:14-24 | On return every occurrence counter is as it was on entry, and the positions above `d` are unchanged. The output lists, once each, exactly the tuples that keep those positions and fill positions `0..d` with the multiset the counters describe. Their number is the multinomial coefficient of the counters. |
| Permutations.PlaceLabel | bsym/permutations.py:19-24 | One pass of the helper's loop body writes the label at `d`, takes an occurrence, recurses and gives the occurrence back. Afterwards the counters and the positions above `d` are restored. It yields exactly the tuples with that label at `d`, as many as the multinomial of the reduced counters. |
| Permutations.MultinomialFormula | bsym/permutations.py:14-24 | The number of tuples the backtracking recurrence produces for counters `c` is (sum c)! / (c1! ... ck!). |
| Sequences.DistinctValues | bsym/permutations.py:9-10 | The distinct labels of the input, each once, and no other value. |
| Permutations.Repeat | bsym/permutations.py:31 | `[x] * n` holds `n` copies of `x`, and none when `n <= 0`. |
| Permutations.Flatten | bsym/permutations.py:26-27 | The flattened list is as long as all the sublists together, and a value is in it exactly when it is in one of the sublists. |
| Permutations.FlattenAt | bsym/permutations.py:26-27 | Item `k` of sublist `i` stands in the flattened list at the total length of the sublists before `i`, plus `k`. With the length this fixes the whole list: the sublists in order, each item kept. |
| Permutations.OccupationListCounts | bsym/permutations.py:29-31 | The occupation list holds each key of the table exactly as many times as its count says (none for a count of zero or less) and holds nothing else. Its length is the sum of the positive counts. |
| Permutations.AllPermutations | bsym/permutations.py:29-34 | Fails exactly when a non-zero site count is given that differs from the occupation list's length. `None` and 0 skip the check. Otherwise it returns every distinct rearrangement of the occupation list, once each, and the multinomial count of them. |
| Permutations.FindTail | bsym/permutations.py:41-46 | `l[last..]` is non-increasing. `l[last-1] < l[last]` when `last > 0`. `last > 0` exactly when some adjacent pair of `l` is strictly increasing. `last` is -1 only for the empty list. |
| Permutations.FindLarger | bsym/permutations.py:48-51 | The pivot search stops in the tail, at the rightmost element greater than the pivot. |
| Permutations.ReverseTail | bsym/permutations.py:53-59 | The swaps leave `l[..last]` unchanged and reverse `l[last..]`. |
| Permutations.NextPermutation | bsym/permutations.py:36-60 | The list keeps its multiset of values. The call reports `true` exactly when some adjacent pair is strictly increasing, and the list is then the least rearrangement lexicographically greater than the input. Otherwise it reports `false` and the list is the input reversed, which is in ascending order. |
| Permutations.NextPermutationStep | bsym/permutations.py:48-59 | Swapping the pivot with the rightmost larger element of the non-increasing tail and reversing the tail gives the next permutation. |
| Permutations.LastPermutation | bsym/permutations.py:44-46 | A list with no ascending adjacent pair is non-increasing, and no rearrangement of it is lexicographically greater. Its reversal is ascending and is its least rearrangement. |
| Permutations.NextPermutationUnique | bsym/permutations.py:39-40 | The next permutation is unique. |
| Configurations.Configuration.ToList | bsym/configuration.py:142-152 | The label sequence the configuration was built from: its meaning rests on the constructors' `ensures ToList() == t` (and `== v`), and `labels` is never reassigned. |
| Configurations.Configuration.FromTuple | bsym/configuration.py:111-124 | The new configuration's `tolist` is the tuple, and its cache starts as `None`, the value `__init__` assigns at line 16. |
| Configurations.Configuration.FromVector | bsym/configuration.py:127-140 | The new configuration's `tolist` is the vector, and its cache is `None`. |
| Configurations.Matches | bsym/configuration.py:22-32 | True exactly when the two label sequences are equal. |
| Configurations.IsEquivalentTo | bsym/configuration.py:34-50 | True exactly when some operation maps the configuration onto the test configuration. False for no operations. |
| Configurations.EquivalentToItself | bsym/configuration.py:46-50 | With the identity among the operations, a configuration is equivalent to itself. |
| Configurations.IsInList | bsym/configuration.py:52-62 | True exactly when the configuration is an element of the list. False for the empty list. |
| Configurations.HasEquivalentInList | bsym/configuration.py:64-76 | True exactly when some operation maps the configuration onto some element of the list. False for the empty list. |
| Configurations.InListHasEquivalent | bsym/configuration.py:62-76 | With the identity among the operations, a configuration in the list has an equivalent in it. |
| Configurations.AsNumber | bsym/configuration.py:103-108 | The digit string read as an integer is less than 10^n for n labels. |
| Configurations.AsNumberIsPlaceValue | bsym/configuration.py:108 | `as_number` is the sum of `c[i] * 10^(n-1-i)`. |
| Configurations.AsNumberOrder | bsym/configuration.py:108 | Among configurations of one length, `as_number` orders them exactly as lexicographic order does, and it is injective. |
| Configurations.NumericEquivalents | bsym/configuration.py:90-101 | One value per operation, in operation order: the `as_number` of that operation's image. |
| Configurations.Min | bsym/configuration.py:88 | Python's `min`: an element of the list, no greater than any element. |
| Configurations.Configuration.SetLowestNumericRepresentation | bsym/configuration.py:78-88 | Raises exactly when there are no operations or no labels, and then leaves the cache alone. Otherwise it caches a value that is one of the numeric equivalents and no greater than any of them. |
| Configurations.LowestIsLeastImage | bsym/configuration.py:88 | The cached minimum is the `as_number` of an image exactly when that image is the lexicographically least image. |
| Configurations.Position | bsym/configuration.py:157-167 | Every index returned is a valid position. |
| Configurations.PositionSpec | bsym/configuration.py:167 | The indices are strictly increasing. They are exactly the positions holding the label. There are as many as the label's occurrences. |
| Configurations.LabelSet | bsym/configuration.py:186 | `set(self.tolist())` holds exactly the distinct labels, and as many elements as there are distinct labels. |
| Configurations.ObjectsAt | bsym/configuration.py:187 | The objects grouped under a label are as many as the label's occurrences. |
| Configurations.ObjectsAtPositions | bsym/configuration.py:187 | The objects grouped under a label are exactly the objects at that label's positions, in order. |
| Configurations.Configuration.MapObjects | bsym/configuration.py:173-188 | Fails exactly when the object list's length differs from the configuration's. Otherwise the keys are exactly the distinct labels, and each value lists the objects at that label's positions, in order. |
| Configurations.MappedObjectsTotal | bsym/configuration.py:183-188 | The lengths of the grouped lists add up to the number of objects. |
| Configurations.ObjectsAtAsWritten | bsym/configuration.py:187 | With the identity test `k is key`, the grouping is the intended one for labels CPython caches (-5..256) and empty for every other label. |
| Configurations.LargeLabelLosesObjects | bsym/configuration.py:187 | For the label 300 and one object, the comprehension as written returns no object, while the intended grouping returns it. |

## Left out

- The numpy matrix machinery is not modelled: the subclassing, `__new__`, `__arrary_finalize__`, and the transposition in `from_tuple` and `from_vector`. A configuration is its label sequence, and `tolist` returns it.
- `Configurations.Matches`: requires both configurations to have the same length. Comparing configurations of different lengths falls to numpy's broadcasting rules, which are not modelled.
- Symmetry operations are defined outside this core. They are modelled as index mappings and are not built from matrices.
- `pprint` and `__repr__` only produce output and are not modelled.
- The `count` field set in `__init__` is never used by these operations and is not modelled.
- Generator laziness is not modelled. `unique_permutations` returns all its tuples as one sequence.
- Output order is not modelled. The distinct labels come from a Python `set`, so their order is hash order. The model takes them in order of first occurrence, and no contract depends on the order. `Configuration.MapObjects` likewise builds its map in that order; a map has no order, so the result is the same.
- The table of `all_permutations` is a sequence of (key, count) pairs in the dictionary's iteration order. Its keys are distinct only where a lemma needs it.
- The `assert` in `all_permutations` disappears under `python -O`. The model always performs the check and reports a mismatch as a `Failure`.
- `next_permutationS` also returns the list it changed. The model changes the array in place and returns only the flag.
- `Configurations.AsNumber`: is defined only for labels 0..9 and at least one label. A negative first label gives a negative number (`[-1, 1, 0]` reads as -110). A negative label anywhere after the first puts a `-` inside the digit string, and `int` raises. Labels of 10 or more make the encoding ambiguous, so different configurations can share a number. For an empty configuration `int('')` raises. `NumericEquivalents` carries the same 0..9 restriction and also needs at least one label, even with no operations, where Python would return `[]`. `SetLowestNumericRepresentation` carries the 0..9 restriction and reports an empty configuration as the error Python raises.
- `set_lowest_numeric_representation` overwrites the cache on every call that does not raise (configuration.py:88). A call that raises on `min([])` or `int('')` leaves it unchanged. The model does the same.
- `next_permutationS` compares strictly (`<` at permutations.py:45, `<=` at permutations.py:51). When it advances, the result is the least rearrangement greater than the input, so with repeated values it never stays in place. When it does not advance, the result is the input reversed, which is smaller than or equal to the input.
- `from_tuple` and `from_vector` return the transpose of a freshly built matrix (configuration.py:124, 140). Through numpy, that transposed object is not initialised by `__init__`, and the class's finalisation hook is misspelled `__arrary_finalize__` (configuration.py:19). So the returned object has no `lowest_numeric_representation` attribute (and no `count`) until `set_lowest_numeric_representation` runs. The model starts the cache at `None`, the value `__init__` assigns (configuration.py:16), and does not model reading the attribute before it exists.

## Findings

| source | as written | input that shows it | evidently intended | confidence | as-written member | corrected member |
|---|---|---|---|---|---|---|
| bsym/configuration.py:187 | `map_objects` keeps an object only when `k is key`. The two integers come from separate `tolist()` calls, so they are the same object only for the small integers CPython caches (-5..256). | labels `[300]`, objects `[7]` gives `{300: []}` | `k == key`, giving `{300: [7]}` | not executed | Configurations.LargeLabelLosesObjects | Configurations.Configuration.MapObjects |
