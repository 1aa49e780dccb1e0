# sortnet in Dafny

A model of sortnet, a bubble-sort **sorting network** generated by recursive
C++ templates, together with its runtime **size dispatcher**.

- `sortnet_swap<w>` is one pass of adjacent compare-exchanges. It swaps a
  neighbouring pair only when the left element is strictly greater, which
  carries the maximum of `[it, it+w)` to its last position.
- `bubble_sortnet<n>` runs a pass of width n and then the network of size
  n-1 on the same position. This is bubble sort fully unrolled, so every
  call costs n(n-1)/2 compare-exchanges whatever the data.
- `sortnet_switch<M>(first, L)` searches M, M-1, ..., 1 for the network whose
  size equals the runtime length L.
- `sortnet_sort(first, size)` rejects `size > max_size` with
  `std::invalid_argument` before touching the range; otherwise it calls the
  switch.

The repository holds two copies of this core, and both are modelled:

- the header `sortnet.h` (namespace `JMAL`), in module `Sortnet`;
- `sortnet.cpp` (namespace `detail` plus its own `sortnet_sort`), in module
  `Detail`.

Both are specified through module `Network`.

- `network.dfy` (module `Network`) writes the network down as data. A
  `Comparator` is a pair of positions. `Pass(lo, w)` and `Net(lo, n)` are the
  compare-exchanges of a pass and of a network. `Run(s, net)` is what those
  compare-exchanges do to a sequence of elements. `Selected` and `Dispatch`
  describe the descending search of the dispatcher. The lemmas prove the
  following about the size-n network:
  - it sorts the window `[lo, lo+n)` ascending;
  - it permutes the window's elements and touches no other position;
  - it leaves an already sorted window alone;
  - it always costs exactly n(n-1)/2 compare-exchanges.
- `sortnet.dfy` (module `Sortnet`) has one recursive method per template of
  the header, mutating an `array<int>` in place.
  - Each recursive template instantiation becomes a recursive call on the
    same array with the size reduced by one.
  - `SortnetSwap`, `BubbleSortnet`, `SortnetSwitch` and `SortnetSort`
    (`BubbleSortnet`, `SortnetSwitch` and `SortnetSort` also in `Detail`)
    return, as a ghost value, the compare-exchanges they performed. Their
    contracts tie those and the new array contents to the
    functions of `Network`. `CompareExchangeAt`, a single compare-exchange,
    returns none.
  - The runtime size is a `uint8_t` (`Uint8`). A caller's `size_t` length
    reaches it through `NarrowToUint8`, which reduces modulo 256.
- `detail.dfy` (module `Detail`) models the copy in `sortnet.cpp`.
  - Its `bubble_sortnet` has only a size-0 base case; `DetailNetIsNet` proves
    that it is still the same network.
  - Its `sortnet_sort` takes a `size_t` and tests the guard before any
    narrowing.
  - Its `sortnet_swap` is the header's code; `Sortnet.SortnetSwap` models
    both.

Elements are mathematical integers, and the iterator `first` is an index
into the array. A `Status` result stands for the exception: `Ok`, or
`InvalidArgument("size > max_size")`.

Two facts about the code shape the model:

- The header's guard `size <= max_size` (sortnet.h:127) tests the
  `uint8_t` parameter. A caller's `size_t` length of 256 or more has already
  been reduced modulo 256 at that point, so with the default `max_size` of
  255 it cannot be rejected (see Findings). With a smaller `max_size` the
  outcome depends on the length modulo 256: 400 against 100 becomes 144 and
  throws, while 300 becomes 44 and does not. The `size_t` entry point in
  `sortnet.cpp` rejects every length above its `max_size`.
- `sortnet_switch` silently does nothing when no size matches: when
  inputSize > netSize, or when inputSize is 0 and netSize is at least 1. The
  only reported error is `invalid_argument("size > max_size")` from
  `sortnet_sort`.

## Model

| member | source | states |
|---|---|---|
| Network.CompareExchange | sortnet.h:27-30 | The compare-exchange of positions i < j keeps the length of the sequence; what it does is stated by `CompareExchangeSpec`. |
| Network.CompareExchangeSpec | sortnet.h:27-30 | After a compare-exchange of i and j the element at i is at most the one at j. The two positions hold the same pair of values as before, nothing else moves, and the whole sequence is a permutation of the input. A pair already in order, equal elements included, is left unchanged, because the swap happens only on a strict `>`. |
| Network.Run | sortnet.h:25-32 | Performing a sequence of compare-exchanges, whose positions lie inside the array, in order keeps the length of the array. |
| Network.Pass | sortnet.h:20-67 | The compare-exchanges of a pass of width w from lo stay inside the window [lo, lo+w). |
| Network.PassComparators | sortnet.h:20-67 | A pass of width w is exactly the w-1 adjacent compare-exchanges (lo, lo+1), ..., (lo+w-2, lo+w-1) in that order, and none for widths 0 and 1. |
| Network.PassUnfold | sortnet.h:25-32 | Running a pass of width w >= 2 is one compare-exchange at (lo, lo+1) followed by the pass of width w-1 from lo+1. |
| Network.MaxStep | sortnet.h:27-31 | After the first compare-exchange, a bound on the rest of the window before and after the remaining pass is a bound on the whole window. |
| Network.PassMaxStep | sortnet.h:25-32 | The inductive step of the maximum property: what the width-(w-1) pass guarantees after the first compare-exchange gives the same guarantee for the width-w pass. |
| Network.PassMovesMaxToEnd | sortnet.h:23-32 | After a pass of width w >= 1, the element at lo+w-1 is at least every element the window held before the pass and every element it holds after it: the maximum has moved to the last position. |
| Network.PassEffect | sortnet.h:20-67 | A pass moves the window's maximum to its end (for w >= 1) and leaves every position outside [lo, lo+w) unchanged. |
| Network.Net | sortnet.h:69-100 | The compare-exchanges of the size-n network from lo stay inside [lo, lo+n). |
| Network.NetLength | sortnet.h:69-100 | The size-n network always has exactly n(n-1)/2 compare-exchanges, and none for sizes 0 and 1, whatever the data. |
| Network.RunAppend | sortnet.h:75-79 | Running a pass and then the smaller network is running their concatenation. |
| Network.RunPermutes | sortnet.h:27-30 | Any sequence of compare-exchanges only permutes the elements: the multiset of the array is unchanged. |
| Network.RunFrame | sortnet.h:20-100 | Compare-exchanges that lie inside [lo, hi) leave every position outside [lo, hi) unchanged. |
| Network.RunOnSorted | sortnet.h:27-30 | Compare-exchanges inside a window that is already ascending swap nothing. |
| Network.NetSorts | sortnet.h:73-79 | After the size-n network the window [lo, lo+n) is in ascending order, for every input. |
| Network.SortsWindowPermutesWindow | sortnet.h:73-79 | When the window is sorted in place, the window itself holds the same multiset of elements as before. |
| Network.NetSortsWindow | sortnet.h:69-100 | The size-n network sorts the window [lo, lo+n) ascending, leaves the array a permutation of the input, and changes no position outside the window. |
| Network.NetOnSortedIsIdentity | sortnet.h:69-80 | On a window that is already ascending, the network changes nothing. |
| Network.Selected | sortnet.h:102-114 | The descending search of the switch finds inputSize exactly when 1 <= inputSize <= netSize, or when both are 0; otherwise it finds nothing. |
| Network.Dispatch | sortnet.h:102-114 | The switch's effect is exactly the size-inputSize network when inputSize <= netSize; otherwise the elements are unchanged. |
| Sortnet.NarrowToUint8 | sortnet.h:125 | Narrowing a caller's length to `uint8_t` keeps values below 256 and otherwise yields the length modulo 256. |
| Sortnet.CompareExchangeAt | sortnet.h:27-30 | Swapping a[i] and a[i+1] only when a[i] > a[i+1] turns the array into the compare-exchange of (i, i+1) applied to its old contents. |
| Sortnet.SortnetSwap | sortnet.h:20-67 | The pass performs exactly the compare-exchanges (it+k, it+k+1), w-1 of them and none for w < 2. The array becomes the result of running them: the largest element of the window ends at it+w-1, widths 0 and 1 change nothing, the array is permuted, and nothing outside [it, it+w) moves. |
| Sortnet.BubbleSortnet | sortnet.h:69-100 | The network performs exactly n(n-1)/2 compare-exchanges, the size-n network, leaving a[first..first+n) ascending, the array a permutation of the input, and everything outside the window unchanged. |
| Sortnet.SortnetSwitch | sortnet.h:102-114 | The switch's effect is `Dispatch`. For inputSize <= netSize it performs exactly the size-inputSize network, inputSize(inputSize-1)/2 compare-exchanges, and sorts the window of length inputSize. Otherwise it performs none, and it changes nothing when inputSize < 2. |
| Sortnet.SortnetSort | sortnet.h:123-135 | The result is `InvalidArgument("size > max_size")`, with no compare-exchange and the array untouched, exactly when size > maxSize. Otherwise it is `Ok`, and the size-`size` network, size(size-1)/2 compare-exchanges, has sorted a[first..first+size) in place. |
| Sortnet.OversizeLengthLeavesRangeUnsorted | sortnet.h:124-134 | For a caller's length of 256 or more, the narrowed size always passes the default guard of 255 (the `uint8_t` type alone ensures it); 300 becomes 44. Running the network of the narrowed size leaves a strictly descending input of the caller's length unsorted. |
| Sortnet.SortOversizeRange | sortnet.h:124-134 | Calling the `uint8_t` entry point with the narrowed length of a strictly descending array of 256 or more elements returns `Ok`, and the array is not sorted afterwards. |
| Detail.DetailNet | sortnet.cpp:65-83 | The compare-exchanges of `detail::bubble_sortnet<n>`: the pass of width n, then the network of size n-1, with only size 0 empty. They stay inside [lo, lo+n), and `DetailNetIsNet` proves them equal to `Net`. |
| Detail.DetailNetIsNet | sortnet.cpp:65-83 | The network of `detail::bubble_sortnet`, with only a size-0 base case, is the header's network for every size. |
| Detail.BubbleSortnet | sortnet.cpp:65-83 | The network performs exactly n(n-1)/2 compare-exchanges, leaving a[first..first+n) ascending, the array a permutation of the input, and everything outside the window unchanged. |
| Detail.SortnetSwitch | sortnet.cpp:85-97 | The same effect as the header's switch: `Dispatch`. When inputSize <= netSize it performs the size-inputSize network, inputSize(inputSize-1)/2 compare-exchanges, and sorts the window. Otherwise it performs none, and it changes nothing when inputSize < 2. |
| Detail.SortnetSort | sortnet.cpp:107-119 | A `size_t` size greater than maxSize (300 against 255, say) yields `InvalidArgument("size > max_size")`, with no compare-exchange and the array untouched. Otherwise the lossless narrowing selects the size-`size` network, size(size-1)/2 compare-exchanges, which sorts a[first..first+size) in place. |

## Left out

- Element types: elements are `int`. The float and double instantiations are not modelled, because NaN breaks the total order that `>` relies on.
- Generic iterators: `FwdIt` becomes an index into an `array<int>`, and `std::next` becomes index + 1.
- The template mechanism: compile-time sizes are ordinary parameters, and the compile-time machinery is not modelled. That covers `CXX14_CONSTEXPR`, instantiation depth, and the `sortnet_switch<0>` instantiation that `net_size - 1` triggers. Compile time and code size are not modelled either.
- The fixed-size overload `sortnet_sort<FwdIt, size>(first)` (sortnet.h:117-121, sortnet.cpp:101-105) is not modelled. It passes two arguments to a one-argument constructor and cannot deduce `size`, so it can never be instantiated.
- `detail::sortnet_swap` (sortnet.cpp:20-63) is the same code as the header's, and `Sortnet.SortnetSwap` stands for both.
- Test and benchmark drivers are not modelled: sortnet.cpp:121-235, `test_sortnet.cpp` and `benchmark_sortnet.cpp`. They use random generation, wall-clock timing, allocation and console output.
- Performance claims such as "10x slower" are not modelled; only the number of compare-exchanges is.
- Network.Run: its contract states only the length. Its effect is stated by `RunPermutes`, `RunFrame`, `RunOnSorted` and `NetSortsWindow`.
- Network.CompareExchange: its contract states only the length. Its behaviour is stated by `CompareExchangeSpec`.

## Findings

| source | as written | input that shows it | evidently intended | confidence | as-written member | corrected member |
|---|---|---|---|---|---|---|
| sortnet.h:124-134 | The runtime size is a `uint8_t`, so a caller's `size_t` length is reduced modulo 256 before the `size <= max_size` guard. With the default maximum of 255 the guard can never fail, and only length mod 256 elements are sorted. | a strictly descending range of 300 elements: the size becomes 44, nothing is thrown, and positions 44 and 45 stay out of order | reject lengths above the maximum with `invalid_argument`, as the `size_t` version in sortnet.cpp:108-118 does | not executed; medium (it depends on callers passing a `size_t`, as the test driver does) | Sortnet.OversizeLengthLeavesRangeUnsorted, Sortnet.SortOversizeRange | Detail.SortnetSort |
