/**
 * The header copy of the sorting network (namespace JMAL): the templates
 * `sortnet_swap<size>`, `bubble_sortnet<size>` and `sortnet_switch<net_size>`,
 * and the runtime entry point `sortnet_sort(first, size)` whose size is a
 * `uint8_t`.
 *
 * A template's compile-time size becomes an ordinary parameter, the iterator
 * `first` becomes an index into an array of ints, and each recursive template
 * instantiation becomes a recursive call on the same array. `SortnetSwap`,
 * `BubbleSortnet`, `SortnetSwitch` and `SortnetSort` return, as a ghost value,
 * the compare-exchanges they performed, so that the number of comparisons is
 * part of their contracts; `CompareExchangeAt` is a single compare-exchange
 * and returns none.
 */
module Sortnet {
  import opened Network

  /** The C++ `uint8_t`. */
  type Uint8 = x: nat | x < 256

  /** The default of the template parameter `max_size`. */
  const DefaultMaxSize: Uint8 := 255

  /**
   * The implicit conversion of an unsigned argument (such as a `size_t`) to a
   * `uint8_t` parameter: values below 256 are kept, larger ones are reduced
   * modulo 256.
   */
  function NarrowToUint8(n: nat): (r: Uint8)
    ensures n < 256 ==> r == n
    ensures (n - r) % 256 == 0
  {
    if n < 256 then n else n % 256
  }

  /**
   * The compare-exchange both pass templates begin with,
   * `if (*it > *std::next(it)) std::swap(...)`: swaps a[i] and a[i+1] only
   * when a[i] is strictly greater.
   */
  method CompareExchangeAt(a: array<int>, i: nat)
    requires i + 1 < a.Length
    modifies a
    ensures a[..] == CompareExchange(old(a[..]), Comparator(i, i + 1))
  {
    if a[i] > a[i + 1] {
      a[i], a[i + 1] := a[i + 1], a[i];
    }
  }

  /**
   * `sortnet_swap<w>{it}`: one pass of adjacent compare-exchanges over
   * a[it..it+w), which leaves the largest of those elements at a[it+w-1].
   * Widths 0 and 1 compare nothing; width 2 is the last compare-exchange.
   */
  method SortnetSwap(a: array<int>, it: nat, w: nat) returns (ghost steps: seq<Comparator>)
    requires it + w <= a.Length
    modifies a
    ensures steps == Pass(it, w) && |steps| == if w < 2 then 0 else w - 1
    ensures forall k :: 0 <= k < |steps| ==> steps[k] == Comparator(it + k, it + k + 1)
    ensures Within(steps, 0, a.Length) && a[..] == Run(old(a[..]), steps)
    ensures w >= 1 ==> AtMost(old(a[..]), it, it + w, a[it + w - 1]) && AtMost(a[..], it, it + w, a[it + w - 1])
    ensures w < 2 ==> a[..] == old(a[..])
    ensures multiset(a[..]) == multiset(old(a[..]))
    ensures forall k :: 0 <= k < a.Length && !(it <= k < it + w) ==> a[k] == old(a[k])
    decreases w
  {
    ghost var s := a[..];
    if w >= 2 {
      CompareExchangeAt(a, it);
      ghost var rest: seq<Comparator> := [];
      if w > 2 {
        rest := SortnetSwap(a, it + 1, w - 1);
      }
      steps := [Comparator(it, it + 1)] + rest;
      PassUnfold(s, it, w);
    } else {
      steps := [];
    }
    PassEffect(s, it, w);
    PassComparators(it, w);
    RunPermutes(s, steps);
  }

  /**
   * `bubble_sortnet<n>{first}`: a pass of width n, then the network of size
   * n-1 on the same position; sizes 0 and 1 do nothing. Afterwards
   * a[first..first+n) is sorted ascending and holds the same elements, no
   * other element has moved, and exactly n(n-1)/2 compare-exchanges were made.
   */
  method BubbleSortnet(a: array<int>, first: nat, n: Uint8) returns (ghost steps: seq<Comparator>)
    requires first + n <= a.Length
    modifies a
    ensures steps == Net(first, n) && |steps| == n * (n - 1) / 2
    ensures Within(steps, 0, a.Length) && a[..] == Run(old(a[..]), steps)
    ensures SortsWindow(old(a[..]), a[..], first, first + n)
    decreases n
  {
    ghost var s := a[..];
    if n >= 2 {
      var pass := SortnetSwap(a, first, n);
      var rest := BubbleSortnet(a, first, n - 1);
      steps := pass + rest;
      RunAppend(s, pass, rest);
    } else {
      steps := [];
    }
    NetLength(first, n);
    NetSortsWindow(s, first, n);
  }

  /**
   * `sortnet_switch<netSize>(first, inputSize)`: compares netSize with
   * inputSize and runs the network of that size on a match; otherwise, while
   * netSize > 1, tries netSize-1. When inputSize <= netSize the effect is the
   * size-inputSize network; otherwise the array is left unchanged.
   */
  method SortnetSwitch(a: array<int>, first: nat, netSize: Uint8, inputSize: Uint8)
    returns (ghost steps: seq<Comparator>)
    requires inputSize <= netSize ==> first + inputSize <= a.Length
    modifies a
    ensures steps == if inputSize <= netSize then Net(first, inputSize) else []
    ensures |steps| == if inputSize <= netSize then inputSize * (inputSize - 1) / 2 else 0
    ensures Within(steps, 0, a.Length) && a[..] == Run(old(a[..]), steps)
    ensures a[..] == Dispatch(old(a[..]), first, netSize, inputSize)
    ensures inputSize <= netSize ==> SortsWindow(old(a[..]), a[..], first, first + inputSize)
    ensures inputSize > netSize || inputSize < 2 ==> a[..] == old(a[..])
    decreases netSize
  {
    ghost var s := a[..];
    if netSize == inputSize {
      steps := BubbleSortnet(a, first, netSize);
    } else if netSize > 1 {
      steps := SortnetSwitch(a, first, netSize - 1, inputSize);
    } else {
      steps := [];
    }
    if inputSize <= netSize {
      NetLength(first, inputSize);
      NetSortsWindow(s, first, inputSize);
    }
  }

  /**
   * `sortnet_sort<FwdIt, maxSize>(first, size)` with a `uint8_t` size: throws
   * `invalid_argument("size > max_size")` without touching the array when
   * size > maxSize, and otherwise sorts a[first..first+size) through the
   * dispatcher. With the default maxSize of 255 the guard never fails.
   */
  method SortnetSort(a: array<int>, first: nat, size: Uint8, maxSize: Uint8 := DefaultMaxSize)
    returns (r: Status, ghost steps: seq<Comparator>)
    requires size <= maxSize ==> first + size <= a.Length
    modifies a
    ensures steps == if r.Ok? then Net(first, size) else []
    ensures |steps| == if r.Ok? then size * (size - 1) / 2 else 0
    ensures r == if size <= maxSize then Ok else InvalidArgument("size > max_size")
    ensures r.Ok? ==> a[..] == Run(old(a[..]), Net(first, size))
    ensures r.Ok? ==> SortsWindow(old(a[..]), a[..], first, first + size)
    ensures r.InvalidArgument? ==> a[..] == old(a[..])
  {
    if size <= maxSize {
      steps := SortnetSwitch(a, first, maxSize, size);
      r := Ok;
    } else {
      r := InvalidArgument("size > max_size");
      steps := [];
    }
  }

  /**
   * The guard of `SortnetSort` tests the narrowed `uint8_t`, not the caller's
   * length. A caller whose `size_t` length is 256 or more reaches the
   * parameter with that length modulo 256 (300 becomes 44): the guard against
   * the default maximum passes, nothing is thrown, and only that many
   * elements are sorted, so a strictly descending range of the caller's
   * length is left unsorted. The first ensures holds by the `Uint8` result
   * type of `NarrowToUint8` alone: no narrowed length can exceed 255, which
   * is why the default guard is dead code.
   */
  lemma OversizeLengthLeavesRangeUnsorted(s: seq<int>)
    requires |s| > DefaultMaxSize
    requires forall k :: 0 < k < |s| ==> s[k - 1] > s[k]
    ensures NarrowToUint8(|s|) <= DefaultMaxSize
    ensures |s| == 300 ==> NarrowToUint8(|s|) == 44
    ensures Within(Net(0, NarrowToUint8(|s|)), 0, |s|)
    ensures !SortedRange(Run(s, Net(0, NarrowToUint8(|s|))), 0, |s|)
  {
    var m := NarrowToUint8(|s|);
    assert |s| == 256 ==> m == 0;
    assert m + 1 < |s|;
    var t := Run(s, Net(0, m));
    RunFrame(s, Net(0, m), 0, m);
    assert t[m] == s[m] > s[m + 1] == t[m + 1];
  }

  /**
   * A caller that passes the length of a whole array of 256 or more strictly
   * descending elements to the `uint8_t` entry point: the call returns `Ok`,
   * and the array is not sorted afterwards.
   */
  method SortOversizeRange(a: array<int>) returns (r: Status)
    requires a.Length > DefaultMaxSize
    requires forall k :: 0 < k < a.Length ==> a[k - 1] > a[k]
    modifies a
    ensures r == Ok
    ensures !SortedRange(a[..], 0, a.Length)
  {
    ghost var s := a[..];
    var size := NarrowToUint8(a.Length);
    ghost var steps;
    r, steps := SortnetSort(a, 0, size);
    OversizeLengthLeavesRangeUnsorted(s);
  }
}
