/**
 * The copy of the sorting network in sortnet.cpp (namespace detail) and its
 * runtime entry point `sortnet_sort(first, size)` with a `size_t` size.
 *
 * Its `sortnet_swap` is the same code as the header's and is modelled by
 * `Sortnet.SortnetSwap`. Its `bubble_sortnet` differs from the header's in
 * its base cases: only size 0 is specialised, so size 1 runs a width-1 pass
 * and then the size-0 network. Its entry point compares the caller's full
 * length with the maximum before anything is narrowed to `uint8_t`.
 */
module Detail {
  import opened Network
  import Sortnet

  /** The compare-exchanges of `detail::bubble_sortnet<n>`, whose only base case is n = 0. */
  function DetailNet(lo: nat, n: nat): (net: seq<Comparator>)
    ensures Within(net, lo, lo + n)
    decreases n
  {
    if n == 0 then [] else Pass(lo, n) + DetailNet(lo, n - 1)
  }

  /**
   * Without a size-1 specialisation the network is still the header's: the
   * size-1 case is a width-1 pass (no compare-exchange) followed by the
   * empty size-0 network.
   */
  lemma {:induction false} DetailNetIsNet(lo: nat, n: nat)
    ensures DetailNet(lo, n) == Net(lo, n)
    decreases n
  {
    if n == 1 {
      assert DetailNet(lo, 0) == [] && Pass(lo, 1) == [];
    } else if n >= 2 {
      DetailNetIsNet(lo, n - 1);
    }
  }

  /**
   * `detail::bubble_sortnet<n>{first}`: a pass of width n, then the network
   * of size n-1; only size 0 does nothing. It sorts a[first..first+n) with
   * exactly n(n-1)/2 compare-exchanges, keeps its elements and moves nothing
   * else.
   */
  method BubbleSortnet(a: array<int>, first: nat, n: nat) returns (ghost steps: seq<Comparator>)
    requires first + n <= a.Length
    modifies a
    ensures steps == DetailNet(first, n) && |steps| == n * (n - 1) / 2
    ensures Within(steps, 0, a.Length) && a[..] == Run(old(a[..]), steps)
    ensures SortsWindow(old(a[..]), a[..], first, first + n)
    decreases n
  {
    ghost var s := a[..];
    if n == 0 {
      steps := [];
    } else {
      var pass := Sortnet.SortnetSwap(a, first, n);
      var rest := BubbleSortnet(a, first, n - 1);
      steps := pass + rest;
      DetailNetIsNet(first, n - 1);
      RunAppend(s, pass, rest);
    }
    DetailNetIsNet(first, n);
    NetLength(first, n);
    NetSortsWindow(s, first, n);
  }

  /**
   * `detail::sortnet_switch<netSize>(first, inputSize)`: the same descending
   * search as the header's, running `detail::bubble_sortnet` on a match.
   */
  method SortnetSwitch(a: array<int>, first: nat, netSize: Sortnet.Uint8, inputSize: Sortnet.Uint8)
    returns (ghost steps: seq<Comparator>)
    requires inputSize <= netSize ==> first + inputSize <= a.Length
    modifies a
    ensures steps == if inputSize <= netSize then Net(first, inputSize) else []
    ensures |steps| == if inputSize <= netSize then inputSize * (inputSize - 1) / 2 else 0
    ensures Within(steps, 0, a.Length) && a[..] == Run(old(a[..]), steps)
    ensures a[..] == Dispatch(old(a[..]), first, netSize, inputSize)
    ensures inputSize <= netSize ==> SortsWindow(old(a[..]), a[..], first, first + inputSize)
    ensures inputSize > netSize || inputSize < 2 ==> a[..] == old(a[..])
    decreases netSize
  {
    ghost var s := a[..];
    if netSize == inputSize {
      steps := BubbleSortnet(a, first, netSize);
      DetailNetIsNet(first, netSize);
    } else if netSize > 1 {
      steps := SortnetSwitch(a, first, netSize - 1, inputSize);
    } else {
      steps := [];
    }
    if inputSize <= netSize {
      NetLength(first, inputSize);
      NetSortsWindow(s, first, inputSize);
    }
  }

  /**
   * `sortnet_sort<FwdIt, maxSize>(first, size)` with a `size_t` size: throws
   * `invalid_argument("size > max_size")` without touching the array when
   * size > maxSize (300 against the default 255, say); otherwise narrows
   * size to `uint8_t`, which loses nothing because size <= maxSize <= 255,
   * and sorts a[first..first+size) through the dispatcher.
   */
  method SortnetSort(a: array<int>, first: nat, size: nat, maxSize: Sortnet.Uint8 := Sortnet.DefaultMaxSize)
    returns (r: Status, ghost steps: seq<Comparator>)
    requires size <= maxSize ==> first + size <= a.Length
    modifies a
    ensures steps == if r.Ok? then Net(first, size) else []
    ensures |steps| == if r.Ok? then size * (size - 1) / 2 else 0
    ensures r == if size <= maxSize then Ok else InvalidArgument("size > max_size")
    ensures r.Ok? ==> a[..] == Run(old(a[..]), Net(first, size))
    ensures r.Ok? ==> SortsWindow(old(a[..]), a[..], first, first + size)
    ensures r.InvalidArgument? ==> a[..] == old(a[..])
  {
    if size <= maxSize {
      var narrowed := Sortnet.NarrowToUint8(size);
      assert narrowed == size;
      steps := SortnetSwitch(a, first, maxSize, narrowed);
      r := Ok;
    } else {
      r := InvalidArgument("size > max_size");
      steps := [];
    }
  }
}
