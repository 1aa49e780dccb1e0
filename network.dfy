/**
 * The bubble-sort sorting network as data.
 *
 * The C++ templates unroll bubble sort into straight-line code: a fixed
 * sequence of compare-exchanges between neighbouring positions. This module
 * writes that sequence down (`Pass`, `Net`), says what running a sequence of
 * compare-exchanges does to the elements (`Run`), and proves that the
 * network of size n sorts n elements, permutes them, leaves every other
 * position alone and always costs n(n-1)/2 compare-exchanges. It also
 * describes the descending size search of the runtime dispatcher
 * (`Selected`, `Dispatch`). The methods of modules Sortnet and Detail,
 * which mutate an array in place, are specified by these functions.
 */
module Network {

  datatype Option<T> = None | Some(value: T)

  /** What the runtime entry point reports: success, or the exception it throws. */
  datatype Status = Ok | InvalidArgument(what: string)

  /** A compare-exchange between positions i and j: swap when the element at i is greater. */
  datatype Comparator = Comparator(i: nat, j: nat)

  /** Every comparator of `net` has i < j and addresses only positions in [lo, hi). */
  ghost predicate Within(net: seq<Comparator>, lo: nat, hi: nat) {
    forall k :: 0 <= k < |net| ==> lo <= net[k].i < net[k].j < hi
  }

  /** s[lo..hi) is in ascending order. */
  ghost predicate SortedRange(s: seq<int>, lo: nat, hi: nat)
    requires lo <= hi <= |s|
  {
    forall p, q :: lo <= p < q < hi ==> s[p] <= s[q]
  }

  /** Every element of s[lo..hi) is at most b. */
  ghost predicate AtMost(s: seq<int>, lo: nat, hi: nat, b: int)
    requires lo <= hi <= |s|
  {
    forall k :: lo <= k < hi ==> s[k] <= b
  }

  /**
   * t is s with its window [lo, hi) sorted: the window is ascending, t is a
   * permutation of s, and nothing outside the window has changed (so the
   * window holds the same elements as before, see `SortsWindowPermutesWindow`).
   */
  ghost predicate SortsWindow(s: seq<int>, t: seq<int>, lo: nat, hi: nat)
    requires lo <= hi <= |s| == |t|
  {
    && SortedRange(t, lo, hi)
    && multiset(t) == multiset(s)
    && forall k :: 0 <= k < |s| && !(lo <= k < hi) ==> t[k] == s[k]
  }

  /** One compare-exchange, `if (*it > *next) std::swap(*it, *next)`; see `CompareExchangeSpec`. */
  function CompareExchange(s: seq<int>, c: Comparator): (r: seq<int>)
    requires c.i < c.j < |s|
    ensures |r| == |s|
  {
    if s[c.i] > s[c.j] then s[c.i := s[c.j]][c.j := s[c.i]] else s
  }

  /**
   * What a compare-exchange does: afterwards the smaller of the two elements
   * is at i and the larger at j; elements that are already in order, equal
   * ones included, are left where they are; nothing else moves, and the
   * result is a permutation of the input.
   */
  lemma CompareExchangeSpec(s: seq<int>, c: Comparator)
    requires c.i < c.j < |s|
    ensures CompareExchange(s, c)[c.i] <= CompareExchange(s, c)[c.j]
    ensures multiset{CompareExchange(s, c)[c.i], CompareExchange(s, c)[c.j]} == multiset{s[c.i], s[c.j]}
    ensures s[c.i] <= s[c.j] ==> CompareExchange(s, c) == s
    ensures forall k :: 0 <= k < |s| && k != c.i && k != c.j ==> CompareExchange(s, c)[k] == s[k]
    ensures multiset(CompareExchange(s, c)) == multiset(s)
  {
  }

  /** The elements after the compare-exchanges of `net` are performed in order. */
  function Run(s: seq<int>, net: seq<Comparator>): (r: seq<int>)
    requires Within(net, 0, |s|)
    ensures |r| == |s|
    decreases |net|
  {
    if net == [] then s else Run(CompareExchange(s, net[0]), net[1..])
  }

  /**
   * The compare-exchanges of `sortnet_swap<w>` started at position lo: one
   * at (lo, lo+1), then the pass of width w-1 from lo+1; none for w = 0 or 1.
   */
  function Pass(lo: nat, w: nat): (net: seq<Comparator>)
    ensures Within(net, lo, lo + w)
    decreases w
  {
    if w < 2 then [] else [Comparator(lo, lo + 1)] + Pass(lo + 1, w - 1)
  }

  /**
   * The compare-exchanges of `bubble_sortnet<n>` started at position lo: a
   * pass of width n, then the network of size n-1 at the same position.
   * Sizes 0 and 1 have none. It touches only positions in [lo, lo+n).
   */
  function Net(lo: nat, n: nat): (net: seq<Comparator>)
    ensures Within(net, lo, lo + n)
    decreases n
  {
    if n < 2 then [] else Pass(lo, n) + Net(lo, n - 1)
  }

  /**
   * The network size `sortnet_switch<netSize>` selects for `inputSize`: it
   * compares netSize, netSize-1, ..., 1 with inputSize and stops at the first
   * match. The match is inputSize itself whenever 1 <= inputSize <= netSize
   * (or inputSize == netSize == 0); otherwise nothing matches.
   */
  function Selected(netSize: nat, inputSize: nat): (r: Option<nat>)
    ensures r == if inputSize <= netSize && (1 <= inputSize || netSize == 0)
                 then Some(inputSize) else None
    decreases netSize
  {
    if netSize == inputSize then Some(netSize)
    else if netSize > 1 then Selected(netSize - 1, inputSize)
    else None
  }

  /**
   * The elements after `sortnet_switch<netSize>(first, inputSize)`: the
   * selected network is run, and nothing happens when none is selected.
   * Its effect is exactly that of the size-inputSize network whenever
   * inputSize <= netSize (for inputSize = 0 that network is empty).
   */
  function Dispatch(s: seq<int>, first: nat, netSize: nat, inputSize: nat): (r: seq<int>)
    requires inputSize <= netSize ==> first + inputSize <= |s|
    ensures r == if inputSize <= netSize then Run(s, Net(first, inputSize)) else s
  {
    match Selected(netSize, inputSize)
    case Some(n) => Run(s, Net(first, n))
    case None => s
  }

  /**
   * A pass of width w is the w-1 adjacent compare-exchanges
   * (lo, lo+1), (lo+1, lo+2), ..., (lo+w-2, lo+w-1), in that order.
   */
  lemma {:induction false} PassComparators(lo: nat, w: nat)
    ensures |Pass(lo, w)| == if w < 2 then 0 else w - 1
    ensures forall k :: 0 <= k < |Pass(lo, w)| ==> Pass(lo, w)[k] == Comparator(lo + k, lo + k + 1)
    decreases w
  {
    if w >= 2 {
      PassComparators(lo + 1, w - 1);
      forall k | 1 <= k < w - 1
        ensures Pass(lo, w)[k] == Comparator(lo + k, lo + k + 1)
      {
        assert Pass(lo, w)[k] == Pass(lo + 1, w - 1)[k - 1];
      }
    }
  }

  /**
   * The network of size n always has exactly n(n-1)/2 compare-exchanges,
   * whatever the data; none for n = 0 or n = 1.
   */
  lemma {:induction false} NetLength(lo: nat, n: nat)
    ensures |Net(lo, n)| == n * (n - 1) / 2
    decreases n
  {
    if n >= 2 {
      NetLength(lo, n - 1);
      PassComparators(lo, n);
      assert (n - 1) + (n - 1) * (n - 2) / 2 == n * (n - 1) / 2;
    }
  }

  /**
   * Concatenating two networks within [lo, hi) gives a network within [lo, hi).
   * Stated separately so that RunAppend's proof stays small for the solver.
   */
  lemma WithinAppend(p: seq<Comparator>, q: seq<Comparator>, lo: nat, hi: nat)
    requires Within(p, lo, hi) && Within(q, lo, hi)
    ensures Within(p + q, lo, hi)
  {
  }

  /** Running two networks one after the other is running their concatenation. */
  lemma {:induction false} RunAppend(s: seq<int>, p: seq<Comparator>, q: seq<Comparator>)
    requires Within(p, 0, |s|) && Within(q, 0, |s|)
    ensures Within(p + q, 0, |s|)
    ensures Run(s, p + q) == Run(Run(s, p), q)
    decreases |p|
  {
    WithinAppend(p, q, 0, |s|);
    if p == [] {
      assert p + q == q;
    } else {
      assert (p + q)[0] == p[0];
      assert (p + q)[1..] == p[1..] + q;
      RunAppend(CompareExchange(s, p[0]), p[1..], q);
    }
  }

  /** Any network of compare-exchanges only permutes the elements. */
  lemma {:induction false} RunPermutes(s: seq<int>, net: seq<Comparator>)
    requires Within(net, 0, |s|)
    ensures multiset(Run(s, net)) == multiset(s)
    decreases |net|
  {
    if net != [] {
      CompareExchangeSpec(s, net[0]);
      RunPermutes(CompareExchange(s, net[0]), net[1..]);
    }
  }

  /** A network whose comparators lie in [lo, hi) leaves every other position unchanged. */
  lemma {:induction false} RunFrame(s: seq<int>, net: seq<Comparator>, lo: nat, hi: nat)
    requires Within(net, lo, hi) && hi <= |s|
    ensures Within(net, 0, |s|)
    ensures forall k :: 0 <= k < |s| && !(lo <= k < hi) ==> Run(s, net)[k] == s[k]
    decreases |net|
  {
    if net != [] {
      CompareExchangeSpec(s, net[0]);
      RunFrame(CompareExchange(s, net[0]), net[1..], lo, hi);
    }
  }

  /** A network whose comparators lie in a sorted window [lo, hi) swaps nothing. */
  lemma {:induction false} RunOnSorted(s: seq<int>, net: seq<Comparator>, lo: nat, hi: nat)
    requires Within(net, lo, hi) && lo <= hi <= |s|
    requires SortedRange(s, lo, hi)
    ensures Within(net, 0, |s|)
    ensures Run(s, net) == s
    decreases |net|
  {
    if net != [] {
      CompareExchangeSpec(s, net[0]);
      assert CompareExchange(s, net[0]) == s;
      RunOnSorted(s, net[1..], lo, hi);
    }
  }

  /** Two sequences that are permutations of each other and agree outside [lo, hi) permute [lo, hi). */
  lemma PermutedWindow(s: seq<int>, t: seq<int>, lo: nat, hi: nat)
    requires lo <= hi <= |s| == |t|
    requires multiset(s) == multiset(t)
    requires forall k :: 0 <= k < |s| && !(lo <= k < hi) ==> s[k] == t[k]
    ensures multiset(s[lo..hi]) == multiset(t[lo..hi])
  {
    assert s == s[..lo] + s[lo..hi] + s[hi..];
    assert t == t[..lo] + t[lo..hi] + t[hi..];
    assert s[..lo] == t[..lo];
    assert s[hi..] == t[hi..];
    assert multiset(s) == multiset(s[..lo]) + multiset(s[lo..hi]) + multiset(s[hi..]);
    assert multiset(t) == multiset(t[..lo]) + multiset(t[lo..hi]) + multiset(t[hi..]);
    assert multiset(s[lo..hi]) == multiset(s) - multiset(s[..lo]) - multiset(s[hi..]);
    assert multiset(t[lo..hi]) == multiset(t) - multiset(t[..lo]) - multiset(t[hi..]);
  }

  /** A bound on every element of a window is a bound on every element of any permutation of it. */
  lemma BoundOfPermutedWindow(u: seq<int>, t: seq<int>, lo: nat, hi: nat, b: int)
    requires lo <= hi <= |u| && hi <= |t|
    requires multiset(u[lo..hi]) == multiset(t[lo..hi])
    requires AtMost(u, lo, hi, b)
    ensures AtMost(t, lo, hi, b)
  {
    forall k | lo <= k < hi
      ensures t[k] <= b
    {
      assert t[k] == t[lo..hi][k - lo];
      assert t[k] in multiset(u[lo..hi]);
      var j :| 0 <= j < hi - lo && u[lo..hi][j] == t[k];
      assert u[lo + j] == t[k];
    }
  }

  /**
   * The first compare-exchange of a pass of width w >= 2 is at (lo, lo+1); the rest is the pass from lo+1.
   * Dafny can prove this unaided; the asserts and the lemma keep the callers' proofs small.
   */
  lemma PassUnfold(s: seq<int>, lo: nat, w: nat)
    requires 2 <= w && lo + w <= |s|
    ensures Within(Pass(lo, w), 0, |s|) && Within(Pass(lo + 1, w - 1), 0, |s|)
    ensures Run(s, Pass(lo, w)) == Run(CompareExchange(s, Comparator(lo, lo + 1)), Pass(lo + 1, w - 1))
  {
    assert Pass(lo, w)[0] == Comparator(lo, lo + 1);
    assert Pass(lo, w)[1..] == Pass(lo + 1, w - 1);
  }

  /**
   * One step of a pass of width w: if the compare-exchange at (lo, lo+1)
   * turned s into u, and `top` bounds u[lo+1..lo+w) and t[lo+1..lo+w) while
   * t[lo] == u[lo], then `top` bounds s[lo..lo+w) and t[lo..lo+w).
   */
  lemma MaxStep(s: seq<int>, u: seq<int>, t: seq<int>, lo: nat, w: nat, top: int)
    requires 2 <= w && lo + w <= |s| == |u| == |t|
    requires u == CompareExchange(s, Comparator(lo, lo + 1))
    requires AtMost(u, lo + 1, lo + 1 + (w - 1), top) && AtMost(t, lo + 1, lo + 1 + (w - 1), top)
    requires t[lo] == u[lo]
    ensures AtMost(s, lo, lo + w, top) && AtMost(t, lo, lo + w, top)
  {
    var hi := lo + w;
    assert lo + 1 + (w - 1) == hi;
    CompareExchangeSpec(s, Comparator(lo, lo + 1));
    assert u[lo] <= u[lo + 1] <= top;
    forall k | lo <= k < hi
      ensures s[k] <= top
    {
      if k >= lo + 2 {
        assert s[k] == u[k];
      }
    }
  }

  /**
   * The inductive step of `PassMovesMaxToEnd`: what the pass of width w-1
   * from lo+1 guarantees for u, the array after the first compare-exchange,
   * gives the same guarantee for the pass of width w from lo on s. The index
   * lo + 1 + (w - 1) - 1 (equal to lo + w - 1) is written as it appears in
   * the recursive call's postcondition, so that the two terms match.
   */
  lemma PassMaxStep(s: seq<int>, u: seq<int>, lo: nat, w: nat)
    requires 2 <= w && lo + w <= |s|
    requires u == CompareExchange(s, Comparator(lo, lo + 1))
    requires Within(Pass(lo + 1, w - 1), 0, |u|)
    requires AtMost(u, lo + 1, lo + 1 + (w - 1), Run(u, Pass(lo + 1, w - 1))[lo + 1 + (w - 1) - 1])
    requires AtMost(Run(u, Pass(lo + 1, w - 1)), lo + 1, lo + 1 + (w - 1), Run(u, Pass(lo + 1, w - 1))[lo + 1 + (w - 1) - 1])
    ensures Within(Pass(lo, w), 0, |s|)
    ensures AtMost(s, lo, lo + w, Run(s, Pass(lo, w))[lo + w - 1])
    ensures AtMost(Run(s, Pass(lo, w)), lo, lo + w, Run(s, Pass(lo, w))[lo + w - 1])
  {
    var rest := Pass(lo + 1, w - 1);
    PassUnfold(s, lo, w);
    var t := Run(u, rest);
    var top := t[lo + 1 + (w - 1) - 1];
    assert lo + 1 + (w - 1) - 1 == lo + w - 1;
    RunFrame(u, rest, lo + 1, lo + w);
    MaxStep(s, u, t, lo, w, top);
  }

  /**
   * A pass of width w >= 1 over [lo, lo+w) leaves at lo+w-1 an element at
   * least as large as every element the window held before and holds after:
   * the maximum moves to the end of the window.
   */
  lemma {:induction false} PassMovesMaxToEnd(s: seq<int>, lo: nat, w: nat)
    requires 1 <= w && lo + w <= |s|
    ensures Within(Pass(lo, w), 0, |s|)
    ensures AtMost(s, lo, lo + w, Run(s, Pass(lo, w))[lo + w - 1])
    ensures AtMost(Run(s, Pass(lo, w)), lo, lo + w, Run(s, Pass(lo, w))[lo + w - 1])
    decreases w
  {
    if w == 1 {
      assert Pass(lo, w) == [];
    } else {
      var u := CompareExchange(s, Comparator(lo, lo + 1));
      PassMovesMaxToEnd(u, lo + 1, w - 1);
      PassMaxStep(s, u, lo, w);
    }
  }

  /**
   * What a pass of width w does to s[lo..lo+w): its maximum ends at lo+w-1,
   * and no position outside the window changes.
   */
  lemma PassEffect(s: seq<int>, lo: nat, w: nat)
    requires lo + w <= |s|
    ensures Within(Pass(lo, w), 0, |s|)
    ensures w >= 1 ==> AtMost(s, lo, lo + w, Run(s, Pass(lo, w))[lo + w - 1])
    ensures w >= 1 ==> AtMost(Run(s, Pass(lo, w)), lo, lo + w, Run(s, Pass(lo, w))[lo + w - 1])
    ensures forall k :: 0 <= k < |s| && !(lo <= k < lo + w) ==> Run(s, Pass(lo, w))[k] == s[k]
  {
    if w >= 1 {
      PassMovesMaxToEnd(s, lo, w);
    }
    RunFrame(s, Pass(lo, w), lo, lo + w);
  }

  /**
   * A bound on a window is a bound on each of its prefixes.
   * Stated separately so that SortedExtend's proof stays small for the solver.
   */
  lemma AtMostNarrow(s: seq<int>, lo: nat, hi: nat, mid: nat, b: int)
    requires lo <= mid <= hi <= |s|
    requires AtMost(s, lo, hi, b)
    ensures AtMost(s, lo, mid, b)
  {
  }

  /**
   * The last step of the sorting proof: if `top` bounds u[lo..hi), the window
   * t[lo..last) is sorted and is a permutation of u[lo..last), and
   * t[last] == top where last = hi-1, then t[lo..hi) is sorted.
   */
  lemma SortedExtend(u: seq<int>, t: seq<int>, lo: nat, last: nat, hi: nat, top: int)
    requires lo <= last && last + 1 == hi && hi <= |u| == |t|
    requires AtMost(u, lo, hi, top) && t[last] == top
    requires SortedRange(t, lo, last)
    requires multiset(u) == multiset(t)
    requires forall k :: 0 <= k < |u| && !(lo <= k < last) ==> u[k] == t[k]
    ensures SortedRange(t, lo, hi)
  {
    PermutedWindow(u, t, lo, last);
    AtMostNarrow(u, lo, hi, last, top);
    BoundOfPermutedWindow(u, t, lo, last, top);
    forall p, q | lo <= p < q < hi
      ensures t[p] <= t[q]
    {
      if q < last {
        assert t[p] <= t[q];
      }
    }
  }

  /** The network of size n sorts the window [lo, lo+n) ascending. */
  lemma {:induction false} NetSorts(s: seq<int>, lo: nat, n: nat)
    requires lo + n <= |s|
    ensures Within(Net(lo, n), 0, |s|)
    ensures SortedRange(Run(s, Net(lo, n)), lo, lo + n)
    decreases n
  {
    if n < 2 {
      assert Net(lo, n) == [];
    } else {
      var m := n - 1;
      var pass, rest := Pass(lo, n), Net(lo, m);
      RunAppend(s, pass, rest);
      var u := Run(s, pass);
      var t := Run(u, rest);
      PassMovesMaxToEnd(s, lo, n);
      NetSorts(u, lo, m);
      RunFrame(u, rest, lo, lo + m);
      RunPermutes(u, rest);
      SortedExtend(u, t, lo, lo + m, lo + n, u[lo + n - 1]);
    }
  }

  /** A window sort permutes the window itself: [lo, hi) holds the same elements afterwards. */
  lemma SortsWindowPermutesWindow(s: seq<int>, t: seq<int>, lo: nat, hi: nat)
    requires lo <= hi <= |s| == |t|
    requires SortsWindow(s, t, lo, hi)
    ensures multiset(t[lo..hi]) == multiset(s[lo..hi])
  {
    PermutedWindow(s, t, lo, hi);
  }

  /**
   * A network whose comparators lie in [lo, hi) and whose output is sorted
   * on [lo, hi) sorts that window in the sense of `SortsWindow`.
   */
  lemma SortedRunSortsWindow(s: seq<int>, net: seq<Comparator>, lo: nat, hi: nat)
    requires Within(net, lo, hi) && lo <= hi <= |s|
    requires SortedRange(Run(s, net), lo, hi)
    ensures Within(net, 0, |s|)
    ensures SortsWindow(s, Run(s, net), lo, hi)
  {
    RunFrame(s, net, lo, hi);
    RunPermutes(s, net);
  }

  /**
   * The network of size n is a sorting network for the window [lo, lo+n):
   * it sorts the window, permutes its elements and changes nothing else.
   */
  lemma NetSortsWindow(s: seq<int>, lo: nat, n: nat)
    requires lo + n <= |s|
    ensures Within(Net(lo, n), 0, |s|)
    ensures SortsWindow(s, Run(s, Net(lo, n)), lo, lo + n)
  {
    NetSorts(s, lo, n);
    SortedRunSortsWindow(s, Net(lo, n), lo, lo + n);
  }

  /** On a window that is already sorted the network swaps nothing. */
  lemma NetOnSortedIsIdentity(s: seq<int>, lo: nat, n: nat)
    requires lo + n <= |s|
    requires SortedRange(s, lo, lo + n)
    ensures Within(Net(lo, n), 0, |s|)
    ensures Run(s, Net(lo, n)) == s
  {
    RunOnSorted(s, Net(lo, n), lo, lo + n);
  }
}
