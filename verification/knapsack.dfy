/** The 0/1 knapsack benchmark: branch-and-bound over items sorted by
    decreasing value/weight ratio, pruning a branch whose bound falls below
    the best value found so far (the global `best_so_far`). The recursion of
    the serial solver is specified by the function `Search`, which threads
    `best_so_far` through explicitly; `BestValue` is the optimum the solver
    is proved to reach. */
module Knapsack {
  import opened Bots

  /** `struct item`. */
  datatype Item = Item(value: int, weight: int)

  /** Items as the solver expects them: non-negative values, positive weights. */
  ghost predicate ValidItems(e: seq<Item>)
  {
    forall k :: 0 <= k < |e| ==> e[k].value >= 0 && e[k].weight > 0
  }

  function Max(a: int, b: int): int
  {
    if a >= b then a else b
  }

  /** C's `/` on `int`, which truncates toward zero. */
  function CDiv(a: int, b: int): (q: int)
    requires b != 0
    ensures a >= 0 && b > 0 ==> q == a / b
    ensures a < 0 && b > 0 ==> q == -((-a) / b)
  {
    if (a >= 0) == (b > 0) then (if a >= 0 then a / b else (-a) / (-b))
    else -((if a >= 0 then a else -a) / (if b > 0 then b else -b))
  }

  // ---------------------------------------------------------------------
  // The ratio comparator used to sort the items

  /** The exact value/weight ratio of an item (the source computes it in
      `double`). */
  ghost function Ratio(it: Item): real
    requires it.weight > 0
  {
    it.value as real / it.weight as real
  }

  lemma RatioCross(a: Item, b: Item)
    requires a.weight > 0 && b.weight > 0
    ensures Ratio(a) > Ratio(b) <==> a.value * b.weight > b.value * a.weight
    ensures Ratio(a) == Ratio(b) <==> a.value * b.weight == b.value * a.weight
  {
    var p, q := a.weight as real, b.weight as real;
    var ra, rb := Ratio(a), Ratio(b);
    assert ra * p == a.value as real;
    assert rb * q == b.value as real;
    assert (a.value * b.weight) as real == ra * (p * q);
    assert (b.value * a.weight) as real == rb * (p * q);
    assert p * q > 0.0;
  }

  /** `compare`: negative when `a` has the larger value/weight ratio, positive
      when it has the smaller one, zero when they are equal; computed by exact
      cross-multiplication. */
  function Compare(a: Item, b: Item): (r: int)
    requires a.weight > 0 && b.weight > 0
    ensures r == -1 <==> Ratio(a) > Ratio(b)
    ensures r == 1 <==> Ratio(a) < Ratio(b)
    ensures r == 0 <==> Ratio(a) == Ratio(b)
  {
    RatioCross(a, b);
    RatioCross(b, a);
    var d := a.value * b.weight - b.value * a.weight;
    if d > 0 then -1 else if d < 0 then 1 else 0
  }

  /** `compare` is a total preorder: swapping the arguments negates it, and
      "a is not after b" is transitive. */
  lemma CompareIsPreorder(a: Item, b: Item, c: Item)
    requires a.weight > 0 && b.weight > 0 && c.weight > 0
    ensures Compare(a, b) == -Compare(b, a)
    ensures Compare(a, b) <= 0 && Compare(b, c) <= 0 ==> Compare(a, c) <= 0
  {
  }

  /** The order `qsort` leaves the items in: no item before one with a
      larger ratio. */
  ghost predicate SortedByRatio(e: seq<Item>)
  {
    ValidItems(e) &&
    forall i, j :: 0 <= i < j < |e| ==> Compare(e[i], e[j]) <= 0
  }

  // ---------------------------------------------------------------------
  // The optimum

  /** The optimal value reachable from value `v` with capacity `c` and the
      items `e` still to decide, INT_MIN when the capacity is already
      exceeded. */
  function BestValue(e: seq<Item>, c: int, v: int): int
    decreases |e|
  {
    if c < 0 then IntMin
    else if |e| == 0 then v
    else Max(BestValue(e[1..], c, v), BestValue(e[1..], c - e[0].weight, v + e[0].value))
  }

  /** A selection picks some of the items; it is feasible when their
      weights sum to at most `c`. */
  function Weight(e: seq<Item>, sel: seq<bool>): int
    requires |sel| == |e|
    decreases |e|
  {
    if |e| == 0 then 0 else (if sel[0] then e[0].weight else 0) + Weight(e[1..], sel[1..])
  }

  function Value(e: seq<Item>, sel: seq<bool>): int
    requires |sel| == |e|
    decreases |e|
  {
    if |e| == 0 then 0 else (if sel[0] then e[0].value else 0) + Value(e[1..], sel[1..])
  }

  ghost predicate Feasible(e: seq<Item>, c: int, sel: seq<bool>)
  {
    |sel| == |e| && Weight(e, sel) <= c
  }

  lemma {:induction false} WeightNonNegative(e: seq<Item>, sel: seq<bool>)
    requires ValidItems(e) && |sel| == |e|
    ensures Weight(e, sel) >= 0
    decreases |e|
  {
    if |e| > 0 {
      WeightNonNegative(e[1..], sel[1..]);
    }
  }

  /** No feasible selection is worth more than BestValue. */
  lemma {:induction false} BestValueIsUpperBound(e: seq<Item>, c: int, v: int, sel: seq<bool>)
    requires ValidItems(e) && Feasible(e, c, sel)
    ensures v + Value(e, sel) <= BestValue(e, c, v)
    decreases |e|
  {
    WeightNonNegative(e, sel);
    if |e| > 0 {
      if sel[0] {
        WeightNonNegative(e[1..], sel[1..]);
        BestValueIsUpperBound(e[1..], c - e[0].weight, v + e[0].value, sel[1..]);
      } else {
        BestValueIsUpperBound(e[1..], c, v, sel[1..]);
      }
    }
  }

  /** With a capacity of at least 0, some feasible selection is worth exactly
      BestValue: BestValue is the optimum of the 0/1 problem. */
  lemma {:induction false} BestValueIsAttained(e: seq<Item>, c: int, v: int)
    requires ValidItems(e) && c >= 0 && v >= 0
    ensures exists sel :: Feasible(e, c, sel) && BestValue(e, c, v) == v + Value(e, sel)
    decreases |e|
  {
    if |e| == 0 {
      assert Feasible(e, c, []) && BestValue(e, c, v) == v + Value(e, []);
    } else {
      var rest := e[1..];
      BestValueIsAttained(rest, c, v);
      var s1 :| Feasible(rest, c, s1) && BestValue(rest, c, v) == v + Value(rest, s1);
      var without := [false] + s1;
      assert without[1..] == s1;
      if c - e[0].weight >= 0 {
        BestValueIsAttained(rest, c - e[0].weight, v + e[0].value);
        var s2 :| Feasible(rest, c - e[0].weight, s2)
          && BestValue(rest, c - e[0].weight, v + e[0].value) == v + e[0].value + Value(rest, s2);
        var with := [true] + s2;
        assert with[1..] == s2;
        if BestValue(rest, c, v) >= BestValue(rest, c - e[0].weight, v + e[0].value) {
          assert Feasible(e, c, without) && BestValue(e, c, v) == v + Value(e, without);
        } else {
          assert Feasible(e, c, with) && BestValue(e, c, v) == v + Value(e, with);
        }
      } else {
        BestValueAtLeast(rest, c, v);
        assert Feasible(e, c, without) && BestValue(e, c, v) == v + Value(e, without);
      }
    }
  }

  /** With capacity at least 0 the optimum is at least the value in hand. */
  lemma {:induction false} BestValueAtLeast(e: seq<Item>, c: int, v: int)
    requires c >= 0
    ensures BestValue(e, c, v) >= v
    decreases |e|
  {
    if |e| > 0 {
      BestValueAtLeast(e[1..], c, v);
    }
  }

  /** With zero capacity and positive weights nothing more fits: the optimum
      is the value in hand, as the base case `c == 0` of the solver says. */
  lemma {:induction false} ZeroCapacity(e: seq<Item>, v: int)
    requires ValidItems(e) && v >= 0
    ensures BestValue(e, 0, v) == v
    decreases |e|
  {
    if |e| > 0 {
      ZeroCapacity(e[1..], v);
    }
  }

  lemma {:induction false} RatioBound(e: seq<Item>, c: int, v: int, top: Item)
    requires ValidItems(e) && top.weight > 0 && top.value >= 0 && c >= 0 && v >= 0
    requires forall k :: 0 <= k < |e| ==> e[k].value * top.weight <= top.value * e[k].weight
    ensures (BestValue(e, c, v) - v) * top.weight <= c * top.value
    decreases |e|
  {
    if |e| > 0 {
      var rest := e[1..];
      var w0, v0 := e[0].weight, e[0].value;
      RatioBound(rest, c, v, top);
      var without := BestValue(rest, c, v);
      var with := BestValue(rest, c - w0, v + v0);
      if c - w0 >= 0 {
        RatioBound(rest, c - w0, v + v0, top);
        TakeItemBound(with - v, v0, w0, c, top.weight, top.value);
      } else {
        NegativeBound(with - v, c, top.weight, top.value);
      }
      assert BestValue(e, c, v) == Max(without, with);
    }
  }

  /** Taking an item of weight `w0` and value `v0`, no better per unit of
      weight than `tv / tw`, keeps the bound: the step of RatioBound. */
  lemma TakeItemBound(x: int, v0: int, w0: int, c: int, tw: int, tv: int)
    requires (x - v0) * tw <= (c - w0) * tv && v0 * tw <= tv * w0
    ensures x * tw <= c * tv
  {
    assert x * tw == (x - v0) * tw + v0 * tw;
    assert c * tv == (c - w0) * tv + w0 * tv;
  }

  lemma NegativeBound(y: int, c: int, tw: int, tv: int)
    requires y < 0 && tw > 0 && c >= 0 && tv >= 0
    ensures y * tw <= c * tv
  {
    MulMono(y, 0, tw);
    MulMono(0, c, tv);
  }

  lemma MulMono(a: int, b: int, w: int)
    requires a <= b && w >= 0
    ensures a * w <= b * w
  {
    assert b * w == a * w + (b - a) * w;
  }

  lemma DivBound(x: int, n: int, w: int)
    requires w > 0 && n >= 0 && x * w <= n
    ensures x <= n / w
  {
    var q, r := n / w, n % w;
    assert n == q * w + r && r < w;
    assert (q + 1) * w == q * w + w;
    MulCancel(x, q + 1, w);
  }

  lemma MulCancel(a: int, b: int, w: int)
    requires w > 0
    ensures a * w < b * w ==> a < b
  {
    if b <= a {
      MulMono(b, a, w);
    }
  }

  /** The bound of the solver, `v + c * value / weight` of the first
      remaining item in integer arithmetic, is an upper bound on the optimum
      when the items are sorted by decreasing ratio: no remaining item is
      worth more per unit of weight than the first. */
  lemma UpperBound(e: seq<Item>, c: int, v: int)
    requires SortedByRatio(e) && |e| > 0 && c >= 0 && v >= 0
    ensures BestValue(e, c, v) <= v + CDiv(c * e[0].value, e[0].weight)
  {
    forall k | 0 <= k < |e|
      ensures e[k].value * e[0].weight <= e[0].value * e[k].weight
    {
      if k > 0 {
        assert Compare(e[0], e[k]) <= 0;
        RatioCross(e[k], e[0]);
      }
    }
    RatioBound(e, c, v, e[0]);
    assert c * e[0].value >= 0;
    DivBound(BestValue(e, c, v) - v, c * e[0].value, e[0].weight);
  }

  // ---------------------------------------------------------------------
  // The branch-and-bound search

  /** The result a call of the solver writes through `*sol`, and the value
      of `best_so_far` when it returns. */
  datatype Step = Step(sol: int, best: int)

  /** One call `knapsack_seq(e, c, n, v, &sol)` entered with `best_so_far ==
      best`: INT_MIN over capacity, `v` with no items or no capacity left,
      INT_MIN when the bound is below `best_so_far`, otherwise the larger of
      the result without the first item and the result with it (computed
      second, against the `best_so_far` the first left), raising
      `best_so_far` to it. */
  function Search(e: seq<Item>, c: int, v: int, best: int): Step
    requires ValidItems(e)
    decreases |e|
  {
    if c < 0 then Step(IntMin, best)
    else if |e| == 0 || c == 0 then Step(v, best)
    else if v + CDiv(c * e[0].value, e[0].weight) < best then Step(IntMin, best)
    else
      var without := Search(e[1..], c, v, best);
      var with := Search(e[1..], c - e[0].weight, v + e[0].value, without.best);
      var b := if with.sol > without.sol then with.sol else without.sol;
      Step(b, if b > with.best then b else with.best)
  }

  /** `best_so_far` never decreases and is raised only up to the optimum of
      the subproblem, and no call reports more than the optimum. */
  lemma {:induction false} SearchSound(e: seq<Item>, c: int, v: int, best: int)
    requires ValidItems(e) && v >= 0
    ensures best <= Search(e, c, v, best).best <= Max(best, BestValue(e, c, v))
    ensures Search(e, c, v, best).sol <= BestValue(e, c, v)
    decreases |e|
  {
    if c >= 0 {
      BestValueAtLeast(e, c, v);
    }
    if c >= 0 && |e| > 0 && c != 0 && v + CDiv(c * e[0].value, e[0].weight) >= best {
      var without := Search(e[1..], c, v, best);
      SearchSound(e[1..], c, v, best);
      SearchSound(e[1..], c - e[0].weight, v + e[0].value, without.best);
    }
  }

  /** `x` is the value in hand plus the value of some feasible selection of
      the remaining items. */
  ghost predicate Achievable(e: seq<Item>, c: int, v: int, x: int)
  {
    exists sel :: Feasible(e, c, sel) && x == v + Value(e, sel)
  }

  /** Every value the solver reports or leaves in `best_so_far` was actually
      reached by some branch: the result is INT_MIN or the value of a
      feasible selection, and `best_so_far` is left where it was or raised
      to the value of a feasible selection. */
  lemma {:induction false} SearchAttains(e: seq<Item>, c: int, v: int, best: int)
    requires ValidItems(e) && v >= 0 && best >= IntMin
    ensures Search(e, c, v, best).sol == IntMin || Achievable(e, c, v, Search(e, c, v, best).sol)
    ensures Search(e, c, v, best).best == best || Achievable(e, c, v, Search(e, c, v, best).best)
    decreases |e|
  {
    if c < 0 {
    } else if |e| == 0 || c == 0 {
      NothingTaken(e, c, v);
    } else if v + CDiv(c * e[0].value, e[0].weight) >= best {
      var rest := e[1..];
      var w, val := e[0].weight, e[0].value;
      var without := Search(rest, c, v, best);
      var with := Search(rest, c - w, v + val, without.best);
      SearchAttains(rest, c, v, best);
      SearchSound(rest, c, v, best);
      SearchAttains(rest, c - w, v + val, without.best);
      SearchSound(rest, c - w, v + val, without.best);
      if without.sol != IntMin {
        LiftWithout(e, c, v, without.sol);
      }
      if without.best != best {
        LiftWithout(e, c, v, without.best);
      }
      if with.sol != IntMin {
        LiftWith(e, c, v, with.sol);
      }
      if with.best != without.best {
        LiftWith(e, c, v, with.best);
      }
    }
  }

  /** Taking nothing is feasible for a capacity of at least 0. */
  lemma {:induction false} NothingTaken(e: seq<Item>, c: int, v: int)
    requires c >= 0
    ensures Achievable(e, c, v, v)
    decreases |e|
  {
    if |e| == 0 {
      assert Feasible(e, c, []) && v == v + Value(e, []);
    } else {
      NothingTaken(e[1..], c, v);
      LiftWithout(e, c, v, v);
    }
  }

  /** A selection of the remaining items, with the first item left out. */
  lemma LiftWithout(e: seq<Item>, c: int, v: int, x: int)
    requires |e| > 0 && Achievable(e[1..], c, v, x)
    ensures Achievable(e, c, v, x)
  {
    var s :| Feasible(e[1..], c, s) && x == v + Value(e[1..], s);
    var t := [false] + s;
    assert t[1..] == s;
    assert Feasible(e, c, t) && x == v + Value(e, t);
  }

  /** A selection of the remaining items, with the first item taken. */
  lemma LiftWith(e: seq<Item>, c: int, v: int, x: int)
    requires |e| > 0 && Achievable(e[1..], c - e[0].weight, v + e[0].value, x)
    ensures Achievable(e, c, v, x)
  {
    var s :| Feasible(e[1..], c - e[0].weight, s) && x == v + e[0].value + Value(e[1..], s);
    var t := [true] + s;
    assert t[1..] == s;
    assert Feasible(e, c, t) && x == v + Value(e, t);
  }

  lemma SortedTail(e: seq<Item>)
    requires SortedByRatio(e) && |e| > 0
    ensures SortedByRatio(e[1..])
  {
    forall i, j | 0 <= i < j < |e| - 1
      ensures Compare(e[1..][i], e[1..][j]) <= 0
    {
      assert e[1..][i] == e[i + 1] && e[1..][j] == e[j + 1];
    }
  }

  /** Optimality of branch and bound: when `best_so_far` does not exceed the
      optimum on entry, the solver returns exactly the optimum. Pruning never
      cuts off the optimum because the bound is a true upper bound
      (UpperBound), and `best_so_far` never rises above an optimum already
      found (SearchSound). */
  lemma {:induction false} SearchOptimal(e: seq<Item>, c: int, v: int, best: int)
    requires SortedByRatio(e) && v >= 0
    requires best <= BestValue(e, c, v)
    ensures Search(e, c, v, best).sol == BestValue(e, c, v)
    decreases |e|
  {
    if c < 0 || |e| == 0 {
    } else if c == 0 {
      ZeroCapacity(e, v);
    } else {
      UpperBound(e, c, v);
      SortedTail(e);
      var rest := e[1..];
      var optOut := BestValue(rest, c, v);
      var optIn := BestValue(rest, c - e[0].weight, v + e[0].value);
      var without := Search(rest, c, v, best);
      var with := Search(rest, c - e[0].weight, v + e[0].value, without.best);
      assert Search(e, c, v, best).sol == (if with.sol > without.sol then with.sol else without.sol);
      SearchSound(rest, c, v, best);
      SearchSound(rest, c - e[0].weight, v + e[0].value, without.best);
      if optOut >= best {
        SearchOptimal(rest, c, v, best);
        if optIn >= without.best {
          SearchOptimal(rest, c - e[0].weight, v + e[0].value, without.best);
        }
        assert without.sol == optOut && (with.sol == optIn || with.sol < optOut);
      } else {
        SearchOptimal(rest, c - e[0].weight, v + e[0].value, without.best);
        assert with.sol == optIn && without.sol < optIn;
      }
    }
  }

  /** Searching from the reset bound INT_MIN reaches the optimum. */
  lemma SearchFromResetIsOptimal(e: seq<Item>, c: int)
    requires SortedByRatio(e)
    ensures Search(e, c, 0, IntMin).sol == BestValue(e, c, 0)
  {
    if c >= 0 {
      BestValueAtLeast(e, c, 0);
    }
    SearchOptimal(e, c, 0, IntMin);
  }

  // ---------------------------------------------------------------------
  // The solver with its global bound

  function TotalValue(e: seq<Item>): int
    decreases |e|
  {
    if |e| == 0 then 0 else e[0].value + TotalValue(e[1..])
  }

  /** The arithmetic of a solver call stays within C's `int`: the value in
      hand plus every remaining value, and the product `c * value` of the
      bound while the capacity is positive. */
  ghost predicate NoOverflow(e: seq<Item>, c: int, v: int)
  {
    0 <= v && v + TotalValue(e) <= IntMax && c <= IntMax &&
    forall k :: 0 <= k < |e| ==> c > 0 ==> c * e[k].value <= IntMax
  }

  lemma NoOverflowTail(e: seq<Item>, c: int, v: int)
    requires ValidItems(e) && NoOverflow(e, c, v) && |e| > 0 && c > 0
    ensures NoOverflow(e[1..], c, v)
    ensures NoOverflow(e[1..], c - e[0].weight, v + e[0].value)
  {
    assert TotalValue(e) == e[0].value + TotalValue(e[1..]);
    assert TotalValue(e[1..]) >= 0 by {
      TotalValueNonNegative(e[1..]);
    }
    forall k | 0 <= k < |e| - 1 && c - e[0].weight > 0
      ensures (c - e[0].weight) * e[1..][k].value <= IntMax
    {
      assert e[1..][k] == e[k + 1];
      assert (c - e[0].weight) * e[k + 1].value <= c * e[k + 1].value;
    }
  }

  lemma {:induction false} TotalValueNonNegative(e: seq<Item>)
    requires ValidItems(e)
    ensures TotalValue(e) >= 0
    decreases |e|
  {
    if |e| > 0 {
      TotalValueNonNegative(e[1..]);
    }
  }

  /** The knapsack solver with its global `best_so_far`. */
  class Solver {
    var bestSoFar: int

    constructor ()
      ensures bestSoFar == 0
    {
      bestSoFar := 0;
    }

    /** `knapsack_seq`. */
    method KnapsackSeq(e: seq<Item>, c: int, v: int) returns (sol: int)
      requires ValidItems(e) && NoOverflow(e, c, v)
      modifies this
      ensures sol == Search(e, c, v, old(bestSoFar)).sol
      ensures bestSoFar == Search(e, c, v, old(bestSoFar)).best
      decreases |e|
    {
      if c < 0 {
        sol := IntMin;
        return;
      }
      if |e| == 0 || c == 0 {
        sol := v;
        return;
      }
      var ub := v + CDiv(c * e[0].value, e[0].weight);
      if ub < bestSoFar {
        sol := IntMin;
        return;
      }
      NoOverflowTail(e, c, v);
      var without := KnapsackSeq(e[1..], c, v);
      var with := KnapsackSeq(e[1..], c - e[0].weight, v + e[0].value);
      var best := if with > without then with else without;
      if best > bestSoFar {
        bestSoFar := best;
      }
      sol := best;
    }

    /** `knapsack_par` under MANUAL_CUTOFF, each spawned task read as a call
        in program order: above the cutoff level `l` it recurses into itself
        at level l + 1, at or below it into `knapsack_seq`. It follows the
        same steps as `knapsack_seq` for every level and cutoff. */
    method KnapsackPar(e: seq<Item>, c: int, v: int, l: int, cutoff: int) returns (sol: int)
      requires ValidItems(e) && NoOverflow(e, c, v)
      modifies this
      ensures sol == Search(e, c, v, old(bestSoFar)).sol
      ensures bestSoFar == Search(e, c, v, old(bestSoFar)).best
      decreases |e|
    {
      if c < 0 {
        sol := IntMin;
        return;
      }
      if |e| == 0 || c == 0 {
        sol := v;
        return;
      }
      var ub := v + CDiv(c * e[0].value, e[0].weight);
      if ub < bestSoFar {
        sol := IntMin;
        return;
      }
      NoOverflowTail(e, c, v);
      ghost var stepOut := Search(e[1..], c, v, bestSoFar);
      ghost var stepIn := Search(e[1..], c - e[0].weight, v + e[0].value, stepOut.best);
      var without, with;
      if l < cutoff {
        without := KnapsackPar(e[1..], c, v, l + 1, cutoff);
        with := KnapsackPar(e[1..], c - e[0].weight, v + e[0].value, l + 1, cutoff);
      } else {
        without := KnapsackSeq(e[1..], c, v);
        with := KnapsackSeq(e[1..], c - e[0].weight, v + e[0].value);
      }
      assert without == stepOut.sol && with == stepIn.sol && bestSoFar == stepIn.best;
      var best := if with > without then with else without;
      if best > bestSoFar {
        bestSoFar := best;
      }
      sol := best;
    }

    /** `knapsack_main_seq`: reset `best_so_far` to INT_MIN and solve from
        value 0 (the argument `v` is ignored). With the items sorted by
        decreasing ratio the result is the optimum of the 0/1 problem: no
        feasible selection is worth more and some feasible selection is
        worth exactly this much; INT_MIN for a negative capacity, 0 for no
        items. */
    method KnapsackMainSeq(e: seq<Item>, c: int, v: int) returns (sol: int)
      requires SortedByRatio(e) && NoOverflow(e, c, 0)
      modifies this
      ensures sol == BestValue(e, c, 0)
      ensures c < 0 ==> sol == IntMin
      ensures c >= 0 ==> forall sel :: Feasible(e, c, sel) ==> Value(e, sel) <= sol
      ensures c >= 0 ==> exists sel :: Feasible(e, c, sel) && Value(e, sel) == sol
      ensures c >= 0 && |e| == 0 ==> sol == 0
      ensures IntMin <= bestSoFar <= sol
      ensures bestSoFar == IntMin || Achievable(e, c, 0, bestSoFar)
    {
      bestSoFar := IntMin;
      sol := KnapsackSeq(e, c, 0);
      SearchFromResetIsOptimal(e, c);
      SearchSound(e, c, 0, IntMin);
      SearchAttains(e, c, 0, IntMin);
      if c >= 0 {
        BestValueAtLeast(e, c, 0);
      }
      Optimum(e, c, sol);
    }

    /** `knapsack_main_par` read sequentially (one task running
        `knapsack_par(e, c, n, 0, sol, 0)`): the same optimum for every
        cutoff. */
    method KnapsackMainPar(e: seq<Item>, c: int, v: int, cutoff: int) returns (sol: int)
      requires SortedByRatio(e) && NoOverflow(e, c, 0)
      modifies this
      ensures sol == BestValue(e, c, 0)
      ensures c < 0 ==> sol == IntMin
      ensures c >= 0 ==> forall sel :: Feasible(e, c, sel) ==> Value(e, sel) <= sol
      ensures c >= 0 ==> exists sel :: Feasible(e, c, sel) && Value(e, sel) == sol
      ensures IntMin <= bestSoFar <= sol
      ensures bestSoFar == IntMin || Achievable(e, c, 0, bestSoFar)
    {
      bestSoFar := IntMin;
      sol := KnapsackPar(e, c, 0, 0, cutoff);
      SearchFromResetIsOptimal(e, c);
      SearchSound(e, c, 0, IntMin);
      SearchAttains(e, c, 0, IntMin);
      if c >= 0 {
        BestValueAtLeast(e, c, 0);
      }
      Optimum(e, c, sol);
    }
  }

  lemma Optimum(e: seq<Item>, c: int, sol: int)
    requires ValidItems(e) && sol == BestValue(e, c, 0)
    ensures c < 0 ==> sol == IntMin
    ensures c >= 0 ==> forall sel :: Feasible(e, c, sel) ==> Value(e, sel) <= sol
    ensures c >= 0 ==> exists sel :: Feasible(e, c, sel) && Value(e, sel) == sol
  {
    if c >= 0 {
      forall sel | Feasible(e, c, sel)
        ensures Value(e, sel) <= sol
      {
        BestValueIsUpperBound(e, c, 0, sel);
      }
      BestValueIsAttained(e, c, 0);
    }
  }

  // `knapsack_check` is Bots.Check on the sequential and parallel results.
}
