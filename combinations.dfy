// The meal-combination search of the planner.
//
// For every start index i the search walks the menu from i to the end with
// a running combination: an item is admitted when the running price plus its
// price stays at or below budget + 10, and is otherwise skipped while the
// walk goes on. After each admission whose running price lies in the band
// budget - 10 .. budget + 10, a copy of the running combination is emitted.
//
// The functions below describe that walk on values: Greedy, Picks and
// Emitted give the state of the walk from start index i once it has passed
// the positions i .. j-1, ResultsBefore and Combinations the output of the
// outer loop. CalculateCombinations is the search itself, with its nested
// loops, proved to compute Combinations.

module Combinations {
  import opened Menu

  /** Half-width of the tolerance band around the budget. */
  const Tolerance: int := 10

  /** The admission test of the inner loop. */
  predicate Admits(budget: int, running: seq<MenuItem>, item: MenuItem)
  {
    SumOf(running, Price) + item.price <= budget + Tolerance
  }

  /** The emission test: a total price inside the closed band around the budget. */
  predicate InBand(budget: int, total: int)
  {
    budget - Tolerance <= total <= budget + Tolerance
  }

  /** The running combination of the walk from start index i once it has passed positions i .. j-1. */
  function Greedy(budget: int, menu: seq<MenuItem>, i: nat, j: nat): seq<MenuItem>
    requires i <= j <= |menu|
    decreases j
  {
    if j == i then []
    else
      var running := Greedy(budget, menu, i, j - 1);
      if Admits(budget, running, menu[j - 1]) then running + [menu[j - 1]] else running
  }

  /** The menu positions admitted by that walk, in the order admitted. */
  function Picks(budget: int, menu: seq<MenuItem>, i: nat, j: nat): seq<nat>
    requires i <= j <= |menu|
    decreases j
  {
    if j == i then []
    else if Admits(budget, Greedy(budget, menu, i, j - 1), menu[j - 1]) then Picks(budget, menu, i, j - 1) + [j - 1]
    else Picks(budget, menu, i, j - 1)
  }

  /** The combinations emitted by that walk, in order. */
  function Emitted(budget: int, menu: seq<MenuItem>, i: nat, j: nat): seq<seq<MenuItem>>
    requires i <= j <= |menu|
    decreases j
  {
    if j == i then []
    else
      var running := Greedy(budget, menu, i, j - 1);
      var item := menu[j - 1];
      if Admits(budget, running, item) && InBand(budget, SumOf(running, Price) + item.price)
      then Emitted(budget, menu, i, j - 1) + [running + [item]]
      else Emitted(budget, menu, i, j - 1)
  }

  /** Everything emitted for the start indices 0 .. i-1, grouped by ascending start index. */
  function ResultsBefore(budget: int, menu: seq<MenuItem>, i: nat): seq<seq<MenuItem>>
    requires i <= |menu|
  {
    if i == 0 then [] else ResultsBefore(budget, menu, i - 1) + Emitted(budget, menu, i - 1, |menu|)
  }

  /** The result of the search over the whole menu. */
  function Combinations(budget: int, menu: seq<MenuItem>): seq<seq<MenuItem>>
  {
    ResultsBefore(budget, menu, |menu|)
  }

  /** `c` is the menu read at the strictly increasing positions `idx`, all from `start` on. */
  ghost predicate PickedFrom(c: seq<MenuItem>, menu: seq<MenuItem>, start: nat, idx: seq<nat>)
  {
    && |idx| == |c|
    && (forall k :: 0 <= k < |idx| ==> start <= idx[k] < |menu| && c[k] == menu[idx[k]])
    && (forall k, l :: 0 <= k < l < |idx| ==> idx[k] < idx[l])
  }

  // ---------------------------------------------------------------------
  // The search itself

  method CalculateCombinations(budget: int, menu: seq<MenuItem>) returns (validCombinations: seq<seq<MenuItem>>)
    ensures validCombinations == Combinations(budget, menu)
    ensures forall k :: 0 <= k < |validCombinations| ==>
              validCombinations[k] != [] && InBand(budget, SumOf(validCombinations[k], Price))
  {
    validCombinations := [];
    for i := 0 to |menu|
      invariant validCombinations == ResultsBefore(budget, menu, i)
    {
      ghost var before := validCombinations;
      var combination: seq<MenuItem> := [];
      var totalPrice, totalCalories, totalCarbs, totalProtein, totalFat := 0, 0, 0, 0, 0;
      for j := i to |menu|
        invariant combination == Greedy(budget, menu, i, j)
        invariant totalPrice == SumOf(combination, Price)
        invariant totalCalories == SumOf(combination, Calories)
        invariant totalCarbs == SumOf(combination, Carbs)
        invariant totalProtein == SumOf(combination, Protein)
        invariant totalFat == SumOf(combination, Fat)
        invariant combination == [] || totalPrice <= budget + Tolerance
        invariant validCombinations == before + Emitted(budget, menu, i, j)
      {
        var item := menu[j];
        if totalPrice + item.price <= budget + Tolerance {
          AdmitAddsItem(budget, menu, i, j);
          combination := combination + [item];
          totalPrice := totalPrice + item.price;
          totalCalories := totalCalories + item.calories;
          totalCarbs := totalCarbs + item.carbs;
          totalProtein := totalProtein + item.protein;
          totalFat := totalFat + item.fat;
          if budget - Tolerance <= totalPrice <= budget + Tolerance {
            assert before + Emitted(budget, menu, i, j) + [combination]
                == before + (Emitted(budget, menu, i, j) + [combination]);
            validCombinations := validCombinations + [combination];
          }
        } else {
          SkipKeepsState(budget, menu, i, j);
        }
      }
    }
    CombinationsInBand(budget, menu);
  }

  // ---------------------------------------------------------------------
  // Properties of the walk from one start index

  /** The running price never exceeds the ceiling once something was admitted. */
  lemma {:induction false} GreedyUnderCeiling(budget: int, menu: seq<MenuItem>, i: nat, j: nat)
    requires i <= j <= |menu|
    ensures Greedy(budget, menu, i, j) == [] || SumOf(Greedy(budget, menu, i, j), Price) <= budget + Tolerance
  {
    if j > i {
      GreedyUnderCeiling(budget, menu, i, j - 1);
      SumOfAppend(Greedy(budget, menu, i, j - 1), menu[j - 1], Price);
    }
  }

  /** The running combination is the menu read at the admitted positions, which increase from i on. */
  lemma {:induction false} GreedyPickedFrom(budget: int, menu: seq<MenuItem>, i: nat, j: nat)
    requires i <= j <= |menu|
    ensures PickedFrom(Greedy(budget, menu, i, j), menu, i, Picks(budget, menu, i, j))
    ensures forall k :: 0 <= k < |Picks(budget, menu, i, j)| ==> Picks(budget, menu, i, j)[k] < j
  {
    if j > i {
      GreedyPickedFrom(budget, menu, i, j - 1);
    }
  }

  /**
   * Position p is admitted by the walk from i exactly when the running price
   * of the walk before p plus the price of menu[p] stays at or below the ceiling.
   */
  lemma {:induction false} PicksExactly(budget: int, menu: seq<MenuItem>, i: nat, j: nat, p: nat)
    requires i <= p < j <= |menu|
    ensures p in Picks(budget, menu, i, j) <==> Admits(budget, Greedy(budget, menu, i, p), menu[p])
  {
    GreedyPickedFrom(budget, menu, i, j - 1);
    if p < j - 1 {
      PicksExactly(budget, menu, i, j - 1, p);
    }
  }

  /** A skipped item leaves the running combination, and so all five running totals, unchanged. */
  lemma SkipKeepsState(budget: int, menu: seq<MenuItem>, i: nat, p: nat)
    requires i <= p < |menu|
    requires !Admits(budget, Greedy(budget, menu, i, p), menu[p])
    ensures Greedy(budget, menu, i, p + 1) == Greedy(budget, menu, i, p)
    ensures TotalsOf(Greedy(budget, menu, i, p + 1)) == TotalsOf(Greedy(budget, menu, i, p))
    ensures p !in Picks(budget, menu, i, |menu|)
  {
    PicksExactly(budget, menu, i, |menu|, p);
  }

  /** An admitted item is appended, and its five fields are added to the running totals. */
  lemma AdmitAddsItem(budget: int, menu: seq<MenuItem>, i: nat, p: nat)
    requires i <= p < |menu|
    requires Admits(budget, Greedy(budget, menu, i, p), menu[p])
    ensures Greedy(budget, menu, i, p + 1) == Greedy(budget, menu, i, p) + [menu[p]]
    ensures TotalsOf(Greedy(budget, menu, i, p + 1)) == Plus(TotalsOf(Greedy(budget, menu, i, p)), menu[p])
    ensures p in Picks(budget, menu, i, |menu|)
  {
    TotalsOfAppend(Greedy(budget, menu, i, p), menu[p]);
    PicksExactly(budget, menu, i, |menu|, p);
  }

  /** The running combination is never reset: at every step it is a prefix of its later values. */
  lemma {:induction false} GreedyGrows(budget: int, menu: seq<MenuItem>, i: nat, p: nat, j: nat)
    requires i <= p <= j <= |menu|
    ensures Greedy(budget, menu, i, p) <= Greedy(budget, menu, i, j)
  {
    if p < j {
      GreedyGrows(budget, menu, i, p, j - 1);
    }
  }

  /**
   * The walk emits at most once per position. Every emission is non-empty, in
   * the band and a prefix of the running combination, and strictly extends
   * the emission before it.
   */
  lemma {:induction false} EmittedShape(budget: int, menu: seq<MenuItem>, i: nat, j: nat)
    requires i <= j <= |menu|
    ensures |Emitted(budget, menu, i, j)| <= j - i
    ensures forall k :: 0 <= k < |Emitted(budget, menu, i, j)| ==>
              Emitted(budget, menu, i, j)[k] != [] && Emitted(budget, menu, i, j)[k] <= Greedy(budget, menu, i, j)
              && InBand(budget, SumOf(Emitted(budget, menu, i, j)[k], Price))
    ensures forall k :: 0 < k < |Emitted(budget, menu, i, j)| ==>
              Emitted(budget, menu, i, j)[k - 1] < Emitted(budget, menu, i, j)[k]
  {
    if j > i {
      EmittedShape(budget, menu, i, j - 1);
      var e := Emitted(budget, menu, i, j - 1);
      var running := Greedy(budget, menu, i, j - 1);
      var item := menu[j - 1];
      if Admits(budget, running, item) {
        SumOfAppend(running, item, Price);
        assert forall k :: 0 <= k < |e| ==> e[k] <= running + [item];
        if |e| > 0 {
          assert e[|e| - 1] <= running;
          assert |e[|e| - 1]| < |running + [item]|;
        }
      }
    }
  }

  /** With non-negative prices, the emitted totals of one start index never decrease. */
  lemma EmittedPricesGrow(budget: int, menu: seq<MenuItem>, i: nat, j: nat, k: nat)
    requires i <= j <= |menu|
    requires forall p :: 0 <= p < |menu| ==> menu[p].price >= 0
    requires 0 < k < |Emitted(budget, menu, i, j)|
    ensures SumOf(Emitted(budget, menu, i, j)[k - 1], Price) <= SumOf(Emitted(budget, menu, i, j)[k], Price)
  {
    EmittedShape(budget, menu, i, j);
    GreedyPickedFrom(budget, menu, i, j);
    var g := Greedy(budget, menu, i, j);
    var idx := Picks(budget, menu, i, j);
    assert forall m :: 0 <= m < |g| ==> g[m] == menu[idx[m]];
    var hi := Emitted(budget, menu, i, j)[k];
    assert forall m :: 0 <= m < |hi| ==> hi[m] == g[m];
    SumOfPrefixMonotone(Emitted(budget, menu, i, j)[k - 1], hi, Price);
  }

  /** Every emission of the walk from i is the menu read at increasing positions from i on. */
  lemma EmittedPickedFrom(budget: int, menu: seq<MenuItem>, i: nat, j: nat, k: nat)
    requires i <= j <= |menu|
    requires k < |Emitted(budget, menu, i, j)|
    ensures |Emitted(budget, menu, i, j)[k]| <= |Picks(budget, menu, i, j)|
    ensures PickedFrom(Emitted(budget, menu, i, j)[k], menu, i,
                       Picks(budget, menu, i, j)[..|Emitted(budget, menu, i, j)[k]|])
  {
    EmittedShape(budget, menu, i, j);
    GreedyPickedFrom(budget, menu, i, j);
  }

  /** The non-empty prefixes of g of length at most m whose price is in the band, shortest first. */
  function InBandPrefixes(budget: int, g: seq<MenuItem>, m: nat): seq<seq<MenuItem>>
    requires m <= |g|
  {
    if m == 0 then []
    else InBandPrefixes(budget, g, m - 1) + (if InBand(budget, SumOf(g[..m], Price)) then [g[..m]] else [])
  }

  /** Extending g does not change its short prefixes, so neither does it change which of them are in the band. */
  lemma {:induction false} InBandPrefixesOfLonger(budget: int, g: seq<MenuItem>, h: seq<MenuItem>, m: nat)
    requires g <= h && m <= |g|
    ensures InBandPrefixes(budget, g, m) == InBandPrefixes(budget, h, m)
  {
    if m > 0 {
      assert g[..m] == h[..m];
      InBandPrefixesOfLonger(budget, g, h, m - 1);
    }
  }

  lemma {:induction false} InBandPrefixesHas(budget: int, g: seq<MenuItem>, m: nat, n: nat)
    requires 1 <= n <= m <= |g|
    requires InBand(budget, SumOf(g[..n], Price))
    ensures g[..n] in InBandPrefixes(budget, g, m)
  {
    if n < m {
      InBandPrefixesHas(budget, g, m - 1, n);
    }
  }

  /**
   * The walk from i emits exactly the non-empty prefixes of its running
   * combination whose price is in the band, shortest first.
   */
  lemma {:induction false} EmittedExactly(budget: int, menu: seq<MenuItem>, i: nat, j: nat)
    requires i <= j <= |menu|
    ensures Emitted(budget, menu, i, j)
         == InBandPrefixes(budget, Greedy(budget, menu, i, j), |Greedy(budget, menu, i, j)|)
  {
    if j > i {
      EmittedExactly(budget, menu, i, j - 1);
      var g := Greedy(budget, menu, i, j - 1);
      var item := menu[j - 1];
      if Admits(budget, g, item) {
        var h := g + [item];
        InBandPrefixesOfLonger(budget, g, h, |g|);
        assert h[..|h|] == h;
        SumOfAppend(g, item, Price);
      }
    }
  }

  /** Every non-empty prefix of the running combination was once the running combination, so it is under the ceiling. */
  lemma {:induction false} GreedyPrefixesUnderCeiling(budget: int, menu: seq<MenuItem>, i: nat, j: nat, n: nat)
    requires i <= j <= |menu|
    requires 1 <= n <= |Greedy(budget, menu, i, j)|
    ensures SumOf(Greedy(budget, menu, i, j)[..n], Price) <= budget + Tolerance
  {
    assert j > i;
    var g := Greedy(budget, menu, i, j - 1);
    var item := menu[j - 1];
    if Admits(budget, g, item) {
      var h := g + [item];
      if n <= |g| {
        assert h[..n] == g[..n];
        GreedyPrefixesUnderCeiling(budget, menu, i, j - 1, n);
      } else {
        assert h[..n] == h;
        SumOfAppend(g, item, Price);
      }
    } else {
      GreedyPrefixesUnderCeiling(budget, menu, i, j - 1, n);
    }
  }

  /** Every non-empty prefix of the running combination priced at least budget - 10 is emitted. */
  lemma EmittedComplete(budget: int, menu: seq<MenuItem>, i: nat, j: nat, m: nat)
    requires i <= j <= |menu|
    requires 1 <= m <= |Greedy(budget, menu, i, j)|
    requires SumOf(Greedy(budget, menu, i, j)[..m], Price) >= budget - Tolerance
    ensures Greedy(budget, menu, i, j)[..m] in Emitted(budget, menu, i, j)
  {
    var g := Greedy(budget, menu, i, j);
    GreedyPrefixesUnderCeiling(budget, menu, i, j, m);
    EmittedExactly(budget, menu, i, j);
    InBandPrefixesHas(budget, g, |g|, m);
  }

  // ---------------------------------------------------------------------
  // Properties of the whole result

  /** Every combination the search returns is non-empty and has its total price in the band. */
  lemma CombinationsInBand(budget: int, menu: seq<MenuItem>)
    ensures forall k :: 0 <= k < |Combinations(budget, menu)| ==>
              Combinations(budget, menu)[k] != [] && InBand(budget, SumOf(Combinations(budget, menu)[k], Price))
  {
    ResultsBeforeInBand(budget, menu, |menu|);
  }

  lemma {:induction false} ResultsBeforeInBand(budget: int, menu: seq<MenuItem>, i: nat)
    requires i <= |menu|
    ensures forall k :: 0 <= k < |ResultsBefore(budget, menu, i)| ==>
              ResultsBefore(budget, menu, i)[k] != []
              && InBand(budget, SumOf(ResultsBefore(budget, menu, i)[k], Price))
  {
    if i > 0 {
      ResultsBeforeInBand(budget, menu, i - 1);
      EmittedShape(budget, menu, i - 1, |menu|);
    }
  }

  /** Every returned combination is the menu read at increasing positions from some start index on. */
  lemma {:induction false} ResultsBeforePickedFromMenu(budget: int, menu: seq<MenuItem>, i: nat, k: nat)
    requires i <= |menu|
    requires k < |ResultsBefore(budget, menu, i)|
    ensures exists start, idx :: 0 <= start < i && PickedFrom(ResultsBefore(budget, menu, i)[k], menu, start, idx)
  {
    var before := ResultsBefore(budget, menu, i - 1);
    var e := Emitted(budget, menu, i - 1, |menu|);
    if k < |before| {
      assert ResultsBefore(budget, menu, i)[k] == before[k];
      ResultsBeforePickedFromMenu(budget, menu, i - 1, k);
    } else {
      assert ResultsBefore(budget, menu, i)[k] == e[k - |before|];
      EmittedPickedFrom(budget, menu, i - 1, |menu|, k - |before|);
      var idx := Picks(budget, menu, i - 1, |menu|)[..|e[k - |before|]|];
      assert PickedFrom(ResultsBefore(budget, menu, i)[k], menu, i - 1, idx);
    }
  }

  /** At most one emission per inner step: the result has at most n(n+1)/2 entries. */
  lemma CombinationsCount(budget: int, menu: seq<MenuItem>)
    ensures 2 * |Combinations(budget, menu)| <= |menu| * (|menu| + 1)
  {
    ResultsBeforeCount(budget, menu, |menu|);
  }

  lemma {:induction false} ResultsBeforeCount(budget: int, menu: seq<MenuItem>, i: nat)
    requires i <= |menu|
    ensures 2 * |ResultsBefore(budget, menu, i)| <= i * (2 * |menu| - i + 1)
  {
    if i > 0 {
      var n := |menu|;
      ResultsBeforeCount(budget, menu, i - 1);
      EmittedShape(budget, menu, i - 1, n);
      assert (i - 1) * (2 * n - (i - 1) + 1) + 2 * (n - i + 1) == i * (2 * n - i + 1);
    }
  }

  /** When no item fits under the ceiling on its own, the walk admits and emits nothing. */
  lemma {:induction false} NothingFitsWalk(budget: int, menu: seq<MenuItem>, i: nat, j: nat)
    requires i <= j <= |menu|
    requires forall p :: 0 <= p < |menu| ==> menu[p].price > budget + Tolerance
    ensures Greedy(budget, menu, i, j) == [] && Emitted(budget, menu, i, j) == []
  {
    if j > i {
      NothingFitsWalk(budget, menu, i, j - 1);
    }
  }

  /** When every price is above budget + 10, the search returns nothing. */
  lemma NothingFitsNoCombinations(budget: int, menu: seq<MenuItem>)
    requires forall p :: 0 <= p < |menu| ==> menu[p].price > budget + Tolerance
    ensures Combinations(budget, menu) == []
  {
    forall s: nat | s < |menu|
      ensures Emitted(budget, menu, s, |menu|) == []
    {
      NothingFitsWalk(budget, menu, s, |menu|);
    }
    SilentStartsNoResults(budget, menu, |menu|);
  }

  /** Start indices that each emit nothing contribute nothing to the result. */
  lemma {:induction false} SilentStartsNoResults(budget: int, menu: seq<MenuItem>, i: nat)
    requires i <= |menu|
    requires forall s: nat :: s < i ==> Emitted(budget, menu, s, |menu|) == []
    ensures ResultsBefore(budget, menu, i) == []
  {
    if i > 0 {
      SilentStartsNoResults(budget, menu, i - 1);
      assert |Emitted(budget, menu, i - 1, |menu|)| == 0;
      assert |ResultsBefore(budget, menu, i)| == 0;
    }
  }

  /** An empty menu yields an empty result for any budget. */
  lemma EmptyMenu(budget: int)
    ensures Combinations(budget, []) == []
  {
  }

  // ---------------------------------------------------------------------
  // Concrete runs

  /** A skipped first item lets the same combination be emitted from two start indices. */
  lemma DuplicateAfterSkip()
    ensures
      var a := MenuItem("A", 200, 0, 0, 0, 0);
      var b := MenuItem("B", 100, 0, 0, 0, 0);
      Combinations(100, [a, b]) == [[b], [b]]
  {
    var a := MenuItem("A", 200, 0, 0, 0, 0);
    var b := MenuItem("B", 100, 0, 0, 0, 0);
    var menu := [a, b];
    assert Greedy(100, menu, 0, 1) == [];
    var none: seq<MenuItem> := [];
    assert none + [b] == [b];
    assert Emitted(100, menu, 0, 2) == [[b]];
    assert Emitted(100, menu, 1, 2) == [[b]];
  }

  /** Budget 100 over A(100), B(105), C(50): [A] from start 0, [B] from start 1, nothing from C. */
  lemma BandExample()
    ensures
      var a := MenuItem("A", 100, 0, 0, 0, 0);
      var b := MenuItem("B", 105, 0, 0, 0, 0);
      var c := MenuItem("C", 50, 0, 0, 0, 0);
      Combinations(100, [a, b, c]) == [[a], [b]]
  {
    var a := MenuItem("A", 100, 0, 0, 0, 0);
    var b := MenuItem("B", 105, 0, 0, 0, 0);
    var c := MenuItem("C", 50, 0, 0, 0, 0);
    BandFromFirst(a, b, c);
    BandFromSecond(a, b, c);
    BandFromThird(a, b, c);
  }

  /** From start 0, A reaches the band at once, and B and C no longer fit under 110. */
  lemma BandFromFirst(a: MenuItem, b: MenuItem, c: MenuItem)
    requires a == MenuItem("A", 100, 0, 0, 0, 0) && b.price == 105 && c.price == 50
    ensures Emitted(100, [a, b, c], 0, 3) == [[a]]
  {
    var menu := [a, b, c];
    var none: seq<MenuItem> := [];
    assert none + [a] == [a];
    assert [a][1..] == [] && SumOf([a], Price) == 100;
    assert Greedy(100, menu, 0, 1) == [a] && Greedy(100, menu, 0, 2) == [a];
  }

  /** From start 1, B alone lands in the band, and C no longer fits. */
  lemma BandFromSecond(a: MenuItem, b: MenuItem, c: MenuItem)
    requires b == MenuItem("B", 105, 0, 0, 0, 0) && c.price == 50
    ensures Emitted(100, [a, b, c], 1, 3) == [[b]]
  {
    var menu := [a, b, c];
    var none: seq<MenuItem> := [];
    assert none + [b] == [b];
    assert [b][1..] == [] && SumOf([b], Price) == 105;
    assert Greedy(100, menu, 1, 2) == [b];
  }

  /** From start 2, C is admitted but its total of 50 is below the band. */
  lemma BandFromThird(a: MenuItem, b: MenuItem, c: MenuItem)
    requires c == MenuItem("C", 50, 0, 0, 0, 0)
    ensures Emitted(100, [a, b, c], 2, 3) == []
  {
  }
}
