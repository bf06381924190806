// Menu items of the meal planner and the per-combination field totals.
// Prices and nutrition values are mathematical integers: the 32-bit
// wrap-around of the app's Kotlin `Int` is not modelled.

module Menu {

  /** One entry of the menu: a name, a price in rupees and four nutrition values. */
  datatype MenuItem = MenuItem(
    name: string,
    price: int,
    calories: int,
    carbs: int,
    protein: int,
    fat: int)

  /** The numeric fields of a MenuItem that a combination card sums. */
  datatype Field = Price | Calories | Carbs | Protein | Fat

  function Value(item: MenuItem, f: Field): int
  {
    match f
    case Price => item.price
    case Calories => item.calories
    case Carbs => item.carbs
    case Protein => item.protein
    case Fat => item.fat
  }

  /** The sum of one field over a combination, as `sumOf { it.<field> }` computes it. */
  function SumOf(c: seq<MenuItem>, f: Field): int
  {
    if c == [] then 0 else Value(c[0], f) + SumOf(c[1..], f)
  }

  /** A sum of non-negative values is non-negative. */
  lemma {:induction false} SumOfNonNegative(c: seq<MenuItem>, f: Field)
    requires forall k :: 0 <= k < |c| ==> Value(c[k], f) >= 0
    ensures SumOf(c, f) >= 0
  {
    if c != [] {
      assert forall k :: 0 <= k < |c[1..]| ==> c[1..][k] == c[k + 1];
      SumOfNonNegative(c[1..], f);
    }
  }

  /** Summing over a combination extended by one item adds that item's field. */
  lemma {:induction false} SumOfAppend(c: seq<MenuItem>, x: MenuItem, f: Field)
    ensures SumOf(c + [x], f) == SumOf(c, f) + Value(x, f)
  {
    if c != [] {
      assert (c + [x])[1..] == c[1..] + [x];
      SumOfAppend(c[1..], x, f);
    }
  }

  /** Summing over a concatenation adds the two sums. */
  lemma {:induction false} SumOfConcat(a: seq<MenuItem>, b: seq<MenuItem>, f: Field)
    ensures SumOf(a + b, f) == SumOf(a, f) + SumOf(b, f)
  {
    if a == [] {
      assert a + b == b;
    } else {
      assert (a + b)[1..] == a[1..] + b;
      SumOfConcat(a[1..], b, f);
    }
  }

  /** With non-negative values, a longer prefix never has a smaller sum. */
  lemma {:induction false} SumOfPrefixMonotone(p: seq<MenuItem>, c: seq<MenuItem>, f: Field)
    requires p <= c
    requires forall k :: 0 <= k < |c| ==> Value(c[k], f) >= 0
    ensures SumOf(p, f) <= SumOf(c, f)
  {
    assert c == p + c[|p|..];
    SumOfConcat(p, c[|p|..], f);
    assert forall k :: 0 <= k < |c[|p|..]| ==> c[|p|..][k] == c[|p| + k];
    SumOfNonNegative(c[|p|..], f);
  }

  /** The five totals a combination card shows. */
  datatype Totals = Totals(price: int, calories: int, carbs: int, protein: int, fat: int)

  function TotalsOf(c: seq<MenuItem>): Totals
  {
    Totals(SumOf(c, Price), SumOf(c, Calories), SumOf(c, Carbs), SumOf(c, Protein), SumOf(c, Fat))
  }

  /** The totals with one more item's fields added. */
  function Plus(t: Totals, x: MenuItem): Totals
  {
    Totals(t.price + x.price, t.calories + x.calories, t.carbs + x.carbs, t.protein + x.protein, t.fat + x.fat)
  }

  /** Appending one item to a combination adds each of its fields to the totals. */
  lemma TotalsOfAppend(c: seq<MenuItem>, x: MenuItem)
    ensures TotalsOf(c + [x]) == Plus(TotalsOf(c), x)
  {
    SumOfAppend(c, x, Price);
    SumOfAppend(c, x, Calories);
    SumOfAppend(c, x, Carbs);
    SumOfAppend(c, x, Protein);
    SumOfAppend(c, x, Fat);
  }
}
