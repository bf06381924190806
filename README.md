# Domino's meal planner: the combination search, verified

This project models the logic of the Domino's Meal Planner Android app. The user types a
budget in rupees. The app then lists meal combinations from its fixed menu whose total price
lies within ₹10 of that budget. Each combination can be shared as a plain-text message.

Three modules, one per concern of `Screen.kt`:

- `Menu` (`menu.dfy`): the `MenuItem` record (name, price, calories, carbs, protein, fat).
  It also holds the per-combination field sums that a combination card shows.
- `Combinations` (`combinations.dfy`): the search `calculateCombinations`.
  `CalculateCombinations` is the search itself: two nested `for` loops, a running
  combination, five running totals and a growing result list. It is proved equal to
  `Combinations`, a specification built from three functions:
  - `Greedy`: the running combination of start index `i` after the inner loop has passed positions `i .. j-1`;
  - `Emitted`: what that walk emits;
  - `ResultsBefore`: the emissions of start indices `0 .. i-1`, grouped by ascending start index.

  Two more functions serve the lemmas: `Picks` names the menu positions the walk admitted,
  and `InBandPrefixes` lists the non-empty prefixes of a combination whose price is in the band.

  The lemmas about these functions state what the search promises.
- `Share` (`share.dfy`): the text of the share message. `IntToString` renders an integer
  the way Kotlin string templates do. `ParseInt` is its inverse, and `SplitLines` splits
  text at line breaks. Both exist so that the message's layout can be stated as a round trip.

The search admits an item when the running price plus its price is at most `budget + 10`.
Otherwise it skips the item and keeps walking. After each admission it emits a copy of the
running combination if the running price lies in `budget - 10 .. budget + 10`. So a
combination is a subsequence of `menu[i..]` in menu order, not a contiguous run: an
over-ceiling item in the middle is jumped over. For the same reason the result can hold the
same combination twice, once per start index (`DuplicateAfterSkip`). The model keeps both
behaviours. From one start index, the emitted combinations are exactly the non-empty prefixes
of the final running combination whose price is in the band, shortest first (`EmittedExactly`).

Prices, nutrition values and the budget are mathematical integers.

## Model

| member | source | states |
|---|---|---|
| `Menu.SumOfNonNegative` | app/src/main/java/com/example/dominoesmealplanner/Screen.kt:112-116 | The sum of a field over a combination is non-negative when every item's value of that field is |
| `Menu.SumOfAppend` | app/src/main/java/com/example/dominoesmealplanner/Screen.kt:112-116 | Extending a combination by one item adds exactly that item's field to its sum |
| `Menu.SumOfConcat` | app/src/main/java/com/example/dominoesmealplanner/Screen.kt:112-116 | The sum over a concatenation is the sum of the two sums |
| `Menu.SumOfPrefixMonotone` | app/src/main/java/com/example/dominoesmealplanner/Screen.kt:112 | With non-negative values, a prefix of a combination never sums to more than the combination |
| `Menu.TotalsOfAppend` | app/src/main/java/com/example/dominoesmealplanner/Screen.kt:220-225 | Appending an item to a combination adds each of its five fields to the five totals, as the running totals are updated |
| `Combinations.CalculateCombinations` | app/src/main/java/com/example/dominoesmealplanner/Screen.kt:204-236 | The nested loops return exactly `Combinations(budget, menu)`, and every returned combination is non-empty with its total price in the band. The loop invariants state that the running list is `Greedy` of the items walked so far, that each running total equals the sum of its field over the running list, and that the running price never exceeds `budget + 10` once an item was admitted |
| `Combinations.GreedyUnderCeiling` | app/src/main/java/com/example/dominoesmealplanner/Screen.kt:219-221 | The running combination is empty or its total price is at most `budget + 10` |
| `Combinations.GreedyPickedFrom` | app/src/main/java/com/example/dominoesmealplanner/Screen.kt:217-220 | The running combination of start index i is the menu read at the admitted positions, which lie in i .. j-1 and strictly increase |
| `Combinations.PicksExactly` | app/src/main/java/com/example/dominoesmealplanner/Screen.kt:219-220 | Position j is admitted if and only if the running price before j plus the price of item j is at most `budget + 10` |
| `Combinations.SkipKeepsState` | app/src/main/java/com/example/dominoesmealplanner/Screen.kt:219-231 | A skipped item leaves the running combination and all five running totals unchanged, and its position is not among the admitted ones |
| `Combinations.AdmitAddsItem` | app/src/main/java/com/example/dominoesmealplanner/Screen.kt:219-225 | An admitted item is appended to the running combination, each of its five fields is added to the running totals, and its position is among the admitted ones |
| `Combinations.GreedyGrows` | app/src/main/java/com/example/dominoesmealplanner/Screen.kt:209-220 | The running combination of a start index is never reset: at every step it is a prefix of its final value |
| `Combinations.EmittedShape` | app/src/main/java/com/example/dominoesmealplanner/Screen.kt:217-230 | From one start index at most one combination is emitted per item. Each emission is non-empty, in the band and a prefix of the final running combination, and each strictly extends the one emitted before it |
| `Combinations.EmittedPricesGrow` | app/src/main/java/com/example/dominoesmealplanner/Screen.kt:220-229 | With non-negative prices, the totals emitted from one start index never decrease |
| `Combinations.EmittedPickedFrom` | app/src/main/java/com/example/dominoesmealplanner/Screen.kt:217-229 | Each emission from start index i is the menu read at the first admitted positions, which lie from i on and strictly increase |
| `Combinations.EmittedExactly` | app/src/main/java/com/example/dominoesmealplanner/Screen.kt:217-229 | The walk from one start index emits exactly the non-empty prefixes of its running combination whose total price is in `budget - 10 .. budget + 10`, shortest first |
| `Combinations.GreedyPrefixesUnderCeiling` | app/src/main/java/com/example/dominoesmealplanner/Screen.kt:219-221 | Every non-empty prefix of the running combination has a total price of at most `budget + 10`, because each was once the running combination |
| `Combinations.EmittedComplete` | app/src/main/java/com/example/dominoesmealplanner/Screen.kt:228-229 | Every non-empty prefix of the running combination whose total price is at least `budget - 10` is emitted |
| `Combinations.CombinationsInBand` | app/src/main/java/com/example/dominoesmealplanner/Screen.kt:228-229 | Every returned combination is non-empty and its total price lies in `budget - 10 .. budget + 10` |
| `Combinations.ResultsBeforeInBand` | app/src/main/java/com/example/dominoesmealplanner/Screen.kt:208-233 | The same band property for the results of the first i start indices |
| `Combinations.ResultsBeforePickedFromMenu` | app/src/main/java/com/example/dominoesmealplanner/Screen.kt:208-220 | Every returned combination is the menu read at strictly increasing positions, all at or after some start index below i |
| `Combinations.CombinationsCount` | app/src/main/java/com/example/dominoesmealplanner/Screen.kt:208-233 | A menu of n items yields at most n(n+1)/2 combinations |
| `Combinations.ResultsBeforeCount` | app/src/main/java/com/example/dominoesmealplanner/Screen.kt:208-233 | The first i start indices yield at most i(2n-i+1)/2 combinations |
| `Combinations.NothingFitsWalk` | app/src/main/java/com/example/dominoesmealplanner/Screen.kt:219 | When every price exceeds `budget + 10`, the walk from any start index admits and emits nothing |
| `Combinations.NothingFitsNoCombinations` | app/src/main/java/com/example/dominoesmealplanner/Screen.kt:208-233 | When every price exceeds `budget + 10`, the search returns nothing |
| `Combinations.SilentStartsNoResults` | app/src/main/java/com/example/dominoesmealplanner/Screen.kt:208-233 | Start indices whose walk emits nothing add nothing to the result of the outer loop |
| `Combinations.EmptyMenu` | app/src/main/java/com/example/dominoesmealplanner/Screen.kt:208 | The empty menu yields the empty result for every budget |
| `Combinations.DuplicateAfterSkip` | app/src/main/java/com/example/dominoesmealplanner/Screen.kt:208-229 | With budget 100 and menu A(200), B(100), the result is [B], [B]: the same combination is emitted from two start indices |
| `Combinations.BandExample` | app/src/main/java/com/example/dominoesmealplanner/Screen.kt:204-236 | With budget 100 and menu A(100), B(105), C(50), the result is [A], [B]: C is admitted from its own start index, but its total of 50 is below the band |
| `Share.NatToString` | app/src/main/java/com/example/dominoesmealplanner/Screen.kt:182 | The decimal text of a natural number is non-empty, all digits, and has no leading zero |
| `Share.IntToString` | app/src/main/java/com/example/dominoesmealplanner/Screen.kt:182 | The decimal text of an integer is non-empty, holds no line break, and starts with a minus sign exactly when the number is negative |
| `Share.IntToStringRoundTrip` | app/src/main/java/com/example/dominoesmealplanner/Screen.kt:182 | The decimal text of every integer reads back as that integer |
| `Share.ShareMessage` | app/src/main/java/com/example/dominoesmealplanner/Screen.kt:179-180 | The message starts with the header "Check out this Domino's Meal Combo:" and a blank line |
| `Share.ItemTextOnOneLine` | app/src/main/java/com/example/dominoesmealplanner/Screen.kt:182 | An item whose name has no line break gives a one-line "name - ₹price" text |
| `Share.SplitItemLines` | app/src/main/java/com/example/dominoesmealplanner/Screen.kt:181-183 | The item lines split back into one "name - ₹price" text per item, in combination order |
| `Share.ShareMessageLines` | app/src/main/java/com/example/dominoesmealplanner/Screen.kt:179-185 | Split into lines, the message is the title, a blank line, one "name - ₹price" line per item in order, a blank line and "Total: ₹" with the price sum, and that number reads back as the sum of the prices. This holds when no item name contains a line break |

## Left out

- The Compose screen (`DominoesMealPlanner`, the layout of `CombinationCard`, the colours): presentation only.
- Parsing the budget text with `toIntOrNull() ?: 0`, and recomputing on every change: the model takes the budget as an arbitrary integer.
- Handing the message to Android's share sheet through an `Intent`, and the toast on failure: platform calls outside the model.
- The static `dominoMenu` list: fixed data. The concrete lemmas use small menus of their own.
- Kotlin's 32-bit `Int`: `budget + 10` and the running sums can wrap around at `Int.MAX_VALUE` in the app. The model uses unbounded integers.
- The running calories, carbs, protein and fat totals are updated but never read by the search. They are kept in `CalculateCombinations`, and its invariants state their values, but its contract says nothing about them.
- `Share.ShareMessageLines`: stated only for item names without line breaks. A name containing one would split into more lines.
