/** The food optimiser (task_6.py): chooses foods within a budget, greedily by calories per
    unit of cost, and exactly with a 0/1-knapsack table. */
module Food {
  import opened Wrappers
  import opened Seqs

  /** One food with its price and its energy (`FoodItem`). */
  datatype FoodItem = FoodItem(name: string, cost: int, calories: int)

  /** What both optimisers return: the chosen names, their total cost and total calories. */
  datatype Selection = Selection(names: seq<string>, totalCost: int, totalCalories: int)

  /** The exceptions the optimisers raise. */
  datatype Failure = ZeroDivisionError | IndexError

  // ---------------------------------------------------------------------------------------
  // Sums over a sequence of foods

  function SumCost(s: seq<FoodItem>): int
  {
    if s == [] then 0 else SumCost(Front(s)) + Last(s).cost
  }

  function SumCalories(s: seq<FoodItem>): int
  {
    if s == [] then 0 else SumCalories(Front(s)) + Last(s).calories
  }

  function Names(s: seq<FoodItem>): seq<string>
  {
    seq(|s|, i requires 0 <= i < |s| => s[i].name)
  }

  /** No two foods share a name (the names are the keys of a dictionary). */
  predicate DistinctNames(s: seq<FoodItem>)
  {
    forall i, j :: 0 <= i < j < |s| ==> s[i].name != s[j].name
  }

  /** The cost and calorie sums of a concatenation are the sums of the parts. */
  lemma {:induction false} SumsAppend(a: seq<FoodItem>, b: seq<FoodItem>)
    ensures SumCost(a + b) == SumCost(a) + SumCost(b)
    ensures SumCalories(a + b) == SumCalories(a) + SumCalories(b)
    decreases |b|
  {
    if b != [] {
      assert Front(a + b) == a + Front(b);
      SumsAppend(a, Front(b));
    } else {
      assert a + b == a;
    }
  }

  /** The sums of a sequence depend only on which foods it holds, each as often. */
  lemma {:induction false} SumsPermute(s: seq<FoodItem>, t: seq<FoodItem>)
    requires multiset(s) == multiset(t)
    ensures SumCost(s) == SumCost(t) && SumCalories(s) == SumCalories(t)
    decreases |s|
  {
    if s != [] {
      var x := Last(s);
      assert s == Front(s) + [x];
      assert x in multiset(t);
      var j :| 0 <= j < |t| && t[j] == x;
      SumsRemoveAt(t, j);
      MultisetRemoveAt(t, j);
      SumsPermute(Front(s), t[..j] + t[j + 1..]);
    } else {
      assert |t| == |multiset(t)| == 0;
    }
  }

  /** Taking the food at position `j` out of a sequence takes its price and calories out of
      the sums. */
  lemma SumsRemoveAt(t: seq<FoodItem>, j: nat)
    requires j < |t|
    ensures SumCost(t) == SumCost(t[..j] + t[j + 1..]) + t[j].cost
    ensures SumCalories(t) == SumCalories(t[..j] + t[j + 1..]) + t[j].calories
  {
    var before, x, after := t[..j], t[j], t[j + 1..];
    assert t[j..] == [x] + after;
    assert t == before + t[j..];
    SumsAppend(before, t[j..]);
    SumsAppend([x], after);
    SumsAppend(before, after);
    assert Front([x]) == [];
  }

  /** Taking the food at position `j` out of a sequence takes it out of the multiset. */
  lemma MultisetRemoveAt(t: seq<FoodItem>, j: nat)
    requires j < |t|
    ensures multiset(t[..j] + t[j + 1..]) == multiset(t) - multiset{t[j]}
  {
    assert t == t[..j] + [t[j]] + t[j + 1..];
  }

  // ---------------------------------------------------------------------------------------
  // The greedy order: calories per unit of cost, highest first

  /** The ratio `calories / cost` as a fraction with a positive denominator (for a cost other
      than zero). */
  function Num(x: FoodItem): int
  {
    if x.cost < 0 then -x.calories else x.calories
  }

  function Den(x: FoodItem): nat
  {
    if x.cost < 0 then -x.cost else x.cost
  }

  /** `x.calories / x.cost >= y.calories / y.cost`, compared exactly. */
  predicate RatioAtLeast(x: FoodItem, y: FoodItem)
  {
    Num(x) * Den(y) >= Num(y) * Den(x)
  }

  /** The order of ratios is transitive for foods whose cost is not zero. */
  lemma RatioTransitive(x: FoodItem, y: FoodItem, z: FoodItem)
    requires x.cost != 0 && y.cost != 0 && z.cost != 0
    requires RatioAtLeast(x, y) && RatioAtLeast(y, z)
    ensures RatioAtLeast(x, z)
  {
    CrossTransitive(Num(x), Den(x), Num(y), Den(y), Num(z), Den(z));
  }

  /** `a/p >= b/q >= c/r` implies `a/p >= c/r`, for positive denominators. */
  lemma CrossTransitive(a: int, p: int, b: int, q: int, c: int, r: int)
    requires p > 0 && q > 0 && r > 0
    requires a * q >= b * p && b * r >= c * q
    ensures a * r >= c * p
  {
    MulAtLeast(a * q, b * p, r);
    MulAtLeast(b * r, c * q, p);
    assert (a * q) * r == (a * r) * q;
    assert (b * p) * r == (b * r) * p;
    assert (c * q) * p == (c * p) * q;
    if a * r < c * p {
      MulLess(a * r, c * p, q);
    }
  }

  lemma MulAtLeast(u: int, v: int, k: nat)
    requires u >= v
    ensures u * k >= v * k
  {
  }

  lemma MulLess(u: int, v: int, k: int)
    requires u < v && k > 0
    ensures u * k < v * k
  {
  }

  /** Puts `x` in front of the first food of `s` whose ratio is not above its own. */
  function InsertByRatio(x: FoodItem, s: seq<FoodItem>): seq<FoodItem>
  {
    if s == [] || RatioAtLeast(x, s[0]) then [x] + s
    else [s[0]] + InsertByRatio(x, s[1..])
  }

  /** `sorted(items, key=calories / cost, reverse=True)`: a stable sort, highest ratio first;
      foods with equal ratios keep their order. */
  function SortByRatio(s: seq<FoodItem>): seq<FoodItem>
  {
    if s == [] then [] else InsertByRatio(s[0], SortByRatio(s[1..]))
  }

  /** Every food's ratio is at least that of every food after it. */
  predicate ByRatio(s: seq<FoodItem>)
  {
    forall i, j :: 0 <= i < j < |s| ==> RatioAtLeast(s[i], s[j])
  }

  predicate NoZeroCost(s: seq<FoodItem>)
  {
    forall x <- s :: x.cost != 0
  }

  /** Inserting adds exactly `x`. */
  lemma {:induction false} InsertByRatioMultiset(x: FoodItem, s: seq<FoodItem>)
    ensures multiset(InsertByRatio(x, s)) == multiset{x} + multiset(s)
  {
    if s != [] && !RatioAtLeast(x, s[0]) {
      InsertByRatioMultiset(x, s[1..]);
      assert s == [s[0]] + s[1..];
    }
  }

  lemma {:induction false} InsertByRatioMembers(x: FoodItem, s: seq<FoodItem>)
    ensures forall y <- InsertByRatio(x, s) :: y == x || y in s
  {
    if s != [] && !RatioAtLeast(x, s[0]) {
      InsertByRatioMembers(x, s[1..]);
    }
  }

  /** Inserting into a sequence in ratio order keeps it in ratio order. */
  lemma {:induction false} InsertByRatioOrdered(x: FoodItem, s: seq<FoodItem>)
    requires x.cost != 0 && NoZeroCost(s) && ByRatio(s)
    ensures ByRatio(InsertByRatio(x, s))
  {
    var r := InsertByRatio(x, s);
    if s == [] || RatioAtLeast(x, s[0]) {
      forall i, j | 0 <= i < j < |r|
        ensures RatioAtLeast(r[i], r[j])
      {
        if i == 0 && j > 1 {
          RatioTransitive(x, s[0], s[j - 1]);
        }
      }
    } else {
      var t := InsertByRatio(x, s[1..]);
      InsertByRatioOrdered(x, s[1..]);
      InsertByRatioMembers(x, s[1..]);
      assert r == [s[0]] + t;
      forall j | 0 < j < |r|
        ensures RatioAtLeast(r[0], r[j])
      {
        assert r[j] == t[j - 1];
        assert t[j - 1] in t;
        if r[j] != x {
          var k :| 0 <= k < |s[1..]| && s[1..][k] == r[j];
          assert s[k + 1] == r[j];
        }
      }
    }
  }

  lemma {:induction false} SortByRatioMultiset(s: seq<FoodItem>)
    ensures multiset(SortByRatio(s)) == multiset(s)
  {
    if s != [] {
      SortByRatioMultiset(s[1..]);
      InsertByRatioMultiset(s[0], SortByRatio(s[1..]));
      assert s == [s[0]] + s[1..];
    }
  }

  lemma {:induction false} SortByRatioMembers(s: seq<FoodItem>)
    ensures forall y <- SortByRatio(s) :: y in s
  {
    if s != [] {
      SortByRatioMembers(s[1..]);
      InsertByRatioMembers(s[0], SortByRatio(s[1..]));
    }
  }

  /** The greedy order holds every food once and puts higher ratios first. */
  lemma {:induction false} SortByRatioOrdered(s: seq<FoodItem>)
    requires NoZeroCost(s)
    ensures ByRatio(SortByRatio(s)) && multiset(SortByRatio(s)) == multiset(s)
  {
    SortByRatioMultiset(s);
    if s != [] {
      SortByRatioOrdered(s[1..]);
      SortByRatioMembers(s[1..]);
      InsertByRatioOrdered(s[0], SortByRatio(s[1..]));
    }
  }

  /** `x` and `y` have the same ratio. */
  predicate SameRatio(x: FoodItem, y: FoodItem)
  {
    RatioAtLeast(x, y) && RatioAtLeast(y, x)
  }

  /** The foods of `s` whose ratio equals that of `y`, in their order in `s`. */
  function Tied(s: seq<FoodItem>, y: FoodItem): seq<FoodItem>
  {
    if s == [] then [] else (if SameRatio(s[0], y) then [s[0]] else []) + Tied(s[1..], y)
  }

  /** Inserting `x` puts it in front of every food already there with the same ratio as `x`,
      and leaves the order of the others with that ratio alone. */
  lemma {:induction false} InsertByRatioTied(x: FoodItem, s: seq<FoodItem>, y: FoodItem)
    requires x.cost != 0 && y.cost != 0 && NoZeroCost(s)
    ensures Tied(InsertByRatio(x, s), y) == Tied([x] + s, y)
  {
    if s != [] && !RatioAtLeast(x, s[0]) {
      var rest := InsertByRatio(x, s[1..]);
      InsertByRatioTied(x, s[1..], y);
      assert ([s[0]] + rest)[1..] == rest && ([x] + s[1..])[1..] == s[1..] && ([x] + s)[1..] == s;
      if SameRatio(x, y) && SameRatio(s[0], y) {
        RatioTransitive(x, y, s[0]);
      }
    }
  }

  /** The greedy order is stable: foods with equal ratios keep their relative order, as in
      Python's `sorted`. */
  lemma {:induction false} SortByRatioStable(s: seq<FoodItem>, y: FoodItem)
    requires NoZeroCost(s) && y.cost != 0
    ensures Tied(SortByRatio(s), y) == Tied(s, y)
  {
    if s != [] {
      SortByRatioStable(s[1..], y);
      SortByRatioMembers(s[1..]);
      InsertByRatioTied(s[0], SortByRatio(s[1..]), y);
      assert ([s[0]] + SortByRatio(s[1..]))[1..] == SortByRatio(s[1..]);
    }
  }

  // ---------------------------------------------------------------------------------------
  // The greedy selection

  /** The foods the greedy loop takes from `s` when `spent` of the budget is already used:
      each food in turn, if it still fits. */
  function GreedyPick(s: seq<FoodItem>, budget: int, spent: int): seq<FoodItem>
  {
    if s == [] then []
    else if spent + s[0].cost <= budget then [s[0]] + GreedyPick(s[1..], budget, spent + s[0].cost)
    else GreedyPick(s[1..], budget, spent)
  }

  /** What `greedy_algorithm` returns: `ZeroDivisionError` when a ratio cannot be computed,
      otherwise the greedy pick over the foods in ratio order. */
  function Greedy(items: seq<FoodItem>, budget: int): Result<Selection, Failure>
  {
    if !NoZeroCost(items) then Err(ZeroDivisionError)
    else
      var picked := GreedyPick(SortByRatio(items), budget, 0);
      Ok(Selection(Names(picked), SumCost(picked), SumCalories(picked)))
  }

  /** Once the greedy loop has taken a food, the total it has spent stays within the budget. */
  lemma {:induction false} GreedyWithinBudget(s: seq<FoodItem>, budget: int, spent: int)
    ensures var p := GreedyPick(s, budget, spent); p == [] || spent + SumCost(p) <= budget
  {
    if s != [] {
      var x := s[0];
      if spent + x.cost <= budget {
        var q := GreedyPick(s[1..], budget, spent + x.cost);
        GreedyWithinBudget(s[1..], budget, spent + x.cost);
        SumsAppend([x], q);
        assert SumCost([x]) == x.cost by {
          assert Front([x]) == [];
        }
      } else {
        GreedyWithinBudget(s[1..], budget, spent);
      }
    }
  }

  /** The greedy loop takes only foods it is offered, each at most as often as offered. */
  lemma {:induction false} GreedyPicksFrom(s: seq<FoodItem>, budget: int, spent: int)
    ensures multiset(GreedyPick(s, budget, spent)) <= multiset(s)
  {
    if s != [] {
      assert s == [s[0]] + s[1..];
      if spent + s[0].cost <= budget {
        GreedyPicksFrom(s[1..], budget, spent + s[0].cost);
      } else {
        GreedyPicksFrom(s[1..], budget, spent);
      }
    }
  }

  /** With no negative prices, the greedy selection cannot be extended: every food it left
      out would take the total it spent over the budget. */
  lemma GreedyMaximal(s: seq<FoodItem>, budget: int, spent: int)
    requires forall x <- s :: x.cost >= 0
    ensures var p := GreedyPick(s, budget, spent);
      forall x | x in multiset(s) && multiset(p)[x] < multiset(s)[x] :: spent + SumCost(p) + x.cost > budget
  {
    var p := GreedyPick(s, budget, spent);
    forall x | x in multiset(s) && multiset(p)[x] < multiset(s)[x]
      ensures spent + SumCost(p) + x.cost > budget
    {
      LeftOutOverflows(s, budget, spent, x);
    }
  }

  lemma {:induction false} LeftOutOverflows(s: seq<FoodItem>, budget: int, spent: int, x: FoodItem)
    requires forall y <- s :: y.cost >= 0
    requires multiset(GreedyPick(s, budget, spent))[x] < multiset(s)[x]
    ensures spent + SumCost(GreedyPick(s, budget, spent)) + x.cost > budget
  {
    var y, rest := s[0], s[1..];
    assert s == [y] + rest;
    assert multiset(s)[x] == multiset([y])[x] + multiset(rest)[x];
    var p := GreedyPick(s, budget, spent);
    if spent + y.cost <= budget {
      var q := GreedyPick(rest, budget, spent + y.cost);
      assert p == [y] + q;
      assert multiset(p)[x] == multiset([y])[x] + multiset(q)[x];
      LeftOutOverflows(rest, budget, spent + y.cost, x);
      SumsAppend([y], q);
      assert SumCost([y]) == y.cost by {
        assert Front([y]) == [];
      }
    } else if x == y {
      GreedyPicksFrom(rest, budget, spent);
      forall z | z in p
        ensures z.cost >= 0
      {
        assert z in multiset(rest);
      }
      SumCostNonNegative(p);
    } else {
      LeftOutOverflows(rest, budget, spent, x);
    }
  }

  lemma {:induction false} SumCostNonNegative(s: seq<FoodItem>)
    requires forall x <- s :: x.cost >= 0
    ensures SumCost(s) >= 0
  {
    if s != [] {
      SumCostNonNegative(Front(s));
    }
  }

  // ---------------------------------------------------------------------------------------
  // The knapsack table

  predicate NoNegativeCost(s: seq<FoodItem>)
  {
    forall x <- s :: x.cost >= 0
  }

  function Max(a: int, b: int): int
  {
    if a >= b then a else b
  }

  /** Entry `[|s|][c]` of the table: the recurrence the table is filled with, row by row. */
  function Best(s: seq<FoodItem>, c: nat): int
  {
    if s == [] then 0
    else
      var x := Last(s);
      if x.cost <= c then Max(Best(Front(s), c), Best(Front(s), c - x.cost) + x.calories)
      else Best(Front(s), c)
  }

  /** The names the backtracking loop collects from row `|s|` down to row 1, starting with
      `c` of the budget left: a food is taken when its row differs from the row above. */
  function Backtrack(s: seq<FoodItem>, c: nat): seq<string>
  {
    if s == [] then []
    else if Best(s, c) != Best(Front(s), c) then [Last(s).name] + Backtrack(Front(s), c - Last(s).cost)
    else Backtrack(Front(s), c)
  }

  /** `sum(item.cost for item in items if item.name in names)`. */
  function CostOfNamed(s: seq<FoodItem>, names: seq<string>): int
  {
    if s == [] then 0
    else CostOfNamed(Front(s), names) + (if Last(s).name in names then Last(s).cost else 0)
  }

  /** What `dynamic_programming` returns: `IndexError` when the table is read outside its
      bounds (a negative budget or a negative price), otherwise the backtracked names in food
      order, their cost and the table's last entry. */
  function Knapsack(items: seq<FoodItem>, budget: int): Result<Selection, Failure>
  {
    if budget < 0 || !NoNegativeCost(items) then Err(IndexError)
    else
      var names := Reverse(Backtrack(items, budget));
      Ok(Selection(names, CostOfNamed(items, names), Best(items, budget)))
  }

  // Subsets of the foods, as one flag per food

  /** The foods of `s` whose flag is set, in their order in `s`. */
  function Chosen(s: seq<FoodItem>, flags: seq<bool>): seq<FoodItem>
    requires |flags| == |s|
  {
    if s == [] then []
    else Chosen(Front(s), Front(flags)) + (if Last(flags) then [Last(s)] else [])
  }

  /** The subset the backtracking loop selects, as flags. */
  function Trace(s: seq<FoodItem>, c: nat): (flags: seq<bool>)
    ensures |flags| == |s|
  {
    if s == [] then []
    else if Best(s, c) != Best(Front(s), c) then Trace(Front(s), c - Last(s).cost) + [true]
    else Trace(Front(s), c) + [false]
  }

  /** Flags picking out the foods of the sub-multiset `m` of `s`. */
  function FlagsFor(s: seq<FoodItem>, m: multiset<FoodItem>): (flags: seq<bool>)
    ensures |flags| == |s|
  {
    if s == [] then []
    else if Last(s) in m then FlagsFor(Front(s), m - multiset{Last(s)}) + [true]
    else FlagsFor(Front(s), m) + [false]
  }

  /** Extending the foods by one extends the selection by that food when its flag is set. */
  lemma ChosenSnoc(s: seq<FoodItem>, flags: seq<bool>)
    requires |flags| == |s| && s != []
    ensures var rest, x := Chosen(Front(s), Front(flags)), Last(s);
      && Names(Chosen(s, flags)) == Names(rest) + (if Last(flags) then [x.name] else [])
      && SumCost(Chosen(s, flags)) == SumCost(rest) + (if Last(flags) then x.cost else 0)
      && SumCalories(Chosen(s, flags)) == SumCalories(rest) + (if Last(flags) then x.calories else 0)
  {
    var rest, x := Chosen(Front(s), Front(flags)), Last(s);
    if Last(flags) {
      assert Chosen(s, flags) == rest + [x];
      assert Front(rest + [x]) == rest;
    } else {
      assert Chosen(s, flags) == rest;
    }
  }

  lemma {:induction false} ChosenFrom(s: seq<FoodItem>, flags: seq<bool>)
    requires |flags| == |s|
    ensures multiset(Chosen(s, flags)) <= multiset(s)
  {
    if s != [] {
      ChosenFrom(Front(s), Front(flags));
      assert s == Front(s) + [Last(s)];
    }
  }

  /** Every sub-multiset of the foods is a subset some flags pick out. */
  lemma {:induction false} FlagsForChosen(s: seq<FoodItem>, m: multiset<FoodItem>)
    requires m <= multiset(s)
    ensures multiset(Chosen(s, FlagsFor(s, m))) == m
  {
    if s != [] {
      var x, front := Last(s), Front(s);
      assert s == front + [x];
      var flags := FlagsFor(s, m);
      var rest := Chosen(front, Front(flags));
      if x in m {
        var m' := m - multiset{x};
        assert Front(flags) == FlagsFor(front, m') && Last(flags);
        SubMultisetFront(s, m, x);
        FlagsForChosen(front, m');
        assert Chosen(s, flags) == rest + [x];
        assert m' + multiset{x} == m;
      } else {
        assert Front(flags) == FlagsFor(front, m) && !Last(flags);
        SubMultisetFront(s, m, x);
        FlagsForChosen(front, m);
        assert Chosen(s, flags) == rest;
      }
    }
  }

  /** Taking the last food out of the multiset, when it is there, leaves a sub-multiset of the
      foods before it. */
  lemma SubMultisetFront(s: seq<FoodItem>, m: multiset<FoodItem>, x: FoodItem)
    requires s != [] && x == Last(s) && m <= multiset(s)
    ensures (if x in m then m - multiset{x} else m) <= multiset(Front(s))
  {
    assert s == Front(s) + [x];
    var m' := if x in m then m - multiset{x} else m;
    forall y | y in m'
      ensures m'[y] <= multiset(Front(s))[y]
    {
      assert multiset(s)[y] == multiset(Front(s))[y] + multiset{x}[y];
    }
  }

  lemma {:induction false} ChosenCostNonNegative(s: seq<FoodItem>, flags: seq<bool>)
    requires |flags| == |s| && NoNegativeCost(s)
    ensures SumCost(Chosen(s, flags)) >= 0
  {
    if s != [] {
      ChosenCostNonNegative(Front(s), Front(flags));
      ChosenSnoc(s, flags);
    }
  }

  /** The table's recurrence is an upper bound: no subset of the foods that costs at most `c`
      has more calories than `Best(s, c)`. */
  lemma {:induction false} BestIsUpperBound(s: seq<FoodItem>, c: nat, flags: seq<bool>)
    requires |flags| == |s| && NoNegativeCost(s)
    requires SumCost(Chosen(s, flags)) <= c
    ensures SumCalories(Chosen(s, flags)) <= Best(s, c)
  {
    if s != [] {
      var x, front, rest := Last(s), Front(s), Chosen(Front(s), Front(flags));
      ChosenSnoc(s, flags);
      ChosenCostNonNegative(front, Front(flags));
      if Last(flags) {
        assert x.cost <= c;
        BestIsUpperBound(front, c - x.cost, Front(flags));
        assert Best(s, c) >= Best(front, c - x.cost) + x.calories;
      } else {
        BestIsUpperBound(front, c, Front(flags));
        assert Best(s, c) >= Best(front, c);
      }
    }
  }

  /** Where the backtracking loop takes a food, the table's entry came from taking it. */
  lemma BestTaken(s: seq<FoodItem>, c: nat)
    requires s != [] && Best(s, c) != Best(Front(s), c)
    ensures Last(s).cost <= c && Best(s, c) == Best(Front(s), c - Last(s).cost) + Last(s).calories
  {
  }

  /** The backtracked subset reaches the bound: it costs at most `c` and has exactly
      `Best(s, c)` calories. */
  lemma {:induction false} TraceAchievesBest(s: seq<FoodItem>, c: nat)
    requires NoNegativeCost(s)
    ensures SumCost(Chosen(s, Trace(s, c))) <= c
    ensures SumCalories(Chosen(s, Trace(s, c))) == Best(s, c)
  {
    if s != [] {
      var flags := Trace(s, c);
      ChosenSnoc(s, flags);
      if Best(s, c) != Best(Front(s), c) {
        BestTaken(s, c);
        assert Front(flags) == Trace(Front(s), c - Last(s).cost) && Last(flags);
        TraceAchievesBest(Front(s), c - Last(s).cost);
      } else {
        assert Front(flags) == Trace(Front(s), c) && !Last(flags);
        TraceAchievesBest(Front(s), c);
      }
    }
  }

  /** The names the backtracking loop collects, once reversed, are the names of the traced
      subset in food order. */
  lemma {:induction false} BacktrackNames(s: seq<FoodItem>, c: nat)
    ensures Reverse(Backtrack(s, c)) == Names(Chosen(s, Trace(s, c)))
  {
    if s != [] {
      var flags := Trace(s, c);
      ChosenSnoc(s, flags);
      if Best(s, c) != Best(Front(s), c) {
        var b := Backtrack(Front(s), c - Last(s).cost);
        assert Front(flags) == Trace(Front(s), c - Last(s).cost) && Last(flags);
        BacktrackNames(Front(s), c - Last(s).cost);
        assert ([Last(s).name] + b)[1..] == b;
        assert Reverse([Last(s).name] + b) == Reverse(b) + [Last(s).name];
      } else {
        assert Front(flags) == Trace(Front(s), c) && !Last(flags);
        BacktrackNames(Front(s), c);
      }
    }
  }

  /** The names of the foods before the last are distinct and differ from the last one's. */
  lemma DistinctFront(s: seq<FoodItem>)
    requires s != [] && DistinctNames(s)
    ensures DistinctNames(Front(s)) && Last(s).name !in Names(Front(s))
    ensures Names(s) == Names(Front(s)) + [Last(s).name]
  {
    var front := Front(s);
    forall k | 0 <= k < |front|
      ensures Names(front)[k] != Last(s).name
    {
      assert front[k] == s[k];
    }
  }

  /** Every selected name is the name of one of the foods. */
  lemma {:induction false} ChosenNamesFrom(s: seq<FoodItem>, flags: seq<bool>)
    requires |flags| == |s|
    ensures forall n <- Names(Chosen(s, flags)) :: n in Names(s)
  {
    if s != [] {
      ChosenNamesFrom(Front(s), Front(flags));
      ChosenSnoc(s, flags);
      assert Names(s) == Names(Front(s)) + [Last(s).name];
    }
  }

  /** With distinct names, summing the prices of the foods whose name was selected gives the
      price of the selected subset (`extra` holds names of no food). */
  lemma {:induction false} CostOfChosenNames(s: seq<FoodItem>, flags: seq<bool>, extra: seq<string>)
    requires |flags| == |s| && DistinctNames(s)
    requires forall n <- extra :: n !in Names(s)
    ensures CostOfNamed(s, Names(Chosen(s, flags)) + extra) == SumCost(Chosen(s, flags))
  {
    if s != [] {
      var x, front := Last(s), Front(s);
      var rest := Chosen(front, Front(flags));
      var tail := if Last(flags) then [x.name] else [];
      ChosenSnoc(s, flags);
      DistinctFront(s);
      ChosenNamesFrom(front, Front(flags));
      CostOfChosenNames(front, Front(flags), tail + extra);
      assert Names(rest) + tail + extra == Names(rest) + (tail + extra);
      assert x.name in Names(rest) + tail + extra <==> Last(flags);
    }
  }

  /** The knapsack result is the traced subset: names in food order, its price, and the
      table's last entry as its calories, which stay within the budget. */
  lemma KnapsackSelects(items: seq<FoodItem>, budget: int)
    requires Knapsack(items, budget).Ok? && DistinctNames(items)
    ensures var r, chosen := Knapsack(items, budget).value, Chosen(items, Trace(items, budget));
      r.names == Names(chosen) && r.totalCost == SumCost(chosen) <= budget && r.totalCalories == SumCalories(chosen)
  {
    BacktrackNames(items, budget);
    TraceAchievesBest(items, budget);
    var chosen := Chosen(items, Trace(items, budget));
    CostOfChosenNames(items, Trace(items, budget), []);
    assert Names(chosen) + [] == Names(chosen);
  }

  /** No affordable subset of the foods has more calories than the knapsack result. */
  lemma KnapsackOptimal(items: seq<FoodItem>, budget: int, flags: seq<bool>)
    requires Knapsack(items, budget).Ok? && |flags| == |items|
    requires SumCost(Chosen(items, flags)) <= budget
    ensures SumCalories(Chosen(items, flags)) <= Knapsack(items, budget).value.totalCalories
  {
    BestIsUpperBound(items, budget, flags);
  }

  /** The exact optimiser never does worse than the greedy one. */
  lemma KnapsackBeatsGreedy(items: seq<FoodItem>, budget: int)
    requires Greedy(items, budget).Ok? && Knapsack(items, budget).Ok?
    ensures Greedy(items, budget).value.totalCalories <= Knapsack(items, budget).value.totalCalories
  {
    var sorted := SortByRatio(items);
    var p := GreedyPick(sorted, budget, 0);
    SortByRatioOrdered(items);
    GreedyPicksFrom(sorted, budget, 0);
    var flags := FlagsFor(items, multiset(p));
    FlagsForChosen(items, multiset(p));
    SumsPermute(Chosen(items, flags), p);
    GreedyWithinBudget(sorted, budget, 0);
    BestIsUpperBound(items, budget, flags);
  }

  // ---------------------------------------------------------------------------------------
  // The optimiser

  class FoodOptimizer {
    const items: seq<FoodItem>

    /** Loads one food per entry, in the entries' order; the entries come from a dictionary,
        so their names are distinct, and each holds a price and a calorie count. */
    constructor(entries: seq<(string, map<string, int>)>)
      requires forall i, j :: 0 <= i < j < |entries| ==> entries[i].0 != entries[j].0
      requires forall e <- entries :: "cost" in e.1 && "calories" in e.1
      ensures |items| == |entries| && DistinctNames(items)
      ensures forall i :: 0 <= i < |items| ==>
        items[i].name == entries[i].0 && items[i].cost == entries[i].1["cost"] && items[i].calories == entries[i].1["calories"]
    {
      items := seq(|entries|, i requires 0 <= i < |entries| =>
        FoodItem(entries[i].0, entries[i].1["cost"], entries[i].1["calories"]));
    }

    /** `greedy_algorithm`: scans the foods by ratio, highest first, taking each that still
        fits the budget. */
    method GreedyAlgorithm(budget: int) returns (r: Result<Selection, Failure>)
      ensures r == Greedy(items, budget)
      ensures r.Err? <==> exists x <- items :: x.cost == 0
      ensures r.Ok? ==> r.value.names == [] || r.value.totalCost <= budget
    {
      if !NoZeroCost(items) {
        return Err(ZeroDivisionError);
      }
      var sortedItems := SortByRatio(items);
      var names, totalCost, totalCalories := GreedyScan(sortedItems, budget);
      GreedyWithinBudget(sortedItems, budget, 0);
      return Ok(Selection(names, totalCost, totalCalories));
    }

    /** `dynamic_programming`: fills the table row by row, backtracks from the last row, and
        totals the selected foods. */
    method DynamicProgramming(budget: int) returns (r: Result<Selection, Failure>)
      ensures r == Knapsack(items, budget)
      ensures r.Err? <==> budget < 0 || exists x <- items :: x.cost < 0
    {
      if budget < 0 || !NoNegativeCost(items) {
        return Err(IndexError);
      }
      var table := FillTable(items, budget);
      var selected := BacktrackTable(table, items, budget);
      selected := Reverse(selected);
      var totalCost := CostOfSelected(items, selected);
      assert items[..|items|] == items;
      return Ok(Selection(selected, totalCost, table[|items|, budget]));
    }
  }

  /** The table of `dynamic_programming`: row 0 all zeros, then each row from the one above. */
  method FillTable(items: seq<FoodItem>, budget: nat) returns (table: array2<int>)
    requires NoNegativeCost(items)
    ensures fresh(table) && table.Length0 == |items| + 1 && table.Length1 == budget + 1
    ensures forall i, c :: 0 <= i <= |items| && 0 <= c <= budget ==> table[i, c] == Best(items[..i], c)
  {
    table := new int[|items| + 1, budget + 1]((_, _) => 0);
    for row := 1 to |items| + 1
      invariant forall i, c :: 0 <= i < row && 0 <= c <= budget ==> table[i, c] == Best(items[..i], c)
    {
      FillRow(table, items, row);
    }
  }

  /** The backtracking loop of `dynamic_programming`: from the last row up, takes a food when
      its row differs from the row above at the budget still left. */
  method BacktrackTable(table: array2<int>, items: seq<FoodItem>, budget: nat) returns (selected: seq<string>)
    requires NoNegativeCost(items)
    requires table.Length0 == |items| + 1 && table.Length1 == budget + 1
    requires forall i, c :: 0 <= i <= |items| && 0 <= c <= budget ==> table[i, c] == Best(items[..i], c)
    ensures selected == Backtrack(items, budget)
  {
    selected := [];
    var remaining: nat := budget;
    var row := |items|;
    assert items[..row] == items;
    while row > 0
      invariant 0 <= row <= |items| && remaining <= budget
      invariant selected + Backtrack(items[..row], remaining) == Backtrack(items, budget)
    {
      BacktrackStep(items, row, remaining, selected, budget);
      if table[row, remaining] != table[row - 1, remaining] {
        var item := items[row - 1];
        selected := selected + [item.name];
        remaining := remaining - item.cost;
      }
      row := row - 1;
    }
    assert selected + [] == selected;
  }

  /** One step of the backtracking loop, at row `row` with `c` of the budget left. */
  lemma BacktrackStep(items: seq<FoodItem>, row: nat, c: nat, selected: seq<string>, budget: nat)
    requires 0 < row <= |items| && NoNegativeCost(items)
    requires selected + Backtrack(items[..row], c) == Backtrack(items, budget)
    ensures var s, x := items[..row], items[row - 1];
      && (Best(s, c) != Best(items[..row - 1], c) ==>
          x.cost <= c && (selected + [x.name]) + Backtrack(items[..row - 1], c - x.cost) == Backtrack(items, budget))
      && (Best(s, c) == Best(items[..row - 1], c) ==>
          selected + Backtrack(items[..row - 1], c) == Backtrack(items, budget))
  {
    var s := items[..row];
    assert Front(s) == items[..row - 1] && Last(s) == items[row - 1];
    if Best(s, c) != Best(Front(s), c) {
      BestTaken(s, c);
      var rest := Backtrack(Front(s), c - Last(s).cost);
      assert selected + ([Last(s).name] + rest) == (selected + [Last(s).name]) + rest;
    }
  }

  /** `sum(item.cost for item in items if item.name in names)`, as a loop over the foods. */
  method CostOfSelected(items: seq<FoodItem>, names: seq<string>) returns (total: int)
    ensures total == CostOfNamed(items, names)
  {
    total := 0;
    for i := 0 to |items|
      invariant total == CostOfNamed(items[..i], names)
    {
      assert Front(items[..i + 1]) == items[..i];
      if items[i].name in names {
        total := total + items[i].cost;
      }
    }
    assert items[..|items|] == items;
  }

  /** The selection loop of `greedy_algorithm` over the foods in ratio order. */
  method GreedyScan(sortedItems: seq<FoodItem>, budget: int) returns (names: seq<string>, totalCost: int, totalCalories: int)
    ensures var picked := GreedyPick(sortedItems, budget, 0);
      names == Names(picked) && totalCost == SumCost(picked) && totalCalories == SumCalories(picked)
  {
    names, totalCost, totalCalories := [], 0, 0;
    ghost var picked: seq<FoodItem> := [];
    for k := 0 to |sortedItems|
      invariant picked + GreedyPick(sortedItems[k..], budget, totalCost) == GreedyPick(sortedItems, budget, 0)
      invariant names == Names(picked) && totalCost == SumCost(picked) && totalCalories == SumCalories(picked)
    {
      var item := sortedItems[k];
      GreedyScanStep(sortedItems, k, budget, picked, totalCost);
      if totalCost + item.cost <= budget {
        names := names + [item.name];
        totalCost := totalCost + item.cost;
        totalCalories := totalCalories + item.calories;
        PickOneMore(picked, item);
        picked := picked + [item];
      }
    }
    assert sortedItems[|sortedItems|..] == [];
    assert picked + [] == picked;
  }

  /** One step of the greedy scan, at position `k` of the foods: what has been picked so far,
      followed by what the rest of the scan picks, is still the whole greedy pick. */
  lemma GreedyScanStep(s: seq<FoodItem>, k: nat, budget: int, picked: seq<FoodItem>, spent: int)
    requires k < |s| && picked + GreedyPick(s[k..], budget, spent) == GreedyPick(s, budget, 0)
    ensures spent + s[k].cost <= budget ==>
      (picked + [s[k]]) + GreedyPick(s[k + 1..], budget, spent + s[k].cost) == GreedyPick(s, budget, 0)
    ensures spent + s[k].cost > budget ==>
      picked + GreedyPick(s[k + 1..], budget, spent) == GreedyPick(s, budget, 0)
  {
    assert s[k..][1..] == s[k + 1..];
    if spent + s[k].cost <= budget {
      var rest := GreedyPick(s[k + 1..], budget, spent + s[k].cost);
      assert picked + ([s[k]] + rest) == (picked + [s[k]]) + rest;
    }
  }

  /** The names and sums of a selection grown by one food. */
  lemma PickOneMore(picked: seq<FoodItem>, x: FoodItem)
    ensures Names(picked + [x]) == Names(picked) + [x.name]
    ensures SumCost(picked + [x]) == SumCost(picked) + x.cost
    ensures SumCalories(picked + [x]) == SumCalories(picked) + x.calories
  {
    assert Front(picked + [x]) == picked;
  }

  /** Fills row `row` of the table from the row above it. */
  method FillRow(table: array2<int>, items: seq<FoodItem>, row: nat)
    requires 1 <= row < table.Length0 == |items| + 1 && NoNegativeCost(items)
    requires forall i, c :: 0 <= i < row && 0 <= c < table.Length1 ==> table[i, c] == Best(items[..i], c)
    modifies table
    ensures forall i, c :: 0 <= i <= row && 0 <= c < table.Length1 ==> table[i, c] == Best(items[..i], c)
    ensures forall i, c :: 0 <= i < table.Length0 && 0 <= c < table.Length1 && i != row ==> table[i, c] == old(table[i, c])
  {
    var item := items[row - 1];
    assert Front(items[..row]) == items[..row - 1] && Last(items[..row]) == item;
    for limit := 0 to table.Length1
      invariant forall c :: 0 <= c < limit ==> table[row, c] == Best(items[..row], c)
      invariant forall i, c :: 0 <= i < table.Length0 && 0 <= c < table.Length1 && i != row ==> table[i, c] == old(table[i, c])
    {
      if item.cost <= limit {
        table[row, limit] := Max(table[row - 1, limit], table[row - 1, limit - item.cost] + item.calories);
      } else {
        table[row, limit] := table[row - 1, limit];
      }
    }
  }
}
