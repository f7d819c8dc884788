/**
 * The oblivious quote tournament: the generated in-place minimum searches over packed keys, and
 * the exact sizes for which they find the least key.
 */
module Tournament {
  import opened BitWidth
  import opened Circuit
  import opened Counting
  import opened Intervals
  import Limbs
  import P = Polynomials

  ghost predicate IsLeast(r: int, keys: seq<int>) {
    r in keys && forall i :: 0 <= i < |keys| ==> r <= keys[i]
  }

  // ----- blocks of keys -----

  /** Where member g of block p stands when every block has m members. */
  ghost function Index(m: nat, p: nat, g: nat): nat { m * p + g }

  lemma Gap(m: nat, p: nat, q: nat)
    ensures q > p ==> m * q >= m * p + m
  {
    Distribute(m, p, q - p);
    if q > p { AtLeast(m, q - p); }
  }

  lemma Distribute(m: int, p: int, d: int)
    ensures m * (p + d) == m * p + m * d
  {}

  lemma AtLeast(m: nat, d: nat)
    requires d >= 1
    ensures m * d >= m
  {
    Distribute(m, 1, d - 1);
  }

  lemma IndexBound(m: nat, a: nat, p: nat, g: nat)
    requires p < a && g < m
    ensures Index(m, p, g) < Index(m, a, 0) && Index(m, p, 0) <= Index(m, a, 0)
  {
    Gap(m, p, a);
  }

  lemma IndexUnique(m: nat, p: nat, g: nat, q: nat, h: nat)
    requires g < m && h < m && Index(m, p, g) == Index(m, q, h)
    ensures p == q && g == h
  {
    Gap(m, p, q);
    Gap(m, q, p);
  }

  lemma IndexSplits(m: nat, i: nat, a: nat)
    requires m >= 1
    ensures i == Index(m, i / m, i % m)
    ensures i < Index(m, a, 0) ==> i / m < a
  {
    Gap(m, a, i / m);
  }

  lemma IndexDivides(m: nat, p: nat, g: nat)
    requires g < m
    ensures Index(m, p, g) / m == p && Index(m, p, g) % m == g
  {
    var i := Index(m, p, g);
    IndexSplits(m, i, 0);
    IndexUnique(m, p, g, i / m, i % m);
  }

  lemma Groups(size: nat, a: nat)
    requires 1 <= a <= size
    ensures 1 <= size / a && Index(size / a, a, 0) <= size && (a >= 2 ==> size / a < size)
    ensures size % a == 0 <==> Index(size / a, a, 0) == size
  {
    var q, r := size / a, size % a;
    assert size == a * q + r && 0 <= r < a;
    assert q * a == a * q;
    if a >= 2 && q >= 1 {
      Distribute(q, 2, a - 2);
    }
  }

  // ----- one level -----

  /** The members of each group; never more than there are keys. */
  function Fan(size: nat, arity: nat): nat { if arity < size then arity else size }

  /** The least of the first a members of group g. */
  ghost function BlockMin(keys: seq<int>, groups: nat, g: nat, a: nat): int
    requires 1 <= a && g < groups && Index(groups, a, 0) <= |keys|
  {
    IndexBound(groups, a, a - 1, g);
    var last := keys[Index(groups, a - 1, g)];
    if a == 1 then last else Min(BlockMin(keys, groups, g, a - 1), last)
  }

  /** One round: block p holds the p-th member of every group, and each group keeps its least. */
  ghost function Level(keys: seq<int>, arity: nat): (r: seq<int>)
    requires |keys| >= 2 && arity >= 2
    ensures 1 <= |r| == |keys| / Fan(|keys|, arity) < |keys|
    ensures Index(|r|, Fan(|keys|, arity), 0) <= |keys|
    ensures forall g :: 0 <= g < |r| ==> r[g] == BlockMin(keys, |r|, g, Fan(|keys|, arity))
  {
    var a := Fan(|keys|, arity);
    Groups(|keys|, a);
    seq(|keys| / a, g requires 0 <= g < |keys| / a => BlockMin(keys, |keys| / a, g, a))
  }

  /** What the tournament computes. */
  ghost function Winner(keys: seq<int>, arity: nat): int
    requires |keys| >= 1 && arity >= 2
    decreases |keys|
  {
    if |keys| == 1 then keys[0] else Winner(Level(keys, arity), arity)
  }

  /** The member that wins a group, and that it beats every other. */
  lemma {:induction false} BlockMinIsLeast(keys: seq<int>, groups: nat, g: nat, a: nat, q: nat) returns (p: nat)
    requires 1 <= a && g < groups && Index(groups, a, 0) <= |keys| && q < a
    ensures p < a && Index(groups, p, g) < Index(groups, a, 0)
            && keys[Index(groups, p, g)] == BlockMin(keys, groups, g, a)
    ensures Index(groups, q, g) < Index(groups, a, 0) && BlockMin(keys, groups, g, a) <= keys[Index(groups, q, g)]
  {
    hide Index;
    IndexBound(groups, a, a - 1, g);
    IndexBound(groups, a, q, g);
    if a == 1 {
      p := 0;
    } else {
      p := BlockMinIsLeast(keys, groups, g, a - 1, if q < a - 1 then q else 0);
      if keys[Index(groups, a - 1, g)] < BlockMin(keys, groups, g, a - 1) { p := a - 1; }
    }
  }

  lemma LevelDistinct(keys: seq<int>, arity: nat)
    requires |keys| >= 2 && arity >= 2 && Distinct(keys)
    ensures Distinct(Level(keys, arity))
  {
    hide Index, BlockMin;
    var a, r := Fan(|keys|, arity), Level(keys, arity);
    forall g, g' | 0 <= g < g' < |r| ensures r[g] != r[g'] {
      var p := BlockMinIsLeast(keys, |r|, g, a, 0);
      var p' := BlockMinIsLeast(keys, |r|, g', a, 0);
      if Index(|r|, p, g) == Index(|r|, p', g') { IndexUnique(|r|, p, g, p', g'); }
    }
  }

  /** A level that leaves nobody out keeps the least key. */
  lemma LevelKeepsLeast(keys: seq<int>, arity: nat, r: int)
    requires |keys| >= 2 && arity >= 2 && |keys| % Fan(|keys|, arity) == 0
    requires IsLeast(r, Level(keys, arity))
    ensures IsLeast(r, keys)
  {
    hide Index, BlockMin;
    var a, next := Fan(|keys|, arity), Level(keys, arity);
    Groups(|keys|, a);
    forall i | 0 <= i < |keys| ensures r <= keys[i] {
      IndexSplits(|next|, i, a);
      var _ := BlockMinIsLeast(keys, |next|, i % |next|, a, i / |next|);
      assert r <= next[i % |next|];
    }
    var _ := LevelFromKeys(keys, arity, r);
  }

  lemma LevelFromKeys(keys: seq<int>, arity: nat, r: int) returns (i: nat)
    requires |keys| >= 2 && arity >= 2 && r in Level(keys, arity)
    ensures i < Index(|Level(keys, arity)|, Fan(|keys|, arity), 0) <= |keys| && keys[i] == r
  {
    hide Index, BlockMin;
    var a, next := Fan(|keys|, arity), Level(keys, arity);
    var g :| 0 <= g < |next| && next[g] == r;
    var p := BlockMinIsLeast(keys, |next|, g, a, 0);
    i := Index(|next|, p, g);
  }

  // ----- exactly when the tournament is right -----

  /** Every level splits its keys evenly; the last one takes all that are left. */
  ghost predicate SplitsEvenly(n: nat, arity: nat)
    requires arity >= 2
  {
    n <= arity || (n % arity == 0 && SplitsEvenly(n / arity, arity))
  }

  lemma {:induction false} WinnerIsLeast(keys: seq<int>, arity: nat)
    requires |keys| >= 1 && arity >= 2 && SplitsEvenly(|keys|, arity)
    ensures IsLeast(Winner(keys, arity), keys)
    decreases |keys|
  {
    hide Index, BlockMin;
    if |keys| > 1 {
      var next := Level(keys, arity);
      WinnerIsLeast(next, arity);
      LevelKeepsLeast(keys, arity, Winner(next, arity));
    }
  }

  lemma {:induction false} WinnerIsAKey(keys: seq<int>, arity: nat)
    requires |keys| >= 1 && arity >= 2
    ensures Winner(keys, arity) in keys
    decreases |keys|
  {
    hide Index, BlockMin;
    if |keys| > 1 {
      WinnerIsAKey(Level(keys, arity), arity);
      var _ := LevelFromKeys(keys, arity, Winner(keys, arity));
    }
  }

  /** Keys on which an uneven tournament loses the least one. */
  lemma {:induction false} UnevenLoses(n: nat, arity: nat) returns (keys: seq<int>)
    requires n >= 1 && arity >= 2 && !SplitsEvenly(n, arity)
    ensures |keys| == n && Distinct(keys) && !IsLeast(Winner(keys, arity), keys)
    ensures forall i :: 0 <= i < n ==> 1 <= keys[i] <= n
  {
    hide Index, BlockMin, Winner, Level, Stacked;
    Groups(n, arity);
    if n % arity != 0 {
      keys := DescendingLoses(n, arity);
    } else {
      var small := UnevenLoses(n / arity, arity);
      keys := StackedLoses(small, arity);
    }
  }

  lemma DescendingLoses(n: nat, arity: nat) returns (keys: seq<int>)
    requires arity >= 2 && n > arity && n % arity != 0
    ensures |keys| == n && Distinct(keys) && !IsLeast(Winner(keys, arity), keys)
    ensures forall i :: 0 <= i < n ==> 1 <= keys[i] <= n
  {
    hide Index, BlockMin, Level;
    Groups(n, arity);
    keys := seq(n, i => n - i);
    WinnerIsAKey(Level(keys, arity), arity);
    var i := LevelFromKeys(keys, arity, Winner(keys, arity));
    assert keys[n - 1] == 1 && keys[i] > 1;
  }

  lemma StackedLoses(small: seq<int>, arity: nat) returns (keys: seq<int>)
    requires arity >= 2 && |small| >= 2 && Distinct(small) && !IsLeast(Winner(small, arity), small)
    requires forall i :: 0 <= i < |small| ==> 1 <= small[i] <= |small|
    ensures |keys| == Index(|small|, arity, 0) && Distinct(keys) && !IsLeast(Winner(keys, arity), keys)
    ensures forall i :: 0 <= i < |keys| ==> 1 <= keys[i] <= |keys|
  {
    hide Index, BlockMin, Level, Stacked, Distinct;
    keys := Stacked(small, arity);
    StackedIsDistinct(small, arity);
    StackedLevel(small, arity);
    var w := Winner(small, arity);
    assert Winner(keys, arity) == w;
    WinnerIsAKey(small, arity);
    var i :| 0 <= i < |small| && small[i] < w;
    assert keys[i] == small[i];
  }

  /** The same keys in every block, each block above the one before. */
  ghost function Stacked(small: seq<int>, arity: nat): (keys: seq<int>)
    requires |small| >= 1 && arity >= 2
    ensures |keys| == Index(|small|, arity, 0)
    ensures forall i :: 0 <= i < |keys| ==> keys[i] == small[i % |small|] + Index(|small|, i / |small|, 0)
  {
    seq(Index(|small|, arity, 0), i requires 0 <= i => small[i % |small|] + Index(|small|, i / |small|, 0))
  }

  lemma StackedIsDistinct(small: seq<int>, arity: nat)
    requires |small| >= 1 && arity >= 2 && Distinct(small) && forall i :: 0 <= i < |small| ==> 1 <= small[i] <= |small|
    ensures Distinct(Stacked(small, arity))
    ensures forall i :: 0 <= i < |Stacked(small, arity)| ==> 1 <= Stacked(small, arity)[i] <= |Stacked(small, arity)|
  {
    var keys, m := Stacked(small, arity), |small|;
    hide Stacked;
    forall i | 0 <= i < |keys| ensures 1 <= keys[i] <= |keys| {
      IndexSplits(m, i, arity);
      IndexBound(m, arity, i / m, small[i % m] - 1);
    }
    forall i, j | 0 <= i < j < |keys| ensures keys[i] != keys[j] {
      StackedDiffer(small, arity, i, j);
    }
  }

  lemma StackedDiffer(small: seq<int>, arity: nat, i: nat, j: nat)
    requires |small| >= 1 && arity >= 2 && Distinct(small) && forall i :: 0 <= i < |small| ==> 1 <= small[i] <= |small|
    requires i < j < |Stacked(small, arity)|
    ensures Stacked(small, arity)[i] != Stacked(small, arity)[j]
  {
    var m := |small|;
    IndexSplits(m, i, arity);
    IndexSplits(m, j, arity);
    if Stacked(small, arity)[i] == Stacked(small, arity)[j] {
      IndexUnique(m, i / m, small[i % m] - 1, j / m, small[j % m] - 1);
    }
  }

  lemma StackedLevel(small: seq<int>, arity: nat)
    requires |small| >= 2 && arity >= 2
    ensures |Stacked(small, arity)| >= 2 && Level(Stacked(small, arity), arity) == small
    ensures forall i :: 0 <= i < |small| ==> i < |Stacked(small, arity)| && Stacked(small, arity)[i] == small[i]
  {
    var keys, m := Stacked(small, arity), |small|;
    StackedSize(m, arity);
    hide Index, BlockMin, Stacked;
    forall g | 0 <= g < m ensures g < |keys| && keys[g] == small[g] && Level(keys, arity)[g] == small[g] {
      var p := BlockMinIsLeast(keys, m, g, arity, 0);
      StackedCell(small, arity, p, g);
      StackedCell(small, arity, 0, g);
    }
  }

  lemma StackedSize(m: nat, arity: nat)
    requires m >= 2 && arity >= 2
    ensures arity < Index(m, arity, 0) && Index(m, arity, 0) / arity == m
  {
    assert m * arity >= 2 * arity;
    assert Index(m, arity, 0) == Index(arity, m, 0);
    IndexDivides(arity, m, 0);
  }

  lemma StackedCell(small: seq<int>, arity: nat, p: nat, g: nat)
    requires |small| >= 1 && arity >= 2 && p < arity && g < |small|
    ensures Index(|small|, p, g) < |Stacked(small, arity)| && Stacked(small, arity)[Index(|small|, p, g)] >= small[g]
    ensures p == 0 ==> Index(|small|, p, g) == g && Stacked(small, arity)[g] == small[g]
  {
    IndexBound(|small|, arity, p, g);
    IndexDivides(|small|, p, g);
  }

  // ----- packed keys -----

  /** The index in the low digits makes every key its own. */
  function PackKey(cost: int, makers: nat, index: nat): int { cost * makers + index }

  lemma PackOrders(makers: nat, c: int, i: nat, c': int, j: nat)
    requires i < makers && j < makers
    ensures c < c' ==> PackKey(c, makers, i) < PackKey(c', makers, j)
    ensures PackKey(c, makers, i) <= PackKey(c', makers, makers - 1) <==> c <= c'
    ensures PackKey(c, makers, i) == PackKey(c', makers, j) <==> c == c' && i == j
  {
    PackGap(makers, c, c');
    PackGap(makers, c', c);
  }

  lemma PackTies(makers: nat, c: int, i: nat, j: nat)
    ensures PackKey(c, makers, i) <= PackKey(c, makers, j) <==> i <= j
  {}

  lemma PackGap(makers: nat, c: int, c': int)
    ensures c < c' ==> c * makers + makers <= c' * makers
  {
    if c < c' { assert (c' - c) * makers >= makers by { Gap(makers, 0, c' - c); } }
  }

  ghost function Packed(costs: seq<int>): (r: seq<int>)
    ensures |r| == |costs| && forall i :: 0 <= i < |r| ==> r[i] == PackKey(costs[i], |costs|, i)
  {
    seq(|costs|, i requires 0 <= i < |costs| => PackKey(costs[i], |costs|, i))
  }

  /** Two vectors that compare alike at every pair of places. */
  ghost predicate SameOrder(a: seq<int>, b: seq<int>) {
    |a| == |b| && forall i, j :: 0 <= i < |a| && 0 <= j < |a| ==> (a[i] < a[j] <==> b[i] < b[j])
  }

  /** Such vectors have their group winners in the same places. */
  lemma SameGroupWinner(a: seq<int>, b: seq<int>, groups: nat, g: nat, fan: nat) returns (i: nat)
    requires SameOrder(a, b) && 1 <= fan && g < groups && Index(groups, fan, 0) <= |a|
    ensures i < |a| && BlockMin(a, groups, g, fan) == a[i] && BlockMin(b, groups, g, fan) == b[i]
  {
    hide Index, BlockMin;
    var p := BlockMinIsLeast(a, groups, g, fan, 0);
    i := Index(groups, p, g);
    var q := BlockMinIsLeast(b, groups, g, fan, p);
    var _ := BlockMinIsLeast(a, groups, g, fan, q);
  }

  lemma SameOrderLevel(a: seq<int>, b: seq<int>, arity: nat)
    requires SameOrder(a, b) && |a| >= 2 && arity >= 2
    ensures SameOrder(Level(a, arity), Level(b, arity))
  {
    hide Index, BlockMin;
    var r, s, fan := Level(a, arity), Level(b, arity), Fan(|a|, arity);
    forall g, h | 0 <= g < |r| && 0 <= h < |r| ensures r[g] < r[h] <==> s[g] < s[h] {
      var i := SameGroupWinner(a, b, |r|, g, fan);
      var j := SameGroupWinner(a, b, |r|, h, fan);
    }
  }

  /** Only the order of the keys decides which place wins. */
  lemma {:induction false} SameOrderWinner(a: seq<int>, b: seq<int>, arity: nat) returns (i: nat)
    requires SameOrder(a, b) && 1 <= |a| == |b| && arity >= 2
    ensures i < |a| && Winner(a, arity) == a[i] && Winner(b, arity) == b[i]
    decreases |a|
  {
    hide Index, BlockMin, SameOrder;
    i := 0;
    if |a| > 1 {
      var r := Level(a, arity);
      SameOrderLevel(a, b, arity);
      var g := SameOrderWinner(r, Level(b, arity), arity);
      i := SameGroupWinner(a, b, |r|, g, Fan(|a|, arity));
    }
  }

  lemma PackedSameOrder(costs: seq<int>)
    requires Distinct(costs)
    ensures SameOrder(costs, Packed(costs))
  {
    hide PackKey;
    forall i, j | 0 <= i < |costs| && 0 <= j < |costs|
      ensures costs[i] < costs[j] <==> Packed(costs)[i] < Packed(costs)[j]
    {
      PackOrders(|costs|, costs[i], i, costs[j], j);
      PackOrders(|costs|, costs[j], j, costs[i], i);
    }
  }

  /** Costs between one and n whose packed keys an uneven tournament gets wrong. */
  lemma UnevenPackedLoses(n: nat, arity: nat) returns (costs: seq<int>)
    requires n >= 1 && arity >= 2 && !SplitsEvenly(n, arity)
    ensures |costs| == n && !IsLeast(Winner(Packed(costs), arity), Packed(costs))
    ensures forall i :: 0 <= i < n ==> 1 <= costs[i] <= n
  {
    hide Winner, PackKey;
    costs := UnevenLoses(n, arity);
    PackedSameOrder(costs);
    var i := SameOrderWinner(costs, Packed(costs), arity);
  }

  /**
   * The tournament finds the least packed key of every vector of n costs exactly when its levels
   * split evenly.
   */
  lemma CorrectExactlyWhenEven(n: nat, arity: nat)
    requires n >= 1 && arity >= 2
    ensures (forall costs: seq<int> :: |costs| == n ==> IsLeast(Winner(Packed(costs), arity), Packed(costs)))
            <==> SplitsEvenly(n, arity)
  {
    hide Winner, PackKey;
    if SplitsEvenly(n, arity) {
      forall costs: seq<int> | |costs| == n ensures IsLeast(Winner(Packed(costs), arity), Packed(costs)) {
        WinnerIsLeast(Packed(costs), arity);
      }
    } else {
      var costs := UnevenPackedLoses(n, arity);
    }
  }

  /** Powers of two always split. */
  lemma {:induction false} PowersSplit(n: nat, arity: nat, i: nat, j: nat)
    requires j >= 1 && n == P.Power(2, i) && arity == P.Power(2, j)
    ensures arity >= 2 && SplitsEvenly(n, arity)
    decreases i
  {
    Limbs.PowerMonotone(2, 1, j);
    assert P.Power(2, 1) == 2;
    hide P.Power;
    if n > arity {
      PowerQuotient(i, j);
      PowersSplit(P.Power(2, i - j), arity, i - j, j);
    }
  }

  lemma PowerQuotient(i: nat, j: nat)
    requires P.Power(2, i) > P.Power(2, j) > 0
    ensures i > j && P.Power(2, i) % P.Power(2, j) == 0 && P.Power(2, i) / P.Power(2, j) == P.Power(2, i - j)
  {
    hide P.Power;
    if i <= j { Limbs.PowerMonotone(2, i, j); }
    P.PowerAdd(2, i - j, j);
    Limbs.PowerPositive(2, i - j);
    IndexDivides(P.Power(2, j), P.Power(2, i - j), 0);
  }

  /** Four keys three at a time do not: one group of the first three is formed, and the last key never plays. */
  lemma FourByThreeLoses()
    ensures var keys := Packed([3, 2, 1, 0]);
            && keys == [12, 9, 6, 3] && !SplitsEvenly(4, 3)
            && Winner(keys, 3) == 6 && !IsLeast(Winner(keys, 3), keys)
  {
    var keys := Packed([3, 2, 1, 0]);
    assert keys == [12, 9, 6, 3];
    FirstThreePlay(keys);
    assert keys[..3] == [12, 9, 6] && keys[3] == 3;
  }

  lemma FirstThreePlay(keys: seq<int>)
    requires |keys| == 4
    ensures Winner(keys, 3) in keys[..3] && Winner(keys, 3) <= keys[2] && !SplitsEvenly(4, 3)
  {
    hide Index, BlockMin;
    var level := Level(keys, 3);
    OneGroup(2);
    OneGroup(3);
    var i := LevelFromKeys(keys, 3, level[0]);
    var _ := BlockMinIsLeast(keys, 1, 0, 3, 2);
    assert keys[..3][i] == keys[i];
  }

  lemma OneGroup(p: nat)
    ensures Index(1, p, 0) == p
  {}

  // ----- the generated searches -----

  /** Binary tournament: one comparison and one select per level. */
  method MinTree(keys: seq<int>) returns (best: int)
    requires |keys| >= 1
    ensures best == Winner(keys, 2)
  {
    hide Mux, Level;
    var n := |keys|;
    var cur := new int[n](i requires 0 <= i < n => keys[i]);
    var size := n;
    assert cur[..size] == keys;
    while size > 1
      invariant 1 <= size <= n
      invariant Winner(cur[..size], 2) == Winner(keys, 2)
    {
      var half := size / 2;
      ghost var before := cur[..size];
      forall i | 0 <= i < half {
        cur[i] := Mux(Truth(cur[i] < cur[half + i]), cur[i], cur[half + i]);
      }
      forall i | 0 <= i < half ensures cur[i] == Min(before[i], before[half + i]) {
        MuxIsMin(before[i], before[half + i]);
      }
      HalfLevel(before, cur[..half]);
      size := half;
    }
    best := cur[0];
  }

  lemma MuxIsMin(a: int, b: int)
    ensures Mux(Truth(a < b), a, b) == Min(a, b) && Mux(Truth(a <= b), a, b) == Min(a, b)
  {}

  lemma HalfLevel(before: seq<int>, after: seq<int>)
    requires |before| >= 2 && |after| == |before| / 2
    requires forall i :: 0 <= i < |after| ==> after[i] == Min(before[i], before[|after| + i])
    ensures after == Level(before, 2)
  {
    var half := |before| / 2;
    forall i | 0 <= i < half ensures Level(before, 2)[i] == after[i] {
      assert Index(half, 0, i) == i && Index(half, 1, i) == half + i;
      assert BlockMin(before, half, i, 1) == before[i];
    }
  }

  // ----- ranks -----

  /** How many of the first n keys, other than p, are below key p. */
  ghost function Rank(lane: seq<int>, p: nat, n: nat): nat
    requires p < |lane| && n <= |lane|
  {
    if n == 0 then 0 else Rank(lane, p, n - 1) + if n - 1 != p && lane[n - 1] < lane[p] then 1 else 0
  }

  lemma {:induction false} RankMeans(lane: seq<int>, p: nat, n: nat)
    requires p < |lane| && n <= |lane|
    ensures Rank(lane, p, n) == 0 <==> forall q :: 0 <= q < n ==> lane[p] <= lane[q]
    ensures Rank(lane, p, n) <= if p < n then n - 1 else n
  {
    if n > 0 { RankMeans(lane, p, n - 1); }
  }

  /** The equality test runs on a narrow word; the rank fits it. */
  function RankBits(a: nat): nat
    requires a >= 1
  {
    Max(2, BitLength(a - 1) + 1)
  }

  lemma RankFits(lane: seq<int>, p: nat)
    requires p < |lane|
    ensures FitsSigned(Rank(lane, p, |lane|), RankBits(|lane|))
  {
    RankMeans(lane, p, |lane|);
    BitLengthBound(|lane| - 1);
    Limbs.PowerMonotone(2, BitLength(|lane| - 1), RankBits(|lane|) - 1);
  }

  lemma {:induction false} LeastExists(lane: seq<int>) returns (m: nat)
    requires |lane| >= 1
    ensures m < |lane| && forall q :: 0 <= q < |lane| ==> lane[m] <= lane[q]
  {
    m := 0;
    if |lane| > 1 {
      var k := LeastExists(lane[1..]);
      if lane[1..][k] < lane[0] { m := k + 1; }
      forall q | 0 <= q < |lane| ensures lane[m] <= lane[q] {
        if q > 0 { assert lane[q] == lane[1..][q - 1]; }
      }
    }
  }

  /** Only the least of distinct keys has rank zero. */
  lemma OnlyLeastRanksZero(lane: seq<int>, m: nat, p: nat)
    requires Distinct(lane) && m < |lane| && p < |lane| && forall q :: 0 <= q < |lane| ==> lane[m] <= lane[q]
    ensures Rank(lane, p, |lane|) == 0 <==> p == m
  {
    RankMeans(lane, p, |lane|);
  }

  /** One group: the member of rank zero survives the sum of the selected terms. */
  method LaneWinner(lane: seq<int>) returns (winner: int)
    requires |lane| >= 2 && Distinct(lane)
    ensures IsLeast(winner, lane)
  {
    hide FitsSigned, RankBits;
    var a := |lane|;
    var ranks := [];
    for p := 0 to a
      invariant |ranks| == p && forall k :: 0 <= k < p ==> ranks[k] == Rank(lane, k, a)
    {
      var rank := 0;
      for q := 0 to a
        invariant rank == Rank(lane, p, q)
      {
        if p != q { rank := rank + Truth(lane[q] < lane[p]); }
      }
      ranks := ranks + [rank];
    }
    ghost var m := LeastExists(lane);
    winner := 0;
    for p := 0 to a
      invariant winner == if m < p then lane[m] else 0
    {
      RankFits(lane, p);
      OnlyLeastRanksZero(lane, m, p);
      var selected := EqualsZero(ranks[p], RankBits(a));
      winner := winner + selected * lane[p];
    }
  }

  /** Group g has a member in each of the first a blocks. */
  ghost predicate InBlocks(keys: seq<int>, groups: nat, g: nat, a: nat) {
    forall p :: 0 <= p < a ==> Index(groups, p, g) < |keys|
  }

  /** The members of group g, one from each block. */
  ghost function Lane(keys: seq<int>, groups: nat, g: nat, a: nat): (r: seq<int>)
    requires InBlocks(keys, groups, g, a)
    ensures |r| == a && forall p :: 0 <= p < a ==> r[p] == keys[Index(groups, p, g)]
  {
    seq(a, p requires 0 <= p < a => keys[Index(groups, p, g)])
  }

  lemma LaneInBlocks(keys: seq<int>, groups: nat, g: nat, a: nat)
    requires g < groups && Index(groups, a, 0) <= |keys|
    ensures InBlocks(keys, groups, g, a)
  {
    hide Index;
    forall p | 0 <= p < a ensures Index(groups, p, g) < |keys| { IndexBound(groups, a, p, g); }
  }

  lemma LaneIsDistinct(keys: seq<int>, groups: nat, g: nat, a: nat)
    requires g < groups && InBlocks(keys, groups, g, a) && Distinct(keys)
    ensures Distinct(Lane(keys, groups, g, a))
  {
    hide Index;
    forall p, q | 0 <= p < q < a ensures Lane(keys, groups, g, a)[p] != Lane(keys, groups, g, a)[q] {
      if Index(groups, p, g) == Index(groups, q, g) { IndexUnique(groups, p, g, q, g); }
    }
  }

  lemma LaneLeast(keys: seq<int>, groups: nat, g: nat, a: nat, r: int)
    requires 1 <= a && g < groups && Index(groups, a, 0) <= |keys| && InBlocks(keys, groups, g, a)
             && IsLeast(r, Lane(keys, groups, g, a))
    ensures r == BlockMin(keys, groups, g, a)
  {
    hide Index, BlockMin;
    var lane := Lane(keys, groups, g, a);
    var q :| 0 <= q < a && lane[q] == r;
    var p := BlockMinIsLeast(keys, groups, g, a, q);
    assert r <= lane[p];
  }

  method ReadLane(cur: array<int>, size: nat, groups: nat, g: nat, a: nat) returns (lane: seq<int>)
    requires size <= cur.Length && InBlocks(cur[..size], groups, g, a)
    ensures lane == Lane(cur[..size], groups, g, a)
  {
    lane := [];
    var at := g;
    for p := 0 to a
      invariant at == Index(groups, p, g)
      invariant |lane| == p && forall k :: 0 <= k < p ==> lane[k] == cur[..size][Index(groups, k, g)]
    {
      assert at == Index(groups, p, g) < size && cur[..size][at] == cur[at];
      lane := lane + [cur[at]];
      Distribute(groups, p, 1);
      at := at + groups;
    }
  }

  /** One level, in place: the first cells become the next round's keys. */
  method KaryLevel(cur: array<int>, size: nat, arity: nat) returns (groups: nat)
    requires 2 <= size <= cur.Length && arity >= 2 && Distinct(cur[..size])
    modifies cur
    ensures groups == |Level(old(cur[..size]), arity)| && groups < size
    ensures cur[..groups] == Level(old(cur[..size]), arity)
  {
    hide BlockMin, Index, Distinct;
    ghost var keys := cur[..size];
    ghost var next := Level(keys, arity);
    var a := Fan(size, arity);
    groups := size / a;
    var winner := [];
    for g := 0 to groups
      invariant cur[..size] == keys
      invariant |winner| == g && forall k :: 0 <= k < g ==> winner[k] == next[k]
    {
      LaneInBlocks(keys, groups, g, a);
      var lane := ReadLane(cur, size, groups, g, a);
      LaneIsDistinct(keys, groups, g, a);
      var w := LaneWinner(lane);
      LaneLeast(keys, groups, g, a, w);
      winner := winner + [w];
    }
    forall g | 0 <= g < groups { cur[g] := winner[g]; }
  }

  /** Arity-k tournament. */
  method MinKary(keys: seq<int>, arity: nat) returns (best: int)
    requires |keys| >= 1 && arity >= 2 && Distinct(keys)
    ensures best == Winner(keys, arity)
  {
    hide Level;
    var n := |keys|;
    var cur := new int[n](i requires 0 <= i < n => keys[i]);
    var size := n;
    assert cur[..size] == keys;
    while size > 1
      invariant 1 <= size <= n
      invariant Distinct(cur[..size]) && Winner(cur[..size], arity) == Winner(keys, arity)
    {
      LevelDistinct(cur[..size], arity);
      size := KaryLevel(cur, size, arity);
    }
    best := cur[0];
  }

  /** The binary tournament with the fill comparison folded into its last level. */
  method ArgminFillBinary(keys: seq<int>, limit: int) returns (best: int, fill: int)
    requires |keys| >= 1
    ensures best == Winner(keys, 2) && fill == Truth(best <= limit)
  {
    hide Mux, Level;
    var n := |keys|;
    var cur := new int[n](i requires 0 <= i < n => keys[i]);
    var size := n;
    assert cur[..size] == keys;
    while size > 2
      invariant 1 <= size <= n
      invariant Winner(cur[..size], 2) == Winner(keys, 2)
    {
      var half := size / 2;
      ghost var before := cur[..size];
      forall i | 0 <= i < half {
        cur[i] := Mux(Truth(cur[i] <= cur[half + i]), cur[i], cur[half + i]);
      }
      forall i | 0 <= i < half ensures cur[i] == Min(before[i], before[half + i]) {
        MuxIsMin(before[i], before[half + i]);
      }
      HalfLevel(before, cur[..half]);
      size := half;
    }
    if size == 1 { return cur[0], Truth(cur[0] <= limit); }
    var left := [cur[0], cur[0], cur[1]];
    var right := [cur[1], limit, limit];
    var bits := seq(3, i requires 0 <= i < 3 => Truth(left[i] <= right[i]));
    HalfLevel(cur[..2], [Min(cur[0], cur[1])]);
    MuxIsMin(cur[0], cur[1]);
    MuxSelects(bits[1], bits[2]);
    best, fill := Mux(bits[0], cur[0], cur[1]), Mux(bits[0], bits[1], bits[2]);
  }

  /** Cell (p, q): the rank term of p off the diagonal, and whether p fills on it. */
  method Square(finalists: seq<int>, limit: int) returns (cell: array2<int>)
    ensures cell.Length0 == cell.Length1 == |finalists|
    ensures forall p, q :: 0 <= p < |finalists| && 0 <= q < |finalists| ==>
              cell[p, q] == Truth(finalists[q] <= if p != q then finalists[p] else limit)
  {
    var size := |finalists|;
    cell := new int[size, size];
    for p := 0 to size
      invariant forall i, j :: 0 <= i < p && 0 <= j < size ==>
                  cell[i, j] == Truth(finalists[j] <= if i != j then finalists[i] else limit)
    {
      for q := 0 to size
        invariant forall i, j :: 0 <= i < p && 0 <= j < size ==>
                    cell[i, j] == Truth(finalists[j] <= if i != j then finalists[i] else limit)
        invariant forall j :: 0 <= j < q ==> cell[p, j] == Truth(finalists[j] <= if p != j then finalists[p] else limit)
      {
        cell[p, q] := Truth(finalists[q] <= if p != q then finalists[p] else limit);
      }
    }
  }

  /** The last level with one more comparison per finalist, on the diagonal of a square. */
  method LastSquare(finalists: seq<int>, limit: int, cell: array2<int>) returns (winner: int, filled: int)
    requires |finalists| >= 2 && Distinct(finalists) && cell.Length0 == cell.Length1 == |finalists|
    requires forall p, q :: 0 <= p < |finalists| && 0 <= q < |finalists| ==>
               cell[p, q] == Truth(finalists[q] <= if p != q then finalists[p] else limit)
    ensures IsLeast(winner, finalists) && filled == Truth(winner <= limit)
  {
    hide FitsSigned, RankBits;
    var size := |finalists|;
    ghost var m := LeastExists(finalists);
    winner, filled := 0, 0;
    for p := 0 to size
      invariant winner == if m < p then finalists[m] else 0
      invariant filled == if m < p then Truth(finalists[m] <= limit) else 0
    {
      var rank := 0;
      for q := 0 to size
        invariant rank == Rank(finalists, p, q)
      {
        if p != q { rank := rank + cell[p, q]; }
      }
      RankFits(finalists, p);
      OnlyLeastRanksZero(finalists, m, p);
      var chosen := EqualsZero(rank, RankBits(size));
      winner := winner + chosen * finalists[p];
      filled := filled + chosen * cell[p, p];
    }
  }

  /** The arity-k tournament, stopped one level short and finished in the square. */
  method ArgminFillKary(keys: seq<int>, arity: nat, limit: int) returns (best: int, fill: int)
    requires |keys| >= 1 && arity >= 2 && Distinct(keys)
    ensures best == Winner(keys, arity) && fill == Truth(best <= limit)
  {
    hide Level;
    var n := |keys|;
    var cur := new int[n](i requires 0 <= i < n => keys[i]);
    var size := n;
    assert cur[..size] == keys;
    while size > arity
      invariant 1 <= size <= n
      invariant Distinct(cur[..size]) && Winner(cur[..size], arity) == Winner(keys, arity)
    {
      LevelDistinct(cur[..size], arity);
      size := KaryLevel(cur, size, arity);
    }
    if size == 1 { return cur[0], Truth(cur[0] <= limit); }
    var finalists := cur[..size];
    var cell := Square(finalists, limit);
    best, fill := LastSquare(finalists, limit, cell);
    WinnerIsLeast(finalists, arity);
  }
}
