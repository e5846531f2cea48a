/**
 The hits of a damage condition: falling in strength, and in sum following a straight line to the amount.
 */
module DamageList {
  import opened Arithmetic
  import opened Basics

  function Abs(n: int): nat {
    if n < 0 then -n else n
  }

  /** Another hit of i brings the sum nearer to the target; fractions are read as exact. */
  predicate Nearer(sum: nat, i: nat, med: nat) {
    if med == 0 then false  // both distances are infinite
    else
      var x1 := if sum + i > med then (sum + i - med) as real / med as real
        else (med - (sum + i)) as real / med as real;
      var x2 := if sum > med then (sum - med) as real / med as real else (med - sum) as real / med as real;
      x1 < x2
  }

  lemma {:induction false} NearerIff(sum: nat, i: nat, med: nat)
    requires i > 0
    ensures Nearer(sum, i, med) <==> i < 2 * (med - sum)
  {
    if med > 0 {
      var a := if sum + i > med then sum + i - med else med - (sum + i);
      var b := if sum > med then sum - med else med - sum;
      Quotients(a as real, b as real, med as real);
    }
  }

  lemma {:induction false} Quotients(a: real, b: real, m: real)
    requires m > 0.0
    ensures a / m < b / m <==> a < b
  {
    assert a == (a / m) * m && b == (b / m) * m;
    assert a / m < b / m ==> (a / m) * m < (b / m) * m;
    assert a / m >= b / m ==> (a / m) * m >= (b / m) * m;
  }

  function Times(a: nat, b: nat): nat {
    a * b
  }

  function Divided(a: nat, m: nat): nat
    requires m > 0
  {
    a / m
  }

  /** The part of the amount that is to be reached with the hits of strength i and more. */
  function Target(amount: nat, start: nat, i: nat): nat
    requires 1 <= i <= start
  {
    Divided(Times(start + 1 - i, amount), start)
  }

  /** The hits of each strength: at least one, and as many as bring the sum within half a hit of the target. */
  ghost predicate OnTarget(before: nat, after: nat, i: nat, med: nat) {
    if 2 * (before + i) >= 2 * med + i then after == before + i
    else 2 * Abs(after - med) <= i && after >= before + i
  }

  ghost predicate NonIncreasing(list: seq<nat>) {
    forall j, k :: 0 <= j < k < |list| ==> list[j] >= list[k]
  }

  lemma {:induction false} NonIncreasingAppend(list: seq<nat>, i: nat)
    requires NonIncreasing(list) && forall n :: n in list ==> n >= i
    ensures NonIncreasing(list + [i])
  {
    forall j, k | 0 <= j < k < |list + [i]| ensures (list + [i])[j] >= (list + [i])[k] {
      assert list[j] in list;
    }
  }

  ghost function Triangle(start: nat, i: nat): nat
    requires i <= start + 1
    decreases start + 1 - i
  {
    if i > start then 0 else i + Triangle(start, i + 1)
  }

  lemma {:induction false} TriangleClosed(start: nat, i: nat)
    requires i <= start + 1
    ensures 2 * Triangle(start, i) == start * (start + 1) - (i - 1) * i
    decreases start + 1 - i
  {
    if i <= start {
      TriangleClosed(start, i + 1);
    }
  }

  /** The hits of one strength. */
  method AddHits(list: seq<nat>, sum: nat, i: nat, med: nat) returns (list': seq<nat>, sum': nat)
    requires i > 0 && sum == Sum(list) && NonIncreasing(list) && forall n :: n in list ==> n > i
    ensures sum' == Sum(list') && NonIncreasing(list') && list < list'
    ensures forall k :: |list| <= k < |list'| ==> list'[k] == i
    ensures OnTarget(sum, sum', i, med)
    ensures sum' == sum + i || 2 * sum' < 2 * med + i
  {
    SumAppend(list, i);
    NonIncreasingAppend(list, i);
    sum', list' := sum + i, list + [i];
    NearerIff(sum', i, med);
    while Nearer(sum', i, med)
      invariant sum' == Sum(list') && NonIncreasing(list') && list < list'
      invariant forall k :: |list| <= k < |list'| ==> list'[k] == i
      invariant forall n :: n in list' ==> n >= i
      invariant sum' == sum + i || (2 * sum' < 2 * med + i && 2 * (sum + i) < 2 * med + i)
      invariant sum' >= sum + i
      invariant Nearer(sum', i, med) <==> i < 2 * (med - sum')
      decreases med - sum'
    {
      SumAppend(list', i);
      NonIncreasingAppend(list', i);
      sum', list' := sum' + i, list' + [i];
      NearerIff(sum', i, med);
    }
  }

  lemma {:induction false} TargetGrows(amount: nat, start: nat, i: nat)
    requires 1 <= i < start
    ensures Target(amount, start, i + 1) <= Target(amount, start, i)
    ensures Target(amount, start, 1) == amount
  {
    var n := start - i;
    assert n * amount <= (n + 1) * amount;
    DividedAtMost(n * amount, (n + 1) * amount, start);
    TargetAll(amount, start);
  }

  lemma {:induction false} TargetAll(amount: nat, start: nat)
    requires start >= 1
    ensures Target(amount, start, 1) == amount
  {
    var q := start * amount / start;
    assert start * amount == start * q + start * amount % start;
    NoMultipleBetween(start, amount - q);
    assert start * (amount - q) == start * amount % start;
  }

  lemma {:induction false} DividedAtMost(a: nat, b: nat, m: nat)
    requires m > 0 && a <= b
    ensures a / m <= b / m
  {
    var p, q := a / m, b / m;
    assert a == m * p + a % m && b == m * q + b % m;
    assert p >= q + 1 ==> m * p >= m * (q + 1);
  }

  /** If one hit of every strength fits the amount, each target leaves room for the weaker hits. */
  lemma {:induction false} TargetLeavesRoom(total: nat, start: nat, i: nat)
    requires 1 <= i <= start && start * (start + 1) <= 2 * total
    ensures 2 * Target(total, start, i) <= 2 * total - (i - 1) * (start + 1)
  {
    DividedTimes(Times(start + 1 - i, total), start);
    LessTimes(start, i - 1, total);
    Spare(start, i - 1, start + 1, total, Target(total, start, i));
  }

  lemma {:induction false} DividedTimes(n: nat, m: nat)
    requires m > 0
    ensures m * Divided(n, m) <= n
  {
  }

  lemma {:induction false} LessTimes(a: nat, k: nat, total: nat)
    requires k <= a
    ensures Times(a - k, total) == a * total - k * total
  {
  }

  lemma {:induction false} Spare(start: nat, k: nat, d: nat, total: nat, med: nat)
    requires start > 0 && start * med <= start * total - k * total && start * d <= 2 * total
    ensures 2 * med <= 2 * total - k * d
  {
    TimesAtMost(k, start * d, 2 * total);
    Swap(k, start, d);
    Swap(k, 2, total);
    Swap(start, 2, med);
    Minus(start, 2 * total, k * d);
    Swap(start, 2, total);
    NoneOver(start, 2 * med, 2 * total - k * d);
  }

  lemma {:induction false} Swap(a: nat, b: nat, c: nat)
    ensures a * (b * c) == b * (a * c)
  {
  }

  lemma {:induction false} Minus(p: nat, a: nat, b: nat)
    ensures p * (a - b) == p * a - p * b
  {
  }

  lemma {:induction false} NoneOver(m: nat, a: int, b: int)
    requires m > 0 && m * a <= m * b
    ensures a <= b
  {
    assert a >= b + 1 ==> m * a >= m * (b + 1);
  }

  lemma {:induction false} RoomLeft(total: nat, start: nat, i: nat, sum: nat)
    requires 1 <= i <= start && Triangle(start, 1) <= total && 2 * sum < 2 * Target(total, start, i) + i
    ensures sum + Triangle(start, 1) <= total + Triangle(start, i)
  {
    TriangleClosed(start, 1);
    TriangleClosed(start, i);
    TargetLeavesRoom(total, start, i);
    TimesAtMost(i - 1, i + 1, start + 1);
    Distribute(i - 1, i, 1);
  }

  /**
   ConditionDamage::generateDamageList; sums are the sums before the first strength and after each.
   The amount is met exactly if and only if one hit of every strength is not already more.
   */
  method GenerateDamageList(amount: int, start: int) returns (list: seq<nat>, ghost sums: seq<nat>)
    ensures start <= 0 ==> list == []
    ensures start > 0 ==>
              && NonIncreasing(list) && (forall n :: n in list <==> 1 <= n <= start)
              && |sums| == start + 1 && sums[0] == 0 && sums[start] == Sum(list)
              && forall k :: 0 <= k < start ==>
                OnTarget(sums[k], sums[k + 1], start - k, Target(Abs(amount), start, start - k))
    ensures start > 0 ==>
              && Abs(amount) <= Sum(list) && 2 * Sum(list) <= 2 * Abs(amount) + start * (start + 1)
              && (Sum(list) == Abs(amount) <==> start * (start + 1) / 2 <= Abs(amount))
              && (Sum(list) == Abs(amount) <==> sums[start - 1] < Abs(amount))
  {
    list, sums := [], [0];
    if start <= 0 {
      return;
    }
    var total, sum, i := Abs(amount), 0, start;
    while i > 0
      invariant 0 <= i <= start && sum == Sum(list) && NonIncreasing(list)
      invariant forall n :: n in list <==> i < n <= start
      invariant |sums| == start - i + 1 && sums[0] == 0 && sums[start - i] == sum
      invariant forall k :: 0 <= k < start - i ==>
                OnTarget(sums[k], sums[k + 1], start - k, Target(total, start, start - k))
      invariant sum <= (if i == start then 0 else Target(total, start, i + 1)) + Triangle(start, i + 1)
      invariant sum >= Triangle(start, i + 1)
      invariant Triangle(start, 1) <= total ==> sum + Triangle(start, 1) <= total + Triangle(start, i + 1)
    {
      var med := Target(total, start, i);
      if i < start {
        TargetGrows(total, start, i);
      }
      ghost var before := list;
      list, sum := AddHits(list, sum, i, med);
      Strengths(before, list, i, start);
      if Triangle(start, 1) <= total && 2 * sum < 2 * med + i {
        RoomLeft(total, start, i, sum);
      }
      sums := sums + [sum];
      i := i - 1;
    }
    TargetAll(total, start);
    TriangleClosed(start, 1);
    assert OnTarget(sums[start - 1], sums[start], 1, total);
  }

  lemma {:induction false} Strengths(before: seq<nat>, list: seq<nat>, i: nat, start: nat)
    requires before < list && (forall k :: |before| <= k < |list| ==> list[k] == i) && 1 <= i <= start
    requires forall n :: n in before <==> i < n <= start
    ensures forall n :: n in list <==> i - 1 < n <= start
  {
    forall n
      ensures n in list <==> n in before || n == i
    {
      if n in before {
        var k :| 0 <= k < |before| && before[k] == n;
        assert list[k] == n;
      }
      assert list[|before|] == i;
    }
  }

  /** The strength of the first hit that ConditionDamage::init settles on. */
  function FirstHit(amount: int, startDamage: int, maxDamage: int): int {
    if startDamage > maxDamage then maxDamage
    else if startDamage == 0 then (if amount > 20 then (amount + 19) / 20 else 1)
    else startDamage
  }

  /**
   ConditionDamage::init for an amount drawn between the least and the greatest damage: the hits as changes
   of health, one after the other. A condition that already has its damage is left alone.
   */
  method InitDamage(periodDamage: int, before: seq<int>, amount: int, startDamage: int, maxDamage: int)
    returns (ok: bool, damageList: seq<int>)
    requires amount <= maxDamage
    ensures periodDamage != 0 || before != [] ==> ok && damageList == before
    ensures periodDamage == 0 && before == [] ==> (ok <==> damageList != []) && (amount == 0 ==> !ok)
    ensures periodDamage == 0 && before == [] && amount != 0 && 0 <= startDamage && 1 <= maxDamage ==>
              ok && 1 <= -damageList[0] <= maxDamage
              && forall k :: 0 <= k < |damageList| ==> damageList[k] < 0 && damageList[0] <= damageList[k]
  {
    if periodDamage != 0 || before != [] {
      return true, before;
    }
    damageList := [];
    if amount == 0 {
      return false, damageList;
    }
    ghost var sums;
    var list;
    list, sums := GenerateDamageList(amount, FirstHit(amount, startDamage, maxDamage));
    ghost var first := FirstHit(amount, startDamage, maxDamage);
    assert first > 0 ==> first in list && list[0] in list;
    assert forall k :: 0 <= k < |list| ==> list[k] in list;
    for k := 0 to |list|
      invariant |damageList| == k && forall j :: 0 <= j < k ==> damageList[j] + list[j] == 0
    {
      var value: int := list[k];
      damageList := damageList + [-value];
    }
    ok := damageList != [];
  }
}
