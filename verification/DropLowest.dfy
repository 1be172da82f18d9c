/**
 Dropping the lowest scores of one assignment type, as AssignmentFormatGrader does it:
 a stable sort by descending percentage, the set of the last dropCount indices, and a
 loop over the assignments in course order.  SectionPercent is the reference definition
 (the average of the highest percentages); the lemmas relate it to every other choice of
 dropped assignments, to reorderings, to higher scores and to a higher drop count.
 */
module DropLowest {
  import opened Collections

  datatype Ranked = Ranked(index: nat, percent: real)

  function Max(a: int, b: int): int { if a >= b then a else b }

  /** The sum of a sequence of percentages. */
  function Sum(s: seq<real>): real {
    if s == [] then 0.0 else Sum(s[..|s| - 1]) + s[|s| - 1]
  }

  function Enumerated(percents: seq<real>): seq<Ranked> {
    seq(|percents|, i requires 0 <= i < |percents| => Ranked(i, percents[i]))
  }

  /** The order of a stable sort by descending percentage. */
  predicate Before(a: Ranked, b: Ranked) {
    a.percent > b.percent || (a.percent == b.percent && a.index < b.index)
  }

  ghost predicate Ordered(s: seq<Ranked>) {
    forall i, j :: 0 <= i < j < |s| ==> Before(s[i], s[j])
  }

  /** Inserts x behind every element whose percentage is not lower. */
  function Insert(s: seq<Ranked>, x: Ranked): (r: seq<Ranked>)
    ensures |r| == |s| + 1
  {
    if s == [] then [x]
    else if s[|s| - 1].percent >= x.percent then s + [x]
    else Insert(s[..|s| - 1], x) + [s[|s| - 1]]
  }

  /** Python's sorted(enumerate(percents), key=-percent). */
  function StableSort(percents: seq<real>): (r: seq<Ranked>)
    ensures |r| == |percents|
  {
    if percents == [] then []
    else
      var n := |percents| - 1;
      Insert(StableSort(percents[..n]), Ranked(n, percents[n]))
  }

  function Percents(s: seq<Ranked>): (r: seq<real>)
    ensures |r| == |s| && forall i :: 0 <= i < |s| ==> r[i] == s[i].percent
  {
    seq(|s|, i requires 0 <= i < |s| => s[i].percent)
  }

  function Indices(s: seq<Ranked>): (r: seq<nat>)
    ensures |r| == |s| && forall i :: 0 <= i < |s| ==> r[i] == s[i].index
  {
    seq(|s|, i requires 0 <= i < |s| => s[i].index)
  }

  /** How many assignments of n are dropped. */
  function Dropped(n: nat, dropCount: int): nat { Max(0, Min(dropCount, n)) }

  /** The sum is divided only when the divisor is positive. */
  function Average(sum: real, count: int): real {
    if count > 0 then sum / count as real else sum
  }

  /** The average of the highest percentages, the reference the loop is proved against. */
  function SectionPercent(percents: seq<real>, dropCount: int): real {
    var n := |percents|;
    Average(Sum(Percents(StableSort(percents))[..n - Dropped(n, dropCount)]), n - dropCount)
  }

  /** The sum of the percentages whose index is not in the set. */
  function KeptSum(s: seq<Ranked>, drop: set<nat>): real {
    if s == [] then 0.0
    else KeptSum(s[..|s| - 1], drop) + (if s[|s| - 1].index in drop then 0.0 else s[|s| - 1].percent)
  }

  function KeptCount(s: seq<Ranked>, drop: set<nat>): nat {
    if s == [] then 0
    else KeptCount(s[..|s| - 1], drop) + (if s[|s| - 1].index in drop then 0 else 1)
  }

  /** A set of assignments of the given size that could be dropped instead. */
  ghost predicate IsDropChoice(drop: set<nat>, n: nat, count: nat) {
    |drop| == count && forall i :: i in drop ==> i < n
  }

  // ---- StableSort is what Python's sorted promises ----

  lemma {:induction false} InsertMembers(s: seq<Ranked>, x: Ranked)
    ensures forall y :: y in Insert(s, x) <==> y in s || y == x
  {
    if s != [] && s[|s| - 1].percent < x.percent {
      InsertMembers(s[..|s| - 1], x);
      assert s == s[..|s| - 1] + [s[|s| - 1]];
    }
  }

  lemma {:induction false} InsertOrdered(s: seq<Ranked>, x: Ranked)
    requires Ordered(s) && forall y :: y in s ==> y.index < x.index
    ensures Ordered(Insert(s, x))
  {
    if s != [] {
      var init, last := s[..|s| - 1], s[|s| - 1];
      if last.percent < x.percent {
        InsertOrdered(init, x);
        InsertMembers(init, x);
        forall i | 0 <= i < |s| ensures Before(Insert(init, x)[i], last) {
          var y := Insert(init, x)[i];
          assert y in Insert(init, x);
        }
      }
    }
  }

  /** The sorted list is ordered, stable, and holds exactly the enumerated percentages. */
  lemma {:induction false} SortSorts(percents: seq<real>)
    ensures Ordered(StableSort(percents))
    ensures forall y :: y in StableSort(percents) <==> y.index < |percents| && y.percent == percents[y.index]
  {
    if percents != [] {
      var n := |percents| - 1;
      var x := Ranked(n, percents[n]);
      SortSorts(percents[..n]);
      InsertMembers(StableSort(percents[..n]), x);
      InsertOrdered(StableSort(percents[..n]), x);
    }
  }

  // ---- sorting does not change what is kept ----

  lemma {:induction false} InsertKeeps(s: seq<Ranked>, x: Ranked, drop: set<nat>)
    ensures KeptSum(Insert(s, x), drop) == KeptSum(s + [x], drop)
    ensures KeptCount(Insert(s, x), drop) == KeptCount(s + [x], drop)
  {
    assert (s + [x])[..|s|] == s;
    if s != [] {
      var init, last := s[..|s| - 1], s[|s| - 1];
      if last.percent < x.percent {
        InsertKeeps(init, x, drop);
        assert (init + [x])[..|init|] == init;
        var r := Insert(s, x);
        assert r == Insert(init, x) + [last];
        assert r[..|r| - 1] == Insert(init, x);
      }
    }
  }

  lemma {:induction false} SortKeeps(percents: seq<real>, drop: set<nat>)
    ensures KeptSum(StableSort(percents), drop) == KeptSum(Enumerated(percents), drop)
    ensures KeptCount(StableSort(percents), drop) == KeptCount(Enumerated(percents), drop)
  {
    if percents != [] {
      var n := |percents| - 1;
      var x := Ranked(n, percents[n]);
      SortKeeps(percents[..n], drop);
      InsertKeeps(StableSort(percents[..n]), x, drop);
      assert Enumerated(percents)[..n] == Enumerated(percents[..n]);
      var s := StableSort(percents[..n]);
      assert (s + [x])[..|s|] == s;
    }
  }

  lemma {:induction false} CountOfChoice(percents: seq<real>, drop: set<nat>)
    requires forall i :: i in drop ==> i < |percents|
    ensures KeptCount(Enumerated(percents), drop) == |percents| - |drop|
  {
    if percents == [] {
      assert drop == {};
    } else {
      var n := |percents| - 1;
      CountOfChoice(percents[..n], drop - {n});
      assert Enumerated(percents)[..n] == Enumerated(percents[..n]);
      assert |drop| == |drop - {n}| + if n in drop then 1 else 0;
      CountIgnores(Enumerated(percents[..n]), drop, n);
    }
  }

  lemma {:induction false} CountIgnores(s: seq<Ranked>, drop: set<nat>, i: nat)
    requires forall y :: y in s ==> y.index != i
    ensures KeptCount(s, drop) == KeptCount(s, drop - {i})
  {
    if s != [] {
      CountIgnores(s[..|s| - 1], drop, i);
    }
  }

  // ---- optimality ----

  /** t added up count times; keeps the argument below linear. */
  ghost function Times(t: real, count: nat): real {
    if count == 0 then 0.0 else Times(t, count - 1) + t
  }

  /** With a threshold t between the first m elements and the rest, no choice beats the first m. */
  lemma {:induction false} BelowThreshold(s: seq<Ranked>, m: nat, t: real, drop: set<nat>)
    requires forall i :: 0 <= i < |s| ==> if i < m then s[i].percent >= t else s[i].percent <= t
    ensures KeptSum(s, drop) - Times(t, KeptCount(s, drop))
         <= Sum(Percents(s)[..Min(m, |s|)]) - Times(t, Min(m, |s|))
  {
    if s != [] {
      var n := |s| - 1;
      BelowThreshold(s[..n], m, t, drop);
      assert Percents(s[..n])[..Min(m, n)] == Percents(s)[..Min(m, n)];
      if n < m {
        assert Percents(s)[..n + 1][..n] == Percents(s)[..n];
      }
    }
  }

  /** Such a threshold exists for the sorted list. */
  lemma Threshold(percents: seq<real>, m: nat) returns (t: real)
    ensures forall i :: 0 <= i < |percents| ==>
              if i < m then StableSort(percents)[i].percent >= t else StableSort(percents)[i].percent <= t
  {
    var s := StableSort(percents);
    SortSorts(percents);
    t := 0.0;
    if s != [] {
      var k := Min(m, |s| - 1);
      t := s[k].percent;
      forall i | 0 <= i < |s| && i != k ensures if i < k then Before(s[i], s[k]) else Before(s[k], s[i]) {
      }
    }
  }

  /** Dropping the lowest is optimal: no set of as many assignments leaves a higher sum. */
  lemma DropIsOptimal(percents: seq<real>, dropCount: int, drop: set<nat>)
    requires IsDropChoice(drop, |percents|, Dropped(|percents|, dropCount))
    ensures KeptSum(Enumerated(percents), drop)
         <= Sum(Percents(StableSort(percents))[..|percents| - Dropped(|percents|, dropCount)])
  {
    var s := StableSort(percents);
    var m := |percents| - Dropped(|percents|, dropCount);
    SortKeeps(percents, drop);
    CountOfChoice(percents, drop);
    var t := Threshold(percents, m);
    BelowThreshold(s, m, t, drop);
  }

  // ---- what the code drops ----

  function DroppedIndices(percents: seq<real>, dropCount: int): seq<nat> {
    var n := |percents|;
    if dropCount > 0 then Indices(StableSort(percents)[n - Dropped(n, dropCount)..]) else []
  }

  /** The indices of a stably sorted list are pairwise different. */
  lemma SortedIndicesDiffer(percents: seq<real>, i: nat, j: nat)
    requires i < j < |percents|
    ensures StableSort(percents)[i].index != StableSort(percents)[j].index
  {
    var s := StableSort(percents);
    SortSorts(percents);
    assert s[i] in s && s[j] in s;
    assert Before(s[i], s[j]);
  }

  /** Every assignment has a place in the sorted list. */
  lemma RankOf(percents: seq<real>, i: nat) returns (k: nat)
    requires i < |percents|
    ensures k < |percents| && StableSort(percents)[k] == Ranked(i, percents[i])
  {
    SortSorts(percents);
    assert Ranked(i, percents[i]) in StableSort(percents);
    k :| 0 <= k < |percents| && StableSort(percents)[k] == Ranked(i, percents[i]);
  }

  /** The dropped assignments are those at the end of the sorted list. */
  lemma DroppedAt(percents: seq<real>, dropCount: int, k: nat)
    requires k < |percents|
    ensures StableSort(percents)[k].index in Elements(DroppedIndices(percents, dropCount))
       <==> |percents| - Dropped(|percents|, dropCount) <= k
  {
    hide StableSort;
    var s := StableSort(percents);
    var m := |percents| - Dropped(|percents|, dropCount);
    var d := DroppedIndices(percents, dropCount);
    if m <= k {
      assert d[k - m] == s[k].index;
    } else if s[k].index in d {
      var a :| 0 <= a < |d| && d[a] == s[k].index;
      SortedIndicesDiffer(percents, k, m + a);
    }
  }

  lemma DroppedCount(percents: seq<real>, dropCount: int)
    ensures |DroppedIndices(percents, dropCount)| == Dropped(|percents|, dropCount)
    ensures |Elements(DroppedIndices(percents, dropCount))| == Dropped(|percents|, dropCount)
    ensures forall i :: i in DroppedIndices(percents, dropCount) ==> i < |percents|
  {
    hide StableSort;
    var s := StableSort(percents);
    var m := |percents| - Dropped(|percents|, dropCount);
    var d := DroppedIndices(percents, dropCount);
    forall i, j | 0 <= i < j < |d| ensures d[i] != d[j] {
      SortedIndicesDiffer(percents, m + i, m + j);
    }
    DistinctSize<nat>(d);
    SortSorts(percents);
    forall i | i in d ensures i < |percents| {
      var a :| 0 <= a < |d| && d[a] == i;
      assert s[m + a] in s;
    }
  }

  /** A dropped assignment is not above a kept one, and of two equal ones the later is dropped. */
  lemma DroppedIsLower(percents: seq<real>, dropCount: int, i: nat, j: nat)
    requires i < |percents| && j < |percents|
    requires i in Elements(DroppedIndices(percents, dropCount)) && j !in Elements(DroppedIndices(percents, dropCount))
    ensures percents[i] < percents[j] || (percents[i] == percents[j] && j < i)
  {
    hide StableSort, DroppedIndices;
    var a := RankOf(percents, i);
    var b := RankOf(percents, j);
    DroppedAt(percents, dropCount, a);
    DroppedAt(percents, dropCount, b);
    SortSorts(percents);
    assert Before(StableSort(percents)[b], StableSort(percents)[a]);
  }

  /** The code drops exactly min(dropCount, n) different assignments, none above a kept one. */
  lemma DroppedAreLowest(percents: seq<real>, dropCount: int)
    ensures var d := Elements(DroppedIndices(percents, dropCount));
            && IsDropChoice(d, |percents|, Dropped(|percents|, dropCount))
            && |DroppedIndices(percents, dropCount)| == |d|
            && forall i, j :: i in d && 0 <= j < |percents| && j !in d ==>
                 percents[i] < percents[j] || (percents[i] == percents[j] && j < i)
  {
    hide StableSort, DroppedIndices, Dropped;
    DroppedCount(percents, dropCount);
    forall i, j | i in Elements(DroppedIndices(percents, dropCount)) && 0 <= j < |percents|
                  && j !in Elements(DroppedIndices(percents, dropCount))
      ensures percents[i] < percents[j] || (percents[i] == percents[j] && j < i)
    {
      DroppedIsLower(percents, dropCount, i, j);
    }
  }

  lemma {:induction false} KeptPrefix(s: seq<Ranked>, m: nat, drop: set<nat>)
    requires m <= |s|
    requires forall i :: 0 <= i < |s| ==> (s[i].index in drop <==> m <= i)
    ensures KeptSum(s, drop) == Sum(Percents(s)[..m])
  {
    if s != [] {
      var n := |s| - 1;
      assert Percents(s[..n]) == Percents(s)[..n];
      if m <= n {
        KeptPrefix(s[..n], m, drop);
        assert Percents(s)[..n][..m] == Percents(s)[..m];
      } else {
        KeptPrefix(s[..n], n, drop);
        assert Percents(s)[..m][..n] == Percents(s)[..n];
        assert Percents(s)[..n][..n] == Percents(s)[..n];
      }
    }
  }

  /** What the code keeps is the sum of the highest percentages. */
  lemma DroppedKeepsTop(percents: seq<real>, dropCount: int)
    ensures KeptSum(Enumerated(percents), Elements(DroppedIndices(percents, dropCount)))
         == Sum(Percents(StableSort(percents))[..|percents| - Dropped(|percents|, dropCount)])
  {
    hide StableSort, DroppedIndices, KeptSum, Sum, Enumerated, Elements;
    var s := StableSort(percents);
    var m := |percents| - Dropped(|percents|, dropCount);
    var d := Elements(DroppedIndices(percents, dropCount));
    forall i | 0 <= i < |s| ensures s[i].index in d <==> m <= i {
      DroppedAt(percents, dropCount, i);
    }
    KeptPrefix(s, m, d);
    SortKeeps(percents, d);
  }

  /** total_with_drops: the loop over the assignments in course order. */
  method TotalWithDrops(percents: seq<real>, dropCount: int) returns (total: real, dropped: seq<nat>)
    ensures dropped == DroppedIndices(percents, dropCount)
    ensures total == SectionPercent(percents, dropCount)
  {
    hide StableSort, Sum;
    var ranked := StableSort(percents);
    dropped := [];
    if dropCount > 0 {
      dropped := Indices(ranked[Max(0, |ranked| - dropCount)..]);
    }
    total := 0.0;
    for i := 0 to |percents|
      invariant total == KeptSum(Enumerated(percents)[..i], Elements(dropped))
    {
      if i !in dropped {
        total := total + percents[i];
      }
      assert Enumerated(percents)[..i + 1][..i] == Enumerated(percents)[..i];
    }
    assert Enumerated(percents)[..|percents|] == Enumerated(percents);
    DroppedKeepsTop(percents, dropCount);
    assert |percents| - dropCount > 0 ==>
      Average(total, |percents| - dropCount) == total / (|percents| - dropCount) as real;
    if |percents| - dropCount > 0 {
      total := total / (|percents| - dropCount) as real;
    }
  }

  // ---- order, monotonicity, one more drop ----

  lemma {:induction false} SortPermutes(percents: seq<real>)
    ensures multiset(Percents(StableSort(percents))) == multiset(percents)
  {
    if percents != [] {
      var n := |percents| - 1;
      SortPermutes(percents[..n]);
      InsertPermutes(StableSort(percents[..n]), Ranked(n, percents[n]));
      assert percents == percents[..n] + [percents[n]];
    }
  }

  lemma {:induction false} InsertPermutes(s: seq<Ranked>, x: Ranked)
    ensures multiset(Percents(Insert(s, x))) == multiset(Percents(s)) + multiset{x.percent}
  {
    if s == [] {
      assert Percents(Insert(s, x)) == [x.percent];
    } else {
      var init, last := s[..|s| - 1], s[|s| - 1];
      assert Percents(s) == Percents(init) + [last.percent];
      if last.percent >= x.percent {
        assert Percents(s + [x]) == Percents(s) + [x.percent];
      } else {
        InsertPermutes(init, x);
        assert Percents(Insert(s, x)) == Percents(Insert(init, x)) + [last.percent];
      }
    }
  }

  ghost predicate Descending(s: seq<real>) { forall i, j :: 0 <= i < j < |s| ==> s[i] >= s[j] }

  lemma LeastIsLast(a: seq<real>, b: seq<real>)
    requires Descending(a) && multiset(a) == multiset(b) && |a| == |b| > 0
    ensures a[|a| - 1] <= b[|b| - 1]
  {
    assert b[|b| - 1] in multiset(a);
    var i :| 0 <= i < |a| && a[i] == b[|b| - 1];
  }

  lemma SortDescends(percents: seq<real>)
    ensures Descending(Percents(StableSort(percents)))
  {
    SortSorts(percents);
    var s := StableSort(percents);
    forall i, j | 0 <= i < j < |s| ensures s[i].percent >= s[j].percent {
      assert Before(s[i], s[j]);
    }
  }

  lemma LastRemoved(a: seq<real>)
    requires a != []
    ensures multiset(a[..|a| - 1]) == multiset(a) - multiset{a[|a| - 1]}
  {
    assert a == a[..|a| - 1] + [a[|a| - 1]];
  }

  lemma {:induction false} DescendingUnique(a: seq<real>, b: seq<real>)
    requires |a| == |b| && Descending(a) && Descending(b) && multiset(a) == multiset(b)
    ensures a == b
  {
    if a != [] {
      var n := |a| - 1;
      LeastIsLast(a, b);
      LeastIsLast(b, a);
      LastRemoved(a);
      LastRemoved(b);
      DescendingUnique(a[..n], b[..n]);
    }
  }

  /** The total depends only on the multiset of percentages, not on their order or on ties. */
  lemma OrderIndependent(p: seq<real>, q: seq<real>, dropCount: int)
    requires multiset(p) == multiset(q)
    ensures SectionPercent(p, dropCount) == SectionPercent(q, dropCount)
  {
    SortPermutes(p);
    SortPermutes(q);
    SortDescends(p);
    SortDescends(q);
    assert |p| == |multiset(p)| == |multiset(q)| == |q|;
    DescendingUnique(Percents(StableSort(p)), Percents(StableSort(q)));
  }

  lemma {:induction false} KeptMonotone(a: seq<Ranked>, b: seq<Ranked>, drop: set<nat>)
    requires |a| == |b|
    requires forall i :: 0 <= i < |a| ==> a[i].index == b[i].index && a[i].percent <= b[i].percent
    ensures KeptSum(a, drop) <= KeptSum(b, drop)
  {
    if a != [] {
      KeptMonotone(a[..|a| - 1], b[..|a| - 1], drop);
    }
  }

  lemma AverageMonotone(x: real, y: real, count: int)
    requires x <= y
    ensures Average(x, count) <= Average(y, count)
  {
  }

  /** Raising percentages never lowers the section, whichever assignments get dropped. */
  lemma SectionMonotone(p: seq<real>, q: seq<real>, dropCount: int)
    requires |p| == |q| && forall i :: 0 <= i < |p| ==> p[i] <= q[i]
    ensures SectionPercent(p, dropCount) <= SectionPercent(q, dropCount)
  {
    hide Average, StableSort, KeptSum;
    var drop := Elements(DroppedIndices(p, dropCount));
    DroppedAreLowest(p, dropCount);
    DroppedKeepsTop(p, dropCount);
    KeptMonotone(Enumerated(p), Enumerated(q), drop);
    DropIsOptimal(q, dropCount, drop);
    var k := |p| - Dropped(|p|, dropCount);
    AverageMonotone(Sum(Percents(StableSort(p))[..k]), Sum(Percents(StableSort(q))[..k]), |p| - dropCount);
  }

  lemma {:induction false} SumAtLeast(s: seq<real>, low: real)
    requires forall i :: 0 <= i < |s| ==> low <= s[i]
    ensures Sum(s) >= Times(low, |s|)
  {
    if s != [] {
      SumAtLeast(s[..|s| - 1], low);
    }
  }

  lemma {:induction false} SumAtMost(s: seq<real>, high: real)
    requires forall i :: 0 <= i < |s| ==> s[i] <= high
    ensures Sum(s) <= Times(high, |s|)
  {
    if s != [] {
      SumAtMost(s[..|s| - 1], high);
    }
  }

  lemma {:induction false} TimesIsProduct(t: real, count: nat)
    ensures Times(t, count) == t * count as real
  {
    if count > 0 {
      TimesIsProduct(t, count - 1);
      var c := (count - 1) as real;
      assert t * (c + 1.0) == t * c + t;
    }
  }

  /** The average of m + 1 values whose last is the least is at most the average of the first m. */
  lemma DropLastOfAverage(sum: real, last: real, m: nat)
    requires m > 0 && sum >= Times(last, m)
    ensures Average(sum + last, m + 1) <= Average(sum, m)
  {
    TimesIsProduct(last, m);
    var c := m as real;
    var a := sum / c;
    assert a * c == sum;
    assert (a - last) * c >= 0.0;
    assert a - last >= 0.0;
    assert sum + last <= a * c + a == a * (c + 1.0);
    AverageMonotone(sum + last, a * (c + 1.0), m + 1);
    assert a * (c + 1.0) / (c + 1.0) == a;
  }

  /**
   One more drop never hurts unless it is the one that leaves no assignment to count:
   then the section falls to zero, which lowers it exactly when some percentage is positive.
   */
  lemma OneMoreDrop(percents: seq<real>, dropCount: nat)
    ensures SectionPercent(percents, dropCount) <= SectionPercent(percents, dropCount + 1)
       <==> (dropCount + 1 != |percents| || forall i :: 0 <= i < |percents| ==> percents[i] <= 0.0)
  {
    var n := |percents|;
    var top := Percents(StableSort(percents));
    SortDescends(percents);
    if dropCount + 1 < n {
      var m := n - dropCount - 1;
      assert top[..m + 1][..m] == top[..m];
      SumAtLeast(top[..m], top[m]);
      DropLastOfAverage(Sum(top[..m]), top[m], m);
    } else if dropCount + 1 == n {
      assert top[..1] == [top[0]] && [top[0]][..0] == [];
      assert Sum(top[..1]) == top[0];
      assert SectionPercent(percents, dropCount) == Average(top[0], 1) == top[0];
      TopIsHighest(percents);
    }
  }

  lemma TopIsHighest(percents: seq<real>)
    requires percents != []
    ensures var top := StableSort(percents)[0].percent;
            top in percents && forall i :: 0 <= i < |percents| ==> percents[i] <= top
  {
    var s := StableSort(percents);
    SortSorts(percents);
    assert s[0] in s;
    forall i | 0 <= i < |percents| ensures percents[i] <= s[0].percent {
      assert Ranked(i, percents[i]) in s;
      var j :| 0 <= j < |s| && s[j] == Ranked(i, percents[i]);
      assert j > 0 ==> Before(s[0], s[j]);
    }
  }

  lemma SectionNonNegative(percents: seq<real>, dropCount: int)
    requires forall i :: 0 <= i < |percents| ==> 0.0 <= percents[i]
    ensures 0.0 <= SectionPercent(percents, dropCount)
  {
    var s := StableSort(percents);
    SortSorts(percents);
    forall i | 0 <= i < |percents| ensures 0.0 <= s[i].percent {
      assert s[i] in s;
    }
    var top := Percents(s)[..|percents| - Dropped(|percents|, dropCount)];
    SumAtLeast(top, 0.0);
    TimesIsProduct(0.0, |top|);
    AverageMonotone(0.0, Sum(top), |percents| - dropCount);
  }

  /** Percentages between 0 and 1 give a section between 0 and 1. */
  lemma SectionBounds(percents: seq<real>, dropCount: int)
    requires forall i :: 0 <= i < |percents| ==> 0.0 <= percents[i] <= 1.0
    ensures 0.0 <= SectionPercent(percents, dropCount) <= 1.0
  {
    hide Average, StableSort, Sum, Times;
    var n := |percents|;
    SortedBounds(percents);
    var top := Percents(StableSort(percents))[..n - Dropped(n, dropCount)];
    SumAtLeast(top, 0.0);
    SumAtMost(top, 1.0);
    TimesIsProduct(0.0, |top|);
    TimesIsProduct(1.0, |top|);
    AverageBounds(Sum(top), |top|, n - dropCount);
  }

  lemma SortedBounds(percents: seq<real>)
    requires forall i :: 0 <= i < |percents| ==> 0.0 <= percents[i] <= 1.0
    ensures forall i :: 0 <= i < |percents| ==> 0.0 <= StableSort(percents)[i].percent <= 1.0
  {
    var s := StableSort(percents);
    SortSorts(percents);
    forall i | 0 <= i < |percents| ensures 0.0 <= s[i].percent <= 1.0 {
      assert s[i] in s;
    }
  }

  lemma AverageBounds(sum: real, size: nat, count: int)
    requires 0.0 <= sum <= size as real
    requires if count > 0 then size <= count else size == 0
    ensures 0.0 <= Average(sum, count) <= 1.0
  {
    if count > 0 {
      var c := count as real;
      AverageMonotone(0.0, sum, count);
      AverageMonotone(sum, c, count);
      assert c / c == 1.0 && 0.0 / c == 0.0;
    }
  }

  // ---- the section is an average ----

  /** The section, times the number of counted assignments, is the sum of the percentages kept. */
  lemma SectionIsAverage(percents: seq<real>, dropCount: int)
    requires dropCount < |percents|
    ensures SectionPercent(percents, dropCount) * (|percents| - dropCount) as real
         == KeptSum(Enumerated(percents), Elements(DroppedIndices(percents, dropCount)))
  {
    hide StableSort, Sum, KeptSum, Enumerated, DroppedIndices, Elements;
    DroppedKeepsTop(percents, dropCount);
    var sum := Sum(Percents(StableSort(percents))[..|percents| - Dropped(|percents|, dropCount)]);
    Quotient(sum, (|percents| - dropCount) as real);
  }

  lemma Quotient(x: real, y: real)
    requires y > 0.0
    ensures x / y * y == x
  {
  }

  /** When every assignment is dropped the section is zero. */
  lemma NothingCounted(percents: seq<real>, dropCount: int)
    requires dropCount >= |percents|
    ensures SectionPercent(percents, dropCount) == 0.0
  {
    assert Percents(StableSort(percents))[..0] == [];
  }

  /** Assignments of the same percentage give a section of that percentage. */
  lemma EqualPercents(percents: seq<real>, percent: real, dropCount: int)
    requires 0 <= dropCount < |percents| && forall i :: 0 <= i < |percents| ==> percents[i] == percent
    ensures SectionPercent(percents, dropCount) == percent
  {
    hide StableSort, Sum, Times;
    var k := |percents| - dropCount;
    var top := Percents(StableSort(percents))[..k];
    assert forall i :: 0 <= i < k ==> top[i] == percent by {
      SortedEqual(percents, percent);
    }
    SumAtLeast(top, percent);
    SumAtMost(top, percent);
    TimesIsProduct(percent, k);
    assert percent * k as real / k as real == percent;
  }

  lemma SortedEqual(percents: seq<real>, percent: real)
    requires forall i :: 0 <= i < |percents| ==> percents[i] == percent
    ensures forall i :: 0 <= i < |percents| ==> StableSort(percents)[i].percent == percent
  {
    var s := StableSort(percents);
    SortSorts(percents);
    forall i | 0 <= i < |percents| ensures s[i].percent == percent {
      assert s[i] in s;
    }
  }
}
