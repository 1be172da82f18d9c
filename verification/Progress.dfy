/**
 Progress fractions and how the progress of a sequence is folded from that of its children.
 */
module ProgressFold {
  import opened Options

  /** A fraction a/b with 0 <= a <= b and b > 0. */
  datatype Progress = Progress(a: real, b: real)

  ghost predicate Valid(p: Progress) { 0.0 <= p.a <= p.b && p.b > 0.0 }

  /** The constructor: it clamps a into 0..b; None is the ValueError. */
  function Make(a: real, b: real): Option<Progress> {
    var a1 := if a > b then b else a;
    var a2 := if a1 < 0.0 then 0.0 else a1;
    if b <= 0.0 then None else Some(Progress(a2, b))
  }

  predicate Done(p: Progress) { p.a == p.b }

  /** A constructed fraction is valid, and is the given one exactly when that was valid. */
  lemma MakeIsValid(a: real, b: real)
    ensures Make(a, b).Some? <==> b > 0.0
    ensures Make(a, b).Some? ==> Valid(Make(a, b).value)
    ensures Make(a, b) == Some(Progress(a, b)) <==> Valid(Progress(a, b))
    ensures b > 0.0 && a > b ==> Make(a, b) == Some(Progress(b, b))
    ensures b > 0.0 && a < 0.0 ==> Make(a, b) == Some(Progress(0.0, b))
  {
  }

  /** add_counts: None when the constructor raises, otherwise an optional progress. */
  function AddCounts(p: Option<Progress>, q: Option<Progress>): Option<Option<Progress>> {
    if p.None? then Some(q)
    else if q.None? then Some(p)
    else
      var sum := Make(p.value.a + q.value.a, p.value.b + q.value.b);
      if sum.None? then None else Some(sum)
  }

  /** reduce(add_counts, progresses, start) */
  function Reduce(start: Option<Progress>, ps: seq<Option<Progress>>): Option<Option<Progress>>
    decreases ps
  {
    if ps == [] then Some(start)
    else
      var next := AddCounts(start, ps[0]);
      if next.None? then None else Reduce(next.value, ps[1..])
  }

  ghost predicate AllValid(ps: seq<Option<Progress>>) {
    forall i :: 0 <= i < |ps| && ps[i].Some? ==> Valid(ps[i].value)
  }

  function SumA(ps: seq<Option<Progress>>): real {
    if ps == [] then 0.0 else (if ps[0].Some? then ps[0].value.a else 0.0) + SumA(ps[1..])
  }

  function SumB(ps: seq<Option<Progress>>): real {
    if ps == [] then 0.0 else (if ps[0].Some? then ps[0].value.b else 0.0) + SumB(ps[1..])
  }

  predicate AllNone(ps: seq<Option<Progress>>) { forall i :: 0 <= i < |ps| ==> ps[i].None? }

  predicate AllDone(ps: seq<Option<Progress>>) { forall i :: 0 <= i < |ps| && ps[i].Some? ==> Done(ps[i].value) }

  /** The fold: none when there is nothing to add, else the sum of the parts over the sum of the wholes. */
  function Fold(ps: seq<Option<Progress>>): Option<Progress> {
    if AllNone(ps) then None else Some(Progress(SumA(ps), SumB(ps)))
  }

  lemma {:induction false} SumBounds(ps: seq<Option<Progress>>)
    requires AllValid(ps)
    ensures 0.0 <= SumA(ps) <= SumB(ps)
    ensures !AllNone(ps) ==> SumB(ps) > 0.0
    ensures AllNone(ps) ==> SumB(ps) == 0.0
    ensures SumA(ps) == SumB(ps) <==> AllDone(ps)
  {
    if ps != [] {
      SumBounds(ps[1..]);
      assert forall i :: 1 <= i < |ps| ==> ps[i] == ps[1..][i - 1];
    }
  }

  /** Starting from a fraction, reducing adds up and never clamps or raises. */
  lemma {:induction false} ReduceFrom(start: Option<Progress>, ps: seq<Option<Progress>>)
    requires AllValid(ps) && (start.Some? ==> Valid(start.value))
    ensures Reduce(start, ps) == Some(Fold([start] + ps))
    decreases ps
  {
    if ps == [] {
      assert [start] + ps == [start];
      SumsOfOne(start);
    } else {
      var next, rest := AddCounts(start, ps[0]).value, ps[1..];
      ReduceFrom(next, rest);
      assert ps == [ps[0]] + rest;
      hide SumA, SumB, AllNone;
      SumsCons(next, rest);
      SumsCons(start, ps);
      SumsCons(ps[0], rest);
    }
  }

  function PartA(p: Option<Progress>): real { if p.Some? then p.value.a else 0.0 }

  function PartB(p: Option<Progress>): real { if p.Some? then p.value.b else 0.0 }

  lemma SumsCons(p: Option<Progress>, ps: seq<Option<Progress>>)
    ensures SumA([p] + ps) == PartA(p) + SumA(ps) && SumB([p] + ps) == PartB(p) + SumB(ps)
    ensures AllNone([p] + ps) <==> p.None? && AllNone(ps)
  {
    assert ([p] + ps)[1..] == ps && ([p] + ps)[0] == p;
    assert forall i :: 0 <= i < |ps| ==> ([p] + ps)[i + 1] == ps[i];
  }

  /**
   The progress of a sequence: none exactly when no child has any, else the sums of the children's
   counts; it is done exactly when every child with progress is.
   */
  lemma ChildrenAddUp(ps: seq<Option<Progress>>)
    requires AllValid(ps)
    ensures Reduce(None, ps) == Some(Fold(ps))
    ensures Fold(ps).None? <==> AllNone(ps)
    ensures Fold(ps).Some? ==> Valid(Fold(ps).value) && (Done(Fold(ps).value) <==> AllDone(ps))
  {
    ReduceFrom(None, ps);
    SumBounds(ps);
    assert ([None] + ps)[1..] == ps && ([None] + ps)[0] == None;
    assert AllNone([None] + ps) <==> AllNone(ps) by {
      assert forall i :: 0 <= i < |ps| ==> ([None] + ps)[i + 1] == ps[i];
    }
  }

  /** Every child's fraction lies between low and high. */
  ghost predicate Between(ps: seq<Option<Progress>>, low: real, high: real) {
    forall i :: 0 <= i < |ps| && ps[i].Some? ==>
      low * ps[i].value.b <= ps[i].value.a <= high * ps[i].value.b
  }

  lemma BetweenCons(ps: seq<Option<Progress>>, low: real, high: real)
    requires ps != [] && Between(ps, low, high)
    ensures Between(ps[1..], low, high)
    ensures low * PartB(ps[0]) <= PartA(ps[0]) <= high * PartB(ps[0])
  {
    assert forall i :: 0 <= i < |ps[1..]| ==> ps[1..][i] == ps[i + 1];
    PartBetween(ps[0], low, high);
  }

  lemma {:induction false} SumsBetween(ps: seq<Option<Progress>>, low: real, high: real)
    requires Between(ps, low, high)
    ensures low * SumB(ps) <= SumA(ps) <= high * SumB(ps)
  {
    hide *;
    if ps == [] {
      NoSums();
    } else {
      var p, rest := ps[0], ps[1..];
      BetweenCons(ps, low, high);
      SumsBetween(rest, low, high);
      assert ps == [p] + rest;
      SumsCons(p, rest);
      AddBounds(low, high, PartA(p), PartB(p), SumA(rest), SumB(rest), SumB(ps));
    }
  }

  lemma NoSums()
    ensures SumA([]) == 0.0 && SumB([]) == 0.0
  {
  }

  lemma PartBetween(p: Option<Progress>, low: real, high: real)
    requires p.Some? ==> low * p.value.b <= p.value.a <= high * p.value.b
    ensures low * PartB(p) <= PartA(p) <= high * PartB(p)
  {
  }

  lemma AddBounds(low: real, high: real, a: real, b: real, c: real, d: real, total: real)
    requires low * b <= a <= high * b && low * d <= c <= high * d && total == b + d
    ensures low * total <= a + c <= high * total
  {
    assert low * total == low * b + low * d && high * total == high * b + high * d;
  }

  lemma Divided(a: real, b: real, low: real, high: real)
    requires b > 0.0 && low * b <= a <= high * b
    ensures low <= a / b <= high
  {
    var q := a / b;
    assert q * b == a;
    assert (q - low) * b >= 0.0 && (high - q) * b >= 0.0;
  }

  /** The folded fraction lies between any bounds on the children's fractions. */
  lemma FoldBetween(ps: seq<Option<Progress>>, low: real, high: real)
    requires AllValid(ps) && !AllNone(ps) && Between(ps, low, high)
    ensures var p := Fold(ps).value; p.b > 0.0 && low <= p.a / p.b <= high
  {
    hide SumA, SumB, Between;
    SumBounds(ps);
    SumsBetween(ps, low, high);
    Divided(SumA(ps), SumB(ps), low, high);
  }

  // ---- order ----

  lemma {:induction false} SumsOfRemoval(ps: seq<Option<Progress>>, i: nat)
    requires i < |ps|
    ensures var q := ps[..i] + ps[i + 1..];
            && SumA(ps) == SumA(q) + (if ps[i].Some? then ps[i].value.a else 0.0)
            && SumB(ps) == SumB(q) + (if ps[i].Some? then ps[i].value.b else 0.0)
  {
    var q := ps[..i] + ps[i + 1..];
    if i == 0 {
      assert q == ps[1..];
    } else {
      SumsOfRemoval(ps[1..], i - 1);
      assert ps[1..][..i - 1] + ps[1..][i..] == q[1..];
    }
  }

  /** The children's order does not matter. */
  lemma {:induction false} OrderIrrelevant(ps: seq<Option<Progress>>, qs: seq<Option<Progress>>)
    requires multiset(ps) == multiset(qs)
    ensures Fold(ps) == Fold(qs)
  {
    SameSums(ps, qs);
    assert AllNone(ps) <==> forall p :: p in multiset(ps) ==> p.None?;
    assert AllNone(qs) <==> forall p :: p in multiset(qs) ==> p.None?;
  }

  lemma RemovedAt(ps: seq<Option<Progress>>, i: nat)
    requires i < |ps|
    ensures multiset(ps[..i] + ps[i + 1..]) == multiset(ps) - multiset{ps[i]}
  {
    assert ps == ps[..i] + [ps[i]] + ps[i + 1..];
  }

  lemma Matched(ps: seq<Option<Progress>>, qs: seq<Option<Progress>>) returns (i: nat)
    requires ps != [] && multiset(ps) == multiset(qs)
    ensures i < |qs| && qs[i] == ps[0]
    ensures multiset(ps[1..]) == multiset(qs[..i] + qs[i + 1..])
  {
    assert ps[0] in multiset(qs);
    i :| 0 <= i < |qs| && qs[i] == ps[0];
    assert ps[..0] + ps[1..] == ps[1..];
    RemovedAt(ps, 0);
    RemovedAt(qs, i);
  }

  lemma {:induction false} SameSums(ps: seq<Option<Progress>>, qs: seq<Option<Progress>>)
    requires multiset(ps) == multiset(qs)
    ensures SumA(ps) == SumA(qs) && SumB(ps) == SumB(qs)
    decreases ps
  {
    if ps == [] {
      assert |multiset(qs)| == 0;
    } else {
      hide *;
      var i := Matched(ps, qs);
      SameSums(ps[1..], qs[..i] + qs[i + 1..]);
      SumsOfRemoval(ps, 0);
      SumsOfRemoval(qs, i);
      assert ps[..0] + ps[1..] == ps[1..];
    }
  }

  // ---- nested sequences ----

  /** A course tree: a block with its own progress, or a sequence of children. */
  datatype Block = Leaf(progress: Option<Progress>) | Sequence(children: seq<Block>)

  /** get_progress of a block; a sequence folds its children's. */
  function GetProgress(b: Block): Option<Progress>
    decreases b, 0
  {
    match b case Leaf(p) => p case Sequence(children) => Fold(Progresses(children))
  }

  function Progresses(bs: seq<Block>): (r: seq<Option<Progress>>)
    ensures |r| == |bs|
    decreases bs, 1
  {
    if bs == [] then [] else [GetProgress(bs[0])] + Progresses(bs[1..])
  }

  /** The progress of all leaves, left to right. */
  function Leaves(b: Block): seq<Option<Progress>>
    decreases b, 0
  {
    match b case Leaf(p) => [p] case Sequence(children) => LeavesAll(children)
  }

  function LeavesAll(bs: seq<Block>): seq<Option<Progress>>
    decreases bs, 1
  {
    if bs == [] then [] else Leaves(bs[0]) + LeavesAll(bs[1..])
  }

  lemma {:induction false} SumsJoin(ps: seq<Option<Progress>>, qs: seq<Option<Progress>>)
    ensures SumA(ps + qs) == SumA(ps) + SumA(qs) && SumB(ps + qs) == SumB(ps) + SumB(qs)
    ensures AllNone(ps + qs) <==> AllNone(ps) && AllNone(qs)
  {
    assert forall i :: 0 <= i < |ps| ==> (ps + qs)[i] == ps[i];
    assert forall i :: 0 <= i < |qs| ==> (ps + qs)[|ps| + i] == qs[i];
    if ps == [] {
      assert ps + qs == qs;
    } else {
      assert (ps + qs)[1..] == ps[1..] + qs;
      SumsJoin(ps[1..], qs);
    }
  }

  /** Nesting does not matter: a tree's progress is the fold over its leaves. */
  lemma {:induction false} NestingIrrelevant(b: Block)
    ensures GetProgress(b) == if b.Leaf? then b.progress else Fold(Leaves(b))
    decreases b, 0
  {
    if b.Sequence? {
      SumsOfChildren(b.children);
    }
  }

  lemma {:induction false} SumsOfChildren(bs: seq<Block>)
    ensures SumA(Progresses(bs)) == SumA(LeavesAll(bs)) && SumB(Progresses(bs)) == SumB(LeavesAll(bs))
    ensures AllNone(Progresses(bs)) <==> AllNone(LeavesAll(bs))
    decreases bs, 1
  {
    if bs != [] {
      NestingIrrelevant(bs[0]);
      SumsOfChildren(bs[1..]);
      SumsJoin(Leaves(bs[0]), LeavesAll(bs[1..]));
      SumsJoin([GetProgress(bs[0])], Progresses(bs[1..]));
      NoneSums(Leaves(bs[0]));
      SumsOfOne(GetProgress(bs[0]));
      if bs[0].Leaf? {
        assert Leaves(bs[0]) == [bs[0].progress];
      }
    }
  }

  lemma {:induction false} NoneSums(ps: seq<Option<Progress>>)
    ensures AllNone(ps) ==> SumA(ps) == 0.0 && SumB(ps) == 0.0
  {
    if AllNone(ps) && ps != [] {
      NoneSums(ps[1..]);
    }
  }

  lemma SumsOfOne(p: Option<Progress>)
    ensures SumA([p]) == (if p.Some? then p.value.a else 0.0) && SumB([p]) == (if p.Some? then p.value.b else 0.0)
    ensures AllNone([p]) <==> p.None?
  {
    assert [p][1..] == [];
  }
}
