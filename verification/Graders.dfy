/**
 The course grader: AssignmentFormatGrader pads the scores of one assignment type with
 zeros and drops the lowest; WeightedSubsectionsGrader adds the weighted sections and
 records each contribution in an ordered dictionary keyed by category.
 */
module Graders {
  import opened Collections
  import opened DropLowest

  /** percent_graded of the sections of each assignment type, in sheet order. */
  type GradeSheet = map<string, seq<real>>

  datatype Entry = Entry(percent: real, isDropped: bool, prominent: bool)

  datatype AssignmentFormatGrader = AssignmentFormatGrader(
    kind: string, minCount: int, dropCount: int, category: string,
    showOnlyAverage: bool, hideAverage: bool)
  {
    function Scores(sheet: GradeSheet): seq<real> { if kind in sheet then sheet[kind] else [] }

    /** The scores of this type, followed by zeros for the unreleased assignments. */
    function Marks(sheet: GradeSheet): seq<real> {
      Scores(sheet) + seq(Max(0, minCount - |Scores(sheet)|), _ => 0.0)
    }

    function Percent(sheet: GradeSheet): real { SectionPercent(Marks(sheet), dropCount) }

    method Pad(sheet: GradeSheet) returns (marks: seq<real>)
      ensures marks == Marks(sheet)
      ensures |marks| == Max(minCount, if kind in sheet then |sheet[kind]| else 0)
      ensures forall i :: 0 <= i < |marks| ==>
                marks[i] == if kind in sheet && i < |sheet[kind]| then sheet[kind][i] else 0.0
    {
      var scores := Scores(sheet);
      marks := [];
      for i := 0 to Max(minCount, |scores|)
        invariant marks == Marks(sheet)[..i]
      {
        marks := marks + [if i < |scores| then scores[i] else 0.0];
      }
    }

    method Grade(sheet: GradeSheet) returns (percent: real, breakdown: seq<Entry>)
      ensures percent == Percent(sheet)
      ensures IsDisplay(this, Marks(sheet), breakdown)
    {
      var marks := Pad(sheet);
      var dropped;
      percent, dropped := TotalWithDrops(marks, dropCount);
      DroppedAreLowest(marks, dropCount);
      assert forall i :: i in dropped ==> i in Elements(dropped);
      breakdown := MarkDropped(marks, dropped);
      if |breakdown| == 1 {
        breakdown := [Entry(percent, false, true)];
      } else {
        if showOnlyAverage {
          breakdown := [];
        }
        if !hideAverage {
          breakdown := breakdown + [Entry(percent, false, true)];
        }
      }
    }
  }

  /** The entries displayed for a section: a single assignment is shown as the total only. */
  ghost predicate IsDisplay(g: AssignmentFormatGrader, marks: seq<real>, breakdown: seq<Entry>) {
    var total := Entry(SectionPercent(marks, g.dropCount), false, true);
    if |marks| == 1 then breakdown == [total]
    else
      var shown := if g.showOnlyAverage then 0 else |marks|;
      && |breakdown| == shown + (if g.hideAverage then 0 else 1)
      && (!g.hideAverage ==> breakdown[shown] == total)
      && forall i :: 0 <= i < shown ==>
           breakdown[i] == Entry(marks[i], i in DroppedIndices(marks, g.dropCount), false)
  }

  method MarkDropped(marks: seq<real>, dropped: seq<nat>) returns (breakdown: seq<Entry>)
    requires forall i :: i in dropped ==> i < |marks|
    ensures |breakdown| == |marks|
    ensures forall i :: 0 <= i < |marks| ==> breakdown[i] == Entry(marks[i], i in dropped, false)
  {
    breakdown := seq(|marks|, i requires 0 <= i < |marks| => Entry(marks[i], false, false));
    for k := 0 to |dropped|
      invariant |breakdown| == |marks|
      invariant forall i :: 0 <= i < |marks| ==> breakdown[i] == Entry(marks[i], i in dropped[..k], false)
    {
      var i := dropped[k];
      assert i in dropped;
      breakdown := breakdown[i := breakdown[i].(isDropped := true)];
    }
  }

  /** One (subgrader, category, weight) triple; grader_from_conf takes the category of the subgrader. */
  datatype Weighted = Weighted(grader: AssignmentFormatGrader, weight: real)

  /** A category with an amount: a weight, or a weighted percentage. */
  datatype Term = Term(category: string, amount: real)

  function Weigh(w: Weighted, sheet: GradeSheet): Term {
    Term(w.grader.category, w.grader.Percent(sheet) * w.weight)
  }

  function Contributions(subgraders: seq<Weighted>, sheet: GradeSheet): (r: seq<Term>)
    ensures |r| == |subgraders| && forall i :: 0 <= i < |r| ==> r[i] == Weigh(subgraders[i], sheet)
  {
    seq(|subgraders|, i requires 0 <= i < |subgraders| => Weigh(subgraders[i], sheet))
  }

  function Weights(subgraders: seq<Weighted>): (r: seq<Term>)
    ensures |r| == |subgraders|
    ensures forall i :: 0 <= i < |r| ==> r[i] == Term(subgraders[i].grader.category, subgraders[i].weight)
  {
    seq(|subgraders|, i requires 0 <= i < |subgraders| =>
      Term(subgraders[i].grader.category, subgraders[i].weight))
  }

  function Total(terms: seq<Term>): real {
    if terms == [] then 0.0 else Total(terms[..|terms| - 1]) + terms[|terms| - 1].amount
  }

  /** The weighted sum of the sections. */
  function CoursePercent(subgraders: seq<Weighted>, sheet: GradeSheet): real {
    Total(Contributions(subgraders, sheet))
  }

  function SumOfWeights(subgraders: seq<Weighted>): real { Total(Weights(subgraders)) }

  /** Assignment to Python's OrderedDict: an existing key keeps its place. */
  function Put(d: seq<Term>, t: Term): seq<Term> {
    if d == [] then [t]
    else if d[0].category == t.category then [t] + d[1..]
    else [d[0]] + Put(d[1..], t)
  }

  /** The dictionary left by assigning the terms one after the other. */
  function Overlay(terms: seq<Term>): seq<Term> {
    if terms == [] then [] else Put(Overlay(terms[..|terms| - 1]), terms[|terms| - 1])
  }

  method CourseGrade(subgraders: seq<Weighted>, sheet: GradeSheet)
    returns (percent: real, sections: seq<seq<Entry>>, gradeBreakdown: seq<Term>)
    ensures percent == CoursePercent(subgraders, sheet)
    ensures gradeBreakdown == Overlay(Contributions(subgraders, sheet))
    ensures |sections| == |subgraders|
    ensures forall i :: 0 <= i < |sections| ==>
              IsDisplay(subgraders[i].grader, subgraders[i].grader.Marks(sheet), sections[i])
  {
    hide SectionPercent, IsDisplay, Weigh;
    percent, sections, gradeBreakdown := 0.0, [], [];
    ghost var terms := Contributions(subgraders, sheet);
    for i := 0 to |subgraders|
      invariant percent == Total(terms[..i])
      invariant gradeBreakdown == Overlay(terms[..i])
      invariant |sections| == i
      invariant forall k :: 0 <= k < i ==>
                  IsDisplay(subgraders[k].grader, subgraders[k].grader.Marks(sheet), sections[k])
    {
      assert terms[..i + 1][..i] == terms[..i];
      var weighted, entries := WeighedGrade(subgraders[i], sheet);
      percent := percent + weighted.amount;
      sections := sections + [entries];
      gradeBreakdown := Put(gradeBreakdown, weighted);
    }
    assert terms[..|subgraders|] == terms;
  }

  method WeighedGrade(w: Weighted, sheet: GradeSheet) returns (term: Term, entries: seq<Entry>)
    ensures term == Weigh(w, sheet)
    ensures IsDisplay(w.grader, w.grader.Marks(sheet), entries)
  {
    var percent;
    percent, entries := w.grader.Grade(sheet);
    term := Term(w.grader.category, percent * w.weight);
  }

  method ComputeSumOfWeights(subgraders: seq<Weighted>) returns (sum: real)
    ensures sum == SumOfWeights(subgraders)
  {
    sum := 0.0;
    ghost var terms := Weights(subgraders);
    for i := 0 to |subgraders|
      invariant sum == Total(terms[..i])
    {
      assert terms[..i + 1][..i] == terms[..i];
      sum := sum + subgraders[i].weight;
    }
    assert terms[..|subgraders|] == terms;
  }

  // ---- monotonicity and bounds of the course grade ----

  lemma {:induction false} TotalMonotone(a: seq<Term>, b: seq<Term>)
    requires |a| == |b| && forall i :: 0 <= i < |a| ==> a[i].amount <= b[i].amount
    ensures Total(a) <= Total(b)
  {
    if a != [] {
      TotalMonotone(a[..|a| - 1], b[..|b| - 1]);
    }
  }

  lemma ScaleMonotone(x: real, y: real, weight: real)
    requires x <= y && weight >= 0.0
    ensures x * weight <= y * weight
  {
  }

  lemma UnitScale(x: real, weight: real)
    requires 0.0 <= x <= 1.0 && weight >= 0.0
    ensures 0.0 <= x * weight <= weight
  {
    assert (1.0 - x) * weight >= 0.0;
  }

  /**
   For grader g, sheet b improves on sheet a: every released score is at least as high, and
   further scores only replace unreleased placeholders.
   */
  ghost predicate Improves(g: AssignmentFormatGrader, a: GradeSheet, b: GradeSheet) {
    var x, y := g.Scores(a), g.Scores(b);
    && |x| <= |y| <= Max(|x|, g.minCount)
    && (forall i :: 0 <= i < |x| ==> x[i] <= y[i])
    && (forall i :: |x| <= i < |y| ==> 0.0 <= y[i])
  }

  lemma MarksImprove(g: AssignmentFormatGrader, a: GradeSheet, b: GradeSheet)
    requires Improves(g, a, b)
    ensures |g.Marks(a)| == |g.Marks(b)|
    ensures forall i :: 0 <= i < |g.Marks(a)| ==> g.Marks(a)[i] <= g.Marks(b)[i]
  {
  }

  lemma WeighMonotone(w: Weighted, a: GradeSheet, b: GradeSheet)
    requires w.weight >= 0.0 && Improves(w.grader, a, b)
    ensures Weigh(w, a).amount <= Weigh(w, b).amount
  {
    hide SectionPercent;
    var p, q := w.grader.Marks(a), w.grader.Marks(b);
    assert SectionPercent(p, w.grader.dropCount) <= SectionPercent(q, w.grader.dropCount) by {
      MarksImprove(w.grader, a, b);
      SectionMonotone(p, q, w.grader.dropCount);
    }
    ScaleMonotone(w.grader.Percent(a), w.grader.Percent(b), w.weight);
  }

  /** Every percentage lies between 0 and 1. */
  ghost predicate Fractions(sheet: GradeSheet) {
    forall k :: k in sheet ==> forall i :: 0 <= i < |sheet[k]| ==> 0.0 <= sheet[k][i] <= 1.0
  }

  lemma PercentBounds(g: AssignmentFormatGrader, sheet: GradeSheet)
    requires Fractions(sheet)
    ensures 0.0 <= g.Percent(sheet) <= 1.0
  {
    var p := g.Marks(sheet);
    SectionBounds(p, g.dropCount);
  }

  lemma WeighBounds(w: Weighted, sheet: GradeSheet)
    requires w.weight >= 0.0
    requires Fractions(sheet)
    ensures 0.0 <= Weigh(w, sheet).amount <= w.weight
  {
    hide SectionPercent;
    PercentBounds(w.grader, sheet);
    UnitScale(w.grader.Percent(sheet), w.weight);
  }

  /** A better sheet never gives a lower course grade, even when other assignments get dropped. */
  lemma CourseMonotone(subgraders: seq<Weighted>, a: GradeSheet, b: GradeSheet)
    requires forall i :: 0 <= i < |subgraders| ==>
               subgraders[i].weight >= 0.0 && Improves(subgraders[i].grader, a, b)
    ensures CoursePercent(subgraders, a) <= CoursePercent(subgraders, b)
  {
    forall i | 0 <= i < |subgraders|
      ensures Weigh(subgraders[i], a).amount <= Weigh(subgraders[i], b).amount
    {
      WeighMonotone(subgraders[i], a, b);
    }
    TotalMonotone(Contributions(subgraders, a), Contributions(subgraders, b));
  }

  lemma {:induction false} TotalNonNegative(terms: seq<Term>)
    requires forall i :: 0 <= i < |terms| ==> 0.0 <= terms[i].amount
    ensures 0.0 <= Total(terms)
  {
    if terms != [] {
      TotalNonNegative(terms[..|terms| - 1]);
    }
  }

  /** Percentages between 0 and 1 give a course grade between 0 and the sum of the weights. */
  lemma CourseBounds(subgraders: seq<Weighted>, sheet: GradeSheet)
    requires forall i :: 0 <= i < |subgraders| ==> subgraders[i].weight >= 0.0
    requires Fractions(sheet)
    ensures 0.0 <= CoursePercent(subgraders, sheet) <= SumOfWeights(subgraders)
  {
    forall i | 0 <= i < |subgraders|
      ensures 0.0 <= Weigh(subgraders[i], sheet).amount <= subgraders[i].weight
    {
      WeighBounds(subgraders[i], sheet);
    }
    TotalNonNegative(Contributions(subgraders, sheet));
    TotalMonotone(Contributions(subgraders, sheet), Weights(subgraders));
  }

  // ---- when the breakdown adds up to the grade ----

  /** A later term has the same category, so this one is overwritten. */
  ghost predicate Overwritten(terms: seq<Term>, i: nat)
    requires i < |terms|
  {
    exists j :: i < j < |terms| && terms[j].category == terms[i].category
  }

  /** The amount stored under a category, 0 when there is none. */
  function Lookup(d: seq<Term>, category: string): real {
    if d == [] then 0.0
    else if d[0].category == category then d[0].amount
    else Lookup(d[1..], category)
  }

  lemma {:induction false} TotalCons(t: Term, rest: seq<Term>)
    ensures Total([t] + rest) == t.amount + Total(rest)
  {
    var all := [t] + rest;
    if rest == [] {
      assert all[..0] == [];
    } else {
      var n := |rest| - 1;
      assert all[..|all| - 1] == [t] + rest[..n];
      TotalCons(t, rest[..n]);
    }
  }

  lemma {:induction false} PutChangesTotal(d: seq<Term>, t: Term)
    ensures Total(Put(d, t)) == Total(d) - Lookup(d, t.category) + t.amount
    ensures forall c :: Lookup(Put(d, t), c) == if c == t.category then t.amount else Lookup(d, c)
  {
    if d == [] {
      assert [t][..0] == [];
    } else {
      assert d == [d[0]] + d[1..];
      TotalCons(d[0], d[1..]);
      TotalCons(t, d[1..]);
      TotalCons(d[0], Put(d[1..], t));
      PutChangesTotal(d[1..], t);
    }
  }

  /** The dictionary holds the last amount assigned to a category. */
  lemma {:induction false} LastAssigned(terms: seq<Term>, category: string)
    ensures forall i :: 0 <= i < |terms| && terms[i].category == category && !Overwritten(terms, i) ==>
              Lookup(Overlay(terms), category) == terms[i].amount
    ensures Lookup(Overlay(terms), category) == 0.0
         || exists i :: 0 <= i < |terms| && terms[i].category == category
                     && Lookup(Overlay(terms), category) == terms[i].amount
  {
    if terms != [] {
      var n := |terms| - 1;
      var init := terms[..n];
      LastAssigned(init, category);
      PutChangesTotal(Overlay(init), terms[n]);
      hide Lookup, Overlay, Overwritten;
      OverlayNext(terms);
      if terms[n].category != category {
        forall i | 0 <= i < n && terms[i].category == category && !Overwritten(terms, i)
          ensures Lookup(Overlay(terms), category) == terms[i].amount
        {
          StaysLast(terms, i);
          assert init[i] == terms[i];
        }
        if Lookup(Overlay(terms), category) != 0.0 {
          var i :| 0 <= i < n && init[i].category == category && Lookup(Overlay(terms), category) == init[i].amount;
          assert terms[i] == init[i];
        }
      } else {
        assert forall i :: 0 <= i < n && terms[i].category == category ==> Overwritten(terms, i) by {
          SameCategoryLater(terms, category);
        }
      }
    } else {
      assert Lookup(Overlay(terms), category) == 0.0;
    }
  }

  lemma OverlayNext(terms: seq<Term>)
    requires terms != []
    ensures Overlay(terms) == Put(Overlay(terms[..|terms| - 1]), terms[|terms| - 1])
  {
    hide Put;
  }

  lemma StaysLast(terms: seq<Term>, i: nat)
    requires i + 1 < |terms| && !Overwritten(terms, i)
    ensures !Overwritten(terms[..|terms| - 1], i)
  {
    var init := terms[..|terms| - 1];
    assert forall j :: i < j < |init| ==> init[j] == terms[j];
  }

  lemma SameCategoryLater(terms: seq<Term>, category: string)
    requires terms != [] && terms[|terms| - 1].category == category
    ensures forall i :: 0 <= i < |terms| - 1 && terms[i].category == category ==> Overwritten(terms, i)
  {
    var n := |terms| - 1;
    assert terms[n].category == category;
  }

  ghost predicate OnlyZerosOverwritten(terms: seq<Term>) {
    forall i :: 0 <= i < |terms| && Overwritten(terms, i) ==> terms[i].amount == 0.0
  }

  /** Appending a term overwrites, beyond what was overwritten, the amount stored for its category. */
  lemma AppendOverwrites(init: seq<Term>, t: Term)
    requires forall i :: 0 <= i < |init| ==> 0.0 <= init[i].amount
    ensures 0.0 <= Lookup(Overlay(init), t.category)
    ensures OnlyZerosOverwritten(init + [t])
       <==> OnlyZerosOverwritten(init) && Lookup(Overlay(init), t.category) == 0.0
  {
    var terms := init + [t];
    var lost := Lookup(Overlay(init), t.category);
    LastAssigned(init, t.category);
    AppendedOverwritten(init, t);
    hide Lookup, Overlay, Overwritten;
    if lost != 0.0 {
      var i :| 0 <= i < |init| && init[i].category == t.category && lost == init[i].amount;
      assert terms[i] == init[i] && Overwritten(terms, i);
    }
    assert forall i :: 0 <= i < |init| ==> terms[i] == init[i];
    if OnlyZerosOverwritten(init) && lost == 0.0 {
      forall i | 0 <= i < |init| && Overwritten(terms, i) ensures terms[i].amount == 0.0 {
        if !Overwritten(init, i) {
          assert init[i].category == t.category;
        }
      }
    }
  }

  lemma AppendedOverwritten(init: seq<Term>, t: Term)
    ensures !Overwritten(init + [t], |init|)
    ensures forall i :: 0 <= i < |init| ==>
              (Overwritten(init + [t], i) <==> Overwritten(init, i) || init[i].category == t.category)
  {
    var terms := init + [t];
    assert terms[|init|] == t && forall j :: 0 <= j < |init| ==> terms[j] == init[j];
    forall i | 0 <= i < |init|
      ensures Overwritten(terms, i) <==> Overwritten(init, i) || init[i].category == t.category
    {
      if Overwritten(init, i) {
        var j :| i < j < |init| && init[j].category == init[i].category;
        assert terms[j].category == terms[i].category;
      }
      if Overwritten(terms, i) && init[i].category != t.category {
        var j :| i < j < |terms| && terms[j].category == terms[i].category;
        assert init[j].category == init[i].category;
      }
    }
  }

  /** What overwriting loses: nothing iff every overwritten amount is zero. */
  lemma {:induction false} OverwritingLoses(terms: seq<Term>)
    requires forall i :: 0 <= i < |terms| ==> 0.0 <= terms[i].amount
    ensures Total(Overlay(terms)) <= Total(terms)
    ensures Total(Overlay(terms)) == Total(terms) <==> OnlyZerosOverwritten(terms)
  {
    if terms != [] {
      var n := |terms| - 1;
      assert terms == terms[..n] + [terms[n]];
      OverwritingLoses(terms[..n]);
      PutChangesTotal(Overlay(terms[..n]), terms[n]);
      AppendOverwrites(terms[..n], terms[n]);
    }
  }

  function Ones(count: nat): (r: seq<real>)
    ensures |r| == count && forall i :: 0 <= i < count ==> r[i] == 1.0
  {
    seq(count, _ => 1.0)
  }

  /** Every assignment type holds count full scores. */
  function FullSheet(subgraders: seq<Weighted>, count: nat): GradeSheet {
    map w | w in subgraders :: w.grader.kind := Ones(count)
  }

  lemma FullScores(subgraders: seq<Weighted>, i: nat, count: nat)
    requires i < |subgraders|
    ensures subgraders[i].grader.Scores(FullSheet(subgraders, count)) == Ones(count)
    ensures NonNegative(FullSheet(subgraders, count))
  {
    assert subgraders[i] in subgraders;
  }

  function Enough(subgraders: seq<Weighted>): nat {
    if subgraders == [] then 1
    else
      var g := subgraders[|subgraders| - 1].grader;
      Max(Enough(subgraders[..|subgraders| - 1]), Max(g.minCount, g.dropCount + 1))
  }

  lemma {:induction false} EnoughIsEnough(subgraders: seq<Weighted>)
    ensures forall i :: 0 <= i < |subgraders| ==>
              subgraders[i].grader.minCount <= Enough(subgraders) && subgraders[i].grader.dropCount < Enough(subgraders)
    ensures Enough(subgraders) >= 1
  {
    if subgraders != [] {
      EnoughIsEnough(subgraders[..|subgraders| - 1]);
    }
  }

  lemma FullSectionIsPositive(g: AssignmentFormatGrader, count: nat, sheet: GradeSheet)
    requires g.Scores(sheet) == Ones(count)
    requires count >= 1 && g.minCount <= count && g.dropCount < count
    ensures g.Percent(sheet) > 0.0
  {
    assert g.Marks(sheet) == Ones(count);
    hide Average, StableSort, Sum, Ones;
    SortedEqual(Ones(count), 1.0);
    var k := count - Dropped(count, g.dropCount);
    var top := Percents(StableSort(Ones(count)))[..k];
    SumAtLeast(top, 1.0);
    TimesIsProduct(1.0, k);
    AverageIsPositive(Sum(top), count - g.dropCount);
  }

  lemma AverageIsPositive(sum: real, count: int)
    requires sum > 0.0
    ensures Average(sum, count) > 0.0
  {
  }

  ghost predicate NonNegative(sheet: GradeSheet) {
    forall k :: k in sheet ==> forall i :: 0 <= i < |sheet[k]| ==> 0.0 <= sheet[k][i]
  }

  lemma ContributionsNonNegative(subgraders: seq<Weighted>, sheet: GradeSheet)
    requires NonNegative(sheet) && forall i :: 0 <= i < |subgraders| ==> subgraders[i].weight >= 0.0
    ensures forall i :: 0 <= i < |subgraders| ==> 0.0 <= Weigh(subgraders[i], sheet).amount
  {
    forall i | 0 <= i < |subgraders| ensures 0.0 <= Weigh(subgraders[i], sheet).amount {
      var g := subgraders[i].grader;
      SectionNonNegative(g.Marks(sheet), g.dropCount);
      ScaleMonotone(0.0, g.Percent(sheet), subgraders[i].weight);
    }
  }

  ghost predicate AddsUp(subgraders: seq<Weighted>, sheet: GradeSheet) {
    Total(Overlay(Contributions(subgraders, sheet))) == CoursePercent(subgraders, sheet)
  }

  /** On one sheet: the breakdown adds up iff every overwritten contribution is zero. */
  lemma SheetAddsUp(subgraders: seq<Weighted>, sheet: GradeSheet)
    requires NonNegative(sheet) && forall i :: 0 <= i < |subgraders| ==> subgraders[i].weight >= 0.0
    ensures AddsUp(subgraders, sheet) <==> OnlyZerosOverwritten(Contributions(subgraders, sheet))
  {
    ContributionsNonNegative(subgraders, sheet);
    OverwritingLoses(Contributions(subgraders, sheet));
  }

  lemma NonZeroOverwrite(subgraders: seq<Weighted>, i: nat) returns (sheet: GradeSheet)
    requires i < |subgraders| && Overwritten(Weights(subgraders), i)
    requires subgraders[i].weight > 0.0
    ensures NonNegative(sheet) && !OnlyZerosOverwritten(Contributions(subgraders, sheet))
  {
    hide SectionPercent, Overlay, Total, FullSheet;
    sheet := FullSheet(subgraders, Enough(subgraders));
    var g := subgraders[i].grader;
    assert Weigh(subgraders[i], sheet).amount > 0.0 by {
      EnoughIsEnough(subgraders);
      FullScores(subgraders, i, Enough(subgraders));
      FullSectionIsPositive(g, Enough(subgraders), sheet);
      PositiveProduct(g.Percent(sheet), subgraders[i].weight);
    }
    FullScores(subgraders, i, Enough(subgraders));
    OverwrittenSame(subgraders, sheet);
  }

  /**
   The breakdown adds up to the grade on every sheet exactly when each category that occurs again
   later has weight zero; in particular when the categories are pairwise different.
   */
  lemma BreakdownAddsUp(subgraders: seq<Weighted>)
    requires forall i :: 0 <= i < |subgraders| ==> subgraders[i].weight >= 0.0
    ensures (forall sheet :: NonNegative(sheet) ==> AddsUp(subgraders, sheet))
       <==> OnlyZerosOverwritten(Weights(subgraders))
  {
    if OnlyZerosOverwritten(Weights(subgraders)) {
      forall sheet | NonNegative(sheet) ensures AddsUp(subgraders, sheet) {
        SheetAddsUp(subgraders, sheet);
        OverwrittenSame(subgraders, sheet);
      }
    } else {
      var i :| 0 <= i < |subgraders| && Overwritten(Weights(subgraders), i) && subgraders[i].weight != 0.0;
      var sheet := NonZeroOverwrite(subgraders, i);
      SheetAddsUp(subgraders, sheet);
    }
  }

  lemma PositiveProduct(x: real, y: real)
    requires x > 0.0 && y > 0.0
    ensures x * y > 0.0
  {
  }

  lemma OverwrittenSame(subgraders: seq<Weighted>, sheet: GradeSheet)
    ensures forall i :: 0 <= i < |subgraders| ==>
              (Overwritten(Weights(subgraders), i) <==> Overwritten(Contributions(subgraders, sheet), i))
    ensures forall i :: 0 <= i < |subgraders| && subgraders[i].weight == 0.0 ==>
              Contributions(subgraders, sheet)[i].amount == 0.0
  {
    var a, b := Weights(subgraders), Contributions(subgraders, sheet);
    assert forall i :: 0 <= i < |subgraders| ==> a[i].category == b[i].category;
    forall i | 0 <= i < |subgraders|
      ensures Overwritten(a, i) <==> Overwritten(b, i)
    {
      if Overwritten(a, i) {
        var j :| i < j < |a| && a[j].category == a[i].category;
        assert b[j].category == b[i].category;
      }
      if Overwritten(b, i) {
        var j :| i < j < |b| && b[j].category == b[i].category;
        assert a[j].category == a[i].category;
      }
    }
  }

  // ---- what the grade comes to ----

  lemma {:induction false} EqualTerms(a: seq<Term>, weights: seq<Term>, percent: real)
    requires |a| == |weights| && forall i :: 0 <= i < |a| ==> a[i].amount == percent * weights[i].amount
    ensures Total(a) == percent * Total(weights)
  {
    if a != [] {
      var n := |a| - 1;
      EqualTerms(a[..n], weights[..n], percent);
      assert percent * (Total(weights[..n]) + weights[n].amount)
          == percent * Total(weights[..n]) + percent * weights[n].amount;
    }
  }

  /** When every section has the same percentage the grade is that percentage of the sum of the weights. */
  lemma EqualSections(subgraders: seq<Weighted>, sheet: GradeSheet, percent: real)
    requires forall i :: 0 <= i < |subgraders| ==> subgraders[i].grader.Percent(sheet) == percent
    ensures CoursePercent(subgraders, sheet) == percent * SumOfWeights(subgraders)
  {
    hide SectionPercent, Weigh, Total;
    var terms, weights := Contributions(subgraders, sheet), Weights(subgraders);
    forall i | 0 <= i < |terms| ensures terms[i].amount == percent * weights[i].amount {
      WeighedAt(subgraders[i], sheet, percent);
    }
    EqualTerms(terms, weights, percent);
  }

  lemma WeighedAt(w: Weighted, sheet: GradeSheet, percent: real)
    requires w.grader.Percent(sheet) == percent
    ensures Weigh(w, sheet).amount == percent * w.weight
  {
  }

  lemma {:induction false} OnlyTerm(terms: seq<Term>, k: nat)
    requires k < |terms| && forall i :: 0 <= i < |terms| && i != k ==> terms[i].amount == 0.0
    ensures Total(terms) == terms[k].amount
  {
    var n := |terms| - 1;
    if k < n {
      OnlyTerm(terms[..n], k);
    } else {
      ZeroTerms(terms[..n]);
    }
  }

  lemma {:induction false} ZeroTerms(terms: seq<Term>)
    requires forall i :: 0 <= i < |terms| ==> terms[i].amount == 0.0
    ensures Total(terms) == 0.0
  {
    if terms != [] {
      ZeroTerms(terms[..|terms| - 1]);
    }
  }

  /** When one section alone has points the grade is its percentage times its own weight. */
  lemma OnlySection(subgraders: seq<Weighted>, sheet: GradeSheet, k: nat)
    requires k < |subgraders|
    requires forall i :: 0 <= i < |subgraders| && i != k ==> subgraders[i].grader.Percent(sheet) == 0.0
    ensures CoursePercent(subgraders, sheet) == subgraders[k].grader.Percent(sheet) * subgraders[k].weight
  {
    hide SectionPercent;
    var terms := Contributions(subgraders, sheet);
    forall i | 0 <= i < |terms| && i != k ensures terms[i].amount == 0.0 {
      assert subgraders[i].grader.Percent(sheet) == 0.0;
    }
    OnlyTerm(terms, k);
  }

  /** Every assignment of g's type is released and has a full score, and some is counted. */
  ghost predicate FullScore(g: AssignmentFormatGrader, sheet: GradeSheet) {
    && g.kind in sheet && 0 <= g.dropCount < |sheet[g.kind]| && g.minCount <= |sheet[g.kind]|
    && forall k :: 0 <= k < |sheet[g.kind]| ==> sheet[g.kind][k] == 1.0
  }

  lemma PerfectSection(g: AssignmentFormatGrader, sheet: GradeSheet)
    requires FullScore(g, sheet)
    ensures g.Percent(sheet) == 1.0
  {
    hide SectionPercent;
    assert g.Marks(sheet) == sheet[g.kind];
    EqualPercents(g.Marks(sheet), 1.0, g.dropCount);
  }

  /** Full scores in every assignment give the sum of the weights, whatever is dropped. */
  lemma PerfectCourse(subgraders: seq<Weighted>, sheet: GradeSheet)
    requires forall i :: 0 <= i < |subgraders| ==> FullScore(subgraders[i].grader, sheet)
    ensures CoursePercent(subgraders, sheet) == SumOfWeights(subgraders)
  {
    hide SectionPercent, FullScore, CoursePercent, SumOfWeights;
    forall i | 0 <= i < |subgraders| ensures subgraders[i].grader.Percent(sheet) == 1.0 {
      PerfectSection(subgraders[i].grader, sheet);
    }
    EqualSections(subgraders, sheet, 1.0);
  }

  function Categories(d: seq<Term>): (r: seq<string>)
    ensures |r| == |d| && forall i :: 0 <= i < |d| ==> r[i] == d[i].category
  {
    seq(|d|, i requires 0 <= i < |d| => d[i].category)
  }

  lemma CategoriesCons(t: Term, rest: seq<Term>)
    ensures Categories([t] + rest) == [t.category] + Categories(rest)
  {
  }

  /** Assigning keeps the order of the categories; a new one comes last. */
  lemma {:induction false} PutKeepsOrder(d: seq<Term>, t: Term)
    ensures Categories(Put(d, t)) == Categories(d) + if t.category in Categories(d) then [] else [t.category]
  {
    if d != [] {
      var first, rest := d[0], d[1..];
      assert d == [first] + rest;
      PutKeepsOrder(rest, t);
      CategoriesCons(first, rest);
      CategoriesCons(t, rest);
      CategoriesCons(first, Put(rest, t));
      hide Categories;
      Associate([first.category], Categories(rest), if t.category in Categories(rest) then [] else [t.category]);
    }
  }
}
