/**
 The search for the fewest tests that still reproduce an order-dependent failure.
 A test run is an oracle on lists of tests; the search also returns the runs it made.
 */
module Bisection {

  type Test = string
  type Oracle = seq<Test> -> bool

  datatype Search = Search(found: seq<Test>, runs: seq<seq<Test>>)

  /** Python's round(n / 2): halves go to the even neighbour. */
  function RoundHalf(n: nat): nat {
    if n % 2 == 0 then n / 2
    else if n / 2 % 2 == 0 then n / 2
    else n / 2 + 1
  }

  /** Rounding goes to the nearest whole number, and to the even one of two. */
  lemma RoundsToEven(n: nat)
    ensures -1 <= 2 * RoundHalf(n) - n <= 1
    ensures n % 2 == 1 ==> RoundHalf(n) % 2 == 0
  {
  }

  function Split(tests: seq<Test>): nat
    requires |tests| > 2
  {
    RoundHalf(|tests| - 1)
  }

  /** The first half of the earlier tests, followed by the failing test. */
  function GroupA(tests: seq<Test>): (r: seq<Test>)
    requires |tests| > 2
    ensures 2 <= |r| < |tests|
  {
    tests[..Split(tests)] + tests[|tests| - 1..]
  }

  function GroupB(tests: seq<Test>): (r: seq<Test>)
    requires |tests| > 2
    ensures 2 <= |r| < |tests|
  {
    tests[Split(tests)..]
  }

  /** An empty list of found tests stands for the source's (None, None). */
  function FindFewest(fails: Oracle, tests: seq<Test>): Search
    decreases |tests|
  {
    if |tests| <= 1 then Search([], [])
    else if !fails(tests) then Search([], [tests])
    else if |tests| == 2 then Search(tests, [tests])
    else
      var a := FindFewest(fails, GroupA(tests));
      if a.found != [] then Search(a.found, [tests] + a.runs)
      else
        var b := FindFewest(fails, GroupB(tests));
        Search(if b.found != [] then b.found else tests, [tests] + a.runs + b.runs)
  }

  // ---- the result ----

  /** part is a contiguous block of the earlier tests, starting at index at, plus the last test. */
  ghost predicate IsBlock(part: seq<Test>, tests: seq<Test>, at: nat) {
    && 2 <= |part| && at + |part| <= |tests|
    && part == tests[at..at + |part| - 1] + [tests[|tests| - 1]]
  }

  ghost predicate Within(part: seq<Test>, tests: seq<Test>) { exists at: nat :: IsBlock(part, tests, at) }

  lemma WithinGroup(part: seq<Test>, tests: seq<Test>)
    requires |tests| > 2
    ensures Within(part, GroupA(tests)) || Within(part, GroupB(tests)) ==> Within(part, tests)
  {
    GroupsAreBlocks(tests);
    if Within(part, GroupA(tests)) {
      var i: nat :| IsBlock(part, GroupA(tests), i);
      BlockOfBlock(part, GroupA(tests), tests, i, 0);
    } else if Within(part, GroupB(tests)) {
      var i: nat :| IsBlock(part, GroupB(tests), i);
      BlockOfBlock(part, GroupB(tests), tests, i, Split(tests));
    }
  }

  lemma GroupsAreBlocks(tests: seq<Test>)
    requires |tests| > 2
    ensures IsBlock(GroupA(tests), tests, 0)
    ensures IsBlock(GroupB(tests), tests, Split(tests))
  {
    var b := GroupB(tests);
    assert b == b[..|b| - 1] + [b[|b| - 1]];
  }

  lemma BlockOfBlock(inner: seq<Test>, outer: seq<Test>, tests: seq<Test>, i: nat, j: nat)
    requires IsBlock(inner, outer, i) && IsBlock(outer, tests, j)
    ensures IsBlock(inner, tests, i + j)
  {
    assert forall k :: 0 <= k < |outer| - 1 ==> outer[k] == tests[j + k];
    assert outer[i..i + |inner| - 1] == tests[i + j..i + j + |inner| - 1];
  }

  /** A list is found iff there are two tests and they fail together. */
  lemma FoundIffFails(fails: Oracle, tests: seq<Test>)
    ensures FindFewest(fails, tests).found != [] <==> |tests| >= 2 && fails(tests)
  {
  }

  /** The found list fails, is a block of the input, and so is every list that was run. */
  lemma {:induction false} FoundIsFailingBlock(fails: Oracle, tests: seq<Test>)
    ensures var s := FindFewest(fails, tests);
            && (s.found != [] ==> fails(s.found) && Within(s.found, tests) && s.found in s.runs)
            && (|tests| >= 2 ==> |s.runs| >= 1 && s.runs[0] == tests)
            && forall run :: run in s.runs ==> Within(run, tests)
    decreases |tests|
  {
    if |tests| >= 2 {
      assert IsBlock(tests, tests, 0);
    }
    if |tests| > 2 && fails(tests) {
      var sa, sb := FindFewest(fails, GroupA(tests)), FindFewest(fails, GroupB(tests));
      FoundIsFailingBlock(fails, GroupA(tests));
      FoundIsFailingBlock(fails, GroupB(tests));
      WithinGroup(sa.found, tests);
      WithinGroup(sb.found, tests);
      forall run | run in sa.runs || run in sb.runs ensures Within(run, tests) {
        WithinGroup(run, tests);
      }
    }
  }

  /** The found list cannot be halved further: neither of its groups fails. */
  ghost predicate CannotBeHalved(fails: Oracle, part: seq<Test>) {
    |part| == 2 || (|part| > 2 && !fails(GroupA(part)) && !fails(GroupB(part)))
  }

  lemma {:induction false} FoundCannotBeHalved(fails: Oracle, tests: seq<Test>)
    ensures var found := FindFewest(fails, tests).found;
            found != [] ==> CannotBeHalved(fails, found)
    decreases |tests|
  {
    if |tests| > 2 && fails(tests) {
      FoundIffFails(fails, GroupA(tests));
      FoundIffFails(fails, GroupB(tests));
      FoundCannotBeHalved(fails, GroupA(tests));
      FoundCannotBeHalved(fails, GroupB(tests));
    }
  }

  // ---- the number of runs ----

  function CeilLog2(n: nat): nat {
    if n <= 1 then 0 else 1 + CeilLog2((n + 1) / 2)
  }

  ghost function Pow2(n: nat): nat { if n == 0 then 1 else 2 * Pow2(n - 1) }

  /** CeilLog2(n) is the least exponent whose power of two reaches n. */
  lemma {:induction false} CeilLog2IsLeast(n: nat)
    requires n >= 1
    ensures n <= Pow2(CeilLog2(n))
    ensures n > 1 ==> Pow2(CeilLog2(n) - 1) < n
  {
    if n > 1 {
      CeilLog2IsLeast((n + 1) / 2);
      if n > 2 {
        assert Pow2(CeilLog2(n) - 1) == 2 * Pow2(CeilLog2((n + 1) / 2) - 1);
      }
    }
  }

  lemma {:induction false} CeilLog2Monotone(m: nat, n: nat)
    requires m <= n
    ensures CeilLog2(m) <= CeilLog2(n)
    decreases n
  {
    if m > 1 {
      CeilLog2Monotone((m + 1) / 2, (n + 1) / 2);
    }
  }

  /** Logarithmically many runs: one, and at most two for every halving. */
  lemma {:induction false} RunsAreLogarithmic(fails: Oracle, tests: seq<Test>)
    ensures var runs := |FindFewest(fails, tests).runs|;
            if |tests| < 2 then runs == 0
            else if !fails(tests) then runs == 1
            else 1 <= runs <= 1 + 2 * CeilLog2(|tests| - 1)
    decreases |tests|
  {
    if |tests| > 2 && fails(tests) {
      var a, b := GroupA(tests), GroupB(tests);
      FoundIffFails(fails, a);
      RunsAreLogarithmic(fails, a);
      RunsAreLogarithmic(fails, b);
      HalvesShrink(tests);
    }
  }

  /** Either group has at most half of the earlier tests, rounded up. */
  lemma HalvesShrink(tests: seq<Test>)
    requires |tests| > 2
    ensures CeilLog2(|GroupA(tests)| - 1) + 1 <= CeilLog2(|tests| - 1)
    ensures CeilLog2(|GroupB(tests)| - 1) + 1 <= CeilLog2(|tests| - 1)
  {
    CeilLog2Monotone(|GroupA(tests)| - 1, |tests| / 2);
    CeilLog2Monotone(|GroupB(tests)| - 1, |tests| / 2);
  }

  // ---- when one earlier test is to blame ----

  /** Within tests, a block fails exactly when one of its earlier tests is a culprit. */
  ghost predicate BlamesCulprits(fails: Oracle, culprits: set<Test>, tests: seq<Test>) {
    forall part, at: nat :: IsBlock(part, tests, at) ==>
      (fails(part) <==> exists i :: 0 <= i < |part| - 1 && part[i] in culprits)
  }

  /** Then the search returns exactly the first culprit and the last test. */
  lemma {:induction false} FindsFirstCulprit(fails: Oracle, culprits: set<Test>, tests: seq<Test>, first: nat)
    requires BlamesCulprits(fails, culprits, tests)
    requires first + 1 < |tests| && tests[first] in culprits
    requires forall i :: 0 <= i < first ==> tests[i] !in culprits
    ensures FindFewest(fails, tests).found == [tests[first], tests[|tests| - 1]]
    decreases |tests|
  {
    WholeListBlames(fails, culprits, tests);
    if |tests| > 2 {
      var a, b, k := GroupA(tests), GroupB(tests), Split(tests);
      GroupElements(tests);
      hide *;
      BlameInGroups(fails, culprits, tests);
      WholeListBlames(fails, culprits, a);
      WholeListBlames(fails, culprits, b);
      FewestOfGroups(fails, tests);
      if first < k {
        FindsFirstCulprit(fails, culprits, a, first);
      } else {
        FindsFirstCulprit(fails, culprits, b, first - k);
      }
    }
  }

  /** Where the tests of the groups come from. */
  lemma GroupElements(tests: seq<Test>)
    requires |tests| > 2
    ensures var a, b, k := GroupA(tests), GroupB(tests), Split(tests);
            && |a| == k + 1 && |b| == |tests| - k && a[k] == b[|b| - 1] == tests[|tests| - 1]
            && (forall i :: 0 <= i < k ==> a[i] == tests[i])
            && (forall i :: 0 <= i < |b| ==> b[i] == tests[i + k])
  {
  }

  lemma WholeListBlames(fails: Oracle, culprits: set<Test>, tests: seq<Test>)
    requires BlamesCulprits(fails, culprits, tests) && |tests| >= 2
    ensures fails(tests) <==> exists i :: 0 <= i < |tests| - 1 && tests[i] in culprits
  {
    assert IsBlock(tests, tests, 0);
  }

  /** The result for a failing list in terms of its groups. */
  lemma FewestOfGroups(fails: Oracle, tests: seq<Test>)
    requires |tests| > 2 && fails(tests)
    ensures var a, b := GroupA(tests), GroupB(tests);
            && FindFewest(fails, tests).found
                 == if fails(a) then FindFewest(fails, a).found
                    else if fails(b) then FindFewest(fails, b).found else tests
  {
    FoundIffFails(fails, GroupA(tests));
    FoundIffFails(fails, GroupB(tests));
  }

  lemma BlameInGroups(fails: Oracle, culprits: set<Test>, tests: seq<Test>)
    requires |tests| > 2 && BlamesCulprits(fails, culprits, tests)
    ensures BlamesCulprits(fails, culprits, GroupA(tests)) && BlamesCulprits(fails, culprits, GroupB(tests))
  {
    GroupsAreBlocks(tests);
    hide IsBlock, GroupA, GroupB, Split;
    forall part, at: nat | IsBlock(part, GroupA(tests), at) ensures IsBlock(part, tests, at) {
      BlockOfBlock(part, GroupA(tests), tests, at, 0);
    }
    forall part, at: nat | IsBlock(part, GroupB(tests), at) ensures IsBlock(part, tests, at + Split(tests)) {
      BlockOfBlock(part, GroupB(tests), tests, at, Split(tests));
    }
  }

  // ---- the command ----

  datatype Diagnosis = NoTests | SingleTestFails | Found(tests: seq<Test>) | NothingFails

  function Diagnose(fails: Oracle, tests: seq<Test>): Diagnosis {
    if tests == [] then NoTests
    else if fails(tests[|tests| - 1..]) then SingleTestFails
    else
      var found := FindFewest(fails, tests).found;
      if found != [] then Found(found) else NothingFails
  }

  /** A reported list is a genuine order dependency: it fails, its last test alone does not. */
  lemma DiagnosisIsOrderDependent(fails: Oracle, tests: seq<Test>)
    ensures Diagnose(fails, tests).Found?
       <==> |tests| >= 2 && fails(tests) && !fails([tests[|tests| - 1]])
    ensures Diagnose(fails, tests).Found? ==>
              var r := Diagnose(fails, tests).tests;
              |r| >= 2 && fails(r) && !fails([r[|r| - 1]]) && CannotBeHalved(fails, r)
    ensures Diagnose(fails, tests).NoTests? <==> tests == []
    ensures Diagnose(fails, tests).SingleTestFails? <==> tests != [] && fails([tests[|tests| - 1]])
  {
    hide FindFewest, GroupA, GroupB, CannotBeHalved;
    FoundIffFails(fails, tests);
    FoundIsFailingBlock(fails, tests);
    FoundCannotBeHalved(fails, tests);
    if tests != [] {
      assert tests[|tests| - 1..] == [tests[|tests| - 1]];
    }
  }
}
