/**
 The stored score, the published grade, and what "only if higher" protects when a problem is
 graded again.
 */
module Rescoring {
  import opened Options
  import opened Responses
  import opened ProblemState
  import opened ProblemRuns

  // ---- the stored score ----

  /** The stored score is the score of the stored correct map. */
  ghost predicate ScoreInStep(cfg: Settings, s: State) {
    s.block.score == Some(cfg.scoreOf(s.block.correctMap))
  }

  /**
   Every handler keeps the stored score in step with the correct map, except rescoring, which
   leaves the old score and so keeps it in step only when the score did not change.
   */
  lemma ScoreStaysInStep(cfg: Settings, s: State, e: Event)
    requires Coupled(cfg, s) && ScoreInStep(cfg, s)
    ensures ScoreInStep(cfg, Step(cfg, s, e))
       <==> !(e.Rescore? && RescoreAccepted(cfg, s, e.grading)
              && cfg.scoreOf(s.block.correctMap + e.grading.value) != cfg.scoreOf(s.block.correctMap))
    ensures e.Rescore? ==> Step(cfg, s, e).block.score == s.block.score
  {
    if e.Submit? {
      hide Step, IsGraded;
      if WritesBack(cfg, s, e) {
        SubmitGrades(cfg, s, e);
      } else {
        SubmitRejects(cfg, s, e);
      }
    } else {
      hide Closed, Parse, AnswerAvailable, ChooseSeed, RescoreAccepted, SaveAccepted, ResetAccepted, AfterSubmit;
    }
  }

  // ---- rescoring only if higher ----

  /** The second score is strictly higher than the first. */
  ghost predicate Higher(first: Score, second: Score) { HigherOrEqual(second, first) == Some(false) }

  /** What only_if_higher promises: the stored grading changes only with a score higher than the block's. */
  ghost predicate ChangesOnlyIfHigher(cfg: Settings, s: State, t: State) {
    t.block.correctMap != s.block.correctMap && s.block.score.Some? ==>
      Higher(s.block.score.value, cfg.scoreOf(t.block.correctMap))
  }

  predicate HasEntry(m: CorrectMap, k: string, r: Response) { k in m && m[k] == r }

  /**
   Rescoring does not look at the flag, so the promise is kept exactly when the rescoring is
   refused, grades every answer as before, or happens to score higher.
   */
  lemma OnlyIfHigherKept(cfg: Settings, s: State, now: Time, grading: Option<CorrectMap>)
    requires Coupled(cfg, s)
    ensures Step(cfg, s, Rescore(now, grading, true)) == Step(cfg, s, Rescore(now, grading, false))
    ensures ChangesOnlyIfHigher(cfg, s, Step(cfg, s, Rescore(now, grading, true)))
       <==> !RescoreAccepted(cfg, s, grading)
            || (forall k :: k in grading.value ==> HasEntry(s.block.correctMap, k, grading.value[k]))
            || Higher(s.block.score.value, cfg.scoreOf(s.block.correctMap + grading.value))
  {
    hide Higher;
    if RescoreAccepted(cfg, s, grading) {
      var was, merged := s.block.correctMap, s.block.correctMap + grading.value;
      assert Step(cfg, s, Rescore(now, grading, true)).block.correctMap == merged;
      if forall k :: k in grading.value ==> HasEntry(was, k, grading.value[k]) {
        assert merged == was;
      } else {
        var k :| k in grading.value && !HasEntry(was, k, grading.value[k]);
        assert k in merged && merged[k] == grading.value[k];
      }
    }
  }

  /** No grading beats the stored score, as when it is full. */
  ghost predicate IsFullScore(cfg: Settings, s: State) {
    s.block.score.Some? && forall cm :: !Higher(s.block.score.value, cfg.scoreOf(cm))
  }

  /** For a full score the promise is kept, whatever the grading, exactly when no rescoring is possible. */
  lemma OnlyIfHigherKeptForFullScore(cfg: Settings, s: State, now: Time)
    requires Coupled(cfg, s) && IsFullScore(cfg, s)
    ensures (forall grading :: ChangesOnlyIfHigher(cfg, s, Step(cfg, s, Rescore(now, grading, true))))
       <==> !(cfg.supportsRescoring && s.block.done)
  {
    if cfg.supportsRescoring && s.block.done {
      var was := s.block.correctMap;
      var r := Response(if "" in was && was[""].points == 0.0 then 1.0 else 0.0, None);
      var grading: Option<CorrectMap> := Some(map["" := r]);
      assert !HasEntry(was, "", r) && "" in grading.value;
      hide Step, ChangesOnlyIfHigher, Higher;
      OnlyIfHigherKept(cfg, s, now, grading);
      assert !ChangesOnlyIfHigher(cfg, s, Step(cfg, s, Rescore(now, grading, true)));
    } else {
      forall grading ensures ChangesOnlyIfHigher(cfg, s, Step(cfg, s, Rescore(now, grading, true))) {
        OnlyIfHigherKept(cfg, s, now, grading);
      }
    }
  }

  /** A rescoring "only if higher" that replaces a full score by none. */
  lemma OnlyIfHigherBroken() returns (cfg: Settings, s: State, e: Event)
    ensures Coupled(cfg, s) && ScoreInStep(cfg, s) && e.Rescore? && e.onlyIfHigher
    ensures s.block.score == Some(Score(1.0, 1.0))
    ensures cfg.scoreOf(Step(cfg, s, e).block.correctMap) == Score(0.0, 1.0)
    ensures !ChangesOnlyIfHigher(cfg, s, Step(cfg, s, e))
  {
    var right, wrong := Response(1.0, None), Response(0.0, None);
    cfg := Settings(None, None, None, NeverRandomize, ShowAlways, CorrectnessAlways, 0, None, 0, false, false, false, 0,
                    true, (cm: CorrectMap) => Score(if "answer" in cm then cm["answer"].points else 0.0, 1.0),
                    seed => map[], text => None);
    var b := Block(1, true, map["answer" := right], map[], map[], false, Some(1), None, Some(Score(1.0, 1.0)));
    s := State(b, ProblemOf(cfg, b, 1));
    e := Rescore(0, Some(map["answer" := wrong]), true);
    assert s.block.correctMap + e.grading.value == map["answer" := wrong];
  }

  /** The block's score after the receiver of the published grade is that of the new correct map, unless refused. */
  lemma ReceiverStoresScore(cfg: Settings, s: State, e: Event, recorded: Option<Score>)
    requires Coupled(cfg, s) && ScoreInStep(cfg, s) && e.Rescore? && RescoreAccepted(cfg, s, e.grading)
    ensures var p := Published(cfg.scoreOf(s.block.correctMap + e.grading.value), e.onlyIfHigher);
            && ScoreInStep(cfg, Notified(Step(cfg, s, e), recorded, p))
                 == (Records(recorded, p) || p.score == cfg.scoreOf(s.block.correctMap))
  {
    hide Records;
  }

  // ---- runs with the receiver of the grades ----

  /** The block's state together with the grade recorded outside of it. */
  datatype Book = Book(state: State, recorded: Option<Score>)

  /** The grade event a handler publishes. */
  ghost function PublishedBy(cfg: Settings, s: State, e: Event): Option<Published> {
    match e
    case Submit(_, _, _) => if IsGraded(cfg, s, e) then Some(PublishedPlain(cfg, s, e)) else None
    case Reset(now, _) => if ResetAccepted(cfg, s, now) then Some(PublishedPlain(cfg, s, e)) else None
    case UpdateScore(_, _) => Some(PublishedPlain(cfg, s, e))
    case Rescore(_, grading, onlyIfHigher) =>
      if RescoreAccepted(cfg, s, grading) then
        Some(Published(cfg.scoreOf(s.lcp.correctMap + grading.value), onlyIfHigher))
      else None
    case _ => None
  }

  /** publish_grade() without arguments: the score the handler has just set. */
  ghost function PublishedPlain(cfg: Settings, s: State, e: Event): Published {
    Published(cfg.scoreOf(Step(cfg, s, e).lcp.correctMap), false)
  }

  /** A handler, and the receiver of the grade it publishes. */
  ghost function BookStep(cfg: Settings, b: Book, e: Event): Book {
    var t, p := Step(cfg, b.state, e), PublishedBy(cfg, b.state, e);
    if p.None? then b.(state := t) else Book(Notified(t, b.recorded, p.value), Recorded(b.recorded, p.value))
  }

  /** A grade published without the flag is recorded, as the score the handler has stored. */
  lemma PlainGradeIsRecorded(cfg: Settings, b: Book, e: Event)
    requires Coupled(cfg, b.state)
    requires IsGraded(cfg, b.state, e) || IsAcceptedReset(cfg, b.state, e) || e.UpdateScore?
             || (e.Rescore? && RescoreAccepted(cfg, b.state, e.grading) && !e.onlyIfHigher)
    ensures var c := BookStep(cfg, b, e);
            c.recorded == c.state.block.score == Some(cfg.scoreOf(c.state.block.correctMap))
  {
    assert IsGraded(cfg, b.state, e) ==> e.Submit?;
    hide Step, IsGraded, RescoreAccepted;
    StepScores(cfg, b.state, e);
    PlainScores(cfg, b.state, e);
  }

  lemma PlainScores(cfg: Settings, s: State, e: Event)
    requires IsGraded(cfg, s, e) || IsAcceptedReset(cfg, s, e) || e.UpdateScore?
             || (e.Rescore? && RescoreAccepted(cfg, s, e.grading))
    ensures Scores(cfg, s, e)
  {
    hide SubmitVerdict, ResetAccepted, RescoreAccepted;
  }

  /** Before event n of a run. */
  ghost function BookAt(cfg: Settings, b: Book, events: seq<Event>, n: nat): Book
    requires n <= |events|
  {
    if n == 0 then b else BookStep(cfg, BookAt(cfg, b, events, n - 1), events[n - 1])
  }

  /** The handler changes the stored correct map or the stored score. */
  ghost predicate Scores(cfg: Settings, s: State, e: Event) {
    WritesBack(cfg, s, e) && !e.InputAjax? && !e.GetAnswer?
  }

  /** A rescoring is accepted, but its grade is not recorded, and differs from the stored score. */
  ghost predicate Refused(cfg: Settings, b: Book, e: Event) {
    && e.Rescore? && RescoreAccepted(cfg, b.state, e.grading)
    && var p := Published(cfg.scoreOf(b.state.lcp.correctMap + e.grading.value), e.onlyIfHigher);
       !Records(b.recorded, p) && b.state.block.score != Some(p.score)
  }

  /** The last event before n that scored was a refused rescoring. */
  ghost predicate Stale(cfg: Settings, b: Book, events: seq<Event>, n: nat)
    requires n <= |events|
  {
    exists k :: 0 <= k < n && Refused(cfg, BookAt(cfg, b, events, k), events[k]) && NoneScores(cfg, b, events, k + 1, n)
  }

  ghost predicate NoneScores(cfg: Settings, b: Book, events: seq<Event>, k: nat, n: nat)
    requires k <= n <= |events|
  {
    forall i :: k <= i < n ==> !Scores(cfg, BookAt(cfg, b, events, i).state, events[i])
  }

  lemma StaleNext(cfg: Settings, b: Book, events: seq<Event>, n: nat)
    requires n < |events|
    ensures var c := BookAt(cfg, b, events, n);
            && Stale(cfg, b, events, n + 1)
                 == (Refused(cfg, c, events[n]) || (Stale(cfg, b, events, n) && !Scores(cfg, c.state, events[n])))
  {
    hide BookAt, Refused, Scores;
    var c := BookAt(cfg, b, events, n);
    if Refused(cfg, c, events[n]) {
      assert NoneScores(cfg, b, events, n + 1, n + 1);
    }
    if Stale(cfg, b, events, n) && !Scores(cfg, c.state, events[n]) {
      var k :| 0 <= k < n && Refused(cfg, BookAt(cfg, b, events, k), events[k]) && NoneScores(cfg, b, events, k + 1, n);
      assert NoneScores(cfg, b, events, k + 1, n + 1);
    }
    if Stale(cfg, b, events, n + 1) {
      var k :| 0 <= k < n + 1 && Refused(cfg, BookAt(cfg, b, events, k), events[k])
               && NoneScores(cfg, b, events, k + 1, n + 1);
      assert k < n ==> NoneScores(cfg, b, events, k + 1, n);
    }
  }

  /** What scoring comes to: a rescoring is stale when refused, everything else is in step. */
  lemma BookStepScores(cfg: Settings, b: Book, e: Event)
    requires Coupled(cfg, b.state)
    ensures Coupled(cfg, BookStep(cfg, b, e).state)
    ensures ScoreInStep(cfg, BookStep(cfg, b, e).state)
         == if Scores(cfg, b.state, e) then !Refused(cfg, b, e) else ScoreInStep(cfg, b.state)
  {
    hide Step, WritesBack, Records, IsGraded;
    StepCouples(cfg, b.state, e);
    StepScores(cfg, b.state, e);
    RejectedPublishesNothing(cfg, b.state, e);
  }

  lemma RejectedPublishesNothing(cfg: Settings, s: State, e: Event)
    ensures PublishedBy(cfg, s, e).Some? ==> Scores(cfg, s, e)
    ensures e.Rescore? ==> Scores(cfg, s, e) == RescoreAccepted(cfg, s, e.grading)
  {
    hide SubmitVerdict, ResetAccepted, RescoreAccepted;
  }

  /** The stored map and score after a handler, before the receiver. */
  lemma StepScores(cfg: Settings, s: State, e: Event)
    requires Coupled(cfg, s)
    ensures var t := Step(cfg, s, e).block;
            && (!Scores(cfg, s, e) ==> t.correctMap == s.block.correctMap && t.score == s.block.score)
            && (Scores(cfg, s, e) && !e.Rescore? ==> t.score == Some(cfg.scoreOf(t.correctMap)))
            && (Scores(cfg, s, e) && e.Rescore? ==>
                  t.score == s.block.score && t.correctMap == s.lcp.correctMap + e.grading.value)
            && t.correctMap == Step(cfg, s, e).lcp.correctMap
  {
    if e.Submit? {
      hide Step, IsGraded;
      if WritesBack(cfg, s, e) {
        SubmitGrades(cfg, s, e);
      } else {
        SubmitRejects(cfg, s, e);
      }
    } else {
      hide Closed, Parse, AnswerAvailable, ChooseSeed, SaveAccepted, ResetAccepted, AfterSubmit;
    }
  }

  /**
   Over every run with the receiver the stored score is that of the stored correct map, except
   exactly while the last event that scored is a rescoring whose grade the receiver refused.
   */
  lemma {:induction false} ScoreOverRuns(cfg: Settings, b: Book, events: seq<Event>, n: nat)
    requires Coupled(cfg, b.state) && ScoreInStep(cfg, b.state) && n <= |events|
    ensures Coupled(cfg, BookAt(cfg, b, events, n).state)
    ensures ScoreInStep(cfg, BookAt(cfg, b, events, n).state) <==> !Stale(cfg, b, events, n)
  {
    hide BookAt, BookStep, Stale, Refused, Scores, ScoreInStep, Coupled;
    if n == 0 {
      StaleAtStart(cfg, b, events);
    } else {
      ScoreOverRuns(cfg, b, events, n - 1);
      BookNext(cfg, b, events, n - 1);
      BookStepScores(cfg, BookAt(cfg, b, events, n - 1), events[n - 1]);
      StaleNext(cfg, b, events, n - 1);
      RefusedScores(cfg, BookAt(cfg, b, events, n - 1), events[n - 1]);
    }
  }

  /** A run that ends stale: a rescoring "only if higher" scores lower than the grade recorded. */
  lemma ScoreCanBeStale() returns (cfg: Settings, b: Book, e: Event)
    ensures Coupled(cfg, b.state) && ScoreInStep(cfg, b.state) && b.recorded == b.state.block.score
    ensures Stale(cfg, b, [e], 1) && !ScoreInStep(cfg, BookAt(cfg, b, [e], 1).state)
  {
    var s;
    cfg, s, e := OnlyIfHigherBroken();
    b := Book(s, Some(Score(1.0, 1.0)));
    assert Refused(cfg, b, e);
    hide BookStep, Refused, Scores, ScoreInStep, Coupled;
    assert BookAt(cfg, b, [e], 0) == b && NoneScores(cfg, b, [e], 1, 1);
    ScoreOverRuns(cfg, b, [e], 1);
  }

  lemma StaleAtStart(cfg: Settings, b: Book, events: seq<Event>)
    ensures BookAt(cfg, b, events, 0) == b && !Stale(cfg, b, events, 0)
  {
  }

  lemma BookNext(cfg: Settings, b: Book, events: seq<Event>, n: nat)
    requires n < |events|
    ensures BookAt(cfg, b, events, n + 1) == BookStep(cfg, BookAt(cfg, b, events, n), events[n])
  {
    hide BookStep;
  }

  lemma RefusedScores(cfg: Settings, b: Book, e: Event)
    ensures Refused(cfg, b, e) ==> Scores(cfg, b.state, e)
  {
    hide RescoreAccepted, Records;
  }

  // ---- what the recorded grade is ----

  /** The recorded grade after the published ones, one after the other. */
  ghost function RecordedAfter(start: Score, published: seq<Published>): Score {
    if published == [] then start
    else
      var n := |published| - 1;
      Recorded(Some(RecordedAfter(start, published[..n])), published[n]).value
  }

  /**
   What only_if_higher does protect: the recorded grade becomes the highest of all; a recorded
   grade out of zero points stays for good.
   */
  lemma RecordedIsHighest(start: Score, published: seq<Published>)
    requires forall i :: 0 <= i < |published| ==> published[i].onlyIfHigher
    ensures var r := RecordedAfter(start, published);
            if start.possible == 0.0 then r == start
            else
              && r.possible != 0.0 && r.earned / r.possible >= start.earned / start.possible
              && (r == start || exists i :: 0 <= i < |published| && r == published[i].score)
              && (forall i :: 0 <= i < |published| && published[i].score.possible != 0.0 ==>
                    r.earned / r.possible >= published[i].score.earned / published[i].score.possible)
  {
    HighestIsRecorded(start, published);
  }

  lemma {:induction false} HighestIsRecorded(start: Score, published: seq<Published>)
    requires forall i :: 0 <= i < |published| ==> published[i].onlyIfHigher
    ensures var r := RecordedAfter(start, published);
            if start.possible == 0.0 then r == start
            else
              && r.possible != 0.0 && HigherOrEqual(start, r) == Some(true)
              && (r == start || exists i :: 0 <= i < |published| && r == published[i].score)
              && (forall i :: 0 <= i < |published| && published[i].score.possible != 0.0 ==>
                    HigherOrEqual(published[i].score, r) == Some(true))
  {
    if published != [] {
      var n := |published| - 1;
      HighestIsRecorded(start, published[..n]);
      if start.possible != 0.0 {
        var before, r := RecordedAfter(start, published[..n]), RecordedAfter(start, published);
        assert HigherOrEqual(before, r) == Some(true);
        hide HigherOrEqual, RecordedAfter;
        HigherTransitive(start, before, r);
        forall i | 0 <= i < |published| && published[i].score.possible != 0.0
          ensures HigherOrEqual(published[i].score, r) == Some(true)
        {
          if i < n {
            HigherTransitive(published[..n][i].score, before, r);
          } else {
            LastIsReached(start, published);
          }
        }
        if r == before && before != start {
          var i :| 0 <= i < n && before == published[..n][i].score;
          assert r == published[i].score;
        } else if r != before {
          assert r == published[n].score by {
            LastIsReached(start, published);
          }
        }
      }
    }
  }

  lemma LastIsReached(start: Score, published: seq<Published>)
    requires published != [] && published[|published| - 1].onlyIfHigher
    requires RecordedAfter(start, published[..|published| - 1]).possible != 0.0
    ensures var r, last := RecordedAfter(start, published), published[|published| - 1].score;
            && (r == RecordedAfter(start, published[..|published| - 1]) || r == last)
            && (last.possible != 0.0 ==> HigherOrEqual(last, r) == Some(true))
  {
  }

  lemma HigherTransitive(a: Score, b: Score, c: Score)
    requires HigherOrEqual(a, b) == Some(true) && HigherOrEqual(b, c) == Some(true)
    ensures HigherOrEqual(a, c) == Some(true)
  {
  }
}
