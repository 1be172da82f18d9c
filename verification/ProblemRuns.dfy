/**
 What holds of a problem block over every run of handler calls: block and lcp stay coupled,
 attempts count the graded submissions, closing is final, graded submissions are throttled
 and separated by resets, and an answer once visible stays visible.
 */
module ProblemRuns {
  import opened Options
  import opened Responses
  import opened ProblemState

  // ---- runs ----

  /** When an event begins and ends. */
  function Start(e: Event): Time { if e.Submit? then e.clock.checked else e.now }

  function End(e: Event): Time { if e.Submit? then e.clock.recorded else e.now }

  /** The state after the events. */
  ghost function Run(cfg: Settings, s: State, events: seq<Event>): State
    decreases events
  {
    if events == [] then s else Run(cfg, Step(cfg, s, events[0]), events[1..])
  }

  /** The clock does not run backwards, from time now on. */
  ghost predicate Timely(now: Time, events: seq<Event>)
    decreases events
  {
    events == [] || (now <= Start(events[0]) <= End(events[0]) && Timely(End(events[0]), events[1..]))
  }

  ghost function EndOfRun(now: Time, events: seq<Event>): Time
    decreases events
  {
    if events == [] then now else EndOfRun(End(events[0]), events[1..])
  }

  lemma {:induction false} RunSplits(cfg: Settings, s: State, first: seq<Event>, rest: seq<Event>)
    ensures Run(cfg, s, first + rest) == Run(cfg, Run(cfg, s, first), rest)
    decreases first
  {
    if first == [] {
      assert first + rest == rest;
    } else {
      assert (first + rest)[1..] == first[1..] + rest;
      RunSplits(cfg, Step(cfg, s, first[0]), first[1..], rest);
    }
  }

  /** The state before event i. */
  ghost function StateAt(cfg: Settings, s: State, events: seq<Event>, i: nat): State
    requires i <= |events|
  {
    Run(cfg, s, events[..i])
  }

  lemma NextState(cfg: Settings, s: State, events: seq<Event>, i: nat)
    requires i < |events|
    ensures StateAt(cfg, s, events, i + 1) == Step(cfg, StateAt(cfg, s, events, i), events[i])
  {
    hide Step;
    assert events[..i + 1] == events[..i] + [events[i]];
    RunSplits(cfg, s, events[..i], [events[i]]);
    RunOfOne(cfg, Run(cfg, s, events[..i]), events[i]);
  }

  lemma RunOfOne(cfg: Settings, s: State, e: Event)
    ensures Run(cfg, s, [e]) == Step(cfg, s, e)
  {
    hide Step;
    assert [e][1..] == [];
  }

  // ---- coupling ----

  /** Block and lcp agree on everything they share. */
  ghost predicate Agree(s: State) {
    && s.block.seed == Some(s.lcp.seed) && s.block.score.Some?
    && s.block.done == s.lcp.done && s.block.correctMap == s.lcp.correctMap
    && s.block.studentAnswers == s.lcp.studentAnswers && s.block.inputState == s.lcp.inputState
    && s.block.hasSavedAnswers == s.lcp.hasSavedAnswers
  }

  /**
   What holds in every reachable state: block and lcp agree, except that an lcp built from empty
   answers shows the initial display, and that a rejected submission makes the lcp forget saving.
   */
  ghost predicate Coupled(cfg: Settings, s: State) {
    && s.block.seed == Some(s.lcp.seed) && s.block.score.Some?
    && s.block.done == s.lcp.done
    && s.block.correctMap == s.lcp.correctMap
    && s.block.inputState == s.lcp.inputState
    && (s.lcp.hasSavedAnswers ==> s.block.hasSavedAnswers)
    && (s.block.studentAnswers == s.lcp.studentAnswers
        || (s.block.studentAnswers == map[] && s.lcp.studentAnswers == cfg.initialDisplay(s.lcp.seed)))
  }

  /**
   A block loaded from any persisted fields is coupled, and agrees with its lcp exactly when it
   has answers or the problem shows none initially.
   */
  lemma LoadCouples(cfg: Settings, b: Block, random: int)
    ensures var s := Load(cfg, b, random);
            && Coupled(cfg, s)
            && (Agree(s) <==> b.studentAnswers != map[] || cfg.initialDisplay(s.lcp.seed) == map[])
  {
  }

  // ---- every handler keeps block and lcp coupled ----

  /** Every handler keeps the coupling; one that writes back restores full agreement. */
  lemma StepCouples(cfg: Settings, s: State, e: Event)
    requires Coupled(cfg, s)
    ensures Coupled(cfg, Step(cfg, s, e))
    ensures WritesBack(cfg, s, e) ==> Agree(Step(cfg, s, e))
    ensures Agree(s) && !e.NewRequest? && !e.Submit? ==> Agree(Step(cfg, s, e))
  {
    if e.Submit? {
      hide Step, IsGraded;
      if WritesBack(cfg, s, e) {
        SubmitGrades(cfg, s, e);
      } else {
        SubmitRejects(cfg, s, e);
      }
    } else if e.NewRequest? {
      LoadCouples(cfg, Persisted(s.block), e.random);
    } else if WritesBack(cfg, s, e) {
      WriteBackAgrees(cfg, s, e);
    } else {
      OthersReject(cfg, s, e);
    }
  }

  lemma WriteBackAgrees(cfg: Settings, s: State, e: Event)
    requires Coupled(cfg, s) && WritesBack(cfg, s, e) && !e.Submit?
    ensures Agree(Step(cfg, s, e))
  {
    hide Closed, Parse, AnswerAvailable, ChooseSeed, AfterSubmit;
  }

  lemma {:induction false} RunCouples(cfg: Settings, s: State, events: seq<Event>)
    requires Coupled(cfg, s)
    ensures Coupled(cfg, Run(cfg, s, events))
    decreases events
  {
    if events != [] {
      StepCouples(cfg, s, events[0]);
      RunCouples(cfg, Step(cfg, s, events[0]), events[1..]);
    }
  }

  lemma StateCouples(cfg: Settings, s: State, events: seq<Event>, i: nat)
    requires Coupled(cfg, s) && i <= |events|
    ensures Coupled(cfg, StateAt(cfg, s, events, i))
  {
    RunCouples(cfg, s, events[..i]);
  }

  lemma RunOfTwo(cfg: Settings, s: State, e: Event, f: Event)
    ensures Run(cfg, s, [e, f]) == Step(cfg, Step(cfg, s, e), f)
  {
    hide Step;
    assert [e, f][1..] == [f] && [f][1..] == [];
    assert Run(cfg, s, [e, f]) == Run(cfg, Step(cfg, s, e), [f]);
  }

  // ---- the buttons keep their promise ----

  /** The submit button is enabled exactly when a submission is neither too late nor unreset. */
  lemma SubmitButtonHonest(cfg: Settings, s: State, form: Form, clock: Clock, grading: Option<CorrectMap>)
    requires Coupled(cfg, s) && Parse(form, cfg.decode).Some?
    ensures SubmitEnabled(cfg, s, clock.checked)
       <==> SubmitVerdict(cfg, s, form, clock, grading) !in {IsClosed, NeedsReset}
  {
  }

  /** A shown save button works, unless it was forced while a randomized problem waits for a reset. */
  lemma SaveButtonHonest(cfg: Settings, s: State, form: Form, now: Time)
    requires Coupled(cfg, s) && Parse(form, cfg.decode).Some? && SaveShown(cfg, s, now)
    ensures SaveAccepted(cfg, s, form, now)
       <==> !(cfg.forceSaveButton && s.block.done && cfg.rerandomize.Always?)
  {
  }

  /** A forced save button that is shown while no form can be saved. */
  lemma ForcedSaveButton() returns (cfg: Settings, s: State)
    ensures Coupled(cfg, s) && SaveShown(cfg, s, 0)
    ensures forall form :: !SaveAccepted(cfg, s, form, 0)
  {
    cfg := Settings(None, None, None, Always, ShowAlways, CorrectnessAlways, 0, None, 0, true, false, false, 0, true,
                    (cm: CorrectMap) => Score(0.0, 1.0), seed => map[], text => None);
    var b := Block(1, true, map[], map[], map[], false, Some(1), None, Some(Score(0.0, 1.0)));
    s := State(b, ProblemOf(cfg, b, 1));
  }

  /**
   A shown reset button works exactly when the problem is done and not a closed survey; and an
   accepted reset has its button shown, unless the seed stays and the button is off or needless.
   */
  lemma ResetButtonHonest(cfg: Settings, s: State, now: Time)
    requires Coupled(cfg, s)
    ensures ResetShown(cfg, s, now) ==>
              ResetAccepted(cfg, s, now) == (s.block.done && !(IsSurvey(cfg) && Closed(cfg, s.block.attempts, now)))
    ensures ResetAccepted(cfg, s, now) ==>
              ResetShown(cfg, s, now) == (cfg.rerandomize.Always? || cfg.rerandomize.OnReset?
                                          || (cfg.showResetButton && !IsCorrect(s.block)))
    ensures !s.block.done && !Closed(cfg, s.block.attempts, now) ==>
              ResetShown(cfg, s, now) == (cfg.showResetButton && !IsCorrect(s.block))
  {
  }

  // ---- attempts ----

  /** How many of the events are graded submissions. */
  ghost function GradedCount(cfg: Settings, s: State, events: seq<Event>): nat
    decreases events
  {
    if events == [] then 0
    else (if IsGraded(cfg, s, events[0]) then 1 else 0) + GradedCount(cfg, Step(cfg, s, events[0]), events[1..])
  }

  lemma StepAttempts(cfg: Settings, s: State, e: Event)
    ensures Step(cfg, s, e).block.attempts == s.block.attempts + (if IsGraded(cfg, s, e) then 1 else 0)
    ensures IsGraded(cfg, s, e) ==> !Closed(cfg, s.block.attempts, e.clock.checked)
  {
    if e.Submit? {
      hide Step, Closed;
      if WritesBack(cfg, s, e) {
        SubmitGrades(cfg, s, e);
      } else {
        SubmitRejects(cfg, s, e);
      }
      hide IsGraded;
      if IsGraded(cfg, s, e) {
        GradedInTime(cfg, s, e);
      }
    } else {
      hide Closed, Parse, AnswerAvailable, ChooseSeed, RescoreAccepted, SaveAccepted, ResetAccepted, AfterSubmit;
    }
  }

  /** Attempts count exactly the graded submissions and never pass the maximum. */
  lemma {:induction false} AttemptsCountGraded(cfg: Settings, s: State, events: seq<Event>)
    ensures var b := Run(cfg, s, events).block;
            && b.attempts == s.block.attempts + GradedCount(cfg, s, events)
            && (cfg.maxAttempts.Some? && s.block.attempts <= cfg.maxAttempts.value ==>
                  b.attempts <= cfg.maxAttempts.value)
    decreases events
  {
    if events != [] {
      StepAttempts(cfg, s, events[0]);
      AttemptsCountGraded(cfg, Step(cfg, s, events[0]), events[1..]);
    }
  }

  // ---- closing is final ----

  lemma StepWhenClosed(cfg: Settings, s: State, e: Event, now: Time)
    requires Coupled(cfg, s) && Closed(cfg, s.block.attempts, now) && now <= Start(e)
    ensures var b := Step(cfg, s, e).block;
            && b.attempts == s.block.attempts && b.done == s.block.done && b.seed == s.block.seed
            && (e.Submit? || e.Reset? ==> b == s.block)
            && (b.studentAnswers != s.block.studentAnswers ==>
                  b.studentAnswers == cfg.initialDisplay(s.lcp.seed) || (e.Save? && IsSurvey(cfg)))
  {
    assert Closed(cfg, s.block.attempts, Start(e));
    if e.Submit? {
      assert !WritesBack(cfg, s, e) by {
        hide Closed, Parse, QueuedTooRecently, SubmittedTooRecently;
      }
      hide Step;
      SubmitRejects(cfg, s, e);
    } else if e.Reset? {
      assert Step(cfg, s, e) == s;
    } else {
      OthersWhenClosed(cfg, s, e);
    }
  }

  lemma OthersWhenClosed(cfg: Settings, s: State, e: Event)
    requires Coupled(cfg, s) && Closed(cfg, s.block.attempts, Start(e)) && !e.Submit? && !e.Reset?
    ensures var b := Step(cfg, s, e).block;
            && b.attempts == s.block.attempts && b.done == s.block.done && b.seed == s.block.seed
            && (b.studentAnswers != s.block.studentAnswers ==>
                  b.studentAnswers == cfg.initialDisplay(s.lcp.seed) || (e.Save? && IsSurvey(cfg)))
  {
    hide Closed, Parse;
    if e.Save? || e.NewRequest? {
    } else {
      hide Step, WritesBack;
      if WritesBack(cfg, s, e) {
        OthersWrite(cfg, s, e);
      } else {
        OthersReject(cfg, s, e);
      }
    }
  }

  /** Once closed, a problem stays closed, and its attempts, done flag and seed never change again. */
  lemma {:induction false} ClosedIsFinal(cfg: Settings, s: State, events: seq<Event>, now: Time)
    requires Coupled(cfg, s) && Closed(cfg, s.block.attempts, now) && Timely(now, events)
    ensures var b := Run(cfg, s, events).block;
            && Closed(cfg, b.attempts, EndOfRun(now, events))
            && b.attempts == s.block.attempts && b.done == s.block.done && b.seed == s.block.seed
    decreases events
  {
    if events != [] {
      StepCouples(cfg, s, events[0]);
      StepWhenClosed(cfg, s, events[0], now);
      ClosedIsFinal(cfg, Step(cfg, s, events[0]), events[1..], End(events[0]));
    }
  }

  // ---- throttling ----

  /** A submission does not pretend, by an override, to happen in a later second than it is recorded. */
  ghost predicate Honest(e: Event) {
    e.Submit? ==> WholeSeconds(e.clock.current) <= WholeSeconds(e.clock.recorded)
  }

  ghost predicate Apart(first: Time, second: Time, wait: int) {
    WholeSeconds(second) - WholeSeconds(first) >= wait * SECOND
  }

  lemma WholeSecondsMonotone(a: Time, b: Time, n: int)
    ensures a + n * SECOND <= b ==> WholeSeconds(a) + n * SECOND <= WholeSeconds(b)
    ensures WholeSeconds(a) <= a && WholeSeconds(WholeSeconds(a)) == WholeSeconds(a)
  {
  }

  /** The block remembers the last graded submission: a reload keeps it to the second, all else exactly. */
  lemma StepLastSubmission(cfg: Settings, s: State, e: Event)
    ensures var last := Step(cfg, s, e).block.lastSubmission;
            if IsGraded(cfg, s, e) then last == Some(e.clock.recorded)
            else if s.block.lastSubmission.None? || !e.NewRequest? then last == s.block.lastSubmission
            else last.Some? && WholeSeconds(last.value) == WholeSeconds(s.block.lastSubmission.value)
  {
    if e.Submit? {
      hide Step;
      if WritesBack(cfg, s, e) {
        SubmitGrades(cfg, s, e);
      } else {
        SubmitRejects(cfg, s, e);
      }
    } else {
      hide Closed, Parse, AnswerAvailable, ChooseSeed, RescoreAccepted, SaveAccepted, ResetAccepted, AfterSubmit;
      if s.block.lastSubmission.Some? {
        WholeSecondsMonotone(s.block.lastSubmission.value, 0, 0);
      }
    }
  }

  /** From event i up to event j nothing is graded. */
  ghost predicate NoneGraded(cfg: Settings, s: State, events: seq<Event>, i: nat, j: nat)
    requires i <= j <= |events|
  {
    forall k :: i <= k < j ==> !IsGraded(cfg, StateAt(cfg, s, events, k), events[k])
  }

  ghost predicate NoReload(events: seq<Event>, i: nat, j: nat)
    requires i <= j <= |events|
  {
    forall k :: i <= k < j ==> !events[k].NewRequest?
  }

  /** While nothing is graded the time of the last graded submission is kept, to the second over reloads. */
  lemma {:induction false} LastSubmissionStays(cfg: Settings, s: State, events: seq<Event>, i: nat, j: nat)
    requires i <= j <= |events| && NoneGraded(cfg, s, events, i, j)
    requires StateAt(cfg, s, events, i).block.lastSubmission.Some?
    ensures var first := StateAt(cfg, s, events, i).block.lastSubmission;
            var last := StateAt(cfg, s, events, j).block.lastSubmission;
            && last.Some? && WholeSeconds(last.value) == WholeSeconds(first.value)
            && (NoReload(events, i, j) ==> last == first)
    decreases j - i
  {
    hide StateAt, Step, WholeSeconds, IsGraded;
    if i < j {
      LastSubmissionStays(cfg, s, events, i, j - 1);
      NextState(cfg, s, events, j - 1);
      StepLastSubmission(cfg, StateAt(cfg, s, events, j - 1), events[j - 1]);
    }
  }

  /** A graded submission keeps its distance from the last one the block remembers. */
  lemma GradedKeepsDistance(cfg: Settings, s: State, e: Event, wait: int)
    requires cfg.waitSeconds == Some(wait) && wait != 0
    requires IsGraded(cfg, s, e) && s.block.lastSubmission.Some?
    ensures e.clock.current - s.block.lastSubmission.value >= wait * SECOND
    ensures Honest(e) ==> Apart(s.block.lastSubmission.value, e.clock.recorded, wait)
  {
    assert e.Submit?;
    hide IsGraded, WholeSeconds;
    GradedInTime(cfg, s, e);
    WholeSecondsMonotone(s.block.lastSubmission.value, e.clock.current, wait);
  }

  /** The distance two graded submissions keep: exact in microseconds unless there is a reload between them. */
  ghost predicate Distance(first: Time, second: Time, exact: bool, wait: int) {
    && Apart(first, second, wait)
    && second - first > (wait - 1) * SECOND
    && (exact ==> second - first >= wait * SECOND)
  }

  lemma ApartInMicroseconds(first: Time, second: Time, wait: int)
    requires Apart(first, second, wait)
    ensures second - first > (wait - 1) * SECOND
  {
  }

  /** A graded submission keeps the distance from any last submission remembered before. */
  lemma DistanceFrom(cfg: Settings, s: State, events: seq<Event>, i: nat, j: nat, wait: int)
    requires cfg.waitSeconds == Some(wait) && wait != 0 && i <= j < |events| && Honest(events[j])
    requires StateAt(cfg, s, events, i).block.lastSubmission.Some? && NoneGraded(cfg, s, events, i, j)
    requires IsGraded(cfg, StateAt(cfg, s, events, j), events[j])
    ensures var clock := events[j].clock;
            Distance(StateAt(cfg, s, events, i).block.lastSubmission.value, clock.recorded,
                     NoReload(events, i, j) && clock.current <= clock.recorded, wait)
  {
    assert events[j].Submit?;
    hide StateAt, IsGraded, WholeSeconds, NoneGraded;
    var first := StateAt(cfg, s, events, i).block.lastSubmission.value;
    LastSubmissionStays(cfg, s, events, i, j);
    GradedKeepsDistance(cfg, StateAt(cfg, s, events, j), events[j], wait);
    ApartInMicroseconds(first, events[j].clock.recorded, wait);
  }

  /**
   Two consecutive graded submissions of a run are recorded at least the waiting time apart,
   whatever resets happen in between: in whole seconds always, in microseconds without a reload.
   */
  lemma GradedTimesApart(cfg: Settings, s: State, events: seq<Event>, i: nat, j: nat, wait: int)
    requires cfg.waitSeconds == Some(wait) && wait != 0 && i < j < |events| && Honest(events[j])
    requires IsGraded(cfg, StateAt(cfg, s, events, i), events[i]) && NoneGraded(cfg, s, events, i + 1, j)
    requires IsGraded(cfg, StateAt(cfg, s, events, j), events[j])
    ensures var clock := events[j].clock;
            Distance(events[i].clock.recorded, clock.recorded,
                     NoReload(events, i + 1, j) && clock.current <= clock.recorded, wait)
  {
    hide StateAt, Step, Distance, NoneGraded, NoReload, Honest;
    NextState(cfg, s, events, i);
    StepLastSubmission(cfg, StateAt(cfg, s, events, i), events[i]);
    DistanceFrom(cfg, s, events, i + 1, j, wait);
  }

  /** The first graded submission of a run waits for the last one before it. */
  lemma FirstGradedWaits(cfg: Settings, s: State, events: seq<Event>, j: nat, wait: int)
    requires cfg.waitSeconds == Some(wait) && wait != 0 && j < |events| && Honest(events[j])
    requires s.block.lastSubmission.Some? && NoneGraded(cfg, s, events, 0, j)
    requires IsGraded(cfg, StateAt(cfg, s, events, j), events[j])
    ensures var clock := events[j].clock;
            Distance(s.block.lastSubmission.value, clock.recorded,
                     NoReload(events, 0, j) && clock.current <= clock.recorded, wait)
  {
    assert events[..0] == [];
    assert StateAt(cfg, s, events, 0) == s;
    hide StateAt, Distance, NoneGraded, NoReload, Honest;
    DistanceFrom(cfg, s, events, 0, j, wait);
  }

  /** In every state that can be reached a submission at this time is graded only after the waiting time. */
  ghost predicate Throttled(cfg: Settings, clock: Clock, wait: int) {
    forall s, form, grading ::
      Coupled(cfg, s) && IsGraded(cfg, s, Submit(form, clock, grading)) && s.block.lastSubmission.Some? ==>
        Apart(s.block.lastSubmission.value, clock.recorded, wait)
  }

  /** With an overridden clock the waiting time is kept exactly when the override is not ahead. */
  lemma ThrottleNeedsHonestClock(cfg: Settings, form: Form, clock: Clock, wait: int)
    requires cfg.waitSeconds == Some(wait) && wait != 0
    requires Parse(form, cfg.decode).Some? && !Closed(cfg, 0, clock.checked)
    ensures Throttled(cfg, clock, wait) <==> WholeSeconds(clock.current) <= WholeSeconds(clock.recorded)
  {
    hide Parse, Closed, Step;
    if WholeSeconds(clock.current) <= WholeSeconds(clock.recorded) {
      forall s: State, f, g | IsGraded(cfg, s, Submit(f, clock, g)) && s.block.lastSubmission.Some?
        ensures Apart(s.block.lastSubmission.value, clock.recorded, wait)
      {
        WholeSecondsMonotone(s.block.lastSubmission.value, clock.current, wait);
      }
    } else {
      var last := clock.current - wait * SECOND;
      var b := Block(0, false, map[], map[], map[], false, Some(1), Some(last), Some(Score(0.0, 0.0)));
      var s := State(b, ProblemOf(cfg, b, 1));
      assert IsGraded(cfg, s, Submit(form, clock, Some(map[])));
      WholeSecondsMonotone(last, clock.current, wait);
      WholeSecondsMonotone(clock.current, last, -wait);
      assert !Apart(last, clock.recorded, wait);
    }
  }

  // ---- forced reset ----

  ghost predicate IsAcceptedReset(cfg: Settings, s: State, e: Event) { e.Reset? && ResetAccepted(cfg, s, e.now) }

  lemma StepDone(cfg: Settings, s: State, e: Event)
    requires Coupled(cfg, s)
    ensures IsGraded(cfg, s, e) ==> Step(cfg, s, e).block.done
    ensures s.block.done && !IsAcceptedReset(cfg, s, e) ==> Step(cfg, s, e).block.done
    ensures IsGraded(cfg, s, e) && cfg.rerandomize.Always? ==> !s.block.done
  {
    if e.Submit? {
      hide Step;
      if WritesBack(cfg, s, e) {
        SubmitGrades(cfg, s, e);
      } else {
        SubmitRejects(cfg, s, e);
      }
      hide IsGraded;
      if IsGraded(cfg, s, e) {
        GradedInTime(cfg, s, e);
      }
    } else {
      hide Closed, Parse, AnswerAvailable, ChooseSeed, RescoreAccepted, SaveAccepted, ResetAccepted, AfterSubmit;
    }
  }

  /** Without an accepted reset in between, done stays set. */
  lemma {:induction false} DoneStays(cfg: Settings, s: State, events: seq<Event>, i: nat, j: nat)
    requires Coupled(cfg, s) && i <= j <= |events| && StateAt(cfg, s, events, i).block.done
    requires forall k :: i <= k < j ==> !IsAcceptedReset(cfg, StateAt(cfg, s, events, k), events[k])
    ensures StateAt(cfg, s, events, j).block.done
    decreases j - i
  {
    hide StateAt, Step, IsGraded;
    if i < j {
      StateCouples(cfg, s, events, i);
      StepDone(cfg, StateAt(cfg, s, events, i), events[i]);
      NextState(cfg, s, events, i);
      DoneStays(cfg, s, events, i + 1, j);
    }
  }

  /** A fresh problem, on a new seed if one is drawn, with its score; attempts and throttle are kept. */
  ghost predicate StartsOver(cfg: Settings, s: State, t: State, random: int) {
    && Agree(t) && !t.block.done && t.block.correctMap == map[] && t.block.inputState == map[]
    && !t.block.hasSavedAnswers && t.block.studentAnswers == cfg.initialDisplay(t.lcp.seed)
    && t.block.score == Some(cfg.scoreOf(map[]))
    && t.block.attempts == s.block.attempts && t.block.lastSubmission == s.block.lastSubmission
    && (if cfg.rerandomize.Always? || cfg.rerandomize.OnReset?
        then 0 <= t.lcp.seed < 1000 && (random - t.lcp.seed) % 1000 == 0 else t.lcp.seed == s.lcp.seed)
  }

  lemma ResetStartsOver(cfg: Settings, s: State, e: Event)
    requires Coupled(cfg, s) && IsAcceptedReset(cfg, s, e)
    ensures StartsOver(cfg, s, Step(cfg, s, e), e.random)
  {
    hide Closed;
  }

  /**
   With "always" randomization a reset is accepted between any two graded submissions, and the
   learner starts over with it.
   */
  lemma ResetBetweenGraded(cfg: Settings, s: State, events: seq<Event>, i: nat, j: nat)
    requires Coupled(cfg, s) && cfg.rerandomize.Always? && i < j < |events|
    requires IsGraded(cfg, StateAt(cfg, s, events, i), events[i])
    requires IsGraded(cfg, StateAt(cfg, s, events, j), events[j])
    ensures exists k :: i < k < j && IsAcceptedReset(cfg, StateAt(cfg, s, events, k), events[k])
                        && StartsOver(cfg, StateAt(cfg, s, events, k), StateAt(cfg, s, events, k + 1), events[k].random)
  {
    hide StateAt, Step, IsGraded, StartsOver, ResetAccepted;
    StateCouples(cfg, s, events, i);
    StateCouples(cfg, s, events, j);
    StepDone(cfg, StateAt(cfg, s, events, i), events[i]);
    StepDone(cfg, StateAt(cfg, s, events, j), events[j]);
    NextState(cfg, s, events, i);
    if forall k :: i < k < j ==> !IsAcceptedReset(cfg, StateAt(cfg, s, events, k), events[k]) {
      DoneStays(cfg, s, events, i + 1, j);
    }
    var k :| i < k < j && IsAcceptedReset(cfg, StateAt(cfg, s, events, k), events[k]);
    StateCouples(cfg, s, events, k);
    NextState(cfg, s, events, k);
    ResetStartsOver(cfg, StateAt(cfg, s, events, k), events[k]);
  }

  // ---- visible answers ----

  /** The modes whose condition mentions whether the learner is correct now. */
  predicate DependsOnCorrectness(mode: ShowAnswer) {
    mode in {Answered, Finished, CorrectOrPastDue, AfterAllAttemptsOrCorrect}
  }

  lemma VisibleLater(cfg: Settings, b: Block, c: Block, now: Time, later: Time)
    requires AnswerAvailable(cfg, b, now) && now <= later && b.attempts <= c.attempts
    requires !DependsOnCorrectness(cfg.showAnswer)
    ensures AnswerAvailable(cfg, c, later)
  {
  }

  lemma {:induction false} TimelyEnd(now: Time, events: seq<Event>)
    requires Timely(now, events)
    ensures now <= EndOfRun(now, events)
    decreases events
  {
    if events != [] {
      TimelyEnd(End(events[0]), events[1..]);
    }
  }

  /** In the other modes an answer once available stays available in every run. */
  lemma VisibleStaysVisible(cfg: Settings, s: State, events: seq<Event>, now: Time)
    requires AnswerAvailable(cfg, s.block, now) && Timely(now, events)
    requires !DependsOnCorrectness(cfg.showAnswer)
    ensures AnswerAvailable(cfg, Run(cfg, s, events).block, EndOfRun(now, events))
  {
    AttemptsCountGraded(cfg, s, events);
    TimelyEnd(now, events);
    VisibleLater(cfg, s.block, Run(cfg, s, events).block, now, EndOfRun(now, events));
  }

  /** In the modes that depend on correctness a reset can hide an answer again. */
  lemma ResetCanHideAnswer(mode: ShowAnswer) returns (cfg: Settings, s: State, e: Event)
    requires DependsOnCorrectness(mode)
    ensures cfg.showAnswer == mode && Coupled(cfg, s)
    ensures Timely(0, [e]) && AnswerAvailable(cfg, s.block, 0)
    ensures !AnswerAvailable(cfg, Step(cfg, s, e).block, End(e))
  {
    cfg := Settings(None, None, None, OnReset, mode, CorrectnessAlways, 0, None, 0, false, false, false, 0, true,
                    (cm: CorrectMap) => Score(if cm == map[] then 0.0 else 1.0, 1.0), seed => map[], text => None);
    var solved := map["answer" := Response(1.0, None)];
    var b := Block(1, true, solved, map[], map[], false, Some(1), None, Some(Score(1.0, 1.0)));
    s := State(b, ProblemOf(cfg, b, 1));
    e := Reset(0, 7);
    assert "answer" in solved && [e][1..] == [];
  }
}
