/**
 When the handlers of a problem accept and what they show, said of the settings and the fields
 alone: submissions and their rejections, saves, answers in every mode, seeds and reloads.
 */
module ProblemRules {
  import opened Options
  import opened Responses
  import opened ProblemState
  import opened ProblemRuns

  // ---- what is accepted ----

  /** There are attempts left, and the due date with its grace period is not over. */
  ghost predicate Open(cfg: Settings, b: Block, now: Time) {
    && (cfg.maxAttempts.Some? ==> b.attempts < cfg.maxAttempts.value)
    && (cfg.due.Some? ==>
          now <= cfg.due.value + if cfg.gracePeriod.Some? then cfg.gracePeriod.value else 0)
  }

  /** No response waits in a queue for less than the queue's waiting time. */
  ghost predicate QueuesSettled(cfg: Settings, p: Problem, current: Time) {
    forall k :: k in p.correctMap && p.correctMap[k].queued.Some? ==>
      current - p.correctMap[k].queued.value >= cfg.queueWaitSeconds * 1_000_000
  }

  ghost predicate Waited(cfg: Settings, b: Block, current: Time) {
    b.lastSubmission.Some? && cfg.waitSeconds.Some? && cfg.waitSeconds.value != 0 ==>
      current - b.lastSubmission.value >= cfg.waitSeconds.value * 1_000_000
  }

  /**
   A submission is graded, or fails in grading, exactly when its form is well formed, the problem
   is open, no reset is due, no queue is pending and the learner has waited; otherwise the first
   of these that fails is the reason for the rejection.
   */
  lemma SubmissionAccepted(cfg: Settings, s: State, form: Form, clock: Clock, grading: Option<CorrectMap>)
    ensures var v := SubmitVerdict(cfg, s, form, clock, grading);
            var formed, open := Parse(form, cfg.decode).Some?, Open(cfg, s.block, clock.checked);
            var reset := s.block.done && cfg.rerandomize.Always?;
            var settled, waited := QueuesSettled(cfg, s.lcp, clock.current), Waited(cfg, s.block, clock.current);
            && (v.Malformed? <==> !formed)
            && (v.IsClosed? <==> formed && !open)
            && (v.NeedsReset? <==> formed && open && reset)
            && (v.QueueWait? <==> formed && open && !reset && !settled)
            && (v.TooSoon? <==> formed && open && !reset && settled && !waited)
            && (v.GradingFailed? <==> formed && open && !reset && settled && waited && grading.None?)
            && (v.Graded? <==> formed && open && !reset && settled && waited && grading.Some?)
  {
    hide Parse;
    OpenIsNotClosed(cfg, s.block, clock.checked);
    assert QueuesSettled(cfg, s.lcp, clock.current) <==> !QueuedTooRecently(cfg, s.lcp.correctMap, clock.current);
    hide Closed, Open, QueuesSettled, QueuedTooRecently;
  }

  lemma OpenIsNotClosed(cfg: Settings, b: Block, now: Time)
    ensures Open(cfg, b, now) <==> !Closed(cfg, b.attempts, now)
  {
  }

  /** Saving and resetting; a survey, with no attempts at all, can be saved at any time. */
  lemma OthersAccepted(cfg: Settings, s: State, form: Form, now: Time)
    ensures SaveAccepted(cfg, s, form, now)
       <==> && Parse(form, cfg.decode).Some? && (Open(cfg, s.block, now) || cfg.maxAttempts == Some(0))
            && !(s.block.done && cfg.rerandomize.Always?)
    ensures ResetAccepted(cfg, s, now) <==> Open(cfg, s.block, now) && s.lcp.done
  {
    hide Parse;
    OpenIsNotClosed(cfg, s.block, now);
  }

  /**
   After an accepted reset the problem can be submitted again at once, unless the learner has to
   wait: nothing else rejects a well-formed submission at the same clock reading.
   */
  lemma ResetReopens(cfg: Settings, s: State, e: Event, form: Form, clock: Clock, grading: Option<CorrectMap>)
    requires Coupled(cfg, s) && IsAcceptedReset(cfg, s, e) && clock.checked == e.now
    requires Parse(form, cfg.decode).Some?
    ensures SubmitVerdict(cfg, Step(cfg, s, e), form, clock, grading)
         == if !Waited(cfg, s.block, clock.current) then TooSoon else if grading.None? then GradingFailed else Graded
  {
    var t := Step(cfg, s, e);
    ResetStartsOver(cfg, s, e);
    SubmissionAccepted(cfg, t, form, clock, grading);
    hide Parse, Step;
    assert Open(cfg, t.block, clock.checked) by {
      OpenIsNotClosed(cfg, s.block, e.now);
      OpenIsNotClosed(cfg, t.block, e.now);
    }
  }

  // ---- what is shown ----

  ghost predicate Shown(cfg: Settings, b: Block, now: Time, mode: ShowAnswer) {
    AnswerAvailable(cfg.(showAnswer := mode), b, now)
  }

  /** Learners never see more than their correctness: withheld for good, or until the close date. */
  ghost predicate CorrectnessWithheld(cfg: Settings, now: Time) {
    || cfg.showCorrectness.CorrectnessNever?
    || (cfg.showCorrectness.CorrectnessPastDue? && cfg.due.Some?
        && now <= cfg.due.value + if cfg.gracePeriod.Some? then cfg.gracePeriod.value else 0)
  }

  lemma CorrectnessIsAvailable(cfg: Settings, now: Time, mode: ShowAnswer)
    requires !cfg.isStaff
    ensures CorrectnessAvailable(cfg.(showAnswer := mode), now) <==> !CorrectnessWithheld(cfg, now)
  {
  }

  /** When a learner sees the answer, for the modes that depend on one thing. */
  lemma SimpleModes(cfg: Settings, b: Block, now: Time)
    requires !cfg.isStaff && !CorrectnessWithheld(cfg, now)
    ensures Shown(cfg, b, now, ShowAlways) && !Shown(cfg, b, now, ShowNever) && !Shown(cfg, b, now, Unset)
    ensures Shown(cfg, b, now, Answered) <==> b.score.Some? && b.score.value.earned == b.score.value.possible
    ensures Shown(cfg, b, now, PastDue)
       <==> cfg.due.Some? && now > cfg.due.value + if cfg.gracePeriod.Some? then cfg.gracePeriod.value else 0
    ensures Shown(cfg, b, now, AttemptedNoPastDue) <==> b.attempts > 0
    ensures Shown(cfg, b, now, AfterAllAttempts) <==> cfg.maxAttempts.Some? && b.attempts >= cfg.maxAttempts.value
    ensures Shown(cfg, b, now, AfterAttempts)
       <==> b.attempts >= cfg.attemptsBeforeShow
            || (cfg.maxAttempts.Some? && cfg.maxAttempts.value != 0 && b.attempts >= cfg.maxAttempts.value)
  {
    hide CorrectnessAvailable, CorrectnessWithheld;
    forall mode ensures CorrectnessAvailable(cfg.(showAnswer := mode), now) {
      CorrectnessIsAvailable(cfg, now, mode);
    }
  }

  lemma ShownIn(cfg: Settings, b: Block, now: Time, mode: ShowAnswer)
    requires !cfg.isStaff && !CorrectnessWithheld(cfg, now)
    ensures Shown(cfg, b, now, mode)
         == match mode
            case Attempted => b.attempts > 0 || IsPastDue(cfg, now)
            case Answered => IsCorrect(b)
            case AfterClosed => UsedAllAttempts(cfg, b.attempts) || IsPastDue(cfg, now)
            case Finished => UsedAllAttempts(cfg, b.attempts) || IsPastDue(cfg, now) || IsCorrect(b)
            case CorrectOrPastDue => IsCorrect(b) || IsPastDue(cfg, now)
            case PastDue => IsPastDue(cfg, now)
            case AfterAllAttempts => UsedAllAttempts(cfg, b.attempts)
            case AfterAllAttemptsOrCorrect => UsedAllAttempts(cfg, b.attempts) || IsCorrect(b)
            case AttemptedNoPastDue => b.attempts > 0
            case _ => Shown(cfg, b, now, mode)
  {
    hide CorrectnessAvailable, CorrectnessWithheld, IsCorrect;
    CorrectnessIsAvailable(cfg, now, mode);
  }

  /** The other modes are combinations of the simple ones. */
  lemma CombinedModes(cfg: Settings, b: Block, now: Time)
    requires !cfg.isStaff && !CorrectnessWithheld(cfg, now)
    ensures Shown(cfg, b, now, Attempted)
       <==> Shown(cfg, b, now, AttemptedNoPastDue) || Shown(cfg, b, now, PastDue)
    ensures Shown(cfg, b, now, AfterClosed) <==> Shown(cfg, b, now, AfterAllAttempts) || Shown(cfg, b, now, PastDue)
    ensures Shown(cfg, b, now, Finished) <==> Shown(cfg, b, now, AfterClosed) || Shown(cfg, b, now, Answered)
    ensures Shown(cfg, b, now, CorrectOrPastDue) <==> Shown(cfg, b, now, Answered) || Shown(cfg, b, now, PastDue)
    ensures Shown(cfg, b, now, AfterAllAttemptsOrCorrect)
       <==> Shown(cfg, b, now, AfterAllAttempts) || Shown(cfg, b, now, Answered)
  {
    hide *;
    ShownIn(cfg, b, now, Attempted);
    ShownIn(cfg, b, now, AttemptedNoPastDue);
    ShownIn(cfg, b, now, PastDue);
    ShownIn(cfg, b, now, AfterClosed);
    ShownIn(cfg, b, now, AfterAllAttempts);
    ShownIn(cfg, b, now, Finished);
    ShownIn(cfg, b, now, Answered);
    ShownIn(cfg, b, now, CorrectOrPastDue);
    ShownIn(cfg, b, now, AfterAllAttemptsOrCorrect);
  }

  /** Staff see answers in every mode but none and never; learners nothing while correctness is withheld. */
  lemma AnswersForStaff(cfg: Settings, b: Block, now: Time)
    ensures cfg.isStaff ==>
              AnswerAvailable(cfg, b, now)
                == (!cfg.showCorrectness.CorrectnessNever? && !cfg.showAnswer.ShowNever? && !cfg.showAnswer.Unset?)
    ensures !cfg.isStaff && CorrectnessWithheld(cfg, now) ==> !AnswerAvailable(cfg, b, now)
  {
  }

  /** An accepted save has its button shown, unless it is needless, or forced in a closed survey. */
  lemma AcceptedSaveHasButton(cfg: Settings, s: State, form: Form, now: Time)
    requires Coupled(cfg, s) && SaveAccepted(cfg, s, form, now)
    ensures SaveShown(cfg, s, now)
         == if cfg.forceSaveButton then Open(cfg, s.block, now) else cfg.maxAttempts.Some? || cfg.rerandomize.Always?
  {
    OpenIsNotClosed(cfg, s.block, now);
  }

  // ---- seeds and reloads ----

  /**
   A seed is always below 1000.  Without randomization it is 1; per student it is one of 20 and
   the same whenever it is drawn; otherwise every seed below 1000 can be drawn.
   */
  lemma SeedsChosen(cfg: Settings, random: int)
    ensures 0 <= ChooseSeed(cfg, random) < 1000
    ensures cfg.rerandomize.NeverRandomize? ==> ChooseSeed(cfg, random) == 1
    ensures cfg.rerandomize.PerStudent? ==>
              && ChooseSeed(cfg, random) < 20 && (cfg.studentBin - ChooseSeed(cfg, random)) % 20 == 0
    ensures (cfg.rerandomize.Always? || cfg.rerandomize.OnReset?) && 0 <= random < 1000 ==>
              ChooseSeed(cfg, random) == random
  {
  }

  /** A request keeps what is persisted, and fills in a seed and a score only where there is none. */
  lemma LoadKeepsFields(cfg: Settings, b: Block, random: int)
    ensures var s := Load(cfg, b, random);
            && s.block == b.(seed := s.block.seed, score := s.block.score)
            && (b.seed.Some? ==> s.block.seed == b.seed)
            && (b.seed.None? ==> s.block.seed == Some(ChooseSeed(cfg, random)))
            && (b.score.Some? ==> s.block.score == b.score)
            && (b.score.None? ==> s.block.score == Some(cfg.scoreOf(b.correctMap)))
            && Some(s.lcp.seed) == s.block.seed && s.lcp.done == b.done && s.lcp.correctMap == b.correctMap
            && s.lcp.inputState == b.inputState && s.lcp.hasSavedAnswers == b.hasSavedAnswers
            && (b.studentAnswers != map[] ==> s.lcp.studentAnswers == b.studentAnswers)
            && (b.studentAnswers == map[] ==> s.lcp.studentAnswers == cfg.initialDisplay(s.lcp.seed))
  {
  }

  /** Storing cuts the time of the last submission to the whole second before it, and changes nothing else. */
  lemma StoringCutsTime(b: Block)
    ensures Persisted(b) == b.(lastSubmission := Persisted(b).lastSubmission)
    ensures Persisted(b).lastSubmission.Some? <==> b.lastSubmission.Some?
    ensures b.lastSubmission.Some? ==>
              var t, stored := b.lastSubmission.value, Persisted(b).lastSubmission.value;
              stored % 1_000_000 == 0 && stored <= t < stored + 1_000_000
  {
  }
}
