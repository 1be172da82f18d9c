/**
 The problem block as it runs: an object with the persisted fields and a cached LoncapaProblem
 object.  Every handler is proved to take the state as ProblemState.Step says.
 */
module ProblemBlocks {
  import opened Options
  import opened Responses
  import opened ProblemState

  class LoncapaProblem {
    var done: bool
    var correctMap: CorrectMap
    var studentAnswers: Answers
    var inputState: map<string, string>
    var hasSavedAnswers: bool
    const seed: int

    constructor (p: Problem)
      ensures View() == p
    {
      done, correctMap, studentAnswers := p.done, p.correctMap, p.studentAnswers;
      inputState, hasSavedAnswers, seed := p.inputState, p.hasSavedAnswers, p.seed;
    }

    function View(): Problem
      reads this
    {
      Problem(done, correctMap, studentAnswers, inputState, hasSavedAnswers, seed)
    }

    /** Stores the answers before grading them, so that they are kept when grading fails. */
    method GradeAnswers(answers: Answers, grading: Option<CorrectMap>) returns (ok: bool)
      modifies this
      ensures ok == grading.Some?
      ensures View() == old(View()).(studentAnswers := answers,
                correctMap := if ok then grading.value else old(correctMap))
    {
      studentAnswers := answers;
      ok := grading.Some?;
      if ok {
        correctMap := grading.value;
      }
    }
  }

  class ProblemBlock {
    const cfg: Settings
    var attempts: int
    var done: bool
    var correctMap: CorrectMap
    var studentAnswers: Answers
    var inputState: map<string, string>
    var hasSavedAnswers: bool
    var seed: Option<int>
    var lastSubmission: Option<Time>
    var score: Option<Score>
    var lcp: LoncapaProblem

    function Fields(): Block
      reads this
    {
      Block(attempts, done, correctMap, studentAnswers, inputState, hasSavedAnswers, seed, lastSubmission, score)
    }

    function View(): State
      reads this, lcp
    {
      State(Fields(), lcp.View())
    }

    /** A request: fields from the store, a seed if there is none, the lcp, a score if there is none. */
    constructor (cfg: Settings, b: Block, random: int)
      ensures this.cfg == cfg && View() == Load(cfg, b, random)
      ensures attempts == b.attempts && lastSubmission == b.lastSubmission && (b.score.Some? ==> score == b.score)
      ensures fresh(lcp)
    {
      this.cfg := cfg;
      attempts, done, correctMap, studentAnswers := b.attempts, b.done, b.correctMap, b.studentAnswers;
      inputState, hasSavedAnswers, lastSubmission := b.inputState, b.hasSavedAnswers, b.lastSubmission;
      var s := SeedOf(cfg, b, random);
      seed := Some(s);
      score := if b.score.Some? then b.score else Some(cfg.scoreOf(b.correctMap));
      lcp := new LoncapaProblem(ProblemOf(cfg, b, s));
    }

    /** set_state_from_lcp */
    method SetStateFromLcp()
      modifies this
      ensures View() == Stored(old(View())) && lcp == old(lcp)
      ensures done == lcp.done && correctMap == lcp.correctMap && inputState == lcp.inputState
      ensures studentAnswers == lcp.studentAnswers && hasSavedAnswers == lcp.hasSavedAnswers
    {
      done, correctMap, inputState := lcp.done, lcp.correctMap, lcp.inputState;
      studentAnswers, hasSavedAnswers := lcp.studentAnswers, lcp.hasSavedAnswers;
    }

    method SetStateAndScore()
      modifies this
      ensures View() == Scored(cfg, old(View())) && lcp == old(lcp)
    {
      SetStateFromLcp();
      score := Some(cfg.scoreOf(lcp.correctMap));
    }

    method SubmitProblem(form: Form, order: seq<string>, clock: Clock, grading: Option<CorrectMap>)
      returns (verdict: Verdict)
      requires Enumerates(order, form)
      modifies this, lcp
      ensures verdict == SubmitVerdict(cfg, old(View()), form, clock, grading)
      ensures View() == Step(cfg, old(View()), Submit(form, clock, grading)) && lcp == old(lcp)
      ensures verdict !in {Graded, GradingFailed} ==> Fields() == old(Fields())
      ensures verdict in {Graded, GradingFailed} ==>
                && Parse(form, cfg.decode) == Some(studentAnswers) && studentAnswers == lcp.studentAnswers
                && !hasSavedAnswers && score == Some(cfg.scoreOf(correctMap)) && correctMap == lcp.correctMap
      ensures verdict.Graded? ==>
                && attempts == old(attempts) + 1 && done && lcp.done && Some(correctMap) == grading
                && lastSubmission == Some(clock.recorded)
      ensures verdict.GradingFailed? ==>
                && attempts == old(attempts) && done == old(lcp.done) && correctMap == old(lcp.correctMap)
                && lastSubmission == old(lastSubmission)
    {
      ghost var s, e := View(), Submit(form, clock, grading);
      if WritesBack(cfg, s, e) {
        SubmitGrades(cfg, s, e);
      } else {
        SubmitRejects(cfg, s, e);
      }
      hide Closed, QueuedTooRecently, SubmittedTooRecently, Parse, Enumerates, Step;
      lcp.hasSavedAnswers := false;
      var answers := MakeDictOfResponses(form, cfg.decode, order);
      if answers.None? {
        return Malformed;
      }
      if Closed(cfg, attempts, clock.checked) {
        return IsClosed;
      }
      if done && cfg.rerandomize.Always? {
        return NeedsReset;
      }
      if QueuedTooRecently(cfg, lcp.correctMap, clock.current) {
        return QueueWait;
      }
      if SubmittedTooRecently(cfg, Fields(), clock.current) {
        return TooSoon;
      }
      var ok := lcp.GradeAnswers(answers.value, grading);
      if !ok {
        SetStateAndScore();
        return GradingFailed;
      }
      attempts := attempts + 1;
      lcp.done := true;
      SetStateAndScore();
      lastSubmission := Some(clock.recorded);
      verdict := Graded;
    }

    method SaveProblem(form: Form, order: seq<string>, now: Time) returns (ok: bool)
      requires Enumerates(order, form)
      modifies this, lcp
      ensures ok == SaveAccepted(cfg, old(View()), form, now)
      ensures View() == Step(cfg, old(View()), Save(form, now)) && lcp == old(lcp)
      ensures if ok then Parse(form, cfg.decode) == Some(studentAnswers) && hasSavedAnswers
              else View() == old(View())
      ensures attempts == old(attempts) && seed == old(seed) && lastSubmission == old(lastSubmission)
    {
      hide Closed, Parse, Enumerates;
      var answers := MakeDictOfResponses(form, cfg.decode, order);
      if answers.None? {
        return false;
      }
      if Closed(cfg, attempts, now) && cfg.maxAttempts != Some(0) {
        return false;
      }
      if done && cfg.rerandomize.Always? {
        return false;
      }
      lcp.studentAnswers := answers.value;
      lcp.hasSavedAnswers := true;
      SetStateAndScore();
      ok := true;
    }

    method ResetProblem(now: Time, random: int) returns (ok: bool)
      modifies this
      ensures ok == ResetAccepted(cfg, old(View()), now)
      ensures View() == Step(cfg, old(View()), Reset(now, random))
      ensures !ok ==> View() == old(View())
      ensures ok ==> !done && !lcp.done && correctMap == lcp.correctMap == map[]
      ensures ok ==> inputState == lcp.inputState == map[]
      ensures ok ==> !hasSavedAnswers && !lcp.hasSavedAnswers && seed == Some(lcp.seed)
      ensures ok ==> studentAnswers == lcp.studentAnswers == cfg.initialDisplay(lcp.seed)
      ensures attempts == old(attempts) && lastSubmission == old(lastSubmission)
      ensures lcp == old(lcp) || fresh(lcp)
    {
      if Closed(cfg, attempts, now) || !lcp.done {
        return false;
      }
      if cfg.rerandomize.Always? || cfg.rerandomize.OnReset? {
        seed := Some(ChooseSeed(cfg, random));
      }
      if seed.None? {
        seed := Some(ChooseSeed(cfg, random));
      }
      lcp := new LoncapaProblem(FreshProblem(cfg, seed.value));
      SetStateAndScore();
      ok := true;
    }

    /** The calculated score is published with the caller's flag, not stored. */
    method RescoreProblem(now: Time, grading: Option<CorrectMap>, onlyIfHigher: bool)
      returns (published: Option<Published>)
      modifies this, lcp
      ensures published.Some? <==> RescoreAccepted(cfg, old(View()), grading)
      ensures published.Some? ==>
                published == Some(Published(cfg.scoreOf(old(View()).lcp.correctMap + grading.value), onlyIfHigher))
      ensures View() == Step(cfg, old(View()), Rescore(now, grading, onlyIfHigher)) && lcp == old(lcp)
      ensures published.Some? ==> correctMap == lcp.correctMap == old(lcp.correctMap) + grading.value
      ensures score == old(score) && attempts == old(attempts)
    {
      if !cfg.supportsRescoring || !done || grading.None? {
        return None;
      }
      lcp.correctMap := lcp.correctMap + grading.value;
      published := Some(Published(cfg.scoreOf(lcp.correctMap), onlyIfHigher));
      SetStateFromLcp();
    }

    method DeliverScore(now: Time, delivered: CorrectMap)
      modifies this, lcp
      ensures View() == Step(cfg, old(View()), UpdateScore(now, delivered)) && lcp == old(lcp)
      ensures correctMap == lcp.correctMap == delivered && score == Some(cfg.scoreOf(delivered))
      ensures attempts == old(attempts) && done == old(lcp.done)
    {
      lcp.correctMap := delivered;
      SetStateAndScore();
    }

    method HandleInputAjax(now: Time, newState: map<string, string>)
      modifies this, lcp
      ensures View() == Step(cfg, old(View()), InputAjax(now, newState)) && lcp == old(lcp)
      ensures inputState == lcp.inputState == newState
      ensures lcp.View() == old(lcp.View()).(inputState := newState)
      ensures attempts == old(attempts) && score == old(score)
    {
      lcp.inputState := newState;
      SetStateFromLcp();
    }

    method ShowAnswers(now: Time) returns (ok: bool)
      modifies this
      ensures ok == AnswerAvailable(cfg, old(View()).block, now)
      ensures View() == Step(cfg, old(View()), GetAnswer(now)) && lcp == old(lcp)
      ensures lcp.View() == old(lcp.View()) && attempts == old(attempts) && score == old(score)
      ensures ok ==> studentAnswers == lcp.studentAnswers && hasSavedAnswers == lcp.hasSavedAnswers
    {
      ok := AnswerAvailable(cfg, Fields(), now);
      if ok {
        SetStateFromLcp();
      }
    }
  }
}
