/**
 The state of a problem block as values: the fields the block persists, the state of the
 LoncapaProblem object it caches (which duplicates most of them), the settings, and what
 every handler does to both.  ProblemBlock.dfy holds the class whose methods are proved to
 do exactly this; ProblemRuns.dfy proves what holds over whole runs.
 */
module ProblemState {
  import opened Options
  import opened Responses

  /** Microseconds on the server clock. */
  type Time = int
  const SECOND: int := 1_000_000

  datatype Randomization = Always | OnReset | NeverRandomize | PerStudent

  datatype ShowAnswer = ShowAlways | Answered | Attempted | AfterClosed | Finished | CorrectOrPastDue
    | PastDue | ShowNever | AfterAttempts | AfterAllAttempts | AfterAllAttemptsOrCorrect
    | AttemptedNoPastDue | Unset

  datatype ShowCorrectness = CorrectnessAlways | CorrectnessPastDue | CorrectnessNever

  datatype Score = Score(earned: real, possible: real)

  /** One response: its points and, while it waits in an external queue, the time it was queued. */
  datatype Response = Response(points: real, queued: Option<Time>)

  type CorrectMap = map<string, Response>

  /** Settings, the learner, and the parts of LoncapaProblem that only depend on the problem text. */
  datatype Settings = Settings(
    maxAttempts: Option<int>, due: Option<Time>, gracePeriod: Option<int>,
    rerandomize: Randomization, showAnswer: ShowAnswer, showCorrectness: ShowCorrectness,
    attemptsBeforeShow: int, waitSeconds: Option<int>, queueWaitSeconds: int,
    forceSaveButton: bool, showResetButton: bool, isStaff: bool, studentBin: int,
    supportsRescoring: bool, scoreOf: CorrectMap -> Score, initialDisplay: int -> Answers,
    decode: Decoder)

  /** The state of a LoncapaProblem. */
  datatype Problem = Problem(
    done: bool, correctMap: CorrectMap, studentAnswers: Answers, inputState: map<string, string>,
    hasSavedAnswers: bool, seed: int)

  /** The persisted user state of the block. */
  datatype Block = Block(
    attempts: int, done: bool, correctMap: CorrectMap, studentAnswers: Answers,
    inputState: map<string, string>, hasSavedAnswers: bool, seed: Option<int>,
    lastSubmission: Option<Time>, score: Option<Score>)

  datatype State = State(block: Block, lcp: Problem)

  // ---- what the block answers about itself ----

  function CloseDate(cfg: Settings): Option<Time> {
    if cfg.gracePeriod.Some? && cfg.due.Some? then Some(cfg.due.value + cfg.gracePeriod.value) else cfg.due
  }

  predicate UsedAllAttempts(cfg: Settings, attempts: int) {
    cfg.maxAttempts.Some? && attempts >= cfg.maxAttempts.value
  }

  predicate IsPastDue(cfg: Settings, now: Time) {
    CloseDate(cfg).Some? && now > CloseDate(cfg).value
  }

  predicate Closed(cfg: Settings, attempts: int, now: Time) {
    UsedAllAttempts(cfg, attempts) || IsPastDue(cfg, now)
  }

  predicate IsCorrect(b: Block) { b.score.Some? && b.score.value.earned == b.score.value.possible }

  predicate IsSurvey(cfg: Settings) { cfg.maxAttempts == Some(0) }

  predicate SubmitEnabled(cfg: Settings, s: State, now: Time) {
    !Closed(cfg, s.block.attempts, now) && !(s.lcp.done && cfg.rerandomize.Always?)
  }

  predicate SaveShown(cfg: Settings, s: State, now: Time) {
    if cfg.forceSaveButton then !Closed(cfg, s.block.attempts, now)
    else if cfg.maxAttempts.None? && !cfg.rerandomize.Always? then false
    else
      !(Closed(cfg, s.block.attempts, now) && !IsSurvey(cfg)) && !(s.lcp.done && cfg.rerandomize.Always?)
  }

  predicate ResetShown(cfg: Settings, s: State, now: Time) {
    if Closed(cfg, s.block.attempts, now) && !IsSurvey(cfg) then false
    else if (cfg.rerandomize.Always? || cfg.rerandomize.OnReset?) && s.lcp.done then true
    else !IsCorrect(s.block) && cfg.showResetButton
  }

  predicate CorrectnessAvailable(cfg: Settings, now: Time) {
    match cfg.showCorrectness
    case CorrectnessNever => false
    case CorrectnessPastDue => cfg.isStaff || CloseDate(cfg).None? || CloseDate(cfg).value < now
    case CorrectnessAlways => true
  }

  function RequiredAttempts(cfg: Settings): int {
    if cfg.maxAttempts.Some? && cfg.maxAttempts.value != 0 && cfg.attemptsBeforeShow >= cfg.maxAttempts.value
    then cfg.maxAttempts.value else cfg.attemptsBeforeShow
  }

  predicate AnswerAvailable(cfg: Settings, b: Block, now: Time) {
    if !CorrectnessAvailable(cfg, now) || cfg.showAnswer.Unset? || cfg.showAnswer.ShowNever? then false
    else if cfg.isStaff then true
    else match cfg.showAnswer
      case Attempted => b.attempts > 0 || IsPastDue(cfg, now)
      case Answered => IsCorrect(b)
      case AfterClosed => Closed(cfg, b.attempts, now)
      case Finished => Closed(cfg, b.attempts, now) || IsCorrect(b)
      case CorrectOrPastDue => IsCorrect(b) || IsPastDue(cfg, now)
      case PastDue => IsPastDue(cfg, now)
      case AfterAttempts => b.attempts >= RequiredAttempts(cfg)
      case ShowAlways => true
      case AfterAllAttempts => UsedAllAttempts(cfg, b.attempts)
      case AfterAllAttemptsOrCorrect => UsedAllAttempts(cfg, b.attempts) || IsCorrect(b)
      case AttemptedNoPastDue => b.attempts > 0
      case _ => false
  }

  // ---- seeds, loading and copying ----

  const NUM_RANDOMIZATION_BINS: int := 20
  const MAX_RANDOMIZATION_BINS: int := 1000

  function ChooseSeed(cfg: Settings, random: int): int {
    match cfg.rerandomize
    case NeverRandomize => 1
    case PerStudent => cfg.studentBin % NUM_RANDOMIZATION_BINS
    case _ => random % MAX_RANDOMIZATION_BINS
  }

  function SeedOf(cfg: Settings, b: Block, random: int): int {
    if b.seed.Some? then b.seed.value else ChooseSeed(cfg, random)
  }

  /** LoncapaProblem(state=get_state_for_lcp()): empty answers show the initial display. */
  function ProblemOf(cfg: Settings, b: Block, seed: int): Problem {
    Problem(b.done, b.correctMap, if b.studentAnswers == map[] then cfg.initialDisplay(seed) else b.studentAnswers,
            b.inputState, b.hasSavedAnswers, seed)
  }

  /** LoncapaProblem(state=None) */
  function FreshProblem(cfg: Settings, seed: int): Problem {
    Problem(false, map[], cfg.initialDisplay(seed), map[], false, seed)
  }

  /** A stored date keeps whole seconds only. */
  function WholeSeconds(t: Time): Time { t / SECOND * SECOND }

  function Persisted(b: Block): Block {
    if b.lastSubmission.Some? then b.(lastSubmission := Some(WholeSeconds(b.lastSubmission.value))) else b
  }

  /** A new request: the block comes from the persisted fields and builds its lcp. */
  function Load(cfg: Settings, b: Block, random: int): State {
    var seed := SeedOf(cfg, b, random);
    var b1 := b.(seed := Some(seed));
    State(if b1.score.Some? then b1 else b1.(score := Some(cfg.scoreOf(b.correctMap))), ProblemOf(cfg, b1, seed))
  }

  /** set_state_from_lcp: everything but seed, attempts, score and times. */
  function Synced(b: Block, p: Problem): Block {
    b.(done := p.done, correctMap := p.correctMap, inputState := p.inputState,
       studentAnswers := p.studentAnswers, hasSavedAnswers := p.hasSavedAnswers)
  }

  function Stored(s: State): State { s.(block := Synced(s.block, s.lcp)) }

  function Scored(cfg: Settings, s: State): State {
    var t := Stored(s);
    t.(block := t.block.(score := Some(cfg.scoreOf(s.lcp.correctMap))))
  }

  // ---- submissions ----

  /** Whether a response was queued less than the queue's waiting time before the given time. */
  predicate QueuedTooRecently(cfg: Settings, cm: CorrectMap, current: Time) {
    exists k :: k in cm && cm[k].queued.Some? && current - cm[k].queued.value < cfg.queueWaitSeconds * SECOND
  }

  predicate SubmittedTooRecently(cfg: Settings, b: Block, current: Time) {
    && b.lastSubmission.Some? && cfg.waitSeconds.Some? && cfg.waitSeconds.value != 0
    && current - b.lastSubmission.value < cfg.waitSeconds.value * SECOND
  }

  /** The readings of the clock during a submission: current may be overridden by the caller. */
  datatype Clock = Clock(current: Time, checked: Time, recorded: Time)

  datatype Verdict = Malformed | IsClosed | NeedsReset | QueueWait | TooSoon | GradingFailed | Graded

  /** grading is the new correct map, None when grading the answers raises an error. */
  ghost function SubmitVerdict(cfg: Settings, s: State, form: Form, clock: Clock, grading: Option<CorrectMap>)
    : Verdict
  {
    if Parse(form, cfg.decode).None? then Malformed
    else if Closed(cfg, s.block.attempts, clock.checked) then IsClosed
    else if s.block.done && cfg.rerandomize.Always? then NeedsReset
    else if QueuedTooRecently(cfg, s.lcp.correctMap, clock.current) then QueueWait
    else if SubmittedTooRecently(cfg, s.block, clock.current) then TooSoon
    else if grading.None? then GradingFailed
    else Graded
  }

  ghost function AfterSubmit(cfg: Settings, s: State, form: Form, clock: Clock, grading: Option<CorrectMap>): State {
    var s1 := s.(lcp := s.lcp.(hasSavedAnswers := false));
    match SubmitVerdict(cfg, s, form, clock, grading)
    case GradingFailed => Scored(cfg, s1.(lcp := s1.lcp.(studentAnswers := Parse(form, cfg.decode).value)))
    case Graded =>
      var p := s1.lcp.(studentAnswers := Parse(form, cfg.decode).value, correctMap := grading.value, done := true);
      var s2 := Scored(cfg, State(s.block.(attempts := s.block.attempts + 1), p));
      s2.(block := s2.block.(lastSubmission := Some(clock.recorded)))
    case _ => s1
  }

  // ---- the other handlers ----

  ghost predicate SaveAccepted(cfg: Settings, s: State, form: Form, now: Time) {
    && Parse(form, cfg.decode).Some?
    && !(Closed(cfg, s.block.attempts, now) && !IsSurvey(cfg))
    && !(s.block.done && cfg.rerandomize.Always?)
  }

  predicate ResetAccepted(cfg: Settings, s: State, now: Time) {
    !Closed(cfg, s.block.attempts, now) && s.lcp.done
  }

  function SeedAfterReset(cfg: Settings, s: State, random: int): int {
    if cfg.rerandomize.Always? || cfg.rerandomize.OnReset? then ChooseSeed(cfg, random)
    else SeedOf(cfg, s.block, random)
  }

  /** A rescoring: None when evaluating the stored answers raises an error. */
  predicate RescoreAccepted(cfg: Settings, s: State, grading: Option<CorrectMap>) {
    cfg.supportsRescoring && s.block.done && grading.Some?
  }

  // ---- the published grade ----

  /** The grade event of a rescoring. */
  datatype Published = Published(score: Score, onlyIfHigher: bool)

  /** is_score_higher_or_equal: whether the second score is; None is the ZeroDivisionError. */
  function HigherOrEqual(first: Score, second: Score): Option<bool> {
    if first.possible == 0.0 || second.possible == 0.0 then None
    else Some(second.earned / second.possible >= first.earned / first.possible)
  }

  /** Whether the receiver of a grade event records it over the grade recorded so far. */
  predicate Records(recorded: Option<Score>, p: Published) {
    p.onlyIfHigher && recorded.Some? ==> HigherOrEqual(recorded.value, p.score) == Some(true)
  }

  function Recorded(recorded: Option<Score>, p: Published): Option<Score> {
    if Records(recorded, p) then Some(p.score) else recorded
  }

  /** The receiver sets the block's score together with the recorded grade. */
  function Notified(s: State, recorded: Option<Score>, p: Published): State {
    if Records(recorded, p) then s.(block := s.block.(score := Some(p.score))) else s
  }

  // ---- steps ----

  datatype Event =
    | Submit(form: Form, clock: Clock, grading: Option<CorrectMap>)
    | Save(form: Form, now: Time)
    | Reset(now: Time, random: int)
    | Rescore(now: Time, grading: Option<CorrectMap>, onlyIfHigher: bool)
    | UpdateScore(now: Time, delivered: CorrectMap)
    | InputAjax(now: Time, inputState: map<string, string>)
    | GetAnswer(now: Time)
    | NewRequest(now: Time, random: int)

  ghost function Step(cfg: Settings, s: State, e: Event): State {
    match e
    case Submit(form, clock, grading) => AfterSubmit(cfg, s, form, clock, grading)
    case Save(form, now) =>
      if !SaveAccepted(cfg, s, form, now) then s
      else Scored(cfg, s.(lcp := s.lcp.(studentAnswers := Parse(form, cfg.decode).value, hasSavedAnswers := true)))
    case Reset(now, random) =>
      if !ResetAccepted(cfg, s, now) then s
      else
        var seed := SeedAfterReset(cfg, s, random);
        Scored(cfg, State(s.block.(seed := Some(seed)), FreshProblem(cfg, seed)))
    case Rescore(now, grading, _) =>
      if !RescoreAccepted(cfg, s, grading) then s
      else Stored(s.(lcp := s.lcp.(correctMap := s.lcp.correctMap + grading.value)))
    case UpdateScore(now, delivered) => Scored(cfg, s.(lcp := s.lcp.(correctMap := delivered)))
    case InputAjax(now, inputState) => Stored(s.(lcp := s.lcp.(inputState := inputState)))
    case GetAnswer(now) => if AnswerAvailable(cfg, s.block, now) then Stored(s) else s
    case NewRequest(now, random) => Load(cfg, Persisted(s.block), random)
  }

  // ---- what a step writes ----

  /** The handler got past its checks and wrote the lcp's state back. */
  ghost predicate WritesBack(cfg: Settings, s: State, e: Event) {
    match e
    case Submit(form, clock, grading) => SubmitVerdict(cfg, s, form, clock, grading) in {Graded, GradingFailed}
    case Save(form, now) => SaveAccepted(cfg, s, form, now)
    case Reset(now, _) => ResetAccepted(cfg, s, now)
    case Rescore(_, grading, _) => RescoreAccepted(cfg, s, grading)
    case GetAnswer(now) => AnswerAvailable(cfg, s.block, now)
    case NewRequest(_, _) => false
    case _ => true
  }

  ghost predicate IsGraded(cfg: Settings, s: State, e: Event) {
    e.Submit? && SubmitVerdict(cfg, s, e.form, e.clock, e.grading).Graded?
  }

  /** The fields a submission writes that gets past the checks. */
  lemma SubmitGrades(cfg: Settings, s: State, e: Event)
    requires e.Submit? && WritesBack(cfg, s, e)
    ensures var graded, t := IsGraded(cfg, s, e), Step(cfg, s, e);
            && Parse(e.form, cfg.decode) == Some(t.lcp.studentAnswers)
            && t.lcp.done == (graded || s.lcp.done)
            && t.lcp.correctMap == (if graded then e.grading.value else s.lcp.correctMap)
            && t.lcp.inputState == s.lcp.inputState && !t.lcp.hasSavedAnswers && t.lcp.seed == s.lcp.seed
            && t.block == Synced(s.block, t.lcp).(
                 attempts := s.block.attempts + (if graded then 1 else 0),
                 score := Some(cfg.scoreOf(t.lcp.correctMap)),
                 lastSubmission := if graded then Some(e.clock.recorded) else s.block.lastSubmission)
  {
    hide Closed, Parse, QueuedTooRecently, SubmittedTooRecently;
  }

  /** A submission that does not only makes the lcp forget saving. */
  lemma SubmitRejects(cfg: Settings, s: State, e: Event)
    requires e.Submit? && !WritesBack(cfg, s, e)
    ensures Step(cfg, s, e) == s.(lcp := s.lcp.(hasSavedAnswers := false)) && !IsGraded(cfg, s, e)
  {
    hide Closed, Parse, QueuedTooRecently, SubmittedTooRecently;
  }

  /** A graded submission came in time and after any reset it needs. */
  lemma GradedInTime(cfg: Settings, s: State, e: Event)
    requires IsGraded(cfg, s, e)
    ensures WritesBack(cfg, s, e) && !Closed(cfg, s.block.attempts, e.clock.checked)
    ensures !(s.block.done && cfg.rerandomize.Always?) && !SubmittedTooRecently(cfg, s.block, e.clock.current)
  {
    hide Closed, Parse, QueuedTooRecently, SubmittedTooRecently, AfterSubmit;
  }

  /** A handler other than a submission that is refused does nothing. */
  lemma OthersReject(cfg: Settings, s: State, e: Event)
    requires !e.Submit? && !e.NewRequest? && !WritesBack(cfg, s, e)
    ensures Step(cfg, s, e) == s
  {
    hide Closed, Parse, AnswerAvailable, ResetAccepted, SaveAccepted, RescoreAccepted;
  }

  /** What the handlers write that neither enter answers nor start over. */
  lemma OthersWrite(cfg: Settings, s: State, e: Event)
    requires WritesBack(cfg, s, e) && !e.Submit? && !e.Save? && !e.Reset?
    ensures var t := Step(cfg, s, e);
            && t.lcp == s.lcp.(correctMap := t.lcp.correctMap, inputState := t.lcp.inputState)
            && t.block == Synced(s.block, t.lcp).(score := t.block.score)
  {
    hide Closed, Parse, AnswerAvailable, ChooseSeed, RescoreAccepted, AfterSubmit, ResetAccepted, SaveAccepted;
  }
}
