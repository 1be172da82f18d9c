/**
 What becomes of entered answers: the flag that says whether they were saved, over every run, and
 the answers themselves over a reload.
 */
module SavedAnswers {
  import opened Options
  import opened Responses
  import opened ProblemState
  import opened ProblemRuns

  // ---- the saved flag ----

  /** An accepted input of the learner: it decides whether there are saved answers. */
  ghost predicate Decides(cfg: Settings, s: State, e: Event) {
    (e.Submit? || e.Save? || e.Reset?) && WritesBack(cfg, s, e)
  }

  /** A write-back that is none. */
  ghost predicate Passes(cfg: Settings, s: State, e: Event) { WritesBack(cfg, s, e) && !Decides(cfg, s, e) }

  lemma StepFlags(cfg: Settings, s: State, e: Event)
    requires Coupled(cfg, s)
    ensures var t := Step(cfg, s, e);
            && t.block.hasSavedAnswers
                 == (if Decides(cfg, s, e) then e.Save?
                     else if Passes(cfg, s, e) then s.lcp.hasSavedAnswers else s.block.hasSavedAnswers)
            && t.lcp.hasSavedAnswers
                 == (if WritesBack(cfg, s, e) || e.NewRequest? then t.block.hasSavedAnswers
                     else !e.Submit? && s.lcp.hasSavedAnswers)
  {
    if e.Submit? {
      hide Step, IsGraded;
      if WritesBack(cfg, s, e) {
        SubmitGrades(cfg, s, e);
      } else {
        SubmitRejects(cfg, s, e);
      }
    } else if WritesBack(cfg, s, e) {
      OtherFlags(cfg, s, e);
    } else if !e.NewRequest? {
      OthersReject(cfg, s, e);
    }
  }

  lemma OtherFlags(cfg: Settings, s: State, e: Event)
    requires WritesBack(cfg, s, e) && !e.Submit?
    ensures Step(cfg, s, e).block.hasSavedAnswers == Step(cfg, s, e).lcp.hasSavedAnswers
         == if e.Reset? then false else if e.Save? then true else s.lcp.hasSavedAnswers
  {
    hide Closed, Parse, AnswerAvailable, ChooseSeed, AfterSubmit;
  }

  /**
   After a rejected submission the next event keeps a saved flag exactly when it is an accepted
   save, or does not write back at all; every other write-back loses it.
   */
  lemma RejectedSubmitForgetsSaving(cfg: Settings, s: State, e: Event, t: Event)
    requires Coupled(cfg, s) && e.Submit? && !WritesBack(cfg, s, e)
    ensures var s1 := Step(cfg, s, e);
            && Run(cfg, s, [e, t]).block.hasSavedAnswers
                 == if WritesBack(cfg, s1, t) then t.Save? else s.block.hasSavedAnswers
  {
    hide Step, WritesBack, Run;
    RunOfTwo(cfg, s, e, t);
    StepCouples(cfg, s, e);
    StepFlags(cfg, s, e);
    StepFlags(cfg, Step(cfg, s, e), t);
  }

  /** The last accepted input before event n was a save; at the start, the flag was set. */
  ghost predicate SavedLast(cfg: Settings, s: State, events: seq<Event>, n: nat)
    requires n <= |events|
  {
    if n == 0 then s.block.hasSavedAnswers
    else
      var u := StateAt(cfg, s, events, n - 1);
      if Decides(cfg, u, events[n - 1]) then events[n - 1].Save? else SavedLast(cfg, s, events, n - 1)
  }

  /** A submission was rejected before event n, and since then nothing was written back or reloaded. */
  ghost predicate Forgotten(cfg: Settings, s: State, events: seq<Event>, n: nat)
    requires n <= |events|
  {
    exists j :: 0 <= j < n && events[j].Submit? && Unsettled(cfg, s, events, j, n)
  }

  ghost predicate Unsettled(cfg: Settings, s: State, events: seq<Event>, j: nat, n: nat)
    requires j <= n <= |events|
  {
    forall i :: j <= i < n ==> !WritesBack(cfg, StateAt(cfg, s, events, i), events[i]) && !events[i].NewRequest?
  }

  /** A handler wrote the forgotten flag back before event n, and no input was accepted since. */
  ghost predicate Lost(cfg: Settings, s: State, events: seq<Event>, n: nat)
    requires n <= |events|
  {
    exists k :: 0 <= k < n && Passes(cfg, StateAt(cfg, s, events, k), events[k]) && Forgotten(cfg, s, events, k)
                && Undecided(cfg, s, events, k, n)
  }

  ghost predicate Undecided(cfg: Settings, s: State, events: seq<Event>, k: nat, n: nat)
    requires k <= n <= |events|
  {
    forall i :: k <= i < n ==> !Decides(cfg, StateAt(cfg, s, events, i), events[i])
  }

  lemma FlagsAtStart(cfg: Settings, s: State, events: seq<Event>)
    ensures StateAt(cfg, s, events, 0) == s && SavedLast(cfg, s, events, 0) == s.block.hasSavedAnswers
    ensures !Forgotten(cfg, s, events, 0) && !Lost(cfg, s, events, 0)
  {
    assert events[..0] == [];
  }

  lemma SavedNext(cfg: Settings, s: State, events: seq<Event>, n: nat)
    requires n < |events|
    ensures var u := StateAt(cfg, s, events, n);
            && SavedLast(cfg, s, events, n + 1)
                 == if Decides(cfg, u, events[n]) then events[n].Save? else SavedLast(cfg, s, events, n)
  {
    hide StateAt, Decides;
  }

  lemma ForgottenNext(cfg: Settings, s: State, events: seq<Event>, n: nat)
    requires n < |events|
    ensures Forgotten(cfg, s, events, n + 1)
       <==> !WritesBack(cfg, StateAt(cfg, s, events, n), events[n]) && !events[n].NewRequest?
            && (Forgotten(cfg, s, events, n) || events[n].Submit?)
  {
    hide StateAt, WritesBack;
    if Forgotten(cfg, s, events, n) && Unsettled(cfg, s, events, n, n + 1) {
      var j :| 0 <= j < n && events[j].Submit? && Unsettled(cfg, s, events, j, n);
      assert Unsettled(cfg, s, events, j, n + 1);
    }
    if events[n].Submit? && Unsettled(cfg, s, events, n, n + 1) {
      assert Forgotten(cfg, s, events, n + 1);
    }
    if Forgotten(cfg, s, events, n + 1) {
      var j :| 0 <= j < n + 1 && events[j].Submit? && Unsettled(cfg, s, events, j, n + 1);
      assert j < n ==> Unsettled(cfg, s, events, j, n);
    }
  }

  lemma LostNext(cfg: Settings, s: State, events: seq<Event>, n: nat)
    requires n < |events|
    ensures var u := StateAt(cfg, s, events, n);
            && Lost(cfg, s, events, n + 1)
                 == (!Decides(cfg, u, events[n])
                     && (Lost(cfg, s, events, n) || (Passes(cfg, u, events[n]) && Forgotten(cfg, s, events, n))))
  {
    hide StateAt, WritesBack, Forgotten, Decides;
    var u := StateAt(cfg, s, events, n);
    if Lost(cfg, s, events, n) && !Decides(cfg, u, events[n]) {
      var k :| 0 <= k < n && Passes(cfg, StateAt(cfg, s, events, k), events[k])
               && Forgotten(cfg, s, events, k) && Undecided(cfg, s, events, k, n);
      assert Undecided(cfg, s, events, k, n + 1);
    }
    if Passes(cfg, u, events[n]) && Forgotten(cfg, s, events, n) {
      assert Undecided(cfg, s, events, n, n + 1);
    }
    if Lost(cfg, s, events, n + 1) {
      var k :| 0 <= k < n + 1 && Passes(cfg, StateAt(cfg, s, events, k), events[k])
               && Forgotten(cfg, s, events, k) && Undecided(cfg, s, events, k, n + 1);
      assert k < n ==> Undecided(cfg, s, events, k, n);
    }
  }

  /**
   Over every run the stored flag tells whether the last accepted input was a save, except exactly
   when the flag was lost to a rejected submission; and the lcp agrees except while it is forgotten.
   */
  lemma {:induction false} SavedFlagOverRuns(cfg: Settings, s: State, events: seq<Event>, n: nat)
    requires Coupled(cfg, s) && s.lcp.hasSavedAnswers == s.block.hasSavedAnswers && n <= |events|
    ensures var t := StateAt(cfg, s, events, n);
            && (t.block.hasSavedAnswers <==> SavedLast(cfg, s, events, n) && !Lost(cfg, s, events, n))
            && (t.lcp.hasSavedAnswers <==> t.block.hasSavedAnswers && !Forgotten(cfg, s, events, n))
  {
    hide Step, WritesBack, Decides, Run, Forgotten, Lost, StateAt, Coupled, SavedLast;
    if n == 0 {
      FlagsAtStart(cfg, s, events);
    } else {
      var u := StateAt(cfg, s, events, n - 1);
      SavedFlagOverRuns(cfg, s, events, n - 1);
      StateCouples(cfg, s, events, n - 1);
      NextState(cfg, s, events, n - 1);
      StepFlags(cfg, u, events[n - 1]);
      SavedNext(cfg, s, events, n - 1);
      ForgottenNext(cfg, s, events, n - 1);
      LostNext(cfg, s, events, n - 1);
      DecidesWritesBack(cfg, u, events[n - 1]);
    }
  }

  /** A run that loses the flag: answers are saved, a malformed submission is rejected, an input writes back. */
  lemma SavedFlagCanBeLost() returns (cfg: Settings, s: State, events: seq<Event>)
    ensures Coupled(cfg, s) && s.lcp.hasSavedAnswers == s.block.hasSavedAnswers && Timely(0, events) && |events| == 3
    ensures SavedLast(cfg, s, events, 3) && Lost(cfg, s, events, 3)
    ensures !StateAt(cfg, s, events, 3).block.hasSavedAnswers
  {
    cfg := Settings(None, None, None, NeverRandomize, ShowAlways, CorrectnessAlways, 0, None, 0, false, false, false, 0,
                    true, (cm: CorrectMap) => Score(0.0, 1.0), seed => map[], text => None);
    var b := Block(0, false, map[], map[], map[], false, Some(1), None, Some(Score(0.0, 1.0)));
    s := State(b, ProblemOf(cfg, b, 1));
    var save, submit, input := Save([], 0), Submit([("input", "x")], Clock(0, 0, 0), None), InputAjax(0, map[]);
    events := [save, submit, input];
    assert [input][1..] == [] && Timely(0, [input]);
    assert [submit, input][1..] == [input] && Timely(0, [submit, input]);
    assert events[1..] == [submit, input] && Timely(0, events);
    FormsOfTheRun(cfg);
    var s0, s1, s2 := StateAt(cfg, s, events, 0), StateAt(cfg, s, events, 1), StateAt(cfg, s, events, 2);
    assert s0 == s by {
      assert events[..0] == [];
    }
    hide Run, StateAt, Parse, SavedLast, Forgotten, Lost, Coupled;
    assert Decides(cfg, s0, save) && !WritesBack(cfg, s1, submit) && Passes(cfg, s2, input);
    hide Step, WritesBack, Decides, Passes;
    SavedNext(cfg, s, events, 0);
    SavedNext(cfg, s, events, 1);
    SavedNext(cfg, s, events, 2);
    ForgottenNext(cfg, s, events, 1);
    LostNext(cfg, s, events, 2);
    DecidesWritesBack(cfg, s1, submit);
    PassesDoesNotDecide(cfg, s2, input);
    SavedFlagOverRuns(cfg, s, events, 3);
  }

  lemma FormsOfTheRun(cfg: Settings)
    ensures Parse([], cfg.decode).Some? && Parse([("input", "x")], cfg.decode).None?
  {
    var form := [("input", "x")];
    assert form[0].0 in Keys(form);
    var key := "input";
    assert forall i :: 0 <= i < |key| ==> key[i] != '_';
    NoUnderscore(key);
  }

  lemma {:induction false} NoUnderscore(key: string)
    requires forall i :: 0 <= i < |key| ==> key[i] != '_'
    ensures AfterUnderscore(key) == ""
  {
    if key != "" {
      NoUnderscore(key[1..]);
    }
  }

  lemma PassesDoesNotDecide(cfg: Settings, s: State, e: Event)
    ensures Passes(cfg, s, e) ==> !Decides(cfg, s, e)
  {
  }

  lemma DecidesWritesBack(cfg: Settings, s: State, e: Event)
    ensures Decides(cfg, s, e) ==> WritesBack(cfg, s, e)
    ensures e.NewRequest? ==> !WritesBack(cfg, s, e)
  {
  }

  // ---- reloading ----

  /**
   Storing a block that agrees with its lcp and loading it again gives the same lcp exactly when
   there are answers to store or the problem shows none initially.
   */
  lemma ReloadRoundTrip(cfg: Settings, s: State, now: Time, random: int)
    requires Agree(s)
    ensures Step(cfg, s, NewRequest(now, random)).block == Persisted(s.block)
    ensures Step(cfg, s, NewRequest(now, random)).lcp == s.lcp
       <==> s.block.studentAnswers != map[] || cfg.initialDisplay(s.lcp.seed) == map[]
  {
  }

  /**
   What the learner entered is stored and loaded again, whether saved, graded or failing to be
   graded; only a form without answers comes back as what the problem shows initially.
   */
  lemma EnteredAnswersSurvive(cfg: Settings, s: State, e: Event, now: Time, random: int)
    requires Coupled(cfg, s) && WritesBack(cfg, s, e) && (e.Submit? || e.Save?)
    ensures var t := Run(cfg, s, [e, NewRequest(now, random)]);
            && Parse(e.form, cfg.decode) == Some(t.block.studentAnswers)
            && (Agree(t) <==> t.block.studentAnswers != map[] || cfg.initialDisplay(s.lcp.seed) == map[])
            && (!Agree(t) ==> t.lcp.studentAnswers == cfg.initialDisplay(s.lcp.seed))
            && t.lcp.hasSavedAnswers == e.Save?
            && t.lcp.seed == s.lcp.seed && t.lcp.inputState == s.lcp.inputState
            && (if IsGraded(cfg, s, e) then t.lcp.done && Some(t.lcp.correctMap) == e.grading
                else t.lcp.done == s.lcp.done && t.lcp.correctMap == s.lcp.correctMap)
  {
    var s1 := Step(cfg, s, e);
    EnteredAnswersStored(cfg, s, e);
    hide Step, WritesBack, IsGraded, Run, Parse;
    StepCouples(cfg, s, e);
    RunOfTwo(cfg, s, e, NewRequest(now, random));
    ReloadRoundTrip(cfg, s1, now, random);
    Reloaded(cfg, s1, now, random);
  }

  lemma EnteredAnswersStored(cfg: Settings, s: State, e: Event)
    requires WritesBack(cfg, s, e) && (e.Submit? || e.Save?)
    ensures var t := Step(cfg, s, e).lcp;
            && Parse(e.form, cfg.decode) == Some(t.studentAnswers)
            && t.hasSavedAnswers == e.Save? && t.seed == s.lcp.seed && t.inputState == s.lcp.inputState
            && (if IsGraded(cfg, s, e) then t.done && Some(t.correctMap) == e.grading
                else t.done == s.lcp.done && t.correctMap == s.lcp.correctMap)
  {
    hide Closed, Parse, QueuedTooRecently, SubmittedTooRecently;
    if e.Submit? {
      SubmitGrades(cfg, s, e);
      GradedHasMap(cfg, s, e);
    }
  }

  lemma GradedHasMap(cfg: Settings, s: State, e: Event)
    ensures IsGraded(cfg, s, e) ==> e.grading.Some?
  {
    hide Closed, Parse, QueuedTooRecently, SubmittedTooRecently;
  }

  lemma Reloaded(cfg: Settings, s: State, now: Time, random: int)
    requires Agree(s)
    ensures Step(cfg, s, NewRequest(now, random)).lcp
         == s.lcp.(studentAnswers := if s.lcp.studentAnswers == map[] then cfg.initialDisplay(s.lcp.seed)
                                     else s.lcp.studentAnswers)
  {
  }
}
