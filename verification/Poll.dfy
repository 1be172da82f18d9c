/**
 A poll: one vote count per answer, shared by all learners, and for every learner whether and
 what they voted.  Requests of any number of learners are interleaved, each one atomic.
 */
module Poll {
  import opened Collections

  type User = string
  type Answer = string

  /** The fields of one learner. */
  datatype Vote = Vote(voted: bool, answer: Answer)

  /** The replies of handle_ajax. */
  datatype Reply =
    | Counted(counts: map<Answer, int>, total: int)
    | Current(answer: Answer, counts: map<Answer, int>, total: int)
    | ResetDone
    | UnknownCommand

  const NOT_VOTED := Vote(false, "")

  function VoteOf(votes: map<User, Vote>, user: User): Vote {
    if user in votes then votes[user] else NOT_VOTED
  }

  ghost function Voters(votes: map<User, Vote>): set<User> { set u | u in votes && votes[u].voted }

  ghost function VotersFor(votes: map<User, Vote>, a: Answer): set<User> {
    set u | u in votes && votes[u].voted && votes[u].answer == a
  }

  /** Every count is the number of learners recorded with that answer, and every vote is counted. */
  ghost predicate Tallied(counts: map<Answer, int>, votes: map<User, Vote>) {
    && (forall a :: a in counts ==> counts[a] == |VotersFor(votes, a)|)
    && (forall u :: u in votes && votes[u].voted ==> votes[u].answer in counts)
  }

  /** The shared counts and everybody's votes. */
  datatype State = State(counts: map<Answer, int>, votes: map<User, Vote>)

  /** A request of one learner: an ajax call, or showing the poll. */
  datatype Request = Ajax(user: User, dispatch: string) | Show(user: User)

  predicate Votes(s: State, user: User, dispatch: string) {
    dispatch in s.counts && !VoteOf(s.votes, user).voted
  }

  predicate Withdraws(s: State, user: User, dispatch: string, resettable: bool) {
    !Votes(s, user, dispatch) && dispatch == "reset_poll" && VoteOf(s.votes, user).voted && resettable
  }

  /** The request takes the counts and the votes together from one state to the next. */
  ghost function Step(answers: seq<Answer>, resettable: bool, s: State, r: Request): State
    requires Tallied(s.counts, s.votes)
  {
    match r
    case Show(_) => State(map a | a in s.counts.Keys + (set b | b in answers) ::
                            if a in s.counts then s.counts[a] else 0, s.votes)
    case Ajax(user, dispatch) =>
      if Votes(s, user, dispatch) then
        State(s.counts[dispatch := s.counts[dispatch] + 1], s.votes[user := Vote(true, dispatch)])
      else if Withdraws(s, user, dispatch, resettable) then
        var a := s.votes[user].answer;
        State(s.counts[a := s.counts[a] - 1], s.votes[user := NOT_VOTED])
      else s
  }

  lemma VoteAdds(votes: map<User, Vote>, user: User, a: Answer, b: Answer)
    requires !VoteOf(votes, user).voted
    ensures var v := votes[user := Vote(true, a)];
            |VotersFor(v, b)| == |VotersFor(votes, b)| + if b == a then 1 else 0
  {
    var v := votes[user := Vote(true, a)];
    assert VotersFor(v, b) == if b == a then VotersFor(votes, b) + {user} else VotersFor(votes, b);
  }

  lemma WithdrawRemoves(votes: map<User, Vote>, user: User, b: Answer)
    requires VoteOf(votes, user).voted
    ensures var v := votes[user := NOT_VOTED];
            |VotersFor(v, b)| == |VotersFor(votes, b)| - if b == votes[user].answer then 1 else 0
  {
    var v := votes[user := NOT_VOTED];
    assert VotersFor(v, b)
        == if b == votes[user].answer then VotersFor(votes, b) - {user} else VotersFor(votes, b);
  }

  /** Every request keeps the counts equal to the numbers of recorded voters. */
  lemma StepTallies(answers: seq<Answer>, resettable: bool, s: State, r: Request)
    requires Tallied(s.counts, s.votes)
    ensures var t := Step(answers, resettable, s, r); Tallied(t.counts, t.votes)
  {
    hide VotersFor;
    var t := Step(answers, resettable, s, r);
    forall a | a in t.counts ensures t.counts[a] == |VotersFor(t.votes, a)| {
      match r {
        case Show(_) => NobodyUncounted(s, a);
        case Ajax(user, dispatch) =>
          if Votes(s, user, dispatch) {
            VoteAdds(s.votes, user, dispatch, a);
          } else if Withdraws(s, user, dispatch, resettable) {
            WithdrawRemoves(s.votes, user, a);
          }
      }
    }
  }

  lemma NobodyUncounted(s: State, a: Answer)
    requires Tallied(s.counts, s.votes)
    ensures a !in s.counts ==> |VotersFor(s.votes, a)| == 0
  {
    if a !in s.counts {
      assert VotersFor(s.votes, a) == {};
    }
  }

  /** The state after the requests, in the order in which they were served. */
  ghost function Run(answers: seq<Answer>, resettable: bool, s: State, requests: seq<Request>): State
    requires Tallied(s.counts, s.votes)
    decreases requests
  {
    if requests == [] then s
    else
      StepTallies(answers, resettable, s, requests[0]);
      Run(answers, resettable, Step(answers, resettable, s, requests[0]), requests[1..])
  }

  /** Over every interleaving of requests each count is the number of voters recorded for it. */
  lemma {:induction false} RunTallies(answers: seq<Answer>, resettable: bool, s: State, requests: seq<Request>)
    requires Tallied(s.counts, s.votes)
    ensures var t := Run(answers, resettable, s, requests);
            && Tallied(t.counts, t.votes)
            && (forall a :: a in s.counts ==> a in t.counts)
            && (forall a :: a in t.counts ==> 0 <= t.counts[a] <= |Voters(t.votes)|)
    decreases requests
  {
    if requests == [] {
      forall a | a in s.counts ensures s.counts[a] <= |Voters(s.votes)| {
        SubsetSize(VotersFor(s.votes, a), Voters(s.votes));
      }
    } else {
      StepTallies(answers, resettable, s, requests[0]);
      RunTallies(answers, resettable, Step(answers, resettable, s, requests[0]), requests[1..]);
    }
  }

  /** Withdrawing a vote undoes it: all counts and everybody's recorded votes are as before. */
  lemma WithdrawUndoesVote(answers: seq<Answer>, s: State, user: User, a: Answer)
    requires Tallied(s.counts, s.votes) && Votes(s, user, a)
    ensures StepTallied(answers, s, Ajax(user, a))
    ensures var t := Step(answers, true, Step(answers, true, s, Ajax(user, a)), Ajax(user, "reset_poll"));
            && t.counts == s.counts
            && Voters(t.votes) == Voters(s.votes)
            && forall u :: VoteOf(t.votes, u).voted ==> VoteOf(t.votes, u) == VoteOf(s.votes, u)
  {
    StepTallies(answers, true, s, Ajax(user, a));
  }

  ghost predicate StepTallied(answers: seq<Answer>, s: State, r: Request)
    requires Tallied(s.counts, s.votes)
  {
    var t := Step(answers, true, s, r); Tallied(t.counts, t.votes)
  }

  class PollBlock {
    /** Content: the answer ids of the poll, and whether votes may be withdrawn. */
    const answers: seq<Answer>
    const resettable: bool
    /** Shared between the learners. */
    var pollAnswers: map<Answer, int>
    /** voted and poll_answer of each learner. */
    var votes: map<User, Vote>

    function View(): State
      reads this
    {
      State(pollAnswers, votes)
    }

    constructor (answers: seq<Answer>, resettable: bool)
      ensures this.answers == answers && this.resettable == resettable
      ensures View() == State(map[], map[]) && Tallied(pollAnswers, votes)
    {
      this.answers, this.resettable := answers, resettable;
      pollAnswers, votes := map[], map[];
    }

    /** sum(poll_answers.values()), which is the number of learners who have voted. */
    method Total() returns (total: int)
      requires Tallied(pollAnswers, votes)
      ensures total == |Voters(votes)|
    {
      total := 0;
      var rest := pollAnswers.Keys;
      ghost var seen: set<User> := {};
      while rest != {}
        invariant rest <= pollAnswers.Keys
        invariant seen == set u | u in votes && votes[u].voted && votes[u].answer !in rest
        invariant total == |seen|
        decreases rest
      {
        var a :| a in rest;
        assert VotersFor(votes, a) !! seen;
        seen := seen + VotersFor(votes, a);
        total := total + pollAnswers[a];
        rest := rest - {a};
      }
      assert seen == Voters(votes);
    }

    /** One ajax request of one learner. */
    method HandleAjax(user: User, dispatch: string) returns (reply: Reply)
      requires Tallied(pollAnswers, votes)
      modifies this`pollAnswers, this`votes
      ensures Tallied(pollAnswers, votes)
      ensures View() == Step(answers, resettable, old(View()), Ajax(user, dispatch))
      ensures reply == if old(Votes(View(), user, dispatch)) then Counted(pollAnswers, |Voters(votes)|)
                       else if dispatch == "get_state" then
                         Current(VoteOf(votes, user).answer, pollAnswers, |Voters(votes)|)
                       else if old(Withdraws(View(), user, dispatch, resettable)) then ResetDone
                       else UnknownCommand
      ensures old(dispatch in pollAnswers && !VoteOf(votes, user).voted) ==>
                && VoteOf(votes, user) == Vote(true, dispatch)
                && pollAnswers == old(pollAnswers)[dispatch := old(pollAnswers[dispatch]) + 1]
                && reply.Counted? && reply.counts == pollAnswers && reply.total == |Voters(votes)|
      ensures old(dispatch == "reset_poll" && VoteOf(votes, user).voted && resettable) ==>
                && VoteOf(votes, user) == Vote(false, "") && old(VoteOf(votes, user).answer in pollAnswers)
                && var was := old(VoteOf(votes, user).answer);
                   pollAnswers == old(pollAnswers)[was := old(pollAnswers)[was] - 1] && reply.ResetDone?
      ensures old(!(dispatch in pollAnswers && !VoteOf(votes, user).voted)
                  && !(dispatch == "reset_poll" && VoteOf(votes, user).voted && resettable)) ==>
                && pollAnswers == old(pollAnswers) && votes == old(votes)
                && reply == if dispatch == "get_state"
                            then Current(VoteOf(votes, user).answer, pollAnswers, |Voters(votes)|)
                            else UnknownCommand
      ensures forall other :: other != user ==> VoteOf(votes, other) == old(VoteOf(votes, other))
    {
      hide VotersFor, Voters, Tallied;
      StepTallies(answers, resettable, View(), Ajax(user, dispatch));
      var mine := VoteOf(votes, user);
      if dispatch in pollAnswers && !mine.voted {
        pollAnswers := pollAnswers[dispatch := pollAnswers[dispatch] + 1];
        votes := votes[user := Vote(true, dispatch)];
        var total := Total();
        reply := Counted(pollAnswers, total);
      } else if dispatch == "get_state" {
        var total := Total();
        reply := Current(mine.answer, pollAnswers, total);
      } else if dispatch == "reset_poll" && mine.voted && resettable {
        VoteIsCounted(View(), user);
        pollAnswers := pollAnswers[mine.answer := pollAnswers[mine.answer] - 1];
        votes := votes[user := NOT_VOTED];
        reply := ResetDone;
      } else {
        reply := UnknownCommand;
      }
    }

    /** Showing the poll fills in the missing answers; counts are shown to those who voted. */
    method DumpPoll(user: User) returns (shownCounts: map<Answer, int>, total: int)
      requires Tallied(pollAnswers, votes)
      modifies this`pollAnswers
      ensures Tallied(pollAnswers, votes)
      ensures View() == Step(answers, resettable, old(View()), Show(user))
      ensures votes == old(votes)
      ensures forall a :: a in pollAnswers <==> a in old(pollAnswers) || a in answers
      ensures forall a :: a in pollAnswers ==>
                pollAnswers[a] == if a in old(pollAnswers) then old(pollAnswers)[a] else 0
      ensures if VoteOf(votes, user).voted then shownCounts == pollAnswers && total == |Voters(votes)|
              else shownCounts == map[] && total == 0
    {
      hide VotersFor, Voters, Tallied;
      StepTallies(answers, resettable, View(), Show(user));
      ghost var start := pollAnswers;
      for i := 0 to |answers|
        invariant forall a :: a in pollAnswers <==> a in start || a in answers[..i]
        invariant forall a :: a in pollAnswers ==> pollAnswers[a] == if a in start then start[a] else 0
      {
        if answers[i] !in pollAnswers {
          pollAnswers := pollAnswers[answers[i] := 0];
        }
      }
      assert pollAnswers == Step(answers, resettable, old(View()), Show(user)).counts;
      shownCounts, total := map[], 0;
      if VoteOf(votes, user).voted {
        total := Total();
        shownCounts := pollAnswers;
      }
    }
  }

  lemma VoteIsCounted(s: State, user: User)
    requires Tallied(s.counts, s.votes) && VoteOf(s.votes, user).voted
    ensures s.votes[user].answer in s.counts
  {
  }
}
