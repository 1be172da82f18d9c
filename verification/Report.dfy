/**
 generate_report_data: the rows of the problem report, one per answer, with error rows where a
 problem could not be built or an answer not be described, and an optional limit on answers.
 */
module Report {
  import opened Options
  import opened Collections

  /** What the problem says about one answer; Raises is the LoncapaProblemError. */
  datatype Lookup = Found(question: string, answer: string, correct: Option<string>) | Raises

  datatype Answer = Answer(id: string, lookup: Lookup)

  /** The stored state of one learner: no answers, a problem that cannot be built, or its answers. */
  datatype Saved = NoAnswers | Broken | Saved(answers: seq<Answer>)

  datatype UserState = UserState(username: string, saved: Saved)

  datatype Row =
    | AnswerRow(username: string, id: string, question: string, answer: string, correct: Option<string>)
    | ErrorRow(username: string)

  predicate Skipped(a: Answer) { EndsWith(a.id, "_dynamath") }

  /** What the report comes to next: a row, and whether the limit is checked before it. */
  datatype Item = Item(row: Row, isAnswer: bool)

  /** The items of a learner's answers; after an error the rest of the learner's answers is skipped. */
  function AnswerItems(user: string, answers: seq<Answer>): seq<Item> {
    if answers == [] then []
    else if Skipped(answers[0]) then AnswerItems(user, answers[1..])
    else [ItemOf(user, answers[0])] + if answers[0].lookup.Found? then AnswerItems(user, answers[1..]) else []
  }

  function ItemOf(user: string, a: Answer): Item {
    match a.lookup
    case Found(q, text, c) => Item(AnswerRow(user, a.id, q, text, c), true)
    case Raises => Item(ErrorRow(user), true)
  }

  function UserItems(u: UserState): seq<Item> {
    match u.saved
    case NoAnswers => []
    case Broken => [Item(ErrorRow(u.username), false)]
    case Saved(answers) => AnswerItems(u.username, answers)
  }

  function AllItems(users: seq<UserState>): seq<Item> {
    if users == [] then [] else UserItems(users[0]) + AllItems(users[1..])
  }

  /** The rows until an answer is due after limit answers have been reported. */
  function Rows(items: seq<Item>, limit: Option<int>, count: nat): seq<Row> {
    if items == [] || (items[0].isAnswer && limit.Some? && count >= limit.value) then []
    else [items[0].row] + Rows(items[1..], limit, count + if items[0].row.AnswerRow? then 1 else 0)
  }

  /** The report; a limit of 0 is checked first. */
  function Report(users: seq<UserState>, limit: Option<int>): seq<Row> {
    if limit == Some(0) then [] else Rows(AllItems(users), limit, 0)
  }

  /** Whether an answer is due when the limit is reached. */
  predicate LimitReached(limit: Option<int>, count: nat) { limit.Some? && limit.value != 0 && count >= limit.value }

  /** The answers of one learner; stopped tells that the limit ended the whole report. */
  method ReportAnswers(user: string, answers: seq<Answer>, limit: Option<int>, count: nat, ghost later: seq<Item>)
    returns (rows: seq<Row>, newCount: nat, stopped: bool)
    requires limit != Some(0)
    ensures Rows(AnswerItems(user, answers) + later, limit, count)
         == rows + if stopped then [] else Rows(later, limit, newCount)
  {
    hide Rows, AnswerItems, Skipped;
    rows, newCount, stopped := [], count, false;
    ghost var all := Rows(AnswerItems(user, answers) + later, limit, count);
    for i := 0 to |answers|
      invariant all == rows + Rows(AnswerItems(user, answers[i..]) + later, limit, newCount)
    {
      var a := answers[i];
      assert answers[i..][1..] == answers[i + 1..];
      NextAnswer(user, answers[i..], later);
      if Skipped(a) {
        continue;
      }
      ghost var rest := AnswerItems(user, answers[i + 1..]) + later;
      NextItem(ItemOf(user, a), if a.lookup.Found? then rest else later, limit, newCount);
      if LimitReached(limit, newCount) {
        stopped := true;
        return;
      }
      Associate(rows, [ItemOf(user, a).row],
                if a.lookup.Found? then Rows(rest, limit, newCount + 1) else Rows(later, limit, newCount));
      match a.lookup {
        case Found(q, text, c) =>
          rows, newCount := rows + [AnswerRow(user, a.id, q, text, c)], newCount + 1;
        case Raises =>
          rows := rows + [ErrorRow(user)];
          return;
      }
    }
    assert AnswerItems(user, answers[|answers|..]) + later == later by {
      NoAnswerItems(user);
    }
  }

  lemma NoAnswerItems(user: string)
    ensures AnswerItems(user, []) == []
  {
  }

  lemma NextAnswer(user: string, answers: seq<Answer>, later: seq<Item>)
    requires answers != []
    ensures var a, rest := answers[0], AnswerItems(user, answers[1..]) + later;
            AnswerItems(user, answers) + later
              == if Skipped(a) then rest
                 else [ItemOf(user, a)] + if a.lookup.Found? then rest else later
  {
  }

  lemma NextItem(item: Item, rest: seq<Item>, limit: Option<int>, count: nat)
    ensures Rows([item] + rest, limit, count)
         == if item.isAnswer && limit.Some? && count >= limit.value then []
            else [item.row] + Rows(rest, limit, count + if item.row.AnswerRow? then 1 else 0)
  {
    assert ([item] + rest)[1..] == rest;
  }

  lemma NextUser(users: seq<UserState>)
    requires users != []
    ensures AllItems(users) == UserItems(users[0]) + AllItems(users[1..])
  {
  }

  lemma NextUserRows(u: UserState, later: seq<Item>, limit: Option<int>, count: nat)
    ensures var rows := Rows(UserItems(u) + later, limit, count);
            match u.saved
            case NoAnswers => rows == Rows(later, limit, count)
            case Broken => rows == [ErrorRow(u.username)] + Rows(later, limit, count)
            case Saved(answers) => rows == Rows(AnswerItems(u.username, answers) + later, limit, count)
  {
    match u.saved {
      case NoAnswers =>
        assert [] + later == later;
      case Broken =>
        NextItem(Item(ErrorRow(u.username), false), later, limit, count);
      case Saved(_) =>
    }
  }

  /** The generator: its rows, in order. */
  method GenerateReportData(users: seq<UserState>, limit: Option<int>) returns (rows: seq<Row>)
    ensures rows == Report(users, limit)
  {
    rows := [];
    if limit == Some(0) {
      return;
    }
    var count := 0;
    assert users[0..] == users;
    assert Report(users, limit) == Rows(AllItems(users), limit, 0);
    hide Rows, AnswerItems, AllItems, Report, UserItems;
    for i := 0 to |users|
      invariant Report(users, limit) == rows + Rows(AllItems(users[i..]), limit, count)
    {
      var u := users[i];
      ghost var later := AllItems(users[i + 1..]);
      assert users[i..][1..] == users[i + 1..];
      NextUser(users[i..]);
      NextUserRows(u, later, limit, count);
      match u.saved {
        case NoAnswers =>
        case Broken =>
          Associate(rows, [ErrorRow(u.username)], Rows(later, limit, count));
          rows := rows + [ErrorRow(u.username)];
        case Saved(answers) =>
          var more, newCount, stopped := ReportAnswers(u.username, answers, limit, count, later);
          Associate(rows, more, if stopped then [] else Rows(later, limit, newCount));
          rows, count := rows + more, newCount;
          if stopped {
            return;
          }
      }
    }
    assert Rows(AllItems(users[|users|..]), limit, count) == [] by {
      NoItems(limit, count);
    }
  }

  lemma NoItems(limit: Option<int>, count: nat)
    ensures Rows(AllItems([]), limit, count) == []
  {
  }

  // ---- the limit ----

  function AnswerCount(rows: seq<Row>): nat {
    if rows == [] then 0 else (if rows[0].AnswerRow? then 1 else 0) + AnswerCount(rows[1..])
  }

  lemma {:induction false} LimitedRows(items: seq<Item>, limit: int, count: nat)
    requires limit > 0 && count <= limit && Sane(items)
    ensures var rows, all := Rows(items, Some(limit), count), Rows(items, None, count);
            && rows <= all
            && count + AnswerCount(rows) <= limit
            && (rows != all ==> count + AnswerCount(rows) == limit)
    decreases items
  {
    if items != [] && !(items[0].isAnswer && count >= limit) {
      var next := count + if items[0].row.AnswerRow? then 1 else 0;
      LimitedRows(items[1..], limit, next);
      Prefixed(items[0].row, Rows(items[1..], Some(limit), next), Rows(items[1..], None, next));
    }
  }

  lemma Prefixed(row: Row, a: seq<Row>, b: seq<Row>)
    ensures a <= b ==> [row] + a <= [row] + b
    ensures ([row] + a)[1..] == a
    ensures [row] + a == [row] + b ==> a == b
  {
    assert ([row] + b)[1..] == b && ([row] + a)[1..] == a;
  }

  /** Only answers make answer rows. */
  predicate Sane(items: seq<Item>) { forall i :: 0 <= i < |items| ==> (items[i].row.AnswerRow? ==> items[i].isAnswer) }

  lemma {:induction false} AnswerItemsSane(user: string, answers: seq<Answer>)
    ensures Sane(AnswerItems(user, answers))
  {
    if answers != [] {
      AnswerItemsSane(user, answers[1..]);
    }
  }

  lemma {:induction false} ItemsSane(users: seq<UserState>)
    ensures Sane(AllItems(users))
  {
    if users != [] {
      ItemsSane(users[1..]);
      if users[0].saved.Saved? {
        AnswerItemsSane(users[0].username, users[0].saved.answers);
      }
    }
  }

  /**
   With a positive limit the report is a prefix of the full report, with at most that many answer
   rows, and exactly that many when it stops early.
   */
  lemma LimitIsPrefix(users: seq<UserState>, limit: int)
    requires limit > 0
    ensures var rows, all := Report(users, Some(limit)), Report(users, None);
            && rows <= all
            && AnswerCount(rows) <= limit
            && (rows != all ==> AnswerCount(rows) == limit)
  {
    ItemsSane(users);
    LimitedRows(AllItems(users), limit, 0);
  }

  // ---- the full report ----

  /** The answer is an input's MathML version, which is not reported. */
  ghost predicate IsMathML(a: Answer) { |a.id| >= 9 && a.id[|a.id| - 9..] == "_dynamath" }

  /** How many of the first n answers are reported. */
  ghost function Reported(answers: seq<Answer>, n: nat): nat
    requires n <= |answers|
  {
    if n == 0 then 0 else (if IsMathML(answers[0]) then 0 else 1) + Reported(answers[1..], n - 1)
  }

  /** The first n answers can all be described, and the next one, if any, cannot. */
  ghost predicate FailsAt(answers: seq<Answer>, n: nat) {
    && n <= |answers|
    && (forall i :: 0 <= i < n ==> IsMathML(answers[i]) || answers[i].lookup.Found?)
    && (n < |answers| ==> !IsMathML(answers[n]) && answers[n].lookup.Raises?)
  }

  /** The row of a described answer. */
  ghost predicate IsRowOf(row: Row, user: string, a: Answer) {
    && row.AnswerRow? && a.lookup.Found? && row.username == user && row.id == a.id
    && row.question == a.lookup.question && row.answer == a.lookup.answer && row.correct == a.lookup.correct
  }

  lemma ReportedNext(answers: seq<Answer>, n: nat)
    requires 0 < n <= |answers|
    ensures Reported(answers, n) == (if IsMathML(answers[0]) then 0 else 1) + Reported(answers[1..], n - 1)
  {
  }

  lemma FailsLater(answers: seq<Answer>, n: nat)
    requires FailsAt(answers, n) && n > 0
    ensures FailsAt(answers[1..], n - 1) && (IsMathML(answers[0]) || answers[0].lookup.Found?)
  {
    hide IsMathML;
    assert forall i :: 0 <= i < n - 1 ==> answers[1..][i] == answers[i + 1];
  }

  lemma FirstItems(user: string, answers: seq<Answer>)
    requires answers != []
    ensures var a, rest := answers[0], AnswerItems(user, answers[1..]);
            AnswerItems(user, answers)
              == if IsMathML(a) then rest else [ItemOf(user, a)] + if a.lookup.Found? then rest else []
  {
  }

  /** The items of the first n answers, which can all be described, are found at their places. */
  ghost predicate InPlace(items: seq<Item>, user: string, answers: seq<Answer>, n: nat)
    requires n <= |answers|
  {
    forall i :: 0 <= i < n && !IsMathML(answers[i]) ==>
      Reported(answers, i) < |items| && IsRowOf(items[Reported(answers, i)].row, user, answers[i])
  }

  lemma OneMoreInPlace(items: seq<Item>, user: string, answers: seq<Answer>, n: nat)
    requires 0 < n <= |answers| && InPlace(items, user, answers[1..], n - 1)
    ensures IsMathML(answers[0]) ==> InPlace(items, user, answers, n)
    ensures !IsMathML(answers[0]) && answers[0].lookup.Found? ==>
              InPlace([ItemOf(user, answers[0])] + items, user, answers, n)
  {
    hide IsMathML;
    var all := if IsMathML(answers[0]) then items else [ItemOf(user, answers[0])] + items;
    if IsMathML(answers[0]) || answers[0].lookup.Found? {
      forall i | 0 <= i < n && !IsMathML(answers[i])
        ensures Reported(answers, i) < |all| && IsRowOf(all[Reported(answers, i)].row, user, answers[i])
      {
        if i > 0 {
          assert answers[1..][i - 1] == answers[i];
          ReportedNext(answers, i);
        }
      }
    }
  }

  lemma {:induction false} LearnersItems(user: string, answers: seq<Answer>, n: nat)
    requires FailsAt(answers, n)
    ensures var items := AnswerItems(user, answers);
            && |items| == Reported(answers, n) + (if n < |answers| then 1 else 0)
            && InPlace(items, user, answers, n)
            && (n < |answers| ==> items[|items| - 1].row == ErrorRow(user))
  {
    if n == 0 {
      if answers != [] {
        FirstItems(user, answers);
      }
    } else {
      FailsLater(answers, n);
      LearnersItems(user, answers[1..], n - 1);
      FirstItems(user, answers);
      OneMoreInPlace(AnswerItems(user, answers[1..]), user, answers, n);
      ReportedNext(answers, n);
    }
  }

  lemma {:induction false} ReportedGrows(answers: seq<Answer>, i: nat, n: nat)
    requires i < n <= |answers| && !IsMathML(answers[i])
    ensures Reported(answers, i) < Reported(answers, n)
  {
    hide IsMathML;
    if i > 0 {
      ReportedGrows(answers[1..], i - 1, n - 1);
    }
  }

  lemma {:induction false} RowsWithoutLimit(items: seq<Item>, count: nat)
    ensures var rows := Rows(items, None, count);
            |rows| == |items| && forall i :: 0 <= i < |rows| ==> rows[i] == items[i].row
  {
    if items != [] {
      RowsWithoutLimit(items[1..], count + if items[0].row.AnswerRow? then 1 else 0);
    }
  }

  /**
   The report of one learner: a row for every reported answer up to the first that cannot be
   described, in order, and then an error row if there is one.
   */
  lemma LearnersRows(user: string, answers: seq<Answer>, n: nat)
    requires FailsAt(answers, n)
    ensures var rows := Report([UserState(user, Saved(answers))], None);
            && |rows| == Reported(answers, n) + (if n < |answers| then 1 else 0)
            && (forall i :: 0 <= i < n && !IsMathML(answers[i]) ==>
                  Reported(answers, i) < Reported(answers, n) && IsRowOf(rows[Reported(answers, i)], user, answers[i]))
            && (n < |answers| ==> rows[|rows| - 1] == ErrorRow(user))
  {
    var items := AnswerItems(user, answers);
    OneLearner(UserState(user, Saved(answers)));
    LearnersItems(user, answers, n);
    RowsWithoutLimit(items, 0);
    hide AnswerItems, IsMathML, Reported, FailsAt, Rows, IsRowOf, Report;
    forall i | 0 <= i < n && !IsMathML(answers[i])
      ensures Reported(answers, i) < Reported(answers, n)
    {
      ReportedGrows(answers, i, n);
    }
  }

  lemma OneLearner(u: UserState)
    ensures Report([u], None) == Rows(UserItems(u), None, 0)
  {
    hide Rows, UserItems;
    assert [u][1..] == [] && AllItems([u]) == UserItems(u) + AllItems([]);
    assert UserItems(u) + [] == UserItems(u);
  }

  /** Learners without answers get no row, a broken problem gives an error row, and the limit 0 nothing. */
  lemma LearnersWithoutAnswers(user: string, users: seq<UserState>)
    ensures Report([UserState(user, NoAnswers)], None) == []
    ensures Report([UserState(user, Broken)], None) == [ErrorRow(user)]
    ensures Report(users, Some(0)) == []
  {
    OneLearner(UserState(user, NoAnswers));
    OneLearner(UserState(user, Broken));
    RowsWithoutLimit([Item(ErrorRow(user), false)], 0);
    hide Report;
  }

  /** Learners follow one another. */
  lemma LearnersFollow(users: seq<UserState>, more: seq<UserState>)
    ensures Report(users + more, None) == Report(users, None) + Report(more, None)
  {
    hide AllItems, Rows;
    ItemsJoin(users, more);
    RowsWithoutLimit(AllItems(users) + AllItems(more), 0);
    RowsWithoutLimit(AllItems(users), 0);
    RowsWithoutLimit(AllItems(more), 0);
  }

  lemma {:induction false} ItemsJoin(users: seq<UserState>, more: seq<UserState>)
    ensures AllItems(users + more) == AllItems(users) + AllItems(more)
  {
    if users == [] {
      assert users + more == more;
    } else {
      assert (users + more)[1..] == users[1..] + more;
      ItemsJoin(users[1..], more);
      hide UserItems;
      Associate(UserItems(users[0]), AllItems(users[1..]), AllItems(more));
    }
  }
}
