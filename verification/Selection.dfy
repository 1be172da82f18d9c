/**
 The randomized library content block: which children a learner sees, kept as a list in the
 learner's state and changed as little as possible when the library or the count changes.
 Random samples and shuffles are arbitrary choices, so the contracts hold for all of them.
 */
module Selection {
  import opened Options
  import opened Collections

  /** (block_type, block_id) */
  type Key = (string, string)

  /** The result of make_selection; added is None when nothing had to be added. */
  datatype Outcome = Outcome(selected: seq<Key>, invalid: set<Key>, overlimit: set<Key>, added: Option<set<Key>>)

  predicate Changed(o: Outcome) {
    o.invalid != {} || o.overlimit != {} || (o.added.Some? && o.added.value != {})
  }

  function AddedKeys(o: Outcome): set<Key> { if o.added.Some? then o.added.value else {} }

  datatype Event =
    | Removed(result: seq<Key>, removed: set<Key>, overlimit: bool, previousCount: nat)
    | Assigned(result: seq<Key>, added: set<Key>, previousCount: nat)

  // ---- sets and samples ----

  lemma {:induction false} SampleExists(pool: set<Key>, n: nat)
    requires n <= |pool|
    ensures exists s: set<Key> :: s <= pool && |s| == n
  {
    if n == 0 {
      var none: set<Key> := {};
      assert none <= pool && |none| == 0;
    } else {
      var k :| k in pool;
      SampleExists(pool - {k}, n - 1);
      var s: set<Key> :| s <= pool - {k} && |s| == n - 1;
      assert s + {k} <= pool && |s + {k}| == n;
    }
  }

  /** random.sample: any subset of the requested size. */
  method Sample(pool: set<Key>, n: nat) returns (s: set<Key>)
    requires n <= |pool|
    ensures s <= pool && |s| == n
  {
    SampleExists(pool, n);
    s :| s <= pool && |s| == n;
  }

  /** list(keys) followed by random.shuffle: the keys in any order. */
  method Shuffled(keys: set<Key>) returns (s: seq<Key>)
    ensures Distinct(s) && Elements(s) == keys && |s| == |keys|
  {
    s := [];
    var rest := keys;
    while rest != {}
      invariant Distinct(s) && Elements(s) + rest == keys && Elements(s) !! rest
      decreases rest
    {
      var k :| k in rest;
      assert Elements(s + [k]) == Elements(s) + {k};
      s, rest := s + [k], rest - {k};
    }
    DistinctSize(s);
  }

  // ---- make_selection ----

  /**
   The selection is exact (a subset of the valid children of the size asked for), minimal (as many
   old members as fit are kept, and members are never dropped and added at once), and accounted
   for by the three sets of changes.
   */
  ghost predicate IsPick(was: set<Key>, valid: set<Key>, maxCount: nat, now: set<Key>,
                         invalid: set<Key>, overlimit: set<Key>, added: set<Key>)
  {
    && now <= valid && |now| == Min(maxCount, |valid|)
    && |now * was| == Min(maxCount, |was * valid|)
    && invalid == was - valid
    && overlimit <= was * valid
    && added == now - was
    && now == was - invalid - overlimit + added
    && (overlimit == {} || added == {})
  }

  /** A pick, listed in any order, or the old list itself when nothing changed. */
  ghost predicate IsSelection(before: seq<Key>, valid: set<Key>, maxCount: nat, o: Outcome) {
    && IsPick(Elements(before), valid, maxCount, Elements(o.selected), o.invalid, o.overlimit, AddedKeys(o))
    && (if Changed(o) then Distinct(o.selected) else o.selected == before)
  }

  lemma DropGivesPick(was: set<Key>, valid: set<Key>, maxCount: nat, overlimit: set<Key>)
    requires overlimit <= was * valid && |was * valid| >= maxCount && |overlimit| == |was * valid| - maxCount
    ensures IsPick(was, valid, maxCount, was * valid - overlimit, was - valid, overlimit, {})
  {
    var now := was * valid - overlimit;
    SubsetSize(overlimit, was * valid);
    SubsetSize(was * valid, valid);
    assert now * was == now;
    assert now - was == {};
    assert now == was - (was - valid) - overlimit + {};
  }

  lemma KeepingAllIsPick(was: set<Key>, valid: set<Key>, maxCount: nat)
    requires |was * valid| == maxCount
    ensures IsPick(was, valid, maxCount, was * valid, was - valid, {}, {})
  {
    hide IsPick;
    DropGivesPick(was, valid, maxCount, {});
    assert was * valid - {} == was * valid;
  }

  lemma AddGivesPick(was: set<Key>, valid: set<Key>, maxCount: nat, drawn: set<Key>)
    requires drawn <= valid - was * valid && |was * valid| <= maxCount
    requires |drawn| == Min(|valid - was * valid|, maxCount - |was * valid|)
    ensures IsPick(was, valid, maxCount, was * valid + drawn, was - valid, {}, drawn)
  {
    var kept := was * valid;
    var now := kept + drawn;
    SubsetSize(kept, valid);
    assert |now| == |kept| + |drawn| == Min(maxCount, |valid|);
    assert now * was == kept;
    assert now - was == drawn;
    assert was - (was - valid) == kept;
  }

  lemma WithoutInvalid(was: set<Key>, valid: set<Key>)
    ensures was - (was - valid) == was * valid
    ensures was - valid == {} ==> was == was * valid
  {
    if was - valid == {} {
      forall k | k in was ensures k in valid {
        assert k !in was - valid;
      }
    }
  }

  /** The choice of keys; added is None when nothing had to be added. */
  method Pick(was: set<Key>, valid: set<Key>, maxCount: nat)
    returns (keys: set<Key>, invalid: set<Key>, overlimit: set<Key>, added: Option<set<Key>>)
    ensures IsPick(was, valid, maxCount, keys, invalid, overlimit, if added.Some? then added.value else {})
  {
    hide IsPick;
    keys, invalid, overlimit, added := was, was - valid, {}, None;
    if invalid != {} {
      keys := keys - invalid;
    }
    ghost var kept := was * valid;
    WithoutInvalid(was, valid);
    if |keys| > maxCount {
      overlimit := Sample(keys, |keys| - maxCount);
      DropGivesPick(was, valid, maxCount, overlimit);
      SubsetSize(overlimit, kept);
      keys := keys - overlimit;
    } else if |keys| == maxCount {
      KeepingAllIsPick(was, valid, maxCount);
    }
    if maxCount > |keys| {
      var pool := valid - keys;
      var drawn := Sample(pool, Min(|pool|, maxCount - |keys|));
      AddGivesPick(was, valid, maxCount, drawn);
      keys := keys + drawn;
      added := Some(drawn);
    }
  }

  method MakeSelection(selected: seq<Key>, children: seq<Key>, maxCount: nat) returns (o: Outcome)
    ensures IsSelection(selected, Elements(children), maxCount, o)
  {
    hide IsPick;
    var keys, invalid, overlimit, added := Pick((set k | k in selected), (set k | k in children), maxCount);
    o := Outcome(selected, invalid, overlimit, added);
    if Changed(o) {
      var s := Shuffled(keys);
      o := o.(selected := s);
    } else {
      NoChange(Elements(selected), Elements(children), maxCount, keys);
    }
  }

  lemma NoChange(was: set<Key>, valid: set<Key>, maxCount: nat, now: set<Key>)
    requires IsPick(was, valid, maxCount, now, {}, {}, {})
    ensures now == was
  {
  }

  // ---- events ----

  /** Applying published events to the set of selected children they describe. */
  ghost function Replay(keys: set<Key>, events: seq<Event>): set<Key> {
    if events == [] then keys
    else Applied(Replay(keys, events[..|events| - 1]), events[|events| - 1])
  }

  ghost function Applied(keys: set<Key>, e: Event): set<Key> {
    match e
    case Removed(_, removed, _, _) => keys - removed
    case Assigned(_, added, _) => keys + added
  }

  lemma ReplayNone(keys: set<Key>)
    ensures Replay(keys, []) == keys
  {
  }

  lemma ReplayOne(keys: set<Key>, e: Event)
    ensures Replay(keys, [e]) == Applied(keys, e)
  {
    assert [e][..0] == [];
  }

  lemma {:induction false} ReplaySplits(keys: set<Key>, first: seq<Event>, rest: seq<Event>)
    ensures Replay(keys, first + rest) == Replay(Replay(keys, first), rest)
  {
    if rest == [] {
      assert first + rest == first;
    } else {
      var n := |rest| - 1;
      assert (first + rest)[..|first| + n] == first + rest[..n];
      ReplaySplits(keys, first, rest[..n]);
    }
  }

  /** The events of one selection and the counts they report. */
  function EventsOf(o: Outcome, previous: nat): seq<Event> {
    var n := |o.selected|;
    var a := if o.invalid == {} then [] else [Removed(o.selected, o.invalid, false, previous)];
    var b := if o.overlimit == {} then []
             else [Removed(o.selected, o.overlimit, true, if a == [] then previous else n)];
    var c := if AddedKeys(o) == {} then []
             else [Assigned(o.selected, AddedKeys(o), if a + b == [] then previous else n)];
    a + b + c
  }

  /**
   The events, one for each change that happened, in this order: removed as invalid, removed over
   the limit, assigned.  Each tells the new list, and the count before it.
   */
  lemma EventsTell(o: Outcome, previous: nat)
    ensures var es, added := EventsOf(o, previous), if o.added.Some? then o.added.value else {};
            var a := if o.invalid != {} then 1 else 0;
            var b := if o.overlimit != {} then a + 1 else a;
            && |es| == b + (if added != {} then 1 else 0)
            && (o.invalid != {} ==> es[0] == Removed(o.selected, o.invalid, false, previous))
            && (o.overlimit != {} ==>
                  es[a] == Removed(o.selected, o.overlimit, true, if a == 0 then previous else |o.selected|))
            && (added != {} ==> es[b] == Assigned(o.selected, added, if b == 0 then previous else |o.selected|))
  {
  }

  lemma EventsApply(was: set<Key>, o: Outcome, previous: nat)
    ensures Replay(was, EventsOf(o, previous)) == was - o.invalid - o.overlimit + AddedKeys(o)
  {
    hide Replay, Changed;
    var n := |o.selected|;
    var a := if o.invalid == {} then [] else [Removed(o.selected, o.invalid, false, previous)];
    var b := if o.overlimit == {} then []
             else [Removed(o.selected, o.overlimit, true, if a == [] then previous else n)];
    var c := if AddedKeys(o) == {} then []
             else [Assigned(o.selected, AddedKeys(o), if a + b == [] then previous else n)];
    ReplaySplits(was, a, b);
    ReplaySplits(was, a + b, c);
    assert Replay(was, a) == was - o.invalid by {
      if a != [] { ReplayOne(was, a[0]); } else { ReplayNone(was); }
    }
    var kept := was - o.invalid;
    assert Replay(kept, b) == kept - o.overlimit by {
      if b != [] { ReplayOne(kept, b[0]); } else { ReplayNone(kept); }
    }
    var rest := kept - o.overlimit;
    assert Replay(rest, c) == rest + AddedKeys(o) by {
      if c != [] { ReplayOne(rest, c[0]); } else { ReplayNone(rest); }
    }
  }

  /** Replaying the events of a selection over the old keys gives the new ones. */
  lemma EventsReplay(before: seq<Key>, valid: set<Key>, maxCount: nat, o: Outcome, previous: nat)
    requires IsSelection(before, valid, maxCount, o)
    ensures Replay(Elements(before), EventsOf(o, previous)) == Elements(o.selected)
  {
    hide Replay, EventsOf;
    EventsApply(Elements(before), o, previous);
  }

  // ---- the block ----

  class LibraryContentBlock {
    var children: seq<Key>
    var maxCount: int
    var selected: seq<Key>
    var lastEventResultCount: Option<nat>
    var published: seq<Event>

    constructor (children: seq<Key>, maxCount: int, selected: seq<Key>)
      ensures this.children == children && this.maxCount == maxCount && this.selected == selected
      ensures lastEventResultCount == None && published == []
    {
      this.children, this.maxCount, this.selected := children, maxCount, selected;
      lastEventResultCount, published := None, [];
    }

    /** A negative count stands for all children. */
    function Limit(): nat
      reads this
    {
      if maxCount < 0 then |children| else maxCount
    }

    function PreviousCount(): nat
      reads this
    {
      if lastEventResultCount.Some? then lastEventResultCount.value else |selected|
    }

    /** The count remembered for the next event, if any, is the size of the current selection. */
    predicate CountInStep()
      reads this
    {
      lastEventResultCount.Some? ==> lastEventResultCount.value == |selected|
    }

    method PublishEvent(e: Event, result: seq<Key>)
      modifies this`lastEventResultCount, this`published
      ensures published == old(published) + [e]
      ensures lastEventResultCount == Some(|result|)
    {
      published := published + [e];
      lastEventResultCount := Some(|result|);
    }

    method PublishSelectedChildrenEvents(o: Outcome)
      modifies this`lastEventResultCount, this`published
      ensures published == old(published) + EventsOf(o, old(PreviousCount()))
      ensures lastEventResultCount == if Changed(o) then Some(|o.selected|) else old(lastEventResultCount)
      ensures published == old(published)
                + EventsOf(o, old(if lastEventResultCount.Some? then lastEventResultCount.value else |selected|))
    {
      if o.invalid != {} {
        PublishEvent(Removed(o.selected, o.invalid, false, PreviousCount()), o.selected);
      }
      if o.overlimit != {} {
        PublishEvent(Removed(o.selected, o.overlimit, true, PreviousCount()), o.selected);
      }
      if AddedKeys(o) != {} {
        PublishEvent(Assigned(o.selected, AddedKeys(o), PreviousCount()), o.selected);
      }
    }

    /**
     The list shown to the learner.  The published events turn the old set into the new one, and
     when the selection is already right nothing is published and the list stays as it is.
     */
    method SelectedChildren() returns (result: seq<Key>)
      modifies this`selected, this`lastEventResultCount, this`published
      ensures result == selected
      ensures exists o ::
                && IsSelection(old(selected), Elements(children), Limit(), o) && selected == o.selected
                && published == old(published) + EventsOf(o, old(PreviousCount()))
                && lastEventResultCount == if Changed(o) then Some(|selected|) else old(lastEventResultCount)
      ensures Replay(Elements(old(selected)), published[|old(published)|..]) == Elements(selected)
      ensures IsSettled(old(selected), Elements(children), Limit()) ==>
                selected == old(selected) && published == old(published)
      ensures IsSettled(selected, Elements(children), Limit())
      ensures Elements(selected) <= Elements(children)
      ensures maxCount >= 0 ==> |Elements(selected)| == Min(maxCount, |Elements(children)|)
      ensures maxCount < 0 ==> Elements(selected) == Elements(children)
      ensures maxCount >= 0 ==>
                |Elements(selected) * Elements(old(selected))|
                  == Min(maxCount, |Elements(old(selected)) * Elements(children)|)
      ensures old(CountInStep()) ==> CountInStep()
    {
      hide IsPick, EventsOf, Replay;
      var o := MakeSelection(selected, children, Limit());
      PickSettles(selected, Elements(children), Limit(), o);
      PickIsExact(selected, children, maxCount, Limit(), o);
      PublishSelectedChildrenEvents(o);
      if Changed(o) {
        selected := o.selected;
      }
      result := selected;
      EventsReplay(old(selected), Elements(children), Limit(), o, old(PreviousCount()));
      assert published[|old(published)|..] == EventsOf(o, old(PreviousCount()));
      if IsSettled(old(selected), Elements(children), Limit()) {
        SettledStays(old(selected), Elements(children), Limit(), o);
      }
    }

    /**
     Starting over: the children selected now are reset, those that can be, and none is selected
     any more.  What is published is only what selecting them publishes, not that they are gone.
     */
    method ResetSelectedChildren(allowed: bool, canReset: Key -> bool)
      returns (ok: bool, shown: seq<Key>, resetBlocks: seq<Key>)
      modifies this`selected, this`lastEventResultCount, this`published
      ensures ok == allowed
      ensures !ok ==> selected == old(selected) && published == old(published) && shown == resetBlocks == []
      ensures !ok ==> lastEventResultCount == old(lastEventResultCount)
      ensures ok ==> selected == [] && IsSettled(shown, Elements(children), Limit())
      ensures ok ==> resetBlocks == Resettable(shown, canReset)
      ensures forall k :: k in resetBlocks <==> ok && k in shown && canReset(k)
      ensures ok && maxCount >= 0 ==> |Elements(shown)| == Min(maxCount, |Elements(children)|)
      ensures ok && maxCount < 0 ==> Elements(shown) == Elements(children)
      ensures ok ==> exists o ::
                && IsSelection(old(selected), Elements(children), Limit(), o) && shown == o.selected
                && published == old(published) + EventsOf(o, old(PreviousCount()))
                && lastEventResultCount == if Changed(o) then Some(|shown|) else old(lastEventResultCount)
    {
      hide IsSelection, EventsOf, IsSettled;
      ok, shown, resetBlocks := allowed, [], [];
      if allowed {
        shown := SelectedChildren();
        for i := 0 to |shown|
          invariant resetBlocks == Resettable(shown[..i], canReset)
        {
          assert shown[..i + 1][..i] == shown[..i];
          if canReset(shown[i]) {
            resetBlocks := resetBlocks + [shown[i]];
          }
        }
        assert shown[..|shown|] == shown;
        ResettableMembers(shown, canReset);
        selected := [];
      }
    }
  }

  /** The blocks that can be reset, in order. */
  function Resettable(keys: seq<Key>, canReset: Key -> bool): seq<Key> {
    if keys == [] then []
    else
      var n := |keys| - 1;
      Resettable(keys[..n], canReset) + if canReset(keys[n]) then [keys[n]] else []
  }

  lemma {:induction false} ResettableMembers(keys: seq<Key>, canReset: Key -> bool)
    ensures forall k :: k in Resettable(keys, canReset) <==> k in keys && canReset(k)
  {
    if keys != [] {
      var n := |keys| - 1;
      ResettableMembers(keys[..n], canReset);
      assert keys == keys[..n] + [keys[n]];
    }
  }

  /**
   After a reset the events of the next selection do not turn what was shown into what is shown,
   unless everything shown before happens to be drawn again.
   */
  lemma ResetIsNotPublished(shown: seq<Key>, valid: set<Key>, maxCount: nat, o: Outcome, previous: nat)
    requires IsSelection([], valid, maxCount, o)
    ensures Replay(Elements(shown), EventsOf(o, previous)) == Elements(shown) + Elements(o.selected)
    ensures Replay(Elements(shown), EventsOf(o, previous)) == Elements(o.selected)
       <==> Elements(shown) <= Elements(o.selected)
  {
    hide Replay, EventsOf;
    EventsApply(Elements(shown), o, previous);
  }

  lemma {:induction false} Listed(keys: set<Key>) returns (s: seq<Key>)
    ensures Distinct(s) && Elements(s) == keys
  {
    if keys == {} {
      s := [];
    } else {
      var k :| k in keys;
      var rest := Listed(keys - {k});
      s := rest + [k];
      assert Elements(s) == Elements(rest) + {k};
    }
  }

  /** When nothing is selected any keys that fit can be drawn. */
  lemma AnyDraw(valid: set<Key>, maxCount: nat, drawn: set<Key>) returns (o: Outcome)
    requires drawn <= valid && |drawn| == Min(maxCount, |valid|)
    ensures IsSelection([], valid, maxCount, o) && Elements(o.selected) == drawn
  {
    var s := Listed(drawn);
    o := Outcome(s, {}, {}, Some(drawn));
    assert Elements<Key>([]) == {};
    assert drawn == {} ==> s == [] by {
      assert s != [] ==> s[0] in Elements(s);
    }
    assert drawn * {} == {} && {} * valid == {} && drawn - {} == drawn;
  }

  /** A draw can miss one of the keys exactly when one is not valid or not all valid ones are drawn. */
  lemma MissingDraw(keys: set<Key>, valid: set<Key>, maxCount: nat) returns (o: Outcome)
    requires keys != {} && !(keys <= valid && |valid| <= maxCount)
    ensures IsSelection([], valid, maxCount, o) && !(keys <= Elements(o.selected))
  {
    hide IsSelection;
    var k :| k in keys && (k !in valid || keys <= valid);
    var pool, n := valid - {k}, Min(maxCount, |valid|);
    SubsetSize(pool, valid);
    assert n <= |pool| by {
      if k !in valid {
        assert pool == valid;
      } else {
        assert |pool| == |valid| - 1;
      }
    }
    SampleExists(pool, n);
    var drawn: set<Key> :| drawn <= pool && |drawn| == n;
    o := AnyDraw(valid, maxCount, drawn);
  }

  /** Whether the events after a reset turn the set that was shown into the one that is drawn. */
  ghost predicate Rebuilds(shown: set<Key>, previous: nat, o: Outcome) {
    Replay(shown, EventsOf(o, previous)) == Elements(o.selected)
  }

  /**
   After a reset the published events rebuild the selection, whatever is drawn, exactly when
   nothing was shown, or everything shown is still valid and all valid blocks fit.  For an
   unchanged library and count that is: when the count is zero or no less than all blocks.
   */
  lemma ResetRebuilds(shown: seq<Key>, valid: set<Key>, maxCount: nat, previous: nat)
    ensures (forall o :: IsSelection([], valid, maxCount, o) ==> Rebuilds(Elements(shown), previous, o))
       <==> Elements(shown) == {} || (Elements(shown) <= valid && |valid| <= maxCount)
    ensures IsSettled(shown, valid, maxCount) ==>
              ((forall o :: IsSelection([], valid, maxCount, o) ==> Rebuilds(Elements(shown), previous, o))
                 <==> maxCount == 0 || |valid| <= maxCount)
  {
    var keys := Elements(shown);
    hide Replay, EventsOf;
    if keys == {} || (keys <= valid && |valid| <= maxCount) {
      forall o | IsSelection([], valid, maxCount, o) ensures Rebuilds(keys, previous, o) {
        SubsetSize(Elements(o.selected), valid);
        ResetIsNotPublished(shown, valid, maxCount, o, previous);
      }
    } else {
      var o := MissingDraw(keys, valid, maxCount);
      ResetIsNotPublished(shown, valid, maxCount, o, previous);
      assert !Rebuilds(keys, previous, o);
    }
  }

  // ---- stability ----

  /** A selection that needs no change: valid children only, and as many as asked for. */
  ghost predicate IsSettled(selected: seq<Key>, valid: set<Key>, maxCount: nat) {
    Elements(selected) <= valid && |Elements(selected)| == Min(maxCount, |valid|)
  }

  /** Whatever is drawn, a settled selection is returned unchanged: the second call repeats the first. */
  lemma SettledStays(selected: seq<Key>, valid: set<Key>, maxCount: nat, o: Outcome)
    requires IsSettled(selected, valid, maxCount) && IsSelection(selected, valid, maxCount, o)
    ensures !Changed(o) && o.selected == selected && forall n :: EventsOf(o, n) == []
  {
    var was, now := Elements(selected), Elements(o.selected);
    assert was * valid == was;
    SubsetSize(now * was, was);
    SubsetSize(now * was, now);
    assert now == was;
  }

  /** The count asked for decides the size; a negative one asks for all children. */
  lemma PickIsExact(before: seq<Key>, children: seq<Key>, maxCount: int, limit: nat, o: Outcome)
    requires IsSelection(before, Elements(children), limit, o)
    requires limit == if maxCount < 0 then |children| else maxCount
    ensures var now := Elements(o.selected);
            && now <= Elements(children)
            && (maxCount >= 0 ==> |now| == Min(maxCount, |Elements(children)|)
                                  && |now * Elements(before)| == Min(maxCount, |Elements(before) * Elements(children)|))
            && (maxCount < 0 ==> now == Elements(children))
  {
    ElementsAtMost(children);
    SubsetSize(Elements(o.selected), Elements(children));
  }

  lemma {:induction false} ElementsAtMost(s: seq<Key>)
    ensures |Elements(s)| <= |s|
  {
    if s != [] {
      var init, last := s[..|s| - 1], s[|s| - 1];
      ElementsAtMost(init);
      assert s == init + [last];
      assert Elements(s) == Elements(init) + {last};
    }
  }

  lemma PickSettles(before: seq<Key>, valid: set<Key>, maxCount: nat, o: Outcome)
    requires IsSelection(before, valid, maxCount, o)
    ensures IsSettled(o.selected, valid, maxCount)
  {
  }

  /** One call: the valid children and the count at the time, what came out, the count remembered. */
  datatype Call = Call(valid: set<Key>, maxCount: nat, outcome: Outcome, previous: nat)

  /** A learner's history: every call selects from the list the call before left. */
  ghost predicate IsHistory(start: seq<Key>, calls: seq<Call>)
    decreases calls
  {
    calls == [] || (
      && IsSelection(start, calls[0].valid, calls[0].maxCount, calls[0].outcome)
      && IsHistory(calls[0].outcome.selected, calls[1..]))
  }

  ghost function PublishedBy(calls: seq<Call>): seq<Event> {
    if calls == [] then [] else EventsOf(calls[0].outcome, calls[0].previous) + PublishedBy(calls[1..])
  }

  /** Over any history of libraries, counts and draws, the published events rebuild the selection. */
  lemma {:induction false} HistoryReplays(start: seq<Key>, calls: seq<Call>)
    requires IsHistory(start, calls)
    ensures Replay(Elements(start), PublishedBy(calls))
         == Elements(if calls == [] then start else calls[|calls| - 1].outcome.selected)
    decreases calls
  {
    hide Replay, EventsOf, IsSelection;
    if calls == [] {
      ReplayNone(Elements(start));
    } else {
      var c := calls[0];
      EventsReplay(start, c.valid, c.maxCount, c.outcome, c.previous);
      HistoryReplays(c.outcome.selected, calls[1..]);
      ReplaySplits(Elements(start), EventsOf(c.outcome, c.previous), PublishedBy(calls[1..]));
    }
  }
}
