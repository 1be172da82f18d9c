/**
 When a library import succeeds, as a condition on the store before it: every generated key that
 exists already belongs to the block it is generated for, or is deleted before its turn comes.
 */
module LibraryCollisions {
  import opened Options
  import opened ModuleStores
  import opened LibraryImport
  import opened LibraryMirror

  /** The imports done so far delete x: it lies below a child of dest that is imported again. */
  ghost predicate Displaced(rt: Runtime, s: Blocks, done: seq<Source>, dest: Key, x: Key) {
    exists c :: c in Roots(rt, done, dest) && HasParent(s, c, dest) && StrictlyBelow(s, c, x)
  }

  /** Before the import of src, each of its keys that exists is displaced or in its place. */
  ghost predicate Clear(rt: Runtime, s: Blocks, done: seq<Source>, src: Source, dest: Key) {
    var key := NewKey(rt, src, dest);
    forall g :: g in NewKeys(rt, src, dest) && g in s ==>
      || Displaced(rt, s, done, dest, g)
      || (HasParent(s, key, dest) && (g == key || StrictlyBelow(s, key, g)))
  }

  // ---- what is still there when a block's turn comes ----

  /** An old block that is still there has an old parent that is still there. */
  lemma OldParent(rt: Runtime, s: Blocks, u: Blocks, done: seq<Source>, dest: Key, x: Key)
    requires Reached(rt, s, u, done, dest) && UniqueAll(rt, done, dest)
    requires x in u && x !in NewKeysAll(rt, done, dest) && x != dest && s[x].parent.Some?
    ensures u[x] == s[x] && s[x].parent.value in u && s[x].parent.value !in NewKeysAll(rt, done, dest)
  {
    var q := s[x].parent.value;
    if q in NewKeysAll(rt, done, dest) {
      var j := OwnerOf(rt, done, dest, q);
      var key := NewKey(rt, done[j], dest);
      PrefixUnique(rt, done, j, dest);
      assert Installed(rt, u, done[j], dest, FieldsBefore(s, key, dest));
      ChildOfImage(rt, u, done[j], dest, FieldsBefore(s, key, dest), q, x);
    }
  }

  lemma {:induction false} StillThereChain(rt: Runtime, s: Blocks, u: Blocks, done: seq<Source>, dest: Key,
                                           x: Key, c: Key, n: nat)
    requires Ready(rt, s, dest) && Reached(rt, s, u, done, dest) && UniqueAll(rt, done, dest)
    requires x in u && x !in NewKeysAll(rt, done, dest) && x in s
    requires c in Roots(rt, done, dest) && HasParent(s, c, dest)
    ensures Ancestor(s, x, n) != Some(c)
    decreases n
  {
    hide Ready, Reached, UniqueAll, NewKeysAll;
    RootsAreNew(rt, done, dest);
    if n > 0 && s[x].parent.Some? && Ancestor(s, x, n) == Some(c) {
      if x == dest {
        DestNotBelowChild(rt, s, dest, c, n);
      } else {
        OldParent(rt, s, u, done, dest, x);
        StillInStart(rt, s, u, done, dest, s[x].parent.value);
        StillThereChain(rt, s, u, done, dest, s[x].parent.value, c, n - 1);
      }
    }
  }

  lemma DestNotBelowChild(rt: Runtime, s: Blocks, dest: Key, c: Key, n: nat)
    requires Ready(rt, s, dest) && HasParent(s, c, dest)
    ensures Ancestor(s, dest, n) != Some(c)
  {
    if Ancestor(s, dest, n) == Some(c) {
      ChildAboveParent(s, dest, c);
    }
  }

  lemma StillInStart(rt: Runtime, s: Blocks, u: Blocks, done: seq<Source>, dest: Key, x: Key)
    requires Reached(rt, s, u, done, dest) && x in u && x !in NewKeysAll(rt, done, dest)
    ensures x in s && (x != dest ==> u[x] == s[x])
  {
  }

  /** An old block is still there exactly when it is not displaced. */
  lemma StillThere(rt: Runtime, s: Blocks, u: Blocks, done: seq<Source>, dest: Key, x: Key)
    requires Ready(rt, s, dest) && Reached(rt, s, u, done, dest) && UniqueAll(rt, done, dest)
    requires x in s && x !in NewKeysAll(rt, done, dest)
    ensures x in u <==> !Displaced(rt, s, done, dest, x)
  {
    RootsAreNew(rt, done, dest);
    if x in u && Displaced(rt, s, done, dest, x) {
      var c :| c in Roots(rt, done, dest) && HasParent(s, c, dest) && StrictlyBelow(s, c, x);
      BelowParent(s, c, x);
      var n: nat :| Ancestor(s, x, n) == Some(c);
      StillThereChain(rt, s, u, done, dest, x, c, n);
    }
    if !Displaced(rt, s, done, dest, x) && x != dest && StrictlyBelow(s, dest, x) {
      StrictlyBelowIsBelowChild(s, dest, x);
      var c :| c in s[dest].children && Below(s, c, x);
      var i :| 0 <= i < |s[dest].children| && s[dest].children[i] == c;
      assert HasParent(s, s[dest].children[i], dest);
      BelowParent(s, c, x);
    }
  }

  /** Below a child of dest that is still to come, the chains are the old ones. */
  lemma {:induction false} SameSubtree(rt: Runtime, s: Blocks, u: Blocks, done: seq<Source>, dest: Key,
                                       key: Key, g: Key, n: nat)
    requires Ready(rt, s, dest) && Reached(rt, s, u, done, dest) && UniqueAll(rt, done, dest)
    requires HasParent(u, key, dest) && key !in NewKeysAll(rt, done, dest)
    requires g in u && Ancestor(u, g, n) == Some(key)
    ensures Ancestor(s, g, n) == Some(key)
    decreases n
  {
    hide Ready, Reached, UniqueAll, NewKeysAll;
    if n > 0 {
      var q := u[g].parent.value;
      SubtreeIsOld(rt, s, u, done, dest, key, g);
      SameSubtree(rt, s, u, done, dest, key, q, n - 1);
    }
  }

  lemma SubtreeIsOld(rt: Runtime, s: Blocks, u: Blocks, done: seq<Source>, dest: Key, key: Key, g: Key)
    requires Ready(rt, s, dest) && Reached(rt, s, u, done, dest) && UniqueAll(rt, done, dest)
    requires HasParent(u, key, dest) && key !in NewKeysAll(rt, done, dest) && g in u && Below(u, key, g)
    ensures g in s && u[g] == s[g] && (u[g].parent.Some? ==> u[g].parent.value in u)
  {
    if g in NewKeysAll(rt, done, dest) {
      var j := OwnerOf(rt, done, dest, g);
      var other := NewKey(rt, done[j], dest);
      PrefixUnique(rt, done, j, dest);
      RootsAreNew(rt, done, dest);
      assert Installed(rt, u, done[j], dest, FieldsBefore(s, other, dest));
      assert Roots(rt, done, dest)[j] == other;
      InstalledBelow(rt, u, done[j], dest, FieldsBefore(s, other, dest));
      SiblingsDisjoint(u, dest, key, other, g);
    }
    if g == dest {
      ChildAboveParent(u, dest, key);
    }
  }

  /** The import of a block succeeds exactly when its keys are clear in the store before everything. */
  lemma ClearIsNoCollision(rt: Runtime, s: Blocks, u: Blocks, done: seq<Source>, src: Source, dest: Key)
    requires Ready(rt, s, dest) && Reached(rt, s, u, done, dest) && UniqueAll(rt, done, dest)
    requires NewKeysAll(rt, done, dest) !! NewKeys(rt, src, dest) && Unique(rt, src, dest)
    ensures NoCollision(rt, u, src, dest) <==> Clear(rt, s, done, src, dest)
  {
    if Clear(rt, s, done, src, dest) {
      ClearGivesNoCollision(rt, s, u, done, src, dest);
    }
    if NoCollision(rt, u, src, dest) {
      NoCollisionGivesClear(rt, s, u, done, src, dest);
    }
  }

  lemma ClearGivesNoCollision(rt: Runtime, s: Blocks, u: Blocks, done: seq<Source>, src: Source, dest: Key)
    requires Ready(rt, s, dest) && Reached(rt, s, u, done, dest) && UniqueAll(rt, done, dest)
    requires NewKeysAll(rt, done, dest) !! NewKeys(rt, src, dest) && Unique(rt, src, dest)
    requires Clear(rt, s, done, src, dest)
    ensures NoCollision(rt, u, src, dest)
  {
    var key, kids := NewKey(rt, src, dest), Kids(rt, src);
    RootsAreNew(rt, done, dest);
    BelowParent(s, dest, dest);
    forall g | g in NewKeys(rt, src, dest) && g in u
      ensures HasParent(s, key, dest) && (g == key || StrictlyBelow(s, key, g))
    {
      StillInStart(rt, s, u, done, dest, g);
      StillThere(rt, s, u, done, dest, g);
    }
    if key in u {
      StillInStart(rt, s, u, done, dest, key);
    }
    forall g | g in NewKeysAll(rt, kids, key) && g in u ensures StrictlyBelow(u, key, g) {
      BelowParent(s, key, g);
      StillInStart(rt, s, u, done, dest, g);
      SubtreeBelow(rt, s, u, done, dest, key, g);
    }
  }

  lemma NoCollisionGivesClear(rt: Runtime, s: Blocks, u: Blocks, done: seq<Source>, src: Source, dest: Key)
    requires Ready(rt, s, dest) && Reached(rt, s, u, done, dest) && UniqueAll(rt, done, dest)
    requires NewKeysAll(rt, done, dest) !! NewKeys(rt, src, dest) && Unique(rt, src, dest)
    requires NoCollision(rt, u, src, dest)
    ensures Clear(rt, s, done, src, dest)
  {
    var key, kids := NewKey(rt, src, dest), Kids(rt, src);
    forall g | g in NewKeys(rt, src, dest) && g in s && !Displaced(rt, s, done, dest, g)
      ensures HasParent(s, key, dest) && (g == key || StrictlyBelow(s, key, g))
    {
      StillThere(rt, s, u, done, dest, g);
      if g != key {
        if key !in u {
          NothingBelowMissing(u, key, g);
        }
        var n: nat :| Ancestor(u, u[g].parent.value, n) == Some(key);
        assert Ancestor(u, g, n + 1) == Some(key);
        SubtreeIsOld(rt, s, u, done, dest, key, g);
        SameSubtree(rt, s, u, done, dest, key, u[g].parent.value, n);
      }
      BelowParent(u, key, key);
      SubtreeIsOld(rt, s, u, done, dest, key, key);
    }
  }

  // ---- the whole import ----

  lemma {:induction false} RestClear(rt: Runtime, s: Blocks, u: Blocks, done: seq<Source>, rest: seq<Source>, dest: Key)
    requires Ready(rt, s, dest) && Reached(rt, s, u, done, dest) && Ready(rt, u, dest)
    requires UniqueAll(rt, done + rest, dest) && UniqueAll(rt, rest, dest)
    ensures NoCollisions(rt, u, rest, dest)
       <==> forall i :: 0 <= i < |rest| ==> Clear(rt, s, done + rest[..i], rest[i], dest)
    decreases rest
  {
    hide *;
    if rest == [] {
      NothingLeft(rt, u, dest);
    } else {
      FirstThenRest(rt, u, rest, dest);
      ShiftClear(rt, s, done, rest, dest);
      FirstClear(rt, s, u, done, rest, dest);
      if NoCollision(rt, u, rest[0], dest) {
        FirstReached(rt, s, u, done, rest, dest);
        RestClear(rt, s, Imported(rt, u, rest[0], dest), done + [rest[0]], rest[1..], dest);
      }
    }
  }

  lemma NothingLeft(rt: Runtime, u: Blocks, dest: Key)
    requires Ready(rt, u, dest) && UniqueAll(rt, [], dest)
    ensures NoCollisions(rt, u, [], dest)
  {
  }

  lemma FirstThenRest(rt: Runtime, u: Blocks, rest: seq<Source>, dest: Key)
    requires Ready(rt, u, dest) && UniqueAll(rt, rest, dest) && rest != []
    ensures Unique(rt, rest[0], dest) && UniqueAll(rt, rest[1..], dest) && Consistent(u) && dest in u
    ensures NoCollision(rt, u, rest[0], dest) ==>
              && NewKey(rt, rest[0], dest) in Cleared(rt, u, rest[0], dest)
              && Ready(rt, Imported(rt, u, rest[0], dest), dest)
    ensures NoCollisions(rt, u, rest, dest) <==>
              && NoCollision(rt, u, rest[0], dest)
              && NoCollisions(rt, Imported(rt, u, rest[0], dest), rest[1..], dest)
  {
    hide Ready, Consistent, NoCollision, Imported, Cleared, NewKey, NewKeysAll, NewKeys, Unique;
    ReadyConsistent(rt, u, dest);
    if NoCollision(rt, u, rest[0], dest) {
      FirstImported(rt, u, rest[0], dest);
    }
  }

  lemma FirstClear(rt: Runtime, s: Blocks, u: Blocks, done: seq<Source>, rest: seq<Source>, dest: Key)
    requires Ready(rt, s, dest) && Reached(rt, s, u, done, dest) && Ready(rt, u, dest)
    requires UniqueAll(rt, done + rest, dest) && rest != []
    ensures Unique(rt, rest[0], dest) && Consistent(u) && dest in u
    ensures NoCollision(rt, u, rest[0], dest) <==> Clear(rt, s, done, rest[0], dest)
  {
    hide *;
    ReadyConsistent(rt, u, dest);
    assert (done + rest)[..|done|] == done;
    PrefixUnique(rt, done + rest, |done|, dest);
    ClearIsNoCollision(rt, s, u, done, rest[0], dest);
  }

  lemma FirstReached(rt: Runtime, s: Blocks, u: Blocks, done: seq<Source>, rest: seq<Source>, dest: Key)
    requires Ready(rt, s, dest) && Reached(rt, s, u, done, dest) && Ready(rt, u, dest)
    requires UniqueAll(rt, done + rest, dest) && rest != [] && Unique(rt, rest[0], dest) && Consistent(u) && dest in u
    requires NoCollision(rt, u, rest[0], dest)
    ensures NewKey(rt, rest[0], dest) in Cleared(rt, u, rest[0], dest)
    ensures Reached(rt, s, Imported(rt, u, rest[0], dest), done + [rest[0]], dest)
    ensures UniqueAll(rt, done + [rest[0]] + rest[1..], dest)
  {
    hide *;
    ReadyConsistent(rt, s, dest);
    assert (done + rest)[..|done| + 1] == done + [rest[0]] && done + [rest[0]] + rest[1..] == done + rest;
    PrefixUnique(rt, done + rest, |done| + 1, dest);
    ReachedStep(rt, s, u, done, rest[0], dest);
  }

  /** Reading the condition for the rest after one more source. */
  lemma ShiftClear(rt: Runtime, s: Blocks, done: seq<Source>, rest: seq<Source>, dest: Key)
    requires rest != []
    ensures (forall i :: 0 <= i < |rest| ==> Clear(rt, s, done + rest[..i], rest[i], dest))
       <==> Clear(rt, s, done, rest[0], dest)
            && forall i :: 0 <= i < |rest[1..]| ==>
                 Clear(rt, s, done + [rest[0]] + rest[1..][..i], rest[1..][i], dest)
  {
    hide Clear;
    assert done + rest[..0] == done;
    forall i | 0 <= i < |rest[1..]|
      ensures done + [rest[0]] + rest[1..][..i] == done + rest[..i + 1] && rest[1..][i] == rest[i + 1]
    {
    }
    if forall i :: 0 <= i < |rest[1..]| ==> Clear(rt, s, done + [rest[0]] + rest[1..][..i], rest[1..][i], dest) {
      forall i | 1 <= i < |rest| ensures Clear(rt, s, done + rest[..i], rest[i], dest) {
        assert Clear(rt, s, done + [rest[0]] + rest[1..][..i - 1], rest[1..][i - 1], dest);
      }
    }
  }

  /** An import of all sources succeeds exactly when each of them is clear, in their order. */
  lemma ImportSucceeds(rt: Runtime, s: Blocks, srcs: seq<Source>, dest: Key)
    requires Ready(rt, s, dest) && UniqueAll(rt, srcs, dest)
    ensures NoCollisions(rt, s, srcs, dest)
       <==> forall i :: 0 <= i < |srcs| ==> Clear(rt, s, srcs[..i], srcs[i], dest)
  {
    ReachedStart(rt, s, dest);
    assert [] + srcs == srcs && forall i :: 0 <= i <= |srcs| ==> [] + srcs[..i] == srcs[..i];
    RestClear(rt, s, s, [], srcs, dest);
  }
}
