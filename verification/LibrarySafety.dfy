/**
 What every library import keeps, with any sources and whether it succeeds or stops at a block
 with another parent: the store stays a forest, and nothing outside the destination changes.
 */
module LibrarySafety {
  import opened Options
  import opened ModuleStores
  import opened LibraryImport
  import opened LibraryMirror
  import opened LibraryCollisions

  // ---- well-formed stores ----

  /** Every block lies deeper than its parent. */
  ghost predicate Depths(s: Blocks, depth: map<Key, nat>) {
    forall k :: k in s ==> k in depth && (s[k].parent.Some? ==>
      s[k].parent.value in depth && depth[s[k].parent.value] < depth[k])
  }

  ghost predicate ChildlessLeaves(rt: Runtime, s: Blocks) {
    forall k :: k in s && !rt.hasChildren(k.blockType) ==> s[k].children == []
  }

  /** A store as the module store keeps it: a forest in which only some block types have children. */
  ghost predicate WellFormed(rt: Runtime, s: Blocks) {
    && Consistent(s)
    && ChildlessLeaves(rt, s)
    && exists depth :: Depths(s, depth)
  }

  lemma {:induction false} AncestorsAreHigher(s: Blocks, depth: map<Key, nat>, k: Key, n: nat)
    requires Consistent(s) && Depths(s, depth) && k in s && Ancestor(s, k, n).Some?
    ensures Ancestor(s, k, n).value in s && depth[Ancestor(s, k, n).value] + n <= depth[k]
    decreases n
  {
    if n > 0 {
      AncestorsAreHigher(s, depth, s[k].parent.value, n - 1);
    }
  }

  lemma NoCycle(rt: Runtime, s: Blocks, k: Key)
    requires WellFormed(rt, s)
    ensures !StrictlyBelow(s, k, k)
  {
    if StrictlyBelow(s, k, k) {
      var depth :| Depths(s, depth);
      var n: nat :| Ancestor(s, s[k].parent.value, n) == Some(k);
      AncestorsAreHigher(s, depth, s[k].parent.value, n);
    }
  }

  lemma WellFormedReady(rt: Runtime, s: Blocks, dest: Key)
    requires WellFormed(rt, s) && dest in s
    ensures Ready(rt, s, dest)
  {
    NoCycle(rt, s, dest);
  }

  lemma WellFormedPlaceable(rt: Runtime, s: Blocks, src: Source, parent: Key)
    requires WellFormed(rt, s) && parent in s
    ensures Placeable(rt, s, src, parent)
  {
    NoCycle(rt, s, NewKey(rt, src, parent));
  }

  lemma ChildrenPrunable(rt: Runtime, s: Blocks, p: Key)
    requires WellFormed(rt, s) && p in s
    ensures Prunable(s, p, Children(s, p))
  {
    NoCycle(rt, s, p);
    forall c | c in Children(s, p) ensures HasParent(s, c, p) {
      var i :| 0 <= i < |s[p].children| && s[p].children[i] == c;
      assert HasParent(s, s[p].children[i], p);
    }
  }

  lemma PrunedWellFormed(rt: Runtime, s: Blocks, p: Key, gone: set<Key>)
    requires WellFormed(rt, s) && Prunable(s, p, gone)
    ensures WellFormed(rt, Pruned(s, p, gone))
  {
    var depth :| Depths(s, depth);
    PrunedConsistent(s, p, gone);
    hide Consistent, Below, Prunable;
    assert Depths(Pruned(s, p, gone), depth);
  }

  lemma UpdatedWellFormed(rt: Runtime, s: Blocks, key: Key, fields: map<string, Value>)
    requires WellFormed(rt, s) && key in s
    ensures WellFormed(rt, s[key := s[key].(fields := fields)])
  {
    var depth :| Depths(s, depth);
    assert Depths(s[key := s[key].(fields := fields)], depth);
  }

  lemma CreatedWellFormed(rt: Runtime, s: Blocks, parent: Key, key: Key)
    requires WellFormed(rt, s) && parent in s && key !in s && rt.hasChildren(parent.blockType)
    ensures WellFormed(rt, WithChild(s, parent, key))
  {
    assert ChildlessLeaves(rt, WithChild(s, parent, key));
    hide Consistent, ChildlessLeaves;
    var depth :| Depths(s, depth);
    CreatedConsistent(s, parent, key, map[]);
    assert WithChild(s, parent, key)[key := Block(Some(parent), [], map[])] == WithChild(s, parent, key);
    hide Depths;
    DeeperChild(s, depth, parent, key);
  }

  lemma DeeperChild(s: Blocks, depth: map<Key, nat>, parent: Key, key: Key)
    requires Consistent(s) && Depths(s, depth) && parent in s && key !in s
    ensures Depths(WithChild(s, parent, key), depth[key := depth[parent] + 1])
  {
    NoParentMissing(s, key);
    hide Consistent;
  }

  lemma PlacedWellFormed(rt: Runtime, s: Blocks, src: Source, parent: Key)
    requires WellFormed(rt, s) && parent in s && rt.hasChildren(parent.blockType)
    requires NewKey(rt, src, parent) in s ==> HasParent(s, NewKey(rt, src, parent), parent)
    ensures WellFormed(rt, Placed(rt, s, src, parent))
  {
    hide WellFormed, Merged;
    var key := NewKey(rt, src, parent);
    if key in s {
      UpdatedWellFormed(rt, s, key, Merged(rt, src, Existing(s, key)));
    } else {
      CreatedWellFormed(rt, s, parent, key);
      UpdatedWellFormed(rt, WithChild(s, parent, key), key, Merged(rt, src, map[]));
    }
  }

  lemma NoParentMissing(s: Blocks, key: Key)
    requires Consistent(s) && key !in s
    ensures forall k :: k in s ==> s[k].parent != Some(key)
  {
  }

  // ---- one block ----

  /**
   What importing src below parent may change: the block itself, if it is a child of parent or
   new, and what is below it; parent only gets it as a further child.
   */
  ghost predicate Contained(rt: Runtime, s: Blocks, u: Blocks, src: Source, parent: Key) {
    var key := NewKey(rt, src, parent);
    && parent in s && parent in u && u[parent].parent == s[parent].parent && u[parent].fields == s[parent].fields
    && (u[parent].children == s[parent].children
        || (key !in s && u[parent].children == s[parent].children + [key]))
    && (forall x :: x in s && x != parent && !(HasParent(s, key, parent) && (x == key || StrictlyBelow(s, key, x))) ==>
          x in u && u[x] == s[x])
    && (forall x :: x in u && x != parent && x !in NewKeys(rt, src, parent) ==> x in s && u[x] == s[x])
  }

  /** What importing kids below the childless block key may change: only new blocks are added. */
  ghost predicate KidsContained(rt: Runtime, t: Blocks, u: Blocks, kids: seq<Source>, key: Key) {
    && key in t && key in u && u[key].parent == t[key].parent && u[key].fields == t[key].fields
    && (forall x :: x in t && x != key ==> x in u && u[x] == t[x])
    && (forall x :: x in u && x !in t ==> x in NewKeysAll(rt, kids, key))
    && (forall c :: c in u[key].children ==> c in Roots(rt, kids, key))
  }

  /** The kids all have a place below the block. */
  ghost predicate KidsArrived(rt: Runtime, u: Blocks, kids: seq<Source>, key: Key) {
    key in u && forall c :: c in Roots(rt, kids, key) ==> c in u[key].children
  }

  lemma NothingContained(rt: Runtime, s: Blocks, src: Source, parent: Key)
    requires parent in s
    ensures Contained(rt, s, s, src, parent)
  {
  }

  /** Chains of blocks that were there before are as they were. */
  lemma {:induction false} OldChain(t: Blocks, u: Blocks, x: Key, n: nat)
    requires Consistent(t) && x in t
    requires forall y :: y in t ==> y in u && u[y].parent == t[y].parent
    ensures Ancestor(u, x, n) == Ancestor(t, x, n)
    ensures Ancestor(t, x, n).Some? ==> Ancestor(t, x, n).value in t
    decreases n
  {
    if n > 0 && t[x].parent.Some? {
      OldChain(t, u, t[x].parent.value, n - 1);
    }
  }

  /** The next kid is new, or was imported already: no old block is at or below it. */
  lemma KidIsNew(rt: Runtime, t: Blocks, u: Blocks, kids: seq<Source>, key: Key, k: Key, x: Key)
    requires KidsContained(rt, t, u, kids, key) && WellFormed(rt, t) && t[key].children == []
    requires HasParent(u, k, key) && x in t
    ensures x != k && !StrictlyBelow(u, k, x)
  {
    NoChildrenOf(t, key, k);
    hide Consistent;
    if StrictlyBelow(u, k, x) {
      BelowParent(u, k, x);
      var n: nat :| Ancestor(u, x, n) == Some(k);
      OldChain(t, u, x, n);
    }
  }

  lemma OldBlocksKept(rt: Runtime, t: Blocks, u: Blocks, v: Blocks, done: seq<Source>, kid: Source, key: Key)
    requires KidsContained(rt, t, u, done, key) && Contained(rt, u, v, kid, key)
    requires WellFormed(rt, t) && t[key].children == []
    ensures forall x :: x in t && x != key ==> x in v && v[x] == t[x]
  {
    var k := NewKey(rt, kid, key);
    hide WellFormed, StrictlyBelow, NewKey, NewKeys, NewKeysAll, Roots;
    forall x | x in t && x != key ensures x in v && v[x] == t[x] {
      if HasParent(u, k, key) {
        KidIsNew(rt, t, u, done, key, k, x);
      }
    }
  }

  lemma KidStep(rt: Runtime, t: Blocks, u: Blocks, v: Blocks, kids: seq<Source>, i: nat, key: Key)
    requires i < |kids| && KidsContained(rt, t, u, kids[..i], key) && Contained(rt, u, v, kids[i], key)
    requires WellFormed(rt, t) && t[key].children == []
    ensures KidsContained(rt, t, v, kids[..i + 1], key)
  {
    OldBlocksKept(rt, t, u, v, kids[..i], kids[i], key);
    hide WellFormed, StrictlyBelow, NewKey, NewKeys, NewKeysAll, Roots;
    assert kids[..i + 1] == kids[..i] + [kids[i]];
    Append(rt, kids[..i], kids[i], key);
    RootsAppend(rt, kids[..i], kids[i], key);
  }

  lemma KidArrives(rt: Runtime, u: Blocks, v: Blocks, kids: seq<Source>, i: nat, key: Key)
    requires i < |kids| && KidsArrived(rt, u, kids[..i], key) && Contained(rt, u, v, kids[i], key)
    requires Consistent(v) && HasParent(v, NewKey(rt, kids[i], key), key)
    ensures KidsArrived(rt, v, kids[..i + 1], key)
  {
    assert kids[..i + 1] == kids[..i] + [kids[i]];
    RootsAppend(rt, kids[..i], kids[i], key);
  }

  lemma NoKidsContained(rt: Runtime, t: Blocks, key: Key)
    requires key in t && t[key].children == []
    ensures KidsContained(rt, t, t, [], key) && KidsArrived(rt, t, [], key)
  {
  }

  /** A failed import of some kids stays within what all of them may change. */
  lemma SomeKidsContained(rt: Runtime, t: Blocks, u: Blocks, kids: seq<Source>, i: nat, key: Key)
    requires i <= |kids| && KidsContained(rt, t, u, kids[..i], key)
    ensures KidsContained(rt, t, u, kids, key)
  {
    PrefixKeys(rt, kids, i, key);
    assert forall c :: c in Roots(rt, kids[..i], key) ==> c in Roots(rt, kids, key) by {
      forall c | c in Roots(rt, kids[..i], key) ensures c in Roots(rt, kids, key) {
        var j :| 0 <= j < i && Roots(rt, kids[..i], key)[j] == c;
        assert Roots(rt, kids, key)[j] == c;
      }
    }
  }

  lemma {:induction false} PrefixKeys(rt: Runtime, srcs: seq<Source>, i: nat, parent: Key)
    requires i <= |srcs|
    ensures NewKeysAll(rt, srcs[..i], parent) <= NewKeysAll(rt, srcs, parent)
    decreases |srcs| - i
  {
    if i == |srcs| {
      assert srcs[..i] == srcs;
    } else {
      PrefixKeys(rt, srcs, i + 1, parent);
      assert srcs[..i + 1] == srcs[..i] + [srcs[i]];
      Append(rt, srcs[..i], srcs[i], parent);
    }
  }

  /** The cleared store, block by block. */
  ghost predicate ClearedParts(rt: Runtime, s: Blocks, t: Blocks, src: Source, parent: Key) {
    var key := NewKey(rt, src, parent);
    && parent in s && parent in t && t[parent].parent == s[parent].parent && t[parent].fields == s[parent].fields
    && t[parent].children == s[parent].children + (if key in s then [] else [key])
    && HasParent(t, key, parent)
    && (forall x :: x in s && x != parent && x != key && !StrictlyBelow(s, key, x) ==> x in t && t[x] == s[x])
    && (forall x :: x in t && x != parent && x != key ==> x in s && t[x] == s[x])
  }

  lemma ClearedIsParts(rt: Runtime, s: Blocks, src: Source, parent: Key)
    requires WellFormed(rt, s) && parent in s
    requires NewKey(rt, src, parent) in s ==> HasParent(s, NewKey(rt, src, parent), parent)
    ensures ClearedParts(rt, s, Cleared(rt, s, src, parent), src, parent)
  {
    hide WellFormed, Consistent, Cleared, Placed, Placeable, StrictlyBelow, Merged, Existing, NewKey;
    var key := NewKey(rt, src, parent);
    WellFormedPlaceable(rt, s, src, parent);
    ClearedFacts(rt, s, src, parent);
    ParentStays(rt, s, key, parent);
    PlacedElsewhere(rt, s, src, parent);
  }

  lemma PlacedElsewhere(rt: Runtime, s: Blocks, src: Source, parent: Key)
    requires parent in s && parent != NewKey(rt, src, parent)
    ensures var key, p := NewKey(rt, src, parent), Placed(rt, s, src, parent);
            && p.Keys == s.Keys + {key}
            && (forall x :: x in s && x != key && x != parent ==> p[x] == s[x])
            && p[parent] == s[parent].(children := s[parent].children + if key in s then [] else [key])
  {
  }

  /** Placing and clearing the block stays within what the import may change. */
  lemma ClearedContained(rt: Runtime, s: Blocks, src: Source, parent: Key)
    requires WellFormed(rt, s) && parent in s
    requires NewKey(rt, src, parent) in s ==> HasParent(s, NewKey(rt, src, parent), parent)
    ensures Contained(rt, s, Cleared(rt, s, src, parent), src, parent)
    ensures HasParent(Cleared(rt, s, src, parent), NewKey(rt, src, parent), parent)
  {
    assert Consistent(s);
    hide WellFormed, Consistent, Cleared, StrictlyBelow, NewKey, NewKeys;
    ClearedIsParts(rt, s, src, parent);
    NothingIsBelowMissing(s, NewKey(rt, src, parent));
    OwnKey(rt, src, parent);
  }

  lemma OwnKey(rt: Runtime, src: Source, parent: Key)
    ensures NewKey(rt, src, parent) in NewKeys(rt, src, parent)
  {
  }

  lemma NothingIsBelowMissing(s: Blocks, key: Key)
    requires Consistent(s)
    ensures key !in s ==> forall x :: !StrictlyBelow(s, key, x)
  {
    if key !in s {
      forall x ensures !StrictlyBelow(s, key, x) {
        NothingBelowMissing(s, key, x);
      }
    }
  }

  /** Importing the kids of the cleared block does, too. */
  lemma BlockContained(rt: Runtime, s: Blocks, t: Blocks, u: Blocks, src: Source, parent: Key)
    requires Contained(rt, s, t, src, parent) && parent != NewKey(rt, src, parent)
    requires HasParent(t, NewKey(rt, src, parent), parent)
    requires NewKey(rt, src, parent) in s ==> HasParent(s, NewKey(rt, src, parent), parent)
    requires KidsContained(rt, t, u, Kids(rt, src), NewKey(rt, src, parent))
    ensures Contained(rt, s, u, src, parent) && HasParent(u, NewKey(rt, src, parent), parent)
  {
    hide StrictlyBelow, NewKeysAll, Roots;
  }

  /** The parent is not at or below the block. */
  lemma ParentStays(rt: Runtime, s: Blocks, key: Key, parent: Key)
    requires WellFormed(rt, s) && parent in s && (key in s ==> HasParent(s, key, parent))
    ensures Consistent(s) && parent != key && !StrictlyBelow(s, key, parent)
  {
    NoCycle(rt, s, parent);
    NotAbove(s, parent, key);
    BelowParent(s, key, parent);
  }

  // ---- all blocks ----

  /** Outside of dest every block is as it was, and below it is nothing but old and generated blocks. */
  ghost predicate OutsideKept(rt: Runtime, s: Blocks, u: Blocks, srcs: seq<Source>, dest: Key) {
    && dest in s && dest in u && u[dest].parent == s[dest].parent && u[dest].fields == s[dest].fields
    && (forall x :: x in s && x != dest && !StrictlyBelow(s, dest, x) ==> x in u && u[x] == s[x])
    && (forall x :: x in u && x != dest && x !in NewKeysAll(rt, srcs, dest) ==> x in s && u[x] == s[x])
  }

  /** The children of dest are the old ones and some of the imported ones. */
  ghost predicate ChildrenAdded(rt: Runtime, s: Blocks, u: Blocks, srcs: seq<Source>, dest: Key) {
    && dest in s && dest in u
    && (forall c :: c in s[dest].children ==> c in u[dest].children)
    && (forall c :: c in u[dest].children ==> c in s[dest].children || c in Roots(rt, srcs, dest))
  }

  lemma OutsideStart(rt: Runtime, s: Blocks, dest: Key)
    requires dest in s
    ensures OutsideKept(rt, s, s, [], dest) && ChildrenAdded(rt, s, s, [], dest) && KidsArrived(rt, s, [], dest)
  {
  }

  /** A block outside of dest is not at or below a child of dest in the store reached. */
  lemma OutsideStaysOut(rt: Runtime, s: Blocks, u: Blocks, srcs: seq<Source>, dest: Key, key: Key, x: Key)
    requires WellFormed(rt, s) && OutsideKept(rt, s, u, srcs, dest) && HasParent(u, key, dest)
    requires x in s && x != dest && !StrictlyBelow(s, dest, x)
    ensures x != key && !StrictlyBelow(u, key, x)
  {
    BelowParent(s, dest, x);
    BelowParent(u, dest, dest);
    BelowParent(u, dest, key);
    forall y | y in s && !Below(s, dest, y) ensures y in u && u[y].parent == s[y].parent {
      BelowParent(s, dest, y);
    }
    if x == key || StrictlyBelow(u, key, x) {
      BelowParent(u, key, x);
      BelowTransitive(u, dest, key, x);
      var n: nat :| Ancestor(u, x, n) == Some(dest);
      SameChain(s, u, dest, x, n);
    }
  }

  lemma OutsideStep(rt: Runtime, s: Blocks, u: Blocks, v: Blocks, srcs: seq<Source>, i: nat, dest: Key)
    requires i < |srcs| && WellFormed(rt, s) && Contained(rt, u, v, srcs[i], dest)
    requires OutsideKept(rt, s, u, srcs[..i], dest)
    ensures OutsideKept(rt, s, v, srcs[..i + 1], dest)
  {
    var key := NewKey(rt, srcs[i], dest);
    assert srcs[..i + 1] == srcs[..i] + [srcs[i]];
    Append(rt, srcs[..i], srcs[i], dest);
    hide WellFormed, StrictlyBelow, NewKeys, NewKeysAll, UniqueAll, ImageAll;
    forall x | x in s && x != dest && !StrictlyBelow(s, dest, x) ensures x in v && v[x] == s[x] {
      if HasParent(u, key, dest) {
        OutsideStaysOut(rt, s, u, srcs[..i], dest, key, x);
      }
    }
  }

  lemma ChildrenStep(rt: Runtime, s: Blocks, u: Blocks, v: Blocks, srcs: seq<Source>, i: nat, dest: Key)
    requires i < |srcs| && Contained(rt, u, v, srcs[i], dest) && ChildrenAdded(rt, s, u, srcs[..i], dest)
    ensures ChildrenAdded(rt, s, v, srcs[..i + 1], dest)
  {
    assert srcs[..i + 1] == srcs[..i] + [srcs[i]];
    RootsAppend(rt, srcs[..i], srcs[i], dest);
    hide StrictlyBelow, NewKeys, Roots;
  }

  lemma SomeOutside(rt: Runtime, s: Blocks, u: Blocks, srcs: seq<Source>, i: nat, dest: Key)
    requires i <= |srcs|
    requires OutsideKept(rt, s, u, srcs[..i], dest) && ChildrenAdded(rt, s, u, srcs[..i], dest)
    ensures OutsideKept(rt, s, u, srcs, dest) && ChildrenAdded(rt, s, u, srcs, dest)
  {
    PrefixKeys(rt, srcs, i, dest);
    forall c | c in Roots(rt, srcs[..i], dest) ensures c in Roots(rt, srcs, dest) {
      var j :| 0 <= j < i && Roots(rt, srcs[..i], dest)[j] == c;
      assert Roots(rt, srcs, dest)[j] == c;
    }
  }

  lemma UnusedArePrunable(rt: Runtime, u: Blocks, dest: Key, unused: set<Key>)
    requires WellFormed(rt, u) && dest in u && unused <= Children(u, dest)
    ensures Prunable(u, dest, unused)
  {
    ChildrenPrunable(rt, u, dest);
  }

  /** Deleting the unused children leaves exactly the imported ones, and the outside as it was. */
  lemma OutsideAfterCleanup(rt: Runtime, s: Blocks, u: Blocks, srcs: seq<Source>, dest: Key, unused: set<Key>)
    requires WellFormed(rt, s) && WellFormed(rt, u) && Prunable(u, dest, unused)
    requires OutsideKept(rt, s, u, srcs, dest) && ChildrenAdded(rt, s, u, srcs, dest) && KidsArrived(rt, u, srcs, dest)
    requires forall c :: c in unused <==> c in s[dest].children && c !in Roots(rt, srcs, dest)
    ensures var t := Pruned(u, dest, unused);
            && OutsideKept(rt, s, t, srcs, dest)
            && forall c :: c in t[dest].children <==> c in Roots(rt, srcs, dest)
  {
    PrunedKeepsParent(u, dest, unused);
    hide WellFormed, StrictlyBelow, NewKeysAll, Roots, Below;
    forall x | x in s && x != dest && !StrictlyBelow(s, dest, x)
      ensures x in Pruned(u, dest, unused) && u[x] == s[x]
    {
      forall c | c in unused ensures !Below(u, c, x) {
        OutsideStaysOut(rt, s, u, srcs, dest, c, x);
        BelowParent(u, c, x);
      }
    }
  }

  // ---- where an import stops ----

  /** The children of dest that are still to come keep their subtrees. */
  ghost predicate LaterKept(rt: Runtime, s: Blocks, u: Blocks, done: seq<Source>, dest: Key) {
    forall c, y :: HasParent(s, c, dest) && c !in Roots(rt, done, dest) && y in s && Below(s, c, y) ==>
      y in u && u[y] == s[y]
  }

  /**
   An import stopped at source i, the first that is not clear: the sources before it are installed,
   and the subtrees of the children of dest that it did not come to are as they were.
   */
  ghost predicate StoppedAt(rt: Runtime, s: Blocks, u: Blocks, srcs: seq<Source>, i: nat, dest: Key)
    requires i < |srcs|
  {
    && AllClear(rt, s, srcs, i, dest) && !Clear(rt, s, srcs[..i], srcs[i], dest)
    && AllInstalled(rt, s, u, srcs[..i], dest) && LaterKept(rt, s, u, srcs[..i + 1], dest)
  }

  /** The first n sources are clear. */
  ghost predicate AllClear(rt: Runtime, s: Blocks, srcs: seq<Source>, n: nat, dest: Key)
    requires n <= |srcs|
  {
    forall i :: 0 <= i < n ==> Clear(rt, s, srcs[..i], srcs[i], dest)
  }

  /** Below another child of dest nothing changes, even if the import stops. */
  lemma OtherChildKept(rt: Runtime, u: Blocks, v: Blocks, src: Source, dest: Key, c: Key, g: Key)
    requires Ready(rt, u, dest) && Contained(rt, u, v, src, dest)
    requires HasParent(u, c, dest) && c != NewKey(rt, src, dest) && g in u && Below(u, c, g)
    ensures g in v && v[g] == u[g]
  {
    hide Consistent, NewKeys, NewKey;
    var key := NewKey(rt, src, dest);
    if g == dest {
      ChildAboveParent(u, dest, c);
    }
    BelowParent(u, key, g);
    BelowParent(u, key, key);
    if HasParent(u, key, dest) {
      SiblingsDisjoint(u, dest, c, key, g);
    }
  }

  lemma InstalledKept(rt: Runtime, u: Blocks, v: Blocks, a: Source, e: map<string, Value>, src: Source, dest: Key)
    requires Ready(rt, u, dest) && Contained(rt, u, v, src, dest)
    requires Unique(rt, a, dest) && Installed(rt, u, a, dest, e)
    requires NewKey(rt, a, dest) != NewKey(rt, src, dest)
    ensures Installed(rt, v, a, dest, e)
  {
    hide Contained, Ready, Merged, NewKey;
    var key := NewKey(rt, a, dest);
    InstalledBelow(rt, u, a, dest, e);
    ImageAllKeys(rt, Kids(rt, a), key);
    OwnKey(rt, a, dest);
    forall g | g == key || g in ImageAll(rt, Kids(rt, a), key) ensures g in v && v[g] == u[g] {
      OtherChildKept(rt, u, v, src, dest, key, g);
    }
  }

  lemma AllInstalledKept(rt: Runtime, s: Blocks, u: Blocks, v: Blocks, srcs: seq<Source>, i: nat, dest: Key)
    requires i < |srcs| && UniqueAll(rt, srcs, dest)
    requires Reached(rt, s, u, srcs[..i], dest) && Contained(rt, u, v, srcs[i], dest)
    ensures AllInstalled(rt, s, v, srcs[..i], dest)
  {
    var done := srcs[..i];
    hide Ready, DestExtended, Frames, Installed, UniqueAll, Contained, FieldsBefore, NewKey;
    forall j | 0 <= j < i ensures Installed(rt, v, done[j], dest, FieldsBefore(s, NewKey(rt, done[j], dest), dest)) {
      PrefixUnique(rt, srcs, j, dest);
      RootsDiffer(rt, srcs, j, i, dest);
      InstalledKept(rt, u, v, done[j], FieldsBefore(s, NewKey(rt, done[j], dest), dest), srcs[i], dest);
    }
  }

  lemma LaterBlockKept(rt: Runtime, s: Blocks, u: Blocks, v: Blocks, done: seq<Source>, src: Source, dest: Key,
                       c: Key, y: Key)
    requires Consistent(s) && Reached(rt, s, u, done, dest) && Contained(rt, u, v, src, dest)
    requires HasParent(s, c, dest) && c !in Roots(rt, done + [src], dest) && y in s && Below(s, c, y)
    ensures y in v && v[y] == s[y]
  {
    assert c !in Roots(rt, done, dest) && c != NewKey(rt, src, dest) by {
      NotAmongRoots(rt, done, src, dest, c);
    }
    hide Consistent, Ready, DestExtended, AllInstalled, Contained, Below, NewKey, Roots, StrictlyBelow;
    SubtreeBelow(rt, s, u, done, dest, c, y);
    OtherChildKept(rt, u, v, src, dest, c, y);
  }

  lemma NotAmongRoots(rt: Runtime, done: seq<Source>, src: Source, dest: Key, c: Key)
    requires c !in Roots(rt, done + [src], dest)
    ensures c !in Roots(rt, done, dest) && c != NewKey(rt, src, dest)
  {
    hide Roots, NewKey;
    RootsAppend(rt, done, src, dest);
  }

  lemma LaterStaysKept(rt: Runtime, s: Blocks, u: Blocks, v: Blocks, done: seq<Source>, src: Source, dest: Key)
    requires Consistent(s) && Reached(rt, s, u, done, dest) && Contained(rt, u, v, src, dest)
    ensures LaterKept(rt, s, v, done + [src], dest)
  {
    hide Consistent, Reached, Contained, Below, NewKey, Roots, HasParent;
    forall c, y | HasParent(s, c, dest) && c !in Roots(rt, done + [src], dest) && y in s && Below(s, c, y)
      ensures y in v && v[y] == s[y]
    {
      LaterBlockKept(rt, s, u, v, done, src, dest, c, y);
    }
  }

  lemma RootsDiffer(rt: Runtime, srcs: seq<Source>, i: nat, j: nat, dest: Key)
    requires UniqueAll(rt, srcs, dest) && i < j < |srcs|
    ensures NewKey(rt, srcs[i], dest) != NewKey(rt, srcs[j], dest)
  {
    PrefixUnique(rt, srcs, j, dest);
    RootsAreNew(rt, srcs[..j], dest);
    assert Roots(rt, srcs[..j], dest)[i] == NewKey(rt, srcs[i], dest);
    OwnKey(rt, srcs[j], dest);
  }

  /** When a source's turn comes it collides exactly if it is not clear; otherwise one more is reached. */
  lemma SourceTurn(rt: Runtime, s: Blocks, u: Blocks, srcs: seq<Source>, i: nat, dest: Key)
    requires i < |srcs| && UniqueAll(rt, srcs, dest) && Ready(rt, s, dest) && Reached(rt, s, u, srcs[..i], dest)
    ensures dest in u && (NoCollision(rt, u, srcs[i], dest) <==> Clear(rt, s, srcs[..i], srcs[i], dest))
    ensures NoCollision(rt, u, srcs[i], dest) ==>
              && NewKey(rt, srcs[i], dest) in Cleared(rt, u, srcs[i], dest)
              && Reached(rt, s, Imported(rt, u, srcs[i], dest), srcs[..i + 1], dest)
  {
    hide *;
    ReachedReady(rt, s, u, srcs[..i], dest);
    ReadyConsistent(rt, u, dest);
    ReadyConsistent(rt, s, dest);
    PrefixUnique(rt, srcs, i, dest);
    PrefixUnique(rt, srcs, i + 1, dest);
    assert srcs[..i + 1] == srcs[..i] + [srcs[i]];
    ClearIsNoCollision(rt, s, u, srcs[..i], srcs[i], dest);
    if NoCollision(rt, u, srcs[i], dest) {
      ReachedStep(rt, s, u, srcs[..i], srcs[i], dest);
    }
  }

  lemma NextClear(rt: Runtime, s: Blocks, srcs: seq<Source>, i: nat, dest: Key)
    requires i < |srcs| && AllClear(rt, s, srcs, i, dest) && Clear(rt, s, srcs[..i], srcs[i], dest)
    ensures AllClear(rt, s, srcs, i + 1, dest)
  {
    hide Clear;
  }

  // ---- facts for the methods ----

  lemma ClearedWellFormed(rt: Runtime, s: Blocks, src: Source, parent: Key)
    requires parent in s && WellFormed(rt, Placed(rt, s, src, parent))
    ensures WellFormed(rt, Cleared(rt, s, src, parent))
    ensures var key := NewKey(rt, src, parent);
            key in Cleared(rt, s, src, parent) && Cleared(rt, s, src, parent)[key].children == []
  {
    hide WellFormed;
    var key, t := NewKey(rt, src, parent), Placed(rt, s, src, parent);
    ChildrenPrunable(rt, t, key);
    PrunedWellFormed(rt, t, key, Children(t, key));
    PrunedKeepsParent(t, key, Children(t, key));
    WithoutAll(t[key].children, Children(t, key));
  }

  lemma ClearedTakesFields(rt: Runtime, s: Blocks, src: Source, parent: Key)
    requires WellFormed(rt, s) && parent in s
    requires NewKey(rt, src, parent) in s ==> HasParent(s, NewKey(rt, src, parent), parent)
    ensures var key, t := NewKey(rt, src, parent), Cleared(rt, s, src, parent);
            key in t && FieldsTaken(rt, src, if key in s then s[key].fields else map[], t[key].fields)
  {
    hide WellFormed, Cleared, Placeable, Merged, FieldsTaken, NewKey;
    WellFormedPlaceable(rt, s, src, parent);
    ClearedFacts(rt, s, src, parent);
    MergedTakesFields(rt, src, Existing(s, NewKey(rt, src, parent)));
  }

  lemma ClearedDef(rt: Runtime, s: Blocks, src: Source, parent: Key)
    requires parent in s
    ensures var key, p := NewKey(rt, src, parent), Placed(rt, s, src, parent);
            Cleared(rt, s, src, parent) == Pruned(p, key, Children(p, key))
  {
  }

  lemma LeafIsChildless(rt: Runtime, s: Blocks, key: Key)
    requires WellFormed(rt, s) && key in s && !rt.hasChildren(key.blockType)
    ensures s[key].children == []
  {
  }

  lemma KidsKeepBlock(rt: Runtime, t: Blocks, u: Blocks, kids: seq<Source>, key: Key)
    requires KidsContained(rt, t, u, kids, key)
    ensures key in u
  {
  }

  lemma OutsideHasDest(rt: Runtime, s: Blocks, u: Blocks, srcs: seq<Source>, dest: Key)
    requires OutsideKept(rt, s, u, srcs, dest)
    ensures dest in u
  {
  }

  lemma AddedUnused(rt: Runtime, s: Blocks, u: Blocks, srcs: seq<Source>, dest: Key, unused: set<Key>)
    requires WellFormed(rt, u) && ChildrenAdded(rt, s, u, srcs, dest)
    requires forall c :: c in unused ==> c in s[dest].children
    ensures Prunable(u, dest, unused)
  {
    UnusedArePrunable(rt, u, dest, unused);
  }

  lemma GraftNothing(rt: Runtime, t: Blocks, key: Key)
    requires WellFormed(rt, t) && key in t && t[key].children == []
    ensures Graftable(rt, t, key, []) && Grafted(rt, t, key, []) == t
  {
    assert t[key := t[key].(children := [])] == t;
  }
}
