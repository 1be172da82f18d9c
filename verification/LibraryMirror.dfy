/**
 What a whole import leaves: below the destination a mirror of the sources and nothing else,
 outside of it the store as it was; and importing again changes nothing.
 */
module LibraryMirror {
  import opened Options
  import opened ModuleStores
  import opened LibraryImport

  /** A destination block: it is not its own descendant, and leaf types below it have no children. */
  ghost predicate Ready(rt: Runtime, s: Blocks, dest: Key) {
    && Consistent(s) && dest in s && !StrictlyBelow(s, dest, dest)
    && forall c :: HasParent(s, c, dest) && !rt.hasChildren(c.blockType) ==> s[c].children == []
  }

  lemma ReadyImportable(rt: Runtime, s: Blocks, src: Source, dest: Key)
    requires Ready(rt, s, dest) && Unique(rt, src, dest)
    ensures Importable(rt, s, src, dest)
  {
    var key := NewKey(rt, src, dest);
    if HasParent(s, key, dest) && StrictlyBelow(s, key, key) {
      ChildAboveParent(s, dest, key);
    }
  }

  /** A key that is a child of dest, or absent, is not above dest. */
  lemma NotAbove(s: Blocks, dest: Key, key: Key)
    requires Consistent(s) && dest in s && !StrictlyBelow(s, dest, dest)
    requires key in s ==> HasParent(s, key, dest)
    ensures !Below(s, key, dest)
  {
    if Below(s, key, dest) {
      if key in s {
        ChildAboveParent(s, dest, key);
      } else {
        var n: nat :| Ancestor(s, dest, n) == Some(key);
        ChainStays(s, dest, n, key);
      }
    }
  }

  /** The block and its kids' images are in the store as the import leaves them. */
  ghost predicate Installed(rt: Runtime, t: Blocks, src: Source, dest: Key, existing: map<string, Value>) {
    var key := NewKey(rt, src, dest);
    var m := ImageAll(rt, Kids(rt, src), key);
    && key in t
    && t[key] == Block(Some(dest), Roots(rt, Kids(rt, src), key), Merged(rt, src, existing))
    && forall g :: g in m ==> g in t && t[g] == m[g]
  }

  /** What one collision-free import below dest does. */
  ghost predicate Steps(rt: Runtime, u: Blocks, v: Blocks, src: Source, dest: Key) {
    var key := NewKey(rt, src, dest);
    && Installed(rt, v, src, dest, Existing(u, key))
    && dest in u && dest in v && dest !in NewKeys(rt, src, dest)
    && v[dest] == (if key in u then u[dest] else u[dest].(children := u[dest].children + [key]))
    && (forall x :: x in u && x != dest && x != key && !StrictlyBelow(u, key, x) ==> x in v && v[x] == u[x])
    && (forall x :: x in v && x !in NewKeys(rt, src, dest) ==> x in u && !StrictlyBelow(u, key, x))
  }

  lemma ImportSteps(rt: Runtime, u: Blocks, src: Source, dest: Key)
    requires Ready(rt, u, dest) && Unique(rt, src, dest) && NoCollision(rt, u, src, dest)
    ensures Importable(rt, u, src, dest) && NewKey(rt, src, dest) in Cleared(rt, u, src, dest)
    ensures Steps(rt, u, Imported(rt, u, src, dest), src, dest)
    ensures Consistent(Imported(rt, u, src, dest))
  {
    hide Consistent, Below, NewKeysAll, UniqueAll, ImageAll, Merged, Roots, Cleared, Placed, Importable, Graftable,
         NoCollision, Imported, Steps;
    var key := NewKey(rt, src, dest);
    ReadyImportable(rt, u, src, dest);
    NoCollisionChild(rt, u, src, dest);
    ClearedFacts(rt, u, src, dest);
    CollisionFree(rt, u, src, dest);
    GraftConsistent(rt, Cleared(rt, u, src, dest), key, Kids(rt, src));
    ImportedDef(rt, u, src, dest);
    ClearedSteps(rt, u, Cleared(rt, u, src, dest), src, dest);
  }

  lemma NoCollisionChild(rt: Runtime, u: Blocks, src: Source, dest: Key)
    requires NoCollision(rt, u, src, dest)
    ensures NewKey(rt, src, dest) in u ==> HasParent(u, NewKey(rt, src, dest), dest)
  {
  }

  lemma ImportedDef(rt: Runtime, u: Blocks, src: Source, dest: Key)
    requires dest in u && NewKey(rt, src, dest) in Cleared(rt, u, src, dest)
    ensures Imported(rt, u, src, dest)
         == Grafted(rt, Cleared(rt, u, src, dest), NewKey(rt, src, dest), Kids(rt, src))
  {
  }

  lemma ClearedSteps(rt: Runtime, u: Blocks, t: Blocks, src: Source, dest: Key)
    requires Ready(rt, u, dest) && Unique(rt, src, dest) && NoCollision(rt, u, src, dest)
    requires var key := NewKey(rt, src, dest);
             && key in t
             && t[key] == Block(Some(dest), [], Merged(rt, src, Existing(u, key)))
             && (forall x :: x in t <==> x == key || (x in u && !StrictlyBelow(u, key, x)))
             && (forall x :: x in t && x != key ==> t[x] == Placed(rt, u, src, dest)[x])
    ensures Steps(rt, u, Grafted(rt, t, NewKey(rt, src, dest), Kids(rt, src)), src, dest)
  {
    hide Consistent, Below, NewKeysAll, UniqueAll, ImageAll, Merged, Roots;
    var key := NewKey(rt, src, dest);
    NotAbove(u, dest, key);
    BelowParent(u, key, dest);
    ImageAllKeys(rt, Kids(rt, src), key);
  }

  // ---- where installed blocks are ----

  /** Images in the store lie strictly below their parent. */
  lemma {:induction false} BelowImages(rt: Runtime, u: Blocks, srcs: seq<Source>, parent: Key)
    requires UniqueAll(rt, srcs, parent)
    requires forall g :: g in ImageAll(rt, srcs, parent) ==> g in u && u[g] == ImageAll(rt, srcs, parent)[g]
    ensures forall g :: g in NewKeysAll(rt, srcs, parent) ==> StrictlyBelow(u, parent, g)
    decreases SizeAll(srcs)
  {
    if srcs != [] {
      var key, kids := NewKey(rt, srcs[0], parent), Kids(rt, srcs[0]);
      ImageKeys(rt, srcs[0], parent);
      ImageAllKeys(rt, srcs[1..], parent);
      ImageAllKeys(rt, kids, key);
      BelowImages(rt, u, kids, key);
      BelowImages(rt, u, srcs[1..], parent);
      BelowParent(u, parent, parent);
      assert StrictlyBelow(u, parent, key);
      forall g | g in NewKeysAll(rt, kids, key) ensures StrictlyBelow(u, parent, g) {
        BelowParent(u, key, g);
        BelowParent(u, parent, key);
        BelowTransitive(u, parent, key, g);
      }
    }
  }

  lemma InstalledBelow(rt: Runtime, u: Blocks, src: Source, dest: Key, e: map<string, Value>)
    requires Unique(rt, src, dest) && Installed(rt, u, src, dest, e)
    ensures forall g :: g in NewKeys(rt, src, dest) ==> Below(u, NewKey(rt, src, dest), g)
    ensures forall g :: g in NewKeysAll(rt, Kids(rt, src), NewKey(rt, src, dest)) ==>
              StrictlyBelow(u, NewKey(rt, src, dest), g)
  {
    var key := NewKey(rt, src, dest);
    BelowImages(rt, u, Kids(rt, src), key);
    forall g | g in NewKeys(rt, src, dest) ensures Below(u, key, g) {
      BelowParent(u, key, g);
    }
  }

  /** Nothing else lies below an installed block. */
  lemma {:induction false} OnlyImagesBelow(rt: Runtime, t: Blocks, src: Source, dest: Key, e: map<string, Value>,
                                           x: Key, n: nat)
    requires Consistent(t) && Unique(rt, src, dest) && Installed(rt, t, src, dest, e)
    requires Ancestor(t, x, n) == Some(NewKey(rt, src, dest))
    ensures x in NewKeys(rt, src, dest)
    decreases n
  {
    var key, kids := NewKey(rt, src, dest), Kids(rt, src);
    if n > 0 {
      var q := t[x].parent.value;
      OnlyImagesBelow(rt, t, src, dest, e, q, n - 1);
      ChildOfImage(rt, t, src, dest, e, q, x);
    }
  }

  lemma ChildOfImage(rt: Runtime, t: Blocks, src: Source, dest: Key, e: map<string, Value>, q: Key, x: Key)
    requires Consistent(t) && Unique(rt, src, dest) && Installed(rt, t, src, dest, e)
    requires q in NewKeys(rt, src, dest) && HasParent(t, x, q)
    ensures x in NewKeysAll(rt, Kids(rt, src), NewKey(rt, src, dest))
  {
    var key, kids := NewKey(rt, src, dest), Kids(rt, src);
    ImageAllKeys(rt, kids, key);
    ImageAllIsForest(rt, kids, key);
    RootsAreNew(rt, kids, key);
    assert x in t[q].children;
    if q != key {
      var m := ImageAll(rt, kids, key);
      var i :| 0 <= i < |m[q].children| && m[q].children[i] == x;
      assert HasParent(m, m[q].children[i], q);
    }
  }

  // ---- a further import leaves the installed blocks ----

  /** Within the subtree of another child of dest nothing changes. */
  lemma OtherSubtreeStays(rt: Runtime, u: Blocks, v: Blocks, src: Source, dest: Key, c: Key, g: Key)
    requires Ready(rt, u, dest) && Steps(rt, u, v, src, dest) && NoCollision(rt, u, src, dest)
    requires HasParent(u, c, dest) && c != NewKey(rt, src, dest) && g in u && Below(u, c, g)
    ensures g in v && v[g] == u[g]
  {
    hide Consistent, Installed, NewKeys, NewKeysAll;
    var key := NewKey(rt, src, dest);
    if g == dest {
      ChildAboveParent(u, dest, c);
    }
    if key in u {
      SiblingsDisjoint(u, dest, c, key, g);
    } else {
      NothingBelowMissing(u, key, g);
    }
    BelowParent(u, key, g);
    BelowParent(u, key, key);
    assert g != key || key in u;
  }

  lemma InstalledStays(rt: Runtime, u: Blocks, v: Blocks, a: Source, e: map<string, Value>, src: Source, dest: Key)
    requires Ready(rt, u, dest) && Steps(rt, u, v, src, dest) && NoCollision(rt, u, src, dest)
    requires Unique(rt, a, dest) && Installed(rt, u, a, dest, e)
    requires NewKeys(rt, a, dest) !! NewKeys(rt, src, dest)
    ensures Installed(rt, v, a, dest, e)
  {
    hide Steps, Ready, NoCollision, Merged;
    var key := NewKey(rt, a, dest);
    InstalledBelow(rt, u, a, dest, e);
    ImageAllKeys(rt, Kids(rt, a), key);
    forall g | g == key || g in ImageAll(rt, Kids(rt, a), key) ensures g in v && v[g] == u[g] {
      OtherSubtreeStays(rt, u, v, src, dest, key, g);
    }
  }

  /** The destination stays ready. */
  lemma StaysReady(rt: Runtime, u: Blocks, v: Blocks, src: Source, dest: Key)
    requires Ready(rt, u, dest) && Steps(rt, u, v, src, dest) && NoCollision(rt, u, src, dest)
    requires Unique(rt, src, dest) && Consistent(v)
    ensures Ready(rt, v, dest)
  {
    var key, kids := NewKey(rt, src, dest), Kids(rt, src);
    StaysRooted(rt, u, v, src, dest);
    forall c | HasParent(v, c, dest) && !rt.hasChildren(c.blockType) ensures v[c].children == [] {
      if c != key {
        ChildOfDestIsOld(rt, u, v, src, dest, c);
      }
    }
  }

  lemma ParentsStay(rt: Runtime, u: Blocks, v: Blocks, src: Source, dest: Key)
    requires Steps(rt, u, v, src, dest)
    ensures var key := NewKey(rt, src, dest);
            forall x :: x in u && !Below(u, key, x) ==> x in v && v[x].parent == u[x].parent
  {
    var key := NewKey(rt, src, dest);
    hide Installed, NewKeys, NewKeysAll;
    forall x | x in u && !Below(u, key, x) ensures x in v && v[x].parent == u[x].parent {
      BelowParent(u, key, x);
    }
  }

  lemma StaysRooted(rt: Runtime, u: Blocks, v: Blocks, src: Source, dest: Key)
    requires Ready(rt, u, dest) && Steps(rt, u, v, src, dest) && NoCollision(rt, u, src, dest)
    ensures !StrictlyBelow(v, dest, dest)
  {
    hide Steps, NoCollision, Consistent, NewKey;
    var key := NewKey(rt, src, dest);
    NoCollisionChild(rt, u, src, dest);
    NotAbove(u, dest, key);
    ParentsStay(rt, u, v, src, dest);
    if StrictlyBelow(v, dest, dest) {
      var n: nat :| Ancestor(v, v[dest].parent.value, n) == Some(dest);
      SameChain(u, v, key, dest, n + 1);
    }
  }

  /** Apart from the imported block itself an import adds no children to dest and changes none. */
  lemma ChildOfDestIsOld(rt: Runtime, u: Blocks, v: Blocks, src: Source, dest: Key, c: Key)
    requires Steps(rt, u, v, src, dest) && Unique(rt, src, dest)
    requires Ready(rt, u, dest) && HasParent(v, c, dest) && c != NewKey(rt, src, dest)
    ensures HasParent(u, c, dest) && (c != dest ==> v[c] == u[c])
  {
    var key, kids := NewKey(rt, src, dest), Kids(rt, src);
    var m := ImageAll(rt, kids, key);
    ImageAllKeys(rt, kids, key);
    ImageAllIsForest(rt, kids, key);
    assert c !in m;
  }

  // ---- all blocks, one after the other ----

  ghost predicate NoCollisions(rt: Runtime, s: Blocks, srcs: seq<Source>, dest: Key)
    requires Ready(rt, s, dest) && UniqueAll(rt, srcs, dest)
    decreases srcs
  {
    srcs == [] || (NoCollision(rt, s, srcs[0], dest) && (
                     FirstImported(rt, s, srcs[0], dest);
                     NoCollisions(rt, Imported(rt, s, srcs[0], dest), srcs[1..], dest)))
  }

  /** The store after importing every source below dest. */
  ghost function ImportedAll(rt: Runtime, s: Blocks, srcs: seq<Source>, dest: Key): Blocks
    requires Ready(rt, s, dest) && UniqueAll(rt, srcs, dest) && NoCollisions(rt, s, srcs, dest)
    decreases srcs
  {
    if srcs == [] then s
    else
      FirstImported(rt, s, srcs[0], dest);
      ImportedAll(rt, Imported(rt, s, srcs[0], dest), srcs[1..], dest)
  }

  lemma FirstImported(rt: Runtime, s: Blocks, src: Source, dest: Key)
    requires Ready(rt, s, dest) && Unique(rt, src, dest) && NoCollision(rt, s, src, dest)
    ensures NewKey(rt, src, dest) in Cleared(rt, s, src, dest)
    ensures Ready(rt, Imported(rt, s, src, dest), dest)
  {
    ImportSteps(rt, s, src, dest);
    StaysReady(rt, s, Imported(rt, s, src, dest), src, dest);
  }

  /** The fields of an existing child of dest; other blocks are deleted before they are imported. */
  ghost function FieldsBefore(s: Blocks, key: Key, dest: Key): map<string, Value> {
    if HasParent(s, key, dest) then s[key].fields else map[]
  }

  /** Blocks outside dest, and the subtrees of children of dest still to come, are as they were. */
  ghost predicate Frames(rt: Runtime, s: Blocks, u: Blocks, done: seq<Source>, dest: Key) {
    && (forall x :: x in s && x != dest && !StrictlyBelow(s, dest, x) ==> x in u && u[x] == s[x])
    && (forall c, y :: HasParent(s, c, dest) && c !in Roots(rt, done, dest) && y in s && Below(s, c, y) ==>
          y in u && u[y] == s[y])
    && (forall x :: x in u && x !in NewKeysAll(rt, done, dest) ==> x in s && (x != dest ==> u[x] == s[x]))
  }

  /** A subtree that is as it was has the same chains. */
  lemma {:induction false} SubtreeChain(s: Blocks, u: Blocks, c: Key, y: Key, n: nat)
    requires forall z :: z in s && Below(s, c, z) ==> z in u && u[z] == s[z]
    requires y in s && Ancestor(s, y, n) == Some(c) && Consistent(s)
    ensures Ancestor(u, y, n) == Some(c)
    decreases n
  {
    if n > 0 {
      SubtreeChain(s, u, c, s[y].parent.value, n - 1);
      assert Below(s, c, y);
    }
  }

  lemma SubtreeBelow(rt: Runtime, s: Blocks, u: Blocks, done: seq<Source>, dest: Key, c: Key, y: Key)
    requires Consistent(s) && Frames(rt, s, u, done, dest)
    requires HasParent(s, c, dest) && c !in Roots(rt, done, dest) && y in s && Below(s, c, y)
    ensures Below(u, c, y) && HasParent(u, c, dest)
    ensures StrictlyBelow(s, c, y) ==> StrictlyBelow(u, c, y)
  {
    BelowParent(s, c, c);
    var n: nat :| Ancestor(s, y, n) == Some(c);
    SubtreeChain(s, u, c, y, n);
    if StrictlyBelow(s, c, y) {
      var m: nat :| Ancestor(s, s[y].parent.value, m) == Some(c);
      SubtreeChain(s, u, c, s[y].parent.value, m);
    }
  }

  ghost predicate AllInstalled(rt: Runtime, s: Blocks, u: Blocks, done: seq<Source>, dest: Key) {
    forall j :: 0 <= j < |done| ==> Installed(rt, u, done[j], dest, FieldsBefore(s, NewKey(rt, done[j], dest), dest))
  }

  /** dest itself only gets the new blocks as further children. */
  ghost predicate DestExtended(rt: Runtime, s: Blocks, u: Blocks, done: seq<Source>, dest: Key) {
    && dest in s && dest in u && dest !in NewKeysAll(rt, done, dest)
    && u[dest].parent == s[dest].parent && u[dest].fields == s[dest].fields
    && forall c :: c in u[dest].children <==> c in s[dest].children || c in Roots(rt, done, dest)
  }

  /** What holds after some of the sources have been imported, starting from s. */
  ghost predicate Reached(rt: Runtime, s: Blocks, u: Blocks, done: seq<Source>, dest: Key) {
    && Ready(rt, u, dest) && DestExtended(rt, s, u, done, dest)
    && Frames(rt, s, u, done, dest) && AllInstalled(rt, s, u, done, dest)
  }

  lemma ReachedStart(rt: Runtime, s: Blocks, dest: Key)
    requires Ready(rt, s, dest)
    ensures Reached(rt, s, s, [], dest)
  {
  }

  /** Blocks outside dest have the same ancestors, so they stay outside. */
  lemma OutsideStays(rt: Runtime, s: Blocks, u: Blocks, done: seq<Source>, dest: Key, x: Key)
    requires Consistent(s) && Frames(rt, s, u, done, dest)
    requires x in s && x != dest && !StrictlyBelow(s, dest, x)
    ensures !StrictlyBelow(u, dest, x)
  {
    BelowParent(s, dest, x);
    forall y | y in s && !Below(s, dest, y) ensures y in u && u[y].parent == s[y].parent {
      BelowParent(s, dest, y);
      BelowParent(s, dest, dest);
    }
    if StrictlyBelow(u, dest, x) {
      BelowParent(u, dest, x);
      var n: nat :| Ancestor(u, x, n) == Some(dest);
      SameChain(s, u, dest, x, n);
    }
  }

  lemma OutsideNotBelow(rt: Runtime, s: Blocks, u: Blocks, done: seq<Source>, src: Source, dest: Key, x: Key)
    requires Consistent(s) && Reached(rt, s, u, done, dest) && NoCollision(rt, u, src, dest)
    requires x in s && x != dest && !StrictlyBelow(s, dest, x)
    ensures x != NewKey(rt, src, dest) && !StrictlyBelow(u, NewKey(rt, src, dest), x)
  {
    var key := NewKey(rt, src, dest);
    OutsideStays(rt, s, u, done, dest, x);
    BelowParent(u, dest, dest);
    if StrictlyBelow(u, key, x) {
      if key in u {
        BelowParent(u, key, x);
        BelowParent(u, dest, key);
        BelowTransitive(u, dest, key, x);
      } else {
        NothingBelowMissing(u, key, x);
      }
    }
  }

  lemma RootsAppend(rt: Runtime, done: seq<Source>, src: Source, dest: Key)
    ensures Roots(rt, done + [src], dest) == Roots(rt, done, dest) + [NewKey(rt, src, dest)]
  {
  }

  lemma FramesStep(rt: Runtime, s: Blocks, u: Blocks, v: Blocks, done: seq<Source>, src: Source, dest: Key)
    requires Consistent(s) && Reached(rt, s, u, done, dest) && UniqueAll(rt, done + [src], dest)
    requires NoCollision(rt, u, src, dest) && Steps(rt, u, v, src, dest)
    ensures Frames(rt, s, v, done + [src], dest)
  {
    var key := NewKey(rt, src, dest);
    Append(rt, done, src, dest);
    RootsAppend(rt, done, src, dest);
    hide Consistent, StrictlyBelow, NewKeysAll, UniqueAll, Installed, AllInstalled;
    forall x | x in s && x != dest && !StrictlyBelow(s, dest, x) ensures x in v && v[x] == s[x] {
      OutsideNotBelow(rt, s, u, done, src, dest, x);
    }
    forall c, y | HasParent(s, c, dest) && c !in Roots(rt, done + [src], dest) && y in s && Below(s, c, y)
      ensures y in v && v[y] == s[y]
    {
      SubtreeBelow(rt, s, u, done, dest, c, y);
      OtherSubtreeStays(rt, u, v, src, dest, c, y);
    }
  }

  lemma InstalledStep(rt: Runtime, s: Blocks, u: Blocks, v: Blocks, done: seq<Source>, src: Source, dest: Key)
    requires Consistent(s) && Reached(rt, s, u, done, dest) && UniqueAll(rt, done + [src], dest)
    requires NoCollision(rt, u, src, dest) && Steps(rt, u, v, src, dest)
    ensures AllInstalled(rt, s, v, done + [src], dest)
  {
    var all := done + [src];
    Append(rt, done, src, dest);
    hide Consistent, StrictlyBelow, NewKeysAll, UniqueAll, Installed;
    KeyWasChild(rt, s, u, done, src, dest);
    forall j | 0 <= j < |all| ensures Installed(rt, v, all[j], dest, FieldsBefore(s, NewKey(rt, all[j], dest), dest)) {
      if j < |done| {
        PrefixUnique(rt, done, j, dest);
        InstalledStays(rt, u, v, done[j], FieldsBefore(s, NewKey(rt, done[j], dest), dest), src, dest);
      }
    }
  }

  lemma DestStep(rt: Runtime, s: Blocks, u: Blocks, v: Blocks, done: seq<Source>, src: Source, dest: Key)
    requires Consistent(s) && Reached(rt, s, u, done, dest) && UniqueAll(rt, done + [src], dest)
    requires NoCollision(rt, u, src, dest) && Steps(rt, u, v, src, dest)
    ensures DestExtended(rt, s, v, done + [src], dest)
  {
    Append(rt, done, src, dest);
    RootsAppend(rt, done, src, dest);
    hide Consistent, StrictlyBelow, NewKeysAll, UniqueAll, Installed;
    KeyWasChild(rt, s, u, done, src, dest);
    var key := NewKey(rt, src, dest);
    forall c ensures c in v[dest].children <==> c in u[dest].children || c == key {
    }
  }

  lemma ReachedStep(rt: Runtime, s: Blocks, u: Blocks, done: seq<Source>, src: Source, dest: Key)
    requires Consistent(s) && Reached(rt, s, u, done, dest) && UniqueAll(rt, done + [src], dest)
    requires Unique(rt, src, dest) && NoCollision(rt, u, src, dest)
    ensures NewKey(rt, src, dest) in Cleared(rt, u, src, dest)
    ensures Reached(rt, s, Imported(rt, u, src, dest), done + [src], dest)
  {
    ImportSteps(rt, u, src, dest);
    var v := Imported(rt, u, src, dest);
    hide *;
    assert Ready(rt, u, dest) by { ReachedReady(rt, s, u, done, dest); }
    StaysReady(rt, u, v, src, dest);
    FramesStep(rt, s, u, v, done, src, dest);
    InstalledStep(rt, s, u, v, done, src, dest);
    DestStep(rt, s, u, v, done, src, dest);
    ReachedParts(rt, s, v, done + [src], dest);
  }

  lemma ReachedReady(rt: Runtime, s: Blocks, u: Blocks, done: seq<Source>, dest: Key)
    requires Reached(rt, s, u, done, dest)
    ensures Ready(rt, u, dest)
  {
  }

  lemma ReadyConsistent(rt: Runtime, s: Blocks, dest: Key)
    requires Ready(rt, s, dest)
    ensures Consistent(s) && dest in s
  {
  }

  lemma ReachedParts(rt: Runtime, s: Blocks, u: Blocks, done: seq<Source>, dest: Key)
    requires Ready(rt, u, dest) && DestExtended(rt, s, u, done, dest)
    requires Frames(rt, s, u, done, dest) && AllInstalled(rt, s, u, done, dest)
    ensures Reached(rt, s, u, done, dest)
  {
  }

  /** A block that is already there when it is imported was a child of dest from the start. */
  lemma KeyWasChild(rt: Runtime, s: Blocks, u: Blocks, done: seq<Source>, src: Source, dest: Key)
    requires Consistent(s) && Reached(rt, s, u, done, dest)
    requires NoCollision(rt, u, src, dest) && NewKey(rt, src, dest) !in NewKeysAll(rt, done, dest)
    ensures var key := NewKey(rt, src, dest);
            (key in u <==> key in s[dest].children) && Existing(u, key) == FieldsBefore(s, key, dest)
            && (key in u ==> key in u[dest].children)
  {
    var key := NewKey(rt, src, dest);
    RootsAreNew(rt, done, dest);
    if HasParent(s, key, dest) {
      BelowParent(s, key, key);
    }
    if key in s[dest].children {
      var i :| 0 <= i < |s[dest].children| && s[dest].children[i] == key;
      assert HasParent(s, s[dest].children[i], dest);
    }
    if key in u {
      assert key in u[dest].children;
    }
  }

  lemma {:induction false} ReachedRest(rt: Runtime, s: Blocks, u: Blocks, done: seq<Source>, rest: seq<Source>,
                                       dest: Key)
    requires Consistent(s) && Reached(rt, s, u, done, dest)
    requires UniqueAll(rt, done + rest, dest) && UniqueAll(rt, rest, dest) && NoCollisions(rt, u, rest, dest)
    ensures Reached(rt, s, ImportedAll(rt, u, rest, dest), done + rest, dest)
    decreases rest
  {
    hide Reached, Ready, Consistent, NoCollision, Imported, Cleared, NewKeysAll, NewKeys, Unique;
    if rest == [] {
      assert done + rest == done;
    } else {
      ReachedReady(rt, s, u, done, dest);
      assert (done + rest)[..|done| + 1] == done + [rest[0]];
      assert (done + [rest[0]]) + rest[1..] == done + rest;
      PrefixUnique(rt, done + rest, |done| + 1, dest);
      FirstImported(rt, u, rest[0], dest);
      ReachedStep(rt, s, u, done, rest[0], dest);
      ReachedRest(rt, s, Imported(rt, u, rest[0], dest), done + [rest[0]], rest[1..], dest);
    }
  }

  // ---- the whole import ----

  /** The children of dest that no source stands for any more. */
  ghost function Unused(rt: Runtime, s: Blocks, srcs: seq<Source>, dest: Key): set<Key>
    requires dest in s
  {
    set c | c in s[dest].children && c !in Roots(rt, srcs, dest)
  }

  ghost function FinalStore(rt: Runtime, s: Blocks, srcs: seq<Source>, dest: Key): Blocks
    requires Ready(rt, s, dest) && UniqueAll(rt, srcs, dest) && NoCollisions(rt, s, srcs, dest)
  {
    Pruned(ImportedAll(rt, s, srcs, dest), dest, Unused(rt, s, srcs, dest))
  }

  /** Exactly the generated blocks lie below dest. */
  ghost predicate HoldsExactly(rt: Runtime, t: Blocks, srcs: seq<Source>, dest: Key) {
    forall x :: StrictlyBelow(t, dest, x) <==> x in NewKeysAll(rt, srcs, dest)
  }

  /** Outside of dest both stores have the same blocks. */
  ghost predicate SameOutside(rt: Runtime, s: Blocks, t: Blocks, srcs: seq<Source>, dest: Key) {
    && (forall x :: x in s && x != dest && !StrictlyBelow(s, dest, x) ==> x in t && t[x] == s[x])
    && (forall x :: x in t && x !in NewKeysAll(rt, srcs, dest) ==> x in s && !StrictlyBelow(s, dest, x))
  }

  /**
   t mirrors the sources below dest: the children of dest are exactly the generated keys, every
   source is installed, exactly the generated blocks lie below dest, and every other block is as
   it was in s.
   */
  ghost predicate IsMirror(rt: Runtime, s: Blocks, t: Blocks, srcs: seq<Source>, dest: Key) {
    && Consistent(t) && dest in s && dest in t && dest !in NewKeysAll(rt, srcs, dest)
    && t[dest].parent == s[dest].parent && t[dest].fields == s[dest].fields
    && (forall c :: c in t[dest].children <==> c in Roots(rt, srcs, dest))
    && AllInstalled(rt, s, t, srcs, dest)
    && HoldsExactly(rt, t, srcs, dest)
    && SameOutside(rt, s, t, srcs, dest)
  }

  lemma UnusedPrunable(rt: Runtime, s: Blocks, u: Blocks, srcs: seq<Source>, dest: Key)
    requires Consistent(s) && Reached(rt, s, u, srcs, dest)
    ensures Prunable(u, dest, Unused(rt, s, srcs, dest))
  {
    forall c | c in Unused(rt, s, srcs, dest) ensures HasParent(u, c, dest) {
      var i :| 0 <= i < |s[dest].children| && s[dest].children[i] == c;
      assert HasParent(s, s[dest].children[i], dest);
      BelowParent(s, c, c);
    }
  }

  /** Pruning the unused children leaves the installed blocks. */
  lemma PrunedInstalled(rt: Runtime, s: Blocks, u: Blocks, srcs: seq<Source>, dest: Key)
    requires Consistent(s) && Reached(rt, s, u, srcs, dest) && UniqueAll(rt, srcs, dest)
    ensures AllInstalled(rt, s, Pruned(u, dest, Unused(rt, s, srcs, dest)), srcs, dest)
  {
    var gone := Unused(rt, s, srcs, dest);
    var t := Pruned(u, dest, gone);
    UnusedPrunable(rt, s, u, srcs, dest);
    hide Frames, DestExtended, Consistent, Merged;
    forall j | 0 <= j < |srcs|
      ensures Installed(rt, t, srcs[j], dest, FieldsBefore(s, NewKey(rt, srcs[j], dest), dest))
    {
      var key, e := NewKey(rt, srcs[j], dest), FieldsBefore(s, NewKey(rt, srcs[j], dest), dest);
      PrefixUnique(rt, srcs, j, dest);
      InstalledBelow(rt, u, srcs[j], dest, e);
      ImageAllKeys(rt, Kids(rt, srcs[j]), key);
      assert Roots(rt, srcs, dest)[j] == key;
      hide UniqueAll, Unique, NewKeysAll, ImageAll;
      forall g | g == key || g in ImageAll(rt, Kids(rt, srcs[j]), key) ensures g in t && t[g] == u[g] {
        assert Below(u, key, g);
        if g == dest {
          ChildAboveParent(u, dest, key);
        }
        forall c | c in gone ensures !Below(u, c, g) {
          SiblingsDisjoint(u, dest, key, c, g);
        }
      }
    }
  }

  lemma PrunedOutside(rt: Runtime, s: Blocks, u: Blocks, srcs: seq<Source>, dest: Key, x: Key)
    requires Consistent(s) && Reached(rt, s, u, srcs, dest)
    requires x in s && x != dest && !StrictlyBelow(s, dest, x)
    ensures x in Pruned(u, dest, Unused(rt, s, srcs, dest)) && Pruned(u, dest, Unused(rt, s, srcs, dest))[x] == s[x]
  {
    var gone := Unused(rt, s, srcs, dest);
    UnusedPrunable(rt, s, u, srcs, dest);
    OutsideStays(rt, s, u, srcs, dest, x);
    BelowParent(u, dest, dest);
    forall c | c in gone ensures !Below(u, c, x) {
      if Below(u, c, x) {
        BelowParent(u, dest, c);
        BelowTransitive(u, dest, c, x);
      }
    }
  }

  /** The sources are installed in a consistent store, and dest has no other children. */
  ghost predicate Rooted(rt: Runtime, s: Blocks, t: Blocks, srcs: seq<Source>, dest: Key) {
    && Consistent(t) && dest in t && UniqueAll(rt, srcs, dest) && AllInstalled(rt, s, t, srcs, dest)
    && forall c :: c in t[dest].children <==> c in Roots(rt, srcs, dest)
  }

  /** Then exactly the generated blocks lie below dest. */
  lemma BelowIsGenerated(rt: Runtime, s: Blocks, t: Blocks, srcs: seq<Source>, dest: Key, x: Key)
    requires Rooted(rt, s, t, srcs, dest) && StrictlyBelow(t, dest, x)
    ensures x in NewKeysAll(rt, srcs, dest)
  {
    hide StrictlyBelow, NewKeysAll, NewKeys, UniqueAll, Unique, Installed;
    StrictlyBelowIsBelowChild(t, dest, x);
    var c :| c in t[dest].children && Below(t, c, x);
    var j :| 0 <= j < |srcs| && Roots(rt, srcs, dest)[j] == c;
    var n: nat :| Ancestor(t, x, n) == Some(c);
    PrefixUnique(rt, srcs, j, dest);
    OnlyImagesBelow(rt, t, srcs[j], dest, FieldsBefore(s, c, dest), x, n);
  }

  lemma GeneratedIsBelow(rt: Runtime, s: Blocks, t: Blocks, srcs: seq<Source>, dest: Key, x: Key)
    requires Rooted(rt, s, t, srcs, dest) && x in NewKeysAll(rt, srcs, dest)
    ensures StrictlyBelow(t, dest, x)
  {
    var j := OwnerOf(rt, srcs, dest, x);
    var c := NewKey(rt, srcs[j], dest);
    PrefixUnique(rt, srcs, j, dest);
    hide Consistent, NewKeysAll, NewKeys, UniqueAll, Unique, Below;
    InstalledBelow(rt, t, srcs[j], dest, FieldsBefore(s, c, dest));
    assert HasParent(t, c, dest);
    BelowParent(t, dest, dest);
    BelowParent(t, dest, c);
    BelowTransitive(t, dest, c, x);
  }

  lemma {:induction false} OwnerOf(rt: Runtime, srcs: seq<Source>, dest: Key, x: Key) returns (j: nat)
    requires x in NewKeysAll(rt, srcs, dest)
    ensures j < |srcs| && x in NewKeys(rt, srcs[j], dest)
  {
    if x in NewKeys(rt, srcs[0], dest) {
      j := 0;
    } else {
      j := OwnerOf(rt, srcs[1..], dest, x);
      j := j + 1;
    }
  }

  /** Blocks that are not generated are as they were. */
  ghost predicate OldBlocksSame(rt: Runtime, s: Blocks, t: Blocks, srcs: seq<Source>, dest: Key) {
    forall y :: y in t && y !in NewKeysAll(rt, srcs, dest) && y != dest ==> y in s && t[y] == s[y]
  }

  /** An old block has the parent it had, and is generated if that parent is dest or generated. */
  lemma StaleStep(rt: Runtime, s: Blocks, t: Blocks, srcs: seq<Source>, dest: Key, x: Key)
    requires Consistent(t) && HoldsExactly(rt, t, srcs, dest) && OldBlocksSame(rt, s, t, srcs, dest)
    requires x in t && x != dest && x !in NewKeysAll(rt, srcs, dest) && x in s && s[x].parent.Some?
    ensures var q := s[x].parent.value;
            q in t && q != dest && q !in NewKeysAll(rt, srcs, dest) && q in s
  {
    var q := s[x].parent.value;
    BelowParent(t, dest, q);
    BelowParent(t, dest, dest);
    assert !StrictlyBelow(t, dest, x);
  }

  /** Whatever was below dest and is not generated is gone. */
  lemma {:induction false} NoStale(rt: Runtime, s: Blocks, t: Blocks, srcs: seq<Source>, dest: Key, x: Key, n: nat)
    requires Consistent(t) && HoldsExactly(rt, t, srcs, dest) && OldBlocksSame(rt, s, t, srcs, dest)
    requires x in t && x != dest && x in s && s[x].parent.Some? && Ancestor(s, s[x].parent.value, n) == Some(dest)
    ensures x in NewKeysAll(rt, srcs, dest)
    decreases n
  {
    hide Consistent, HoldsExactly, OldBlocksSame, NewKeysAll;
    if x !in NewKeysAll(rt, srcs, dest) {
      StaleStep(rt, s, t, srcs, dest, x);
      NoStale(rt, s, t, srcs, dest, s[x].parent.value, n - 1);
    }
  }

  lemma NotStale(rt: Runtime, s: Blocks, t: Blocks, srcs: seq<Source>, dest: Key, x: Key)
    requires Consistent(t) && HoldsExactly(rt, t, srcs, dest) && OldBlocksSame(rt, s, t, srcs, dest)
    requires x in t && x != dest && x !in NewKeysAll(rt, srcs, dest)
    ensures x in s && !StrictlyBelow(s, dest, x)
  {
    if StrictlyBelow(s, dest, x) {
      var n: nat :| Ancestor(s, s[x].parent.value, n) == Some(dest);
      NoStale(rt, s, t, srcs, dest, x, n);
    }
  }

  /** After the import the store mirrors the sources below dest and is unchanged outside. */
  lemma ImportMirrors(rt: Runtime, s: Blocks, srcs: seq<Source>, dest: Key)
    requires Ready(rt, s, dest) && UniqueAll(rt, srcs, dest) && NoCollisions(rt, s, srcs, dest)
    ensures IsMirror(rt, s, FinalStore(rt, s, srcs, dest), srcs, dest)
  {
    ImportReached(rt, s, srcs, dest);
    ReachedMirrors(rt, s, ImportedAll(rt, s, srcs, dest), srcs, dest);
  }

  lemma ImportReached(rt: Runtime, s: Blocks, srcs: seq<Source>, dest: Key)
    requires Ready(rt, s, dest) && UniqueAll(rt, srcs, dest) && NoCollisions(rt, s, srcs, dest)
    ensures Reached(rt, s, ImportedAll(rt, s, srcs, dest), srcs, dest)
  {
    ReachedStart(rt, s, dest);
    assert [] + srcs == srcs;
    ReachedRest(rt, s, s, [], srcs, dest);
  }

  lemma PrunedRooted(rt: Runtime, s: Blocks, u: Blocks, srcs: seq<Source>, dest: Key)
    requires Ready(rt, s, dest) && Reached(rt, s, u, srcs, dest) && UniqueAll(rt, srcs, dest)
    ensures Rooted(rt, s, Pruned(u, dest, Unused(rt, s, srcs, dest)), srcs, dest)
    ensures var t := Pruned(u, dest, Unused(rt, s, srcs, dest));
            && t[dest].parent == s[dest].parent && t[dest].fields == s[dest].fields
            && dest in s && dest !in NewKeysAll(rt, srcs, dest)
            && OldBlocksSame(rt, s, t, srcs, dest)
  {
    hide NewKeysAll, UniqueAll, Below, Installed;
    var gone := Unused(rt, s, srcs, dest);
    UnusedPrunable(rt, s, u, srcs, dest);
    PrunedConsistent(u, dest, gone);
    PrunedKeepsParent(u, dest, gone);
    PrunedInstalled(rt, s, u, srcs, dest);
  }

  lemma PrunedHoldsExactly(rt: Runtime, s: Blocks, t: Blocks, srcs: seq<Source>, dest: Key)
    requires Rooted(rt, s, t, srcs, dest)
    ensures HoldsExactly(rt, t, srcs, dest)
  {
    hide Rooted, StrictlyBelow, NewKeysAll;
    forall x ensures StrictlyBelow(t, dest, x) <==> x in NewKeysAll(rt, srcs, dest) {
      if StrictlyBelow(t, dest, x) {
        BelowIsGenerated(rt, s, t, srcs, dest, x);
      } else if x in NewKeysAll(rt, srcs, dest) {
        GeneratedIsBelow(rt, s, t, srcs, dest, x);
      }
    }
  }

  lemma PrunedSameOutside(rt: Runtime, s: Blocks, u: Blocks, t: Blocks, srcs: seq<Source>, dest: Key)
    requires Ready(rt, s, dest) && Reached(rt, s, u, srcs, dest) && UniqueAll(rt, srcs, dest)
    requires t == Pruned(u, dest, Unused(rt, s, srcs, dest))
    requires Consistent(t) && HoldsExactly(rt, t, srcs, dest) && OldBlocksSame(rt, s, t, srcs, dest)
    ensures SameOutside(rt, s, t, srcs, dest)
  {
    hide Consistent, StrictlyBelow, NewKeysAll, UniqueAll, Pruned, Reached, Unused, HoldsExactly, OldBlocksSame;
    forall x | x in s && x != dest && !StrictlyBelow(s, dest, x) ensures x in t && t[x] == s[x] {
      PrunedOutside(rt, s, u, srcs, dest, x);
    }
    forall x | x in t && x !in NewKeysAll(rt, srcs, dest) ensures x in s && !StrictlyBelow(s, dest, x) {
      if x != dest {
        NotStale(rt, s, t, srcs, dest, x);
      }
    }
  }

  lemma ReachedMirrors(rt: Runtime, s: Blocks, u: Blocks, srcs: seq<Source>, dest: Key)
    requires Ready(rt, s, dest) && Reached(rt, s, u, srcs, dest) && UniqueAll(rt, srcs, dest)
    ensures IsMirror(rt, s, Pruned(u, dest, Unused(rt, s, srcs, dest)), srcs, dest)
  {
    var t := Pruned(u, dest, Unused(rt, s, srcs, dest));
    hide Consistent, StrictlyBelow, AllInstalled, NewKeysAll, UniqueAll, Pruned, Reached, Unused, HoldsExactly,
         SameOutside, OldBlocksSame;
    PrunedRooted(rt, s, u, srcs, dest);
    PrunedHoldsExactly(rt, s, t, srcs, dest);
    PrunedSameOutside(rt, s, u, t, srcs, dest);
  }
}
