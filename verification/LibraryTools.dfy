/**
 The service that imports library blocks into a course, working on the block store in place.
 */
module LibraryService {
  import opened Options
  import opened ModuleStores
  import opened LibraryImport
  import opened LibraryMirror
  import opened LibraryCollisions
  import opened LibrarySafety
  import opened LibraryReimport

  class LibraryTools {
    const store: ModuleStore
    const rt: Runtime

    constructor (store: ModuleStore, rt: Runtime)
      ensures this.store == store && this.rt == rt
    {
      this.store, this.rt := store, rt;
    }

    /** The loop over the fields of the source block. */
    method CopyFields(src: Source, existing: map<string, Value>) returns (fields: map<string, Value>)
      ensures fields == Merged(rt, src, existing) && FieldsTaken(rt, src, existing, fields)
    {
      fields := existing;
      var todo := rt.authored(src.key.blockType);
      ghost var done: set<string> := {};
      while todo != {}
        invariant todo !! done && todo + done == rt.authored(src.key.blockType)
        invariant forall f :: f in fields <==> f in existing || (f in done && f in src.fields)
        invariant forall f :: f in fields && f !in done ==> fields[f] == existing[f]
        invariant forall f :: f in fields && f in done ==> fields[f] == Authored(rt, src, f)
        decreases todo
      {
        var f :| f in todo;
        if f in src.fields || f in fields {
          fields := fields[f := Authored(rt, src, f)];
        }
        todo, done := todo - {f}, done + {f};
      }
      MergedTakesFields(rt, src, existing);
    }

    method DeleteChildren(key: Key)
      requires key in store.blocks && Prunable(store.blocks, key, Children(store.blocks, key))
      modifies store
      ensures store.blocks == Pruned(old(store.blocks), key, Children(old(store.blocks), key))
    {
      hide Pruned, Below;
      ghost var t := store.blocks;
      var existing := store.blocks[key].children;
      ghost var gone: set<Key> := {};
      PrunedNothing(t, key);
      for i := 0 to |existing|
        invariant gone == set c | c in existing[..i]
        invariant store.blocks == Pruned(t, key, gone)
      {
        var c := existing[i];
        assert c in Children(t, key) && c !in gone;
        StaysPrunable(t, key, gone, c);
        PruneMore(t, key, gone, c);
        store.DeleteItem(c, key);
        gone := gone + {c};
      }
      assert existing[..|existing|] == existing;
    }

    /**
     _import_block; false stands for the ValueError about a block with another parent.  In any case
     the change is contained; when no generated key occurs twice it is known exactly.
     */
    method ImportBlock(src: Source, parent: Key) returns (ok: bool)
      requires WellFormed(rt, store.blocks) && parent in store.blocks && rt.hasChildren(parent.blockType)
      modifies store
      ensures WellFormed(rt, store.blocks) && Contained(rt, old(store.blocks), store.blocks, src, parent)
      ensures ok ==> HasParent(store.blocks, NewKey(rt, src, parent), parent)
      ensures Unique(rt, src, parent) ==> (ok <==> NoCollision(rt, old(store.blocks), src, parent))
      ensures Unique(rt, src, parent) && ok ==>
                && NewKey(rt, src, parent) in Cleared(rt, old(store.blocks), src, parent)
                && store.blocks == Imported(rt, old(store.blocks), src, parent)
      decreases Size(src), 0
    {
      ghost var s := store.blocks;
      var key := NewKey(rt, src, parent);
      if key in store.blocks && store.blocks[key].parent != Some(parent) {
        NothingContained(rt, s, src, parent);
        return false;
      }
      PlaceBlock(src, parent);
      ParentStays(rt, s, key, parent);
      ClearedContained(rt, s, src, parent);
      ghost var t := store.blocks;
      ok := ImportKids(Kids(rt, src), key);
      BlockContained(rt, s, t, store.blocks, src, parent);
      if Unique(rt, src, parent) {
        WellFormedPlaceable(rt, s, src, parent);
        CollisionFree(rt, s, src, parent);
      }
    }

    /** Gets or creates the block, takes over the fields and deletes the old children. */
    method PlaceBlock(src: Source, parent: Key)
      requires WellFormed(rt, store.blocks) && parent in store.blocks && rt.hasChildren(parent.blockType)
      requires NewKey(rt, src, parent) in store.blocks ==> HasParent(store.blocks, NewKey(rt, src, parent), parent)
      modifies store
      ensures store.blocks == Cleared(rt, old(store.blocks), src, parent) && WellFormed(rt, store.blocks)
      ensures NewKey(rt, src, parent) in store.blocks && store.blocks[NewKey(rt, src, parent)].children == []
      ensures var key := NewKey(rt, src, parent);
              FieldsTaken(rt, src, if key in old(store.blocks) then old(store.blocks)[key].fields else map[],
                          store.blocks[key].fields)
    {
      hide WellFormed, Pruned, Merged;
      ghost var s := store.blocks;
      var key := NewKey(rt, src, parent);
      PlacedWellFormed(rt, s, src, parent);
      if key !in store.blocks {
        store.CreateChild(parent, key);
      }
      var fields := CopyFields(src, store.blocks[key].fields);
      store.UpdateFields(key, fields);
      assert store.blocks == Placed(rt, s, src, parent);
      ClearedWellFormed(rt, s, src, parent);
      ClearedTakesFields(rt, s, src, parent);
      hide Placed, Cleared, FieldsTaken;
      assert Cleared(rt, s, src, parent) == Pruned(store.blocks, key, Children(store.blocks, key)) by {
        ClearedDef(rt, s, src, parent);
      }
      if rt.hasChildren(src.key.blockType) {
        ChildrenPrunable(rt, store.blocks, key);
        DeleteChildren(key);
      } else {
        LeafIsChildless(rt, store.blocks, key);
        PrunedNone(store.blocks, key);
      }
    }

    /** The loop over the source's children. */
    method ImportKids(kids: seq<Source>, key: Key) returns (ok: bool)
      requires WellFormed(rt, store.blocks) && key in store.blocks && store.blocks[key].children == []
      requires kids != [] ==> rt.hasChildren(key.blockType)
      modifies store
      ensures WellFormed(rt, store.blocks) && KidsContained(rt, old(store.blocks), store.blocks, kids, key)
      ensures ok ==> KidsArrived(rt, store.blocks, kids, key)
      ensures UniqueAll(rt, kids, key) ==> (ok <==> NewKeysAll(rt, kids, key) !! old(store.blocks).Keys)
      ensures UniqueAll(rt, kids, key) && ok ==> store.blocks == Grafted(rt, old(store.blocks), key, kids)
      decreases SizeAll(kids), 1
    {
      hide WellFormed, KidsContained, KidsArrived, Contained, UniqueAll, Grafted;
      ghost var t := store.blocks;
      ghost var unique := UniqueAll(rt, kids, key);
      NoKidsContained(rt, t, key);
      GraftNothing(rt, t, key);
      for i := 0 to |kids|
        invariant WellFormed(rt, store.blocks) && KidsContained(rt, t, store.blocks, kids[..i], key)
        invariant KidsArrived(rt, store.blocks, kids[..i], key)
        invariant unique ==> Graftable(rt, t, key, kids[..i]) && store.blocks == Grafted(rt, t, key, kids[..i])
      {
        ghost var u := store.blocks;
        if unique {
          NextKid(rt, t, key, kids, i);
        }
        SizeOfMember(kids, i);
        KidsKeepBlock(rt, t, u, kids[..i], key);
        ok := ImportBlock(kids[i], key);
        KidStep(rt, t, u, store.blocks, kids, i, key);
        if !ok {
          SomeKidsContained(rt, t, store.blocks, kids, i + 1, key);
          if unique {
            PrefixUnique(rt, kids, i, key);
          }
          return false;
        }
        KidArrives(rt, u, store.blocks, kids, i, key);
        if unique {
          GraftNext(rt, t, key, kids, i);
        }
      }
      assert kids[..|kids|] == kids;
      ok := true;
    }

    /**
     import_from_blockstore: imports every source below dest, then deletes the children of dest
     that none of them stands for.  false stands for the errors about duplicate ids and about
     blocks with another parent; in any case nothing outside of dest changes.
     */
    method ImportFromBlockstore(dest: Key, srcs: seq<Source>) returns (ok: bool)
      requires WellFormed(rt, store.blocks) && dest in store.blocks && rt.hasChildren(dest.blockType)
      modifies store
      ensures WellFormed(rt, store.blocks) && OutsideKept(rt, old(store.blocks), store.blocks, srcs, dest)
      ensures (exists i, j :: 0 <= i < j < |srcs| && srcs[i].key == srcs[j].key) ==>
                !ok && store.blocks == old(store.blocks)
      ensures !ok ==> ChildrenAdded(rt, old(store.blocks), store.blocks, srcs, dest)
      ensures ok ==> forall c :: c in store.blocks[dest].children <==> c in Roots(rt, srcs, dest)
      ensures UniqueAll(rt, srcs, dest) ==>
                (ok <==> forall i :: 0 <= i < |srcs| ==> Clear(rt, old(store.blocks), srcs[..i], srcs[i], dest))
      ensures UniqueAll(rt, srcs, dest) && ok ==>
                && Imports(rt, old(store.blocks), srcs, dest)
                && store.blocks == FinalStore(rt, old(store.blocks), srcs, dest)
                && IsMirror(rt, old(store.blocks), store.blocks, srcs, dest)
                && CopiesAll(rt, old(store.blocks), store.blocks, srcs, dest)
      ensures UniqueAll(rt, srcs, dest) && !ok ==>
                exists i :: 0 <= i < |srcs| && StoppedAt(rt, old(store.blocks), store.blocks, srcs, i, dest)
    {
      hide WellFormed, OutsideKept, ChildrenAdded, KidsArrived, UniqueAll, FinalStore, Prunable, IsMirror, Pruned,
           Clear, StoppedAt, CopiesAll;
      ghost var s := store.blocks;
      if HasDuplicates(srcs) {
        OutsideStart(rt, s, dest);
        SomeOutside(rt, s, s, srcs, 0, dest);
        DuplicatesAreNotUnique(rt, srcs, dest);
        return false;
      }
      var existing := store.blocks[dest].children;
      ok := ImportSources(dest, srcs);
      if UniqueAll(rt, srcs, dest) {
        WellFormedReady(rt, s, dest);
        ImportSucceeds(rt, s, srcs, dest);
      }
      if !ok {
        return false;
      }
      var unused := set c | c in existing && c !in Roots(rt, srcs, dest);
      ghost var u := store.blocks;
      AddedUnused(rt, s, u, srcs, dest, unused);
      OutsideAfterCleanup(rt, s, u, srcs, dest, unused);
      PrunedWellFormed(rt, u, dest, unused);
      if UniqueAll(rt, srcs, dest) {
        ImportMirrors(rt, s, srcs, dest);
        FinalStoreDef(rt, s, srcs, dest);
        assert unused == Unused(rt, s, srcs, dest);
        MirrorCopiesAll(rt, s, FinalStore(rt, s, srcs, dest), srcs, dest);
      }
      DeleteUnused(dest, unused);
    }

    method ImportSources(dest: Key, srcs: seq<Source>) returns (ok: bool)
      requires WellFormed(rt, store.blocks) && dest in store.blocks && rt.hasChildren(dest.blockType)
      modifies store
      ensures WellFormed(rt, store.blocks) && OutsideKept(rt, old(store.blocks), store.blocks, srcs, dest)
      ensures ChildrenAdded(rt, old(store.blocks), store.blocks, srcs, dest)
      ensures ok ==> KidsArrived(rt, store.blocks, srcs, dest)
      ensures UniqueAll(rt, srcs, dest) ==> (ok <==> Imports(rt, old(store.blocks), srcs, dest))
      ensures UniqueAll(rt, srcs, dest) && ok ==> store.blocks == ImportedAll(rt, old(store.blocks), srcs, dest)
      ensures UniqueAll(rt, srcs, dest) && !ok ==>
                exists i :: 0 <= i < |srcs| && StoppedAt(rt, old(store.blocks), store.blocks, srcs, i, dest)
    {
      hide WellFormed, OutsideKept, ChildrenAdded, KidsArrived, Contained, UniqueAll, NoCollisions, ImportedAll,
           Remaining, Imports, Ready, Imported, Cleared, Unique, Reached, AllClear, StoppedAt, Clear;
      ghost var s := store.blocks;
      ghost var unique := UniqueAll(rt, srcs, dest);
      OutsideStart(rt, s, dest);
      WellFormedReady(rt, s, dest);
      if unique {
        AllRemain(rt, s, srcs, dest);
        NoneStarted(rt, s, srcs, dest);
      }
      for i := 0 to |srcs|
        invariant WellFormed(rt, store.blocks) && OutsideKept(rt, s, store.blocks, srcs[..i], dest)
        invariant ChildrenAdded(rt, s, store.blocks, srcs[..i], dest) && KidsArrived(rt, store.blocks, srcs[..i], dest)
        invariant unique ==> Remaining(rt, s, store.blocks, srcs, i, dest)
        invariant unique ==> Reached(rt, s, store.blocks, srcs[..i], dest) && AllClear(rt, s, srcs, i, dest)
      {
        ghost var u := store.blocks;
        OutsideHasDest(rt, s, u, srcs[..i], dest);
        if unique {
          NextRemaining(rt, s, u, srcs, i, dest);
          SourceTurn(rt, s, u, srcs, i, dest);
        }
        ok := ImportBlock(srcs[i], dest);
        OutsideStep(rt, s, u, store.blocks, srcs, i, dest);
        ChildrenStep(rt, s, u, store.blocks, srcs, i, dest);
        if !ok {
          SomeOutside(rt, s, store.blocks, srcs, i + 1, dest);
          if unique {
            StopsHere(rt, s, u, store.blocks, srcs, i, dest);
          }
          return false;
        }
        if unique {
          NextClear(rt, s, srcs, i, dest);
        }
        KidArrives(rt, u, store.blocks, srcs, i, dest);
      }
      if unique {
        NoneRemaining(rt, s, store.blocks, srcs, dest);
      }
      assert srcs[..|srcs|] == srcs;
      ok := true;
    }

    method DeleteUnused(dest: Key, unused: set<Key>)
      requires Prunable(store.blocks, dest, unused)
      modifies store
      ensures store.blocks == Pruned(old(store.blocks), dest, unused)
    {
      hide Pruned, Below;
      ghost var t := store.blocks;
      var rest := unused;
      ghost var gone: set<Key> := {};
      PrunedNothing(t, dest);
      while rest != {}
        invariant gone !! rest && gone + rest == unused
        invariant store.blocks == Pruned(t, dest, gone)
        decreases rest
      {
        var c :| c in rest;
        StaysPrunable(t, dest, gone, c);
        PruneMore(t, dest, gone, c);
        store.DeleteItem(c, dest);
        gone, rest := gone + {c}, rest - {c};
      }
      assert gone == unused;
    }
  }

  predicate HasDuplicates(srcs: seq<Source>) {
    exists i, j :: 0 <= i < j < |srcs| && srcs[i].key == srcs[j].key
  }

  /** The same block twice gives the same key twice. */
  lemma DuplicatesAreNotUnique(rt: Runtime, srcs: seq<Source>, dest: Key)
    requires HasDuplicates(srcs)
    ensures !UniqueAll(rt, srcs, dest)
  {
    var i, j :| 0 <= i < j < |srcs| && srcs[i].key == srcs[j].key;
    if UniqueAll(rt, srcs, dest) {
      RootsDiffer(rt, srcs, i, j, dest);
    }
  }

  /** No source of the list collides when its turn comes. */
  ghost predicate Imports(rt: Runtime, s: Blocks, srcs: seq<Source>, dest: Key) {
    Ready(rt, s, dest) && UniqueAll(rt, srcs, dest) && NoCollisions(rt, s, srcs, dest)
  }

  /** Importing all sources from s comes to importing those from i on from u. */
  ghost predicate Remaining(rt: Runtime, s: Blocks, u: Blocks, srcs: seq<Source>, i: nat, dest: Key)
    requires i <= |srcs|
  {
    && Ready(rt, s, dest) && UniqueAll(rt, srcs, dest) && Ready(rt, u, dest) && UniqueAll(rt, srcs[i..], dest)
    && (NoCollisions(rt, s, srcs, dest) <==> NoCollisions(rt, u, srcs[i..], dest))
    && (NoCollisions(rt, s, srcs, dest) ==>
          ImportedAll(rt, s, srcs, dest) == ImportedAll(rt, u, srcs[i..], dest))
  }

  lemma AllRemain(rt: Runtime, s: Blocks, srcs: seq<Source>, dest: Key)
    requires Ready(rt, s, dest) && UniqueAll(rt, srcs, dest)
    ensures Remaining(rt, s, s, srcs, 0, dest)
  {
    assert srcs[0..] == srcs;
  }

  /** The next source collides exactly if not all can be imported; otherwise the rest remains. */
  lemma NextRemaining(rt: Runtime, s: Blocks, u: Blocks, srcs: seq<Source>, i: nat, dest: Key)
    requires i < |srcs| && Remaining(rt, s, u, srcs, i, dest)
    ensures Unique(rt, srcs[i], dest) && Ready(rt, u, dest)
    ensures !NoCollision(rt, u, srcs[i], dest) ==> !Imports(rt, s, srcs, dest)
    ensures dest in u && (NoCollision(rt, u, srcs[i], dest) ==>
              && NewKey(rt, srcs[i], dest) in Cleared(rt, u, srcs[i], dest)
              && Remaining(rt, s, Imported(rt, u, srcs[i], dest), srcs, i + 1, dest))
  {
    hide Ready, Consistent, NoCollision, Imported, Cleared, NewKey, NewKeysAll, NewKeys, Unique, UniqueAll;
    var rest := srcs[i..];
    assert rest[0] == srcs[i] && rest[1..] == srcs[i + 1..];
    FirstThenRest(rt, u, rest, dest);
  }

  lemma NoneRemaining(rt: Runtime, s: Blocks, u: Blocks, srcs: seq<Source>, dest: Key)
    requires Remaining(rt, s, u, srcs, |srcs|, dest)
    ensures Imports(rt, s, srcs, dest) && u == ImportedAll(rt, s, srcs, dest)
  {
    assert srcs[|srcs|..] == [];
    NothingLeft(rt, u, dest);
  }

  lemma NoneStarted(rt: Runtime, s: Blocks, srcs: seq<Source>, dest: Key)
    requires Ready(rt, s, dest)
    ensures Reached(rt, s, s, srcs[..0], dest) && AllClear(rt, s, srcs, 0, dest)
  {
    ReachedStart(rt, s, dest);
    assert srcs[..0] == [];
  }

  lemma StopsHere(rt: Runtime, s: Blocks, u: Blocks, v: Blocks, srcs: seq<Source>, i: nat, dest: Key)
    requires i < |srcs| && UniqueAll(rt, srcs, dest) && Ready(rt, s, dest)
    requires AllClear(rt, s, srcs, i, dest) && !Clear(rt, s, srcs[..i], srcs[i], dest)
    requires Reached(rt, s, u, srcs[..i], dest) && Contained(rt, u, v, srcs[i], dest)
    ensures StoppedAt(rt, s, v, srcs, i, dest)
  {
    hide Ready, Reached, Contained, UniqueAll, AllClear, Clear, AllInstalled, LaterKept;
    ReadyConsistent(rt, s, dest);
    AllInstalledKept(rt, s, u, v, srcs, i, dest);
    assert srcs[..i + 1] == srcs[..i] + [srcs[i]];
    LaterStaysKept(rt, s, u, v, srcs[..i], srcs[i], dest);
  }
}
