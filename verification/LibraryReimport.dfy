/**
 Further laws of the library import: the installed blocks are copies of the sources at every
 depth, importing again changes nothing, and generated keys differ when digests do.
 */
module LibraryReimport {
  import opened Options
  import opened ModuleStores
  import opened LibraryImport
  import opened LibraryMirror

  // ---- copies ----

  /**
   The block at key is a copy of src below parent, at every depth: the type, the fields, and the
   children in the source's order.
   */
  ghost predicate IsCopy(rt: Runtime, t: Blocks, src: Source, key: Key, parent: Key, before: map<string, Value>)
    decreases src
  {
    && key in t && key.blockType == src.key.blockType && t[key].parent == Some(parent)
    && FieldsTaken(rt, src, before, t[key].fields)
    && if rt.hasChildren(src.key.blockType) then
         |t[key].children| == |src.children|
         && forall i :: 0 <= i < |src.children| ==> IsCopy(rt, t, src.children[i], t[key].children[i], key, map[])
       else t[key].children == []
  }

  lemma {:induction false} ImagesAreCopies(rt: Runtime, t: Blocks, srcs: seq<Source>, parent: Key, i: nat)
    requires UniqueAll(rt, srcs, parent) && i < |srcs|
    requires forall g :: g in ImageAll(rt, srcs, parent) ==> g in t && t[g] == ImageAll(rt, srcs, parent)[g]
    ensures IsCopy(rt, t, srcs[i], NewKey(rt, srcs[i], parent), parent, map[])
    decreases SizeAll(srcs)
  {
    var key, kids := NewKey(rt, srcs[0], parent), Kids(rt, srcs[0]);
    ImageKeys(rt, srcs[0], parent);
    ImageAllKeys(rt, srcs[1..], parent);
    ImageAllKeys(rt, kids, key);
    hide NewKeysAll, NewKeys, Merged, IsCopy;
    if i == 0 {
      forall k | 0 <= k < |kids| ensures IsCopy(rt, t, kids[k], NewKey(rt, kids[k], key), key, map[]) {
        ImagesAreCopies(rt, t, kids, key, k);
      }
      InstalledCopies(rt, t, srcs[0], parent, map[]);
    } else {
      ImagesAreCopies(rt, t, srcs[1..], parent, i - 1);
    }
  }

  /** A block whose kids are copies is one. */
  lemma InstalledCopies(rt: Runtime, t: Blocks, src: Source, parent: Key, before: map<string, Value>)
    requires var key, kids := NewKey(rt, src, parent), Kids(rt, src);
             && key in t && t[key] == Block(Some(parent), Roots(rt, kids, key), Merged(rt, src, before))
             && forall k :: 0 <= k < |kids| ==> IsCopy(rt, t, kids[k], NewKey(rt, kids[k], key), key, map[])
    ensures IsCopy(rt, t, src, NewKey(rt, src, parent), parent, before)
  {
    MergedTakesFields(rt, src, before);
    hide Merged, FieldsTaken;
  }

  /** Every installed source is a copy, down to the leaves. */
  lemma InstalledIsCopy(rt: Runtime, t: Blocks, src: Source, dest: Key, existing: map<string, Value>)
    requires Unique(rt, src, dest) && Installed(rt, t, src, dest, existing)
    ensures IsCopy(rt, t, src, NewKey(rt, src, dest), dest, existing)
  {
    var key, kids := NewKey(rt, src, dest), Kids(rt, src);
    forall k | 0 <= k < |kids| ensures IsCopy(rt, t, kids[k], NewKey(rt, kids[k], key), key, map[]) {
      ImagesAreCopies(rt, t, kids, key, k);
    }
    hide IsCopy, Merged;
    InstalledCopies(rt, t, src, dest, existing);
  }

  /** A copy keeps the fields it had from before the import. */
  ghost predicate CopiesAll(rt: Runtime, s: Blocks, t: Blocks, srcs: seq<Source>, dest: Key) {
    forall i :: 0 <= i < |srcs| ==>
      var key := NewKey(rt, srcs[i], dest);
      IsCopy(rt, t, srcs[i], key, dest, if HasParent(s, key, dest) then s[key].fields else map[])
  }

  lemma MirrorCopiesAll(rt: Runtime, s: Blocks, t: Blocks, srcs: seq<Source>, dest: Key)
    requires IsMirror(rt, s, t, srcs, dest) && UniqueAll(rt, srcs, dest)
    ensures CopiesAll(rt, s, t, srcs, dest)
  {
    hide IsCopy, Installed, NewKey, HoldsExactly, SameOutside, Consistent;
    forall i | 0 <= i < |srcs|
      ensures var key := NewKey(rt, srcs[i], dest);
              IsCopy(rt, t, srcs[i], key, dest, if HasParent(s, key, dest) then s[key].fields else map[])
    {
      PrefixUnique(rt, srcs, i, dest);
      InstalledIsCopy(rt, t, srcs[i], dest, FieldsBefore(s, NewKey(rt, srcs[i], dest), dest));
    }
  }

  // ---- importing again ----

  lemma MergedTwice(rt: Runtime, src: Source, existing: map<string, Value>)
    ensures Merged(rt, src, Merged(rt, src, existing)) == Merged(rt, src, existing)
  {
  }

  /** Importing an installed source again changes nothing. */
  lemma ReimportOne(rt: Runtime, t: Blocks, src: Source, dest: Key, e: map<string, Value>)
    requires Ready(rt, t, dest) && Unique(rt, src, dest) && Installed(rt, t, src, dest, e)
    ensures NoCollision(rt, t, src, dest)
    ensures Importable(rt, t, src, dest) && NewKey(rt, src, dest) in Cleared(rt, t, src, dest)
    ensures Imported(rt, t, src, dest) == t
  {
    var key, kids := NewKey(rt, src, dest), Kids(rt, src);
    InstalledBelow(rt, t, src, dest, e);
    ImageAllKeys(rt, kids, key);
    ImportSteps(rt, t, src, dest);
    MergedTwice(rt, src, e);
    var v := Imported(rt, t, src, dest);
    hide Consistent, Below, UniqueAll, ImageAll, NewKeysAll, Merged, Roots, Cleared, Imported, StrictlyBelow,
         Importable;
    forall x | x in t && StrictlyBelow(t, key, x) ensures x in NewKeysAll(rt, kids, key) {
      BelowInstalled(rt, t, src, dest, e, x);
    }
    assert forall x :: x in t <==> x in v;
    assert forall x :: x in t ==> t[x] == v[x];
  }

  lemma BelowInstalled(rt: Runtime, t: Blocks, src: Source, dest: Key, e: map<string, Value>, x: Key)
    requires Ready(rt, t, dest) && Unique(rt, src, dest) && Installed(rt, t, src, dest, e)
    requires StrictlyBelow(t, NewKey(rt, src, dest), x)
    ensures x in NewKeysAll(rt, Kids(rt, src), NewKey(rt, src, dest))
  {
    var key := NewKey(rt, src, dest);
    BelowParent(t, key, x);
    var n: nat :| Ancestor(t, x, n) == Some(key);
    OnlyImagesBelow(rt, t, src, dest, e, x, n);
    if x == key {
      ReadyImportable(rt, t, src, dest);
    }
  }

  lemma {:induction false} ReimportAll(rt: Runtime, s: Blocks, t: Blocks, srcs: seq<Source>, dest: Key)
    requires Ready(rt, t, dest) && UniqueAll(rt, srcs, dest) && AllInstalled(rt, s, t, srcs, dest)
    ensures NoCollisions(rt, t, srcs, dest) && ImportedAll(rt, t, srcs, dest) == t
    decreases srcs
  {
    hide Ready, Installed, NoCollision, Imported, Cleared, Importable, NewKeysAll, NewKeys, Unique;
    if srcs != [] {
      ReimportOne(rt, t, srcs[0], dest, FieldsBefore(s, NewKey(rt, srcs[0], dest), dest));
      assert forall j :: 0 <= j < |srcs[1..]| ==> srcs[1..][j] == srcs[j + 1];
      ReimportAll(rt, s, t, srcs[1..], dest);
    }
  }

  lemma MirrorIsReady(rt: Runtime, s: Blocks, t: Blocks, srcs: seq<Source>, dest: Key)
    requires IsMirror(rt, s, t, srcs, dest)
    ensures Ready(rt, t, dest)
  {
    hide SameOutside, NewKeysAll, Below, ImageAll, Merged;
    forall c | HasParent(t, c, dest) && !rt.hasChildren(c.blockType) ensures t[c].children == [] {
      assert c in t[dest].children;
      var j :| 0 <= j < |srcs| && Roots(rt, srcs, dest)[j] == c;
      assert Installed(rt, t, srcs[j], dest, FieldsBefore(s, NewKey(rt, srcs[j], dest), dest));
    }
  }

  /** A second import of the same sources succeeds and leaves the store as the first one left it. */
  lemma ImportTwice(rt: Runtime, s: Blocks, srcs: seq<Source>, dest: Key)
    requires Ready(rt, s, dest) && UniqueAll(rt, srcs, dest) && NoCollisions(rt, s, srcs, dest)
    ensures var t := FinalStore(rt, s, srcs, dest);
            && Ready(rt, t, dest) && NoCollisions(rt, t, srcs, dest)
            && FinalStore(rt, t, srcs, dest) == t
  {
    var t := FinalStore(rt, s, srcs, dest);
    ImportMirrors(rt, s, srcs, dest);
    hide FinalStore, NoCollisions, ImportedAll, UniqueAll, NewKeysAll, SameOutside, HoldsExactly, Consistent;
    MirrorIsReady(rt, s, t, srcs, dest);
    ReimportAll(rt, s, t, srcs, dest);
    assert Unused(rt, t, srcs, dest) == {};
    PrunedNothing(t, dest);
    FinalStoreDef(rt, t, srcs, dest);
  }

  lemma FinalStoreDef(rt: Runtime, s: Blocks, srcs: seq<Source>, dest: Key)
    requires Ready(rt, s, dest) && UniqueAll(rt, srcs, dest) && NoCollisions(rt, s, srcs, dest)
    ensures FinalStore(rt, s, srcs, dest) == Pruned(ImportedAll(rt, s, srcs, dest), dest, Unused(rt, s, srcs, dest))
  {
  }

  // ---- when generated keys differ ----

  ghost function SourceKeys(rt: Runtime, srcs: seq<Source>): set<SourceKey>
    decreases SizeAll(srcs)
  {
    if srcs == [] then {}
    else {srcs[0].key} + SourceKeys(rt, Kids(rt, srcs[0])) + SourceKeys(rt, srcs[1..])
  }

  /** No source key occurs twice in the forest. */
  ghost predicate DistinctSources(rt: Runtime, srcs: seq<Source>)
    decreases SizeAll(srcs)
  {
    srcs == [] || (
      var kids := Kids(rt, srcs[0]);
      && DistinctSources(rt, kids) && DistinctSources(rt, srcs[1..])
      && srcs[0].key !in SourceKeys(rt, kids)
      && {srcs[0].key} + SourceKeys(rt, kids) !! SourceKeys(rt, srcs[1..]))
  }

  /** Blocks of the same type have digests that differ within the first ten characters. */
  ghost predicate DigestsDiffer(rt: Runtime, keys: set<SourceKey>) {
    && (forall a :: a in keys ==> |rt.digest(a.text)| >= 10)
    && (forall a, b :: a in keys && b in keys && a != b && a.blockType == b.blockType ==>
          Take10(rt.digest(a.text)) != Take10(rt.digest(b.text)))
  }

  function Last10(s: string): string { if |s| <= 10 then s else s[|s| - 10..] }

  ghost predicate MadeFrom(rt: Runtime, k: Key, a: SourceKey) {
    k.blockType == a.blockType && Last10(k.blockId) == Take10(rt.digest(a.text))
  }

  lemma NewKeyMadeFrom(rt: Runtime, src: Source, parent: Key)
    requires |rt.digest(src.key.text)| >= 10
    ensures MadeFrom(rt, NewKey(rt, src, parent), src.key)
  {
    var d := Take10(rt.digest(src.key.text));
    var id := Take10(parent.blockId) + "-" + d;
    assert id[|id| - 10..] == d;
  }

  /** Every generated key comes from a source key of the forest. */
  lemma {:induction false} KeyOrigin(rt: Runtime, srcs: seq<Source>, parent: Key, k: Key) returns (a: SourceKey)
    requires DigestsDiffer(rt, SourceKeys(rt, srcs)) && k in NewKeysAll(rt, srcs, parent)
    ensures a in SourceKeys(rt, srcs) && MadeFrom(rt, k, a)
    decreases SizeAll(srcs)
  {
    var key := NewKey(rt, srcs[0], parent);
    if k == key {
      a := srcs[0].key;
      NewKeyMadeFrom(rt, srcs[0], parent);
    } else if k in NewKeysAll(rt, Kids(rt, srcs[0]), key) {
      a := KeyOrigin(rt, Kids(rt, srcs[0]), key, k);
    } else {
      a := KeyOrigin(rt, srcs[1..], parent, k);
    }
  }

  lemma OneOrigin(rt: Runtime, keys: set<SourceKey>, k: Key, a: SourceKey, b: SourceKey)
    requires DigestsDiffer(rt, keys) && a in keys && b in keys && MadeFrom(rt, k, a) && MadeFrom(rt, k, b)
    ensures a == b
  {
  }

  /** Different source keys with different digests give different generated keys. */
  lemma {:induction false} DigestsGiveUniqueKeys(rt: Runtime, srcs: seq<Source>, parent: Key)
    requires DistinctSources(rt, srcs) && DigestsDiffer(rt, SourceKeys(rt, srcs))
    ensures UniqueAll(rt, srcs, parent)
    decreases SizeAll(srcs)
  {
    if srcs != [] {
      var all, first := SourceKeys(rt, srcs), srcs[0].key;
      var key, kids := NewKey(rt, srcs[0], parent), Kids(rt, srcs[0]);
      DigestsGiveUniqueKeys(rt, kids, key);
      DigestsGiveUniqueKeys(rt, srcs[1..], parent);
      NewKeyMadeFrom(rt, srcs[0], parent);
      hide MadeFrom, UniqueAll;
      if key in NewKeysAll(rt, kids, key) {
        var a := KeyOrigin(rt, kids, key, key);
        OneOrigin(rt, all, key, a, first);
      }
      forall k | k in NewKeys(rt, srcs[0], parent) ensures k !in NewKeysAll(rt, srcs[1..], parent) {
        if k in NewKeysAll(rt, srcs[1..], parent) {
          var b := KeyOrigin(rt, srcs[1..], parent, k);
          var a := first;
          if k != key {
            a := KeyOrigin(rt, kids, key, k);
          }
          OneOrigin(rt, all, k, a, b);
        }
      }
      JoinUnique(rt, srcs, parent);
    }
  }

  lemma JoinUnique(rt: Runtime, srcs: seq<Source>, parent: Key)
    requires srcs != [] && UniqueAll(rt, srcs[1..], parent)
    requires var key := NewKey(rt, srcs[0], parent);
             UniqueAll(rt, Kids(rt, srcs[0]), key) && key !in NewKeysAll(rt, Kids(rt, srcs[0]), key)
    requires NewKeys(rt, srcs[0], parent) !! NewKeysAll(rt, srcs[1..], parent)
    ensures UniqueAll(rt, srcs, parent)
  {
    assert Unique(rt, srcs[0], parent);
  }
}
