/**
 import_from_blockstore: copying library blocks, recursively, under a block of a course.
 Keys of copies are generated from the source keys; a copy that exists already is updated in
 place, its old children are deleted and imported again.
 */
module LibraryImport {
  import opened Options
  import opened Collections
  import opened ModuleStores

  datatype SourceKey = SourceKey(blockType: string, text: string)

  /** A source block: the fields set on it, and its children. */
  datatype Source = Source(key: SourceKey, fields: map<string, Value>, children: seq<Source>)

  /** What the import takes from its environment. */
  datatype Runtime = Runtime(
    digest: string -> string,
    hasChildren: string -> bool,
    authored: string -> set<string>,
    defaultOf: (string, string) -> Value,
    rewrite: (SourceKey, Value) -> Value)

  function Take10(s: string): string { if |s| <= 10 then s else s[..10] }

  /** generate_block_key */
  function NewKey(rt: Runtime, src: Source, parent: Key): Key {
    Key(src.key.blockType, Take10(parent.blockId) + "-" + Take10(rt.digest(src.key.text)))
  }

  function Size(src: Source): (n: nat)
    ensures n >= 1
    decreases src, 1
  {
    1 + SizeAll(src.children)
  }

  function SizeAll(srcs: seq<Source>): nat
    decreases srcs, 0
  {
    if srcs == [] then 0 else Size(srcs[0]) + SizeAll(srcs[1..])
  }

  /** The children that are imported: none when the block type has no children. */
  function Kids(rt: Runtime, src: Source): (r: seq<Source>)
    ensures SizeAll(r) < Size(src)
  {
    if rt.hasChildren(src.key.blockType) then src.children else []
  }

  lemma {:induction false} SizeOfMember(srcs: seq<Source>, i: nat)
    requires i < |srcs|
    ensures Size(srcs[i]) <= SizeAll(srcs)
  {
    if i > 0 {
      SizeOfMember(srcs[1..], i - 1);
    }
  }

  /** The value of a field on the source, or its default, with asset links rewritten. */
  function Authored(rt: Runtime, src: Source, field: string): Value {
    rt.rewrite(src.key, if field in src.fields then src.fields[field] else rt.defaultOf(src.key.blockType, field))
  }

  /** The fields of a copy: authored fields set on the source or already on the copy are taken over. */
  function Merged(rt: Runtime, src: Source, existing: map<string, Value>): map<string, Value> {
    var authored := rt.authored(src.key.blockType);
    map f | f in existing.Keys + authored * src.fields.Keys ::
      if f in authored then Authored(rt, src, f) else existing[f]
  }

  /**
   The fields of a copy, given those it had before: fields that are not authored stay, authored
   ones set on the source are taken from it, and others the copy has are set to the default.
   */
  ghost predicate FieldsTaken(rt: Runtime, src: Source, before: map<string, Value>, after: map<string, Value>) {
    var authored := rt.authored(src.key.blockType);
    && (forall f :: f in after <==> f in before || (f in authored && f in src.fields))
    && (forall f :: f in before && f !in authored ==> after[f] == before[f])
    && (forall f :: f in authored && f in src.fields ==> after[f] == rt.rewrite(src.key, src.fields[f]))
    && (forall f :: f in before && f in authored && f !in src.fields ==>
          after[f] == rt.rewrite(src.key, rt.defaultOf(src.key.blockType, f)))
  }

  lemma MergedTakesFields(rt: Runtime, src: Source, before: map<string, Value>)
    ensures FieldsTaken(rt, src, before, Merged(rt, src, before))
  {
  }

  // ---- generated keys ----

  /** A generated key has the source's type, and at most ten characters each of the parent's id and the digest. */
  lemma KeysGenerated(rt: Runtime, src: Source, parent: Key)
    ensures var key, d, p := NewKey(rt, src, parent), rt.digest(src.key.text), parent.blockId;
            && key.blockType == src.key.blockType
            && |key.blockId| == Min(10, |p|) + 1 + Min(10, |d|)
            && key.blockId[..Min(10, |p|)] == p[..Min(10, |p|)] && key.blockId[Min(10, |p|)] == '-'
            && key.blockId[Min(10, |p|) + 1..] == d[..Min(10, |d|)]
  {
  }

  function Roots(rt: Runtime, srcs: seq<Source>, parent: Key): (r: seq<Key>)
    ensures |r| == |srcs| && forall i :: 0 <= i < |r| ==> r[i] == NewKey(rt, srcs[i], parent)
  {
    seq(|srcs|, i requires 0 <= i < |srcs| => NewKey(rt, srcs[i], parent))
  }

  /** The keys generated for a block and everything below it. */
  ghost function NewKeys(rt: Runtime, src: Source, parent: Key): set<Key>
    decreases Size(src), 0
  {
    var key := NewKey(rt, src, parent);
    {key} + NewKeysAll(rt, Kids(rt, src), key)
  }

  ghost function NewKeysAll(rt: Runtime, srcs: seq<Source>, parent: Key): set<Key>
    decreases SizeAll(srcs), 1
  {
    if srcs == [] then {} else NewKeys(rt, srcs[0], parent) + NewKeysAll(rt, srcs[1..], parent)
  }

  /** The generated keys are pairwise different. */
  ghost predicate Unique(rt: Runtime, src: Source, parent: Key)
    decreases Size(src), 0
  {
    var key := NewKey(rt, src, parent);
    key !in NewKeysAll(rt, Kids(rt, src), key) && UniqueAll(rt, Kids(rt, src), key)
  }

  ghost predicate UniqueAll(rt: Runtime, srcs: seq<Source>, parent: Key)
    decreases SizeAll(srcs), 1
  {
    srcs == [] || (Unique(rt, srcs[0], parent) && UniqueAll(rt, srcs[1..], parent)
                   && NewKeys(rt, srcs[0], parent) !! NewKeysAll(rt, srcs[1..], parent))
  }

  // ---- images ----

  /** The blocks a source gives when none of them exists yet. */
  ghost function Image(rt: Runtime, src: Source, parent: Key): Blocks
    decreases Size(src), 0
  {
    var key := NewKey(rt, src, parent);
    ImageAll(rt, Kids(rt, src), key)[key := Block(Some(parent), Roots(rt, Kids(rt, src), key), Merged(rt, src, map[]))]
  }

  ghost function ImageAll(rt: Runtime, srcs: seq<Source>, parent: Key): Blocks
    decreases SizeAll(srcs), 1
  {
    if srcs == [] then map[] else ImageAll(rt, srcs[1..], parent) + Image(rt, srcs[0], parent)
  }

  lemma {:induction false} ImageKeys(rt: Runtime, src: Source, parent: Key)
    ensures Image(rt, src, parent).Keys == NewKeys(rt, src, parent)
    decreases Size(src), 0
  {
    ImageAllKeys(rt, Kids(rt, src), NewKey(rt, src, parent));
  }

  lemma {:induction false} ImageAllKeys(rt: Runtime, srcs: seq<Source>, parent: Key)
    ensures ImageAll(rt, srcs, parent).Keys == NewKeysAll(rt, srcs, parent)
    decreases SizeAll(srcs), 1
  {
    if srcs != [] {
      ImageKeys(rt, srcs[0], parent);
      ImageAllKeys(rt, srcs[1..], parent);
    }
  }

  /** Appending a source appends its keys and its image. */
  lemma {:induction false} Append(rt: Runtime, srcs: seq<Source>, last: Source, parent: Key)
    ensures SizeAll(srcs + [last]) == SizeAll(srcs) + Size(last)
    ensures NewKeysAll(rt, srcs + [last], parent) == NewKeysAll(rt, srcs, parent) + NewKeys(rt, last, parent)
    ensures UniqueAll(rt, srcs + [last], parent)
       <==> UniqueAll(rt, srcs, parent) && Unique(rt, last, parent)
            && NewKeysAll(rt, srcs, parent) !! NewKeys(rt, last, parent)
  {
    if srcs == [] {
      assert srcs + [last] == [last] && [last][1..] == [];
    } else {
      hide Size, NewKeys, Unique;
      assert (srcs + [last])[1..] == srcs[1..] + [last];
      Append(rt, srcs[1..], last, parent);
    }
  }

  lemma {:induction false} AppendImage(rt: Runtime, srcs: seq<Source>, last: Source, parent: Key)
    requires UniqueAll(rt, srcs + [last], parent)
    ensures ImageAll(rt, srcs + [last], parent) == ImageAll(rt, srcs, parent) + Image(rt, last, parent)
  {
    if srcs == [] {
      assert srcs + [last] == [last] && [last][1..] == [];
    } else {
      assert (srcs + [last])[1..] == srcs[1..] + [last];
      Append(rt, srcs[1..], last, parent);
      hide NewKeysAll, NewKeys, Image, Unique;
      AppendImage(rt, srcs[1..], last, parent);
      ImageKeys(rt, srcs[0], parent);
      ImageKeys(rt, last, parent);
      Swap(ImageAll(rt, srcs[1..], parent), Image(rt, last, parent), Image(rt, srcs[0], parent));
    }
  }

  lemma Swap(a: Blocks, b: Blocks, c: Blocks)
    requires b.Keys !! c.Keys
    ensures (a + b) + c == (a + c) + b
  {
  }

  /** An image is a forest below parent: links agree in both directions inside it. */
  ghost predicate IsForest(m: Blocks, roots: seq<Key>, parent: Key) {
    && Distinct(roots) && parent !in m
    && (forall i :: 0 <= i < |roots| ==> HasParent(m, roots[i], parent))
    && (forall k, i :: k in m && 0 <= i < |m[k].children| ==> HasParent(m, m[k].children[i], k))
    && (forall k :: k in m ==> Distinct(m[k].children) && m[k].parent.Some?)
    && (forall k :: k in m ==> if m[k].parent.value == parent then k in roots
                              else m[k].parent.value in m && k in m[m[k].parent.value].children)
  }

  lemma {:induction false} ImageIsForest(rt: Runtime, src: Source, parent: Key)
    requires Unique(rt, src, parent) && parent !in NewKeys(rt, src, parent)
    ensures IsForest(Image(rt, src, parent), [NewKey(rt, src, parent)], parent)
    decreases Size(src), 0
  {
    var key := NewKey(rt, src, parent);
    var kids := Kids(rt, src);
    ImageAllIsForest(rt, kids, key);
    ImageAllKeys(rt, kids, key);
    ImageKeys(rt, src, parent);
  }

  lemma {:induction false} ImageAllIsForest(rt: Runtime, srcs: seq<Source>, parent: Key)
    requires UniqueAll(rt, srcs, parent) && parent !in NewKeysAll(rt, srcs, parent)
    ensures IsForest(ImageAll(rt, srcs, parent), Roots(rt, srcs, parent), parent)
    decreases SizeAll(srcs), 1
  {
    if srcs == [] {
    } else {
      hide IsForest;
      ImageIsForest(rt, srcs[0], parent);
      ImageAllIsForest(rt, srcs[1..], parent);
      ImageKeys(rt, srcs[0], parent);
      ImageAllKeys(rt, srcs[1..], parent);
      var a, b := Image(rt, srcs[0], parent), ImageAll(rt, srcs[1..], parent);
      assert Roots(rt, srcs, parent) == [NewKey(rt, srcs[0], parent)] + Roots(rt, srcs[1..], parent);
      JoinForests(a, [NewKey(rt, srcs[0], parent)], b, Roots(rt, srcs[1..], parent), parent);
    }
  }

  lemma JoinForests(a: Blocks, rootsA: seq<Key>, b: Blocks, rootsB: seq<Key>, parent: Key)
    requires IsForest(a, rootsA, parent) && IsForest(b, rootsB, parent) && a.Keys !! b.Keys
    ensures IsForest(b + a, rootsA + rootsB, parent)
  {
  }

  /** A prefix of sources with different keys has different keys. */
  lemma {:induction false} PrefixUnique(rt: Runtime, srcs: seq<Source>, i: nat, parent: Key)
    requires UniqueAll(rt, srcs, parent) && i <= |srcs|
    ensures UniqueAll(rt, srcs[..i], parent) && NewKeysAll(rt, srcs[..i], parent) <= NewKeysAll(rt, srcs, parent)
    ensures i < |srcs| ==> Unique(rt, srcs[i], parent) && NewKeys(rt, srcs[i], parent) <= NewKeysAll(rt, srcs, parent)
                           && NewKeysAll(rt, srcs[..i], parent) !! NewKeys(rt, srcs[i], parent)
    decreases |srcs| - i
  {
    if i == |srcs| {
      assert srcs[..i] == srcs;
    } else {
      PrefixUnique(rt, srcs, i + 1, parent);
      assert srcs[..i + 1] == srcs[..i] + [srcs[i]];
      Append(rt, srcs[..i], srcs[i], parent);
    }
  }

  // ---- importing one block ----

  /** The store with the kids' images hung below the childless block key. */
  ghost function Grafted(rt: Runtime, s: Blocks, key: Key, kids: seq<Source>): Blocks
    requires key in s
  {
    s[key := s[key].(children := Roots(rt, kids, key))] + ImageAll(rt, kids, key)
  }

  ghost predicate Graftable(rt: Runtime, s: Blocks, key: Key, kids: seq<Source>) {
    && Consistent(s) && key in s && s[key].children == []
    && UniqueAll(rt, kids, key) && NewKeysAll(rt, kids, key) !! s.Keys
  }

  lemma GraftConsistent(rt: Runtime, s: Blocks, key: Key, kids: seq<Source>)
    requires Graftable(rt, s, key, kids)
    ensures Consistent(Grafted(rt, s, key, kids))
    ensures Grafted(rt, s, key, kids).Keys == s.Keys + NewKeysAll(rt, kids, key)
  {
    ImageAllKeys(rt, kids, key);
    ImageAllIsForest(rt, kids, key);
    HangForest(s, key, ImageAll(rt, kids, key), Roots(rt, kids, key));
  }

  lemma HungParents(s: Blocks, key: Key, m: Blocks, roots: seq<Key>)
    requires Consistent(s) && key in s && s[key].children == []
    requires IsForest(m, roots, key) && m.Keys !! s.Keys
    ensures var t := s[key := s[key].(children := roots)] + m;
            forall k :: k in t && t[k].parent.Some? ==> t[k].parent.value in t && k in t[t[k].parent.value].children
  {
    hide Consistent;
    var t := s[key := s[key].(children := roots)] + m;
    forall k | k in t && t[k].parent.Some? ensures t[k].parent.value in t && k in t[t[k].parent.value].children {
      if k !in m {
        OldParentStays(s, key, k);
      }
    }
  }

  /** A parent in the store is there, and is not the childless block. */
  lemma OldParentStays(s: Blocks, key: Key, k: Key)
    requires Consistent(s) && key in s && s[key].children == [] && k in s && s[k].parent.Some?
    ensures var q := s[k].parent.value;
            q in s && q != key && k in s[q].children
  {
  }

  lemma HangForest(s: Blocks, key: Key, m: Blocks, roots: seq<Key>)
    requires Consistent(s) && key in s && s[key].children == []
    requires IsForest(m, roots, key) && m.Keys !! s.Keys
    ensures Consistent(s[key := s[key].(children := roots)] + m)
  {
    var t := s[key := s[key].(children := roots)] + m;
    HungParents(s, key, m, roots);
    forall k, i | k in t && 0 <= i < |t[k].children| ensures HasParent(t, t[k].children[i], k) {
      if k in m {
        assert HasParent(m, m[k].children[i], k);
      } else if k == key {
        assert HasParent(m, roots[i], key);
      } else {
        assert HasParent(s, s[k].children[i], k);
      }
    }
  }

  /** The keys stay, only fields and lists change. */
  lemma {:induction false} SameParents(s: Blocks, t: Blocks, k: Key, n: nat)
    requires s.Keys == t.Keys && forall x :: x in s ==> s[x].parent == t[x].parent
    ensures Ancestor(s, k, n) == Ancestor(t, k, n)
    decreases n
  {
    if n > 0 && k in s && s[k].parent.Some? {
      SameParents(s, t, s[k].parent.value, n - 1);
    }
  }

  lemma SameBelow(s: Blocks, t: Blocks, top: Key, k: Key)
    requires s.Keys == t.Keys && forall x :: x in s ==> s[x].parent == t[x].parent
    ensures Below(s, top, k) <==> Below(t, top, k)
  {
    if Below(s, top, k) {
      var n: nat :| Ancestor(s, k, n) == Some(top);
      SameParents(s, t, k, n);
    }
    if Below(t, top, k) {
      var n: nat :| Ancestor(t, k, n) == Some(top);
      SameParents(s, t, k, n);
    }
  }

  ghost function Children(s: Blocks, key: Key): set<Key>
    requires key in s
  {
    set c | c in s[key].children
  }

  /** Fields of the copy before it is imported; none when it does not exist. */
  ghost function Existing(s: Blocks, key: Key): map<string, Value> { if key in s then s[key].fields else map[] }

  /** The block got or created, with its fields taken over. */
  ghost function Placed(rt: Runtime, s: Blocks, src: Source, parent: Key): Blocks
    requires parent in s
  {
    var key := NewKey(rt, src, parent);
    var t := if key in s then s else WithChild(s, parent, key);
    t[key := t[key].(fields := Merged(rt, src, Existing(s, key)))]
  }

  /** The same without the old children of the block. */
  ghost function Cleared(rt: Runtime, s: Blocks, src: Source, parent: Key): Blocks
    requires parent in s
  {
    var key := NewKey(rt, src, parent);
    Pruned(Placed(rt, s, src, parent), key, Children(Placed(rt, s, src, parent), key))
  }

  /** A collision-free import of one block below parent. */
  ghost function Imported(rt: Runtime, s: Blocks, src: Source, parent: Key): Blocks
    requires parent in s && NewKey(rt, src, parent) in Cleared(rt, s, src, parent)
  {
    var key := NewKey(rt, src, parent);
    Grafted(rt, Cleared(rt, s, src, parent), key, Kids(rt, src))
  }

  /**
   The block itself is a child of parent if it exists, and a key generated below it exists only
   below it.
   */
  ghost predicate NoCollision(rt: Runtime, s: Blocks, src: Source, parent: Key) {
    var key := NewKey(rt, src, parent);
    && (key in s ==> s[key].parent == Some(parent))
    && forall g :: g in NewKeysAll(rt, Kids(rt, src), key) && g in s ==> StrictlyBelow(s, key, g)
  }

  /** The block can be got or created below parent. */
  ghost predicate Placeable(rt: Runtime, s: Blocks, src: Source, parent: Key) {
    var key := NewKey(rt, src, parent);
    && Consistent(s) && parent in s
    && (HasParent(s, key, parent) ==>
          !StrictlyBelow(s, key, key) && (!rt.hasChildren(key.blockType) ==> s[key].children == []))
  }

  /** What an import of src below parent starts from when no generated key occurs twice. */
  ghost predicate Importable(rt: Runtime, s: Blocks, src: Source, parent: Key) {
    Placeable(rt, s, src, parent) && Unique(rt, src, parent)
  }

  /** What holds of the placed block in either case. */
  ghost predicate WellPlaced(rt: Runtime, s: Blocks, src: Source, parent: Key)
    requires parent in s
  {
    var key, t := NewKey(rt, src, parent), Placed(rt, s, src, parent);
    && Prunable(t, key, Children(t, key))
    && t[key].parent == Some(parent)
    && t[key].fields == Merged(rt, src, Existing(s, key))
    && forall x :: x in t && x != key ==> (StrictlyBelow(t, key, x) <==> x in s && StrictlyBelow(s, key, x))
  }

  lemma UpdatedIsPlaced(rt: Runtime, s: Blocks, src: Source, parent: Key)
    requires Placeable(rt, s, src, parent) && HasParent(s, NewKey(rt, src, parent), parent)
    ensures WellPlaced(rt, s, src, parent)
  {
    hide Merged, NewKey;
    var key, t := NewKey(rt, src, parent), Placed(rt, s, src, parent);
    forall x | x in t ensures StrictlyBelow(t, key, x) <==> StrictlyBelow(s, key, x) {
      if s[x].parent.Some? {
        SameBelow(s, t, key, s[x].parent.value);
      }
    }
    assert Consistent(t);
    assert forall c :: c in Children(t, key) ==> HasParent(t, c, key);
  }

  lemma CreatedIsPlaced(rt: Runtime, s: Blocks, src: Source, parent: Key)
    requires Placeable(rt, s, src, parent) && NewKey(rt, src, parent) !in s
    ensures WellPlaced(rt, s, src, parent)
  {
    var key, t := NewKey(rt, src, parent), Placed(rt, s, src, parent);
    CreatedConsistent(s, parent, key, t[key].fields);
    assert Children(t, key) == {};
    forall x | x in t ensures !StrictlyBelow(t, key, x) {
      StrictlyBelowIsBelowChild(t, key, x);
    }
    forall x | x in s ensures !StrictlyBelow(s, key, x) {
      NothingBelowMissing(s, key, x);
    }
  }

  lemma CreatedConsistent(s: Blocks, parent: Key, key: Key, fields: map<string, Value>)
    requires Consistent(s) && parent in s && key !in s
    ensures Consistent(WithChild(s, parent, key)[key := Block(Some(parent), [], fields)])
  {
    var t := WithChild(s, parent, key)[key := Block(Some(parent), [], fields)];
    assert t[parent].children == s[parent].children + [key];
    forall k, i | k in t && 0 <= i < |t[k].children| ensures HasParent(t, t[k].children[i], k) {
      if k != parent || i < |s[parent].children| {
        assert HasParent(s, s[k].children[i], k);
      }
    }
    forall i | 0 <= i < |s[parent].children| ensures s[parent].children[i] != key {
      assert HasParent(s, s[parent].children[i], parent);
    }
    forall k | k in t && t[k].parent.Some?
      ensures t[k].parent.value in t && k in t[t[k].parent.value].children
    {
      if k == key {
        assert t[parent].children[|s[parent].children|] == key;
      } else {
        assert k in s[s[k].parent.value].children;
      }
    }
  }

  lemma NothingBelowMissing(s: Blocks, top: Key, x: Key)
    requires Consistent(s) && top !in s
    ensures !StrictlyBelow(s, top, x)
  {
    if StrictlyBelow(s, top, x) {
      var n: nat :| Ancestor(s, s[x].parent.value, n) == Some(top);
      ChainStays(s, s[x].parent.value, n, top);
    }
  }

  lemma {:induction false} ChainStays(s: Blocks, k: Key, n: nat, top: Key)
    requires Consistent(s) && k in s && Ancestor(s, k, n) == Some(top)
    ensures top in s
    decreases n
  {
    if n > 0 {
      ChainStays(s, s[k].parent.value, n - 1, top);
    }
  }

  /** Clearing keeps the block, childless, and drops exactly what was strictly below it. */
  lemma ClearedFacts(rt: Runtime, s: Blocks, src: Source, parent: Key)
    requires Placeable(rt, s, src, parent)
    requires NewKey(rt, src, parent) in s ==> HasParent(s, NewKey(rt, src, parent), parent)
    ensures var key, t := NewKey(rt, src, parent), Cleared(rt, s, src, parent);
            && Consistent(t) && key in t
            && t[key] == Block(Some(parent), [], Merged(rt, src, Existing(s, key)))
            && (forall x :: x in t <==> x == key || (x in s && !StrictlyBelow(s, key, x)))
            && (forall x :: x in t && x != key ==> t[x] == Placed(rt, s, src, parent)[x])
  {
    hide Consistent, Merged, UniqueAll, NewKeysAll;
    var key, u := NewKey(rt, src, parent), Placed(rt, s, src, parent);
    if key in s {
      UpdatedIsPlaced(rt, s, src, parent);
    } else {
      CreatedIsPlaced(rt, s, src, parent);
    }
    PrunedConsistent(u, key, Children(u, key));
    PrunedKeepsParent(u, key, Children(u, key));
    WithoutAll(u[key].children, Children(u, key));
    forall x | x in u && x != key
      ensures (exists c :: c in Children(u, key) && Below(u, c, x)) <==> StrictlyBelow(s, key, x)
    {
      StrictlyBelowIsBelowChild(u, key, x);
    }
  }

  /** A collision-free block leaves room for the images of its kids. */
  lemma CollisionFree(rt: Runtime, s: Blocks, src: Source, parent: Key)
    requires Importable(rt, s, src, parent)
    requires NewKey(rt, src, parent) in s ==> HasParent(s, NewKey(rt, src, parent), parent)
    ensures NoCollision(rt, s, src, parent)
       <==> NewKeysAll(rt, Kids(rt, src), NewKey(rt, src, parent)) !! Cleared(rt, s, src, parent).Keys
    ensures NoCollision(rt, s, src, parent) ==>
              Graftable(rt, Cleared(rt, s, src, parent), NewKey(rt, src, parent), Kids(rt, src))
  {
    hide Consistent, Cleared, NewKeysAll, UniqueAll;
    ClearedFacts(rt, s, src, parent);
  }

  lemma NoChildrenOf(s: Blocks, key: Key, k: Key)
    requires Consistent(s) && key in s && k !in s[key].children
    ensures !HasParent(s, k, key)
  {
  }

  /** One more kid: what its import meets and what it leaves. */
  lemma NextKid(rt: Runtime, t: Blocks, key: Key, kids: seq<Source>, i: nat)
    requires i < |kids| && Graftable(rt, t, key, kids[..i]) && UniqueAll(rt, kids, key)
    ensures var s := Grafted(rt, t, key, kids[..i]);
            && Importable(rt, s, kids[i], key)
            && (NoCollision(rt, s, kids[i], key) <==> NewKeys(rt, kids[i], key) !! t.Keys)
  {
    var s := Grafted(rt, t, key, kids[..i]);
    var k := NewKey(rt, kids[i], key);
    GraftConsistent(rt, t, key, kids[..i]);
    PrefixUnique(rt, kids, i, key);
    hide Consistent, NewKeysAll, UniqueAll, Grafted;
    RootsAreNew(rt, kids[..i], key);
    assert k !in s[key].children by {
      assert s[key].children == Roots(rt, kids[..i], key) by {
        GraftedAt(rt, t, key, kids[..i]);
      }
    }
    NoChildrenOf(s, key, k);
    if k !in s {
      forall g ensures !StrictlyBelow(s, k, g) {
        NothingBelowMissing(s, k, g);
      }
    }
  }

  lemma GraftedAt(rt: Runtime, t: Blocks, key: Key, kids: seq<Source>)
    requires Graftable(rt, t, key, kids)
    ensures Grafted(rt, t, key, kids)[key] == t[key].(children := Roots(rt, kids, key))
  {
    ImageAllKeys(rt, kids, key);
  }

  lemma {:induction false} RootsAreNew(rt: Runtime, srcs: seq<Source>, parent: Key)
    ensures forall k :: k in Roots(rt, srcs, parent) ==> k in NewKeysAll(rt, srcs, parent)
  {
    if srcs != [] {
      RootsAreNew(rt, srcs[1..], parent);
      assert Roots(rt, srcs, parent) == [NewKey(rt, srcs[0], parent)] + Roots(rt, srcs[1..], parent);
    }
  }

  /** Importing the next kid without collision extends the graft by it. */
  lemma GraftNext(rt: Runtime, t: Blocks, key: Key, kids: seq<Source>, i: nat)
    requires i < |kids| && Graftable(rt, t, key, kids[..i]) && UniqueAll(rt, kids, key)
    requires NewKeys(rt, kids[i], key) !! t.Keys
    ensures Graftable(rt, t, key, kids[..i + 1])
    ensures var s := Grafted(rt, t, key, kids[..i]);
            && key in s && NewKey(rt, kids[i], key) in Cleared(rt, s, kids[i], key)
            && Imported(rt, s, kids[i], key) == Grafted(rt, t, key, kids[..i + 1])
  {
    assert key in t;
    hide *;
    NextGraftable(rt, t, key, kids, i);
    GraftDisjoint(rt, t, key, kids, i);
    NextKid(rt, t, key, kids, i);
    ImportedNew(rt, Grafted(rt, t, key, kids[..i]), kids[i], key);
    GraftOneMore(rt, t, key, kids, i);
  }

  lemma GraftOneMore(rt: Runtime, t: Blocks, key: Key, kids: seq<Source>, i: nat)
    requires i < |kids| && key in t && key !in ImageAll(rt, kids[..i], key)
    requires ImageAll(rt, kids[..i + 1], key) == ImageAll(rt, kids[..i], key) + Image(rt, kids[i], key)
    ensures var s := Grafted(rt, t, key, kids[..i]);
            && key in s
            && s[key := s[key].(children := s[key].children + [NewKey(rt, kids[i], key)])] + Image(rt, kids[i], key)
                 == Grafted(rt, t, key, kids[..i + 1])
  {
    hide *;
    var s, m := Grafted(rt, t, key, kids[..i]), ImageAll(rt, kids[..i], key);
    var b, c := t[key].(children := Roots(rt, kids[..i], key)), t[key].(children := Roots(rt, kids[..i + 1], key));
    GraftedDef(rt, t, key, kids[..i]);
    GraftedDef(rt, t, key, kids[..i + 1]);
    assert s[key] == b;
    assert Roots(rt, kids[..i + 1], key) == Roots(rt, kids[..i], key) + [NewKey(rt, kids[i], key)];
    Regroup(t, key, b, c, m, Image(rt, kids[i], key));
  }

  lemma GraftedDef(rt: Runtime, t: Blocks, key: Key, kids: seq<Source>)
    requires key in t
    ensures Grafted(rt, t, key, kids)
         == t[key := t[key].(children := Roots(rt, kids, key))] + ImageAll(rt, kids, key)
  {
  }

  lemma Regroup(t: Blocks, key: Key, b: Block, c: Block, m: Blocks, n: Blocks)
    requires key !in m
    ensures (t[key := b] + m)[key := c] + n == t[key := c] + (m + n)
  {
  }

  lemma NextGraftable(rt: Runtime, t: Blocks, key: Key, kids: seq<Source>, i: nat)
    requires i < |kids| && Graftable(rt, t, key, kids[..i]) && UniqueAll(rt, kids, key)
    requires NewKeys(rt, kids[i], key) !! t.Keys
    ensures Graftable(rt, t, key, kids[..i + 1])
    ensures ImageAll(rt, kids[..i + 1], key) == ImageAll(rt, kids[..i], key) + Image(rt, kids[i], key)
  {
    hide Consistent, NewKeysAll, UniqueAll, ImageAll;
    PrefixUnique(rt, kids, i + 1, key);
    assert kids[..i + 1] == kids[..i] + [kids[i]];
    Append(rt, kids[..i], kids[i], key);
    AppendImage(rt, kids[..i], kids[i], key);
  }

  lemma GraftDisjoint(rt: Runtime, t: Blocks, key: Key, kids: seq<Source>, i: nat)
    requires i < |kids| && Graftable(rt, t, key, kids[..i]) && UniqueAll(rt, kids, key)
    requires NewKeys(rt, kids[i], key) !! t.Keys
    ensures key !in ImageAll(rt, kids[..i], key) && key !in Image(rt, kids[i], key)
    ensures NewKeys(rt, kids[i], key) !! Grafted(rt, t, key, kids[..i]).Keys
  {
    hide Consistent, NewKeysAll, UniqueAll, ImageAll;
    PrefixUnique(rt, kids, i, key);
    GraftConsistent(rt, t, key, kids[..i]);
    ImageAllKeys(rt, kids[..i], key);
    ImageKeys(rt, kids[i], key);
  }

  /** Importing a new block adds its image and appends it to its parent's children. */
  lemma ImportedNew(rt: Runtime, s: Blocks, src: Source, parent: Key)
    requires Importable(rt, s, src, parent) && NewKeys(rt, src, parent) !! s.Keys
    ensures var key := NewKey(rt, src, parent);
            && key in Cleared(rt, s, src, parent)
            && Imported(rt, s, src, parent)
                 == s[parent := s[parent].(children := s[parent].children + [key])] + Image(rt, src, parent)
  {
    hide Consistent, Merged, UniqueAll, NewKeysAll, ImageAll;
    var key := NewKey(rt, src, parent);
    ClearedNew(rt, s, src, parent);
    ImageAllKeys(rt, Kids(rt, src), key);
  }

  /** For a new block, clearing only creates it. */
  lemma ClearedNew(rt: Runtime, s: Blocks, src: Source, parent: Key)
    requires Importable(rt, s, src, parent) && NewKey(rt, src, parent) !in s
    ensures var key := NewKey(rt, src, parent);
            Cleared(rt, s, src, parent)
              == WithChild(s, parent, key)[key := Block(Some(parent), [], Merged(rt, src, map[]))]
  {
    var t := Placed(rt, s, src, parent);
    PrunedNone(t, NewKey(rt, src, parent));
  }

  lemma PrunedNone(t: Blocks, key: Key)
    requires key in t && t[key].children == []
    ensures Pruned(t, key, Children(t, key)) == t
  {
    assert Children(t, key) == {};
  }

  lemma PrunedNothing(t: Blocks, key: Key)
    requires key in t
    ensures Pruned(t, key, {}) == t
  {
    WithoutNone(t[key].children, {});
  }
}
