/**
 A course's block store: a forest of blocks with parent links and ordered children.  The
 operations are those the library import uses: create a child, replace fields, delete a subtree.
 */
module ModuleStores {
  import opened Options
  import opened Collections

  /** A usage key inside one course. */
  datatype Key = Key(blockType: string, blockId: string)

  type Value = string

  datatype Block = Block(parent: Option<Key>, children: seq<Key>, fields: map<string, Value>)

  type Blocks = map<Key, Block>

  ghost predicate HasParent(s: Blocks, k: Key, p: Key) { k in s && s[k].parent == Some(p) }

  /** The block n levels above k. */
  ghost function Ancestor(s: Blocks, k: Key, n: nat): Option<Key>
    decreases n
  {
    if n == 0 then Some(k)
    else if k in s && s[k].parent.Some? then Ancestor(s, s[k].parent.value, n - 1)
    else None
  }

  /** k is top or lies in the subtree of top. */
  ghost predicate Below(s: Blocks, top: Key, k: Key) { exists n: nat :: Ancestor(s, k, n) == Some(top) }

  ghost predicate StrictlyBelow(s: Blocks, top: Key, k: Key) {
    k in s && s[k].parent.Some? && Below(s, top, s[k].parent.value)
  }

  /** Parent links and child lists describe the same forest. */
  ghost predicate Consistent(s: Blocks) {
    && (forall k, i :: k in s && 0 <= i < |s[k].children| ==> HasParent(s, s[k].children[i], k))
    && (forall k :: k in s && s[k].parent.Some? ==> s[k].parent.value in s && k in s[s[k].parent.value].children)
    && (forall k :: k in s ==> Distinct(s[k].children))
  }

  /** The keys without those in gone, in order. */
  function Without(keys: seq<Key>, gone: set<Key>): (r: seq<Key>)
    ensures forall k :: k in r <==> k in keys && k !in gone
    ensures Distinct(keys) ==> Distinct(r)
  {
    if keys == [] then []
    else
      var r := Without(keys[1..], gone);
      assert Distinct(keys) ==> forall i :: 0 <= i < |r| ==> r[i] in keys[1..] && r[i] != keys[0];
      if keys[0] in gone then r else [keys[0]] + r
  }

  lemma {:induction false} WithoutTwice(keys: seq<Key>, a: set<Key>, b: set<Key>)
    ensures Without(Without(keys, a), b) == Without(keys, a + b)
  {
    if keys != [] {
      WithoutTwice(keys[1..], a, b);
      if keys[0] !in a {
        assert Without(keys, a)[1..] == Without(keys[1..], a);
      }
    }
  }

  lemma {:induction false} WithoutNone(keys: seq<Key>, gone: set<Key>)
    requires forall k :: k in gone ==> k !in keys
    ensures Without(keys, gone) == keys
  {
    if keys != [] {
      WithoutNone(keys[1..], gone);
      assert keys[0] in keys;
    }
  }

  lemma {:induction false} WithoutAll(keys: seq<Key>, gone: set<Key>)
    requires forall k :: k in keys ==> k in gone
    ensures Without(keys, gone) == []
  {
    if keys != [] {
      WithoutAll(keys[1..], gone);
    }
  }

  // ---- chains of ancestors ----

  lemma BelowParent(s: Blocks, top: Key, k: Key)
    ensures StrictlyBelow(s, top, k) ==> Below(s, top, k)
    ensures Below(s, top, k) ==> k == top || StrictlyBelow(s, top, k)
    ensures Below(s, k, k)
  {
    assert Ancestor(s, k, 0) == Some(k);
    if StrictlyBelow(s, top, k) {
      var n: nat :| Ancestor(s, s[k].parent.value, n) == Some(top);
      assert Ancestor(s, k, n + 1) == Some(top);
    }
    if Below(s, top, k) && k != top {
      var n: nat :| Ancestor(s, k, n) == Some(top);
      assert Ancestor(s, s[k].parent.value, n - 1) == Some(top);
    }
  }

  lemma {:induction false} AncestorAdds(s: Blocks, k: Key, m: nat, mid: Key, n: nat)
    requires Ancestor(s, k, m) == Some(mid)
    ensures Ancestor(s, k, m + n) == Ancestor(s, mid, n)
    decreases m
  {
    if m > 0 {
      AncestorAdds(s, s[k].parent.value, m - 1, mid, n);
    }
  }

  lemma BelowTransitive(s: Blocks, a: Key, b: Key, c: Key)
    requires Below(s, a, b) && Below(s, b, c)
    ensures Below(s, a, c)
    ensures StrictlyBelow(s, a, b) ==> StrictlyBelow(s, a, c)
  {
    var n: nat :| Ancestor(s, b, n) == Some(a);
    var m: nat :| Ancestor(s, c, m) == Some(b);
    AncestorAdds(s, c, m, b, n);
    if StrictlyBelow(s, a, b) {
      BelowParent(s, b, c);
      if c != b {
        var m1: nat :| Ancestor(s, s[c].parent.value, m1) == Some(b);
        AncestorAdds(s, s[c].parent.value, m1, b, n);
      }
    }
  }

  /** Of two ancestors of a block one is above the other. */
  lemma AncestorsComparable(s: Blocks, a: Key, b: Key, k: Key)
    requires Below(s, a, k) && Below(s, b, k)
    ensures Below(s, a, b) || Below(s, b, a)
  {
    var m: nat :| Ancestor(s, k, m) == Some(a);
    var n: nat :| Ancestor(s, k, n) == Some(b);
    if m <= n {
      AncestorAdds(s, k, m, a, n - m);
    } else {
      AncestorAdds(s, k, n, b, m - n);
    }
  }

  /** Different children of a block that is not its own descendant have disjoint subtrees. */
  lemma SiblingsDisjoint(s: Blocks, p: Key, a: Key, b: Key, k: Key)
    requires HasParent(s, a, p) && HasParent(s, b, p) && a != b && !StrictlyBelow(s, p, p)
    ensures !(Below(s, a, k) && Below(s, b, k))
  {
    if Below(s, a, k) && Below(s, b, k) {
      AncestorsComparable(s, a, b, k);
      BelowParent(s, a, b);
      BelowParent(s, b, a);
      if Below(s, a, p) {
        ChildAboveParent(s, p, a);
      } else {
        ChildAboveParent(s, p, b);
      }
    }
  }

  /** A block below one of its own children is its own descendant. */
  lemma ChildAboveParent(s: Blocks, p: Key, c: Key)
    requires HasParent(s, c, p) && Below(s, c, p)
    ensures StrictlyBelow(s, p, p)
  {
    BelowParent(s, p, p);
    BelowParent(s, p, c);
    BelowTransitive(s, p, c, p);
  }

  /** In a consistent store everything strictly below p is in the subtree of a child of p. */
  lemma {:induction false} ChildAbove(s: Blocks, p: Key, k: Key, n: nat)
    requires Consistent(s) && k in s && s[k].parent.Some? && Ancestor(s, s[k].parent.value, n) == Some(p)
    ensures p in s && exists c :: c in s[p].children && Below(s, c, k)
    decreases n
  {
    var q := s[k].parent.value;
    if n == 0 {
      BelowParent(s, k, k);
    } else {
      ChildAbove(s, p, q, n - 1);
      var c :| c in s[p].children && Below(s, c, q);
      BelowParent(s, c, k);
    }
  }

  lemma StrictlyBelowIsBelowChild(s: Blocks, p: Key, k: Key)
    requires Consistent(s) && p in s
    ensures StrictlyBelow(s, p, k) <==> exists c :: c in s[p].children && Below(s, c, k)
  {
    if StrictlyBelow(s, p, k) {
      var n: nat :| Ancestor(s, s[k].parent.value, n) == Some(p);
      ChildAbove(s, p, k, n);
    }
    if exists c :: c in s[p].children && Below(s, c, k) {
      var c :| c in s[p].children && Below(s, c, k);
      var i :| 0 <= i < |s[p].children| && s[p].children[i] == c;
      assert HasParent(s, c, p);
      BelowParent(s, p, p);
      BelowParent(s, p, c);
      BelowTransitive(s, p, c, k);
    }
  }

  /** Chains that avoid the changed blocks are the same in both stores. */
  lemma {:induction false} SameChain(s: Blocks, t: Blocks, top: Key, k: Key, n: nat)
    requires Consistent(s) && k in s && !Below(s, top, k)
    requires forall x :: x in s && !Below(s, top, x) ==> x in t && t[x].parent == s[x].parent
    ensures Ancestor(t, k, n) == Ancestor(s, k, n)
    decreases n
  {
    if n > 0 && s[k].parent.Some? {
      BelowParent(s, top, k);
      SameChain(s, t, top, s[k].parent.value, n - 1);
    }
  }

  // ---- deleting ----

  /** The store without the subtrees of some children of p. */
  ghost function Pruned(s: Blocks, p: Key, gone: set<Key>): Blocks {
    map x | x in s && !(exists c :: c in gone && Below(s, c, x)) ::
      if x == p then s[x].(children := Without(s[x].children, gone)) else s[x]
  }

  /** What can be pruned below p. */
  ghost predicate Prunable(s: Blocks, p: Key, gone: set<Key>) {
    Consistent(s) && p in s && !StrictlyBelow(s, p, p) && forall c :: c in gone ==> HasParent(s, c, p)
  }

  lemma PrunedKeepsParent(s: Blocks, p: Key, gone: set<Key>)
    requires Prunable(s, p, gone)
    ensures p in Pruned(s, p, gone)
  {
    forall c | c in gone ensures !Below(s, c, p) {
      if Below(s, c, p) {
        ChildAboveParent(s, p, c);
      }
    }
  }

  lemma PrunedParent(s: Blocks, p: Key, gone: set<Key>, x: Key)
    requires Prunable(s, p, gone) && x in Pruned(s, p, gone)
    ensures x in s && Pruned(s, p, gone)[x].parent == s[x].parent
    ensures s[x].parent.Some? ==> s[x].parent.value in Pruned(s, p, gone)
  {
    if s[x].parent.Some? {
      forall c | c in gone ensures !Below(s, c, s[x].parent.value) {
        BelowParent(s, c, x);
      }
    }
  }

  lemma {:induction false} PrunedChain(s: Blocks, p: Key, gone: set<Key>, x: Key, n: nat)
    requires Prunable(s, p, gone) && x in Pruned(s, p, gone)
    ensures Ancestor(Pruned(s, p, gone), x, n) == Ancestor(s, x, n)
    decreases n
  {
    hide Prunable, Pruned;
    PrunedParent(s, p, gone, x);
    if n > 0 && s[x].parent.Some? {
      PrunedChain(s, p, gone, s[x].parent.value, n - 1);
    }
  }

  lemma PrunedBelow(s: Blocks, p: Key, gone: set<Key>, top: Key, x: Key)
    requires Prunable(s, p, gone) && x in Pruned(s, p, gone)
    ensures Below(Pruned(s, p, gone), top, x) <==> Below(s, top, x)
  {
    if Below(s, top, x) {
      var n: nat :| Ancestor(s, x, n) == Some(top);
      PrunedChain(s, p, gone, x, n);
    }
    if Below(Pruned(s, p, gone), top, x) {
      var n: nat :| Ancestor(Pruned(s, p, gone), x, n) == Some(top);
      PrunedChain(s, p, gone, x, n);
    }
  }

  lemma PrunedConsistent(s: Blocks, p: Key, gone: set<Key>)
    requires Prunable(s, p, gone)
    ensures Consistent(Pruned(s, p, gone))
  {
    var t := Pruned(s, p, gone);
    PrunedKeepsParent(s, p, gone);
    forall x, i | x in t && 0 <= i < |t[x].children| ensures HasParent(t, t[x].children[i], x) {
      var k := t[x].children[i];
      assert k in s[x].children && HasParent(s, k, x);
      forall c | c in gone ensures !Below(s, c, k) {
        BelowParent(s, c, k);
      }
    }
    forall x | x in t && t[x].parent.Some?
      ensures t[x].parent.value in t && x in t[t[x].parent.value].children
    {
      var q := s[x].parent.value;
      forall c | c in gone ensures !Below(s, c, q) {
        BelowParent(s, c, x);
      }
      forall c | c in gone ensures x != c {
        BelowParent(s, c, c);
      }
    }
  }

  lemma StaysPrunable(s: Blocks, p: Key, gone: set<Key>, c: Key)
    requires Prunable(s, p, gone) && HasParent(s, c, p) && c !in gone
    ensures Prunable(Pruned(s, p, gone), p, {c})
  {
    hide Consistent;
    var t := Pruned(s, p, gone);
    PrunedConsistent(s, p, gone);
    PrunedKeepsParent(s, p, gone);
    forall d | d in gone ensures !Below(s, d, c) {
      BelowParent(s, c, c);
      if Below(s, d, c) {
        SiblingsDisjoint(s, p, d, c, c);
      }
    }
    assert HasParent(t, c, p);
    if StrictlyBelow(t, p, p) {
      BelowParent(t, p, p);
      var n: nat :| Ancestor(t, t[p].parent.value, n) == Some(p);
      assert Ancestor(t, p, n + 1) == Some(p);
      PrunedChain(s, p, gone, p, n + 1);
    }
  }

  /** Pruning one more child extends the pruned set. */
  lemma PruneMore(s: Blocks, p: Key, gone: set<Key>, c: Key)
    requires Prunable(s, p, gone) && HasParent(s, c, p) && c !in gone
    ensures Pruned(Pruned(s, p, gone), p, {c}) == Pruned(s, p, gone + {c})
  {
    hide Prunable, Below;
    var t := Pruned(s, p, gone);
    forall x | x in t ensures Below(t, c, x) <==> Below(s, c, x) {
      PrunedBelow(s, p, gone, c, x);
    }
    WithoutTwice(if p in s then s[p].children else [], gone, {c});
    var u, v := Pruned(t, p, {c}), Pruned(s, p, gone + {c});
    forall x ensures x in u <==> x in v {
      assert x in u <==> x in t && !Below(s, c, x);
    }
    assert forall x :: x in u ==> u[x] == v[x];
  }

  class ModuleStore {
    var blocks: Blocks

    constructor (blocks: Blocks)
      ensures this.blocks == blocks
    {
      this.blocks := blocks;
    }

    method CreateChild(parent: Key, key: Key)
      requires parent in blocks && key !in blocks
      modifies this
      ensures blocks == WithChild(old(blocks), parent, key)
    {
      blocks := blocks[parent := blocks[parent].(children := blocks[parent].children + [key])];
      blocks := blocks[key := Block(Some(parent), [], map[])];
    }

    method UpdateFields(key: Key, fields: map<string, Value>)
      requires key in blocks
      modifies this
      ensures blocks == old(blocks)[key := old(blocks)[key].(fields := fields)]
    {
      blocks := blocks[key := blocks[key].(fields := fields)];
    }

    /** Deletes a child of p with everything below it: first the keys are collected, then removed. */
    method DeleteItem(key: Key, p: Key)
      requires Prunable(blocks, p, {key})
      modifies this
      ensures blocks == Pruned(old(blocks), p, {key})
    {
      var s := blocks;
      var doomed := {key};
      BelowParent(s, key, key);
      while exists x :: x in s && x !in doomed && s[x].parent.Some? && s[x].parent.value in doomed
        invariant key in doomed && doomed <= s.Keys
        invariant forall x :: x in doomed ==> Below(s, key, x)
        decreases s.Keys - doomed
      {
        var x :| x in s && x !in doomed && s[x].parent.Some? && s[x].parent.value in doomed;
        BelowParent(s, key, x);
        doomed := doomed + {x};
      }
      AllDoomed(s, key, doomed);
      blocks := map x | x in s && x !in doomed ::
        if x == p then s[x].(children := Without(s[x].children, {key})) else s[x];
      assert blocks == Pruned(s, p, {key});
    }
  }

  lemma AllDoomed(s: Blocks, key: Key, doomed: set<Key>)
    requires Consistent(s) && key in doomed && forall x :: x in doomed ==> Below(s, key, x)
    requires forall y :: y in s && y !in doomed && s[y].parent.Some? ==> s[y].parent.value !in doomed
    ensures forall x :: x in s ==> (x in doomed <==> exists c :: c in {key} && Below(s, c, x))
  {
    forall x | x in s ensures x in doomed <==> exists c :: c in {key} && Below(s, c, x) {
      if Below(s, key, x) {
        var n: nat :| Ancestor(s, x, n) == Some(key);
        ClosedIsDoomed(s, key, doomed, x, n);
      }
    }
  }

  lemma {:induction false} ClosedIsDoomed(s: Blocks, key: Key, doomed: set<Key>, x: Key, n: nat)
    requires key in doomed && x in s && Ancestor(s, x, n) == Some(key) && Consistent(s)
    requires forall y :: y in s && y !in doomed && s[y].parent.Some? ==> s[y].parent.value !in doomed
    ensures x in doomed
    decreases n
  {
    if n > 0 {
      ClosedIsDoomed(s, key, doomed, s[x].parent.value, n - 1);
    }
  }

  ghost function WithChild(s: Blocks, parent: Key, key: Key): Blocks
    requires parent in s
  {
    s[parent := s[parent].(children := s[parent].children + [key])][key := Block(Some(parent), [], map[])]
  }
}
