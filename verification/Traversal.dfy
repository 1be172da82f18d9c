/**
 The two worklist loops that flatten a tree of blocks: the one over blocks in a sequence, and
 the one over usage keys with a store lookup for every key.
 */
module Traversal {
  import opened Collections

  type Location = string

  // ---- blocks ----

  /** A block as the sequence loop sees it; children count only when it has any. */
  datatype Tree = Tree(location: Location, hasChildren: bool, children: seq<Tree>)

  function Children(t: Tree): seq<Tree> { if t.hasChildren then t.children else [] }

  /** Preorder with the children visited last to first. */
  function Visit(t: Tree): seq<Location>
    decreases t, 0
  {
    [t.location] + if t.hasChildren then VisitStack(t.children) else []
  }

  /** The visits of a stack, from its top, which is the end. */
  function VisitStack(stack: seq<Tree>): seq<Location>
    decreases stack, 1
  {
    if stack == [] then [] else Visit(stack[|stack| - 1]) + VisitStack(stack[..|stack| - 1])
  }

  /** All locations of a tree, children first to last. */
  function Locations(t: Tree): multiset<Location>
    decreases t, 0
  {
    multiset{t.location} + if t.hasChildren then LocationsAll(t.children) else multiset{}
  }

  function LocationsAll(ts: seq<Tree>): multiset<Location>
    decreases ts, 1
  {
    if ts == [] then multiset{} else Locations(ts[0]) + LocationsAll(ts[1..])
  }

  function Size(t: Tree): nat
    decreases t, 0
  {
    1 + if t.hasChildren then SizeAll(t.children) else 0
  }

  function SizeAll(ts: seq<Tree>): nat
    decreases ts, 1
  {
    if ts == [] then 0 else SizeAll(ts[..|ts| - 1]) + Size(ts[|ts| - 1])
  }

  lemma {:induction false} VisitsJoin(below: seq<Tree>, above: seq<Tree>)
    ensures VisitStack(below + above) == VisitStack(above) + VisitStack(below)
  {
    if above == [] {
      assert below + above == below;
    } else {
      hide *;
      var n := |above| - 1;
      SplitLast(below, above);
      VisitsJoin(below, above[..n]);
      VisitTop(above[..n], above[n]);
      VisitTop(below + above[..n], above[n]);
      Associate(Visit(above[n]), VisitStack(above[..n]), VisitStack(below));
    }
  }

  /** A block comes before everything below it, and its later children before its earlier ones. */
  lemma VisitOrder(t: Tree, i: nat, j: nat)
    requires t.hasChildren && i < j < |t.children|
    ensures exists before, between, after ::
              Visit(t) == [t.location] + before + Visit(t.children[j]) + between + Visit(t.children[i]) + after
    ensures Visit(Tree(t.location, false, t.children)) == [t.location]
  {
    var c := t.children;
    VisitUnfolds(t);
    VisitUnfolds(Tree(t.location, false, c));
    hide *;
    SplitTwice(c, i, j);
    var a, b, d := VisitStack(c[j + 1..]), VisitStack(c[i + 1..j]), VisitStack(c[..i]);
    StackOrder(c[..i], c[i], c[i + 1..j], c[j], c[j + 1..]);
    assert Visit(t) == [t.location] + a + Visit(c[j]) + b + Visit(c[i]) + d;
  }

  lemma StackOrder(low: seq<Tree>, first: Tree, mid: seq<Tree>, second: Tree, high: seq<Tree>)
    ensures VisitStack(low + [first] + mid + [second] + high)
         == VisitStack(high) + Visit(second) + VisitStack(mid) + Visit(first) + VisitStack(low)
  {
    hide *;
    StackAround(low + [first] + mid, second, high);
    StackAround(low, first, mid);
    Regroup(VisitStack(high), Visit(second), VisitStack(mid), Visit(first), VisitStack(low));
  }

  lemma StackAround(low: seq<Tree>, top: Tree, high: seq<Tree>)
    ensures VisitStack(low + [top] + high) == VisitStack(high) + Visit(top) + VisitStack(low)
  {
    hide *;
    VisitsJoin(low + [top], high);
    VisitTop(low, top);
    Associate(VisitStack(high), Visit(top), VisitStack(low));
  }

  lemma Regroup<T>(a: seq<T>, b: seq<T>, c: seq<T>, d: seq<T>, e: seq<T>)
    ensures a + b + (c + d + e) == a + b + c + d + e
  {
  }

  lemma VisitUnfolds(t: Tree)
    ensures Visit(t) == [t.location] + if t.hasChildren then VisitStack(t.children) else []
  {
  }

  lemma VisitTop(below: seq<Tree>, top: Tree)
    ensures VisitStack(below + [top]) == Visit(top) + VisitStack(below)
  {
    assert (below + [top])[..|below|] == below;
  }

  lemma {:induction false} SizesJoin(below: seq<Tree>, above: seq<Tree>)
    ensures SizeAll(below + above) == SizeAll(below) + SizeAll(above)
  {
    hide Size;
    if above == [] {
      assert below + above == below;
    } else {
      var n := |above| - 1;
      SizesJoin(below, above[..n]);
      assert (below + above)[..|below| + n] == below + above[..n];
    }
  }

  lemma {:induction false} LocationsJoin(a: seq<Tree>, b: seq<Tree>)
    ensures LocationsAll(a + b) == LocationsAll(a) + LocationsAll(b)
  {
    if a == [] {
      assert a + b == b;
    } else {
      assert (a + b)[1..] == a[1..] + b;
      LocationsJoin(a[1..], b);
    }
  }

  /** The order lists every block exactly once. */
  lemma {:induction false} VisitsOnce(t: Tree)
    ensures multiset(Visit(t)) == Locations(t)
    decreases t, 0
  {
    if t.hasChildren {
      StackVisitsOnce(t.children);
    }
  }

  lemma {:induction false} StackVisitsOnce(stack: seq<Tree>)
    ensures multiset(VisitStack(stack)) == LocationsAll(stack)
    decreases stack, 1
  {
    if stack != [] {
      var n := |stack| - 1;
      VisitsOnce(stack[n]);
      StackVisitsOnce(stack[..n]);
      hide *;
      SplitLast([], stack);
      LocationsPush(stack[..n], stack[n]);
      VisitTop(stack[..n], stack[n]);
    }
  }

  lemma LocationsPush(below: seq<Tree>, top: Tree)
    ensures LocationsAll(below + [top]) == Locations(top) + LocationsAll(below)
  {
    LocationsJoin(below, [top]);
    assert [top][1..] == [];
    assert LocationsAll([top]) == Locations(top) + LocationsAll([]);
  }

  /** _locations_in_subtree */
  method LocationsInSubtree(node: Tree) returns (locations: seq<Location>)
    ensures locations == Visit(node)
    ensures multiset(locations) == Locations(node)
  {
    hide Locations, LocationsAll, Visit, Size;
    var stack := [node];
    locations := [];
    VisitOne(node);
    while stack != []
      invariant locations + VisitStack(stack) == Visit(node)
      decreases SizeAll(stack)
    {
      var n := |stack| - 1;
      var curr := stack[n];
      PopVisit(stack);
      Associate(locations, [curr.location], VisitStack(stack[..n] + Children(curr)));
      assert stack[..n] + [] == stack[..n];
      stack := stack[..n];
      locations := locations + [curr.location];
      if curr.hasChildren {
        stack := stack + curr.children;
      }
    }
    VisitsOnce(node);
  }

  lemma VisitOne(node: Tree)
    ensures VisitStack([node]) == Visit(node)
  {
    assert [node][..0] == [];
  }

  /** Taking the last block off the stack and pushing its children. */
  lemma PopVisit(stack: seq<Tree>)
    requires stack != []
    ensures var n := |stack| - 1;
            && VisitStack(stack) == [stack[n].location] + VisitStack(stack[..n] + Children(stack[n]))
            && SizeAll(stack[..n] + Children(stack[n])) < SizeAll(stack)
  {
    var n := |stack| - 1;
    var curr := stack[n];
    assert stack[..n] + [] == stack[..n];
    VisitsJoin(stack[..n], Children(curr));
    SizesJoin(stack[..n], Children(curr));
    Associate([curr.location], VisitStack(Children(curr)), VisitStack(stack[..n]));
  }

  // ---- usage keys ----

  type Key = string

  /** The store: the children of every stored block. */
  type Store = map<Key, seq<Key>>

  /** A finite tree of keys; Missing stands for a key without a block. */
  datatype KeyTree = Node(key: Key, children: seq<KeyTree>) | Missing(key: Key)

  /** The store unfolds to the tree. */
  ghost predicate Unfolds(store: Store, t: KeyTree)
    decreases t, 0
  {
    match t
    case Missing(key) => key !in store
    case Node(key, children) =>
      key in store && |store[key]| == |children| && UnfoldsAll(store, store[key], children)
  }

  ghost predicate UnfoldsAll(store: Store, keys: seq<Key>, ts: seq<KeyTree>)
    requires |keys| == |ts|
    decreases ts, 1
  {
    ts == [] || (
      var n := |ts| - 1;
      keys[n] == ts[n].key && Unfolds(store, ts[n]) && UnfoldsAll(store, keys[..n], ts[..n]))
  }

  /** Keys in the order in which they are looked up. */
  function Lookups(t: KeyTree): seq<KeyTree>
    decreases t, 0
  {
    [t] + match t case Missing(_) => [] case Node(_, children) => LookupStack(children)
  }

  function LookupStack(stack: seq<KeyTree>): seq<KeyTree>
    decreases stack, 1
  {
    if stack == [] then [] else Lookups(stack[|stack| - 1]) + LookupStack(stack[..|stack| - 1])
  }

  /** The keys up to the first missing block. */
  function UntilMissing(ts: seq<KeyTree>): seq<Key> {
    if ts == [] || ts[0].Missing? then [] else [ts[0].key] + UntilMissing(ts[1..])
  }

  /** Exactly the keys before the first missing block. */
  lemma {:induction false} StopsAtMissing(ts: seq<KeyTree>)
    ensures var keys := UntilMissing(ts);
            && |keys| <= |ts|
            && (forall i :: 0 <= i < |keys| ==> ts[i].Node? && keys[i] == ts[i].key)
            && (|keys| < |ts| ==> ts[|keys|].Missing?)
  {
    if ts != [] && ts[0].Node? {
      StopsAtMissing(ts[1..]);
    }
  }

  function KeySize(t: KeyTree): nat
    decreases t, 0
  {
    1 + match t case Missing(_) => 0 case Node(_, children) => KeySizeAll(children)
  }

  function KeySizeAll(ts: seq<KeyTree>): nat
    decreases ts, 1
  {
    if ts == [] then 0 else KeySizeAll(ts[..|ts| - 1]) + KeySize(ts[|ts| - 1])
  }

  lemma {:induction false} LookupsJoin(a: seq<KeyTree>, b: seq<KeyTree>)
    ensures LookupStack(a + b) == LookupStack(b) + LookupStack(a)
  {
    if b == [] {
      assert a + b == a;
    } else {
      hide *;
      var n := |b| - 1;
      SplitLast(a, b);
      LookupsJoin(a, b[..n]);
      LookupTop(b[..n], b[n]);
      LookupTop(a + b[..n], b[n]);
      Associate(Lookups(b[n]), LookupStack(b[..n]), LookupStack(a));
    }
  }

  lemma LookupTop(below: seq<KeyTree>, top: KeyTree)
    ensures LookupStack(below + [top]) == Lookups(top) + LookupStack(below)
  {
    assert (below + [top])[..|below|] == below;
  }

  lemma {:induction false} KeySizesJoin(a: seq<KeyTree>, b: seq<KeyTree>)
    ensures KeySizeAll(a + b) == KeySizeAll(a) + KeySizeAll(b)
  {
    hide KeySize;
    if b == [] {
      assert a + b == a;
    } else {
      var n := |b| - 1;
      KeySizesJoin(a, b[..n]);
      assert (a + b)[..|a| + n] == a + b[..n];
    }
  }

  lemma {:induction false} UnfoldsJoin(store: Store, keysA: seq<Key>, a: seq<KeyTree>, keysB: seq<Key>, b: seq<KeyTree>)
    requires |keysA| == |a| && |keysB| == |b| && UnfoldsAll(store, keysA, a) && UnfoldsAll(store, keysB, b)
    ensures UnfoldsAll(store, keysA + keysB, a + b)
  {
    if b == [] {
      assert a + b == a && keysA + keysB == keysA;
    } else {
      hide Unfolds;
      var n := |b| - 1;
      UnfoldsJoin(store, keysA, a, keysB[..n], b[..n]);
      assert (a + b)[..|a| + n] == a + b[..n];
      assert (keysA + keysB)[..|a| + n] == keysA + keysB[..n];
    }
  }

  /** Looking up the last tree of the stack. */
  lemma PopLookup(trees: seq<KeyTree>, found: bool)
    requires trees != [] && found == trees[|trees| - 1].Node?
    ensures var n := |trees| - 1;
            && KeySizeAll(trees[..n]) < KeySizeAll(trees)
            && (if found then
                  && UntilMissing(LookupStack(trees))
                       == [trees[n].key] + UntilMissing(LookupStack(trees[..n] + trees[n].children))
                  && KeySizeAll(trees[..n] + trees[n].children) < KeySizeAll(trees)
                else UntilMissing(LookupStack(trees)) == [])
  {
    var n := |trees| - 1;
    var t, rest := trees[n], LookupStack(trees[..n]);
    assert KeySizeAll(trees) == KeySizeAll(trees[..n]) + KeySize(t);
    if found {
      LookupsJoin(trees[..n], t.children);
      KeySizesJoin(trees[..n], t.children);
      hide LookupStack;
      assert Lookups(t) == [t] + LookupStack(t.children);
      Associate([t], LookupStack(t.children), rest);
      assert ([t] + (LookupStack(t.children) + rest))[1..] == LookupStack(t.children) + rest;
    } else {
      assert Lookups(t) == [t];
    }
  }

  /**
   The descendants loop of create_block_analytics_summary: the proper descendants of key in
   visiting order, up to the first one whose block has been deleted.
   */
  method Descendants(store: Store, key: Key, ghost tree: KeyTree) returns (descendants: seq<Key>)
    requires tree.key == key && Unfolds(store, tree)
    ensures descendants == if tree.Missing? then [] else UntilMissing(LookupStack(tree.children))
  {
    descendants := [];
    if key !in store {
      return;
    }
    var stack := store[key];
    ghost var trees := tree.children;
    while stack != []
      invariant |stack| == |trees| && UnfoldsAll(store, stack, trees)
      invariant descendants + UntilMissing(LookupStack(trees)) == UntilMissing(LookupStack(tree.children))
      decreases KeySizeAll(trees)
    {
      var n := |stack| - 1;
      var child := stack[n];
      PopLookup(trees, child in store);
      if child !in store {
        return;
      }
      descendants := descendants + [child];
      UnfoldsJoin(store, stack[..n], trees[..n], store[child], trees[n].children);
      stack, trees := stack[..n] + store[child], trees[..n] + trees[n].children;
    }
  }

  function Keys(t: KeyTree): multiset<Key>
    decreases t, 0
  {
    multiset{t.key} + match t case Missing(_) => multiset{} case Node(_, children) => KeysAll(children)
  }

  function KeysAll(ts: seq<KeyTree>): multiset<Key>
    decreases ts, 1
  {
    if ts == [] then multiset{} else KeysAll(ts[..|ts| - 1]) + Keys(ts[|ts| - 1])
  }

  predicate Complete(ts: seq<KeyTree>) { forall i :: 0 <= i < |ts| ==> !ts[i].Missing? }

  lemma {:induction false} UntilMissingJoins(a: seq<KeyTree>, b: seq<KeyTree>)
    ensures Complete(a) ==> UntilMissing(a + b) == UntilMissing(a) + UntilMissing(b)
  {
    if a == [] {
      assert a + b == b;
    } else {
      assert (a + b)[1..] == a[1..] + b;
      UntilMissingJoins(a[1..], b);
    }
  }

  lemma CompleteParts(a: seq<KeyTree>, b: seq<KeyTree>)
    ensures Complete(a + b) ==> Complete(a) && Complete(b)
  {
    assert forall i :: 0 <= i < |a| ==> (a + b)[i] == a[i];
    assert forall i :: 0 <= i < |b| ==> (a + b)[|a| + i] == b[i];
  }

  /** When nothing below is missing, every proper descendant is listed exactly once. */
  lemma {:induction false} DescendantsOnce(t: KeyTree)
    requires Complete(Lookups(t))
    ensures multiset(UntilMissing(Lookups(t))) == Keys(t)
    decreases t, 0
  {
    assert Lookups(t)[0] == t;
    if t.Node? {
      assert Lookups(t)[1..] == LookupStack(t.children);
      assert forall i :: 0 <= i < |LookupStack(t.children)| ==> Lookups(t)[i + 1] == LookupStack(t.children)[i];
      StackDescendantsOnce(t.children);
    }
  }

  lemma {:induction false} StackDescendantsOnce(ts: seq<KeyTree>)
    requires Complete(LookupStack(ts))
    ensures multiset(UntilMissing(LookupStack(ts))) == KeysAll(ts)
    decreases ts, 1
  {
    if ts != [] {
      var n := |ts| - 1;
      var a, b := Lookups(ts[n]), LookupStack(ts[..n]);
      CompleteParts(a, b);
      hide Lookups, Complete, Keys;
      DescendantsOnce(ts[n]);
      StackDescendantsOnce(ts[..n]);
      UntilMissingJoins(a, b);
    }
  }
}
