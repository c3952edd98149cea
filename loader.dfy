/** Where `load_from_string` puts each node it creates, and what the loaded
    tree looks like as a whole. */
module Loader {
  import opened Arena
  import opened Walk
  import opened Scanner
  import opened Seqs
  import opened Rules

  /** The section a line of indent `t` read after node `j` joins: walking up
      from `j`, the first node indented less than `t`, or the root. This is the
      ascend loop and the one-step descent together. */
  function Attach(ns: seq<Node>, j: nat, t: int): (r: nat)
    requires ParentsOk(ns) && j < |ns|
    ensures r <= j && AncOrSelf(ns, r, j) && (r == 0 || ns[r].realIndent < t)
    decreases j
  {
    if j == 0 || ns[j].realIndent < t then j else Attach(ns, Parent(ns, j), t)
  }

  /** `Attach` is the NEAREST such node: everything strictly between it and `j`
      is indented at least `t`. */
  lemma {:induction false} AttachNearest(ns: seq<Node>, j: nat, t: int, a: nat)
    requires ParentsOk(ns) && a <= j < |ns|
    requires AncOrSelf(ns, a, j) && AncOrSelf(ns, Attach(ns, j, t), a) && a != Attach(ns, j, t)
    ensures a != 0 && ns[a].realIndent >= t
    decreases j
  {
    if j == 0 || ns[j].realIndent < t {
      AncLe(ns, a, j);
      AncLe(ns, j, a);
      assert false;
    } else if a != j {
      AncLe(ns, a, Parent(ns, j));
      AttachNearest(ns, Parent(ns, j), t, a);
    }
  }

  /** `Attach` reads only parents and indents. */
  lemma {:induction false} AttachFrame(ns: seq<Node>, ns': seq<Node>, j: nat, t: int)
    requires SameParents(ns, ns') && j < |ns|
    requires forall i :: 0 <= i < |ns| ==> ns'[i].realIndent == ns[i].realIndent
    ensures Attach(ns', j, t) == Attach(ns, j, t)
    decreases j
  {
    if j > 0 { AttachFrame(ns, ns', Parent(ns, j), t); }
  }

  /** The node read just before the k-th new one (the root for the first). */
  function Prev(n0: nat, k: nat): nat {
    if k == 0 then 0 else n0 + k - 1
  }

  /** The parent given to the k-th new node: the root for a banner. */
  function PlaceOf(ns: seq<Node>, n0: nat, items: seq<Item>, k: nat): nat
    requires ParentsOk(ns) && 0 < n0 && n0 + |items| <= |ns| && k < |items|
  {
    if items[k].banner then 0 else Attach(ns, Prev(n0, k), items[k].indent)
  }

  /** A node as `add_child` creates it for `it`; later nodes may have become its children. */
  predicate Fresh(n: Node, it: Item) {
    n.text == it.text && n.realIndent == it.indent && n.tags == {} && n.comments == {} &&
    !n.newInConfig && n.orderWeight == DefaultWeight
  }

  /** The indices `[a, a + n)`. */
  function Range(a: nat, n: nat): (r: seq<nat>)
    ensures |r| == n && forall k :: 0 <= k < n ==> r[k] == a + k
  {
    if n == 0 then [] else Range(a, n - 1) + [a + n - 1]
  }

  lemma RangeSnoc(a: nat, n: nat)
    ensures Range(a, n + 1) == Range(a, n) + [a + n]
  {
  }

  /** Node `i` that was there before keeps everything but, for the root, the
      new `real_indent_level` of -1 and new children at the end. */
  predicate KeptAt(ns0: seq<Node>, ns: seq<Node>, i: nat)
    requires i < |ns0| <= |ns|
  {
    ns[i].parent == ns0[i].parent && ns[i].text == ns0[i].text && ns[i].tags == ns0[i].tags &&
    ns[i].comments == ns0[i].comments && ns[i].newInConfig == ns0[i].newInConfig &&
    ns[i].orderWeight == ns0[i].orderWeight &&
    (i > 0 ==> ns[i].realIndent == ns0[i].realIndent && ns[i].children == ns0[i].children) &&
    (i == 0 ==> ns[i].realIndent == -1 && |ns0[i].children| <= |ns[i].children| &&
                ns[i].children[..|ns0[i].children|] == ns0[i].children)
  }

  predicate Kept(ns0: seq<Node>, ns: seq<Node>)
    requires |ns0| <= |ns|
  {
    forall i :: 0 <= i < |ns0| ==> KeptAt(ns0, ns, i)
  }

  /** New nodes hang below the root or below other new nodes. */
  predicate NewBelowNew(ns: seq<Node>, n0: nat) {
    forall x :: n0 <= x < |ns| ==> ns[x].parent == 0 || ns[x].parent >= n0
  }

  /** The k-th new node carries the k-th item and sits where the cursors put it. */
  predicate Placed(ns0: seq<Node>, ns: seq<Node>, items: seq<Item>)
    requires Valid(ns0) && Valid(ns) && |ns| == |ns0| + |items|
  {
    forall k :: 0 <= k < |items| ==> PlacedAt(ns0, ns, items, k)
  }

  predicate PlacedAt(ns0: seq<Node>, ns: seq<Node>, items: seq<Item>, k: nat)
    requires Valid(ns0) && Valid(ns) && |ns| == |ns0| + |items| && k < |items|
  {
    Fresh(ns[|ns0| + k], items[k]) && ns[|ns0| + k].parent == PlaceOf(ns, |ns0|, items, k) &&
    |ns0| + k in ns[PlaceOf(ns, |ns0|, items, k)].children
  }

  /** What the tree is after the lines that made `items`, loaded into `ns0`. */
  predicate Loaded(ns0: seq<Node>, ns: seq<Node>, items: seq<Item>) {
    Valid(ns0) && Valid(ns) && |ns| == |ns0| + |items| && Kept(ns0, ns) &&
    Placed(ns0, ns, items) &&
    NewBelowNew(ns, |ns0|) &&
    RightPath(ns, Prev(|ns0|, |items|)) &&
    // in `all_children()` the new nodes follow the old ones in reading order
    AllChildren(ns) == AllChildren(ns0) + Range(|ns0|, |items|)
  }

  /** `add_child(text, True)` under `p`, then `real_indent_level` set. */
  function Put(ns: seq<Node>, p: nat, it: Item): (r: seq<Node>)
    requires Valid(ns) && p < |ns|
    ensures Valid(r) && SameParents(ns, r) && |r| == |ns| + 1
  {
    var a := AppendChild(ns, p, it.text);
    var r := a[|ns| := a[|ns|].(realIndent := it.indent)];
    forall i | 0 <= i < |r| ensures KidsOk(r, i) { assert KidsOk(a, i); }
    r
  }

  /** Ancestors of new nodes are new nodes or the root. */
  lemma {:induction false} NewAncestors(ns0: seq<Node>, ns: seq<Node>, items: seq<Item>, a: nat, x: nat)
    requires Valid(ns0) && ParentsOk(ns) && |ns| == |ns0| + |items|
    requires NewBelowNew(ns, |ns0|)
    requires x < |ns| && (x == 0 || x >= |ns0|) && AncOrSelf(ns, a, x)
    ensures a == 0 || a >= |ns0|
    decreases x
  {
    if a != x {
      NewAncestors(ns0, ns, items, a, Parent(ns, x));
    }
  }

  lemma LoadStart(ns0: seq<Node>)
    requires Valid(ns0)
    ensures Loaded(ns0, ns0[0 := ns0[0].(realIndent := -1)], [])
  {
    var ns := ns0[0 := ns0[0].(realIndent := -1)];
    forall i | 0 <= i < |ns| ensures KidsOk(ns, i) { assert KidsOk(ns0, i); }
    assert Valid(ns);
    WalkFrame(ns0, ns);
    forall i | 0 <= i < |ns0| ensures KeptAt(ns0, ns, i) {
      assert ns[0].children[..|ns0[0].children|] == ns0[0].children;
    }
    assert AllChildren(ns) == AllChildren(ns0) + Range(|ns0|, 0);
    assert RightPath(ns, Prev(|ns0|, 0));
  }

  lemma PutFacts(ns: seq<Node>, p: nat, it: Item)
    requires Valid(ns) && p < |ns|
    ensures var r := Put(ns, p, it);
      (forall i :: 0 <= i < |ns| && i != p ==> r[i] == ns[i]) &&
      r[p] == ns[p].(children := ns[p].children + [|ns|]) &&
      r[|ns|] == NewNode(p, it.text).(realIndent := it.indent)
  {
  }

  /** Placements already made are not disturbed by a later `Put`. */
  lemma PlacementsStand(ns0: seq<Node>, ns: seq<Node>, items: seq<Item>, it: Item, p: nat)
    requires Valid(ns0) && Valid(ns) && |ns| == |ns0| + |items| && p < |ns|
    requires p == if it.banner then 0 else Attach(ns, Prev(|ns0|, |items|), it.indent)
    ensures forall k :: 0 <= k < |items| ==>
      PlaceOf(Put(ns, p, it), |ns0|, items + [it], k) == PlaceOf(ns, |ns0|, items, k)
    ensures PlaceOf(Put(ns, p, it), |ns0|, items + [it], |items|) == p
  {
    var r := Put(ns, p, it);
    var items' := items + [it];
    assert SameParents(ns, r) && forall i :: 0 <= i < |ns| ==> r[i].realIndent == ns[i].realIndent by {
      PutFacts(ns, p, it);
    }
    forall k | 0 <= k < |items| ensures PlaceOf(r, |ns0|, items', k) == PlaceOf(ns, |ns0|, items, k) {
      PlaceFrame(ns, r, |ns0|, items, items', k);
    }
    assert items'[|items|] == it;
    if !it.banner {
      AttachFrame(ns, r, Prev(|ns0|, |items|), it.indent);
    }
  }

  /** A placement depends only on parents, indents and its own item. */
  lemma PlaceFrame(ns: seq<Node>, r: seq<Node>, n0: nat, items: seq<Item>, items': seq<Item>, k: nat)
    requires SameParents(ns, r) && forall i :: 0 <= i < |ns| ==> r[i].realIndent == ns[i].realIndent
    requires 0 < n0 && n0 + |items| <= |ns| && n0 + |items'| <= |r| && k < |items| && k < |items'|
    requires items'[k] == items[k]
    ensures PlaceOf(r, n0, items', k) == PlaceOf(ns, n0, items, k)
  {
    if !items[k].banner {
      AttachFrame(ns, r, Prev(n0, k), items[k].indent);
    }
  }


  /** The node just created is reached by always taking the last child. */
  lemma RightPathPut(ns: seq<Node>, p: nat, m: nat, it: Item)
    requires Valid(ns) && p <= m < |ns| && RightPath(ns, m) && AncOrSelf(ns, p, m)
    ensures RightPath(Put(ns, p, it), |ns|)
    ensures AllChildren(Put(ns, p, it)) == AllChildren(ns) + [|ns|]
  {
    var a := AppendChild(ns, p, it.text);
    var r := Put(ns, p, it);
    RightPathAnc(ns, p, m);
    RightPathFrame(ns, p, it.text, p);
    RightPathShape(a, r, p);
    PutFacts(ns, p, it);
    assert RightPath(r, |ns|);
    AllChildrenAppend(ns, p, it.text);
    WalkFrame(a, r);
  }

  /** The new nodes, the one just created included, carry their items and
      sit where the cursors put them. */
  lemma NewNodesStand(ns0: seq<Node>, ns: seq<Node>, r: seq<Node>, items: seq<Item>, it: Item, p: nat)
    requires Valid(ns0) && Valid(ns) && Valid(r) && |ns| == |ns0| + |items| && Placed(ns0, ns, items)
    requires |r| == |ns| + 1 && p < |ns|
    requires forall i :: 0 <= i < |ns| && i != p ==> r[i] == ns[i]
    requires r[p] == ns[p].(children := ns[p].children + [|ns|])
    requires r[|ns|] == NewNode(p, it.text).(realIndent := it.indent)
    requires forall k :: 0 <= k < |items| ==> PlaceOf(r, |ns0|, items + [it], k) == PlaceOf(ns, |ns0|, items, k)
    requires PlaceOf(r, |ns0|, items + [it], |items|) == p
    ensures Placed(ns0, r, items + [it])
  {
    var items' := items + [it];
    forall k | 0 <= k < |items'| ensures PlacedAt(ns0, r, items', k) {
      if k < |items| {
        PlacedFrame(ns0, ns, r, items, items', p, k);
      } else {
        PlacedLast(ns0, ns, r, items, it, p);
      }
    }
  }

  /** The node just created carries its item and sits below `p`. */
  lemma PlacedLast(ns0: seq<Node>, ns: seq<Node>, r: seq<Node>, items: seq<Item>, it: Item, p: nat)
    requires Valid(ns0) && Valid(ns) && Valid(r) && |ns| == |ns0| + |items| && |r| == |ns| + 1 && p < |ns|
    requires r[p] == ns[p].(children := ns[p].children + [|ns|])
    requires r[|ns|] == NewNode(p, it.text).(realIndent := it.indent)
    requires PlaceOf(r, |ns0|, items + [it], |items|) == p
    ensures PlacedAt(ns0, r, items + [it], |items|)
  {
    assert (items + [it])[|items|] == it;
  }

  /** An earlier placement survives `add_child` under `p`. */
  lemma PlacedFrame(ns0: seq<Node>, ns: seq<Node>, r: seq<Node>, items: seq<Item>, items': seq<Item>, p: nat, k: nat)
    requires Valid(ns0) && Valid(ns) && Valid(r) && |ns| == |ns0| + |items| && |r| == |ns0| + |items'|
    requires |r| == |ns| + 1 && p < |ns| && k < |items| && k < |items'| && items'[k] == items[k]
    requires forall i :: 0 <= i < |ns| && i != p ==> r[i] == ns[i]
    requires r[p] == ns[p].(children := ns[p].children + [|ns|])
    requires PlaceOf(r, |ns0|, items', k) == PlaceOf(ns, |ns0|, items, k)
    requires Placed(ns0, ns, items)
    ensures PlacedAt(ns0, r, items', k)
  {
    assert PlacedAt(ns0, ns, items, k);
    var q := PlaceOf(ns, |ns0|, items, k);
    assert |ns0| + k in ns[q].children;
  }



  /** The old nodes are not disturbed when the parent is the root or a new node. */
  lemma OldNodesStand(ns0: seq<Node>, ns: seq<Node>, items: seq<Item>, it: Item, p: nat)
    requires Valid(ns0) && Valid(ns) && |ns| == |ns0| + |items| && Kept(ns0, ns)
    requires p < |ns| && (p == 0 || p >= |ns0|)
    ensures Kept(ns0, Put(ns, p, it))
  {
    var r := Put(ns, p, it);
    PutFacts(ns, p, it);
    forall i | 0 <= i < |ns0| ensures KeptAt(ns0, r, i) {
      assert KeptAt(ns0, ns, i);
      if i == 0 && p == 0 {
        assert r[0].children[..|ns0[0].children|] == ns[0].children[..|ns0[0].children|];
      }
    }
  }

  /** One created node keeps the picture: it lands where the cursors say and
      at the end of `all_children()`. */
  lemma LoadStep(ns0: seq<Node>, ns: seq<Node>, items: seq<Item>, it: Item, p: nat)
    requires Loaded(ns0, ns, items)
    requires p == if it.banner then 0 else Attach(ns, Prev(|ns0|, |items|), it.indent)
    ensures Loaded(ns0, Put(ns, p, it), items + [it])
  {
    var m := Prev(|ns0|, |items|);
    assert p <= m && AncOrSelf(ns, p, m) by {
      if it.banner { RootAnc(ns, m); } else { AncLe(ns, p, m); }
    }
    NewAncestors(ns0, ns, items, p, m);
    PutKeeps(ns0, ns, items, it, p);
    RightPathPut(ns, p, m, it);
    PutWalks(ns0, ns, Put(ns, p, it), items);
  }

  /** The node-by-node half of `LoadStep`. */
  lemma PutKeeps(ns0: seq<Node>, ns: seq<Node>, items: seq<Item>, it: Item, p: nat)
    requires Valid(ns0) && Valid(ns) && |ns| == |ns0| + |items| && Kept(ns0, ns)
    requires Placed(ns0, ns, items) && NewBelowNew(ns, |ns0|) && (p == 0 || p >= |ns0|)
    requires p == if it.banner then 0 else Attach(ns, Prev(|ns0|, |items|), it.indent)
    ensures var r := Put(ns, p, it);
      Kept(ns0, r) && Placed(ns0, r, items + [it]) && NewBelowNew(r, |ns0|)
  {
    var r := Put(ns, p, it);
    assert Placed(ns0, r, items + [it]) by {
      PutFacts(ns, p, it);
      PlacementsStand(ns0, ns, items, it, p);
      NewNodesStand(ns0, ns, r, items, it, p);
    }
    assert Kept(ns0, r) by { OldNodesStand(ns0, ns, items, it, p); }
    assert NewBelowNew(r, |ns0|) by { PutFacts(ns, p, it); }
  }

  /** The `all_children()` half of `LoadStep`: the node just created, `|ns|`,
      follows the earlier new nodes. */
  lemma PutWalks(ns0: seq<Node>, ns: seq<Node>, r: seq<Node>, items: seq<Item>)
    requires Valid(ns0) && Valid(ns) && Valid(r) && |ns| == |ns0| + |items| && |r| == |ns| + 1
    requires AllChildren(ns) == AllChildren(ns0) + Range(|ns0|, |items|)
    requires RightPath(r, |ns|) && AllChildren(r) == AllChildren(ns) + [|ns|]
    ensures RightPath(r, Prev(|ns0|, |items| + 1))
    ensures AllChildren(r) == AllChildren(ns0) + Range(|ns0|, |items| + 1)
  {
    assert Prev(|ns0|, |items| + 1) == |ns|;
    RangeSnoc(|ns0|, |items|);
    AppendAssoc(AllChildren(ns0), Range(|ns0|, |items|), [|ns|]);
  }

  /** Every created node is indented strictly deeper than its parent: the
      root sits at -1, a banner at 0, and any other line joins a section
      indented less than itself. */
  lemma IndentAboveParent(ns0: seq<Node>, ns: seq<Node>, items: seq<Item>, x: nat)
    requires Loaded(ns0, ns, items) && GoodItems(items) && |ns0| <= x < |ns|
    ensures ns[x].realIndent > ns[ns[x].parent].realIndent
  {
    var k := x - |ns0|;
    assert PlacedAt(ns0, ns, items, k);
    assert KeptAt(ns0, ns, 0);
    assert GoodItem(items[k]);
  }

  /** The same for a whole `load_from_string`: every node the parse creates
      is indented deeper than its parent. */
  lemma LoadedIndents(re: Regex, o: Options, lines: seq<string>, ns0: seq<Node>, ns: seq<Node>, x: nat)
    requires Loaded(ns0, ns, ScanFrom(re, o, Start, Prepare(re, o.perLineSub, lines)).1)
    requires |ns0| <= x < |ns|
    ensures ns[x].realIndent > ns[ns[x].parent].realIndent
  {
    PrepareStripped(re, o.perLineSub, lines);
    ScanInv(re, o, Start, Prepare(re, o.perLineSub, lines));
    IndentAboveParent(ns0, ns, ScanFrom(re, o, Start, Prepare(re, o.perLineSub, lines)).1, x);
  }
}
