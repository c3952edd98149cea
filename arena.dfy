/** The configuration tree as an arena of nodes: the part of the node primitive
    (`hier_config.base`) that the loader and the rule passes rely on. Index 0 is
    the root (the `HConfig` object itself); every other node records its
    parent's index and the ordered indices of its children. */
module Arena {
  import opened Text

  /** The node primitive's default `order_weight`. */
  const DefaultWeight: int := 500

  /** One configuration line. `parent` is -1 for the root only; a node removed
      from its parent's `children` keeps its `parent`, as a detached Python
      object does. */
  datatype Node = Node(
    parent: int,
    children: seq<nat>,
    text: string,
    tags: set<string>,
    comments: set<string>,
    newInConfig: bool,
    orderWeight: int,
    realIndent: int)

  /** The node `add_child` creates under `parent`. */
  function NewNode(parent: nat, text: string): Node {
    Node(parent, [], text, {}, {}, false, DefaultWeight, 0)
  }

  /** The root of a tree with no lines. */
  const RootNode: Node := Node(-1, [], [], {}, {}, false, DefaultWeight, 0)

  /** Every non-root node's parent was created before it. */
  predicate ParentsOk(ns: seq<Node>) {
    |ns| > 0 && ns[0].parent == -1 &&
    forall i :: 0 < i < |ns| ==> 0 <= ns[i].parent < i
  }

  /** The children of node `i` are later nodes whose parent is `i`, in creation order. */
  predicate KidsOk(ns: seq<Node>, i: nat)
    requires i < |ns|
  {
    var cs := ns[i].children;
    (forall k :: 0 <= k < |cs| ==> i < cs[k] < |ns| && ns[cs[k]].parent == i) &&
    (forall k, l :: 0 <= k < l < |cs| ==> cs[k] < cs[l])
  }

  /** A well-formed arena. */
  predicate Valid(ns: seq<Node>) {
    ParentsOk(ns) && forall i :: 0 <= i < |ns| ==> KidsOk(ns, i)
  }

  function Parent(ns: seq<Node>, i: nat): (p: nat)
    requires ParentsOk(ns) && 0 < i < |ns|
    ensures p < i
  {
    ns[i].parent as nat
  }

  predicate Distinct(s: seq<nat>) {
    forall k, l :: 0 <= k < l < |s| ==> s[k] != s[l]
  }

  /** `node.depth()`: the root has depth 0. */
  function Depth(ns: seq<Node>, i: nat): nat
    requires ParentsOk(ns) && i < |ns|
    decreases i
  {
    if i == 0 then 0 else 1 + Depth(ns, Parent(ns, i))
  }

  /** `node.lineage()`: the ancestors of `i` outermost first, without the root,
      ending with `i` itself. */
  function Lineage(ns: seq<Node>, i: nat): (l: seq<nat>)
    requires ParentsOk(ns) && i < |ns|
    ensures |l| == Depth(ns, i)
    ensures i > 0 ==> l[|l| - 1] == i
    ensures forall k :: 0 <= k < |l| ==> 0 < l[k] <= i
    ensures forall k, m :: 0 <= k < m < |l| ==> l[k] < l[m]
    decreases i
  {
    if i == 0 then [] else Lineage(ns, Parent(ns, i)) + [i]
  }

  /** The texts along the lineage of `i`: what `lineage_test` inspects. */
  function LineageTexts(ns: seq<Node>, i: nat): (t: seq<string>)
    requires ParentsOk(ns) && i < |ns|
  {
    var l := Lineage(ns, i);
    seq(|l|, k requires 0 <= k < |l| => ns[l[k]].text)
  }

  /** `a` is `b` or one of its ancestors. */
  predicate AncOrSelf(ns: seq<Node>, a: nat, b: nat)
    requires ParentsOk(ns) && b < |ns|
    decreases b
  {
    a == b || (b > 0 && AncOrSelf(ns, a, Parent(ns, b)))
  }

  lemma {:induction false} AncLe(ns: seq<Node>, a: nat, b: nat)
    requires ParentsOk(ns) && b < |ns| && AncOrSelf(ns, a, b)
    ensures a <= b
    decreases b
  {
    if a != b { AncLe(ns, a, Parent(ns, b)); }
  }

  /** The root is an ancestor of every node. */
  lemma {:induction false} RootAnc(ns: seq<Node>, b: nat)
    requires ParentsOk(ns) && b < |ns|
    ensures AncOrSelf(ns, 0, b)
    decreases b
  {
    if b > 0 { RootAnc(ns, Parent(ns, b)); }
  }

  lemma {:induction false} AncTrans(ns: seq<Node>, a: nat, b: nat, c: nat)
    requires ParentsOk(ns) && c < |ns| && b <= c
    requires AncOrSelf(ns, a, b) && AncOrSelf(ns, b, c)
    ensures AncOrSelf(ns, a, c)
    decreases c
  {
    if b != c { AncLe(ns, b, Parent(ns, c)); AncTrans(ns, a, b, Parent(ns, c)); }
  }

  /** Two ancestors of one node lie on one chain. */
  lemma {:induction false} AncComparable(ns: seq<Node>, a: nat, b: nat, c: nat)
    requires ParentsOk(ns) && c < |ns|
    requires AncOrSelf(ns, a, c) && AncOrSelf(ns, b, c)
    ensures a <= c && b <= c
    ensures AncOrSelf(ns, a, b) || AncOrSelf(ns, b, a)
    decreases c
  {
    AncLe(ns, a, c);
    AncLe(ns, b, c);
    if a != c && b != c { AncComparable(ns, a, b, Parent(ns, c)); }
  }

  /** Two siblings have no common descendant. */
  lemma SiblingsDisjoint(ns: seq<Node>, c1: nat, c2: nat, y: nat)
    requires ParentsOk(ns) && y < |ns| && 0 < c1 <= y && 0 < c2 <= y
    requires ns[c1].parent == ns[c2].parent
    requires AncOrSelf(ns, c1, y) && AncOrSelf(ns, c2, y)
    ensures c1 == c2
  {
    AncComparable(ns, c1, c2, y);
    if c1 != c2 {
      if AncOrSelf(ns, c1, c2) {
        AncLe(ns, c1, Parent(ns, c2));
      } else {
        AncLe(ns, c2, Parent(ns, c1));
      }
    }
  }

  /** The lineage holds exactly the non-root ancestors-or-self. */
  lemma {:induction false} LineageIsAncestors(ns: seq<Node>, b: nat, x: nat)
    requires ParentsOk(ns) && b < |ns|
    ensures x in Lineage(ns, b) <==> x != 0 && AncOrSelf(ns, x, b)
    decreases b
  {
    if b > 0 {
      LineageIsAncestors(ns, Parent(ns, b), x);
    } else if x != 0 && AncOrSelf(ns, x, b) {
      AncLe(ns, x, b);
    }
  }

  /** The k-th lineage entry sits at depth k + 1. */
  lemma {:induction false} LineageDepth(ns: seq<Node>, b: nat, k: nat)
    requires ParentsOk(ns) && b < |ns| && k < |Lineage(ns, b)|
    ensures Lineage(ns, b)[k] < |ns| && Depth(ns, Lineage(ns, b)[k]) == k + 1
    decreases b
  {
    if k < |Lineage(ns, b)| - 1 { LineageDepth(ns, Parent(ns, b), k); }
  }

  /** `ns'` extends `ns` without moving any existing node. */
  predicate SameParents(ns: seq<Node>, ns': seq<Node>) {
    ParentsOk(ns) && ParentsOk(ns') && |ns| <= |ns'| &&
    forall i :: 0 <= i < |ns| ==> ns'[i].parent == ns[i].parent
  }

  lemma {:induction false} FrameAncestry(ns: seq<Node>, ns': seq<Node>, i: nat)
    requires SameParents(ns, ns') && i < |ns|
    ensures Depth(ns', i) == Depth(ns, i) && Lineage(ns', i) == Lineage(ns, i)
    ensures forall a :: AncOrSelf(ns', a, i) == AncOrSelf(ns, a, i)
    decreases i
  {
    if i > 0 { FrameAncestry(ns, ns', Parent(ns, i)); }
  }

  lemma FrameTexts(ns: seq<Node>, ns': seq<Node>, i: nat)
    requires SameParents(ns, ns') && i < |ns|
    requires forall j :: 0 <= j < |ns| ==> ns'[j].text == ns[j].text
    ensures LineageTexts(ns', i) == LineageTexts(ns, i)
  {
    FrameAncestry(ns, ns', i);
  }

  /** `parent.add_child(text, force_duplicate=True)`: a new node at the end of
      the arena, appended to `p`'s children. */
  function AppendChild(ns: seq<Node>, p: nat, text: string): (r: seq<Node>)
    requires Valid(ns) && p < |ns|
    ensures Valid(r) && SameParents(ns, r) && |r| == |ns| + 1
  {
    var r := ns[p := ns[p].(children := ns[p].children + [|ns|])] + [NewNode(p, text)];
    AppendValid(ns, p, r);
    r
  }

  lemma AppendValid(ns: seq<Node>, p: nat, r: seq<Node>)
    requires Valid(ns) && p < |ns| && |r| == |ns| + 1
    requires forall i :: 0 <= i < |ns| && i != p ==> r[i] == ns[i]
    requires r[p] == ns[p].(children := ns[p].children + [|ns|])
    requires r[|ns|].parent == p && r[|ns|].children == []
    ensures Valid(r) && SameParents(ns, r)
  {
    forall i | 0 <= i < |r| ensures KidsOk(r, i) {
      if i < |ns| { assert KidsOk(ns, i); }
    }
  }
}
