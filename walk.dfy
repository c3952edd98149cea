/** The node primitive's traversals: `all_children` (pre-order in insertion
    order) and `all_children_sorted` (pre-order with each node's children
    ordered by `order_weight`, ties kept in insertion order), with the facts
    about them the rule passes and the serializer need. */
module Walk {
  import opened Arena
  import opened Seqs

  /** Every index of `s` is a node of `ns`. */
  predicate InRange(ns: seq<Node>, s: seq<nat>) {
    forall k :: 0 <= k < |s| ==> s[k] < |ns|
  }

  /** Non-decreasing `order_weight`. */
  predicate Sorted(ns: seq<Node>, s: seq<nat>)
    requires InRange(ns, s)
  {
    forall k, l :: 0 <= k < l < |s| ==> ns[s[k]].orderWeight <= ns[s[l]].orderWeight
  }

  /** `x` inserted into `s` after the longest prefix of weight at most its own. */
  function Insert(ns: seq<Node>, x: nat, s: seq<nat>): (r: seq<nat>)
    requires x < |ns| && InRange(ns, s)
    ensures |r| == |s| + 1 && InRange(ns, r)
  {
    if s == [] then [x]
    else if ns[x].orderWeight < ns[s[0]].orderWeight then [x] + s
    else [s[0]] + Insert(ns, x, s[1..])
  }

  /** A stable sort of the indices `cs` by `order_weight`: the order in which
      `all_children_sorted` visits siblings. */
  function SortByWeight(ns: seq<Node>, cs: seq<nat>): (r: seq<nat>)
    requires InRange(ns, cs)
    ensures |r| == |cs| && InRange(ns, r)
  {
    if cs == [] then [] else Insert(ns, cs[|cs| - 1], SortByWeight(ns, cs[..|cs| - 1]))
  }

  lemma {:induction false} InsertPerm(ns: seq<Node>, x: nat, s: seq<nat>)
    requires x < |ns| && InRange(ns, s)
    ensures multiset(Insert(ns, x, s)) == multiset(s) + multiset{x}
  {
    if s != [] && ns[x].orderWeight >= ns[s[0]].orderWeight {
      InsertPerm(ns, x, s[1..]);
      assert s == [s[0]] + s[1..];
    }
  }

  lemma {:induction false} InsertSorted(ns: seq<Node>, x: nat, s: seq<nat>)
    requires x < |ns| && InRange(ns, s) && Sorted(ns, s)
    ensures Sorted(ns, Insert(ns, x, s))
  {
    if s != [] && ns[x].orderWeight >= ns[s[0]].orderWeight {
      var t := s[1..];
      InsertSorted(ns, x, t);
      InsertPerm(ns, x, t);
      var r := Insert(ns, x, t);
      forall l | 0 <= l < |r| ensures ns[s[0]].orderWeight <= ns[r[l]].orderWeight {
        assert r[l] in multiset(r);
        if r[l] != x {
          assert r[l] in multiset(t);
          var m :| 0 <= m < |t| && t[m] == r[l];
          assert s[m + 1] == r[l];
        }
      }
    }
  }

  /** The sort permutes its input. */
  lemma {:induction false} SortPerm(ns: seq<Node>, cs: seq<nat>)
    requires InRange(ns, cs)
    ensures multiset(SortByWeight(ns, cs)) == multiset(cs)
  {
    if cs != [] {
      var init := cs[..|cs| - 1];
      assert cs == init + [cs[|cs| - 1]];
      SortPerm(ns, init);
      InsertPerm(ns, cs[|cs| - 1], SortByWeight(ns, init));
    }
  }

  /** The sort orders its input by weight. */
  lemma {:induction false} SortSorted(ns: seq<Node>, cs: seq<nat>)
    requires InRange(ns, cs)
    ensures Sorted(ns, SortByWeight(ns, cs))
  {
    if cs != [] {
      var init := cs[..|cs| - 1];
      SortSorted(ns, init);
      InsertSorted(ns, cs[|cs| - 1], SortByWeight(ns, init));
    }
  }

  /** When all weights are equal the sort keeps insertion order. */
  lemma {:induction false} SortUniform(ns: seq<Node>, cs: seq<nat>, w: int)
    requires InRange(ns, cs)
    requires forall k :: 0 <= k < |cs| ==> ns[cs[k]].orderWeight == w
    ensures SortByWeight(ns, cs) == cs
  {
    if cs != [] {
      var init := cs[..|cs| - 1];
      SortUniform(ns, init, w);
      InsertAtEnd(ns, cs[|cs| - 1], init, w);
      assert cs == init + [cs[|cs| - 1]];
    }
  }

  lemma {:induction false} InsertAtEnd(ns: seq<Node>, x: nat, s: seq<nat>, w: int)
    requires x < |ns| && InRange(ns, s) && ns[x].orderWeight == w
    requires forall k :: 0 <= k < |s| ==> ns[s[k]].orderWeight == w
    ensures Insert(ns, x, s) == s + [x]
  {
    if s != [] {
      InsertAtEnd(ns, x, s[1..], w);
      assert s == [s[0]] + s[1..];
    }
  }

  /** A sequence without repetitions has each element once in its multiset. */
  lemma {:induction false} DistinctMultiset(s: seq<nat>)
    ensures Distinct(s) <==> forall x :: multiset(s)[x] <= 1
  {
    if s != [] {
      var t := s[1..];
      assert s == [s[0]] + t;
      DistinctMultiset(t);
      if Distinct(s) {
        assert s[0] !in t;
        assert Distinct(t) by {
          forall k, l | 0 <= k < l < |t| ensures t[k] != t[l] { assert s[k + 1] != s[l + 1]; }
        }
      } else {
        var k, l :| 0 <= k < l < |s| && s[k] == s[l];
        if k == 0 {
          assert s[l] == t[l - 1];
          assert multiset(s)[s[0]] >= 2;
        } else {
          assert t[k - 1] == t[l - 1];
          assert !Distinct(t);
          var y :| multiset(t)[y] > 1;
          assert multiset(s)[y] >= multiset(t)[y];
        }
      }
    }
  }

  /** The children of `i` in visiting order. */
  function Kids(ns: seq<Node>, i: nat, sorted: bool): (r: seq<nat>)
    requires Valid(ns) && i < |ns|
    ensures Above(ns, r, i) && forall k :: 0 <= k < |r| ==> ns[r[k]].parent == i
  {
    assert KidsOk(ns, i);
    var cs := ns[i].children;
    if sorted then
      var r := SortByWeight(ns, cs);
      SortPerm(ns, cs);
      forall k | 0 <= k < |r| ensures i < r[k] < |ns| && ns[r[k]].parent == i {
        assert r[k] in multiset(cs);
      }
      r
    else cs
  }

  /** Either order visits each child of `i` exactly once. */
  lemma KidsPerm(ns: seq<Node>, i: nat, sorted: bool)
    requires Valid(ns) && i < |ns|
    ensures multiset(Kids(ns, i, sorted)) == multiset(ns[i].children)
    ensures Family(ns, Kids(ns, i, sorted), i)
  {
    assert KidsOk(ns, i);
    var cs := ns[i].children;
    if sorted {
      SortPerm(ns, cs);
      DistinctMultiset(cs);
      DistinctMultiset(Kids(ns, i, sorted));
    }
  }

  /** The pre-order walk of the subtree at `i`, `i` first. */
  function Sub(ns: seq<Node>, i: nat, sorted: bool): (r: seq<nat>)
    requires Valid(ns) && i < |ns|
    ensures |r| > 0 && r[0] == i && forall k :: 0 <= k < |r| ==> i <= r[k] < |ns|
    decreases |ns| - i + 1, 0
  {
    assert KidsOk(ns, i);
    [i] + Forest(ns, Kids(ns, i, sorted), i, sorted)
  }

  /** The walks of the subtrees at `cs`, one after the other. */
  function Forest(ns: seq<Node>, cs: seq<nat>, b: nat, sorted: bool): (r: seq<nat>)
    requires Valid(ns) && b < |ns| && Above(ns, cs, b)
    ensures Above(ns, r, b)
    decreases |ns| - b, |cs|
  {
    if cs == [] then [] else Sub(ns, cs[0], sorted) + Forest(ns, cs[1..], b, sorted)
  }

  /** `all_children()` */
  function AllChildren(ns: seq<Node>): (r: seq<nat>)
    requires Valid(ns)
    ensures InRange(ns, r)
  {
    assert KidsOk(ns, 0);
    Forest(ns, ns[0].children, 0, false)
  }

  /** `all_children_sorted()` */
  function AllChildrenSorted(ns: seq<Node>): (r: seq<nat>)
    requires Valid(ns)
    ensures InRange(ns, r)
  {
    assert KidsOk(ns, 0);
    Forest(ns, Kids(ns, 0, true), 0, true)
  }

  /** Every index of `cs` is a node created after `b`. */
  predicate Above(ns: seq<Node>, cs: seq<nat>, b: nat) {
    forall k :: 0 <= k < |cs| ==> b < cs[k] < |ns|
  }

  /** `cs` lists distinct children of `b`. */
  predicate Family(ns: seq<Node>, cs: seq<nat>, b: nat) {
    Above(ns, cs, b) && Distinct(cs) && forall k :: 0 <= k < |cs| ==> ns[cs[k]].parent == b
  }

  /** Every node of a walk lies in the subtree it starts from. */
  lemma {:induction false} SubAnc(ns: seq<Node>, j: nat, sorted: bool, y: nat)
    requires Valid(ns) && j < |ns| && y in Sub(ns, j, sorted)
    ensures y < |ns| && AncOrSelf(ns, j, y)
    decreases |ns| - j + 1, 0
  {
    if y != j {
      var cs := Kids(ns, j, sorted);
      ForestAnc(ns, cs, j, sorted, y);
      var k :| 0 <= k < |cs| && AncOrSelf(ns, cs[k], y);
      AncLe(ns, cs[k], y);
      assert AncOrSelf(ns, j, cs[k]);
      AncTrans(ns, j, cs[k], y);
    }
  }

  lemma {:induction false} ForestAnc(ns: seq<Node>, cs: seq<nat>, b: nat, sorted: bool, y: nat)
    requires Valid(ns) && b < |ns| && Above(ns, cs, b) && y in Forest(ns, cs, b, sorted)
    ensures y < |ns| && exists k :: 0 <= k < |cs| && AncOrSelf(ns, cs[k], y)
    decreases |ns| - b, |cs|
  {
    if y in Sub(ns, cs[0], sorted) {
      SubAnc(ns, cs[0], sorted, y);
    } else {
      ForestAnc(ns, cs[1..], b, sorted, y);
      var k :| 0 <= k < |cs| - 1 && AncOrSelf(ns, cs[1..][k], y);
      assert AncOrSelf(ns, cs[k + 1], y);
    }
  }

  lemma DistinctConcat(a: seq<nat>, b: seq<nat>)
    requires Distinct(a) && Distinct(b) && forall y :: y in a ==> y !in b
    ensures Distinct(a + b)
  {
    var c := a + b;
    forall k, l | 0 <= k < l < |c| ensures c[k] != c[l] {
      if k < |a| && l >= |a| {
        assert c[k] in a && c[l] == b[l - |a|];
      } else if k >= |a| {
        assert c[k] == b[k - |a|] && c[l] == b[l - |a|];
      }
    }
  }

  /** A walk visits each node at most once. */
  lemma {:induction false} SubDistinct(ns: seq<Node>, j: nat, sorted: bool)
    requires Valid(ns) && j < |ns|
    ensures Distinct(Sub(ns, j, sorted))
    decreases |ns| - j + 1, 0
  {
    var cs := Kids(ns, j, sorted);
    KidsPerm(ns, j, sorted);
    var f := Forest(ns, cs, j, sorted);
    ForestDistinct(ns, cs, j, sorted);
    DistinctConcat([j], f);
  }

  lemma {:induction false} ForestDistinct(ns: seq<Node>, cs: seq<nat>, b: nat, sorted: bool)
    requires Valid(ns) && b < |ns| && Family(ns, cs, b)
    ensures Distinct(Forest(ns, cs, b, sorted))
    decreases |ns| - b, |cs|
  {
    if cs != [] {
      var rest := cs[1..];
      assert Family(ns, rest, b);
      SubDistinct(ns, cs[0], sorted);
      ForestDistinct(ns, rest, b, sorted);
      var a := Sub(ns, cs[0], sorted);
      var f := Forest(ns, rest, b, sorted);
      forall y | y in a ensures y !in f {
        if y in f {
          SubAnc(ns, cs[0], sorted, y);
          ForestAnc(ns, rest, b, sorted, y);
          var k :| 0 <= k < |rest| && AncOrSelf(ns, rest[k], y);
          AncLe(ns, rest[k], y);
          AncLe(ns, cs[0], y);
          assert cs[k + 1] == rest[k];
          SiblingsDisjoint(ns, cs[0], rest[k], y);
        }
      }
      DistinctConcat(a, f);
    }
  }

  /** `all_children()` and `all_children_sorted()` yield each node at most once. */
  lemma WalksDistinct(ns: seq<Node>)
    requires Valid(ns)
    ensures Distinct(AllChildren(ns)) && Distinct(AllChildrenSorted(ns))
    ensures InRange(ns, AllChildren(ns)) && InRange(ns, AllChildrenSorted(ns))
  {
    KidsPerm(ns, 0, false);
    KidsPerm(ns, 0, true);
    ForestDistinct(ns, Kids(ns, 0, false), 0, false);
    ForestDistinct(ns, Kids(ns, 0, true), 0, true);
  }

  /** A walk lists every ancestor of a visited node, up to the walk's start,
      no later than the node itself. */
  lemma {:induction false} SubAncBefore(ns: seq<Node>, j: nat, sorted: bool, k: nat, a: nat)
    requires Valid(ns) && j < |ns| && k < |Sub(ns, j, sorted)|
    requires AncOrSelf(ns, a, Sub(ns, j, sorted)[k]) && a < |ns| && AncOrSelf(ns, j, a)
    ensures a in Sub(ns, j, sorted)[..k + 1]
    decreases |ns| - j + 1, 0, 1
  {
    if a != j {
      if k == 0 {
        AncLe(ns, a, j);
        AncLe(ns, j, a);
      } else {
        SubAncBeforeTail(ns, j, sorted, k, a);
      }
    }
  }

  /** `SubAncBefore` below the walk's start. */
  lemma {:induction false} SubAncBeforeTail(ns: seq<Node>, j: nat, sorted: bool, k: nat, a: nat)
    requires Valid(ns) && j < |ns| && 0 < k < |Sub(ns, j, sorted)|
    requires AncOrSelf(ns, a, Sub(ns, j, sorted)[k]) && a < |ns| && a != j && AncOrSelf(ns, j, a)
    ensures a in Sub(ns, j, sorted)[..k + 1]
    decreases |ns| - j + 1, 0, 0
  {
    var s := Sub(ns, j, sorted);
    var cs := Kids(ns, j, sorted);
    KidsPerm(ns, j, sorted);
    var f := Forest(ns, cs, j, sorted);
    assert s == [j] + f;
    assert f[k - 1] == s[k];
    ForestAncBefore(ns, cs, j, sorted, k - 1, a);
    assert s[..k + 1] == [j] + f[..k];
  }

  lemma {:induction false} ForestAncBefore(ns: seq<Node>, cs: seq<nat>, b: nat, sorted: bool, k: nat, a: nat)
    requires Valid(ns) && b < |ns| && Family(ns, cs, b) && k < |Forest(ns, cs, b, sorted)|
    requires AncOrSelf(ns, a, Forest(ns, cs, b, sorted)[k]) && a < |ns| && a != b && AncOrSelf(ns, b, a)
    ensures a in Forest(ns, cs, b, sorted)[..k + 1]
    decreases |ns| - b, |cs|, 1
  {
    if k < |Sub(ns, cs[0], sorted)| {
      AncBeforeHead(ns, cs, b, sorted, k, a);
    } else {
      AncBeforeTail(ns, cs, b, sorted, k, a);
    }
  }

  /** `ForestAncBefore` when the node lies in the first subtree. */
  lemma {:induction false} AncBeforeHead(ns: seq<Node>, cs: seq<nat>, b: nat, sorted: bool, k: nat, a: nat)
    requires Valid(ns) && b < |ns| && Family(ns, cs, b) && cs != [] && k < |Sub(ns, cs[0], sorted)|
    requires AncOrSelf(ns, a, Forest(ns, cs, b, sorted)[k]) && a < |ns| && a != b && AncOrSelf(ns, b, a)
    ensures a in Forest(ns, cs, b, sorted)[..k + 1]
    decreases |ns| - b, |cs|, 0
  {
    var f := Forest(ns, cs, b, sorted);
    var hd := Sub(ns, cs[0], sorted);
    assert f == hd + Forest(ns, cs[1..], b, sorted);
    var y := f[k];
    assert y == hd[k] && y in hd;
    SubAnc(ns, cs[0], sorted, y);
    AncComparable(ns, a, cs[0], y);
    if AncOrSelf(ns, a, cs[0]) && a != cs[0] {
      assert AncOrSelf(ns, a, b);
      AncLe(ns, a, b);
      AncLe(ns, b, a);
    }
    if a == cs[0] {
      assert f[0] == a;
    } else {
      SubAncBefore(ns, cs[0], sorted, k, a);
      assert f[..k + 1] == hd[..k + 1];
    }
  }

  /** `ForestAncBefore` when the node lies in a later subtree. */
  lemma {:induction false} AncBeforeTail(ns: seq<Node>, cs: seq<nat>, b: nat, sorted: bool, k: nat, a: nat)
    requires Valid(ns) && b < |ns| && Family(ns, cs, b) && cs != [] && k < |Forest(ns, cs, b, sorted)|
    requires k >= |Sub(ns, cs[0], sorted)|
    requires AncOrSelf(ns, a, Forest(ns, cs, b, sorted)[k]) && a < |ns| && a != b && AncOrSelf(ns, b, a)
    ensures a in Forest(ns, cs, b, sorted)[..k + 1]
    decreases |ns| - b, |cs|, 0
  {
    var f := Forest(ns, cs, b, sorted);
    var hd := Sub(ns, cs[0], sorted);
    var tl := Forest(ns, cs[1..], b, sorted);
    assert f == hd + tl;
    assert Family(ns, cs[1..], b);
    assert tl[k - |hd|] == f[k];
    ForestAncBefore(ns, cs[1..], b, sorted, k - |hd|, a);
    assert f[..k + 1] == hd + tl[..k - |hd| + 1];
  }

  /** The depths of the nodes `s`, in order. */
  function DepthsOf(ns: seq<Node>, s: seq<nat>): (ds: seq<nat>)
    requires ParentsOk(ns) && InRange(ns, s)
    ensures |ds| == |s|
  {
    seq(|s|, k requires 0 <= k < |s| => Depth(ns, s[k]))
  }

  /** Each depth is at most one more than the one before it. */
  predicate Stepwise(ds: seq<nat>) {
    forall k :: 0 < k < |ds| ==> ds[k] <= ds[k - 1] + 1
  }

  lemma StepwiseConcat(a: seq<nat>, b: seq<nat>)
    requires Stepwise(a) && Stepwise(b)
    requires a != [] && b != [] ==> b[0] <= a[|a| - 1] + 1
    ensures Stepwise(a + b)
  {
    var c := a + b;
    forall k | 0 < k < |c| ensures c[k] <= c[k - 1] + 1 {
      if k < |a| { assert c[k] == a[k] && c[k - 1] == a[k - 1]; }
      else if k == |a| { assert c[k] == b[0] && c[k - 1] == a[k - 1]; }
      else { assert c[k] == b[k - |a|] && c[k - 1] == b[k - 1 - |a|]; }
    }
  }

  /** The depths along a walk start at the subtree root's depth, never go
      above it, and grow by at most one from one node to the next. */
  lemma {:induction false} SubShape(ns: seq<Node>, j: nat, sorted: bool)
    requires Valid(ns) && j < |ns|
    ensures var ds := DepthsOf(ns, Sub(ns, j, sorted));
      ds[0] == Depth(ns, j) && Stepwise(ds) && forall k :: 0 <= k < |ds| ==> ds[k] >= Depth(ns, j)
    decreases |ns| - j + 1, 0
  {
    var cs := Kids(ns, j, sorted);
    KidsPerm(ns, j, sorted);
    var f := Forest(ns, cs, j, sorted);
    ForestShape(ns, cs, j, sorted);
    assert DepthsOf(ns, Sub(ns, j, sorted)) == [Depth(ns, j)] + DepthsOf(ns, f);
    StepwiseConcat([Depth(ns, j)], DepthsOf(ns, f));
  }

  lemma DepthsConcat(ns: seq<Node>, a: seq<nat>, c: seq<nat>)
    requires ParentsOk(ns) && InRange(ns, a) && InRange(ns, c)
    ensures InRange(ns, a + c) && DepthsOf(ns, a + c) == DepthsOf(ns, a) + DepthsOf(ns, c)
  {
    assert InRange(ns, a + c) by {
      forall k | 0 <= k < |a + c| ensures (a + c)[k] < |ns| {
        if k >= |a| { assert (a + c)[k] == c[k - |a|]; }
      }
    }
  }

  lemma {:induction false} ForestShape(ns: seq<Node>, cs: seq<nat>, b: nat, sorted: bool)
    requires Valid(ns) && b < |ns| && Family(ns, cs, b)
    ensures var ds := DepthsOf(ns, Forest(ns, cs, b, sorted));
      Stepwise(ds) && (ds != [] ==> ds[0] == Depth(ns, b) + 1) &&
      forall k :: 0 <= k < |ds| ==> ds[k] >= Depth(ns, b) + 1
    decreases |ns| - b, |cs|
  {
    if cs != [] {
      var rest := cs[1..];
      assert Family(ns, rest, b);
      var hd := Sub(ns, cs[0], sorted);
      var tl := Forest(ns, rest, b, sorted);
      assert Forest(ns, cs, b, sorted) == hd + tl;
      SubShape(ns, cs[0], sorted);
      ForestShape(ns, rest, b, sorted);
      assert Depth(ns, cs[0]) == Depth(ns, b) + 1;
      var dh := DepthsOf(ns, hd);
      var dt := DepthsOf(ns, tl);
      DepthsConcat(ns, hd, tl);
      StepwiseConcat(dh, dt);
      assert forall k :: 0 <= k < |dh + dt| ==> (dh + dt)[k] >= Depth(ns, b) + 1;
    }
  }

  /** `x` is reached from the root by always taking the last child: appending a
      node below `x` puts it at the end of the walk. */
  predicate RightPath(ns: seq<Node>, x: nat)
    requires ParentsOk(ns) && x < |ns|
    decreases x
  {
    x == 0 ||
    (var q := Parent(ns, x);
     |ns[q].children| > 0 && ns[q].children[|ns[q].children| - 1] == x && RightPath(ns, q))
  }

  lemma {:induction false} RightPathAnc(ns: seq<Node>, a: nat, x: nat)
    requires ParentsOk(ns) && a <= x < |ns| && RightPath(ns, x) && AncOrSelf(ns, a, x)
    ensures RightPath(ns, a)
    decreases x
  {
    if a != x { AncLe(ns, a, Parent(ns, x)); RightPathAnc(ns, a, Parent(ns, x)); }
  }

  /** Below an ancestor on the right path, the path continues through its last child. */
  lemma {:induction false} RightPathChild(ns: seq<Node>, j: nat, p: nat)
    requires ParentsOk(ns) && j < p < |ns| && RightPath(ns, p) && AncOrSelf(ns, j, p)
    ensures |ns[j].children| > 0
    ensures var c := ns[j].children[|ns[j].children| - 1]; c < |ns| && AncOrSelf(ns, c, p)
    decreases p
  {
    var q := Parent(ns, p);
    if q != j {
      AncLe(ns, j, q);
      RightPathChild(ns, j, q);
      var c := ns[j].children[|ns[j].children| - 1];
      AncLe(ns, c, q);
      AncTrans(ns, c, q, p);
    }
  }

  /** After `AppendChild(ns, p, _)`: the right path still reaches `p`. */
  lemma {:induction false} RightPathFrame(ns: seq<Node>, p: nat, t: string, x: nat)
    requires Valid(ns) && p < |ns| && x < |ns| && RightPath(ns, x) && AncOrSelf(ns, x, p)
    ensures RightPath(AppendChild(ns, p, t), x)
    decreases x
  {
    if x > 0 {
      var q := Parent(ns, x);
      AncLe(ns, x, p);
      AncTrans(ns, q, x, p);
      RightPathFrame(ns, p, t, q);
    }
  }

  lemma ForestConcat(ns: seq<Node>, a: seq<nat>, c: seq<nat>, b: nat, sorted: bool)
    requires Valid(ns) && b < |ns| && Above(ns, a, b) && Above(ns, c, b)
    ensures Above(ns, a + c, b)
    ensures Forest(ns, a + c, b, sorted) == Forest(ns, a, b, sorted) + Forest(ns, c, b, sorted)
    decreases |a|
  {
    if a != [] {
      assert (a + c)[0] == a[0];
      assert (a + c)[1..] == a[1..] + c;
      ForestConcat(ns, a[1..], c, b, sorted);
    } else {
      assert a + c == c;
    }
  }

  /** Some subtree rooted in `cs` contains `p`. */
  predicate Touches(ns: seq<Node>, cs: seq<nat>, p: nat)
    requires ParentsOk(ns) && p < |ns|
    decreases |cs|
  {
    cs != [] && (AncOrSelf(ns, cs[0], p) || Touches(ns, cs[1..], p))
  }

  lemma {:induction false} TouchesAt(ns: seq<Node>, cs: seq<nat>, p: nat, k: nat)
    requires ParentsOk(ns) && p < |ns| && k < |cs| && AncOrSelf(ns, cs[k], p)
    ensures Touches(ns, cs, p)
    decreases k
  {
    if k > 0 {
      assert cs[1..][k - 1] == cs[k];
      TouchesAt(ns, cs[1..], p, k - 1);
    }
  }

  lemma {:induction false} TouchesNone(ns: seq<Node>, cs: seq<nat>, p: nat)
    requires ParentsOk(ns) && p < |ns| && forall k :: 0 <= k < |cs| ==> !AncOrSelf(ns, cs[k], p)
    ensures !Touches(ns, cs, p)
    decreases |cs|
  {
    if cs != [] {
      assert forall k :: 0 <= k < |cs| - 1 ==> cs[1..][k] == cs[k + 1];
      TouchesNone(ns, cs[1..], p);
    }
  }

  /** `ns'` is `ns` with one more node, `|ns|`, appended to the children of `p`. */
  predicate Appended(ns: seq<Node>, ns': seq<Node>, p: nat) {
    Valid(ns) && Valid(ns') && p < |ns| && |ns'| == |ns| + 1 &&
    (forall i :: 0 <= i < |ns| && i != p ==> ns'[i] == ns[i]) &&
    ns'[p].children == ns[p].children + [|ns|] && ns'[|ns|].children == []
  }

  lemma AppendFacts(ns: seq<Node>, p: nat, t: string)
    requires Valid(ns) && p < |ns|
    ensures Appended(ns, AppendChild(ns, p, t), p)
  {
  }

  /** Appending a child to a node on the right path adds the new node at the
      end of the walk of each of that node's ancestors, and nowhere else. */
  lemma {:induction false} SubAppend(ns: seq<Node>, ns': seq<Node>, p: nat, j: nat)
    requires Appended(ns, ns', p) && RightPath(ns, p) && j < |ns|
    ensures Sub(ns', j, false) == if AncOrSelf(ns, j, p) then Sub(ns, j, false) + [|ns|] else Sub(ns, j, false)
    decreases |ns| - j + 1, 1, 0
  {
    if j == p {
      SubAppendAt(ns, ns', p);
    } else if AncOrSelf(ns, j, p) {
      SubAppendAbove(ns, ns', p, j);
    } else {
      SubAppendAside(ns, ns', p, j);
    }
  }

  /** No subtree rooted at a child of `j` contains `j` itself. */
  lemma NoTouchSelf(ns: seq<Node>, j: nat)
    requires Valid(ns) && j < |ns|
    ensures KidsOk(ns, j) && !Touches(ns, ns[j].children, j)
  {
    assert KidsOk(ns, j);
    var cs := ns[j].children;
    forall k | 0 <= k < |cs| ensures !AncOrSelf(ns, cs[k], j) {
      if AncOrSelf(ns, cs[k], j) { AncLe(ns, cs[k], j); }
    }
    TouchesNone(ns, cs, j);
  }

  /** The walk of the parent of the new node gains it at the end. */
  lemma {:induction false} SubAppendAt(ns: seq<Node>, ns': seq<Node>, p: nat)
    requires Appended(ns, ns', p) && RightPath(ns, p)
    ensures Sub(ns', p, false) == Sub(ns, p, false) + [|ns|]
    decreases |ns| - p + 1, 0, 0
  {
    var n := |ns|;
    NoTouchSelf(ns, p);
    var cs := ns[p].children;
    ForestAppend(ns, ns', p, p, 0);
    assert cs[0..] == cs;
    var f := Forest(ns, cs, p, false);
    assert Forest(ns', cs, p, false) == f;
    assert Sub(ns, p, false) == [p] + f;
    assert Above(ns', cs, p);
    assert Sub(ns', n, false) == [n] + Forest(ns', [], n, false) == [n];
    assert Forest(ns', [n], p, false) == Sub(ns', n, false) + Forest(ns', [], p, false) == [n];
    ForestConcat(ns', cs, [n], p, false);
    assert Forest(ns', cs + [n], p, false) == f + [n];
    assert Sub(ns', p, false) == [p] + (f + [n]);
    AppendAssoc([p], f, [n]);
  }

  /** A strict ancestor of the new node's parent gains it at the end. */
  lemma {:induction false} SubAppendAbove(ns: seq<Node>, ns': seq<Node>, p: nat, j: nat)
    requires Appended(ns, ns', p) && RightPath(ns, p) && j < |ns| && j != p && AncOrSelf(ns, j, p)
    ensures Sub(ns', j, false) == Sub(ns, j, false) + [|ns|]
    decreases |ns| - j + 1, 0, 0
  {
    assert KidsOk(ns, j);
    var cs := ns[j].children;
    var f := Forest(ns, cs, j, false);
    assert Forest(ns', cs, j, false) == f + [|ns|] by {
      ForestAppend(ns, ns', p, j, 0);
      assert cs[0..] == cs;
      AncLe(ns, j, p);
      RightPathChild(ns, j, p);
      TouchesAt(ns, cs, p, |cs| - 1);
    }
    assert Sub(ns', j, false) == [j] + Forest(ns', cs, j, false) by {
      assert ns'[j] == ns[j];
    }
    AppendAssoc([j], f, [|ns|]);
  }

  /** Any other node keeps its walk. */
  lemma {:induction false} SubAppendAside(ns: seq<Node>, ns': seq<Node>, p: nat, j: nat)
    requires Appended(ns, ns', p) && RightPath(ns, p) && j < |ns| && !AncOrSelf(ns, j, p)
    ensures Sub(ns', j, false) == Sub(ns, j, false)
    decreases |ns| - j + 1, 0, 0
  {
    assert KidsOk(ns, j);
    var cs := ns[j].children;
    ForestAppend(ns, ns', p, j, 0);
    assert cs[0..] == cs;
    forall k | 0 <= k < |cs| ensures !AncOrSelf(ns, cs[k], p) {
      if AncOrSelf(ns, cs[k], p) {
        assert AncOrSelf(ns, j, cs[k]);
        AncLe(ns, cs[k], p);
        AncTrans(ns, j, cs[k], p);
      }
    }
    TouchesNone(ns, cs, p);
    assert Sub(ns', j, false) == [j] + Forest(ns', cs, j, false);
  }

  lemma {:induction false} ForestAppend(ns: seq<Node>, ns': seq<Node>, p: nat, b: nat, i: nat)
    requires Appended(ns, ns', p) && RightPath(ns, p) && b < |ns|
    requires KidsOk(ns, b) && i <= |ns[b].children|
    ensures Above(ns, ns[b].children[i..], b)
    ensures var cs := ns[b].children[i..];
      Forest(ns', cs, b, false) ==
      if Touches(ns, cs, p) then Forest(ns, cs, b, false) + [|ns|] else Forest(ns, cs, b, false)
    decreases |ns| - b, 2, 2 * (|ns[b].children| - i) + 1
  {
    var ks := ns[b].children;
    var cs := ks[i..];
    assert Above(ns, cs, b) by {
      forall k | 0 <= k < |cs| ensures b < cs[k] < |ns| { assert cs[k] == ks[i + k]; }
    }
    if i < |ks| {
      ForestAppendCons(ns, ns', p, b, i);
    }
  }

  /** `ForestAppend` for a non-empty suffix of the children of `b`. */
  lemma {:induction false} ForestAppendCons(ns: seq<Node>, ns': seq<Node>, p: nat, b: nat, i: nat)
    requires Appended(ns, ns', p) && RightPath(ns, p) && b < |ns|
    requires KidsOk(ns, b) && i < |ns[b].children|
    requires Above(ns, ns[b].children[i..], b)
    ensures var cs := ns[b].children[i..];
      Forest(ns', cs, b, false) ==
      if Touches(ns, cs, p) then Forest(ns, cs, b, false) + [|ns|] else Forest(ns, cs, b, false)
    decreases |ns| - b, 2, 2 * (|ns[b].children| - i)
  {
    var ks := ns[b].children;
    var cs := ks[i..];
    var c := ks[i];
    var rest := ks[i + 1..];
    assert cs[0] == c && cs[1..] == rest;
    var n := |ns|;
    var h, f := Sub(ns, c, false), Forest(ns, rest, b, false);
    var h', f' := Sub(ns', c, false), Forest(ns', rest, b, false);
    assert Forest(ns, cs, b, false) == h + f;
    assert Forest(ns', cs, b, false) == h' + f';
    SubAppend(ns, ns', p, c);
    ForestAppend(ns, ns', p, b, i + 1);
    if AncOrSelf(ns, c, p) {
      LastTouched(ns, p, b, i);
      assert rest == [] && f == [] && f' == [];
      AppendEmpty(h); AppendEmpty(h');
    } else if Touches(ns, rest, p) {
      AppendAssoc(h, f, [n]);
    } else {
      assert h' + f' == h + f;
    }
  }

  /** A child whose subtree holds a node on the right path is the last child. */
  lemma LastTouched(ns: seq<Node>, p: nat, b: nat, i: nat)
    requires Valid(ns) && p < |ns| && RightPath(ns, p) && b < |ns|
    requires KidsOk(ns, b) && i < |ns[b].children| && AncOrSelf(ns, ns[b].children[i], p)
    ensures i == |ns[b].children| - 1 && Touches(ns, ns[b].children[i..], p)
  {
    var ks := ns[b].children;
    var c := ks[i];
    AncLe(ns, c, p);
    RightPathAnc(ns, c, p);
    assert Parent(ns, c) == b;
    assert ks[|ks| - 1] == c;
    assert ks[i..][0] == c;
  }

  /** Appending below the right path extends `all_children()` by the new node. */
  lemma AllChildrenAppend(ns: seq<Node>, p: nat, t: string)
    requires Valid(ns) && p < |ns| && RightPath(ns, p)
    ensures AllChildren(AppendChild(ns, p, t)) == AllChildren(ns) + [|ns|]
  {
    var ns' := AppendChild(ns, p, t);
    AppendFacts(ns, p, t);
    RootAnc(ns, p);
    SubAppend(ns, ns', p, 0);
    assert KidsOk(ns, 0) && KidsOk(ns', 0);
    assert Sub(ns', 0, false) == [0] + AllChildren(ns');
    assert Sub(ns, 0, false) == [0] + AllChildren(ns);
    assert AllChildren(ns') == Sub(ns', 0, false)[1..];
  }

  /** With one weight for every node, sorting changes no walk. */
  lemma {:induction false} UniformSub(ns: seq<Node>, j: nat, w: int)
    requires Valid(ns) && j < |ns| && forall i :: 0 <= i < |ns| ==> ns[i].orderWeight == w
    ensures Sub(ns, j, true) == Sub(ns, j, false)
    decreases |ns| - j + 1, 0
  {
    assert KidsOk(ns, j);
    SortUniform(ns, ns[j].children, w);
    UniformForest(ns, Kids(ns, j, false), j, w);
  }

  lemma {:induction false} UniformForest(ns: seq<Node>, cs: seq<nat>, b: nat, w: int)
    requires Valid(ns) && b < |ns| && Above(ns, cs, b) && forall i :: 0 <= i < |ns| ==> ns[i].orderWeight == w
    ensures Forest(ns, cs, b, true) == Forest(ns, cs, b, false)
    decreases |ns| - b, |cs|
  {
    if cs != [] {
      UniformSub(ns, cs[0], w);
      UniformForest(ns, cs[1..], b, w);
    }
  }

  // ---------------------------------------------------------------------
  // Walks depend only on the tree's shape

  /** `ns'` has the nodes of `ns` with the same parents and children; texts,
      tags and other attributes may differ. */
  predicate SameShape(ns: seq<Node>, ns': seq<Node>) {
    |ns| == |ns'| &&
    forall i :: 0 <= i < |ns| ==> ns'[i].parent == ns[i].parent && ns'[i].children == ns[i].children
  }

  predicate SameWeights(ns: seq<Node>, ns': seq<Node>)
    requires |ns| == |ns'|
  {
    forall i :: 0 <= i < |ns| ==> ns'[i].orderWeight == ns[i].orderWeight
  }

  lemma {:induction false} InsertFrame(ns: seq<Node>, ns': seq<Node>, x: nat, s: seq<nat>)
    requires |ns| == |ns'| && SameWeights(ns, ns') && x < |ns| && InRange(ns, s)
    ensures Insert(ns', x, s) == Insert(ns, x, s)
    decreases |s|
  {
    if s != [] { InsertFrame(ns, ns', x, s[1..]); }
  }

  lemma {:induction false} SortFrame(ns: seq<Node>, ns': seq<Node>, cs: seq<nat>)
    requires |ns| == |ns'| && SameWeights(ns, ns') && InRange(ns, cs)
    ensures SortByWeight(ns', cs) == SortByWeight(ns, cs)
    decreases |cs|
  {
    if cs != [] {
      var init := cs[..|cs| - 1];
      SortFrame(ns, ns', init);
      InsertFrame(ns, ns', cs[|cs| - 1], SortByWeight(ns, init));
    }
  }

  lemma {:induction false} SubFrame(ns: seq<Node>, ns': seq<Node>, j: nat, sorted: bool)
    requires Valid(ns) && Valid(ns') && SameShape(ns, ns') && j < |ns|
    requires sorted ==> SameWeights(ns, ns')
    ensures Sub(ns', j, sorted) == Sub(ns, j, sorted)
    decreases |ns| - j + 1, 0
  {
    var cs := Kids(ns, j, sorted);
    if sorted {
      assert KidsOk(ns, j);
      SortFrame(ns, ns', ns[j].children);
    }
    assert Kids(ns', j, sorted) == cs;
    ForestFrame(ns, ns', cs, j, sorted);
  }

  lemma {:induction false} ForestFrame(ns: seq<Node>, ns': seq<Node>, cs: seq<nat>, b: nat, sorted: bool)
    requires Valid(ns) && Valid(ns') && SameShape(ns, ns') && b < |ns| && Above(ns, cs, b)
    requires sorted ==> SameWeights(ns, ns')
    ensures Forest(ns', cs, b, sorted) == Forest(ns, cs, b, sorted)
    decreases |ns| - b, |cs|
  {
    if cs != [] {
      SubFrame(ns, ns', cs[0], sorted);
      ForestFrame(ns, ns', cs[1..], b, sorted);
    }
  }

  /** Changing attributes other than the links leaves `all_children()`, and
      when the weights are kept `all_children_sorted()`, as they were. */
  lemma WalkFrame(ns: seq<Node>, ns': seq<Node>)
    requires Valid(ns) && Valid(ns') && SameShape(ns, ns')
    ensures AllChildren(ns') == AllChildren(ns)
    ensures SameWeights(ns, ns') ==> AllChildrenSorted(ns') == AllChildrenSorted(ns)
  {
    assert KidsOk(ns, 0);
    ForestFrame(ns, ns', ns[0].children, 0, false);
    if SameWeights(ns, ns') {
      SortFrame(ns, ns', ns[0].children);
      ForestFrame(ns, ns', Kids(ns, 0, true), 0, true);
    }
  }

  lemma {:induction false} RightPathShape(ns: seq<Node>, ns': seq<Node>, x: nat)
    requires ParentsOk(ns) && ParentsOk(ns') && SameShape(ns, ns') && x < |ns|
    ensures RightPath(ns', x) == RightPath(ns, x)
    decreases x
  {
    if x > 0 { RightPathShape(ns, ns', Parent(ns, x)); }
  }

  /** A loop over `walk` that has updated every node of it to `after` and
      left the others alone has produced `after`. */
  lemma WalkDone(ns: seq<Node>, walk: seq<nat>, ns': seq<Node>, after: seq<Node>)
    requires |ns'| == |ns| == |after|
    requires forall k :: 0 <= k < |walk| ==> walk[k] < |ns| && ns'[walk[k]] == after[walk[k]]
    requires forall i :: 0 <= i < |ns| && i !in walk ==> ns'[i] == ns[i] == after[i]
    ensures ns' == after
  {
    forall i | 0 <= i < |ns| ensures ns'[i] == after[i] {
      if i in walk {
        var k :| 0 <= k < |walk| && walk[k] == i;
      }
    }
  }

  /** A strictly increasing sequence, as every children list is. */
  predicate Increasing(s: seq<nat>) {
    forall k, l :: 0 <= k < l < |s| ==> s[k] < s[l]
  }

  lemma IncreasingCons(x: nat, s: seq<nat>)
    requires Increasing(s) && forall y :: y in s ==> x < y
    ensures Increasing([x] + s)
  {
    var t := [x] + s;
    forall k, l | 0 <= k < l < |t| ensures t[k] < t[l] {
      assert t[l] == s[l - 1] && t[l] in s;
      if k > 0 { assert t[k] == s[k - 1]; }
    }
  }
}
