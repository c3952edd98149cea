/** Flat serialisation: `dump()` lists the nodes of the tree as depth-tagged
    records, and `load_from_dump(dump)` rebuilds a tree from such a list,
    finding each record's parent from the depth of the node created just
    before it. */
module Dump {
  import opened Arena
  import opened Walk
  import opened Loader
  import opened Seqs

  /** One `{depth, text, tags, comments, new_in_config}` dictionary. The
      `tags` and `comments` lists are kept as the sets they are read back
      into. */
  datatype Record = Record(depth: int, text: string, tags: set<string>, comments: set<string>, newInConfig: bool)

  /** The record `dump()` writes for node `i`. */
  function RecordOf(ns: seq<Node>, i: nat): Record
    requires ParentsOk(ns) && i < |ns|
  {
    Record(Depth(ns, i), ns[i].text, ns[i].tags, ns[i].comments, ns[i].newInConfig)
  }

  /** The records of the nodes `walk`, in order. */
  function Records(ns: seq<Node>, walk: seq<nat>): (rs: seq<Record>)
    requires ParentsOk(ns) && InRange(ns, walk)
    ensures |rs| == |walk| && forall k :: 0 <= k < |walk| ==> rs[k] == RecordOf(ns, walk[k])
  {
    seq(|walk|, k requires 0 <= k < |walk| => RecordOf(ns, walk[k]))
  }

  /** `dump()` without lineage rules: the records of `all_children_sorted()`. */
  function Dumped(ns: seq<Node>): (rs: seq<Record>)
    requires Valid(ns)
    ensures |rs| == |AllChildrenSorted(ns)|
  {
    WalksDistinct(ns);
    Records(ns, AllChildrenSorted(ns))
  }

  // ---------------------------------------------------------------------
  // load_from_dump

  datatype Option<T> = None | Some(value: T)

  /** The parent `load_from_dump` picks for a record of depth `d` read after
      node `last`: the root for depth 1; the parent of `last` for the same
      depth; `last` itself one level down; otherwise the ancestor of `last`
      at depth `d - 1`. `None` is the lookup that raises: the root has no
      parent, and `islice` of the lineage is empty past its end and refuses
      a negative start. */
  function DumpParent(ns: seq<Node>, last: nat, d: int): (r: Option<nat>)
    requires ParentsOk(ns) && last < |ns|
    ensures r.Some? ==> r.value <= last
  {
    var depth := Depth(ns, last);
    if d == 1 then Some(0)
    else if depth == d then (if last == 0 then None else Some(Parent(ns, last)))
    else if depth + 1 == d then Some(last)
    else if 2 <= d && d - 2 < depth then Some(Lineage(ns, last)[d - 2])
    else None
  }

  /** The lookup succeeds exactly for depths from 1 to one below `last`, and
      picks an ancestor-or-self of `last` one level above the new node. */
  lemma DumpParentSpec(ns: seq<Node>, last: nat, d: int)
    requires ParentsOk(ns) && last < |ns|
    ensures DumpParent(ns, last, d).Some? <==> 1 <= d <= Depth(ns, last) + 1
    ensures DumpParent(ns, last, d).Some? ==>
      var p := DumpParent(ns, last, d).value;
      Depth(ns, p) + 1 == d && AncOrSelf(ns, p, last)
  {
    var depth := Depth(ns, last);
    if d == 1 {
      RootAnc(ns, last);
    } else if depth == d {
      if last != 0 {
        assert AncOrSelf(ns, Parent(ns, last), Parent(ns, last));
      }
    } else if depth + 1 == d {
    } else if 2 <= d && d - 2 < depth {
      LineageDepth(ns, last, d - 2);
      LineageIsAncestors(ns, last, Lineage(ns, last)[d - 2]);
    }
  }

  /** `parent.add_child(text, force_duplicate=True)` followed by the record's
      tags, comments and `new_in_config`. */
  function Place(ns: seq<Node>, p: nat, rec: Record): (r: seq<Node>)
    requires Valid(ns) && p < |ns|
    ensures Valid(r) && SameParents(ns, r) && |r| == |ns| + 1
  {
    var a := AppendChild(ns, p, rec.text);
    var r := a[|ns| := a[|ns|].(tags := rec.tags, comments := rec.comments, newInConfig := rec.newInConfig)];
    forall i | 0 <= i < |r| ensures KidsOk(r, i) { assert KidsOk(a, i); }
    r
  }

  /** The outcome of `load_from_dump`: the arena, the last node created, and
      whether every record was placed (`false` where Python raises). */
  datatype Rebuilt = Rebuilt(nodes: seq<Node>, last: nat, ok: bool)

  /** The records loaded one by one, `last` being the node created before
      them (the root at the start). */
  function Restore(ns: seq<Node>, last: nat, recs: seq<Record>): (r: Rebuilt)
    requires Valid(ns) && last < |ns|
    ensures Valid(r.nodes) && r.last < |r.nodes| && SameParents(ns, r.nodes)
    ensures forall i :: 0 <= i < |ns| ==> r.nodes[i] == ns[i].(children := r.nodes[i].children)
    decreases |recs|
  {
    if recs == [] then Rebuilt(ns, last, true)
    else match DumpParent(ns, last, recs[0].depth)
      case None => Rebuilt(ns, last, false)
      case Some(p) => Restore(Place(ns, p, recs[0]), |ns|, recs[1..])
  }

  /** Record `k` may follow the ones before it: its depth is at least 1 and
      at most one more than the previous record's (`d0` for the first). */
  predicate FitsAt(d0: int, recs: seq<Record>, k: nat)
    requires k < |recs|
  {
    1 <= recs[k].depth <= (if k == 0 then d0 else recs[k - 1].depth) + 1
  }

  /** A dump that loads in full into an empty tree: the first depth is 1, no
      depth is below 1, and each depth is at most one more than the one
      before. */
  predicate WellFormed(recs: seq<Record>) {
    forall k :: 0 <= k < |recs| ==> FitsAt(0, recs, k)
  }

  /** Node `x` carries record `rec`. */
  predicate Holds(ns: seq<Node>, x: nat, rec: Record)
    requires ParentsOk(ns) && x < |ns|
  {
    ns[x].text == rec.text && ns[x].tags == rec.tags && ns[x].comments == rec.comments &&
    ns[x].newInConfig == rec.newInConfig && Depth(ns, x) == rec.depth
  }

  /** The node just placed carries its record, at the record's depth, with
      the default order weight, as the last child of `p`. */
  lemma PlaceSpec(ns: seq<Node>, p: nat, rec: Record)
    requires Valid(ns) && p < |ns| && Depth(ns, p) + 1 == rec.depth
    ensures var r := Place(ns, p, rec);
      Holds(r, |ns|, rec) && r[|ns|].orderWeight == DefaultWeight && r[|ns|].parent == p &&
      r[p].children == ns[p].children + [|ns|]
  {
    var r := Place(ns, p, rec);
    FrameAncestry(ns, r, p);
  }

  /** `n` records were placed out of `recs`, the first record's depth being
      judged against `d0`: each of them fits after the one before, the next
      does not, and the load is `ok` exactly when all were placed. */
  predicate Stops(d0: int, n: int, ok: bool, recs: seq<Record>) {
    0 <= n <= |recs| && (ok <==> n == |recs|) &&
    (forall k :: 0 <= k < n ==> FitsAt(d0, recs, k)) &&
    (n < |recs| ==> !FitsAt(d0, recs, n))
  }

  /** `load_from_dump` places records as long as each fits after the one
      before, and stops at the first that does not: every record before it
      becomes one new node and no record after it is read. */
  lemma {:induction false} RestoreCount(ns: seq<Node>, last: nat, recs: seq<Record>)
    requires Valid(ns) && last < |ns|
    ensures var r := Restore(ns, last, recs); Stops(Depth(ns, last), |r.nodes| - |ns|, r.ok, recs)
    decreases |recs|
  {
    if recs != [] {
      var d := recs[0].depth;
      DumpParentSpec(ns, last, d);
      if DumpParent(ns, last, d).Some? {
        var p := DumpParent(ns, last, d).value;
        var ns1 := Place(ns, p, recs[0]);
        PlaceSpec(ns, p, recs[0]);
        RestoreCount(ns1, |ns|, recs[1..]);
        var r := Restore(ns1, |ns|, recs[1..]);
        assert r == Restore(ns, last, recs);
        CountStep(Depth(ns, last), |r.nodes| - |ns1|, r.ok, recs);
      } else {
        assert !FitsAt(Depth(ns, last), recs, 0);
      }
    }
  }

  /** A first record that fits, then `n` records placed after it. */
  lemma CountStep(d0: int, n: nat, ok: bool, recs: seq<Record>)
    requires recs != [] && FitsAt(d0, recs, 0) && Stops(recs[0].depth, n, ok, recs[1..])
    ensures Stops(d0, n + 1, ok, recs)
  {
    forall k | 1 <= k < |recs| ensures FitsAt(d0, recs, k) <==> FitsAt(recs[0].depth, recs[1..], k - 1) {
    }
  }

  /** The nodes from `n0` on carry the records `recs`, one each, in order,
      with the default order weight. */
  predicate Carries(r: seq<Node>, n0: nat, recs: seq<Record>)
    requires ParentsOk(r)
  {
    n0 <= |r| <= n0 + |recs| &&
    forall k :: 0 <= k < |r| - n0 ==> Holds(r, n0 + k, recs[k]) && r[n0 + k].orderWeight == DefaultWeight
  }

  /** Each new node carries its record, at the record's depth, with the
      default order weight. */
  lemma {:induction false} RestoreHolds(ns: seq<Node>, last: nat, recs: seq<Record>)
    requires Valid(ns) && last < |ns|
    ensures Carries(Restore(ns, last, recs).nodes, |ns|, recs)
    decreases |recs|
  {
    if recs != [] {
      var d := recs[0].depth;
      DumpParentSpec(ns, last, d);
      if DumpParent(ns, last, d).Some? {
        var p := DumpParent(ns, last, d).value;
        var ns1 := Place(ns, p, recs[0]);
        PlaceSpec(ns, p, recs[0]);
        RestoreHolds(ns1, |ns|, recs[1..]);
        var r := Restore(ns1, |ns|, recs[1..]);
        assert r == Restore(ns, last, recs);
        HoldsStep(ns1, r.nodes, |ns|, recs, recs[1..]);
      }
    }
  }

  /** The facts for the node placed at `n0` and for those loaded after it
      are the facts for all the new nodes. */
  lemma HoldsStep(ns1: seq<Node>, r: seq<Node>, n0: nat, recs: seq<Record>, tail: seq<Record>)
    requires SameParents(ns1, r) && |ns1| == n0 + 1 && recs != [] && tail == recs[1..]
    requires Holds(ns1, n0, recs[0]) && ns1[n0].orderWeight == DefaultWeight
    requires forall i :: 0 <= i < |ns1| ==> r[i] == ns1[i].(children := r[i].children)
    requires Carries(r, |ns1|, tail)
    ensures Carries(r, n0, recs)
  {
    FrameAncestry(ns1, r, n0);
    assert r[n0] == ns1[n0].(children := r[n0].children);
    forall k | 1 <= k < |r| - n0 ensures Holds(r, n0 + k, recs[k]) && r[n0 + k].orderWeight == DefaultWeight {
      assert n0 + k == |ns1| + (k - 1) && tail[k - 1] == recs[k];
    }
  }

  /** `[a] + [a + 1, a + m + 1)` is `[a, a + m + 1)`. */
  lemma RangeCons(a: nat, m: nat)
    ensures [a] + Range(a + 1, m) == Range(a, m + 1)
  {
    var l, r := [a] + Range(a + 1, m), Range(a, m + 1);
    assert forall k :: 0 <= k < |l| ==> l[k] == r[k];
  }

  /** The nodes of `r` after those of `ns` follow them in `all_children()`,
      in order, and `r.last` is on the right path. */
  predicate Continues(ns: seq<Node>, r: Rebuilt)
    requires Valid(ns) && Valid(r.nodes) && r.last < |r.nodes|
  {
    |ns| <= |r.nodes| &&
    AllChildren(r.nodes) == AllChildren(ns) + Range(|ns|, |r.nodes| - |ns|) && RightPath(r.nodes, r.last)
  }

  /** Loaded after a node on the right path, the new nodes follow the old ones
      in `all_children()`, in record order. */
  lemma {:induction false} RestoreWalk(ns: seq<Node>, last: nat, recs: seq<Record>)
    requires Valid(ns) && last < |ns| && RightPath(ns, last)
    ensures Continues(ns, Restore(ns, last, recs))
    decreases |recs|
  {
    if recs != [] && DumpParent(ns, last, recs[0].depth).Some? {
      var d := recs[0].depth;
      DumpParentSpec(ns, last, d);
      var p := DumpParent(ns, last, d).value;
      var ns1 := Place(ns, p, recs[0]);
      PlaceWalk(ns, p, last, recs[0]);
      RestoreWalk(ns1, |ns|, recs[1..]);
      WalkStep(ns, ns1, Restore(ns1, |ns|, recs[1..]));
      assert Restore(ns, last, recs) == Restore(ns1, |ns|, recs[1..]);
    } else {
      assert Restore(ns, last, recs) == Rebuilt(ns, last, recs == []);
      AppendEmpty(AllChildren(ns));
    }
  }

  /** `RestoreWalk` for the records after the first, once the first is placed
      at the end of the walk. */
  lemma WalkStep(ns: seq<Node>, ns1: seq<Node>, r: Rebuilt)
    requires Valid(ns) && Valid(ns1) && Valid(r.nodes) && r.last < |r.nodes| && |ns1| == |ns| + 1
    requires AllChildren(ns1) == AllChildren(ns) + [|ns|]
    requires Continues(ns1, r)
    ensures Continues(ns, r)
  {
    WalkJoin(AllChildren(ns), AllChildren(ns1), AllChildren(r.nodes), |ns|, |r.nodes| - |ns1|);
  }

  /** The walk before a node `n`, then `n`, then `m` nodes after it. */
  lemma WalkJoin(a: seq<nat>, a1: seq<nat>, ar: seq<nat>, n: nat, m: nat)
    requires a1 == a + [n] && ar == a1 + Range(n + 1, m)
    ensures ar == a + Range(n, m + 1)
  {
    RangeCons(n, m);
    AppendAssoc(a, [n], Range(n + 1, m));
  }

  /** Placing below an ancestor-or-self of a node on the right path puts the
      new node at the end of `all_children()` and on the right path. */
  lemma PlaceWalk(ns: seq<Node>, p: nat, m: nat, rec: Record)
    requires Valid(ns) && p <= m < |ns| && RightPath(ns, m) && AncOrSelf(ns, p, m)
    ensures RightPath(Place(ns, p, rec), |ns|)
    ensures AllChildren(Place(ns, p, rec)) == AllChildren(ns) + [|ns|]
  {
    var a := AppendChild(ns, p, rec.text);
    var r := Place(ns, p, rec);
    RightPathAnc(ns, p, m);
    RightPathFrame(ns, p, rec.text, p);
    RightPathShape(a, r, p);
    AppendFacts(ns, p, rec.text);
    assert RightPath(r, |ns|);
    AllChildrenAppend(ns, p, rec.text);
    WalkFrame(a, r);
  }

  /** With one order weight everywhere, `all_children_sorted()` is
      `all_children()`. */
  lemma UniformWalks(ns: seq<Node>, w: int)
    requires Valid(ns) && forall i :: 0 <= i < |ns| ==> ns[i].orderWeight == w
    ensures AllChildrenSorted(ns) == AllChildren(ns)
  {
    assert KidsOk(ns, 0);
    UniformSub(ns, 0, w);
    assert AllChildrenSorted(ns) == Sub(ns, 0, true)[1..];
    assert AllChildren(ns) == Sub(ns, 0, false)[1..];
  }

  /** The tree with no lines. */
  const Empty: seq<Node> := [RootNode]

  lemma EmptyValid()
    ensures Valid(Empty) && AllChildren(Empty) == [] && RightPath(Empty, 0)
  {
    assert KidsOk(Empty, 0);
  }

  /** `load_from_dump` into an empty tree succeeds exactly on a well-formed
      dump, and then creates one node per record. */
  lemma LoadWellFormed(recs: seq<Record>)
    ensures var r := Restore(Empty, 0, recs); (r.ok <==> WellFormed(recs)) && (r.ok ==> |r.nodes| == 1 + |recs|)
  {
    EmptyValid();
    var r := Restore(Empty, 0, recs);
    RestoreCount(Empty, 0, recs);
    assert Depth(Empty, 0) == 0;
    if !r.ok {
      assert !FitsAt(0, recs, |r.nodes| - 1);
    }
  }

  /** A tree loaded from a dump into an empty tree has the default order
      weight everywhere. */
  lemma LoadedUniform(recs: seq<Record>)
    ensures var ns := Restore(Empty, 0, recs).nodes;
      forall i :: 0 <= i < |ns| ==> ns[i].orderWeight == DefaultWeight
  {
    EmptyValid();
    var ns := Restore(Empty, 0, recs).nodes;
    RestoreHolds(Empty, 0, recs);
    forall i | 0 <= i < |ns| ensures ns[i].orderWeight == DefaultWeight {
      if i > 0 {
        var k := i - 1;
        assert Holds(ns, 1 + k, recs[k]);
      }
    }
  }

  /** The round trip: loading a well-formed dump into an empty tree and
      calling `dump()` on the result gives the records back. */
  lemma RoundTrip(recs: seq<Record>)
    requires WellFormed(recs)
    ensures var r := Restore(Empty, 0, recs); r.ok && Dumped(r.nodes) == recs
  {
    EmptyValid();
    LoadWellFormed(recs);
    LoadedUniform(recs);
    RestoreHolds(Empty, 0, recs);
    RestoreWalk(Empty, 0, recs);
    var ns := Restore(Empty, 0, recs).nodes;
    assert AllChildren(Empty) + Range(1, |recs|) == Range(1, |recs|);
    DumpsCarried(ns, recs);
  }

  /** A tree whose walk is nodes 1, 2, … in order, each carrying its record at
      the default weight, dumps back to those records. */
  lemma DumpsCarried(ns: seq<Node>, recs: seq<Record>)
    requires Valid(ns) && |ns| == 1 + |recs| && Carries(ns, 1, recs)
    requires AllChildren(ns) == Range(1, |recs|)
    requires forall i :: 0 <= i < |ns| ==> ns[i].orderWeight == DefaultWeight
    ensures Dumped(ns) == recs
  {
    UniformWalks(ns, DefaultWeight);
    var w := Range(1, |recs|);
    var rs := Records(ns, w);
    assert Dumped(ns) == rs;
    forall k | 0 <= k < |recs| ensures rs[k] == recs[k] {
      assert w[k] == 1 + k;
      assert Holds(ns, 1 + k, recs[k]);
    }
  }

  /** Whatever the tree, `dump()` writes a well-formed dump. */
  lemma DumpWellFormed(ns: seq<Node>)
    requires Valid(ns)
    ensures WellFormed(Dumped(ns))
  {
    WalksDistinct(ns);
    assert KidsOk(ns, 0);
    KidsPerm(ns, 0, true);
    ForestShape(ns, Kids(ns, 0, true), 0, true);
    var w := AllChildrenSorted(ns);
    var ds := DepthsOf(ns, w);
    var rs := Dumped(ns);
    forall k | 0 <= k < |rs| ensures FitsAt(0, rs, k) {
      assert rs[k].depth == ds[k];
      if k > 0 { assert rs[k - 1].depth == ds[k - 1]; }
    }
  }

  /** Loading a dump and dumping again gives the same records. */
  lemma DumpLoadDump(ns: seq<Node>)
    requires Valid(ns)
    ensures var r := Restore(Empty, 0, Dumped(ns)); r.ok && Dumped(r.nodes) == Dumped(ns)
  {
    DumpWellFormed(ns);
    RoundTrip(Dumped(ns));
  }

  // ---------------------------------------------------------------------
  // The loop of dump()

  /** The `output` loop of `dump()` over the nodes `walk`. */
  method DumpRecords(ns: seq<Node>, walk: seq<nat>) returns (out: seq<Record>)
    requires ParentsOk(ns) && InRange(ns, walk)
    ensures out == Records(ns, walk)
  {
    out := [];
    var j := 0;
    while j < |walk|
      invariant j <= |walk| && out == Records(ns, walk[..j])
    {
      assert walk[..j + 1] == walk[..j] + [walk[j]];
      out := out + [RecordOf(ns, walk[j])];
      j := j + 1;
    }
    assert walk[..j] == walk;
  }
}
