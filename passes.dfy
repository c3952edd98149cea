/** The rule passes that rewrite node attributes in place: `add_tags` and
    `set_order_weight`. Each pass is specified here as a function from the
    arena before the pass to the arena after it; the methods of `HConfig`
    are proved to compute these functions. */
module Passes {
  import opened Rules
  import opened Arena
  import opened Walk

  /** Well-formedness depends on the links alone. */
  lemma ShapeValid(ns: seq<Node>, ns': seq<Node>)
    requires Valid(ns) && SameShape(ns, ns')
    ensures Valid(ns')
  {
    forall i | 0 <= i < |ns'| ensures KidsOk(ns', i) { assert KidsOk(ns, i); }
  }

  // ---------------------------------------------------------------------
  // add_tags

  /** One rule applied to one node's tags: a node whose lineage passes the
      rule gains `add_tags`, then loses `remove_tags`. */
  function TagStep(test: LineageTest, rule: TagRule, texts: seq<string>, strip: bool, t: set<string>): set<string> {
    if test(texts, rule.lineage, strip) then (t + rule.addTags) - rule.removeTags else t
  }

  /** The rules applied to one node's tags in list order. */
  function TagsAfter(test: LineageTest, rules: seq<TagRule>, texts: seq<string>, strip: bool, t: set<string>): set<string>
    decreases |rules|
  {
    if rules == [] then t
    else TagStep(test, rules[|rules| - 1], texts, strip, TagsAfter(test, rules[..|rules| - 1], texts, strip, t))
  }

  /** `rule` matches the node and adds or removes `x`. */
  predicate Mentions(test: LineageTest, rule: TagRule, texts: seq<string>, strip: bool, x: string) {
    test(texts, rule.lineage, strip) && (x in rule.addTags || x in rule.removeTags)
  }

  /** The last rule that matches the node and mentions `x`, or -1. */
  function LastMention(test: LineageTest, rules: seq<TagRule>, texts: seq<string>, strip: bool, x: string): (k: int)
    ensures -1 <= k < |rules|
    ensures k >= 0 ==> Mentions(test, rules[k], texts, strip, x)
    ensures forall m :: k < m < |rules| ==> !Mentions(test, rules[m], texts, strip, x)
    decreases |rules|
  {
    if rules == [] then -1
    else if Mentions(test, rules[|rules| - 1], texts, strip, x) then |rules| - 1
    else LastMention(test, rules[..|rules| - 1], texts, strip, x)
  }

  /** The last matching rule that mentions a tag decides it: the tag is present
      exactly when that rule adds it without removing it; a tag no matching
      rule mentions keeps its old presence. */
  lemma {:induction false} TagsDecided(test: LineageTest, rules: seq<TagRule>, texts: seq<string>, strip: bool,
                                       t: set<string>, x: string)
    ensures var k := LastMention(test, rules, texts, strip, x);
      x in TagsAfter(test, rules, texts, strip, t) <==>
      if k < 0 then x in t else x in rules[k].addTags && x !in rules[k].removeTags
    decreases |rules|
  {
    if rules != [] {
      TagsDecided(test, rules[..|rules| - 1], texts, strip, t, x);
    }
  }

  /** A node that no rule matches keeps its tags. */
  lemma {:induction false} TagsUnmatched(test: LineageTest, rules: seq<TagRule>, texts: seq<string>, strip: bool,
                                         t: set<string>)
    requires forall k :: 0 <= k < |rules| ==> !test(texts, rules[k].lineage, strip)
    ensures TagsAfter(test, rules, texts, strip, t) == t
    decreases |rules|
  {
    if rules != [] {
      TagsUnmatched(test, rules[..|rules| - 1], texts, strip, t);
    }
  }

  /** The lineage texts of every node, by index. */
  function LineageTable(ns: seq<Node>): (tx: seq<seq<string>>)
    requires ParentsOk(ns)
    ensures |tx| == |ns| && forall i :: 0 <= i < |ns| ==> tx[i] == LineageTexts(ns, i)
  {
    seq(|ns|, i requires 0 <= i < |ns| => LineageTexts(ns, i))
  }

  /** The arena after the rules have been applied to the tags of the nodes
      `w`; `add_tags` takes `all_children()` for `w`. */
  function Retagged(test: LineageTest, rules: seq<TagRule>, strip: bool, ns: seq<Node>, w: seq<nat>): (r: seq<Node>)
    requires ParentsOk(ns)
    ensures |r| == |ns|
  {
    seq(|ns|, i requires 0 <= i < |ns| =>
      if i in w then ns[i].(tags := TagsAfter(test, rules, LineageTexts(ns, i), strip, ns[i].tags)) else ns[i])
  }

  /** With no rules, nothing changes. */
  lemma RetaggedNone(test: LineageTest, strip: bool, ns: seq<Node>, w: seq<nat>)
    requires ParentsOk(ns)
    ensures Retagged(test, [], strip, ns, w) == ns
  {
  }

  /** Retagging changes tags only, so it keeps the tree and its walks. */
  lemma RetaggedShape(test: LineageTest, rules: seq<TagRule>, strip: bool, ns: seq<Node>)
    requires Valid(ns)
    ensures var r := Retagged(test, rules, strip, ns, AllChildren(ns));
      Valid(r) && SameShape(ns, r) && AllChildren(r) == AllChildren(ns) &&
      forall i :: 0 <= i < |ns| ==> LineageTexts(r, i) == LineageTexts(ns, i)
  {
    var r := Retagged(test, rules, strip, ns, AllChildren(ns));
    ShapeValid(ns, r);
    WalkFrame(ns, r);
    forall i | 0 <= i < |ns| ensures LineageTexts(r, i) == LineageTexts(ns, i) {
      FrameTexts(ns, r, i);
    }
  }

  /** Rule `r` changes each node of `w` by one `TagStep`, and no other node. */
  lemma RetagNext(test: LineageTest, rules: seq<TagRule>, r: nat, strip: bool, ns: seq<Node>, w: seq<nat>)
    requires ParentsOk(ns) && r < |rules|
    ensures var cur := Retagged(test, rules[..r], strip, ns, w);
      var tx := LineageTable(ns);
      forall i :: 0 <= i < |ns| ==>
        Retagged(test, rules[..r + 1], strip, ns, w)[i] ==
        if i in w then cur[i].(tags := TagStep(test, rules[r], tx[i], strip, cur[i].tags)) else cur[i]
  {
    assert rules[..r + 1][..r] == rules[..r];
  }

  /** What the inner loop of a pass relies on: the walk visits distinct nodes
      of the arena, and `tx` holds the lineage texts of every node. */
  predicate WalkReady(ns: seq<Node>, walk: seq<nat>, tx: seq<seq<string>>) {
    ParentsOk(ns) && |tx| == |ns| && Distinct(walk) && InRange(ns, walk) &&
    forall i :: 0 <= i < |ns| ==> tx[i] == LineageTexts(ns, i)
  }

  /** One rule applied to the nodes `w`, whose lineage texts are `tx`. */
  function TagRound(test: LineageTest, rule: TagRule, strip: bool, ns: seq<Node>, w: seq<nat>, tx: seq<seq<string>>)
    : (r: seq<Node>)
    requires |tx| == |ns|
    ensures |r| == |ns|
  {
    seq(|ns|, i requires 0 <= i < |ns| =>
      if i in w then ns[i].(tags := TagStep(test, rule, tx[i], strip, ns[i].tags)) else ns[i])
  }

  /** After `r` rules the walk and the lineage texts are those of the
      original arena, and rule `r` is one more `TagRound`. */
  lemma RetagReady(test: LineageTest, rules: seq<TagRule>, r: nat, strip: bool, ns: seq<Node>)
    requires Valid(ns) && r < |rules|
    ensures var w := AllChildren(ns);
      var cur := Retagged(test, rules[..r], strip, ns, w);
      var tx := LineageTable(ns);
      Valid(cur) && |tx| == |cur| && AllChildren(cur) == w && WalkReady(cur, w, tx) &&
      Retagged(test, rules[..r + 1], strip, ns, w) == TagRound(test, rules[r], strip, cur, w, tx)
  {
    RetaggedShape(test, rules[..r], strip, ns);
    WalksDistinct(ns);
    RetagNext(test, rules, r, strip, ns, AllChildren(ns));
  }

  /** `add_tags` changes tags only, and decides each tag of a visited node by
      the last matching rule that mentions it; the root is never visited. */
  lemma RetaggedSpec(test: LineageTest, rules: seq<TagRule>, strip: bool, ns: seq<Node>, i: nat, x: string)
    requires Valid(ns) && i < |ns|
    ensures var r := Retagged(test, rules, strip, ns, AllChildren(ns));
      Valid(r) && SameShape(ns, r) && r[i] == ns[i].(tags := r[i].tags) && (i == 0 ==> r[0] == ns[0])
    ensures var k := if i in AllChildren(ns) then LastMention(test, rules, LineageTexts(ns, i), strip, x) else -1;
      x in Retagged(test, rules, strip, ns, AllChildren(ns))[i].tags <==>
      if k < 0 then x in ns[i].tags else x in rules[k].addTags && x !in rules[k].removeTags
  {
    RetaggedShape(test, rules, strip, ns);
    if i in AllChildren(ns) {
      TagsDecided(test, rules, LineageTexts(ns, i), strip, ns[i].tags, x);
    }
    if i == 0 {
      assert KidsOk(ns, 0);
      assert Above(ns, AllChildren(ns), 0);
    }
  }

  // ---------------------------------------------------------------------
  // set_order_weight

  /** The rules tried on one node's weight in list order: each matching rule
      overwrites it with its `order`. */
  function WeightAfter(test: LineageTest, rules: seq<OrderRule>, texts: seq<string>, w: int): int
    decreases |rules|
  {
    if rules == [] then w
    else
      var w' := WeightAfter(test, rules[..|rules| - 1], texts, w);
      if test(texts, rules[|rules| - 1].lineage, false) then rules[|rules| - 1].order else w'
  }

  /** The last rule that matches the node, or -1. */
  function LastMatch(test: LineageTest, rules: seq<OrderRule>, texts: seq<string>): (k: int)
    ensures -1 <= k < |rules|
    ensures k >= 0 ==> test(texts, rules[k].lineage, false)
    ensures forall m :: k < m < |rules| ==> !test(texts, rules[m].lineage, false)
    decreases |rules|
  {
    if rules == [] then -1
    else if test(texts, rules[|rules| - 1].lineage, false) then |rules| - 1
    else LastMatch(test, rules[..|rules| - 1], texts)
  }

  /** The last matching rule's order wins; with no match the weight stays. */
  lemma {:induction false} WeightDecided(test: LineageTest, rules: seq<OrderRule>, texts: seq<string>, w: int)
    ensures var k := LastMatch(test, rules, texts);
      WeightAfter(test, rules, texts, w) == if k < 0 then w else rules[k].order
    decreases |rules|
  {
    if rules != [] {
      WeightDecided(test, rules[..|rules| - 1], texts, w);
    }
  }

  /** The arena after the ordering rules have been tried on the weights of
      the nodes `w`; `set_order_weight()` takes `all_children()` for `w`. */
  function Reweighted(test: LineageTest, rules: seq<OrderRule>, ns: seq<Node>, w: seq<nat>): (r: seq<Node>)
    requires ParentsOk(ns)
    ensures |r| == |ns|
  {
    seq(|ns|, i requires 0 <= i < |ns| =>
      if i in w then ns[i].(orderWeight := WeightAfter(test, rules, LineageTexts(ns, i), ns[i].orderWeight)) else ns[i])
  }

  /** `set_order_weight` changes weights only; a visited node takes the order
      of the last rule its lineage passes, every other node keeps its weight. */
  lemma ReweightedSpec(test: LineageTest, rules: seq<OrderRule>, ns: seq<Node>, i: nat)
    requires Valid(ns) && i < |ns|
    ensures var r := Reweighted(test, rules, ns, AllChildren(ns));
      Valid(r) && SameShape(ns, r) && AllChildren(r) == AllChildren(ns) &&
      r[i] == ns[i].(orderWeight := r[i].orderWeight)
    ensures var k := if i in AllChildren(ns) then LastMatch(test, rules, LineageTexts(ns, i)) else -1;
      Reweighted(test, rules, ns, AllChildren(ns))[i].orderWeight == if k < 0 then ns[i].orderWeight else rules[k].order
  {
    var r := Reweighted(test, rules, ns, AllChildren(ns));
    ShapeValid(ns, r);
    WalkFrame(ns, r);
    if i in AllChildren(ns) {
      WeightDecided(test, rules, LineageTexts(ns, i), ns[i].orderWeight);
    }
  }

  // ---------------------------------------------------------------------
  // The `tags` property of the root

  /** The union of the tags of the nodes `cs`. */
  function UnionTags(ns: seq<Node>, cs: seq<nat>): set<string>
    requires InRange(ns, cs)
    decreases |cs|
  {
    if cs == [] then {} else UnionTags(ns, cs[..|cs| - 1]) + ns[cs[|cs| - 1]].tags
  }

  /** A tag is in the union exactly when one of the nodes carries it. */
  lemma {:induction false} UnionTagsSpec(ns: seq<Node>, cs: seq<nat>, x: string)
    requires InRange(ns, cs)
    ensures x in UnionTags(ns, cs) <==> exists k :: 0 <= k < |cs| && x in ns[cs[k]].tags
    decreases |cs|
  {
    if cs != [] {
      var n := |cs| - 1;
      UnionTagsSpec(ns, cs[..n], x);
      if x in UnionTags(ns, cs[..n]) {
        var k :| 0 <= k < n && x in ns[cs[..n][k]].tags;
        assert cs[k] == cs[..n][k];
      }
      if exists k :: 0 <= k < |cs| && x in ns[cs[k]].tags {
        var k :| 0 <= k < |cs| && x in ns[cs[k]].tags;
        if k < n {
          assert cs[..n][k] == cs[k];
        }
      }
    }
  }

  /** The getter: the union of the tags of the children of the root. */
  function RootTags(ns: seq<Node>): set<string>
    requires Valid(ns)
  {
    assert KidsOk(ns, 0);
    UnionTags(ns, ns[0].children)
  }

  /** The setter: every child of the root takes the tags `v`. */
  function WithRootTags(ns: seq<Node>, v: set<string>): (r: seq<Node>)
    requires |ns| > 0
    ensures |r| == |ns|
  {
    seq(|ns|, i requires 0 <= i < |ns| => if i in ns[0].children then ns[i].(tags := v) else ns[i])
  }

  /** The union of the same tags over nodes that all carry them. */
  lemma {:induction false} UnionUniform(ns: seq<Node>, cs: seq<nat>, v: set<string>)
    requires InRange(ns, cs) && forall k :: 0 <= k < |cs| ==> ns[cs[k]].tags == v
    ensures UnionTags(ns, cs) == if cs == [] then {} else v
    decreases |cs|
  {
    if |cs| > 1 {
      UnionUniform(ns, cs[..|cs| - 1], v);
    } else if |cs| == 1 {
      assert cs[..0] == [];
    }
  }

  /** Setting the tags changes the children of the root only, and reading
      them back gives the value set, or nothing when the root has no
      children. */
  lemma SetThenGetTags(ns: seq<Node>, v: set<string>)
    requires Valid(ns)
    ensures var r := WithRootTags(ns, v);
      Valid(r) && SameShape(ns, r) && r[0] == ns[0] &&
      (forall i :: 0 <= i < |ns| ==> r[i] == ns[i].(tags := r[i].tags)) &&
      RootTags(r) == if ns[0].children == [] then {} else v
  {
    var r := WithRootTags(ns, v);
    assert KidsOk(ns, 0);
    ShapeValid(ns, r);
    UnionUniform(r, r[0].children, v);
  }

  // ---------------------------------------------------------------------
  // The loops of the passes, on the arena's value

  /** The loop of `add_tags` over the rules, on the arena's value. */
  method RetagAll(test: LineageTest, rules: seq<TagRule>, stripNegation: bool, ns0: seq<Node>)
    returns (ns: seq<Node>)
    requires Valid(ns0)
    ensures ns == Retagged(test, rules, stripNegation, ns0, AllChildren(ns0))
  {
    ghost var w := AllChildren(ns0);
    ghost var tx := LineageTable(ns0);
    ns := ns0;
    RetaggedNone(test, stripNegation, ns0, w);
    var r := 0;
    while r < |rules|
      invariant r <= |rules| && ns == Retagged(test, rules[..r], stripNegation, ns0, w)
    {
      RetagReady(test, rules, r, stripNegation, ns0);
      var walk := AllChildren(ns);
      ns := TagWalk(test, rules[r], stripNegation, walk, ns, tx);
      r := r + 1;
    }
    assert rules[..r] == rules;
  }

  /** The inner loop of `add_tags` over a walk that visits each node once;
      the tests see the lineage texts of `ns`, which the loop does not change
      (`tx` names them). */
  method TagWalk(test: LineageTest, rule: TagRule, stripNegation: bool, walk: seq<nat>,
                        ns: seq<Node>, ghost tx: seq<seq<string>>)
    returns (ns': seq<Node>)
    requires WalkReady(ns, walk, tx)
    ensures ns' == TagRound(test, rule, stripNegation, ns, walk, tx)
  {
    ghost var after := TagRound(test, rule, stripNegation, ns, walk, tx);
    ns' := ns;
    var j := 0;
    while j < |walk|
      invariant 0 <= j <= |walk| && |ns'| == |ns|
      invariant forall k :: 0 <= k < |walk| ==> ns'[walk[k]] == if k < j then after[walk[k]] else ns[walk[k]]
      invariant forall i :: 0 <= i < |ns| && i !in walk ==> ns'[i] == ns[i]
    {
      var c := walk[j];
      var texts := LineageTexts(ns, c);
      assert texts == tx[c] && c in walk;
      ghost var prev := ns';
      if test(texts, rule.lineage, stripNegation) {
        ns' := ns'[c := ns'[c].(tags := (ns'[c].tags + rule.addTags) - rule.removeTags)];
      }
      forall k | 0 <= k < |walk| && k != j ensures ns'[walk[k]] == prev[walk[k]] {
        assert walk[k] != c;
      }
      j := j + 1;
    }
    WalkDone(ns, walk, ns', after);
  }

  /** The loop of `set_order_weight` over a walk that visits each node once. */
  method WeighWalk(test: LineageTest, rules: seq<OrderRule>, walk: seq<nat>, ns0: seq<Node>) returns (ns: seq<Node>)
    requires ParentsOk(ns0) && Distinct(walk) && InRange(ns0, walk)
    ensures ns == Reweighted(test, rules, ns0, walk)
  {
    ghost var after := Reweighted(test, rules, ns0, walk);
    ns := ns0;
    var j := 0;
    while j < |walk|
      invariant 0 <= j <= |walk| && |ns| == |ns0|
      invariant forall k :: 0 <= k < |walk| ==> ns[walk[k]] == if k < j then after[walk[k]] else ns0[walk[k]]
      invariant forall i :: 0 <= i < |ns0| && i !in walk ==> ns[i] == ns0[i]
    {
      var c := walk[j];
      var weight := OrderFor(test, rules, LineageTexts(ns0, c), ns[c].orderWeight);
      ghost var prev := ns;
      ns := ns[c := ns[c].(orderWeight := weight)];
      forall k | 0 <= k < |walk| && k != j ensures ns[walk[k]] == prev[walk[k]] {
        assert walk[k] != c;
      }
      j := j + 1;
    }
    WalkDone(ns0, walk, ns, after);
  }

  /** The inner loop of `set_order_weight` for one node. */
  method OrderFor(test: LineageTest, rules: seq<OrderRule>, texts: seq<string>, w: int) returns (w': int)
    ensures w' == WeightAfter(test, rules, texts, w)
  {
    w' := w;
    var q := 0;
    while q < |rules|
      invariant 0 <= q <= |rules|
      invariant w' == WeightAfter(test, rules[..q], texts, w)
    {
      if test(texts, rules[q].lineage, false) {
        w' := rules[q].order;
      }
      assert rules[..q + 1][..q] == rules[..q];
      q := q + 1;
    }
    assert rules[..q] == rules;
  }

  /** The loop of the `tags` getter. */
  method GetRootTags(ns: seq<Node>) returns (t: set<string>)
    requires Valid(ns)
    ensures t == RootTags(ns)
  {
    var cs := ns[0].children;
    assert KidsOk(ns, 0);
    t := {};
    var k := 0;
    while k < |cs|
      invariant k <= |cs| && t == UnionTags(ns, cs[..k])
    {
      assert cs[..k + 1][..k] == cs[..k];
      t := t + ns[cs[k]].tags;
      k := k + 1;
    }
    assert cs[..k] == cs;
  }

  /** The loop of the `tags` setter. */
  method SetRootTags(ns0: seq<Node>, v: set<string>) returns (ns: seq<Node>)
    requires Valid(ns0)
    ensures ns == WithRootTags(ns0, v)
  {
    var cs := ns0[0].children;
    assert KidsOk(ns0, 0);
    ghost var after := WithRootTags(ns0, v);
    ns := ns0;
    var j := 0;
    while j < |cs|
      invariant j <= |cs| && |ns| == |ns0|
      invariant forall k :: 0 <= k < |cs| ==> ns[cs[k]] == if k < j then after[cs[k]] else ns0[cs[k]]
      invariant forall i :: 0 <= i < |ns0| && i !in cs ==> ns[i] == ns0[i]
    {
      var c := cs[j];
      ghost var prev := ns;
      ns := ns[c := ns[c].(tags := v)];
      forall k | 0 <= k < |cs| && k != j ensures ns[cs[k]] == prev[cs[k]] {
        assert cs[k] != c;
      }
      j := j + 1;
    }
    WalkDone(ns0, cs, ns, after);
  }
}
