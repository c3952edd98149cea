/** `add_sectional_exiting`: below every node whose lineage passes a
    sectional-exiting rule, the children carrying the rule's exit text are
    deleted and one new child with that text and order weight 999 is added.
    The nodes visited are those of `all_children()` taken before the pass
    starts; the new exit lines are not visited. */
module Exiting {
  import opened Rules
  import opened Arena
  import opened Walk
  import opened Passes

  /** The order weight given to a new exit line. */
  const ExitWeight: int := 999

  /** Node `x` is a line with text `e`. */
  predicate HasText(ns: seq<Node>, x: nat, e: string) {
    x < |ns| && ns[x].text == e
  }

  /** The nodes of `cs` whose text is not `e`, in order. */
  function WithoutText(ns: seq<Node>, cs: seq<nat>, e: string): (r: seq<nat>)
    ensures forall x :: x in r <==> x in cs && !HasText(ns, x, e)
    decreases |cs|
  {
    if cs == [] then []
    else (if HasText(ns, cs[0], e) then [] else [cs[0]]) + WithoutText(ns, cs[1..], e)
  }

  /** The nodes of `cs` whose text is `e`, in order. */
  function WithText(ns: seq<Node>, cs: seq<nat>, e: string): (r: seq<nat>)
    ensures forall x :: x in r <==> x in cs && HasText(ns, x, e)
    decreases |cs|
  {
    if cs == [] then []
    else (if HasText(ns, cs[0], e) then [cs[0]] else []) + WithText(ns, cs[1..], e)
  }

  /** Deleting keeps the order of the remaining children. */
  lemma {:induction false} WithoutTextIncreasing(ns: seq<Node>, cs: seq<nat>, e: string)
    requires Increasing(cs)
    ensures Increasing(WithoutText(ns, cs, e))
    decreases |cs|
  {
    if cs != [] {
      assert Increasing(cs[1..]);
      WithoutTextIncreasing(ns, cs[1..], e);
      if !HasText(ns, cs[0], e) {
        forall y | y in WithoutText(ns, cs[1..], e) ensures cs[0] < y {
          var m :| 0 <= m < |cs[1..]| && cs[1..][m] == y;
          assert cs[m + 1] == y;
        }
        IncreasingCons(cs[0], WithoutText(ns, cs[1..], e));
      }
    }
  }

  /** With no child carrying `e`, deleting by `e` changes nothing. */
  lemma {:induction false} WithoutTextNone(ns: seq<Node>, cs: seq<nat>, e: string)
    requires forall x :: x in cs ==> !HasText(ns, x, e)
    ensures WithoutText(ns, cs, e) == cs
    decreases |cs|
  {
    if cs != [] {
      assert cs[0] in cs;
      assert forall x :: x in cs[1..] ==> x in cs;
      WithoutTextNone(ns, cs[1..], e);
      assert cs == [cs[0]] + cs[1..];
    }
  }

  /** Deleting by one text leaves the children with another text as they were. */
  lemma {:induction false} WithTextOfWithout(ns: seq<Node>, cs: seq<nat>, e: string, e': string)
    requires e != e'
    ensures WithText(ns, WithoutText(ns, cs, e), e') == WithText(ns, cs, e')
    decreases |cs|
  {
    if cs != [] {
      WithTextOfWithout(ns, cs[1..], e, e');
      if HasText(ns, cs[0], e) {
        assert !HasText(ns, cs[0], e');
        assert WithoutText(ns, cs, e) == WithoutText(ns, cs[1..], e);
        assert WithText(ns, cs, e') == WithText(ns, cs[1..], e');
      } else {
        assert WithoutText(ns, cs, e) == [cs[0]] + WithoutText(ns, cs[1..], e);
        assert ([cs[0]] + WithoutText(ns, cs[1..], e))[1..] == WithoutText(ns, cs[1..], e);
      }
    }
  }

  /** Selecting by text looks only at the texts of the nodes selected from. */
  lemma {:induction false} WithTextFrame(ns: seq<Node>, ns': seq<Node>, cs: seq<nat>, e: string)
    requires forall x :: x in cs ==> x < |ns| && x < |ns'| && ns'[x].text == ns[x].text
    ensures WithText(ns', cs, e) == WithText(ns, cs, e)
    decreases |cs|
  {
    if cs != [] {
      assert cs[0] in cs;
      assert forall x :: x in cs[1..] ==> x in cs;
      WithTextFrame(ns, ns', cs[1..], e);
    }
  }

  /** A child carrying `e` past the end of `cs` adds itself to the selection. */
  lemma {:induction false} WithTextSnoc(ns: seq<Node>, cs: seq<nat>, x: nat, e: string)
    ensures WithText(ns, cs + [x], e) == WithText(ns, cs, e) + (if HasText(ns, x, e) then [x] else [])
    decreases |cs|
  {
    if cs == [] {
      assert [x][1..] == [];
    } else {
      assert (cs + [x])[1..] == cs[1..] + [x];
      WithTextSnoc(ns, cs[1..], x, e);
    }
  }

  /** `del_child_by_text(e)` on node `c`: its children with text `e` are
      deleted. */
  function DelChildByText(ns: seq<Node>, c: nat, e: string): (r: seq<Node>)
    requires Valid(ns) && c < |ns|
    ensures Valid(r) && |r| == |ns| && SameParents(ns, r)
  {
    var r := ns[c := ns[c].(children := WithoutText(ns, ns[c].children, e))];
    DelValid(ns, c, e, r);
    r
  }

  lemma DelValid(ns: seq<Node>, c: nat, e: string, r: seq<Node>)
    requires Valid(ns) && c < |ns|
    requires r == ns[c := ns[c].(children := WithoutText(ns, ns[c].children, e))]
    ensures Valid(r) && SameParents(ns, r)
  {
    assert KidsOk(ns, c);
    var cs := ns[c].children;
    assert Increasing(cs);
    WithoutTextIncreasing(ns, cs, e);
    forall i | 0 <= i < |r| ensures KidsOk(r, i) {
      assert KidsOk(ns, i);
      if i == c {
        var ds := r[c].children;
        forall k | 0 <= k < |ds| ensures c < ds[k] < |r| && r[ds[k]].parent == c {
          assert ds[k] in cs;
          var m :| 0 <= m < |cs| && cs[m] == ds[k];
        }
      }
    }
  }

  /** One sectional exit at node `c` with exit text `e`: the children with
      text `e` are deleted, then a new child with text `e` is appended and
      given the exit weight. */
  function Exit(ns: seq<Node>, c: nat, e: string): (r: seq<Node>)
    requires Valid(ns) && c < |ns|
    ensures Valid(r) && |r| == |ns| + 1 && SameParents(ns, r)
    ensures forall i :: 0 <= i < |ns| ==> r[i] == ns[i].(children := r[i].children)
    ensures forall i :: 0 <= i < |ns| && i != c ==> r[i] == ns[i]
  {
    var ns1 := DelChildByText(ns, c, e);
    var ns2 := AppendChild(ns1, c, e);
    var r := ns2[|ns| := ns2[|ns|].(orderWeight := ExitWeight)];
    ShapeValid(ns2, r);
    r
  }

  /** The exit lines of node `c` for the text `e`: exactly one child of `c`
      carries `e`, and it has the exit weight. */
  predicate OneExit(ns: seq<Node>, c: nat, e: string) {
    c < |ns| && InRange(ns, ns[c].children) &&
    var m := WithText(ns, ns[c].children, e);
    |m| == 1 && m[0] < |ns| && ns[m[0]].orderWeight == ExitWeight
  }

  /** After an exit at `c` for `e`, `c` has exactly one child with text `e`:
      the new node, with the exit weight; every child of `c` with another
      text is kept, and `c` gains no other child. */
  lemma ExitSpec(ns: seq<Node>, c: nat, e: string)
    requires Valid(ns) && c < |ns|
    ensures var r := Exit(ns, c, e);
      OneExit(r, c, e) && WithText(r, r[c].children, e) == [|ns|] &&
      r[|ns|] == NewNode(c, e).(orderWeight := ExitWeight) &&
      (forall x :: x in ns[c].children && !HasText(ns, x, e) ==> x in r[c].children) &&
      (forall x :: x in r[c].children ==> x in ns[c].children || x == |ns|)
  {
    var r := Exit(ns, c, e);
    var cs := WithoutText(ns, ns[c].children, e);
    ExitShape(ns, c, e);
    assert WithText(r, r[c].children, e) == [|ns|] by {
      WithTextSnoc(r, cs, |ns|, e);
      forall x | x in cs ensures !HasText(r, x, e) {
        assert x in ns[c].children && !HasText(ns, x, e);
        assert KidsOk(ns, c);
        var m :| 0 <= m < |ns[c].children| && ns[c].children[m] == x;
      }
      WithoutTextNoneSel(r, cs, e);
    }
    assert KidsOk(r, c);
  }

  /** An exit at `c` for `e` leaves `c` the children without text `e`, then
      the new node `|ns|`, which carries `e` and the exit weight. */
  lemma ExitShape(ns: seq<Node>, c: nat, e: string)
    requires Valid(ns) && c < |ns|
    ensures var r := Exit(ns, c, e);
      r[c].children == WithoutText(ns, ns[c].children, e) + [|ns|] &&
      r[|ns|] == NewNode(c, e).(orderWeight := ExitWeight)
  {
  }

  /** No node of `cs` carries `e`, so selecting `e` gives nothing. */
  lemma {:induction false} WithoutTextNoneSel(ns: seq<Node>, cs: seq<nat>, e: string)
    requires forall x :: x in cs ==> !HasText(ns, x, e)
    ensures WithText(ns, cs, e) == []
    decreases |cs|
  {
    if cs != [] {
      assert cs[0] in cs;
      assert forall x :: x in cs[1..] ==> x in cs;
      WithoutTextNoneSel(ns, cs[1..], e);
    }
  }

  /** An exit elsewhere, or for another text, keeps an existing exit. */
  lemma ExitKeeps(ns: seq<Node>, c: nat, e: string, c': nat, e': string)
    requires Valid(ns) && c < |ns| && OneExit(ns, c', e') && (c' != c || e' != e)
    ensures OneExit(Exit(ns, c, e), c', e')
  {
    var r := Exit(ns, c, e);
    assert KidsOk(ns, c');
    var m := WithText(ns, ns[c'].children, e');
    assert m[0] in m;
    if c' != c {
      forall x | x in ns[c'].children ensures x < |ns| && x < |r| && r[x].text == ns[x].text {
        var k :| 0 <= k < |ns[c'].children| && ns[c'].children[k] == x;
      }
      WithTextFrame(ns, r, ns[c'].children, e');
    } else {
      var cs := WithoutText(ns, ns[c].children, e);
      assert r[c].children == cs + [|ns|];
      assert KidsOk(r, c);
      WithTextSnoc(r, cs, |ns|, e');
      forall x | x in cs ensures x < |ns| && x < |r| && r[x].text == ns[x].text {
        assert x in ns[c].children;
        var k :| 0 <= k < |ns[c].children| && ns[c].children[k] == x;
      }
      WithTextFrame(ns, r, cs, e');
      WithTextOfWithout(ns, ns[c].children, e, e');
    }
  }

  /** The rules tried in list order at node `c`, whose lineage texts are
      `texts`: each rule the lineage passes makes one exit. */
  function ExitRules(test: LineageTest, rules: seq<ExitRule>, texts: seq<string>, ns: seq<Node>, c: nat)
    : (r: seq<Node>)
    requires Valid(ns) && c < |ns|
    ensures Valid(r) && |ns| <= |r| && SameParents(ns, r)
    ensures forall i :: 0 <= i < |ns| ==> r[i] == ns[i].(children := r[i].children)
    ensures forall i :: 0 <= i < |ns| && i != c ==> r[i] == ns[i]
    decreases |rules|
  {
    if rules == [] then ns
    else
      var p := ExitRules(test, rules[..|rules| - 1], texts, ns, c);
      var rule := rules[|rules| - 1];
      if test(texts, rule.lineage, false) then Exit(p, c, rule.exitText) else p
  }

  /** After the rules at `c`, every rule the lineage passes has its one exit. */
  lemma {:induction false} ExitRulesSpec(test: LineageTest, rules: seq<ExitRule>, texts: seq<string>, ns: seq<Node>,
                                         c: nat, q: nat)
    requires Valid(ns) && c < |ns| && q < |rules| && test(texts, rules[q].lineage, false)
    ensures OneExit(ExitRules(test, rules, texts, ns, c), c, rules[q].exitText)
    decreases |rules|
  {
    var n := |rules| - 1;
    var p := ExitRules(test, rules[..n], texts, ns, c);
    if q == n {
      ExitSpec(p, c, rules[n].exitText);
    } else {
      assert rules[..n][q] == rules[q];
      ExitRulesSpec(test, rules[..n], texts, ns, c, q);
      if test(texts, rules[n].lineage, false) {
        if rules[n].exitText == rules[q].exitText {
          ExitSpec(p, c, rules[n].exitText);
        } else {
          ExitKeeps(p, c, rules[n].exitText, c, rules[q].exitText);
        }
      }
    }
  }

  /** The rules at another node keep an existing exit. */
  lemma {:induction false} ExitRulesKeep(test: LineageTest, rules: seq<ExitRule>, texts: seq<string>, ns: seq<Node>,
                                         c: nat, c': nat, e: string)
    requires Valid(ns) && c < |ns| && c != c' && OneExit(ns, c', e)
    ensures OneExit(ExitRules(test, rules, texts, ns, c), c', e)
    decreases |rules|
  {
    if rules != [] {
      var n := |rules| - 1;
      ExitRulesKeep(test, rules[..n], texts, ns, c, c', e);
      var p := ExitRules(test, rules[..n], texts, ns, c);
      if test(texts, rules[n].lineage, false) {
        ExitKeeps(p, c, rules[n].exitText, c', e);
      }
    }
  }

  /** The pass over the nodes `w` in order, each node tested on its lineage
      texts in `tx`. */
  function ExitWalk(test: LineageTest, rules: seq<ExitRule>, tx: seq<seq<string>>, ns: seq<Node>, w: seq<nat>)
    : (r: seq<Node>)
    requires Valid(ns) && InRange(ns, w) && |tx| == |ns|
    ensures Valid(r) && |ns| <= |r| && SameParents(ns, r)
    ensures forall i :: 0 <= i < |ns| ==> r[i] == ns[i].(children := r[i].children)
    ensures forall i :: 0 <= i < |ns| && i !in w ==> r[i] == ns[i]
    decreases |w|
  {
    if w == [] then ns
    else
      var n := |w| - 1;
      var p := ExitWalk(test, rules, tx, ns, w[..n]);
      assert forall i :: i in w[..n] ==> i in w;
      ExitRules(test, rules, tx[w[n]], p, w[n])
  }

  /** `add_sectional_exiting()` on the arena `ns`. */
  function Sectioned(test: LineageTest, rules: seq<ExitRule>, ns: seq<Node>): (r: seq<Node>)
    requires Valid(ns)
    ensures Valid(r) && |ns| <= |r|
  {
    WalksDistinct(ns);
    ExitWalk(test, rules, LineageTable(ns), ns, AllChildren(ns))
  }

  /** Along a walk that visits each node once, every visited node ends with
      one exit for every rule its lineage passes. */
  lemma {:induction false} ExitWalkSpec(test: LineageTest, rules: seq<ExitRule>, tx: seq<seq<string>>, ns: seq<Node>,
                                        w: seq<nat>, k: nat, q: nat)
    requires Valid(ns) && InRange(ns, w) && Distinct(w) && |tx| == |ns|
    requires k < |w| && q < |rules| && test(tx[w[k]], rules[q].lineage, false)
    ensures OneExit(ExitWalk(test, rules, tx, ns, w), w[k], rules[q].exitText)
    decreases |w|
  {
    var n := |w| - 1;
    var p := ExitWalk(test, rules, tx, ns, w[..n]);
    if k == n {
      ExitRulesSpec(test, rules, tx[w[n]], p, w[n], q);
    } else {
      assert w[..n][k] == w[k];
      ExitWalkSpec(test, rules, tx, ns, w[..n], k, q);
      ExitRulesKeep(test, rules, tx[w[n]], p, w[n], w[k], rules[q].exitText);
    }
  }

  /** `add_sectional_exiting` leaves every node of `all_children()` whose
      lineage passes a rule with exactly one child carrying the rule's exit
      text, with weight 999; it changes no text, tag or weight of an existing
      node, and no children list outside `all_children()`. */
  lemma SectionedSpec(test: LineageTest, rules: seq<ExitRule>, ns: seq<Node>, k: nat, q: nat)
    requires Valid(ns) && k < |AllChildren(ns)| && q < |rules|
    requires test(LineageTexts(ns, AllChildren(ns)[k]), rules[q].lineage, false)
    ensures OneExit(Sectioned(test, rules, ns), AllChildren(ns)[k], rules[q].exitText)
    ensures var r := Sectioned(test, rules, ns);
      (forall i :: 0 <= i < |ns| ==> r[i] == ns[i].(children := r[i].children)) &&
      r[0] == ns[0]
  {
    WalksDistinct(ns);
    var w := AllChildren(ns);
    ExitWalkSpec(test, rules, LineageTable(ns), ns, w, k, q);
    assert KidsOk(ns, 0) && Above(ns, w, 0);
  }

  // ---------------------------------------------------------------------
  // The loops of the pass, on the arena's value

  /** The loop of `add_sectional_exiting` over the snapshot of
      `all_children()`. */
  method ExitAll(test: LineageTest, rules: seq<ExitRule>, ns0: seq<Node>) returns (ns: seq<Node>)
    requires Valid(ns0)
    ensures ns == Sectioned(test, rules, ns0)
  {
    var walk := AllChildren(ns0);
    WalksDistinct(ns0);
    ghost var tx := LineageTable(ns0);
    ns := ns0;
    var j := 0;
    while j < |walk|
      invariant j <= |walk| && ns == ExitWalk(test, rules, tx, ns0, walk[..j])
    {
      var c := walk[j];
      ExitReady(test, rules, ns0, walk, j);
      ns := ExitNode(test, rules, ns, c, tx[c]);
      j := j + 1;
    }
    assert walk[..j] == walk;
  }

  /** What one step of the outer loop relies on: the node visited next still
      has its snapshot lineage texts, and the walk grows by its rules. */
  lemma ExitReady(test: LineageTest, rules: seq<ExitRule>, ns0: seq<Node>, walk: seq<nat>, j: nat)
    requires Valid(ns0) && walk == AllChildren(ns0) && j < |walk|
    ensures InRange(ns0, walk[..j])
    ensures var tx := LineageTable(ns0);
      var ns := ExitWalk(test, rules, tx, ns0, walk[..j]);
      Valid(ns) && walk[j] < |ns| && LineageTexts(ns, walk[j]) == tx[walk[j]] &&
      ExitWalk(test, rules, tx, ns0, walk[..j + 1]) == ExitRules(test, rules, tx[walk[j]], ns, walk[j])
  {
    WalksDistinct(ns0);
    var tx := LineageTable(ns0);
    var ns := ExitWalk(test, rules, tx, ns0, walk[..j]);
    ExitTexts(ns0, ns, walk[j]);
    ExitWalkNext(test, rules, tx, ns0, walk, j);
  }

  /** One more node of the walk applies its rules. */
  lemma ExitWalkNext(test: LineageTest, rules: seq<ExitRule>, tx: seq<seq<string>>, ns: seq<Node>, w: seq<nat>, j: nat)
    requires Valid(ns) && InRange(ns, w) && |tx| == |ns| && j < |w|
    ensures InRange(ns, w[..j]) && InRange(ns, w[..j + 1])
    ensures var p := ExitWalk(test, rules, tx, ns, w[..j]);
      w[j] < |p| && ExitWalk(test, rules, tx, ns, w[..j + 1]) == ExitRules(test, rules, tx[w[j]], p, w[j])
  {
    assert w[..j + 1][..j] == w[..j];
  }

  /** Exits change neither the parents nor the texts of existing nodes, so a
      node's lineage texts stay those of the snapshot. */
  lemma ExitTexts(ns0: seq<Node>, ns: seq<Node>, c: nat)
    requires Valid(ns0) && c < |ns0| && SameParents(ns0, ns)
    requires forall i :: 0 <= i < |ns0| ==> ns[i] == ns0[i].(children := ns[i].children)
    ensures LineageTexts(ns, c) == LineageTexts(ns0, c)
  {
    FrameTexts(ns0, ns, c);
  }

  /** The inner loop of `add_sectional_exiting` at one node. */
  method ExitNode(test: LineageTest, rules: seq<ExitRule>, ns0: seq<Node>, c: nat, ghost texts: seq<string>)
    returns (ns: seq<Node>)
    requires Valid(ns0) && c < |ns0| && LineageTexts(ns0, c) == texts
    ensures ns == ExitRules(test, rules, texts, ns0, c)
  {
    ns := ns0;
    var q := 0;
    while q < |rules|
      invariant q <= |rules| && ns == ExitRules(test, rules[..q], texts, ns0, c)
    {
      assert rules[..q + 1][..q] == rules[..q];
      ExitTexts(ns0, ns, c);
      var rule := rules[q];
      if test(LineageTexts(ns, c), rule.lineage, false) {
        ns := ExitOnce(ns, c, rule.exitText);
      }
      q := q + 1;
    }
    assert rules[..q] == rules;
  }

  /** The body of a matching rule: `if exit_text in child` the old exit lines
      are deleted, then the new one is added with weight 999. */
  method ExitOnce(ns0: seq<Node>, c: nat, e: string) returns (ns: seq<Node>)
    requires Valid(ns0) && c < |ns0|
    ensures ns == Exit(ns0, c, e)
  {
    ns := ns0;
    if exists x :: x in ns[c].children && HasText(ns, x, e) {
      ns := DelChildByText(ns, c, e);
    } else {
      WithoutTextNone(ns, ns[c].children, e);
      assert DelChildByText(ns0, c, e) == ns0;
    }
    ns := AppendChild(ns, c, e);
    ns := ns[|ns0| := ns[|ns0|].(orderWeight := ExitWeight)];
  }
}
