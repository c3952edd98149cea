/** `all_children_sorted_with_lineage_rules(rules)`: the walk of
    `all_children_sorted()` that keeps the nodes matching one of the lineage
    rules, their lineages, and everything below them. The generator is
    modelled by the sequence of nodes it yields. */
module Filter {
  import opened Rules
  import opened Arena
  import opened Walk

  /** The generator's state: the `matched` set and what has been yielded, in
      order (`yielded` is the set of its elements). */
  datatype Yield = Yield(matched: set<nat>, out: seq<nat>)

  /** Some rule passes `lineage_test(rule, False)` on the lineage texts. */
  predicate AnyRule(test: LineageTest, rules: seq<LineageRule>, texts: seq<string>) {
    exists q :: 0 <= q < |rules| && test(texts, rules[q], false)
  }

  /** Some node of the lineage `l` is in `matched`. */
  predicate HitsMatched(l: seq<nat>, matched: set<nat>) {
    exists k :: 0 <= k < |l| && l[k] in matched
  }

  /** The nodes of `l` not yet in `out`, in order. */
  function Unyielded(l: seq<nat>, out: seq<nat>): (r: seq<nat>)
    ensures forall x :: x in r <==> x in l && x !in out
    ensures Distinct(l) ==> Distinct(r)
    decreases |l|
  {
    if l == [] then []
    else
      var n := |l| - 1;
      var rest := Unyielded(l[..n], out);
      if l[n] in out then rest
      else
        assert forall x :: x in l[..n] ==> x in l;
        assert Distinct(l) ==> Distinct(l[..n]) && l[n] !in l[..n];
        rest + [l[n]]
  }

  /** One node `c` of the walk: yielded alone below a matched ancestor;
      otherwise, if a rule matches it, marked matched and yielded with the
      part of its lineage not yielded yet, outermost first. */
  function Step(test: LineageTest, rules: seq<LineageRule>, ns: seq<Node>, y: Yield, c: nat): Yield
    requires ParentsOk(ns) && c < |ns|
  {
    var l := Lineage(ns, c);
    if HitsMatched(l, y.matched) then y.(out := y.out + [c])
    else if AnyRule(test, rules, LineageTexts(ns, c)) then Yield(y.matched + {c}, y.out + Unyielded(l, y.out))
    else y
  }

  /** The generator run over the nodes `w`. */
  function FilterWalk(test: LineageTest, rules: seq<LineageRule>, ns: seq<Node>, w: seq<nat>): Yield
    requires ParentsOk(ns) && InRange(ns, w)
    decreases |w|
  {
    if w == [] then Yield({}, [])
    else Step(test, rules, ns, FilterWalk(test, rules, ns, w[..|w| - 1]), w[|w| - 1])
  }

  /** Everything `all_children_sorted_with_lineage_rules(rules)` yields. */
  function Filtered(test: LineageTest, rules: seq<LineageRule>, ns: seq<Node>): (r: seq<nat>)
    requires Valid(ns)
    ensures InRange(ns, r)
  {
    WalksDistinct(ns);
    FilteredInRange(test, rules, ns);
    FilterWalk(test, rules, ns, AllChildrenSorted(ns)).out
  }

  /** The nodes matched over the whole walk. */
  function Matched(test: LineageTest, rules: seq<LineageRule>, ns: seq<Node>): set<nat>
    requires Valid(ns)
  {
    WalksDistinct(ns);
    FilterWalk(test, rules, ns, AllChildrenSorted(ns)).matched
  }

  // ---------------------------------------------------------------------
  // What is yielded

  /** `x` is `m`, an ancestor of `m`, or a descendant of `m`. */
  predicate Related(ns: seq<Node>, x: nat, m: nat)
    requires ParentsOk(ns) && x < |ns| && m < |ns|
  {
    x in Lineage(ns, m) || m in Lineage(ns, x)
  }

  /** `x` is related to some matched node. */
  ghost predicate Covered(ns: seq<Node>, matched: set<nat>, x: nat)
    requires ParentsOk(ns) && x < |ns|
  {
    exists m :: m in matched && m < |ns| && Related(ns, x, m)
  }

  /** No strict ancestor of `m` is matched. */
  ghost predicate Topmost(ns: seq<Node>, matched: set<nat>, m: nat)
    requires ParentsOk(ns) && m < |ns|
  {
    forall a :: a in Lineage(ns, m) && a != m ==> a !in matched
  }

  /** A walk that never visits the root and visits every ancestor of a node
      before the node. */
  ghost predicate AncClosed(ns: seq<Node>, w: seq<nat>)
    requires ParentsOk(ns) && InRange(ns, w)
  {
    (forall k :: 0 <= k < |w| ==> w[k] != 0) &&
    forall k, a :: 0 <= k < |w| && a in Lineage(ns, w[k]) ==> a in w[..k + 1]
  }

  /** Every matched node was visited, matches a rule, and has no matched
      ancestor. */
  ghost predicate MatchedOk(test: LineageTest, rules: seq<LineageRule>, ns: seq<Node>, w: seq<nat>, matched: set<nat>)
    requires ParentsOk(ns)
  {
    forall m :: m in matched ==>
      m in w && m < |ns| && AnyRule(test, rules, LineageTexts(ns, m)) && Topmost(ns, matched, m)
  }

  /** Every visited node a rule matches is matched or has a matched ancestor. */
  ghost predicate UnmatchedOk(test: LineageTest, rules: seq<LineageRule>, ns: seq<Node>, w: seq<nat>, matched: set<nat>)
    requires ParentsOk(ns) && InRange(ns, w)
  {
    forall k :: 0 <= k < |w| && AnyRule(test, rules, LineageTexts(ns, w[k])) && w[k] !in matched ==>
      HitsMatched(Lineage(ns, w[k]), matched)
  }

  /** A node is yielded exactly when it was visited and is related to a
      matched node. */
  ghost predicate YieldsOk(ns: seq<Node>, w: seq<nat>, matched: set<nat>, out: seq<nat>)
    requires ParentsOk(ns) && InRange(ns, w)
  {
    forall x: nat :: YieldsAt(ns, w, matched, out, x)
  }

  ghost predicate YieldsAt(ns: seq<Node>, w: seq<nat>, matched: set<nat>, out: seq<nat>, x: nat)
    requires ParentsOk(ns) && InRange(ns, w)
  {
    x in out <==> x in w && x < |ns| && Covered(ns, matched, x)
  }

  /** What the generator has done after the walk `w`: nothing is yielded
      twice; the matched nodes are exactly the visited nodes a rule matches
      that have no matched ancestor; and a visited node is yielded exactly
      when it is a matched node, in the lineage of one, or below one. */
  ghost predicate Sound(test: LineageTest, rules: seq<LineageRule>, ns: seq<Node>, w: seq<nat>, y: Yield)
    requires ParentsOk(ns) && InRange(ns, w)
  {
    Distinct(y.out) && MatchedOk(test, rules, ns, w, y.matched) &&
    UnmatchedOk(test, rules, ns, w, y.matched) && YieldsOk(ns, w, y.matched, y.out)
  }

  /** Facts about the walk needed at node `c`, visited after `w`. */
  ghost predicate Unvisited(ns: seq<Node>, w: seq<nat>, c: nat)
    requires ParentsOk(ns) && InRange(ns, w) && c < |ns|
  {
    c != 0 && c !in w &&
    (forall a :: a in Lineage(ns, c) && a != c ==> a in w) &&
    (forall k :: 0 <= k < |w| ==> c !in Lineage(ns, w[k]))
  }

  /** `c` with a matched node in its lineage. */
  lemma StepHit(test: LineageTest, rules: seq<LineageRule>, ns: seq<Node>, w: seq<nat>, y: Yield, c: nat)
    requires ParentsOk(ns) && InRange(ns, w) && c < |ns| && Sound(test, rules, ns, w, y) && Unvisited(ns, w, c)
    requires HitsMatched(Lineage(ns, c), y.matched)
    ensures Sound(test, rules, ns, w + [c], y.(out := y.out + [c]))
  {
    assert YieldsAt(ns, w, y.matched, y.out, c);
    DistinctConcat(y.out, [c]);
    HitMatched(test, rules, ns, w, y.matched, c);
    HitUnmatched(test, rules, ns, w, y.matched, c);
    HitYields(ns, w, y.matched, y.out, c);
  }

  lemma HitMatched(test: LineageTest, rules: seq<LineageRule>, ns: seq<Node>, w: seq<nat>, matched: set<nat>, c: nat)
    requires ParentsOk(ns) && MatchedOk(test, rules, ns, w, matched)
    ensures MatchedOk(test, rules, ns, w + [c], matched)
  {
  }

  lemma HitUnmatched(test: LineageTest, rules: seq<LineageRule>, ns: seq<Node>, w: seq<nat>, matched: set<nat>, c: nat)
    requires ParentsOk(ns) && InRange(ns, w) && c < |ns| && UnmatchedOk(test, rules, ns, w, matched)
    requires HitsMatched(Lineage(ns, c), matched)
    ensures InRange(ns, w + [c]) && UnmatchedOk(test, rules, ns, w + [c], matched)
  {
    var w' := w + [c];
    forall i | 0 <= i < |w'| && AnyRule(test, rules, LineageTexts(ns, w'[i])) && w'[i] !in matched
      ensures HitsMatched(Lineage(ns, w'[i]), matched)
    {
      if i < |w| { assert w'[i] == w[i]; }
    }
  }

  lemma HitYields(ns: seq<Node>, w: seq<nat>, matched: set<nat>, out: seq<nat>, c: nat)
    requires ParentsOk(ns) && InRange(ns, w) && c < |ns| && YieldsOk(ns, w, matched, out)
    requires HitsMatched(Lineage(ns, c), matched)
    ensures InRange(ns, w + [c]) && YieldsOk(ns, w + [c], matched, out + [c])
  {
    var k :| 0 <= k < |Lineage(ns, c)| && Lineage(ns, c)[k] in matched;
    var a := Lineage(ns, c)[k];
    assert a < |ns| && Related(ns, c, a);
    forall x: nat ensures YieldsAt(ns, w + [c], matched, out + [c], x) {
      assert YieldsAt(ns, w, matched, out, x);
      if x == c { assert x in w + [c]; }
    }
  }

  /** `c` with no matched node in its lineage, matched by a rule. */
  lemma StepMatch(test: LineageTest, rules: seq<LineageRule>, ns: seq<Node>, w: seq<nat>, y: Yield, c: nat)
    requires ParentsOk(ns) && InRange(ns, w) && c < |ns| && Sound(test, rules, ns, w, y) && Unvisited(ns, w, c)
    requires !HitsMatched(Lineage(ns, c), y.matched) && AnyRule(test, rules, LineageTexts(ns, c))
    ensures Sound(test, rules, ns, w + [c], Yield(y.matched + {c}, y.out + Unyielded(Lineage(ns, c), y.out)))
  {
    var l := Lineage(ns, c);
    DistinctConcat(y.out, Unyielded(l, y.out));
    MatchMatched(test, rules, ns, w, y.matched, c);
    MatchUnmatched(test, rules, ns, w, y.matched, c);
    MatchYields(ns, w, y.matched, y.out, c, w + [c], y.matched + {c}, y.out + Unyielded(l, y.out));
  }

  /** The newly matched node has no matched ancestor, and is no ancestor of
      an earlier matched node. */
  lemma MatchMatched(test: LineageTest, rules: seq<LineageRule>, ns: seq<Node>, w: seq<nat>, matched: set<nat>, c: nat)
    requires ParentsOk(ns) && InRange(ns, w) && c < |ns| && Unvisited(ns, w, c)
    requires MatchedOk(test, rules, ns, w, matched)
    requires !HitsMatched(Lineage(ns, c), matched) && AnyRule(test, rules, LineageTexts(ns, c))
    ensures MatchedOk(test, rules, ns, w + [c], matched + {c})
  {
    var l := Lineage(ns, c);
    var m' := matched + {c};
    forall m | m in m' ensures m in w + [c] && m < |ns| && Topmost(ns, m', m) {
      if m == c {
        forall a | a in l && a != c ensures a !in m' {
          var i :| 0 <= i < |l| && l[i] == a;
        }
      } else {
        var i :| 0 <= i < |w| && w[i] == m;
        assert c !in Lineage(ns, w[i]);
      }
    }
  }

  lemma MatchUnmatched(test: LineageTest, rules: seq<LineageRule>, ns: seq<Node>, w: seq<nat>, matched: set<nat>, c: nat)
    requires ParentsOk(ns) && InRange(ns, w) && c < |ns|
    requires UnmatchedOk(test, rules, ns, w, matched)
    ensures InRange(ns, w + [c]) && UnmatchedOk(test, rules, ns, w + [c], matched + {c})
  {
    var w', m' := w + [c], matched + {c};
    forall i | 0 <= i < |w'| && AnyRule(test, rules, LineageTexts(ns, w'[i])) && w'[i] !in m'
      ensures HitsMatched(Lineage(ns, w'[i]), m')
    {
      assert i < |w| && w'[i] == w[i];
      var k :| 0 <= k < |Lineage(ns, w[i])| && Lineage(ns, w[i])[k] in matched;
    }
  }

  /** After the match, the yielded nodes are the earlier ones and the new
      lineage. */
  lemma MatchYields(ns: seq<Node>, w: seq<nat>, matched: set<nat>, out: seq<nat>, c: nat,
                    w': seq<nat>, m': set<nat>, out': seq<nat>)
    requires ParentsOk(ns) && InRange(ns, w) && c < |ns| && Unvisited(ns, w, c)
    requires YieldsOk(ns, w, matched, out) && (forall m :: m in matched ==> m in w && m < |ns|)
    requires !HitsMatched(Lineage(ns, c), matched)
    requires w' == w + [c] && InRange(ns, w') && m' == matched + {c}
    requires out' == out + Unyielded(Lineage(ns, c), out)
    ensures YieldsOk(ns, w', m', out')
  {
    forall x: nat ensures YieldsAt(ns, w', m', out', x) {
      MatchYieldsAt(ns, w, matched, out, c, w', m', out', x);
    }
  }

  lemma MatchYieldsAt(ns: seq<Node>, w: seq<nat>, matched: set<nat>, out: seq<nat>, c: nat,
                      w': seq<nat>, m': set<nat>, out': seq<nat>, x: nat)
    requires ParentsOk(ns) && InRange(ns, w) && c < |ns| && Unvisited(ns, w, c)
    requires YieldsOk(ns, w, matched, out) && (forall m :: m in matched ==> m in w && m < |ns|)
    requires !HitsMatched(Lineage(ns, c), matched)
    requires w' == w + [c] && InRange(ns, w') && m' == matched + {c}
    requires out' == out + Unyielded(Lineage(ns, c), out)
    ensures YieldsAt(ns, w', m', out', x)
  {
    assert YieldsAt(ns, w, matched, out, x);
    var l := Lineage(ns, c);
    if x in l {
      LineageYielded(ns, w, m', c, x);
    } else if x in w' && x < |ns| && Covered(ns, m', x) {
      MatchCovered(ns, w, matched, c, x);
    }
  }

  /** A node of the new lineage is visited and related to the new match. */
  lemma LineageYielded(ns: seq<Node>, w: seq<nat>, m': set<nat>, c: nat, x: nat)
    requires ParentsOk(ns) && InRange(ns, w) && c < |ns| && Unvisited(ns, w, c) && c in m'
    requires x in Lineage(ns, c)
    ensures x in w + [c] && x < |ns| && Covered(ns, m', x)
  {
    assert x == c || x in w;
    assert Related(ns, x, c);
  }

  /** A node outside the new lineage related to a matched node was related
      to an earlier one. */
  lemma MatchCovered(ns: seq<Node>, w: seq<nat>, matched: set<nat>, c: nat, x: nat)
    requires ParentsOk(ns) && InRange(ns, w) && c < |ns| && Unvisited(ns, w, c)
    requires forall m :: m in matched ==> m in w && m < |ns|
    requires !HitsMatched(Lineage(ns, c), matched)
    requires x in w + [c] && x < |ns| && Covered(ns, matched + {c}, x) && x !in Lineage(ns, c)
    ensures x in w && Covered(ns, matched, x)
  {
    assert c in Lineage(ns, c);
  }

  /** `c` with no matched node in its lineage and no rule matching it. */
  lemma StepNone(test: LineageTest, rules: seq<LineageRule>, ns: seq<Node>, w: seq<nat>, y: Yield, c: nat)
    requires ParentsOk(ns) && InRange(ns, w) && c < |ns| && Sound(test, rules, ns, w, y) && Unvisited(ns, w, c)
    requires !HitsMatched(Lineage(ns, c), y.matched) && !AnyRule(test, rules, LineageTexts(ns, c))
    ensures Sound(test, rules, ns, w + [c], y)
  {
    var w' := w + [c];
    forall i | 0 <= i < |w'| && AnyRule(test, rules, LineageTexts(ns, w'[i])) && w'[i] !in y.matched
      ensures HitsMatched(Lineage(ns, w'[i]), y.matched)
    {
      assert i < |w| && w'[i] == w[i];
    }
    forall x: nat ensures YieldsAt(ns, w', y.matched, y.out, x) {
      assert YieldsAt(ns, w, y.matched, y.out, x);
    }
  }

  /** One step of the generator keeps it `Sound`. */
  lemma StepSound(test: LineageTest, rules: seq<LineageRule>, ns: seq<Node>, w: seq<nat>, y: Yield, c: nat, w': seq<nat>)
    requires ParentsOk(ns) && InRange(ns, w) && c < |ns| && Sound(test, rules, ns, w, y) && Unvisited(ns, w, c)
    requires w' == w + [c]
    ensures InRange(ns, w') && Sound(test, rules, ns, w', Step(test, rules, ns, y, c))
  {
    if HitsMatched(Lineage(ns, c), y.matched) {
      StepHit(test, rules, ns, w, y, c);
    } else if AnyRule(test, rules, LineageTexts(ns, c)) {
      StepMatch(test, rules, ns, w, y, c);
    } else {
      StepNone(test, rules, ns, w, y, c);
    }
  }

  /** A prefix of an ancestor-closed walk is ancestor-closed. */
  lemma ClosedPrefix(ns: seq<Node>, w: seq<nat>, n: nat, p: seq<nat>)
    requires ParentsOk(ns) && InRange(ns, w) && AncClosed(ns, w) && n <= |w| && p == w[..n]
    ensures InRange(ns, p) && AncClosed(ns, p)
  {
    forall k, a | 0 <= k < |p| && a in Lineage(ns, p[k]) ensures a in p[..k + 1] {
      ClosedPrefixAt(ns, w, n, p, k, a);
    }
  }

  lemma ClosedPrefixAt(ns: seq<Node>, w: seq<nat>, n: nat, p: seq<nat>, k: nat, a: nat)
    requires ParentsOk(ns) && InRange(ns, w) && AncClosed(ns, w) && n <= |w| && p == w[..n]
    requires k < |p| && a in Lineage(ns, p[k])
    ensures a in p[..k + 1]
  {
    assert p[k] == w[k] && p[..k + 1] == w[..k + 1];
  }

  /** Along an ancestor-closed walk visiting each node once, the generator
      stays `Sound`. */
  lemma {:induction false} FilterSound(test: LineageTest, rules: seq<LineageRule>, ns: seq<Node>, w: seq<nat>)
    requires ParentsOk(ns) && InRange(ns, w) && Distinct(w) && AncClosed(ns, w)
    ensures Sound(test, rules, ns, w, FilterWalk(test, rules, ns, w))
    decreases |w|
  {
    if w != [] {
      var n := |w| - 1;
      ClosedPrefix(ns, w, n, w[..n]);
      FilterSound(test, rules, ns, w[..n]);
      UnvisitedNext(ns, w);
      assert w[..n] + [w[n]] == w;
      StepSound(test, rules, ns, w[..n], FilterWalk(test, rules, ns, w[..n]), w[n], w);
    }
  }

  /** The last node of a distinct, ancestor-closed walk is fresh after the
      rest of it. */
  lemma UnvisitedNext(ns: seq<Node>, w: seq<nat>)
    requires ParentsOk(ns) && InRange(ns, w) && Distinct(w) && AncClosed(ns, w) && w != []
    ensures InRange(ns, w[..|w| - 1]) && Unvisited(ns, w[..|w| - 1], w[|w| - 1])
  {
    var n := |w| - 1;
    var p, c := w[..n], w[n];
    assert w[..n + 1] == w;
    forall a | a in Lineage(ns, c) && a != c ensures a in p {
      assert a in w[..n + 1];
      var i :| 0 <= i < |w| && w[i] == a;
    }
  }

  /** `all_children_sorted()` is such a walk. */
  lemma SortedClosed(ns: seq<Node>)
    requires Valid(ns)
    ensures AncClosed(ns, AllChildrenSorted(ns))
  {
    WalksDistinct(ns);
    var w := AllChildrenSorted(ns);
    assert KidsOk(ns, 0);
    KidsPerm(ns, 0, true);
    forall k, a | 0 <= k < |w| && a in Lineage(ns, w[k]) ensures a in w[..k + 1] {
      LineageIsAncestors(ns, w[k], a);
      LineageDepth(ns, w[k], 0);
      RootAnc(ns, a);
      ForestAncBefore(ns, Kids(ns, 0, true), 0, true, k, a);
    }
  }

  /** `all_children_sorted_with_lineage_rules(rules)` yields no node twice;
      the nodes it marks as matched are those of `all_children_sorted()` that
      a rule matches and that have no matched ancestor; and it yields exactly
      the matched nodes, the nodes of their lineages, and the nodes below
      them. */
  lemma FilteredSpec(test: LineageTest, rules: seq<LineageRule>, ns: seq<Node>)
    requires Valid(ns)
    ensures var w, out, m := AllChildrenSorted(ns), Filtered(test, rules, ns), Matched(test, rules, ns);
      Distinct(out) &&
      (forall x :: x in m ==> x in w && AnyRule(test, rules, LineageTexts(ns, x)) && Topmost(ns, m, x)) &&
      (forall x :: x in w && AnyRule(test, rules, LineageTexts(ns, x)) && x !in m ==> HitsMatched(Lineage(ns, x), m)) &&
      (forall x: nat :: x in out <==> x in w && Covered(ns, m, x))
  {
    WalksDistinct(ns);
    SortedClosed(ns);
    var w := AllChildrenSorted(ns);
    FilterSound(test, rules, ns, w);
    var y := FilterWalk(test, rules, ns, w);
    forall x: nat ensures x in y.out <==> x in w && Covered(ns, y.matched, x) {
      assert YieldsAt(ns, w, y.matched, y.out, x);
    }
  }

  /** Only nodes of the tree are yielded. */
  lemma FilteredInRange(test: LineageTest, rules: seq<LineageRule>, ns: seq<Node>)
    requires Valid(ns)
    ensures InRange(ns, FilterWalk(test, rules, ns, AllChildrenSorted(ns)).out)
  {
    WalksDistinct(ns);
    SortedClosed(ns);
    var w := AllChildrenSorted(ns);
    FilterSound(test, rules, ns, w);
    var y := FilterWalk(test, rules, ns, w);
    forall k | 0 <= k < |y.out| ensures y.out[k] < |ns| {
      assert YieldsAt(ns, w, y.matched, y.out, y.out[k]);
    }
  }

  // ---------------------------------------------------------------------
  // The loops of the generator

  /** The generator's loop over `all_children_sorted()`. */
  method FilterAll(test: LineageTest, rules: seq<LineageRule>, ns: seq<Node>) returns (out: seq<nat>)
    requires Valid(ns)
    ensures out == Filtered(test, rules, ns)
  {
    var walk := AllChildrenSorted(ns);
    var matched: set<nat> := {};
    var yielded: set<nat> := {};
    out := [];
    var j := 0;
    while j < |walk|
      invariant j <= |walk| && Yield(matched, out) == FilterWalk(test, rules, ns, walk[..j])
      invariant forall x :: x in yielded <==> x in out
    {
      assert walk[..j + 1][..j] == walk[..j];
      matched, out, yielded := VisitChild(test, rules, ns, matched, out, yielded, walk[j]);
      j := j + 1;
    }
    assert walk[..j] == walk;
  }

  /** The body of the generator's loop for one `child`. */
  method VisitChild(test: LineageTest, rules: seq<LineageRule>, ns: seq<Node>,
                    matched0: set<nat>, out0: seq<nat>, yielded0: set<nat>, child: nat)
    returns (matched: set<nat>, out: seq<nat>, yielded: set<nat>)
    requires ParentsOk(ns) && child < |ns| && forall x :: x in yielded0 <==> x in out0
    ensures Yield(matched, out) == Step(test, rules, ns, Yield(matched0, out0), child)
    ensures forall x :: x in yielded <==> x in out
  {
    matched, out, yielded := matched0, out0, yielded0;
    var l := Lineage(ns, child);
    var hit := AnyMatched(l, matched);
    if hit {
      out, yielded := out + [child], yielded + {child};
    } else {
      var fires := AnyRuleFires(test, rules, LineageTexts(ns, child));
      if fires {
        matched := matched + {child};
        out, yielded := YieldLineage(l, out, yielded);
      }
    }
  }

  /** `for ancestor in child.lineage(): if ancestor in matched`. */
  method AnyMatched(l: seq<nat>, matched: set<nat>) returns (hit: bool)
    ensures hit == HitsMatched(l, matched)
  {
    hit := false;
    var k := 0;
    while k < |l| && !hit
      invariant k <= |l|
      invariant hit ==> HitsMatched(l, matched)
      invariant !hit ==> forall i :: 0 <= i < k ==> l[i] !in matched
    {
      hit := l[k] in matched;
      k := k + 1;
    }
  }

  /** `for rule in rules: if child.lineage_test(rule, False)`. */
  method AnyRuleFires(test: LineageTest, rules: seq<LineageRule>, texts: seq<string>) returns (fires: bool)
    ensures fires == AnyRule(test, rules, texts)
  {
    fires := false;
    var q := 0;
    while q < |rules| && !fires
      invariant q <= |rules|
      invariant fires ==> AnyRule(test, rules, texts)
      invariant !fires ==> forall i :: 0 <= i < q ==> !test(texts, rules[i], false)
    {
      fires := test(texts, rules[q], false);
      q := q + 1;
    }
  }

  /** The ancestors of a newly matched node not yielded yet, yielded in
      lineage order. */
  method YieldLineage(l: seq<nat>, out0: seq<nat>, yielded0: set<nat>) returns (out: seq<nat>, yielded: set<nat>)
    requires Distinct(l) && forall x :: x in yielded0 <==> x in out0
    ensures out == out0 + Unyielded(l, out0) && forall x :: x in yielded <==> x in out
  {
    out, yielded := out0, yielded0;
    var k := 0;
    while k < |l|
      invariant k <= |l| && out == out0 + Unyielded(l[..k], out0)
      invariant forall x :: x in yielded <==> x in out
    {
      assert l[..k + 1][..k] == l[..k];
      assert l[k] !in l[..k];
      if l[k] !in yielded {
        out := out + [l[k]];
        yielded := yielded + {l[k]};
      }
      k := k + 1;
    }
    assert l[..k] == l;
  }
}
