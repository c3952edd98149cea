/** `HConfig`, the root of a hierarchical configuration: the text loader and
    the passes that walk and rewrite the tree. */
module Config {
  import opened Text
  import opened Rules
  import opened Arena
  import opened Walk
  import opened Scanner
  import opened Loader
  import opened Seqs
  import opened Passes
  import opened Acl
  import opened Exiting
  import opened Dump
  import opened Filter

  class HConfig {
    /** The tree; index 0 is this object, the root. */
    var nodes: seq<Node>
    /** `host.hconfig_options` */
    const options: Options
    /** `host.os` */
    const hostOs: string

    predicate Valid()
      reads this
    {
      Arena.Valid(nodes)
    }

    /** An empty configuration for a host. */
    constructor (options: Options, hostOs: string)
      ensures Valid() && nodes == [RootNode]
      ensures this.options == options && this.hostOs == hostOs
    {
      nodes := [RootNode];
      this.options := options;
      this.hostOs := hostOs;
    }

    /** `for sub in subs: s = re.sub(sub['search'], sub['replace'], s)` */
    static method SubstituteAll(re: Regex, subs: seq<Sub>, s: string) returns (r: string)
      ensures r == ApplySubs(re, subs, s)
    {
      r := s;
      var i := 0;
      while i < |subs|
        invariant 0 <= i <= |subs|
        invariant r == ApplySubs(re, subs[..i], s)
      {
        r := re.sub(subs[i].search, subs[i].replace, r);
        assert subs[..i + 1][..i] == subs[..i];
        i := i + 1;
      }
      assert subs[..i] == subs;
    }

    /** The `indent_adjust` bookkeeping after a line: the first start expression
        matching `text` queues its end expression, then the oldest queued end
        expression is tested against `text`. */
    static method AdjustIndent(re: Regex, rules: seq<IndentRule>, text: string, indentAdjust: int,
                               endIndentAdjust: seq<string>, ghost st: ScanState)
      returns (indentAdjust': int, endIndentAdjust': seq<string>)
      requires st.indentAdjust == indentAdjust && st.pending == endIndentAdjust
      ensures Adjust(re, rules, text, st) == st.(indentAdjust := indentAdjust', pending := endIndentAdjust')
    {
      indentAdjust', endIndentAdjust' := indentAdjust, endIndentAdjust;
      ghost var hit := |rules|;
      var e := 0;
      while e < |rules|
        invariant 0 <= e <= |rules| && hit == |rules|
        invariant forall q :: 0 <= q < e ==> !re.search(rules[q].startExpression, text)
      {
        if re.search(rules[e].startExpression, text) {
          indentAdjust' := indentAdjust' + 1;
          endIndentAdjust' := endIndentAdjust' + [rules[e].endExpression];
          hit := e;
          break;
        }
        e := e + 1;
      }
      FirstStartIs(re, rules, text, hit, 0);
      if |endIndentAdjust'| > 0 && re.search(endIndentAdjust'[0], text) {
        indentAdjust' := indentAdjust' - 1;
        endIndentAdjust' := endIndentAdjust'[1..];
      }
    }

    /** The cursor walk and `add_child` for one normalised line: up from the
        current section while the line is not indented past it, then down into
        the most recent node when the line is indented past that. */
    method PlaceLine(lineText: string, thisIndent: int, currentSection: nat, mostRecent: nat,
                     ghost ns0: seq<Node>, ghost items: seq<Item>)
      returns (section: nat, recent: nat)
      requires Loaded(ns0, nodes, items) && thisIndent >= 0
      requires mostRecent == Prev(|ns0|, |items|)
      requires mostRecent == 0 ==> currentSection == 0
      requires mostRecent != 0 ==> mostRecent < |nodes| && currentSection == nodes[mostRecent].parent
      modifies this
      ensures var it := Item(lineText, thisIndent, false);
        Loaded(ns0, nodes, items + [it]) &&
        nodes == Put(old(nodes), Attach(old(nodes), mostRecent, thisIndent), it)
      ensures recent == Prev(|ns0|, |items| + 1) && recent < |nodes| && section == nodes[recent].parent
    {
      assert KeptAt(ns0, nodes, 0);
      var it := Item(lineText, thisIndent, false);
      ghost var cur0 := currentSection;
      section := currentSection;
      while thisIndent <= nodes[section].realIndent
        invariant section < |nodes|
        invariant Attach(nodes, section, thisIndent) == Attach(nodes, cur0, thisIndent)
        decreases section
      {
        section := Parent(nodes, section);
      }
      if thisIndent > nodes[mostRecent].realIndent {
        section := mostRecent;
      }
      assert section == Attach(nodes, mostRecent, thisIndent);
      LoadStep(ns0, nodes, items, it, section);
      ghost var put := Put(nodes, section, it);
      nodes := AppendChild(nodes, section, lineText);
      recent := |nodes| - 1;
      nodes := nodes[recent := nodes[recent].(realIndent := thisIndent)];
      assert nodes == put;
    }

    /** A line read while inside a banner: it is kept unless it is a bare
        `!`, and a terminator turns the collected lines into one child of the
        root with `real_indent_level` 0. */
    method ReadBannerLine(line: string, st: ScanState, ghost ns0: seq<Node>, ghost items: seq<Item>,
                          currentSection: nat, mostRecent: nat)
      returns (st': ScanState, ghost items': seq<Item>, section: nat, recent: nat)
      requires st.inBanner && Loaded(ns0, nodes, items)
      requires mostRecent == Prev(|ns0|, |items|)
      requires mostRecent == 0 ==> currentSection == 0
      requires mostRecent != 0 ==> currentSection == nodes[mostRecent].parent
      modifies this
      ensures (st', items') == (BannerLine(st, line).0, items + BannerLine(st, line).1)
      ensures Loaded(ns0, nodes, items')
      ensures recent == Prev(|ns0|, |items'|)
      ensures recent == 0 ==> section == 0
      ensures recent != 0 ==> section == nodes[recent].parent
    {
      st', items', section, recent := st, items, currentSection, mostRecent;
      if line != "!" {
        st' := st'.(tempBanner := st'.tempBanner + [line]);
      }
      if EndOfBanner(st'.endLines, st'.endContains, line) {
        var text := Join("\n", st'.tempBanner);
        var it := Item(text, 0, true);
        LoadStep(ns0, nodes, items, it, 0);
        ghost var put := Put(nodes, 0, it);
        nodes := AppendChild(nodes, 0, text);
        recent := |nodes| - 1;
        nodes := nodes[recent := nodes[recent].(realIndent := 0)];
        assert nodes == put;
        section := 0;
        st' := st'.(inBanner := false, tempBanner := []);
        items' := items + [it];
      } else {
        assert items + BannerLine(st, line).1 == items;
      }
    }

    /** A `banner ` line outside a banner opens one and records the heuristics
        taken from its third word. */
    static method StartBanner(line: string, st: ScanState) returns (st': ScanState)
      ensures st' == BannerStart(st, line)
    {
      st' := st.(inBanner := true, tempBanner := st.tempBanner + [line]);
      var bannerWords := Words(line);
      if |bannerWords| > 2 {
        st' := st'.(endContains := st.endContains + [bannerWords[2]],
                    endLines := st.endLines + [Take(bannerWords[2], 1), Take(bannerWords[2], 2)]);
      }
    }

    /** Whitespace normalisation of a line outside a banner: the leading
        whitespace is kept as that many spaces, the words are joined by single
        spaces, then the per-line substitutions and `rstrip`. */
    static method NormalizeLine(re: Regex, subs: seq<Sub>, line: string) returns (l: string)
      ensures l == Normalize(re, subs, line)
    {
      var actualIndent := LeadCount(line);
      l := SubstituteAll(re, subs, Spaces(actualIndent) + Join(" ", Words(line)));
      l := RStrip(l);
    }

    /** Any other line, once normalised to `l`: an empty one is skipped, any
        other becomes a node and goes through the `indent_adjust` bookkeeping. */
    method ReadPlainLine(re: Regex, l: string, st: ScanState, ghost ns0: seq<Node>, ghost items: seq<Item>,
                         currentSection: nat, mostRecent: nat)
      returns (st': ScanState, ghost items': seq<Item>, section: nat, recent: nat)
      requires Inv(st) && Loaded(ns0, nodes, items) && RStripped(l)
      requires mostRecent == Prev(|ns0|, |items|)
      requires mostRecent == 0 ==> currentSection == 0
      requires mostRecent != 0 ==> currentSection == nodes[mostRecent].parent
      modifies this
      ensures (st', items') == (PlainLine(re, options, st, l).0, items + PlainLine(re, options, st, l).1)
      ensures Loaded(ns0, nodes, items')
      ensures recent == Prev(|ns0|, |items'|)
      ensures recent == 0 ==> section == 0
      ensures recent != 0 ==> section == nodes[recent].parent
    {
      st', items', section, recent := st, items, currentSection, mostRecent;
      if l != [] {
        var thisIndent := LeadCount(l) + st.indentAdjust;
        var lineText := LStrip(l);
        section, recent := PlaceLine(lineText, thisIndent, currentSection, mostRecent, ns0, items);
        items' := items + [Item(lineText, thisIndent, false)];
        var indentAdjust, endIndentAdjust := AdjustIndent(re, options.indentAdjust, lineText, st.indentAdjust, st.pending, st);
        st' := st.(indentAdjust := indentAdjust, pending := endIndentAdjust);
      } else {
        assert items + PlainLine(re, options, st, l).1 == items;
      }
    }

    /** One iteration of the loader's loop: the line is read in banner mode,
        opens a banner, or is read as a plain line. */
    method ReadLine(re: Regex, line: string, ghost ls: seq<Line>, ghost n: nat, st: ScanState,
                    ghost ns0: seq<Node>, ghost items: seq<Item>, currentSection: nat, mostRecent: nat)
      returns (st': ScanState, ghost items': seq<Item>, section: nat, recent: nat)
      requires n < |ls| && ls[n] == Line(line, Normalize(re, options.perLineSub, line)) && Stripped(ls)
      requires ScanFrom(re, options, Start, ls[..n]) == (st, items) && Inv(st)
      requires Loaded(ns0, nodes, items)
      requires mostRecent == Prev(|ns0|, |items|)
      requires mostRecent == 0 ==> currentSection == 0
      requires mostRecent != 0 ==> currentSection == nodes[mostRecent].parent
      modifies this
      ensures ScanFrom(re, options, Start, ls[..n + 1]) == (st', items') && Inv(st')
      ensures Loaded(ns0, nodes, items')
      ensures recent == Prev(|ns0|, |items'|)
      ensures recent == 0 ==> section == 0
      ensures recent != 0 ==> section == nodes[recent].parent
    {
      ScanNext(re, options, Start, ls, n);
      StepInv(re, options, st, ls[n]);
      if st.inBanner {
        st', items', section, recent := ReadBannerLine(line, st, ns0, items, currentSection, mostRecent);
      } else if StartsWith(line, "banner ") {
        st' := StartBanner(line, st);
        items', section, recent := items, currentSection, mostRecent;
        AppendEmpty(items);
      } else {
        var l := NormalizeLine(re, options.perLineSub, line);
        st', items', section, recent := ReadPlainLine(re, l, st, ns0, items, currentSection, mostRecent);
      }
    }

    /** `load_from_string`: parses `configText` into nodes below the root.
        `ok` is false where the source's final `assert not in_banner` fails;
        the nodes created before that stay in the tree. */
    method LoadFromString(configText: string, re: Regex) returns (ok: bool)
      requires Valid()
      modifies this
      ensures Valid()
      ensures var sc := ScanFrom(re, options, Start, Prepare(re, options.perLineSub, SplitLines(ApplySubs(re, options.fullTextSub, configText))));
        Loaded(old(nodes), nodes, sc.1) && ok == !sc.0.inBanner
    {
      var text := SubstituteAll(re, options.fullTextSub, configText);
      var lines := SplitLines(text);
      ghost var ns0 := nodes;
      nodes := nodes[0 := nodes[0].(realIndent := -1)];
      LoadStart(ns0);
      var st := ReadLines(re, lines, ns0);
      ok := !st.inBanner;
    }

    /** The loop of `load_from_string` over the lines of the substituted text,
        from `real_indent_level == -1` on the root. The loop's scalar locals
        (`in_banner`, `temp_banner`, `banner_end_lines`, `banner_end_contains`,
        `indent_adjust`, `end_indent_adjust`) are kept together in `st`. */
    method ReadLines(re: Regex, lines: seq<string>, ghost ns0: seq<Node>) returns (st: ScanState)
      requires Loaded(ns0, nodes, [])
      modifies this
      ensures var sc := ScanFrom(re, options, Start, Prepare(re, options.perLineSub, lines));
        Loaded(ns0, nodes, sc.1) && st == sc.0
    {
      var currentSection, mostRecent := 0, 0;
      st := Start;
      ghost var items: seq<Item> := [];
      ghost var ls := Prepare(re, options.perLineSub, lines);
      PrepareStripped(re, options.perLineSub, lines);

      var n := 0;
      while n < |lines|
        invariant 0 <= n <= |lines|
        invariant ScanFrom(re, options, Start, ls[..n]) == (st, items) && Inv(st)
        invariant Loaded(ns0, nodes, items)
        invariant mostRecent == Prev(|ns0|, |items|)
        invariant mostRecent == 0 ==> currentSection == 0
        invariant mostRecent != 0 ==> currentSection == nodes[mostRecent].parent
      {
        var line := lines[n];
        assert ls[n] == Line(line, Normalize(re, options.perLineSub, line));
        st, items, currentSection, mostRecent := ReadLine(re, line, ls, n, st, ns0, items, currentSection, mostRecent);
        n := n + 1;
      }
      assert ls[..n] == ls;
    }
    // -------------------------------------------------------------------
    // Rule passes

    /** `add_tags(tag_rules, strip_negation)`: for each rule in turn, every node
        of `all_children()` whose lineage passes the rule gains the rule's
        `add_tags` and then loses its `remove_tags`. */
    method AddTags(test: LineageTest, rules: seq<TagRule>, stripNegation: bool)
      requires Valid()
      modifies this
      ensures Valid() && nodes == Retagged(test, rules, stripNegation, old(nodes), AllChildren(old(nodes)))
    {
      RetaggedShape(test, rules, stripNegation, nodes);
      nodes := RetagAll(test, rules, stripNegation, nodes);
    }

    /** `set_order_weight()`: every node of `all_children()` is tried against the
        ordering rules in list order, and each rule its lineage passes sets its
        `order_weight`. */
    method SetOrderWeight(test: LineageTest)
      requires Valid()
      modifies this
      ensures Valid() && nodes == Reweighted(test, options.ordering, old(nodes), AllChildren(old(nodes)))
    {
      ReweightedSpec(test, options.ordering, nodes, 0);
      WalksDistinct(nodes);
      nodes := WeighWalk(test, options.ordering, AllChildren(nodes), nodes);
    }

    /** `add_sectional_exiting()`: below every node of `all_children()`
        whose lineage passes a `sectional_exiting` rule, the old exit lines
        are replaced by one new exit line with order weight 999. */
    method AddSectionalExiting(test: LineageTest)
      requires Valid()
      modifies this
      ensures Valid() && nodes == Sectioned(test, options.sectionalExiting, old(nodes))
    {
      nodes := ExitAll(test, options.sectionalExiting, nodes);
    }

    /** The `tags` getter: the union of the tags of the children of the root. */
    method Tags() returns (t: set<string>)
      requires Valid()
      ensures t == RootTags(nodes)
    {
      t := GetRootTags(nodes);
    }

    /** The `tags` setter: every child of the root takes the tags `v`. */
    method SetTags(v: set<string>)
      requires Valid()
      modifies this
      ensures Valid() && nodes == WithRootTags(old(nodes), v)
    {
      SetThenGetTags(nodes, v);
      nodes := SetRootTags(nodes, v);
    }

    // -------------------------------------------------------------------
    // Access lists

    /** `_add_acl_sequence_numbers()`: in every child of the root whose text
        starts with `ip access-list`, the entries starting with `permit` or
        `deny` (and `remark` unless the host's OS is `ios`) are prefixed with
        10, 20, 30, ... in order. */
    method AddAclSequenceNumbers()
      requires Valid()
      modifies this
      ensures Valid() && nodes == Renumbered(hostOs, old(nodes))
    {
      RenumberedShape(hostOs, nodes);
      nodes := NumberAcls(hostOs, nodes);
    }

    /** `_rm_ipv6_acl_sequence_numbers()`: in every child of the root whose
        text starts with `ipv6 access-list `, an entry starting with
        `sequence` is replaced by its words after the first two, joined by
        single spaces. */
    method RmIpv6AclSequenceNumbers()
      requires Valid()
      modifies this
      ensures Valid() && nodes == Unsequence(old(nodes))
    {
      UnsequenceShape(nodes);
      nodes := UnsequenceAcls(nodes);
    }

    /** `_remove_acl_remarks()`: the children of the root whose text starts
        with `ip access-list ` have their `remark` entries removed by the
        iteration as written, which passes over the entry after each removed
        remark (see `Acl.StripRemarks`). */
    method RemoveAclRemarks()
      requires Valid()
      modifies this
      ensures Valid() && nodes == UnremarkedAsWritten(old(nodes))
    {
      UnremarkedAsWrittenSpec(nodes);
      nodes := UnremarkAcls(nodes);
    }

    // -------------------------------------------------------------------
    // Dumps

    /** `load_from_dump(dump)`: each record is added, below the node its
        depth and the previous record's node select, as a new child carrying
        the record's text, tags, comments and `new_in_config`. A record whose
        depth selects no parent stops the load with `ok` false (the source
        fails there), the records before it staying loaded. */
    method LoadFromDump(dump: seq<Record>) returns (ok: bool)
      requires Valid()
      modifies this
      ensures Valid()
      ensures var r := Restore(old(nodes), 0, dump); nodes == r.nodes && ok == r.ok
    {
      ok := true;
      var last: nat := 0;
      var j := 0;
      while j < |dump|
        invariant j <= |dump| && Valid() && last < |nodes|
        invariant Restore(old(nodes), 0, dump) == Restore(nodes, last, dump[j..])
      {
        assert dump[j..][0] == dump[j] && dump[j..][1..] == dump[j + 1..];
        match DumpParent(nodes, last, dump[j].depth)
        case None =>
          ok := false;
          return;
        case Some(p) =>
          nodes := Place(nodes, p, dump[j]);
          last := |nodes| - 1;
        j := j + 1;
      }
      assert dump[j..] == [];
    }

    /** `dump(lineage_rules)`: one record per node of
        `all_children_sorted_with_lineage_rules(lineage_rules)` when rules
        are given, of `all_children_sorted()` otherwise. */
    method Dump(test: LineageTest, lineageRules: seq<LineageRule>) returns (out: seq<Record>)
      requires Valid()
      ensures out == Records(nodes, if |lineageRules| > 0 then Filtered(test, lineageRules, nodes) else AllChildrenSorted(nodes))
    {
      var children;
      if |lineageRules| > 0 {
        children := AllChildrenSortedWithLineageRules(test, lineageRules);
      } else {
        children := AllChildrenSorted(nodes);
      }
      out := DumpRecords(nodes, children);
    }

    /** `all_children_sorted_with_lineage_rules(rules)`, as the sequence of
        nodes it yields. */
    method AllChildrenSortedWithLineageRules(test: LineageTest, rules: seq<LineageRule>) returns (out: seq<nat>)
      requires Valid()
      ensures out == Filtered(test, rules, nodes)
    {
      out := FilterAll(test, rules, nodes);
    }
  }
}
