/** The access-list passes of `HConfig`: sequence numbers for IPv4 ACL
    entries, the removal of IPv6 sequence numbers and the removal of remarks.
    An ACL is a child of the root whose text starts with the ACL prefix; its
    entries are its children. */
module Acl {
  import opened Text
  import opened Arena
  import opened Walk

  /** The prefix `_add_acl_sequence_numbers` looks for. */
  const Ipv4Numbered: string := "ip access-list"
  /** The prefix `_remove_acl_remarks` looks for. */
  const Ipv4Acl: string := "ip access-list "
  /** The prefix `_rm_ipv6_acl_sequence_numbers` looks for. */
  const Ipv6Acl: string := "ipv6 access-list "

  /** Node `c` is an ACL: a child of the root whose text starts with `head`. */
  predicate IsAcl(ns: seq<Node>, head: string, c: nat)
    requires c < |ns|
  {
    c in ns[0].children && StartsWith(ns[c].text, head)
  }

  /** Node `i` is an entry of an ACL introduced by `head`. */
  predicate IsEntry(ns: seq<Node>, head: string, i: nat)
    requires ParentsOk(ns) && i < |ns|
  {
    0 < i && 0 < ns[i].parent && IsAcl(ns, head, Parent(ns, i)) && i in ns[Parent(ns, i)].children
  }

  /** The texts of the children of `c`, in order. */
  function ChildTexts(ns: seq<Node>, c: nat): (t: seq<string>)
    requires c < |ns| && InRange(ns, ns[c].children)
    ensures |t| == |ns[c].children| && forall k :: 0 <= k < |t| ==> t[k] == ns[ns[c].children[k]].text
  {
    var cs := ns[c].children;
    seq(|cs|, k requires 0 <= k < |cs| => ns[cs[k]].text)
  }

  /** The position of `x` in `s`. */
  function IndexOf(s: seq<nat>, x: nat): (k: nat)
    requires x in s
    ensures k < |s| && s[k] == x
    ensures forall m :: 0 <= m < k ==> s[m] != x
  {
    if s[0] == x then 0 else 1 + IndexOf(s[1..], x)
  }

  lemma IndexOfDistinct(s: seq<nat>, k: nat)
    requires Distinct(s) && k < |s|
    ensures IndexOf(s, s[k]) == k
  {
  }

  // ---------------------------------------------------------------------
  // Visiting the ACLs one by one

  /** The arena once the entries of those of the first `m` children of the
      root that are ACLs introduced by `head` have taken their values in
      `target`. */
  function Staged(ns0: seq<Node>, head: string, target: seq<Node>, m: nat): (r: seq<Node>)
    requires Valid(ns0) && |target| == |ns0| && m <= |ns0[0].children|
    ensures |r| == |ns0|
  {
    seq(|ns0|, i requires 0 <= i < |ns0| =>
      if IsEntry(ns0, head, i) && Parent(ns0, i) in ns0[0].children[..m] then target[i] else ns0[i])
  }

  /** Nothing has changed before the first child of the root is visited. */
  lemma StagedStart(ns0: seq<Node>, head: string, target: seq<Node>)
    requires Valid(ns0) && |target| == |ns0|
    ensures Staged(ns0, head, target, 0) == ns0
  {
  }

  /** Before child `m` of the root is visited, it and its children are as
      they were. */
  lemma StagedPre(ns0: seq<Node>, head: string, target: seq<Node>, m: nat)
    requires Valid(ns0) && |target| == |ns0| && m < |ns0[0].children|
    ensures var c := ns0[0].children[m];
      var cur := Staged(ns0, head, target, m);
      c < |ns0| && Distinct(ns0[c].children) && InRange(ns0, ns0[c].children) && cur[c] == ns0[c] &&
      (forall k :: 0 <= k < |ns0[c].children| ==> cur[ns0[c].children[k]] == ns0[ns0[c].children[k]]) &&
      ChildTexts(cur, c) == ChildTexts(ns0, c)
  {
    var rc := ns0[0].children;
    assert KidsOk(ns0, 0);
    var c := rc[m];
    assert KidsOk(ns0, c);
    assert c !in rc[..m];
  }

  /** Visiting child `m` of the root gives its children their values in
      `target` if it is an ACL introduced by `head`, and touches nothing
      else. */
  lemma StagedStep(ns0: seq<Node>, head: string, target: seq<Node>, m: nat)
    requires Valid(ns0) && |target| == |ns0| && m < |ns0[0].children|
    ensures var c := ns0[0].children[m];
      var cur := Staged(ns0, head, target, m);
      var next := Staged(ns0, head, target, m + 1);
      c < |ns0| && InRange(ns0, ns0[c].children) &&
      if StartsWith(ns0[c].text, head) then
        var cs := ns0[c].children;
        (forall k :: 0 <= k < |cs| ==> next[cs[k]] == target[cs[k]]) &&
        (forall i :: 0 <= i < |ns0| && i !in cs ==> next[i] == cur[i])
      else next == cur
  {
    var rc := ns0[0].children;
    assert KidsOk(ns0, 0);
    var c := rc[m];
    assert KidsOk(ns0, c);
    assert rc[..m + 1] == rc[..m] + [c];
    var cs := ns0[c].children;
    if StartsWith(ns0[c].text, head) {
      forall k | 0 <= k < |cs| ensures IsEntry(ns0, head, cs[k]) && Parent(ns0, cs[k]) == c {
      }
    }
  }

  /** Once every child of the root is visited, every entry has its value in
      `target`; a `target` that changes entries only is then reached. */
  lemma StagedDone(ns0: seq<Node>, head: string, target: seq<Node>)
    requires Valid(ns0) && |target| == |ns0|
    requires forall i :: 0 <= i < |ns0| && !IsEntry(ns0, head, i) ==> target[i] == ns0[i]
    ensures Staged(ns0, head, target, |ns0[0].children|) == target
  {
    assert ns0[0].children[..|ns0[0].children|] == ns0[0].children;
  }

  // ---------------------------------------------------------------------
  // _add_acl_sequence_numbers

  /** The entries that receive a number: those starting with `permit` or
      `deny`, and on a host whose OS is not `ios` also `remark`. */
  predicate Numbered(os: string, text: string) {
    StartsWith(text, "permit") || StartsWith(text, "deny") || (os != "ios" && StartsWith(text, "remark"))
  }

  /** How many of `texts` receive a number. */
  function CountNumbered(os: string, texts: seq<string>): (n: nat)
    ensures n <= |texts|
    decreases |texts|
  {
    if texts == [] then 0
    else CountNumbered(os, texts[..|texts| - 1]) + (if Numbered(os, texts[|texts| - 1]) then 1 else 0)
  }

  /** The text of entry `k` after numbering: the `n`-th numbered entry is
      prefixed with `10 * n` and a space; the others keep their text. */
  function NumberedText(os: string, texts: seq<string>, k: nat): string
    requires k < |texts|
  {
    if Numbered(os, texts[k]) then NatToString(10 * (CountNumbered(os, texts[..k]) + 1)) + " " + texts[k]
    else texts[k]
  }

  /** One more entry: the count grows by one exactly when it is numbered. */
  lemma CountNext(os: string, texts: seq<string>, j: nat)
    requires j < |texts|
    ensures CountNumbered(os, texts[..j + 1]) == CountNumbered(os, texts[..j]) + (if Numbered(os, texts[j]) then 1 else 0)
  {
    assert texts[..j + 1][..j] == texts[..j];
  }

  /** Entry `j` given the running sequence number `sn`. */
  lemma NumberNext(os: string, texts: seq<string>, j: nat, sn: int)
    requires j < |texts| && sn == 10 * (CountNumbered(os, texts[..j]) + 1)
    ensures NumberedText(os, texts, j) == if Numbered(os, texts[j]) then NatToString(sn) + " " + texts[j] else texts[j]
    ensures CountNumbered(os, texts[..j + 1]) == CountNumbered(os, texts[..j]) + (if Numbered(os, texts[j]) then 1 else 0)
  {
    CountNext(os, texts, j);
  }

  lemma {:induction false} CountMono(os: string, texts: seq<string>, a: nat, b: nat)
    requires a <= b <= |texts|
    ensures CountNumbered(os, texts[..a]) <= CountNumbered(os, texts[..b])
    decreases b - a
  {
    if a < b {
      CountNext(os, texts, b - 1);
      CountMono(os, texts, a, b - 1);
    }
  }

  /** Numbered entries are numbered in order: a later one has a larger rank,
      so no two entries share a sequence number. */
  lemma NumbersIncrease(os: string, texts: seq<string>, k: nat, l: nat)
    requires k < l < |texts| && Numbered(os, texts[k])
    ensures CountNumbered(os, texts[..k]) < CountNumbered(os, texts[..l])
  {
    assert texts[..k + 1][..k] == texts[..k];
    CountMono(os, texts, k + 1, l);
  }

  /** The ranks of the numbered entries run from 1 to the number of them, so
      the sequence numbers are 10, 20, ... up to ten times that number. */
  lemma NumbersBounded(os: string, texts: seq<string>, k: nat)
    requires k < |texts| && Numbered(os, texts[k])
    ensures CountNumbered(os, texts[..k]) + 1 <= CountNumbered(os, texts)
  {
    assert texts[..k + 1][..k] == texts[..k];
    CountMono(os, texts, k + 1, |texts|);
    assert texts[..|texts|] == texts;
  }

  /** The arena after `_add_acl_sequence_numbers()`. */
  function Renumbered(os: string, ns: seq<Node>): (r: seq<Node>)
    requires Valid(ns)
    ensures |r| == |ns|
  {
    seq(|ns|, i requires 0 <= i < |ns| =>
      if IsEntry(ns, Ipv4Numbered, i) then
        var p := Parent(ns, i);
        assert KidsOk(ns, p);
        ns[i].(text := NumberedText(os, ChildTexts(ns, p), IndexOf(ns[p].children, i)))
      else ns[i])
  }

  /** The entries of an IPv4 ACL take their numbered texts. */
  lemma RenumberedSpec(os: string, ns: seq<Node>, c: nat)
    requires Valid(ns) && c < |ns| && IsAcl(ns, Ipv4Numbered, c)
    ensures var cs := ns[c].children;
      InRange(ns, cs) &&
      forall k :: 0 <= k < |cs| ==> Renumbered(os, ns)[cs[k]] == ns[cs[k]].(text := NumberedText(os, ChildTexts(ns, c), k))
  {
    assert KidsOk(ns, c) && KidsOk(ns, 0);
    var cs := ns[c].children;
    forall k | 0 <= k < |cs|
      ensures Renumbered(os, ns)[cs[k]] == ns[cs[k]].(text := NumberedText(os, ChildTexts(ns, c), k))
    {
      assert Parent(ns, cs[k]) == c && 0 < c;
      IndexOfDistinct(cs, k);
    }
  }

  /** Numbering changes texts only. */
  lemma RenumberedShape(os: string, ns: seq<Node>)
    requires Valid(ns)
    ensures var r := Renumbered(os, ns);
      SameShape(ns, r) && Valid(r) &&
      forall i :: 0 <= i < |ns| ==> r[i] == ns[i].(text := r[i].text) && (!IsEntry(ns, Ipv4Numbered, i) ==> r[i] == ns[i])
  {
    var r := Renumbered(os, ns);
    forall i | 0 <= i < |r| ensures KidsOk(r, i) { assert KidsOk(ns, i); }
  }

  /** One entry of the numbering loop: entry `j` takes its numbered text, and
      the running sequence number moves past it. */
  method NumberEntry(os: string, texts: seq<string>, j: nat, sn: int) returns (text: string, sn': int)
    requires j < |texts| && sn == 10 * (CountNumbered(os, texts[..j]) + 1)
    ensures text == NumberedText(os, texts, j)
    ensures sn' == 10 * (CountNumbered(os, texts[..j + 1]) + 1)
  {
    NumberNext(os, texts, j, sn);
    text := texts[j];
    sn' := sn;
    if Numbered(os, text) {
      text := NatToString(sn) + " " + text;
      sn' := sn + 10;
    }
  }

  /** The texts of one ACL's entries with the numbered ones prefixed by a
      running sequence number that starts at 10 and grows by 10. */
  method NumberTexts(os: string, texts: seq<string>) returns (out: seq<string>)
    ensures |out| == |texts| && forall k :: 0 <= k < |texts| ==> out[k] == NumberedText(os, texts, k)
  {
    out := [];
    var sn := 10;
    var j := 0;
    while j < |texts|
      invariant j <= |texts| && |out| == j
      invariant forall k :: 0 <= k < j ==> out[k] == NumberedText(os, texts, k)
      invariant sn == 10 * (CountNumbered(os, texts[..j]) + 1)
    {
      var text;
      text, sn := NumberEntry(os, texts, j, sn);
      out := out + [text];
      j := j + 1;
    }
  }

  /** What writing `out` into the entries of `c` needs: `after` is `ns` with
      entry `k` of `c` holding `out[k]`. */
  predicate TextsReady(ns: seq<Node>, c: nat, out: seq<string>, after: seq<Node>) {
    c < |ns| && |after| == |ns| && Distinct(ns[c].children) && InRange(ns, ns[c].children) &&
    |out| == |ns[c].children| &&
    (forall k :: 0 <= k < |out| ==> after[ns[c].children[k]] == ns[ns[c].children[k]].(text := out[k])) &&
    (forall i :: 0 <= i < |ns| && i !in ns[c].children ==> after[i] == ns[i])
  }

  /** The numbered texts of an IPv4 ACL are ready to be written at the step
      that visits it. */
  lemma NumberReady(os: string, ns0: seq<Node>, m: nat, out: seq<string>)
    requires Valid(ns0) && m < |ns0[0].children|
    requires var c := ns0[0].children[m];
      c < |ns0| && IsAcl(ns0, Ipv4Numbered, c) && InRange(ns0, ns0[c].children) &&
      |out| == |ns0[c].children| && forall k :: 0 <= k < |out| ==> out[k] == NumberedText(os, ChildTexts(ns0, c), k)
    ensures var target := Renumbered(os, ns0);
      TextsReady(Staged(ns0, Ipv4Numbered, target, m), ns0[0].children[m], out, Staged(ns0, Ipv4Numbered, target, m + 1))
  {
    var target := Renumbered(os, ns0);
    StagedPre(ns0, Ipv4Numbered, target, m);
    StagedStep(ns0, Ipv4Numbered, target, m);
    RenumberedSpec(os, ns0, ns0[0].children[m]);
  }

  /** The entries of one ACL take the given texts, in order. */
  method SetEntryTexts(ns: seq<Node>, c: nat, out: seq<string>, ghost after: seq<Node>) returns (ns': seq<Node>)
    requires TextsReady(ns, c, out, after)
    ensures ns' == after
  {
    var cs := ns[c].children;
    ns' := ns;
    var j := 0;
    while j < |cs|
      invariant j <= |cs| && |ns'| == |ns|
      invariant forall i :: 0 <= i < |ns| ==> ns'[i] == if i in cs[..j] then after[i] else ns[i]
    {
      var x := cs[j];
      assert x !in cs[..j] && cs[..j + 1] == cs[..j] + [x];
      ns' := ns'[x := ns'[x].(text := out[j])];
      j := j + 1;
    }
    assert cs[..j] == cs;
  }

  /** The loop of `_add_acl_sequence_numbers` over the children of the root. */
  method NumberAcls(os: string, ns0: seq<Node>) returns (ns: seq<Node>)
    requires Valid(ns0)
    ensures ns == Renumbered(os, ns0)
  {
    var rc := ns0[0].children;
    ghost var target := Renumbered(os, ns0);
    RenumberedShape(os, ns0);
    ns := ns0;
    StagedStart(ns0, Ipv4Numbered, target);
    var m := 0;
    while m < |rc|
      invariant m <= |rc| && ns == Staged(ns0, Ipv4Numbered, target, m)
    {
      var c := rc[m];
      StagedPre(ns0, Ipv4Numbered, target, m);
      StagedStep(ns0, Ipv4Numbered, target, m);
      if StartsWith(ns[c].text, Ipv4Numbered) {
        var out := NumberTexts(os, ChildTexts(ns, c));
        NumberReady(os, ns0, m, out);
        ns := SetEntryTexts(ns, c, out, Staged(ns0, Ipv4Numbered, target, m + 1));
      }
      m := m + 1;
    }
    StagedDone(ns0, Ipv4Numbered, target);
  }

  // ---------------------------------------------------------------------
  // _rm_ipv6_acl_sequence_numbers

  /** An IPv6 entry starting with `sequence` loses its first two words and
      has its whitespace collapsed; any other entry is kept. */
  function Unsequenced(text: string): string {
    if StartsWith(text, "sequence") then Join(" ", Drop(Words(text), 2)) else text
  }

  /** The words of an unsequenced entry are its words after the first two. */
  lemma UnsequencedWords(text: string)
    requires StartsWith(text, "sequence")
    ensures Words(Unsequenced(text)) == Drop(Words(text), 2)
  {
    WordsOfJoin(Drop(Words(text), 2));
  }

  /** The arena after `_rm_ipv6_acl_sequence_numbers()`. */
  function Unsequence(ns: seq<Node>): (r: seq<Node>)
    requires ParentsOk(ns)
    ensures |r| == |ns|
  {
    seq(|ns|, i requires 0 <= i < |ns| =>
      if IsEntry(ns, Ipv6Acl, i) then ns[i].(text := Unsequenced(ns[i].text)) else ns[i])
  }

  /** The entries of an IPv6 ACL take their unsequenced texts. */
  lemma UnsequencedEntries(ns: seq<Node>, c: nat)
    requires Valid(ns) && c < |ns| && IsAcl(ns, Ipv6Acl, c)
    ensures var cs := ns[c].children;
      InRange(ns, cs) &&
      forall k :: 0 <= k < |cs| ==> Unsequence(ns)[cs[k]] == ns[cs[k]].(text := Unsequenced(ns[cs[k]].text))
  {
    assert KidsOk(ns, c) && KidsOk(ns, 0);
    var cs := ns[c].children;
    forall k | 0 <= k < |cs| ensures IsEntry(ns, Ipv6Acl, cs[k]) {
      assert Parent(ns, cs[k]) == c && 0 < c;
    }
  }

  /** Removing sequence numbers changes the texts of IPv6 entries only. */
  lemma UnsequenceShape(ns: seq<Node>)
    requires Valid(ns)
    ensures var r := Unsequence(ns);
      SameShape(ns, r) && Valid(r) &&
      forall i :: 0 <= i < |ns| ==> r[i] == ns[i].(text := r[i].text) && (!IsEntry(ns, Ipv6Acl, i) ==> r[i] == ns[i])
  {
    var r := Unsequence(ns);
    forall i | 0 <= i < |r| ensures KidsOk(r, i) { assert KidsOk(ns, i); }
  }

  /** The entries of one IPv6 ACL lose their sequence numbers. */
  method UnsequenceEntries(ns: seq<Node>, c: nat, ghost after: seq<Node>) returns (ns': seq<Node>)
    requires c < |ns| && |after| == |ns| && Distinct(ns[c].children) && InRange(ns, ns[c].children)
    requires forall k :: 0 <= k < |ns[c].children| ==>
      after[ns[c].children[k]] == ns[ns[c].children[k]].(text := Unsequenced(ns[ns[c].children[k]].text))
    requires forall i :: 0 <= i < |ns| && i !in ns[c].children ==> after[i] == ns[i]
    ensures ns' == after
  {
    var cs := ns[c].children;
    ns' := ns;
    var j := 0;
    while j < |cs|
      invariant 0 <= j <= |cs| && |ns'| == |ns|
      invariant forall k :: 0 <= k < |cs| ==> ns'[cs[k]] == if k < j then after[cs[k]] else ns[cs[k]]
      invariant forall i :: 0 <= i < |ns| && i !in cs ==> ns'[i] == ns[i]
    {
      var x := cs[j];
      ghost var prev := ns';
      if StartsWith(ns'[x].text, "sequence") {
        ns' := ns'[x := ns'[x].(text := Join(" ", Drop(Words(ns'[x].text), 2)))];
      }
      forall k | 0 <= k < |cs| && k != j ensures ns'[cs[k]] == prev[cs[k]] {
        assert cs[k] != x;
      }
      j := j + 1;
    }
    WalkDone(ns, cs, ns', after);
  }

  /** The loop of `_rm_ipv6_acl_sequence_numbers` over the IPv6 ACLs. */
  method UnsequenceAcls(ns0: seq<Node>) returns (ns: seq<Node>)
    requires Valid(ns0)
    ensures ns == Unsequence(ns0)
  {
    var rc := ns0[0].children;
    ghost var target := Unsequence(ns0);
    ns := ns0;
    StagedStart(ns0, Ipv6Acl, target);
    var m := 0;
    while m < |rc|
      invariant m <= |rc| && ns == Staged(ns0, Ipv6Acl, target, m)
    {
      var c := rc[m];
      StagedPre(ns0, Ipv6Acl, target, m);
      StagedStep(ns0, Ipv6Acl, target, m);
      if StartsWith(ns[c].text, Ipv6Acl) {
        UnsequencedEntries(ns0, c);
        ns := UnsequenceEntries(ns, c, Staged(ns0, Ipv6Acl, target, m + 1));
      }
      m := m + 1;
    }
    StagedDone(ns0, Ipv6Acl, target);
  }

  // ---------------------------------------------------------------------
  // _remove_acl_remarks

  predicate IsRemark(ns: seq<Node>, x: nat) {
    x < |ns| && StartsWith(ns[x].text, "remark")
  }

  /** The children an ACL keeps when each remark is removed from its list of
      children while that same list is being iterated: the removal moves the
      next entry into the current slot, so the iteration skips the entry that
      follows each removed remark. */
  function RemarksAsWritten(ns: seq<Node>, cs: seq<nat>): (r: seq<nat>)
    decreases |cs|
  {
    if cs == [] then []
    else if IsRemark(ns, cs[0]) then (if |cs| == 1 then [] else [cs[1]] + RemarksAsWritten(ns, cs[2..]))
    else [cs[0]] + RemarksAsWritten(ns, cs[1..])
  }

  /** What the pass evidently means to leave: every entry but the remarks. */
  function DropRemarks(ns: seq<Node>, cs: seq<nat>): (r: seq<nat>)
    decreases |cs|
  {
    if cs == [] then []
    else if IsRemark(ns, cs[0]) then DropRemarks(ns, cs[1..])
    else [cs[0]] + DropRemarks(ns, cs[1..])
  }

  /** The pass as written keeps every entry that is not a remark and never
      adds an entry. */
  lemma {:induction false} AsWrittenKeeps(ns: seq<Node>, cs: seq<nat>)
    ensures forall x :: x in RemarksAsWritten(ns, cs) ==> x in cs
    ensures forall x :: x in cs && !IsRemark(ns, x) ==> x in RemarksAsWritten(ns, cs)
    decreases |cs|
  {
    if cs != [] {
      if IsRemark(ns, cs[0]) && |cs| > 1 {
        AsWrittenKeeps(ns, cs[2..]);
        assert forall x :: x in cs[2..] ==> x in cs;
        assert forall x :: x in cs ==> x == cs[0] || x == cs[1] || x in cs[2..];
      } else if !IsRemark(ns, cs[0]) {
        AsWrittenKeeps(ns, cs[1..]);
        assert forall x :: x in cs ==> x == cs[0] || x in cs[1..];
      }
    }
  }

  /** The pass as written keeps the order of the entries it leaves. */
  lemma {:induction false} AsWrittenOrdered(ns: seq<Node>, cs: seq<nat>)
    requires Increasing(cs)
    ensures Increasing(RemarksAsWritten(ns, cs))
    decreases |cs|
  {
    if cs != [] {
      if IsRemark(ns, cs[0]) && |cs| > 1 {
        assert Increasing(cs[2..]);
        AsWrittenOrdered(ns, cs[2..]);
        AsWrittenKeeps(ns, cs[2..]);
        forall y | y in RemarksAsWritten(ns, cs[2..]) ensures cs[1] < y {
          var m :| 2 <= m < |cs| && cs[m] == y;
        }
        IncreasingCons(cs[1], RemarksAsWritten(ns, cs[2..]));
      } else if !IsRemark(ns, cs[0]) {
        assert Increasing(cs[1..]);
        AsWrittenOrdered(ns, cs[1..]);
        AsWrittenKeeps(ns, cs[1..]);
        forall y | y in RemarksAsWritten(ns, cs[1..]) ensures cs[0] < y {
          var m :| 1 <= m < |cs| && cs[m] == y;
        }
        IncreasingCons(cs[0], RemarksAsWritten(ns, cs[1..]));
      }
    }
  }

  /** Where no remark follows a remark, the pass as written removes exactly
      the remarks. */
  lemma {:induction false} AsWrittenAgrees(ns: seq<Node>, cs: seq<nat>)
    requires forall k :: 0 <= k < |cs| - 1 && IsRemark(ns, cs[k]) ==> !IsRemark(ns, cs[k + 1])
    ensures RemarksAsWritten(ns, cs) == DropRemarks(ns, cs)
    decreases |cs|
  {
    if cs != [] {
      if IsRemark(ns, cs[0]) && |cs| > 1 {
        assert !IsRemark(ns, cs[1]);
        AsWrittenAgrees(ns, cs[2..]);
        assert DropRemarks(ns, cs[1..]) == [cs[1]] + DropRemarks(ns, cs[2..]);
      } else if !IsRemark(ns, cs[0]) {
        AsWrittenAgrees(ns, cs[1..]);
      }
    }
  }

  /** Two remarks in a row: the second one survives the pass as written. */
  lemma SecondRemarkSurvives()
    ensures var ns := [RootNode.(children := [1]), Node(0, [2, 3], "ip access-list extended X", {}, {}, false, DefaultWeight, 0),
                       NewNode(1, "remark one"), NewNode(1, "remark two")];
      RemarksAsWritten(ns, [2, 3]) == [3] && IsRemark(ns, 3)
  {
    var ns := [RootNode.(children := [1]), Node(0, [2, 3], "ip access-list extended X", {}, {}, false, DefaultWeight, 0),
               NewNode(1, "remark one"), NewNode(1, "remark two")];
    assert IsRemark(ns, 2) && IsRemark(ns, 3);
    assert [2, 3][2..] == [];
  }

  /** Dropping remarks leaves exactly the entries that are not remarks, in
      their order. */
  lemma {:induction false} DropRemarksSpec(ns: seq<Node>, cs: seq<nat>)
    ensures forall x :: x in DropRemarks(ns, cs) <==> x in cs && !IsRemark(ns, x)
    ensures Increasing(cs) ==> Increasing(DropRemarks(ns, cs))
    decreases |cs|
  {
    if cs != [] {
      DropRemarksSpec(ns, cs[1..]);
      assert forall x :: x in cs <==> x == cs[0] || x in cs[1..];
      if Increasing(cs) && !IsRemark(ns, cs[0]) {
        assert Increasing(cs[1..]);
        forall y | y in DropRemarks(ns, cs[1..]) ensures cs[0] < y {
          var m :| 1 <= m < |cs| && cs[m] == y;
        }
        IncreasingCons(cs[0], DropRemarks(ns, cs[1..]));
      }
    }
  }

  /** The arena `_remove_acl_remarks()` is evidently meant to leave: each
      IPv4 ACL keeps every child that is not a remark, in order. Removed
      remarks stay in the arena, detached. */
  function Unremarked(ns: seq<Node>): (r: seq<Node>)
    requires |ns| > 0
    ensures |r| == |ns|
  {
    seq(|ns|, i requires 0 <= i < |ns| =>
      if IsAcl(ns, Ipv4Acl, i) then ns[i].(children := DropRemarks(ns, ns[i].children)) else ns[i])
  }

  /** The corrected removal keeps the arena well formed and changes nothing
      but the children lists of the IPv4 ACLs, which lose their remarks and
      nothing else. */
  lemma UnremarkedSpec(ns: seq<Node>)
    requires Valid(ns)
    ensures var r := Unremarked(ns);
      Valid(r) && SameParents(ns, r) &&
      (forall i :: 0 <= i < |ns| ==> r[i] == ns[i].(children := r[i].children)) &&
      (forall i :: 0 <= i < |ns| && !IsAcl(ns, Ipv4Acl, i) ==> r[i] == ns[i]) &&
      (forall i, x :: 0 <= i < |ns| && IsAcl(ns, Ipv4Acl, i) ==>
        (x in r[i].children <==> x in ns[i].children && !IsRemark(ns, x)))
  {
    var r := Unremarked(ns);
    forall i | 0 <= i < |ns|
      ensures IsAcl(ns, Ipv4Acl, i) ==> forall x :: x in r[i].children <==> x in ns[i].children && !IsRemark(ns, x)
      ensures KidsOk(r, i)
    {
      assert KidsOk(ns, i);
      var cs := ns[i].children;
      DropRemarksSpec(ns, cs);
      assert Increasing(cs);
      forall k | 0 <= k < |r[i].children| ensures i < r[i].children[k] < |r| && r[r[i].children[k]].parent == i {
        var x := r[i].children[k];
        if IsAcl(ns, Ipv4Acl, i) {
          assert x in DropRemarks(ns, cs);
        }
        assert x in cs;
        var m :| 0 <= m < |cs| && cs[m] == x;
      }
    }
  }

  /** The arena after `_remove_acl_remarks()` as written: each IPv4 ACL keeps
      the children its remove-while-iterating loop leaves. Removed remarks
      stay in the arena, detached. */
  function UnremarkedAsWritten(ns: seq<Node>): (r: seq<Node>)
    requires |ns| > 0
    ensures |r| == |ns|
  {
    seq(|ns|, i requires 0 <= i < |ns| =>
      if IsAcl(ns, Ipv4Acl, i) then ns[i].(children := RemarksAsWritten(ns, ns[i].children)) else ns[i])
  }

  /** The pass as written keeps the arena well formed and changes nothing but
      the children lists of the IPv4 ACLs. An ACL keeps every child that is
      not a remark, in its order, and gains none; the remarks it keeps are
      those the loop passes over. */
  lemma UnremarkedAsWrittenSpec(ns: seq<Node>)
    requires Valid(ns)
    ensures var r := UnremarkedAsWritten(ns);
      Valid(r) && SameParents(ns, r) &&
      (forall i :: 0 <= i < |ns| ==> r[i] == ns[i].(children := r[i].children)) &&
      (forall i :: 0 <= i < |ns| && !IsAcl(ns, Ipv4Acl, i) ==> r[i] == ns[i]) &&
      (forall i, x :: 0 <= i < |ns| && x in ns[i].children && !IsRemark(ns, x) ==> x in r[i].children) &&
      (forall i, x :: 0 <= i < |ns| && x in r[i].children ==> x in ns[i].children)
  {
    var r := UnremarkedAsWritten(ns);
    forall i | 0 <= i < |ns|
      ensures forall x :: x in r[i].children ==> x in ns[i].children
      ensures forall x :: x in ns[i].children && !IsRemark(ns, x) ==> x in r[i].children
      ensures KidsOk(r, i)
    {
      assert KidsOk(ns, i);
      var cs := ns[i].children;
      AsWrittenKeeps(ns, cs);
      assert Increasing(cs);
      AsWrittenOrdered(ns, cs);
      forall k | 0 <= k < |r[i].children| ensures i < r[i].children[k] < |r| && r[r[i].children[k]].parent == i {
        var x := r[i].children[k];
        if IsAcl(ns, Ipv4Acl, i) {
          assert x in RemarksAsWritten(ns, cs);
        }
        assert x in cs;
        var m :| 0 <= m < |cs| && cs[m] == x;
      }
    }
  }

  /** Where no remark of an ACL directly follows another, the pass as written
      and the corrected one leave that ACL the same children: no remark. */
  lemma UnremarkedAgreeAt(ns: seq<Node>, i: nat)
    requires |ns| > 0 && i < |ns|
    requires var cs := ns[i].children;
      forall k :: 0 <= k < |cs| - 1 && IsRemark(ns, cs[k]) ==> !IsRemark(ns, cs[k + 1])
    ensures UnremarkedAsWritten(ns)[i] == Unremarked(ns)[i]
    ensures forall x :: IsAcl(ns, Ipv4Acl, i) && x in UnremarkedAsWritten(ns)[i].children ==> !IsRemark(ns, x)
  {
    AsWrittenAgrees(ns, ns[i].children);
    DropRemarksSpec(ns, ns[i].children);
  }

  /** The pass as written depends on the texts of the entries only. */
  lemma {:induction false} RemarksSameTexts(ns: seq<Node>, ns': seq<Node>, cs: seq<nat>)
    requires |ns| == |ns'| && forall i :: 0 <= i < |ns| ==> ns[i].text == ns'[i].text
    ensures RemarksAsWritten(ns, cs) == RemarksAsWritten(ns', cs)
    decreases |cs|
  {
    if cs != [] {
      if IsRemark(ns, cs[0]) && |cs| > 1 {
        RemarksSameTexts(ns, ns', cs[2..]);
      } else if !IsRemark(ns, cs[0]) {
        RemarksSameTexts(ns, ns', cs[1..]);
      }
    }
  }

  /** Which entries are remarks depends on the texts of the entries only. */
  lemma {:induction false} DropSameTexts(ns: seq<Node>, ns': seq<Node>, cs: seq<nat>)
    requires |ns| == |ns'| && forall i :: 0 <= i < |ns| ==> ns[i].text == ns'[i].text
    ensures DropRemarks(ns, cs) == DropRemarks(ns', cs)
    decreases |cs|
  {
    if cs != [] {
      DropSameTexts(ns, ns', cs[1..]);
    }
  }

  /** One iteration of the loop below, at position `i` of the list `l`. */
  lemma RemarksStep(ns: seq<Node>, l: seq<nat>, i: nat)
    requires i < |l|
    ensures var before := l[..i] + RemarksAsWritten(ns, l[i..]);
      var l' := l[..i] + l[i + 1..];
      if !IsRemark(ns, l[i]) then before == l[..i + 1] + RemarksAsWritten(ns, l[i + 1..])
      else if i + 1 < |l| then before == l'[..i + 1] + RemarksAsWritten(ns, l'[i + 1..])
      else before == l'
  {
    var l' := l[..i] + l[i + 1..];
    if IsRemark(ns, l[i]) {
      if i + 1 < |l| {
        assert l[i..][2..] == l[i + 2..] && l'[..i + 1] == l[..i] + [l[i + 1]] && l'[i + 1..] == l[i + 2..];
      } else {
        assert l' == l[..i];
      }
    } else {
      assert l[i..][1..] == l[i + 1..] && l[..i + 1] == l[..i] + [l[i]];
    }
  }

  /** The loop of `_remove_acl_remarks` over one ACL's children as written:
      the list is iterated by position while remarks are removed from it, so
      the entry after a removed remark moves into the removed one's place and
      is passed over. */
  method StripRemarks(ns: seq<Node>, cs: seq<nat>) returns (kept: seq<nat>)
    ensures kept == RemarksAsWritten(ns, cs)
  {
    kept := cs;
    var i := 0;
    while i < |kept|
      invariant i <= |kept| + 1
      invariant if i <= |kept| then RemarksAsWritten(ns, cs) == kept[..i] + RemarksAsWritten(ns, kept[i..])
        else RemarksAsWritten(ns, cs) == kept
      decreases |kept| - i + 1
    {
      RemarksStep(ns, kept, i);
      if IsRemark(ns, kept[i]) {
        kept := kept[..i] + kept[i + 1..];
      }
      i := i + 1;
    }
    if i <= |kept| {
      assert kept[..i] == kept && kept[i..] == [];
    }
  }

  /** The loop of `_remove_acl_remarks` over one ACL's children as evidently
      meant: every remark is removed and every other entry kept, in order. */
  method DropRemarkEntries(ns: seq<Node>, cs: seq<nat>) returns (kept: seq<nat>)
    ensures kept == DropRemarks(ns, cs)
  {
    kept := [];
    var i := 0;
    while i < |cs|
      invariant i <= |cs|
      invariant DropRemarks(ns, cs) == kept + DropRemarks(ns, cs[i..])
    {
      assert cs[i..][1..] == cs[i + 1..];
      if !IsRemark(ns, cs[i]) {
        kept := kept + [cs[i]];
      }
      i := i + 1;
    }
    assert cs[i..] == [];
  }

  /** The loop of `_remove_acl_remarks` over the children of the root, each
      ACL's children going through the loop as written. */
  method UnremarkAcls(ns0: seq<Node>) returns (ns: seq<Node>)
    requires Valid(ns0)
    ensures ns == UnremarkedAsWritten(ns0)
  {
    var rc := ns0[0].children;
    assert KidsOk(ns0, 0);
    ghost var target := UnremarkedAsWritten(ns0);
    ns := ns0;
    var m := 0;
    while m < |rc|
      invariant m <= |rc| && |ns| == |ns0|
      invariant forall k :: 0 <= k < |rc| ==> ns[rc[k]] == if k < m then target[rc[k]] else ns0[rc[k]]
      invariant forall i :: 0 <= i < |ns0| && i !in rc ==> ns[i] == ns0[i]
      invariant forall i :: 0 <= i < |ns0| ==> ns[i].text == ns0[i].text
    {
      var c := rc[m];
      ghost var prev := ns;
      if StartsWith(ns[c].text, Ipv4Acl) {
        var kept := StripRemarks(ns, ns[c].children);
        RemarksSameTexts(ns, ns0, ns0[c].children);
        ns := ns[c := ns[c].(children := kept)];
      }
      forall k | 0 <= k < |rc| && k != m ensures ns[rc[k]] == prev[rc[k]] {
        assert rc[k] != c;
      }
      m := m + 1;
    }
    WalkDone(ns0, rc, ns, target);
  }
}
