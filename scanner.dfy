/** The line-by-line state machine of `HConfig.load_from_string`, without the
    tree: which lines are folded into banners, which are dropped, and the text
    and effective indentation of every node the parse creates, in order. The
    tree placement itself is in module Config. */
module Scanner {
  import opened Text
  import opened Rules
  import opened Seqs

  /** The loop variables of the parse other than the tree cursors. */
  datatype ScanState = ScanState(
    inBanner: bool,
    tempBanner: seq<string>,
    endLines: seq<string>,
    endContains: seq<string>,
    indentAdjust: int,
    pending: seq<string>)

  /** One node the parse creates: its text, its `real_indent_level`, and
      whether it is a collapsed banner. */
  datatype Item = Item(text: string, indent: int, banner: bool)

  /** A line of the text together with the form it takes outside a banner:
      its leading whitespace kept as spaces, every inner run of whitespace made
      one space, the per-line substitutions applied and trailing whitespace
      stripped. Inside a banner and on a banner start only `raw` is read. */
  datatype Line = Line(raw: string, norm: string)

  /** The universal banner terminators. */
  const UniversalEnds: seq<string> := ["EOF", "%", "!"]

  /** The state before the first line. */
  const Start: ScanState := ScanState(false, [], UniversalEnds, [], 0, [])

  /** `any([c in line for c in banner_end_contains])` */
  predicate AnyContained(cs: seq<string>, line: string) {
    exists k :: 0 <= k < |cs| && Contains(line, cs[k])
  }

  /** `end_of_banner_test(line)` under the heuristics gathered so far. */
  predicate EndOfBanner(endLines: seq<string>, endContains: seq<string>, line: string) {
    StartsWith(line, "^") || line in endLines || AnyContained(endContains, line)
  }

  /** `line` ends the banner being read in state `st`. */
  predicate Closes(st: ScanState, line: string) {
    EndOfBanner(st.endLines, st.endContains, line)
  }

  /** A line outside a banner after whitespace normalisation, the per-line
      substitutions and `rstrip`: leading whitespace is kept, inner runs of
      whitespace become one space. */
  function Normalize(re: Regex, subs: seq<Sub>, line: string): string {
    RStrip(ApplySubs(re, subs, Spaces(LeadCount(line)) + Join(" ", Words(line))))
  }

  /** The first `indent_adjust` rule whose start expression matches `text`
      (`|rules|` when none does), searching from position `i`. */
  function FirstStartFrom(re: Regex, rules: seq<IndentRule>, text: string, i: nat): (r: nat)
    requires i <= |rules|
    ensures i <= r <= |rules|
    ensures r < |rules| ==> re.search(rules[r].startExpression, text)
    ensures forall k :: i <= k < r ==> !re.search(rules[k].startExpression, text)
    decreases |rules| - i
  {
    if i == |rules| then i
    else if re.search(rules[i].startExpression, text) then i
    else FirstStartFrom(re, rules, text, i + 1)
  }

  /** The position found by a search that stops at the first start rule matching `text`. */
  lemma {:induction false} FirstStartIs(re: Regex, rules: seq<IndentRule>, text: string, k: nat, i: nat)
    requires i <= k <= |rules|
    requires forall q :: i <= q < k ==> !re.search(rules[q].startExpression, text)
    requires k < |rules| ==> re.search(rules[k].startExpression, text)
    ensures FirstStartFrom(re, rules, text, i) == k
    decreases k - i
  {
    if i < k { FirstStartIs(re, rules, text, k, i + 1); }
  }

  /** The indentation bookkeeping after a line is placed: the first matching
      start rule (only one, because of the `break`) queues its end expression,
      then the oldest queued end expression is tested and, on a match, removed. */
  function Adjust(re: Regex, rules: seq<IndentRule>, text: string, st: ScanState): ScanState {
    var k := FirstStartFrom(re, rules, text, 0);
    var st1 := if k < |rules|
      then st.(indentAdjust := st.indentAdjust + 1, pending := st.pending + [rules[k].endExpression])
      else st;
    if |st1.pending| > 0 && re.search(st1.pending[0], text)
    then st1.(indentAdjust := st1.indentAdjust - 1, pending := st1.pending[1..])
    else st1
  }

  /** The heuristics a banner start line adds: its third word, and that word's
      first one and two characters as whole-line terminators. */
  function BannerStart(st: ScanState, line: string): ScanState {
    var words := Words(line);
    var st1 := st.(inBanner := true, tempBanner := st.tempBanner + [line]);
    if |words| > 2
    then st1.(endContains := st.endContains + [words[2]],
              endLines := st.endLines + [Take(words[2], 1), Take(words[2], 2)])
    else st1
  }

  /** A line read inside a banner: kept unless it is a bare `!`; a terminator
      closes the banner into one node at indent 0. */
  function BannerLine(st: ScanState, line: string): (ScanState, seq<Item>) {
    var buf := if line != "!" then st.tempBanner + [line] else st.tempBanner;
    if Closes(st, line)
    then (st.(inBanner := false, tempBanner := []), [Item(Join("\n", buf), 0, true)])
    else (st.(tempBanner := buf), [])
  }

  /** A normalised line outside a banner: dropped when empty, otherwise one
      node at its whitespace indent plus the current adjustment. */
  function PlainLine(re: Regex, o: Options, st: ScanState, l: string): (ScanState, seq<Item>) {
    if l == [] then (st, [])
    else
      var text := LStrip(l);
      (Adjust(re, o.indentAdjust, text, st), [Item(text, LeadCount(l) + st.indentAdjust, false)])
  }

  /** The lines of a text paired with their normalised forms. */
  function Prepare(re: Regex, subs: seq<Sub>, lines: seq<string>): (ls: seq<Line>)
    ensures |ls| == |lines|
    ensures forall k :: 0 <= k < |lines| ==> ls[k] == Line(lines[k], Normalize(re, subs, lines[k]))
  {
    seq(|lines|, k requires 0 <= k < |lines| => Line(lines[k], Normalize(re, subs, lines[k])))
  }

  /** One iteration of the parse loop: the new state and the node it creates, if any. */
  function Step(re: Regex, o: Options, st: ScanState, ln: Line): (ScanState, seq<Item>) {
    if st.inBanner then BannerLine(st, ln.raw)
    else if StartsWith(ln.raw, "banner ") then (BannerStart(st, ln.raw), [])
    else PlainLine(re, o, st, ln.norm)
  }

  /** The parse loop over `lines` from state `st`. */
  function ScanFrom(re: Regex, o: Options, st: ScanState, lines: seq<Line>): (ScanState, seq<Item>)
  {
    if lines == [] then (st, [])
    else
      var r := ScanFrom(re, o, st, lines[..|lines| - 1]);
      var s := Step(re, o, r.0, lines[|lines| - 1]);
      (s.0, r.1 + s.1)
  }

  // ---------------------------------------------------------------------
  // Properties of the state machine

  /** What every reachable state satisfies: the counter equals the number of
      pending end expressions (so it is never negative), the banner buffer is
      empty outside a banner, and the universal terminators stay first. */
  predicate Inv(st: ScanState) {
    st.indentAdjust == |st.pending| &&
    (!st.inBanner ==> st.tempBanner == []) &&
    |st.endLines| >= 3 && st.endLines[..3] == UniversalEnds
  }

  /** A created node: banners sit at indent 0; other lines have a non-negative
      indent and a non-empty text with no surrounding whitespace. */
  predicate GoodItem(it: Item) {
    if it.banner then it.indent == 0
    else it.indent >= 0 && it.text != [] && !IsSpace(it.text[0]) && !IsSpace(it.text[|it.text| - 1])
  }

  predicate GoodItems(items: seq<Item>) {
    forall k :: 0 <= k < |items| ==> GoodItem(items[k])
  }

  lemma AdjustInv(re: Regex, rules: seq<IndentRule>, text: string, st: ScanState)
    requires Inv(st)
    ensures Inv(Adjust(re, rules, text, st))
  {
  }

  lemma PlainLineInv(re: Regex, o: Options, st: ScanState, l: string)
    requires Inv(st)
    requires l == [] || !IsSpace(l[|l| - 1])
    ensures Inv(PlainLine(re, o, st, l).0)
    ensures GoodItems(PlainLine(re, o, st, l).1) && |PlainLine(re, o, st, l).1| <= 1
  {
    if l != [] {
      var text := LStrip(l);
      StrippedText(l);
      AdjustInv(re, o.indentAdjust, text, st);
    }
  }

  /** A right-stripped non-empty line keeps a non-empty text once left-stripped. */
  lemma StrippedText(l: string)
    requires l != [] && !IsSpace(l[|l| - 1])
    ensures LStrip(l) != [] && !IsSpace(LStrip(l)[0]) && !IsSpace(LStrip(l)[|LStrip(l)| - 1])
  {
    var t := LStrip(l);
    assert t != [];
    assert t[|t| - 1] == l[|l| - 1];
  }

  lemma BannerStartInv(st: ScanState, line: string)
    requires Inv(st)
    ensures Inv(BannerStart(st, line))
  {
    var st1 := BannerStart(st, line);
    assert st1.endLines[..3] == st.endLines[..3];
  }

  /** `l` carries no trailing whitespace, as after `rstrip`. */
  predicate RStripped(l: string) {
    l == [] || !IsSpace(l[|l| - 1])
  }

  /** Every normalised form in `ls` is right-stripped. */
  predicate Stripped(ls: seq<Line>) {
    forall k :: 0 <= k < |ls| ==> RStripped(ls[k].norm)
  }

  lemma PrepareStripped(re: Regex, subs: seq<Sub>, lines: seq<string>)
    ensures Stripped(Prepare(re, subs, lines))
  {
  }

  lemma StepInv(re: Regex, o: Options, st: ScanState, ln: Line)
    requires Inv(st) && RStripped(ln.norm)
    ensures Inv(Step(re, o, st, ln).0)
    ensures GoodItems(Step(re, o, st, ln).1) && |Step(re, o, st, ln).1| <= 1
  {
    if st.inBanner {
    } else if StartsWith(ln.raw, "banner ") {
      BannerStartInv(st, ln.raw);
    } else {
      PlainLineInv(re, o, st, ln.norm);
    }
  }

  /** One more line extends the parse by one step. */
  lemma ScanSnoc(re: Regex, o: Options, st: ScanState, lines: seq<Line>, ln: Line)
    ensures ScanFrom(re, o, st, lines + [ln]).0 == Step(re, o, ScanFrom(re, o, st, lines).0, ln).0
    ensures ScanFrom(re, o, st, lines + [ln]).1 ==
      ScanFrom(re, o, st, lines).1 + Step(re, o, ScanFrom(re, o, st, lines).0, ln).1
  {
    assert (lines + [ln])[..|lines|] == lines;
  }

  /** The parse of the first `n + 1` lines is the parse of the first `n` and one step. */
  lemma ScanNext(re: Regex, o: Options, st: ScanState, lines: seq<Line>, n: nat)
    requires n < |lines|
    ensures ScanFrom(re, o, st, lines[..n + 1]).0 == Step(re, o, ScanFrom(re, o, st, lines[..n]).0, lines[n]).0
    ensures ScanFrom(re, o, st, lines[..n + 1]).1 ==
      ScanFrom(re, o, st, lines[..n]).1 + Step(re, o, ScanFrom(re, o, st, lines[..n]).0, lines[n]).1
  {
    var pre := lines[..n + 1];
    assert pre[..|pre| - 1] == lines[..n] && pre[|pre| - 1] == lines[n];
  }

  /** `indent_adjust == len(end_indent_adjust)` throughout a parse, and every
      created node is well formed. */
  lemma {:induction false} ScanInv(re: Regex, o: Options, st: ScanState, lines: seq<Line>)
    requires Inv(st) && Stripped(lines)
    ensures Inv(ScanFrom(re, o, st, lines).0)
    ensures GoodItems(ScanFrom(re, o, st, lines).1)
    ensures |ScanFrom(re, o, st, lines).1| <= |lines|
  {
    if lines != [] {
      var init := lines[..|lines| - 1];
      assert Stripped(init) by {
        forall k | 0 <= k < |init| ensures RStripped(init[k].norm) { assert init[k] == lines[k]; }
      }
      ScanInv(re, o, st, init);
      var r := ScanFrom(re, o, st, init);
      StepInv(re, o, r.0, lines[|lines| - 1]);
      var s := Step(re, o, r.0, lines[|lines| - 1]);
      assert ScanFrom(re, o, st, lines).1 == r.1 + s.1;
      assert forall k :: 0 <= k < |r.1| ==> (r.1 + s.1)[k] == r.1[k];
    }
  }

  /** The end-expression list is a queue: a line appends at most one pattern
      (the first matching start rule's) and removes at most the oldest one. */
  lemma StepQueue(re: Regex, o: Options, st: ScanState, ln: Line)
    ensures var p' := Step(re, o, st, ln).0.pending;
      exists es: seq<string>, d: nat :: |es| <= 1 && d <= 1 && d <= |st.pending + es| && p' == (st.pending + es)[d..]
  {
    var p' := Step(re, o, st, ln).0.pending;
    var es: seq<string>, d: nat := [], 0;
    if !st.inBanner && !StartsWith(ln.raw, "banner ") && ln.norm != [] {
      es, d := AdjustQueue(re, o.indentAdjust, LStrip(ln.norm), st);
    }
    assert st.pending + [] == st.pending;
    assert p' == (st.pending + es)[d..];
  }

  /** The queue change made by `Adjust`, with the appended pattern `es` and the
      number `d` of patterns removed from the front. */
  lemma AdjustQueue(re: Regex, rules: seq<IndentRule>, text: string, st: ScanState)
    returns (es: seq<string>, d: nat)
    ensures |es| <= 1 && d <= 1 && d <= |st.pending + es|
    ensures Adjust(re, rules, text, st).pending == (st.pending + es)[d..]
  {
    var k := FirstStartFrom(re, rules, text, 0);
    es := if k < |rules| then [rules[k].endExpression] else [];
    assert st.pending + [] == st.pending;
    var q := st.pending + es;
    d := if |q| > 0 && re.search(q[0], text) then 1 else 0;
  }

  predicate Extends(s: seq<string>, t: seq<string>) {
    |s| <= |t| && t[..|s|] == s
  }

  lemma StepGrows(re: Regex, o: Options, st: ScanState, ln: Line)
    ensures Extends(st.endLines, Step(re, o, st, ln).0.endLines)
    ensures Extends(st.endContains, Step(re, o, st, ln).0.endContains)
  {
    var st' := Step(re, o, st, ln).0;
    assert st'.endLines[..|st.endLines|] == st.endLines;
    assert st'.endContains[..|st.endContains|] == st.endContains;
  }

  /** Banner terminators accumulate: a later state keeps every earlier heuristic. */
  lemma {:induction false} HeuristicsGrow(re: Regex, o: Options, st: ScanState, lines: seq<Line>)
    ensures Extends(st.endLines, ScanFrom(re, o, st, lines).0.endLines)
    ensures Extends(st.endContains, ScanFrom(re, o, st, lines).0.endContains)
  {
    if lines != [] {
      var init := lines[..|lines| - 1];
      HeuristicsGrow(re, o, st, init);
      var s1 := ScanFrom(re, o, st, init).0;
      StepGrows(re, o, s1, lines[|lines| - 1]);
      var s2 := ScanFrom(re, o, st, lines).0;
      assert s2.endLines[..|st.endLines|] == s2.endLines[..|s1.endLines|][..|st.endLines|];
      assert s2.endContains[..|st.endContains|] == s2.endContains[..|s1.endContains|][..|st.endContains|];
    }
  }

  /** The lines kept in a banner's text: the raw lines that are not a bare `!`. */
  function KeptLines(lines: seq<Line>): (r: seq<string>)
    ensures forall k :: 0 <= k < |r| ==> r[k] != "!"
    ensures |r| <= |lines|
  {
    if lines == [] then []
    else
      var r0 := KeptLines(lines[..|lines| - 1]);
      var last := lines[|lines| - 1].raw;
      if last != "!" then r0 + [last] else r0
  }

  /** Inside a banner, lines that pass no terminator test only grow the buffer. */
  lemma {:induction false} InBannerRun(re: Regex, o: Options, st: ScanState, mid: seq<Line>)
    requires st.inBanner
    requires forall k :: 0 <= k < |mid| ==> !Closes(st, mid[k].raw)
    ensures ScanFrom(re, o, st, mid) == (st.(tempBanner := st.tempBanner + KeptLines(mid)), [])
  {
    if mid != [] {
      var init := mid[..|mid| - 1];
      var last := mid[|mid| - 1];
      assert forall k :: 0 <= k < |init| ==> init[k] == mid[k];
      InBannerRun(re, o, st, init);
      var s1 := st.(tempBanner := st.tempBanner + KeptLines(init));
      assert ScanFrom(re, o, st, init) == (s1, []);
      assert Closes(s1, last.raw) == Closes(st, last.raw);
      var buf := if last.raw != "!" then s1.tempBanner + [last.raw] else s1.tempBanner;
      assert Step(re, o, s1, last) == (s1.(tempBanner := buf), []);
      if last.raw != "!" {
        AppendAssoc(st.tempBanner, KeptLines(init), [last.raw]);
      }
      assert ScanFrom(re, o, st, mid) == (s1.(tempBanner := buf), [] + []);
      assert KeptLines(mid) == KeptLines(init) + (if last.raw != "!" then [last.raw] else []);
      assert buf == st.tempBanner + KeptLines(mid);
      AppendEmpty<Item>([]);
    } else {
      assert st.tempBanner + KeptLines(mid) == st.tempBanner;
    }
  }

  lemma {:induction false} ScanConcat(re: Regex, o: Options, st: ScanState, a: seq<Line>, b: seq<Line>)
    ensures ScanFrom(re, o, st, a + b).0 == ScanFrom(re, o, ScanFrom(re, o, st, a).0, b).0
    ensures ScanFrom(re, o, st, a + b).1 == ScanFrom(re, o, st, a).1 + ScanFrom(re, o, ScanFrom(re, o, st, a).0, b).1
    decreases |b|
  {
    if b == [] {
      assert a + b == a;
      AppendEmpty(ScanFrom(re, o, st, a).1);
    } else {
      var b0 := b[..|b| - 1];
      var last := b[|b| - 1];
      assert a + b == (a + b0) + [last];
      assert b == b0 + [last];
      var ra := ScanFrom(re, o, st, a);
      var rab0 := ScanFrom(re, o, st, a + b0);
      var rb0 := ScanFrom(re, o, ra.0, b0);
      assert rab0.0 == rb0.0 && rab0.1 == ra.1 + rb0.1 by { ScanConcat(re, o, st, a, b0); }
      var s := Step(re, o, rab0.0, last);
      ScanSnoc(re, o, st, a + b0, last);
      ScanSnoc(re, o, ra.0, b0, last);
      AppendAssoc(ra.1, rb0.1, s.1);
    }
  }

  /** The line that passes the terminator test closes the banner. */
  lemma BannerEnd(re: Regex, o: Options, s: ScanState, e: Line)
    requires s.inBanner && Closes(s, e.raw)
    ensures Step(re, o, s, e).0 == s.(inBanner := false, tempBanner := [])
    ensures Step(re, o, s, e).1 == [Item(Join("\n", s.tempBanner + KeptLines([e])), 0, true)]
  {
    assert [e][..0] == [];
    assert KeptLines([e]) == if e.raw != "!" then [e.raw] else [];
    AppendEmpty(s.tempBanner);
  }

  /** Banner collapse: a `banner ` line, the lines up to the first one passing
      the terminator test, and that line become ONE banner node whose text joins
      them with newlines, leaving out bare `!` lines; the parse is then back in
      normal mode. */
  lemma BannerCollapse(re: Regex, o: Options, st: ScanState, b: Line, mid: seq<Line>, e: Line)
    requires !st.inBanner && st.tempBanner == [] && StartsWith(b.raw, "banner ")
    requires forall k :: 0 <= k < |mid| ==> !Closes(BannerStart(st, b.raw), mid[k].raw)
    requires Closes(BannerStart(st, b.raw), e.raw)
    ensures ScanFrom(re, o, st, [b] + mid + [e]).0 == BannerStart(st, b.raw).(inBanner := false, tempBanner := [])
    ensures ScanFrom(re, o, st, [b] + mid + [e]).1 == [Item(Join("\n", [b.raw] + KeptLines(mid + [e])), 0, true)]
  {
    var st1 := BannerStart(st, b.raw);
    assert ScanFrom(re, o, st, [b]) == (st1, []) by {
      ScanSnoc(re, o, st, [], b);
      assert [] + [b] == [b];
    }
    var s2 := st1.(tempBanner := [b.raw] + KeptLines(mid));
    assert ScanFrom(re, o, st, [b] + mid) == (s2, []) by {
      assert st1.tempBanner == [b.raw] by { AppendEmpty([b.raw]); }
      InBannerRun(re, o, st1, mid);
      ScanConcat(re, o, st, [b], mid);
      AppendEmpty<Item>([]);
    }
    var s3 := Step(re, o, s2, e);
    assert ScanFrom(re, o, st, [b] + mid + [e]) == (s3.0, [] + s3.1) by {
      ScanSnoc(re, o, st, [b] + mid, e);
    }
    assert s3.0 == s2.(inBanner := false, tempBanner := []) &&
           s3.1 == [Item(Join("\n", s2.tempBanner + KeptLines([e])), 0, true)] by {
      BannerEnd(re, o, s2, e);
    }
    assert s2.tempBanner + KeptLines([e]) == [b.raw] + KeptLines(mid + [e]) by {
      KeptConcat(mid, [e]);
      AppendAssoc([b.raw], KeptLines(mid), KeptLines([e]));
    }
    AppendEmpty(s3.1);
  }

  lemma {:induction false} KeptConcat(a: seq<Line>, b: seq<Line>)
    ensures KeptLines(a + b) == KeptLines(a) + KeptLines(b)
    decreases |b|
  {
    if b == [] {
      assert a + b == a;
      AppendEmpty(KeptLines(a));
    } else {
      var b0 := b[..|b| - 1];
      assert (a + b)[..|a + b| - 1] == a + b0;
      assert (a + b)[|a + b| - 1] == b[|b| - 1];
      KeptConcat(a, b0);
      if b[|b| - 1].raw != "!" {
        AppendAssoc(KeptLines(a), KeptLines(b0), [b[|b| - 1].raw]);
      }
    }
  }

  /** A banner that no later line terminates leaves the parse inside it, so
      `load_from_string` fails. */
  lemma UnterminatedBanner(re: Regex, o: Options, st: ScanState, b: Line, rest: seq<Line>)
    requires !st.inBanner && StartsWith(b.raw, "banner ")
    requires forall k :: 0 <= k < |rest| ==> !Closes(BannerStart(st, b.raw), rest[k].raw)
    ensures ScanFrom(re, o, st, [b] + rest).0.inBanner
    ensures ScanFrom(re, o, st, [b] + rest).1 == []
  {
    var st1 := BannerStart(st, b.raw);
    assert ScanFrom(re, o, st, [b]) == (st1, []) by {
      ScanSnoc(re, o, st, [], b);
      assert [] + [b] == [b];
    }
    ScanConcat(re, o, st, [b], rest);
    InBannerRun(re, o, st1, rest);
  }

  /** The texts of the lines whose normalised form is not empty. */
  function PlainTexts(lines: seq<Line>): seq<string> {
    if lines == [] then []
    else
      var l := lines[|lines| - 1].norm;
      PlainTexts(lines[..|lines| - 1]) + (if l == [] then [] else [LStrip(l)])
  }

  function Texts(items: seq<Item>): (ts: seq<string>)
    ensures |ts| == |items| && forall k :: 0 <= k < |items| ==> ts[k] == items[k].text
  {
    seq(|items|, k requires 0 <= k < |items| => items[k].text)
  }

  predicate NoBanners(items: seq<Item>) {
    forall k :: 0 <= k < |items| ==> !items[k].banner
  }

  /** One line outside a banner that does not open one. */
  lemma PlainStep(re: Regex, o: Options, st: ScanState, ln: Line)
    requires !st.inBanner && !StartsWith(ln.raw, "banner ")
    ensures !Step(re, o, st, ln).0.inBanner
    ensures Texts(Step(re, o, st, ln).1) == (if ln.norm == [] then [] else [LStrip(ln.norm)])
    ensures NoBanners(Step(re, o, st, ln).1)
  {
  }

  lemma {:induction false} TextsConcat(a: seq<Item>, b: seq<Item>)
    ensures Texts(a + b) == Texts(a) + Texts(b)
  {
    var t := Texts(a + b);
    assert |t| == |Texts(a) + Texts(b)|;
    forall k | 0 <= k < |t| ensures t[k] == (Texts(a) + Texts(b))[k] {
      if k < |a| { assert (a + b)[k] == a[k]; } else { assert (a + b)[k] == b[k - |a|]; }
    }
  }

  /** Without banners, every line that stays non-empty after normalisation
      creates exactly one node, in input order, and no other node is created. */
  lemma {:induction false} PlainLines(re: Regex, o: Options, st: ScanState, lines: seq<Line>)
    requires !st.inBanner
    requires forall k :: 0 <= k < |lines| ==> !StartsWith(lines[k].raw, "banner ")
    ensures !ScanFrom(re, o, st, lines).0.inBanner
    ensures Texts(ScanFrom(re, o, st, lines).1) == PlainTexts(lines)
    ensures NoBanners(ScanFrom(re, o, st, lines).1)
  {
    if lines != [] {
      var init := lines[..|lines| - 1];
      var last := lines[|lines| - 1];
      var r := ScanFrom(re, o, st, init);
      assert !r.0.inBanner && Texts(r.1) == PlainTexts(init) && NoBanners(r.1) by {
        assert forall k :: 0 <= k < |init| ==> init[k] == lines[k];
        PlainLines(re, o, st, init);
      }
      var s := Step(re, o, r.0, last);
      var t := if last.norm == [] then [] else [LStrip(last.norm)];
      assert !s.0.inBanner && Texts(s.1) == t && NoBanners(s.1) by {
        PlainStep(re, o, r.0, last);
      }
      assert ScanFrom(re, o, st, lines) == (s.0, r.1 + s.1) by {
        assert init + [last] == lines;
        ScanSnoc(re, o, st, init, last);
      }
      assert PlainTexts(lines) == PlainTexts(init) + t;
      assert Texts(r.1 + s.1) == Texts(r.1) + Texts(s.1) by { TextsConcat(r.1, s.1); }
      assert NoBanners(r.1 + s.1) by {
        forall k | 0 <= k < |r.1 + s.1| ensures !(r.1 + s.1)[k].banner {
          if k >= |r.1| { assert (r.1 + s.1)[k] == s.1[k - |r.1|]; }
        }
      }
    }
  }

}
