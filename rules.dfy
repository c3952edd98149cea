/** The option and rule records the configuration loader consumes, and the two
    external engines it calls into: Python's `re` module and the node
    primitive's `lineage_test`. Both engines are left uninterpreted: they are
    passed in as total functions. */
module Rules {

  /** How one lineage position is compared with a node's text. */
  datatype MatchKind = MatchEquals | MatchStartsWith | MatchEndsWith | MatchContains | MatchRegex

  /** One per-depth specifier of a lineage rule. */
  datatype MatchSpec = MatchSpec(kind: MatchKind, negated: bool, patterns: seq<string>)

  /** A lineage rule: specifiers tested positionally against a lineage, outermost first. */
  type LineageRule = seq<MatchSpec>

  /** `lineage_test(rule, strip_negation)`, applied to the texts of a node's
      lineage (outermost first, ending with the node itself). */
  type LineageTest = (seq<string>, LineageRule, bool) -> bool

  /** `re.sub(pattern, replacement, string)` and `re.search(pattern, string)`. */
  datatype Regex = Regex(sub: (string, string, string) -> string, search: (string, string) -> bool)

  /** `{search, replace}` of `full_text_sub` and `per_line_sub`. */
  datatype Sub = Sub(search: string, replace: string)

  /** `{start_expression, end_expression}` of `indent_adjust`. */
  datatype IndentRule = IndentRule(startExpression: string, endExpression: string)

  /** A tag rule; an absent `add_tags` or `remove_tags` key is the empty set. */
  datatype TagRule = TagRule(lineage: LineageRule, addTags: set<string>, removeTags: set<string>)

  /** An `ordering` rule. */
  datatype OrderRule = OrderRule(lineage: LineageRule, order: int)

  /** A `sectional_exiting` rule. */
  datatype ExitRule = ExitRule(lineage: LineageRule, exitText: string)

  /** The host's option bundle, `host.hconfig_options`. */
  datatype Options = Options(
    fullTextSub: seq<Sub>,
    perLineSub: seq<Sub>,
    indentAdjust: seq<IndentRule>,
    ordering: seq<OrderRule>,
    sectionalExiting: seq<ExitRule>)

  /** The sequential application of each substitution, in list order, as in
      `for sub in subs: s = re.sub(sub['search'], sub['replace'], s)`. */
  function ApplySubs(re: Regex, subs: seq<Sub>, s: string): string
  {
    if |subs| == 0 then s
    else
      var last := subs[|subs| - 1];
      re.sub(last.search, last.replace, ApplySubs(re, subs[..|subs| - 1], s))
  }
}
