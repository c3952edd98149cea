# hier_config's `HConfig`, modelled in Dafny

`hier_config` turns the text of a network device's configuration into a tree.
Each line of the configuration becomes a node. The lines indented below a line
become that node's children. A host supplies an option bundle: text
substitutions, indentation adjustments, ordering rules and sectional-exiting
rules. `HConfig` is the root of such a tree. It offers these operations:

- it loads a tree from configuration text (`load_from_string`) or from a flat
  dump (`load_from_dump`);
- it writes a tree back out as a dump (`dump`);
- it runs rule passes over every node (`add_tags`, `set_order_weight`,
  `add_sectional_exiting`, the three access-list passes);
- it walks the tree filtered by lineage rules
  (`all_children_sorted_with_lineage_rules`).

The model keeps the tree as an arena, a `seq<Node>`:

- Index 0 is the root. Every other node records the index of its parent and
  the ordered indices of its children.
- A parent is always created before its children.
- A node that the source removes from its parent's list stays in the arena,
  detached, as the Python object would.

The modules are:

- `Text`: the string helpers Python provides (`split`, `join`, `strip`,
  `startswith`, `splitlines`, `str(int)`).
- `Rules`: the option and rule records. It also holds the two engines the core
  calls into, passed in as functions: the `re` module and the node primitive's
  `lineage_test`.
- `Arena`, `Walk`: nodes, depth, lineage, `add_child`, and the walks
  `all_children()` and `all_children_sorted()`.
- `Scanner`, `Loader`: the loop of `load_from_string` as a state machine over
  lines, and where each created node lands in the tree.
- `Passes`: `add_tags`, `set_order_weight`, and the `tags` getter and setter.
- `Acl`: the three access-list passes.
- `Exiting`: `add_sectional_exiting`.
- `Dump`: `dump` and `load_from_dump`.
- `Filter`: `all_children_sorted_with_lineage_rules`.
- `Config`: the class `HConfig`. It holds the arena in a field, and each
  method updates that field in place.

Each method of `HConfig` and each loop is proved against a specification
function. The lemmas beside those functions state what the source promises.

## Model

| member | source | states |
|---|---|---|
| Config.HConfig.constructor | hier_config/__init__.py:52-77 | A new configuration holds only the root and keeps the host's options and OS. |
| Config.HConfig.SubstituteAll | hier_config/__init__.py:149-153 | The text after applying each substitution in list order, each applied to the result of the one before. |
| Config.HConfig.NormalizeLine | hier_config/__init__.py:207-214 | A line outside a banner keeps its leading whitespace as that many spaces. Its words are joined by single spaces, the per-line substitutions are applied, and trailing whitespace is stripped. |
| Config.HConfig.StartBanner | hier_config/__init__.py:194-205 | A `banner ` line opens banner mode. It adds the third word as a "contains" terminator, and that word's first one and two characters as whole-line terminators. |
| Config.HConfig.ReadBannerLine | hier_config/__init__.py:180-192 | Inside a banner, a line other than `!` is buffered. A terminator turns the buffer into one node under the root at indent 0 and leaves banner mode. |
| Config.HConfig.AdjustIndent | hier_config/__init__.py:236-243 | Only the first start expression that matches queues its end expression. Then only the oldest queued end expression is tested, and it is dequeued on a match. |
| Config.HConfig.PlaceLine | hier_config/__init__.py:225-234 | The new node is created under the nearest ancestor-or-self of the previous node that is indented less than the line (or the root), and lands at the end of `all_children()`. |
| Config.HConfig.ReadPlainLine | hier_config/__init__.py:216-243 | An empty normalised line creates nothing. Any other line becomes one node at its indent plus the current adjustment, followed by the indent bookkeeping. |
| Config.HConfig.ReadLine | hier_config/__init__.py:179-243 | One loop iteration extends the parse by exactly one step of the line state machine, and keeps the tree in the loaded shape. |
| Config.HConfig.ReadLines | hier_config/__init__.py:178-243 | After the loop, the tree is the old tree plus one node per item of the parse, each placed as the cursors dictate. |
| Config.HConfig.LoadFromString | hier_config/__init__.py:146-253 | The tree keeps its old nodes and gains the parsed nodes, appended in order to `all_children()`. `ok` is false exactly when the text ends inside a banner. |
| Scanner.ScanInv | hier_config/__init__.py:236-243 | Throughout a parse, `indent_adjust` equals the length of `end_indent_adjust`, so it never goes negative. Every created node has a non-negative indent and a stripped, non-empty text. |
| Scanner.StepQueue | hier_config/__init__.py:236-243 | Each line appends at most one end expression to the queue and removes at most its oldest one. |
| Scanner.FirstStartIs | hier_config/__init__.py:236-240 | The search stops at the first start rule whose expression matches. |
| Scanner.HeuristicsGrow | hier_config/__init__.py:194-205 | Banner terminators only accumulate over a parse; none is ever dropped. |
| Scanner.InBannerRun | hier_config/__init__.py:180-183 | Inside a banner, lines that pass no terminator test only grow the buffer, skipping bare `!` lines, and create no node. |
| Scanner.BannerEnd | hier_config/__init__.py:184-191 | The line that passes the terminator test creates one root-level node holding the buffered lines joined by newlines, and ends banner mode. |
| Scanner.BannerCollapse | hier_config/__init__.py:180-205 | A banner start line, the lines up to its terminator, and the terminator become exactly one node whose text joins them with newlines, without the `!` lines. |
| Scanner.UnterminatedBanner | hier_config/__init__.py:245-246 | A banner that no later line terminates leaves the parse in banner mode with no node created, so the final assertion fails. |
| Scanner.PlainLines | hier_config/__init__.py:207-234 | Without banners, each line that is non-empty after normalisation creates exactly one node, in input order, whose text is the left-stripped line. No other node is created. |
| Scanner.PlainStep | hier_config/__init__.py:207-223 | A line outside a banner that does not open one creates a node exactly when its normalised form is non-empty. |
| Scanner.KeptLines | hier_config/__init__.py:181-182 | No bare `!` line enters a banner's text. |
| Loader.Attach | hier_config/__init__.py:225-231 | The section found is an ancestor-or-self of the previous node, and is either the root or indented less than the line. |
| Loader.AttachNearest | hier_config/__init__.py:225-228 | It is the nearest such node: every node strictly between it and the previous node is indented at least as deep as the line. |
| Loader.IndentAboveParent | hier_config/__init__.py:225-234 | Every node the parse creates is indented strictly deeper than its parent: banners at 0 under the root at -1, other lines under a section indented less. |
| Loader.LoadedIndents | hier_config/__init__.py:155-234 | The same for every node of a whole `load_from_string` parse, banners included. |
| Loader.LoadStart | hier_config/__init__.py:155-163 | The start state (root `real_indent_level` -1, no items) is a loaded tree. |
| Loader.LoadStep | hier_config/__init__.py:233-234 | Creating a node where the cursors say preserves the loaded shape. Old nodes are kept, the new node carries its item, and the new node ends `all_children()`. |
| Arena.LineageIsAncestors | hier_config/__init__.py:412-413 | `lineage()` holds exactly the non-root ancestors-or-self of a node. |
| Arena.LineageDepth | hier_config/__init__.py:287-290 | The k-th lineage entry sits at depth k + 1, which is what the dump loader's `islice` relies on. |
| Walk.WalksDistinct | hier_config/__init__.py:342 | `all_children()` and `all_children_sorted()` visit each node at most once, and only nodes of the tree. |
| Walk.SortPerm | hier_config/__init__.py:411 | Sorting the children by weight is a permutation of them. |
| Walk.SortSorted | hier_config/__init__.py:411 | Sorted children are in non-decreasing `order_weight`. |
| Walk.KidsPerm | hier_config/__init__.py:411 | In either order, the children of a node are visited exactly once each. |
| Walk.ForestShape | hier_config/__init__.py:324-332 | The depths along a walk start one below its base, never go shallower, and grow by at most one per step. |
| Walk.AllChildrenAppend | hier_config/__init__.py:233-234 | A child added at the end of the rightmost path is the last node of `all_children()`. |
| Passes.TagsDecided | hier_config/__init__.py:341-347 | A tag is decided by the last matching rule that mentions it: present exactly when that rule adds it and does not remove it. A tag no matching rule mentions keeps its old presence. |
| Passes.TagsUnmatched | hier_config/__init__.py:341-347 | A node that no rule matches keeps its tags. |
| Passes.RetaggedNone | hier_config/__init__.py:341 | With no rules, nothing changes. |
| Passes.RetaggedShape | hier_config/__init__.py:336-349 | `add_tags` changes tags only. The tree, its walks and every lineage stay the same. |
| Passes.RetaggedSpec | hier_config/__init__.py:336-349 | Each visited node's tag is decided by the last matching rule that mentions it. The root and unvisited nodes keep their tags, and nothing but tags changes. |
| Passes.RetagAll | hier_config/__init__.py:341-347 | The rule loop computes the retagged tree. |
| Passes.TagWalk | hier_config/__init__.py:342-347 | The node loop applies one rule to each visited node. |
| Config.HConfig.AddTags | hier_config/__init__.py:336-349 | The new tree is the retagged old tree, over `all_children()`. |
| Passes.WeightDecided | hier_config/__init__.py:452-454 | The order of the last matching rule wins. With no match, the weight stays. |
| Passes.ReweightedSpec | hier_config/__init__.py:445-454 | `set_order_weight` changes weights only. A visited node takes the last matching rule's order, and every other node keeps its weight. |
| Passes.OrderFor | hier_config/__init__.py:452-454 | The rule loop for one node computes its weight after the rules. |
| Passes.WeighWalk | hier_config/__init__.py:451-454 | The node loop reweights each node of the walk. |
| Config.HConfig.SetOrderWeight | hier_config/__init__.py:445-454 | The new tree is the reweighted old tree, over `all_children()`. |
| Passes.UnionTagsSpec | hier_config/__init__.py:103-108 | A tag is in the union exactly when one of the nodes carries it. |
| Passes.GetRootTags | hier_config/__init__.py:103-108 | The getter's loop computes the union of the tags of the root's children. |
| Config.HConfig.Tags | hier_config/__init__.py:103-108 | The `tags` getter returns the union of the tags of the root's children. |
| Passes.SetThenGetTags | hier_config/__init__.py:103-113 | Setting tags changes only the tags of the root's children. Reading them back gives the value set, or nothing when the root has no children. |
| Passes.SetRootTags | hier_config/__init__.py:110-113 | The setter's loop gives every child of the root the new tags. |
| Config.HConfig.SetTags | hier_config/__init__.py:110-113 | The new tree has the new tags on every child of the root. |
| Acl.NumberTexts | hier_config/__init__.py:369-373 | The k-th numbered entry gets the prefix 10·(number of numbered entries before it) + 10. Other entries are unchanged. |
| Acl.NumbersIncrease | hier_config/__init__.py:369-373 | Later numbered entries get strictly larger sequence numbers. |
| Acl.NumbersBounded | hier_config/__init__.py:369-373 | No sequence number exceeds 10 times the number of numbered entries. |
| Acl.RenumberedSpec | hier_config/__init__.py:355-375 | Each entry of an IPv4 ACL carries its numbered text, and nothing else about it changes. |
| Acl.RenumberedShape | hier_config/__init__.py:355-375 | Numbering changes only the texts of entries of `ip access-list` children of the root. The tree keeps its shape. |
| Acl.NumberAcls | hier_config/__init__.py:367-373 | The loop over the root's children computes the renumbered tree. |
| Config.HConfig.AddAclSequenceNumbers | hier_config/__init__.py:355-375 | The new tree is the renumbered old tree, using the host OS's choice of entry kinds. |
| Acl.UnsequencedWords | hier_config/__init__.py:385-386 | An unsequenced entry's words are its old words without the first two. |
| Acl.UnsequencedEntries | hier_config/__init__.py:377-387 | Each entry of an IPv6 ACL that starts with `sequence` loses its first two words, and nothing else changes. |
| Acl.UnsequenceShape | hier_config/__init__.py:377-387 | Only the texts of entries of `ipv6 access-list ` children of the root change. The tree keeps its shape. |
| Acl.UnsequenceEntries | hier_config/__init__.py:384-386 | The entry loop unsequences the entries of one ACL. |
| Acl.UnsequenceAcls | hier_config/__init__.py:383-386 | The ACL loop computes the unsequenced tree. |
| Config.HConfig.RmIpv6AclSequenceNumbers | hier_config/__init__.py:377-387 | The new tree is the unsequenced old tree. |
| Acl.StripRemarks | hier_config/__init__.py:391-393 | The loop as written, removing from the list it iterates, keeps exactly what `RemarksAsWritten` keeps. |
| Acl.AsWrittenKeeps | hier_config/__init__.py:391-393 | The loop as written never adds an entry and keeps every entry that is not a remark. |
| Acl.AsWrittenOrdered | hier_config/__init__.py:391-393 | The loop as written keeps the remaining entries in order. |
| Acl.AsWrittenAgrees | hier_config/__init__.py:391-393 | Where no remark directly follows another remark, the loop as written removes exactly the remarks. |
| Acl.SecondRemarkSurvives | hier_config/__init__.py:391-393 | Counterexample: with two consecutive remarks, the loop as written keeps the second one. |
| Acl.DropRemarksSpec | hier_config/__init__.py:391-393 | The corrected removal keeps exactly the entries that are not remarks, in order. |
| Acl.DropRemarkEntries | hier_config/__init__.py:391-393 | The corrected entry loop computes the corrected removal. |
| Acl.UnremarkedSpec | hier_config/__init__.py:389-394 | Corrected removal: only the children lists of `ip access-list ` children of the root change. An ACL keeps a child exactly when it is not a remark, and the tree stays well formed. |
| Acl.UnremarkedAsWrittenSpec | hier_config/__init__.py:389-394 | The pass as written keeps the tree well formed and changes only the children lists of `ip access-list ` children of the root. Each node keeps every child that is not a remark, in order, and gains no child. |
| Acl.UnremarkedAgreeAt | hier_config/__init__.py:391-393 | Where no remark of an ACL directly follows another, the pass as written leaves that ACL the same children as the corrected removal, so no remark stays. |
| Acl.UnremarkAcls | hier_config/__init__.py:390-393 | The ACL loop, each ACL going through the entry loop as written, computes the tree `UnremarkedAsWritten` describes. |
| Config.HConfig.RemoveAclRemarks | hier_config/__init__.py:389-394 | The new tree is the old tree with each IPv4 ACL's children put through the entry loop as written, which keeps every entry that is not a remark, in order. It may keep a remark that follows another. |
| Exiting.WithoutTextNone | hier_config/__init__.py:467-468 | Deleting children by a text no child has changes nothing. |
| Exiting.WithTextOfWithout | hier_config/__init__.py:467-468 | Deleting by one text leaves the children with another text as they were. |
| Exiting.WithoutTextIncreasing | hier_config/__init__.py:467-468 | Deleting children keeps the children list in creation order. |
| Exiting.ExitSpec | hier_config/__init__.py:467-471 | After one exit step, the node has exactly one child with the exit text: a new node of weight 999. Every other child is kept, and no other child is added. |
| Exiting.ExitOnce | hier_config/__init__.py:467-471 | The step's code, `del_child_by_text` then `add_child`, computes the exit step. |
| Exiting.ExitKeeps | hier_config/__init__.py:464-471 | An exit step for one node and text keeps "exactly one child with this text, of weight 999" for every other node and text where it already held. |
| Exiting.ExitRulesSpec | hier_config/__init__.py:465-471 | After the rules are tried on a node, each matching rule's exit text occurs exactly once among its children, on a node of weight 999. |
| Exiting.ExitRulesKeep | hier_config/__init__.py:464-471 | Trying the rules on one node keeps "exactly one child with this text" on every other node. |
| Exiting.ExitNode | hier_config/__init__.py:465-471 | The rule loop for one node computes the node's exit steps. |
| Exiting.ExitWalkSpec | hier_config/__init__.py:464-471 | After the walk, every visited node that a rule matches has exactly one child with that rule's exit text, and that child has weight 999. |
| Exiting.SectionedSpec | hier_config/__init__.py:456-471 | After `add_sectional_exiting`, each node of `all_children()` that a rule matches has exactly one child with that rule's exit text, and that child has weight 999. The root and the texts of the nodes are untouched. |
| Exiting.ExitAll | hier_config/__init__.py:464-471 | The walk loop computes the sectioned tree. |
| Config.HConfig.AddSectionalExiting | hier_config/__init__.py:456-471 | The new tree is the sectioned old tree. |
| Dump.DumpRecords | hier_config/__init__.py:324-332 | The output loop emits one record per node of the walk, in walk order, as `Records` defines them. |
| Config.HConfig.Dump | hier_config/__init__.py:299-334 | Without rules, the records follow `all_children_sorted()`. With rules, they follow the filtered walk. |
| Dump.DumpParentSpec | hier_config/__init__.py:276-290 | A parent is found exactly when 1 ≤ depth ≤ (depth of the previous node) + 1. It is the ancestor-or-self of the previous node at depth − 1. |
| Dump.PlaceSpec | hier_config/__init__.py:293-297 | The new node is the last child of the chosen parent. It carries the record's text, tags, comments and `new_in_config`, with the default weight. |
| Dump.RestoreCount | hier_config/__init__.py:273-297 | The load creates one node per record up to the first record whose depth does not fit. `ok` holds exactly when every record fits. |
| Dump.RestoreHolds | hier_config/__init__.py:273-297 | The k-th created node carries the k-th record. |
| Dump.RestoreWalk | hier_config/__init__.py:273-297 | The created nodes follow the old ones in `all_children()`, in record order. |
| Config.HConfig.LoadFromDump | hier_config/__init__.py:255-297 | The record loop computes the restored tree. `ok` is false where the source raises. |
| Dump.LoadWellFormed | hier_config/__init__.py:255-297 | Loading into an empty tree succeeds exactly on a well-formed dump (first depth 1, each depth at least 1 and at most one more than the one before), and then creates one node per record. |
| Dump.LoadedUniform | hier_config/__init__.py:293-297 | A loaded tree has the default order weight everywhere. |
| Dump.RoundTrip | hier_config/__init__.py:255-334 | Loading a well-formed dump into an empty tree and dumping it gives the same records back. |
| Dump.DumpWellFormed | hier_config/__init__.py:299-334 | Every tree dumps to a well-formed dump. |
| Dump.DumpLoadDump | hier_config/__init__.py:255-334 | Dumping, loading and dumping again gives the first dump. |
| Filter.SortedClosed | hier_config/__init__.py:411 | `all_children_sorted()` visits every non-root ancestor of a node before the node itself. |
| Filter.StepHit | hier_config/__init__.py:412-416 | A node below a matched node is yielded, and the walk's invariant is kept. |
| Filter.StepMatch | hier_config/__init__.py:417-426 | A node that a rule matches becomes matched, and its not-yet-yielded lineage is yielded. |
| Filter.StepNone | hier_config/__init__.py:417-419 | A node that is neither below a match nor matched itself changes nothing. |
| Filter.FilterSound | hier_config/__init__.py:409-426 | Over any distinct, ancestor-closed walk, the invariant holds at the end (see FilteredSpec). |
| Filter.FilteredSpec | hier_config/__init__.py:396-426 | Each node is yielded at most once. The matched nodes are exactly the topmost nodes a rule matches. A node is yielded exactly when it lies on the lineage of a matched node or below one. |
| Filter.FilteredInRange | hier_config/__init__.py:396-426 | Only nodes of the tree are yielded. |
| Filter.AnyMatched | hier_config/__init__.py:412-416 | The lineage loop tells whether an ancestor-or-self is matched. |
| Filter.AnyRuleFires | hier_config/__init__.py:417-419 | The rule loop tells whether any rule passes the lineage test. |
| Filter.YieldLineage | hier_config/__init__.py:421-425 | The ancestor loop yields, in order, the lineage entries not yet yielded. |
| Filter.VisitChild | hier_config/__init__.py:412-426 | One iteration computes a single step of the filter, and keeps `yielded` equal to what was output. |
| Filter.FilterAll | hier_config/__init__.py:409-426 | The generator's loop outputs the filtered walk. |
| Config.HConfig.AllChildrenSortedWithLineageRules | hier_config/__init__.py:396-426 | The method returns the filtered walk. |
| Text.WordsOfJoin | hier_config/__init__.py:208 | `' '.join(line.split())` splits back into the same words. |

## Left out

- `load_from_file` reads a file. It parses the file's contents exactly as
  `load_from_string` does, so only the latter is modelled.
- Config.HConfig.constructor does not model how the host is chosen: the
  deprecated `hostname, os, options` path with its warning, the `host=`
  attribute assertions, and the `AttributeError`. The constructor takes the
  options and the OS directly.
- The `host`, `options`, `logs`, `root`, `is_leaf` and `is_branch` properties,
  `__repr__`, `__str__`, `__hash__` and the static `depth()` (0) are trivial
  accessors. The root's depth 0 is built into `Arena.Depth`.
- `__eq__`, `merge` and `add_ancestor_copy_of` are left out. They rely on the
  node comparison and copy primitives (`add_deep_copy_of`,
  `add_shallow_copy_of`) of `hier_config/base.py`, which is not part of this
  model.
- `hier_config/base.py` is not part of this model. Its primitives are modelled
  by the behaviour the core relies on:
  - `add_child` always creates a new node. The loader forces duplicates, and
    `add_sectional_exiting` has just deleted the text.
  - `del_child_by_text` removes every child with that text.
  - `all_children()` is a pre-order walk.
  - `all_children_sorted()` visits children in a stable sort by
    `order_weight`.
  - `lineage()` runs from the outermost non-root ancestor to the node itself.
  - `get_children('startswith', p)` selects children of the root by prefix.
- The `re` module and `lineage_test` are uninterpreted functions passed in as
  parameters. Regular-expression syntax and the matching of lineage rules are
  not modelled.
- Python exceptions are modelled as `ok == false`. This covers the final
  `assert not in_banner` of `load_from_string` and the failing lookups of
  `load_from_dump`. The nodes created before the failure stay in the tree, as
  they do in the source.
- Node identity is an arena index. Python sets of nodes (`matched`,
  `yielded`) are sets of indices.
- Dump records keep `tags` and `comments` as sets. The source writes them as
  lists and reads them back into sets, so their order is not carried.
- Dump.RoundTrip: `order_weight` is not part of a record, so it is not
  carried through a dump. The round trip is stated for dumps loaded into an
  empty tree, where every weight is the default.
- Filter.FilteredSpec: states which nodes are yielded, that each is yielded
  once, and which nodes are matched. It does not state the order in which the
  generator yields them.
- Exiting.SectionedSpec: does not claim that running `add_sectional_exiting`
  twice equals running it once, because that is false in general. On a
  second run the exit lines of the first run are themselves in
  `all_children()`, and a rule whose lineage matches one of them gives it an
  exit child of its own. The exit nodes are also replaced by new ones. It
  states what the source promises after one run.
- Exiting.SectionedSpec: `all_children()` is taken as the walk computed
  before the pass starts. If the generator is lazy, nodes the pass adds (new
  exit lines) may also be visited in the same run; that is not modelled.
- Acl.StripRemarks: `acl.children.remove(entry)` removes the first child
  equal to `entry` under the node comparison of `hier_config/base.py`. The
  model removes the visited entry itself, by identity. For a list holding
  two equal entries the source may remove the earlier one instead, which can
  change which entries the iteration then passes over.
- The commented-out ACL calls in `load_from_string` are not modelled.
- The integers (sequence numbers, depths, order weights) are unbounded, as in
  Python.
- `hier_config_sample.py` is a usage script and is not modelled.

## Findings

| source | as written | input that shows it | evidently intended | confidence | as-written member | corrected member |
|---|---|---|---|---|---|---|
| hier_config/__init__.py:391-393 | `acl.children.remove(entry)` runs inside `for entry in acl.children`. Removing the current entry shifts the next one into its slot, so the iteration skips the entry after each removed remark. | An `ip access-list extended X` whose children are `remark one` and `remark two`: `remark two` survives. | Every `remark` entry is removed. | not executed | Acl.SecondRemarkSurvives | Acl.DropRemarksSpec |

`Acl.RemarksAsWritten`, `Acl.StripRemarks`, the lemmas named `AsWritten…`,
`Acl.UnremarkedAsWritten` and `Acl.UnremarkAcls` model the loop as written,
and `Config.HConfig.RemoveAclRemarks` uses them. `Acl.DropRemarks`,
`Acl.DropRemarkEntries`, `Acl.Unremarked` and `Acl.UnremarkedSpec` are the
corrected removal, and `Acl.UnremarkedAgreeAt` says where the two agree.
