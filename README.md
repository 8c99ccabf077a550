# kube-fluentd-operator, modelled in Dafny

kube-fluentd-operator lets every Kubernetes namespace keep its own fluentd
configuration. A config-reloader gathers these fragments from configmaps
(or fluentdconfig resources), rewrites and checks each namespace's fragment
through a fixed chain of processors, and assembles one fluentd
configuration. Fluentd then runs it with a few plugins of the project's own.

This project models the logic of both halves and proves what it promises:

- **Directives** (`fluentd.dfy`): a configuration is a tree of directives
  (name, tag, parameters, nested directives), with `Type()` the `@type`
  parameter. The directive type is a value here, so a rewrite "in place"
  is a function from the old tree to the new one.
- **The processor chain** (`processor.dfy`, `pipeline.dfy` and one file
  per processor): the generic walkers of `processor.go` are modelled with
  their visiting order, error propagation and depth behaviour. So are the
  processors `$labels(...)`, `{a,b}` expansion, `$thisns`, `$tag(...)` and
  retag, label renaming, namespace sharing through `@$from(...)`
  bridges, forbidden types and buffer paths, exception detection, mounted
  files and reusable `<plugin>` outputs. `Prepare`, `Process` and the
  validation trailer of `processor.go` chain them in the default order.
  The generation context that `Prepare` and `ExtractPlugins` update is a
  class.
- **Utilities and configuration** (`util.dfy`, `config.dfy`): trimming,
  fluentd-safe names, Ruby map literals, sorted keys, comment stripping;
  the reloader's flag validation as a `Config` class whose `Validate`
  normalises, canonicalises and parses fields in place.
- **Datasources** (`kube.dfy`, `configmap_ds.dfy`, `kube_multimap.dfy`,
  `kube_informer.dfy`): which namespaces are read, which configmaps hold
  their configuration and in what order, how containers and their
  emptyDir mounts are summarised, when a configmap change triggers a
  reload, and how the status annotation is written.
- **Fluentd plugins** (`truncate_tag.dfy`, `dedot.dfy`, `extract.dfy`,
  `logfmt.dfy`): the 32-character syslog tag shortener, the key de-dotter,
  the rule-based field extractor and the post-processing of the logfmt
  parser.

Shared pieces: `wrappers.dfy` (`Option`, `Result`), `strs.dfy` (Go and Ruby
string operations: split, join, index, replace, decimal text) and
`sorting.dfy` (an insertion sort standing for `sort.Strings`/`sort.Sort`,
proved sorted and a permutation).

Kubernetes objects the code reads through clients and listers (namespaces,
configmaps, pods) are plain values passed in. Foreign computations are
function parameters: SHA-1 in `util.Hash`, Go's and Ruby's regular
expression engines, `logrus.ParseLevel`, the logfmt tokenizer, the
fluentd parser and the template renderer. Go map iteration order, where
it shows, is a parameter listing the keys.

## Model

| member | source | states |
|---|---|---|
| Util.Trim | config-reloader/util/util.go:24-26 | the result neither starts nor ends with white space |
| Util.TrimIsInnerSlice | config-reloader/util/util.go:24-26 | the trimmed string is a contiguous slice of the input, and only white space lies outside it |
| Util.TrimUnchanged | config-reloader/util/util.go:24-26 | a string with no white space at either end is its own trim |
| Util.TrimIdempotent | config-reloader/util/util.go:24-26 | trimming twice is trimming once |
| Util.FluentdSafeNameProps | config-reloader/util/util.go:28-39 | one output rune per input rune; every output rune is a letter, digit, `-` or `_`; safe runes are kept in place; the name is unchanged exactly when all its runes are safe |
| Util.FluentdSafeNameIdempotent | config-reloader/util/util.go:28-39 | making a safe name safe again changes nothing |
| Util.MakeFluentdSafeName | config-reloader/util/util.go:28-39 | the rune-by-rune buffer loop computes the safe name |
| Util.SortedKeys | config-reloader/util/util.go:68-79 | the result is the key set, each key once, in ascending order |
| Util.KeysArray | config-reloader/util/util.go:69-75 | a fresh array holding each key of the map exactly once |
| Util.DistinctFromSetMultiset | config-reloader/util/util.go:68-79 | a sorted listing of a set has no repeats, so it is strictly ascending |
| Util.RubyEntries | config-reloader/util/util.go:48-50 | one `'k'=>'v'` entry per key, in the given key order, carrying the map's value |
| Util.RubyMapLiteralSingle | config-reloader/util/util.go:41-55 | a one-entry map renders as that entry in braces with no trailing comma |
| Util.RubyMapLiteralEmpty | config-reloader/util/util.go:42-44 | an empty map renders as `{}` |
| Util.ToRubyMapLiteral | config-reloader/util/util.go:41-55 | the buffer method renders the literal: entries in ascending key order, comma separated, in braces |
| Util.WriteEntries | config-reloader/util/util.go:46-50 | after the loop the buffer holds `{` then every entry followed by a comma |
| Util.TruncatedBuffer | config-reloader/util/util.go:51-52 | dropping the last comma and closing the brace yields the literal |
| Util.TerminatedJoin | config-reloader/util/util.go:48-51 | every entry followed by a comma is the comma-joined entries plus one comma |
| Util.TrimTrailingComment | config-reloader/util/util.go:115-124 | a line starting with `#` is only trimmed, so its comment is kept; any other line is cut at its first `#` (or kept whole without one) and then trimmed; the result holds `#` exactly when the line starts with `#` |
| Util.CommentCut | config-reloader/util/util.go:118-121 | the cut point of the code is the first `#` of the line, or its end when it has none |
| Util.TrimTrailingCommentNoHash | config-reloader/util/util.go:115-124 | a line without `#` is just trimmed |
| Sorting.SortStrings | config-reloader/util/util.go:76 | `sort.Strings` in place: the array ends up as the sorted permutation of its old contents |
| Processor.AugmentTag | config-reloader/processors/processor.go:182-189 | an empty tag stays empty; any other tag is kept as the first alternative and followed by its `_proc.` copy |
| Processor.AugmentTagAlternatives | config-reloader/processors/processor.go:182-189 | a single-pattern tag augments to exactly two space-separated alternatives: the tag and `_proc.` plus the tag |
| Processor.GenerationContext.constructor | config-reloader/processors/processor.go:22-26 | a fresh context has no referenced bridges, no processing flag and no plugins |
| Processor.GenerationContext.Snapshot | config-reloader/processors/processor.go:22-26 | the value snapshot holds exactly the three fields |
| Processor.GenAugment | config-reloader/processors/processor.go:28-35 | without a context or without the processing flag the directive is unchanged; otherwise only its tag changes, to the augmented tag |
| Processor.ApplyInPlace | config-reloader/processors/processor.go:108-124 | a successful walk keeps the number of directives and does not deepen the tree |
| Processor.ApplyLevel | config-reloader/processors/processor.go:109-114 | the first loop keeps the number of directives and their height |
| Processor.Descend | config-reloader/processors/processor.go:116-121 | the second loop keeps the number of directives and their height |
| Processor.LevelOrderCount | config-reloader/processors/processor.go:108-124 | the walk reaches every directive of the tree exactly once |
| Processor.SubtreeOrderCount | config-reloader/processors/processor.go:116-121 | the recursive loop reaches every directive below the level exactly once |
| Processor.RecorderSeesLevelOrder | config-reloader/processors/processor.go:108-124 | a callback that only records sees a whole level before any child, then each child's subtree in order, and the tree is unchanged |
| Processor.RecorderLevel | config-reloader/processors/processor.go:109-114 | the first loop hands over the level's directives in order |
| Processor.RecorderDescend | config-reloader/processors/processor.go:116-121 | the second loop hands over each child's subtree in order |
| Processor.FolderSeesLevelOrder | config-reloader/processors/processor.go:108-124 | a read-only callback folds its state over the directives in walk order and leaves the tree unchanged |
| Processor.FolderLevel | config-reloader/processors/processor.go:109-114 | the fold over one level |
| Processor.FolderDescend | config-reloader/processors/processor.go:116-121 | the fold over the subtrees |
| Processor.TagOnlyKeepsShape | config-reloader/processors/processor.go:108-124 | a callback that only rewrites tags keeps names, parameters and nesting of the whole tree |
| Processor.LevelRetagged | config-reloader/processors/processor.go:109-114 | the first loop of a tag-only callback only retags |
| Processor.DescendShape | config-reloader/processors/processor.go:116-121 | the second loop of a tag-only callback keeps the shape |
| Processor.NeverFailsWalk | config-reloader/processors/processor.go:108-124 | a callback that never errs makes a walk that never errs |
| Processor.NeverFailsLevel | config-reloader/processors/processor.go:109-114 | the same for the first loop |
| Processor.NeverFailsDescend | config-reloader/processors/processor.go:116-121 | the same for the second loop |
| Processor.FirstRejected | config-reloader/processors/processor.go:109-114 | none exactly when every directive is accepted; otherwise a directive of the list that is rejected |
| Processor.CheckerStopsAtFirstError | config-reloader/processors/processor.go:108-124 | a validating walk returns the error of the first rejected directive in walk order, and succeeds with the tree unchanged otherwise |
| Processor.CheckerLevel | config-reloader/processors/processor.go:109-114 | the first loop stops at the first rejected directive of the level |
| Processor.FirstRejectedAlike | config-reloader/processors/processor.go:109-114 | two lists that agree place by place on acceptance and on a reported field reject some directive together, and their first rejected directives report the same field |
| Processor.KeepsNamesNesting | config-reloader/processors/processor.go:108-124 | a callback that keeps each directive's name and children makes a successful walk keep the names and nesting of the whole tree |
| Processor.LevelRenamed | config-reloader/processors/processor.go:109-114 | the first loop of such a callback keeps names and children place by place |
| Processor.DescendNesting | config-reloader/processors/processor.go:116-121 | the second loop of such a callback keeps names and nesting of each subtree |
| Processor.SameNestingTrans | config-reloader/processors/processor.go:108-124 | keeping names and nesting over two walks in a row keeps them over both |
| Processor.CheckerDescend | config-reloader/processors/processor.go:116-121 | the second loop stops at the first rejected directive below |
| Processor.LevelSameChildren | config-reloader/processors/processor.go:109-114 | a callback that keeps children leaves every directive's children in place after the first loop |
| Processor.StatelessOutcome | config-reloader/processors/processor.go:108-124 | a stateless callback that keeps children fails the walk exactly when some directive in walk order is rejected, with that first directive's error |
| Processor.StatelessLevelOutcome | config-reloader/processors/processor.go:109-114 | the same for the first loop |
| Processor.StatelessDescendOutcome | config-reloader/processors/processor.go:116-121 | the same for the second loop |
| Processor.SameChildrenSubtree | config-reloader/processors/processor.go:116-121 | only the children of a level decide what the second loop walks |
| Processor.WalkPreserves | config-reloader/processors/processor.go:108-124 | a property the callback never changes holds everywhere after the walk exactly when it held everywhere before |
| Processor.LevelPreserves | config-reloader/processors/processor.go:109-114 | the same for the first loop |
| Processor.DescendPreserves | config-reloader/processors/processor.go:116-121 | the same for the second loop |
| Processor.WalkImage | config-reloader/processors/processor.go:108-124 | after a successful walk, each directive in walk order is the callback's image of the original one at that position |
| Processor.WalkFailsVia | config-reloader/processors/processor.go:108-124 | for a callback that also rewrites children, by a rewrite that never changes whether the callback accepts a directive, the walk fails exactly when the callback rejects some directive of the original tree |
| Processor.WalkVia | config-reloader/processors/processor.go:108-124 | for a callback that also rewrites children, each directive of the walk is the callback's image of the original one or of the rewritten child at that position |
| Processor.LevelImage | config-reloader/processors/processor.go:109-114 | the same for the first loop |
| Processor.DescendImage | config-reloader/processors/processor.go:116-121 | the same for the second loop |
| Processor.WalkEstablishes | config-reloader/processors/processor.go:108-124 | when every directive the callback returns satisfies a property, every directive of the walked tree does |
| Processor.LevelEstablishes | config-reloader/processors/processor.go:109-114 | the same for the first loop |
| Processor.DescendEstablishes | config-reloader/processors/processor.go:116-121 | the same for the second loop |
| Processor.SameShapeOrder | config-reloader/processors/processor.go:108-124 | trees of the same shape are walked through directives that agree position by position |
| Processor.Copy | config-reloader/processors/processor.go:102-106 | `copy` appends exactly the directive and hands it back for its children |
| Processor.TransformCopyIdentity | config-reloader/processors/processor.go:84-106 | `transform` with `copy` reproduces its input |
| Processor.NilSkipsNested | config-reloader/processors/processor.go:90-99 | a child whose callback returns nil contributes only what the callback appended; its children are not walked |
| Labels.ParseRecord | config-reloader/processors/labels.go:90-110 | an accepted `k=v` entry splits into exactly two parts, and its trimmed name and value are a valid label (`_container` needs a non-empty value, other names match the label-name pattern, values match the label-value pattern) |
| Labels.ParseRecordAccepts | config-reloader/processors/labels.go:90-110 | conversely, an entry whose two trimmed halves form a valid label is accepted with exactly those halves |
| Labels.FoldRecords | config-reloader/processors/labels.go:84-111 | the loop only adds labels, and only valid ones |
| Labels.FoldRecordsOk | config-reloader/processors/labels.go:84-111 | the loop succeeds exactly when every non-empty entry is accepted |
| Labels.FoldRecordsEmptyEntries | config-reloader/processors/labels.go:86-89 | empty entries are skipped without effect |
| Labels.ParseRecords | config-reloader/processors/labels.go:82-111 | the loop with early error return computes the fold |
| Labels.ParseEntry | config-reloader/processors/labels.go:85-110 | one turn of the loop: an empty entry is skipped, a rejected one ends the fold with its error, an accepted one is written into the labels and the fold goes on |
| Labels.ParseTagToLabels | config-reloader/processors/labels.go:70-118 | a tag without `$labels` is not a macro; a tag with it is never silently passed over; a parsed macro opens with `$labels(`, closes with `)` and yields at least one label, all valid |
| Labels.ParseTagToLabelsAsWritten | config-reloader/processors/labels.go:70-118 | the written guard agrees with the intended one on every tag that is a well-formed macro and on every tag that is not a macro |
| Labels.MacroLength | config-reloader/processors/labels.go:75-80 | a tag that opens and closes the macro is long enough for the slice of line 80 |
| Labels.UnclosedMacroAccepted | config-reloader/processors/labels.go:75-80 | `$labels(a=b` is accepted as written (label `a` with an empty value) and rejected by the corrected guard |
| Labels.ShortMacroPanics | config-reloader/processors/labels.go:75-80 | `$labels)` passes the written guard and then slices out of range |
| Labels.SafeLabelValueProps | config-reloader/processors/labels.go:151-155 | the safe value is never empty, holds no `.` or `-`, has the input's length when the input is not empty and keeps every other character in place |
| Labels.SafeLabelValueIdempotent | config-reloader/processors/labels.go:151-155 | making a safe value safe again changes nothing |
| Labels.Slots | config-reloader/processors/labels.go:131-146 | one slot per label name: the safe value when the label is given, `*` otherwise |
| Labels.LabelSlotsAreJoinedSlots | config-reloader/processors/labels.go:131-146 | without `_container` among the names, the loop writes the slots joined by `.` |
| Labels.PlainTagRewrittenAsWritten | config-reloader/processors/labels.go:187-205 | as written, a plain `<match kube.ns.**>` is rewritten into a label pattern |
| Labels.ReplaceLabelsKeepsPlainTags | config-reloader/processors/labels.go:187-205 | the corrected callback never fails, only changes tags, and leaves a directive whose tag is not a macro alone |
| Labels.ReplaceLabelsShape | config-reloader/processors/labels.go:187-205 | the callback keeps children, only rewrites tags and never fails |
| Labels.CollectLabelsShallow | config-reloader/processors/labels.go:159-178 | the collecting callback changes no directive and keeps children |
| Labels.MacroOf | config-reloader/processors/labels.go:160-171 | a directive other than a match or filter, or one with an empty tag, contributes no names; a tag without the `$labels` prefix contributes none either |
| Labels.CollectFold | config-reloader/processors/labels.go:159-179 | once an error stops the collection nothing more is gathered; otherwise a name is gathered exactly when it was already known or some directive, with no parse error before it, names it in its `$labels` tag |
| Labels.NamedAtCons | config-reloader/processors/labels.go:168-175 | a name is named in a list exactly when the head names it or the head parses and the tail names it |
| Labels.NamedAtErr | config-reloader/processors/labels.go:168-171 | after a head whose tag fails to parse, nothing in the list is named |
| Labels.NamedAtHead | config-reloader/processors/labels.go:173-175 | a name in the head's parsed macro is named at position 0 |
| Labels.NamedAtTail | config-reloader/processors/labels.go:168-175 | a name the tail names is named in the list when the head parses |
| Labels.NamedAtShift | config-reloader/processors/labels.go:168-175 | a name named past the head is named in the tail one place earlier |
| Labels.ReferencedNames | config-reloader/processors/labels.go:158-179 | a label name is referenced exactly when some match or filter `$labels` tag in walk order, with no tag before it that fails to parse, names it |
| Labels.NoMacroNoNames | config-reloader/processors/labels.go:179-182 | a configuration without any `$labels` match or filter tag references no label names |
| Labels.FirstMacroReferenced | config-reloader/processors/labels.go:168-175 | the names of a `$labels` tag with no parse error before it in walk order are all referenced, so the set is not empty |
| Labels.RetagDirectives | config-reloader/processors/labels.go:45-67 | the three generated directives: a `record_transformer` filter and a `rewrite_tag_filter` match on `kube.NS.*.*`, and a filter on `kube.NS.*.*.**` removing the helper field |
| Labels.ReplaceAll | config-reloader/processors/labels.go:187-206 | the second walk keeps the shape of the configuration, and each directive in walk order carries what the `$labels` rewrite, corrected (see Findings), makes of the input's directive at that place |
| Labels.LabelsProcess | config-reloader/processors/labels.go:157-227 | never fails; a configuration without any `$labels` match or filter tag comes back unchanged, as does one without referenced labels; otherwise the three generated directives, over the sorted label names without `_container`, come first, followed by the input with its shape kept and each directive, in walk order, rewritten by the `$labels` callback over those names; computes the corrected program (see Findings) |
| ExpandTags.ExpandFirstCurlyBraces | config-reloader/processors/expand_tags.go:83-104 | a tag without `{` is its own single expansion; a successful expansion yields at least one tag |
| ExpandTags.ExpandErrors | config-reloader/processors/expand_tags.go:85-98 | a tag with `{` fails exactly when the brace follows `#` or the first `}` does not close a non-empty group after it |
| ExpandTags.ExpandAt | config-reloader/processors/expand_tags.go:89-95 | a group at a known position expands to prefix + each trimmed term + suffix |
| ExpandTags.ExpandUnfold | config-reloader/processors/expand_tags.go:89-95 | the expansion in terms of the positions of the first `{` and the first `}` |
| ExpandTags.ExpandWrittenGroup | config-reloader/processors/expand_tags.go:83-104 | a written-out group `prefix{t1,...,tn}suffix` of plain terms expands to exactly `prefix ti suffix` in order |
| ExpandTags.ExpandShortens | config-reloader/processors/expand_tags.go:89-95 | every expansion of a tag with braces is at least two characters shorter |
| ExpandTags.Bracket | config-reloader/processors/expand_tags.go:93-95 | one result per term, each the term between prefix and suffix |
| ExpandTags.TrimAll | config-reloader/processors/expand_tags.go:94 | each term trimmed, in order |
| ExpandTags.ExpandPass | config-reloader/processors/expand_tags.go:51-59 | one pass never loses tags and leaves tags without braces alone |
| ExpandTags.ExpandPassShrinks | config-reloader/processors/expand_tags.go:51-59 | every tag still holding a brace after a pass is shorter than the longest brace tag before it |
| ExpandTags.ExpandPassDecreases | config-reloader/processors/expand_tags.go:49-60 | the length of the longest brace tag drops with every pass, so repeated passes end |
| ExpandTags.ExpandPassIdle | config-reloader/processors/expand_tags.go:49-60 | a pass over tags without braces changes nothing |
| ExpandTags.OpenMeasureZero | config-reloader/processors/expand_tags.go:49-60 | the measure is zero exactly when no tag holds a brace |
| ExpandTags.ExpandAll | config-reloader/processors/expand_tags.go:47-60 | the fully expanded tags hold no `{` and are at least as many as the input; tags without braces come back unchanged |
| ExpandTags.SingleTermGroupStopsExpansion | config-reloader/processors/expand_tags.go:49 | with the written growth test, `{x}.{y,z}` stops as `x.{y,z}`, where full expansion gives `x.y` and `x.z` |
| ExpandTags.ExpandTagsLoop | config-reloader/processors/expand_tags.go:47-60 | the loop with the corrected exit test computes the full expansion |
| ExpandTags.ExpandPassLoop | config-reloader/processors/expand_tags.go:51-59 | the inner loop computes one pass, first error winning |
| ExpandTags.ResumeIsPass | config-reloader/processors/expand_tags.go:51-59 | what the loop still has to do from tag `i` on, after the tags already expanded, is the pass over the remaining tags with those in front |
| ExpandTags.WithStateChildren | config-reloader/processors/expand_tags.go:111-117 | the first loop keeps every directive and changes only its children |
| ExpandTags.KeepWithStateIdentity | config-reloader/processors/expand_tags.go:106-129 | `applyRecursivelyWithState` with a callback that returns its directive reproduces the tree |
| ExpandTags.WithStateLevelAppend | config-reloader/processors/expand_tags.go:119-126 | the second loop's output is the callback outputs concatenated, so it splits over a split level |
| ExpandTags.ExpandTagsCallback | config-reloader/processors/expand_tags.go:30-73 | other directives pass unchanged; text outside the tags is a malformed-tag error; a single expansion keeps the directive; otherwise one clone per expanded tag, in order, each differing from the directive only in its tag |
| ExpandTags.ExpandedClonesHaveNoBraces | config-reloader/processors/expand_tags.go:62-72 | every clone's tag is free of `{` |
| ExpandTags.ExpandTagsProcess | config-reloader/processors/expand_tags.go:21-147 | with expansion enabled the pass succeeds exactly when `ExpandedTree` does and then returns the same tree — every match or filter replaced by its clones, in the order of its alternatives, after its children are expanded; it fails exactly when the callback refuses some directive of the tree, a tree with nothing to expand comes back unchanged, and every directive of the result at any depth comes from a directive of the input with the same name and parameters and its tag kept or replaced by one of its brace-free expansions; with expansion disabled the input comes back unchanged exactly when no match or filter tag holds `{`, and otherwise the walk fails with the disabled-pattern error; computes the corrected program (see Findings) |
| ExpandTags.WithStateIsTree | config-reloader/processors/expand_tags.go:106-129 | the walk that expands every child of a level before calling back on the level succeeds exactly when the one-directive-at-a-time expansion `ExpandedTree` does, and builds the same tree |
| ExpandTags.ExpandEnabled | config-reloader/processors/expand_tags.go:29-81 | the enabled branch: the walk fails exactly when the callback refuses a directive, keeps a tree the callback keeps, and yields only directives traced back to the input |
| ExpandTags.ExpandCallbackFacts | config-reloader/processors/expand_tags.go:30-73 | the callback's verdict ignores children, and every clone keeps the directive's children, name and parameters, with its tag kept or one of its expansions |
| ExpandTags.WithStateFails | config-reloader/processors/expand_tags.go:106-129 | for a callback that decides without looking at children, the walk fails exactly when the callback refuses some directive in walk order |
| ExpandTags.WithStateKeeps | config-reloader/processors/expand_tags.go:106-129 | when the callback keeps every directive of the tree, the walk gives back the tree |
| ExpandTags.WithStateTraced | config-reloader/processors/expand_tags.go:106-129 | after a successful walk, every directive of the result, at any depth, is related to some directive of the input by what the callback promises |
| Thisns.GoodPrefix | config-reloader/processors/thisns.go:31 | the namespace prefix is `kube.` followed by exactly the namespace |
| Thisns.Rewrite | config-reloader/processors/thisns.go:23-62 | the callback only ever changes a directive's tag |
| Thisns.ThisnsShape | config-reloader/processors/thisns.go:23-62 | the callback keeps children and only rewrites tags |
| Thisns.ThisnsDirective | config-reloader/processors/thisns.go:26-61 | a directive is accepted exactly when admitted (not a match or filter, a macro form, a `$labels` tag, or a brace-free tag under `kube.NS.` once `$thisns` is replaced); `**` and `$thisns` become `kube.NS.**`, `$thisns.X` becomes `kube.NS.X`, each augmented; every other accepted directive is unchanged |
| Thisns.ThisnsProcess | config-reloader/processors/thisns.go:22-70 | the pass fails exactly when some directive of the tree is not admitted; otherwise it keeps the shape of the configuration and each directive, in walk order, is what the `$thisns` callback makes of the input's directive at that place; computes the corrected program (see Findings) |
| Thisns.AcceptsAdmitted | config-reloader/processors/thisns.go:26-61 | the callback's acceptance is the admission predicate |
| Thisns.ReplaceKeepsPrefix | config-reloader/processors/thisns.go:55 | replacing `$thisns` leaves a `$`-free prefix in place |
| Thisns.UnderPrefixAccepted | config-reloader/processors/thisns.go:55-61 | a brace-free tag under `kube.NS.` passes unchanged |
| Thisns.ThisnsIdempotent | config-reloader/processors/thisns.go:23-62 | whatever the corrected callback writes it accepts unchanged on a second run |
| Thisns.RewrittenUnderPrefix | config-reloader/processors/thisns.go:33-43 | the rewritten macro tags lie under `kube.NS.` and hold no brace |
| Thisns.PrefixWithoutDotEscapes | config-reloader/processors/thisns.go:39-43 | as written, `$thisnsX` in namespace NS becomes `kube.NSX`, a tag of another namespace that the same check rejects when it sees it; the corrected callback rejects `$thisnsX` |
| UniqueRewriteTag.UniqueTag | config-reloader/processors/unique_rewrite_tag.go:84-86 | the unique tag lies under `kube.NS._retag.` and ends with the original tag |
| UniqueRewriteTag.UniqueTagInjective | config-reloader/processors/unique_rewrite_tag.go:84-86 | distinct rule tags give distinct unique tags |
| UniqueRewriteTag.AdaptRules | config-reloader/processors/unique_rewrite_tag.go:25-42 | the rules fail exactly when some rule has no tag or a placeholder; otherwise each rule gets its unique tag and other children are kept, in order |
| UniqueRewriteTag.AdaptRulesLoop | config-reloader/processors/unique_rewrite_tag.go:25-42 | the `for` loop with early error return computes the rule rewrite |
| UniqueRewriteTag.AdaptRule | config-reloader/processors/unique_rewrite_tag.go:26-41 | one turn of the loop fails exactly on a rule without a tag or with a placeholder, with that error; otherwise the rule gets its unique tag |
| UniqueRewriteTag.Adapt | config-reloader/processors/unique_rewrite_tag.go:19-47 | the adapted directive keeps its name, tag, number of children and grandchildren |
| UniqueRewriteTag.AdaptRetag | config-reloader/processors/unique_rewrite_tag.go:19-47 | a retag match fails exactly when one of its rules is bad; otherwise it becomes a `rewrite_tag_filter` whose rules carry unique tags |
| UniqueRewriteTag.AdaptCallbackFacts | config-reloader/processors/unique_rewrite_tag.go:19-47 | the first callback leaves no retag match behind and does not deepen the tree |
| UniqueRewriteTag.RewriteMacroWith | config-reloader/processors/unique_rewrite_tag.go:49-69 | the macro callback only ever changes the tag |
| UniqueRewriteTag.ShortMacroPanics | config-reloader/processors/unique_rewrite_tag.go:55-63 | as written, `$tag)` passes both checks and slices out of range; the corrected check reports it as malformed |
| UniqueRewriteTag.RewriteMacroSpec | config-reloader/processors/unique_rewrite_tag.go:55-66 | `$tag(X)` becomes the augmented unique tag of X |
| UniqueRewriteTag.RuleAndMacroAgree | config-reloader/processors/unique_rewrite_tag.go:39-41 | a rule emitting tag X and a filter on `$tag(X)` name the same tag |
| UniqueRewriteTag.MacroCallbackFacts | config-reloader/processors/unique_rewrite_tag.go:49-69 | the macro callback keeps children, only rewrites tags and leaves no `$tag` macro behind |
| UniqueRewriteTag.UniqueRewriteProcess | config-reloader/processors/unique_rewrite_tag.go:18-82 | the pass fails exactly when some directive of the input, at any depth, is a retag match with a rule lacking a tag or using a placeholder, or a match or filter with a malformed `$tag` macro; a successful pass keeps the number of top-level directives and of directives in the tree and leaves neither retag matches nor `$tag` macros anywhere; at each walk position the name is kept, the tag is the `$tag(X)` rewrite of the input's tag, a retag match becomes a `rewrite_tag_filter` whose rules carry the unique tag of their `tag` parameter, and every other directive but a rule keeps its parameters; computes the corrected program (see Findings) |
| UniqueRewriteTag.UniqueRewriteFails | config-reloader/processors/unique_rewrite_tag.go:71-79 | one of the two walks fails exactly when the retag callback refuses some directive of the input or the macro rewrite refuses some directive of the input |
| UniqueRewriteTag.AdaptFails | config-reloader/processors/unique_rewrite_tag.go:19-47 | the retag walk fails exactly when some directive of the input, at any depth, is a retag match with a bad rule |
| UniqueRewriteTag.MacroFails | config-reloader/processors/unique_rewrite_tag.go:49-79 | after a successful retag walk, the macro walk fails exactly when some directive of the input carries a malformed `$tag` macro |
| UniqueRewriteTag.AdaptKeepsMacroOutcome | config-reloader/processors/unique_rewrite_tag.go:19-47 | the retag walk changes no name and no tag, so the macro rewrite fails somewhere in its result exactly when it fails somewhere in the input |
| UniqueRewriteTag.MacroWalkFails | config-reloader/processors/unique_rewrite_tag.go:49-69 | the macro walk fails exactly when some directive it reaches has a malformed macro |
| UniqueRewriteTag.UniqueRewriteOutcome | config-reloader/processors/unique_rewrite_tag.go:18-82 | when both walks succeed, the top-level count and the tree size are kept, no retag match or `$tag` macro is left, and each walk position is rewritten as the two passes say |
| UniqueRewriteTag.UniqueRewriteImage | config-reloader/processors/unique_rewrite_tag.go:18-82 | after both walks, the directives of input and output agree position by position in walk order as the retag and macro rewrites say |
| UniqueRewriteTag.RewrittenPlace | config-reloader/processors/unique_rewrite_tag.go:21-69 | a directive rewritten by the retag callback (or as a rule of a retag match) and then by the macro callback ends up as the two rewrites say |
| UniqueRewriteTag.AdaptRewritesKids | config-reloader/processors/unique_rewrite_tag.go:21-46 | the retag callback changes children only by giving a retag match's rules their unique tags |
| UniqueRewriteTag.MacroRewritesKids | config-reloader/processors/unique_rewrite_tag.go:49-69 | the macro callback leaves children as they are |
| UniqueRewriteTag.MacroReadsNameAndTag | config-reloader/processors/unique_rewrite_tag.go:49-66 | the macro rewrite succeeds, and picks its tag, from the directive's name and tag alone |
| Relabel.NormalizeLabelName | config-reloader/processors/relabel.go:18-27 | a `@$` name is kept for the share processor; any other name becomes `@` … `-` followed by the namespace digest |
| Relabel.NormalizedIsSafe | config-reloader/processors/relabel.go:24-26 | with a digest of safe runes, a renamed label is `@` followed by letters, digits, `-` and `_` only |
| Relabel.NormalizeRelabel | config-reloader/processors/relabel.go:30-46 | a relabel output is accepted exactly when its target starts with `@`, and then only its `@label` changes, to the normalized name; other directives are kept |
| Relabel.RewriteLabelTag | config-reloader/processors/relabel.go:48-60 | a `<label>` is accepted exactly when its name starts with `@`, and then only its tag changes, to the normalized name; other directives are kept |
| Relabel.CallbackFacts | config-reloader/processors/relabel.go:30-60 | both callbacks keep children; the first keeps every `<label>` name as it was; each accepts exactly the directives its check admits |
| Relabel.RelabelProcess | config-reloader/processors/relabel.go:29-73 | the pass fails exactly when some relabel output names a target without `@` or some `<label>` has a name without `@`; the first such relabel output in walk order gives `bad label name: ` and its target, and only when there is none, the first such `<label>` gives `bad label name ` and its name followed by `for <label>, must start with @`; a successful pass keeps the number of directives, the names and the nesting, and each directive in walk order has the `@label` of a relabel output and the name of a `<label>` normalized, everything else unchanged |
| Relabel.RejectedIffNotAll | config-reloader/processors/relabel.go:62-70 | a walk rejects some directive exactly when not all satisfy the callback's check |
| Relabel.RelabelStillReachesLabel | config-reloader/processors/relabel.go:29-73 | a relabel output that sent events to a `<label>` still sends them to it after both are renamed |
| Relabel.Relabeled | config-reloader/processors/relabel.go:30-60 | the image of one directive under both callbacks keeps its name and children, and leaves a directive that is neither a relabel output nor a `<label>` unchanged |
| Relabel.FirstWalk | config-reloader/processors/relabel.go:62-65 | the first walk fails exactly when some relabel output has a target without `@`, with the message of the first one; otherwise it keeps names and nesting and maps each directive by the relabel callback |
| Relabel.LabelPass | config-reloader/processors/relabel.go:67-72 | after a successful first walk, the second fails exactly when some `<label>` name lacks `@`, with the message of the first one, and otherwise gives the per-position image of both callbacks with names and nesting kept |
| Relabel.SecondWalkFails | config-reloader/processors/relabel.go:67-70 | the second walk over the first walk's output rejects the same `<label>` directives as over the input, with the same first message |
| Relabel.SecondWalkImage | config-reloader/processors/relabel.go:67-72 | a successful second walk maps each directive of the input in walk order to its image under both callbacks |
| Relabel.FirstPassAlike | config-reloader/processors/relabel.go:30-60 | the relabel callback keeps each `<label>` directive's name and tag, so the second walk's check gives the same answer before and after it |
| Relabel.BothPasses | config-reloader/processors/relabel.go:30-60 | applying the relabel callback and then the label callback place by place gives the image of both callbacks |
| Share.MakeBridgeName | config-reloader/processors/share.go:42-44 | the bridge name starts with `@bridge-`, the sender and `__` |
| Share.BridgeNameInjective | config-reloader/processors/share.go:42-44 | for namespace names without `_`, a bridge name determines both namespaces |
| Share.ExtractSourceNs | config-reloader/processors/share.go:46-58 | a label that does not start with `@$from(` or has no `)` yields no sender |
| Share.ExtractFromMacro | config-reloader/processors/share.go:46-58 | `@$from(S)` gives back S for a trimmed S without `)` |
| Share.BridgesAreFromLabels | config-reloader/processors/share.go:71-84 | a bridge is collected exactly when some `<label @$from(S)>` of the tree names its sender |
| Share.FoldBridges | config-reloader/processors/share.go:71-84 | the fold over the walk collects the union of each directive's bridge |
| Share.SharePrepare | config-reloader/processors/share.go:70-92 | `Prepare` adds exactly the namespace's referenced bridges to the shared context, leaves its other fields alone and contributes no directives |
| Share.Relay | config-reloader/processors/share.go:124-130 | the relay is a childless `store` of type `relabel` aimed at the bridge |
| Share.StoreOut | config-reloader/processors/share.go:105-131 | one child becomes at most one child |
| Share.ShareStores | config-reloader/processors/share.go:105-132 | the loop fails exactly when some share store has no `with_namespace`; otherwise the children never grow in number or depth |
| Share.ShareStoresContents | config-reloader/processors/share.go:105-132 | after the loop no share store is left, every other child is kept, every share store whose bridge is referenced became a relay to it, and nothing else appears |
| Share.StoresLeaveNoStore | config-reloader/processors/share.go:105-132 | no share store is left among the rewritten children |
| Share.StoresKeep | config-reloader/processors/share.go:105-132 | every child that is not a share store is kept, and every share store whose bridge is referenced leaves a relay to it |
| Share.StoresAddNothing | config-reloader/processors/share.go:105-132 | every rewritten child is a kept child or the relay of a referenced share store |
| Share.ShareStoresLoop | config-reloader/processors/share.go:104-134 | the `for` loop with early error return computes the rewritten children |
| Share.StoreEmit | config-reloader/processors/share.go:106-131 | one turn of the loop fails exactly on a share store without `with_namespace`; otherwise it emits the child, its relay, or nothing |
| Share.SingleStore | config-reloader/processors/share.go:105-131 | a lone accepted child becomes its own output |
| Share.UnreferencedShareDropped | config-reloader/processors/share.go:122-131 | a share store whose bridge nobody references disappears |
| Share.ShareType | config-reloader/processors/share.go:95-136 | the callback never deepens a directive |
| Share.ShareTypeShallow | config-reloader/processors/share.go:95-136 | the callback does not deepen the tree |
| Share.BridgeFragment | config-reloader/processors/share.go:21-31 | the bridge fragment is one `rewrite_tag_filter` match on `kube.S.**` |
| Share.FromRewrite | config-reloader/processors/share.go:143-166 | a `$from` label is renamed to its bridge and gets the bridge fragment in front of its children, parameters kept; any other directive is unchanged |
| Share.FromWalk | config-reloader/processors/share.go:168 | the walk keeps the number of directives at each level |
| Share.FromWalkAppend | config-reloader/processors/share.go:168 | the walk splits over concatenated levels |
| Share.BridgeFragmentFixed | config-reloader/processors/share.go:156-163 | walking the inserted fragment changes nothing |
| Share.FromWalkIsCallbackThenChildren | config-reloader/processors/share.go:143-168 | each directive is rewritten first, then its new children are walked |
| Share.ShareProcess | config-reloader/processors/share.go:94-174 | a successful `Process` keeps the number of top-level directives |
| Share.ShareReachesLabel | config-reloader/processors/share.go:70-166 | both ends of a share meet: the sender's share store becomes a relay to `@bridge-S__D`, and the receiver's `$from(S)` label is renamed to exactly that bridge |
| Share.NullLabel | config-reloader/processors/share.go:181-191 | the placeholder is a `<label>` named after the bridge |
| Share.Trailer | config-reloader/processors/share.go:176-198 | the trailer holds one placeholder label for every listed bridge the namespace sends through, and nothing else |
| Share.TrailerLoop | config-reloader/processors/share.go:176-198 | the `for` loop computes the trailer |
| Share.TrailerDefinesRelays | config-reloader/processors/share.go:122-131 | every relay the rewrite creates has a placeholder label in the trailer |
| Destinations.MakeSafeBufferPath | config-reloader/processors/destinations.go:22-24 | the path starts with `/var/log/kfo-` and ends with `.buf` |
| Destinations.SafeBufferPathStaysInLogDir | config-reloader/processors/destinations.go:22-24 | the buffer file lies directly in `/var/log`, whatever path the user wrote |
| Destinations.ProhibitSources | config-reloader/processors/destinations.go:26-34 | a directive is refused exactly when it is a `<source>` not of the mounted-file type |
| Destinations.ProhibitTypes | config-reloader/processors/destinations.go:36-63 | only matches, stores and filters are checked: exec, exec_filter, stdout and rewrite_tag_filter are always refused; detect_exceptions only in a match; file unless allowed; fields_parser exactly when it changes tag prefixes; every other type passes |
| Destinations.SafePath | config-reloader/processors/destinations.go:67-78 | an empty path stays empty and only an empty one is empty afterwards |
| Destinations.RewriteBufferPath | config-reloader/processors/destinations.go:65-82 | name, tag, children and type are kept; an output's `buffer_path`, or a file buffer's `path`, gets the safe path and no other parameter changes; other directives are unchanged |
| Destinations.RewriteCallbackFacts | config-reloader/processors/destinations.go:65-82 | the rewrite never fails, keeps children and leaves the source check's verdict alone |
| Destinations.DestinationsProcess | config-reloader/processors/destinations.go:84-99 | the pass fails exactly when some directive uses a refused type or is a refused source, the type error of the first offending directive winning; on success each directive is the input's with its buffer path moved |
| Destinations.MoveThenCheckSources | config-reloader/processors/destinations.go:86-96 | after the buffer paths are moved, the source check fails exactly when some directive is a refused source; on success each directive is the buffer rewrite of the input's |
| Destinations.BufferPathsMoved | config-reloader/processors/destinations.go:84-99 | after the pass every non-empty buffer path is the safe path of what the user wrote; names, tags and types are kept |
| DetectExceptions.ExtractSelector | config-reloader/processors/detect_exceptions.go:91-96 | the selector is the tag's space-free first word: a prefix of the tag that is the whole tag or is followed by a space |
| DetectExceptions.SelectorOfAugmented | config-reloader/processors/detect_exceptions.go:91-96 | the selector of an augmented `t _proc.t` pattern is `t` |
| DetectExceptions.CopyParam | config-reloader/processors/detect_exceptions.go:98-103 | a non-empty parameter is copied, an empty one leaves the target unchanged |
| DetectExceptions.CopyParams | config-reloader/processors/detect_exceptions.go:72-76 | the listed non-empty parameters are copied; every other parameter, name, tag and children are kept |
| DetectExceptions.RewriteTagMatch | config-reloader/processors/detect_exceptions.go:46-60 | a `rewrite_tag_filter` match on the selector with one rule re-emitting under `<prefix>._proc.${tag}` |
| DetectExceptions.DetectMatch | config-reloader/processors/detect_exceptions.go:62-76 | a childless match on `<prefix>._proc.<selector>` |
| DetectExceptions.DetectBase | config-reloader/processors/detect_exceptions.go:62-68 | the generated match before copying is childless |
| DetectExceptions.DetectMatchParams | config-reloader/processors/detect_exceptions.go:62-76 | the generated match detects exceptions per container stream, strips the prefix, and carries exactly the filter's values of the five copied parameters |
| DetectExceptions.DetectEmit | config-reloader/processors/detect_exceptions.go:36-81 | any other directive is cloned and handed back for its children; a detect_exceptions filter becomes exactly the two generated matches and its children are dropped |
| DetectExceptions.DetectProcess | config-reloader/processors/detect_exceptions.go:35-85 | never fails, leaves no detect_exceptions filter at any depth, and returns a configuration without one unchanged |
| DetectExceptions.NoDetectLeft | config-reloader/processors/detect_exceptions.go:35-85 | no detect_exceptions filter survives the transform |
| DetectExceptions.GeneratedPairClean | config-reloader/processors/detect_exceptions.go:62-78 | the generated pair holds no detect_exceptions filter |
| DetectExceptions.CopiedClean | config-reloader/processors/detect_exceptions.go:37-41 | a cloned directive with clean children is clean |
| DetectExceptions.NoDetectUnchanged | config-reloader/processors/detect_exceptions.go:35-85 | a configuration without detect_exceptions filters comes back as it was |
| DetectExceptions.FilterBecomesTwoMatches | config-reloader/processors/detect_exceptions.go:78-80 | a detect_exceptions filter is replaced in place by the two generated matches, the rest of the level following as before |
| DetectExceptions.GeneratedMatchesChain | config-reloader/processors/detect_exceptions.go:43-68 | the rule's output tag is what the detect match catches, and stripping the prefix leaves `_proc.t`, the second alternative of the augmented pattern |
| DetectExceptions.AnyDetectFold | config-reloader/processors/detect_exceptions.go:23-29 | the fold over the walk finds a detect_exceptions filter exactly when one exists |
| DetectExceptions.DetectPrepare | config-reloader/processors/detect_exceptions.go:22-33 | `Prepare` sets `NeedsProcessing` exactly when a detect_exceptions filter appears at any depth, never clears it, leaves the context's other fields and contributes no directives |
| DetectExceptions.PrepareMatchesProcess | config-reloader/processors/detect_exceptions.go:22-85 | `Prepare` finds a filter exactly when `Process` has something to rewrite |
| MountedFile.MatchesByName | config-reloader/processors/mounted_file.go:88-101 | a selector on `_container` alone picks the container by name |
| MountedFile.MatchesAntitone | config-reloader/processors/mounted_file.go:88-101 | more selector labels match fewer containers |
| MountedFile.MergeMaps | config-reloader/processors/mounted_file.go:186-201 | the merged keys are the union; the pod's own labels win; added labels fill only the missing keys |
| MountedFile.MergeMapsLoop | config-reloader/processors/mounted_file.go:186-201 | the two loops compute the merge |
| MountedFile.HostPathLayout | config-reloader/processors/mounted_file.go:212-217 | the host path is the pod's emptyDir volume directory, the mount's sub-path, then the file path below the mount point |
| MountedFile.FirstMount | config-reloader/processors/mounted_file.go:112-116 | none exactly when no mount prefixes the path; otherwise the first mount that does |
| MountedFile.DefaultParse | config-reloader/processors/mounted_file.go:203-210 | a `<parse>` of type `none` |
| MountedFile.TailTag | config-reloader/processors/mounted_file.go:121 | the tag lies under `kube.NS.` |
| MountedFile.TailSource | config-reloader/processors/mounted_file.go:107-136 | a `tail` source (not itself a mounted-file source) reading the host path under the tail tag, with the given `<parse>` or the default one |
| MountedFile.MetadataFilter | config-reloader/processors/mounted_file.go:146-184 | a `record_modifier` filter on the tailed tag |
| MountedFile.ConvertOne | config-reloader/processors/mounted_file.go:106-139 | a container contributes nothing or a pair |
| MountedFile.ConvertOnePair | config-reloader/processors/mounted_file.go:106-139 | a container contributes a pair exactly when it matches and one of its mounts prefixes the path; the pair is a tail source below the first such mount and a filter on the very tag the source emits, inside the namespace |
| MountedFile.ConvertToFragment | config-reloader/processors/mounted_file.go:103-144 | the loop over containers concatenates what each contributes |
| MountedFile.ContainerFragment | config-reloader/processors/mounted_file.go:106-140 | the loop over mounts stops at the first one holding the file |
| MountedFile.LabelsOf | config-reloader/processors/mounted_file.go:46-49 | parsed labels are non-empty and valid |
| MountedFile.ReadSpec | config-reloader/processors/mounted_file.go:39-76 | missing labels, missing path or two or more `<parse>` children are errors; an accepted spec has the source's path, non-empty valid labels, and the single `<parse>` child when there is one |
| MountedFile.PrepareSpec | config-reloader/processors/mounted_file.go:35-86 | `Prepare` fails exactly when some top-level mounted-file source has a bad spec |
| MountedFile.MountedFilePrepare | config-reloader/processors/mounted_file.go:35-86 | the loop computes `Prepare` |
| MountedFile.KeepIrrelevant | config-reloader/processors/mounted_file.go:219-230 | the result keeps exactly the directives that are not mounted-file sources, and nothing else |
| MountedFile.KeepIrrelevantIdentity | config-reloader/processors/mounted_file.go:219-230 | without mounted-file sources the input comes back unchanged |
| MountedFile.MountedFileProcess | config-reloader/processors/mounted_file.go:219-230 | the loop computes the filtered top level |
| MountedFile.ReadOne | config-reloader/processors/mounted_file.go:38-82 | one turn of `Prepare`'s loop: a directive that is not a mounted-file source is passed over, an unreadable source ends the loop with its error, a readable one appends its converted directives |
| MountedFile.ResumeConvert | config-reloader/processors/mounted_file.go:78-81 | appending a readable source's directives leaves the rest of the loop to the remaining directives |
| ExtractPlugins.PluginsOf | config-reloader/processors/extract_plugins.go:18-24 | every collected entry is a `<plugin>` of the top level, stored under its own name |
| ExtractPlugins.PluginsOfLast | config-reloader/processors/extract_plugins.go:18-24 | every top-level plugin is kept under its name, the last definition of a name winning |
| ExtractPlugins.PluginsOfOnlyDefined | config-reloader/processors/extract_plugins.go:18-24 | a name no top-level plugin defines is not collected |
| ExtractPlugins.NonPlugins | config-reloader/processors/extract_plugins.go:18-24 | the remainder holds exactly the directives that are not plugins, from the input |
| ExtractPlugins.ExtractPlugins | config-reloader/processors/extract_plugins.go:13-29 | the context's plugins are replaced by the collected ones, the other context fields are kept, and the remainder is returned |
| ExtractPlugins.ExpandOne | config-reloader/processors/extract_plugins.go:41-71 | an output whose type names a plugin gets the plugin's children and type, keeps its own parameters, gains the plugin's other ones and loses `type`; any other directive is unchanged |
| ExtractPlugins.ExpandFrag | config-reloader/processors/extract_plugins.go:73 | when the walk ends, each directive of the level is the callback's image of the original, up to its children |
| ExtractPlugins.ExpandDir | config-reloader/processors/extract_plugins.go:73 | when the walk ends, the directive is the callback's image up to its children |
| ExtractPlugins.ExpandPlugins | config-reloader/processors/extract_plugins.go:35-79 | without plugins the input comes back; otherwise the tree is walked |
| ExtractPlugins.NoUseUnchanged | config-reloader/processors/extract_plugins.go:35-79 | a configuration that uses no plugin comes back unchanged |
| ExtractPlugins.SelfReferenceDiverges | config-reloader/processors/extract_plugins.go:52-54 | a plugin whose child uses the plugin makes the walk descend without end, however deep it may go |
| ExtractPlugins.SelfReferenceMatchDiverges | config-reloader/processors/extract_plugins.go:35-79 | a namespace match using such a plugin never finishes processing |
| Pipeline.RunProcess | config-reloader/processors/processor.go:137 | every processor but plugin expansion returns; detect_exceptions leaves no such filter; mounted files leave no mounted-file source at the top level |
| Pipeline.Process | config-reloader/processors/processor.go:127-144 | a nil context is an error; no processors return the input; computes the corrected program (see Findings) |
| Pipeline.ChainAppend | config-reloader/processors/processor.go:135-141 | running two lists of processors one after the other is running their concatenation, the first error ending it |
| Pipeline.ChainLast | config-reloader/processors/processor.go:135-143 | the last processor's output is the chain's output |
| Pipeline.DefaultChainNoDetect | config-reloader/processors/processor.go:193-206 | whatever a namespace wrote, a successful default chain leaves no detect_exceptions filter |
| Pipeline.EndsInDetect | config-reloader/processors/processor.go:135-143 | a chain ending in detect_exceptions leaves no such filter |
| Pipeline.ProcessLoop | config-reloader/processors/processor.go:127-144 | the loop computes the chain |
| Pipeline.PrepareOne | config-reloader/processors/processor.go:172 | only the mounted-file processor adds directives in `Prepare` |
| Pipeline.PrepareAll | config-reloader/processors/processor.go:168-179 | `Prepare` fails exactly when a mounted-file processor is listed and fails, with its error; without one it adds nothing |
| Pipeline.Ran | config-reloader/processors/processor.go:170-177 | the processors that run form a prefix of the list, all of it when nothing fails |
| Pipeline.PrepareStage | config-reloader/processors/processor.go:171-172 | one processor's `Prepare`: share adds the namespace's bridges, detect_exceptions raises the processing flag when it finds a filter, mounted files produce their directives, and the plugins are untouched |
| Pipeline.Prepare | config-reloader/processors/processor.go:163-180 | a nil context is an error and changes nothing; otherwise the output is the accumulated one and the context records the bridges and flag of exactly the processors that ran |
| Pipeline.PrepareLoop | config-reloader/processors/processor.go:168-179 | the loop accumulates output and context updates processor by processor |
| Pipeline.PrepareStep | config-reloader/processors/processor.go:170-177 | one turn of the loop extends output and record by one processor |
| Pipeline.RecordedSnoc | config-reloader/processors/processor.go:170-177 | the record of one more processor adds its contribution |
| Pipeline.PrefixStep | config-reloader/processors/processor.go:170-177 | the same, for the prefix of the list the loop has run |
| Pipeline.RanAllOk | config-reloader/processors/processor.go:170-177 | when every processor succeeds, every processor runs |
| Pipeline.RanUpTo | config-reloader/processors/processor.go:174-176 | the processors run up to and including the first failing one |
| Pipeline.DefaultPrepareOutput | config-reloader/processors/processor.go:193-206 | with the default processors, the main file gets exactly the mounted-file processor's output |
| Pipeline.DefaultPrepareFailure | config-reloader/processors/processor.go:193-206 | when the mounted-file processor fails, share and detect_exceptions never run |
| Pipeline.DefaultOrder | config-reloader/processors/processor.go:193-206 | mounted files are eighth, share ninth and detect_exceptions last, each once |
| Pipeline.PrepareAllOnce | config-reloader/processors/processor.go:168-179 | a list with one mounted-file processor passes its output through |
| Pipeline.Trailers | config-reloader/processors/processor.go:147-160 | a nil context gives no trailer |
| Pipeline.ValidationTrailer | config-reloader/processors/processor.go:147-160 | the loop concatenates every processor's trailer |
| Pipeline.DefaultTrailer | config-reloader/processors/processor.go:193-206 | with the default processors the trailer is the share processor's |
| Pipeline.TrailersOne | config-reloader/processors/processor.go:152-159 | a list with one share processor has its trailer |
| Pipeline.TrailersNone | config-reloader/processors/processor.go:152-159 | a list without the share processor adds no placeholder |
| Config.Lower | config-reloader/config/config.go:270 | the result has the input's length and maps each ASCII upper-case letter to its lower-case form, everything else kept |
| Config.ParseFluentdLogLevel | config-reloader/config/config.go:269-286 | succeeds exactly when the lower-cased level is one of fatal, error, warn, info, debug, trace or is `warning`; the result is then a fluentd level, the lower-cased input, with `warning` read as `warn`; otherwise the error names the quoted input |
| Config.ParseFluentdLogLevelCanonical | config-reloader/config/config.go:110-114 | a level that was parsed parses again to itself, so storing it back in the configuration is stable |
| Config.AnnotationRegex | config-reloader/config/config.go:86 | the anchored annotation pattern matches exactly the names that start with an ASCII letter or digit and hold no line break |
| Config.IdMatchesAsWrittenIffAlnum | config-reloader/config/config.go:85 | the unanchored ID pattern accepts exactly the IDs that hold at least one ASCII letter or digit |
| Config.IdCheckTooLoose | config-reloader/config/config.go:116-118 | `my id!` passes the ID check although it is not a hostname, while every valid hostname passes |
| Config.ValidBufferMountFolderIsSafeName | config-reloader/config/config.go:289-297 | a buffer folder is valid exactly when making it a fluentd-safe name leaves it unchanged |
| Config.HasValidBufferMountFolder | config-reloader/config/config.go:289-297 | the rune loop returns true exactly when every rune is a letter, digit, `-` or `_` |
| Config.ReadEntry | config-reloader/config/config.go:155-168 | a pair read from an entry has a non-empty key and value, neither holding a single quote |
| Config.ReadEntryCases | config-reloader/config/config.go:155-168 | an entry is malformed exactly when it is non-empty and does not split into two at `=`; it yields a pair exactly when, besides, both trimmed sides are valid, and the pair is the trimmed sides |
| Config.FoldPairs | config-reloader/config/config.go:154-169 | every key and value kept is non-empty and free of single quotes |
| Config.ReadEntries | config-reloader/config/config.go:152-154 | one reading per comma-separated entry, in order |
| Config.FoldPairsStops | config-reloader/config/config.go:160-162 | after the first malformed entry nothing further is read |
| Config.FoldPairsOk | config-reloader/config/config.go:154-169 | the list is accepted exactly when no entry is malformed |
| Config.FoldPairsSound | config-reloader/config/config.go:166-168 | every pair kept is the reading of some entry of the list |
| Config.FoldPairsLast | config-reloader/config/config.go:166-168 | in an accepted list, the value kept for a key is that of its last valid pair |
| Config.ReadPairsMeaning | config-reloader/config/config.go:150-173 | for a comma-split flag: accepted iff no entry is malformed, every kept pair is the trimmed reading of an entry, and the last pair of each key wins |
| Config.ReadPairs | config-reloader/config/config.go:154-169 | the entry loop computes exactly the pairs and the verdict of the specification above |
| Config.SplitNoSeparator | config-reloader/config/config.go:152 | text without a comma is a list of one entry |
| Config.SingleEntryList | config-reloader/config/config.go:152-169 | a one-entry flag reads that entry alone |
| Config.MetaValuesEmptyValue | config-reloader/config/config_test.go:27 | `a=` reads to no pairs, so the meta-key check fails |
| Config.MetaValuesWithoutEquals | config-reloader/config/config_test.go:23-24 | `.` and `'` are malformed metadata |
| Config.MetaValuesTwoEquals | config-reloader/config/config_test.go:28 | `a==` is malformed metadata |
| Config.EntryPlain | config-reloader/config/config.go:159-168 | `a=b` reads to the pair a, b |
| Config.TrimSpaced | config-reloader/config/config.go:163-164 | the sides of a pair lose their surrounding spaces |
| Config.EntrySpaced | config-reloader/config/config.go:159-168 | `c = d` reads to the pair c, d |
| Config.FoldPairsExample | config-reloader/config/config.go:154-169 | a pair, a skipped entry and a pair fold to both pairs, accepted |
| Config.MetaValuesTrimmedPairs | config-reloader/config/config.go:150-173 | `a=b,,c = d` reads to a=b and c=d: the empty entry is skipped and the sides are trimmed |
| Config.BadSelectorMessageNamesSelector | config-reloader/config/config.go:191 | the label-selector error as written depends only on the metadata flag, while the corrected one determines the selector it reports |
| Config.FirstCheckError | config-reloader/config/config.go:116-139 | no error exactly when the ID, the configmap annotation, the buffer folder, the status annotation, the fs directory and the meta-values checks all pass; computes the corrected program (see Findings) |
| Config.SelectorStage | config-reloader/config/config.go:176-201 | the label-selector stage changes nothing but the parsed selector |
| Config.MetaStage | config-reloader/config/config.go:150-174 | the metadata stage changes nothing but the two parsed maps |
| Config.Checks | config-reloader/config/config.go:116-201 | the checks after the log levels change nothing but the two parsed maps |
| Config.ValidateNormalizes | config-reloader/config/config.go:95-102 | a negative interval becomes 60 and a negative timeout 30, whatever else happens; other values are kept |
| Config.ValidateChangesOnlyDerived | config-reloader/config/config.go:94-204 | validation changes only the two numbers, the two log levels and the two parsed maps |
| Config.ValidateAccepts | config-reloader/config/config.go:94-204 | validation succeeds exactly when both levels parse, every check passes, the metadata reads to at least one pair and a multimap selector is given and well formed; the stored level is then canonical and the parsed maps hold the flags' pairs |
| Config.ValidateIdempotent | config-reloader/config/config.go:94-204 | validating a validated configuration again changes nothing and succeeds again |
| Config.DefaultsValidate | config-reloader/config/config.go:62-83 | the default settings pass validation, given a reloader log level the logging library knows, with a negative interval reset to 60 |
| Config.Config.Default | config-reloader/config/config.go:62-83 | the fields hold the default values |
| Config.Config.Validate | config-reloader/config/config.go:94-204 | the fields and the error are those of the validation specification applied to the old fields; computes the corrected program (see Findings) |
| Config.Normalized | config-reloader/config/config.go:95-102 | negative intervals and timeouts become the defaults, non-negative ones are kept, and no other setting changes |
| Config.Config.Normalize | config-reloader/config/config.go:95-102 | the fields become the normalized old fields |
| Config.Config.CheckNames | config-reloader/config/config.go:116-139 | the error is the first failing check of the ID, the annotations, the buffer folder, the fs directory and the meta values |
| Config.Config.RunChecks | config-reloader/config/config.go:116-201 | the fields and the error are those of the checks applied to the old fields |
| Config.Config.ReadSelector | config-reloader/config/config.go:176-201 | the fields and the error are those of the label-selector stage applied to the old fields |
| Kube.NeedsProcessing | config-reloader/datasource/kube.go:112-124 | a namespace is processed exactly when no namespace list is configured or it is in the list |
| Kube.Listed | config-reloader/datasource/kube.go:117-123 | the search over the list succeeds exactly when some entry equals the namespace |
| Kube.ConfigMapNameChoice | config-reloader/datasource/kube.go:69-80 | the configmap is the one the annotation names when that is non-empty, otherwise the default one; there is none, and the namespace is unconfigured, exactly when both are empty |
| Kube.MakeVolume | config-reloader/datasource/kube.go:169-179 | a mount yields a host mount exactly when the pod has an emptyDir volume of that name, and the host mount carries the mount's path and volume name |
| Kube.HostMounts | config-reloader/datasource/kube.go:153-158 | at most one host mount per volume mount, each the host mount of one of them |
| Kube.HostMountsNonEmpty | config-reloader/datasource/kube.go:153-160 | a container has host mounts exactly when one of its mounts is of an emptyDir volume |
| Kube.LongerOrEqualIsTotalPreorder | config-reloader/datasource/kube.go:136-138 | ordering mounts by decreasing path length is total and transitive, so it can be sorted by |
| Kube.PodMinis | config-reloader/datasource/kube.go:144-164 | at most one container summary per container, each with at least one host mount |
| Kube.Minis | config-reloader/datasource/kube.go:143-166 | every container summary of the pod list has a host mount |
| Kube.PodMinisMembers | config-reloader/datasource/kube.go:144-164 | a container is summarised exactly when it has a host mount |
| Kube.PodMinisNamed | config-reloader/datasource/kube.go:149 | every summary is named after a container of the pod |
| Kube.SortedMinisAppend | config-reloader/datasource/kube.go:162 | appending summaries keeps each one matched to its unsorted counterpart |
| Kube.ContainerMini | config-reloader/datasource/kube.go:145-163 | no summary exactly when the container has no host mount; otherwise the summary is the pod's and container's data with the host mounts permuted into longest-path-first order |
| Kube.MinisOfPod | config-reloader/datasource/kube.go:144-164 | one summary per container with host mounts, in container order, each with its mounts sorted longest first |
| Kube.ConvertPodToMinis | config-reloader/datasource/kube.go:140-167 | one summary per container with host mounts, pod by pod and container by container, each a permutation of its mounts sorted longest first |
| ConfigMapDS.AreLabelsInAllowList | config-reloader/datasource/kubedatasource/configmap.go:228-243 | true exactly when the allowlist is empty or every label is in it with an equal value |
| ConfigMapDS.ItemsSubset | config-reloader/datasource/kubedatasource/configmap.go:233-243 | a map's pairs are among another's exactly when each of its keys is in the other with the same value |
| ConfigMapDS.ChangeFilterIsSelector | config-reloader/datasource/kubedatasource/configmap.go:206-210 | because the arguments are passed as (selector, configmap labels), the change filter on a labelled configmap is exactly the equality selector the lister applies |
| ConfigMapDS.Entries | config-reloader/datasource/kubedatasource/configmap.go:139-147 | at most one entry per configmap, each the `fluent.conf` entry of one of them |
| ConfigMapDS.EntriesAppend | config-reloader/datasource/kubedatasource/configmap.go:139-147 | the entries of two lists are those of the first followed by those of the second |
| ConfigMapDS.EntriesSingle | config-reloader/datasource/kubedatasource/configmap.go:140-146 | a configmap contributes its `fluent.conf` entry, or nothing when it has none |
| ConfigMapDS.ReadConfig | config-reloader/datasource/kubedatasource/configmap.go:137-149 | the `fluent.conf` entries of the configmaps that have one, in order, joined by newlines |
| ConfigMapDS.DetectConfigMapName | config-reloader/datasource/kubedatasource/configmap.go:157-175 | a namespace missing from the cache is an error naming it; otherwise the annotation's configmap, then the configured default, and with neither the namespace is not configured |
| ConfigMapDS.ByName | config-reloader/datasource/kubedatasource/configmap.go:104-107 | every listed name is a key, and each key's configmap has that name |
| ConfigMapDS.ByNameListed | config-reloader/datasource/kubedatasource/configmap.go:104-107 | each configmap kept by name is one of the listed configmaps |
| ConfigMapDS.ByNameLast | config-reloader/datasource/kubedatasource/configmap.go:105 | the last configmap of a name is the one kept |
| ConfigMapDS.IndexByName | config-reloader/datasource/kubedatasource/configmap.go:102-107 | the loop builds the by-name index and the list of names |
| ConfigMapDS.Names | config-reloader/datasource/kubedatasource/configmap.go:106 | the names of the configmaps, one per configmap, in order |
| ConfigMapDS.Selected | config-reloader/datasource/kubedatasource/configmap.go:98 | the listed configmaps are exactly the namespace's configmaps that the selector matches |
| ConfigMapDS.Pick | config-reloader/datasource/kubedatasource/configmap.go:109-111 | one configmap per name, the one indexed by that name, in the order of the names |
| ConfigMapDS.SortedNamesKnown | config-reloader/datasource/kubedatasource/configmap.go:108-110 | every sorted name is indexed, so the read-back never finds a missing name |
| ConfigMapDS.MultimapMapsSorted | config-reloader/datasource/kubedatasource/configmap.go:102-111 | as many configmaps as were selected, their names a sorted permutation of the selected names |
| ConfigMapDS.MultimapMapsSelected | config-reloader/datasource/kubedatasource/configmap.go:96-111 | every configmap read is one of the namespace's and matches the selector |
| ConfigMapDS.MultimapMapsComplete | config-reloader/datasource/kubedatasource/configmap.go:96-111 | when the selected names are distinct, every selected configmap is read |
| ConfigMapDS.FetchMultimap | config-reloader/datasource/kubedatasource/configmap.go:102-111 | the index, sort and read-back loops compute the name-ordered selection above |
| ConfigMapDS.ReadBack | config-reloader/datasource/kubedatasource/configmap.go:109-111 | the read-back loop yields the configmap of each sorted name, in order |
| ConfigMapDS.SortedCopy | config-reloader/datasource/kubedatasource/configmap.go:108 | `sort.Strings` yields the sorted permutation of the names |
| ConfigMapDS.Lookup | config-reloader/datasource/kubedatasource/configmap.go:124-130 | at most one configmap, of the namespace and of that name; none exactly when no configmap has it |
| ConfigMapDS.NamedMaps | config-reloader/datasource/kubedatasource/configmap.go:112-131 | an error exactly when the namespace lookup fails, with its message; otherwise at most one configmap, the one of the detected name |
| ConfigMapDS.GetFluentdConfig | config-reloader/datasource/kubedatasource/configmap.go:82-90 | the configuration is the joined entries of the fetched configmaps, or the fetch error |
| ConfigMapDS.DefaultConfigMapRead | config-reloader/datasource/kubedatasource/configmap.go:112-131 | an unannotated namespace with a default configmap reads that configmap's entry, or nothing when it lacks one |
| ConfigMapDS.HandleCMChange | config-reloader/datasource/kubedatasource/configmap.go:193-216 | a change notifies exactly when the namespace is processed and, in multimap mode, the configmap has labels the selector matches, or otherwise it is the namespace's detected configmap |
| ConfigMapDS.MultimapReadIsWatched | config-reloader/datasource/kubedatasource/configmap.go:96-111 | in multimap mode a change to any labelled configmap that is read triggers a reload |
| ConfigMapDS.NamedReadIsWatched | config-reloader/datasource/kubedatasource/configmap.go:112-131 | outside multimap mode a change to the configmap that is read triggers a reload |
| KubeMultimap.Annotated | config-reloader/datasource/kube_multimap.go:29-30 | only configmaps carrying the annotation key, each one of the list |
| KubeMultimap.ReadConfig | config-reloader/datasource/kube_multimap.go:27-42 | the loop's text is a newline before each `fluent.conf` entry of the annotated configmaps, in order, those without the entry skipped |
| KubeMultimap.PrefixedIsJoin | config-reloader/datasource/kube_multimap.go:33 | the text is empty for no entries and otherwise a newline followed by the entries joined by newlines |
| Strs.JoinSnoc | config-reloader/datasource/kube_multimap.go:33 | joining one more part appends the separator and that part |
| KubeMultimap.ReadConfigLeadingNewline | config-reloader/datasource/kube_multimap.go:27-42 | a non-empty configuration starts with a newline |
| KubeMultimap.ContainsProcessableMap | config-reloader/datasource/kube_multimap.go:124-131 | true exactly when some configmap carries the annotation key |
| KubeMultimap.ReadConfigNeedsProcessableMap | config-reloader/datasource/kube_multimap.go:27-42 | without a processable map no configmap is read |
| KubeMultimap.NeedsProcessing | config-reloader/datasource/kube_multimap.go:101-122 | a namespace is processed exactly when it has a processable map and, with a namespace list, is in the list |
| KubeInformer.NamesOf | config-reloader/datasource/kube_informer.go:350-352 | the names of the namespaces, one per namespace, in order |
| KubeInformer.SelectedNames | config-reloader/datasource/kube_informer.go:300-306 | a name is listed exactly when some namespace of that name matches the selector |
| KubeInformer.DefaultNameNamespaces | config-reloader/datasource/kube_informer.go:323-335 | the loop fails, with Go's nil-dereference message, exactly when a configmap without the default name lives in a namespace the cache does not hold; otherwise a namespace is found exactly when it holds a configmap with the default name, or holds a configmap and carries the configmap annotation |
| KubeInformer.CandidatesMeaning | config-reloader/datasource/kube_informer.go:289-355 | an explicit list wins, then the namespace selector (failing when it does not parse), then the fluentdconfig resources for the `crd` datasource, then configmap discovery (with the resources added in migration mode; failing exactly when a configmap's namespace is missing from the cache or, in migration mode, the resources fail), and otherwise every namespace |
| KubeInformer.EmptyAnnotatedNamespaceMissed | config-reloader/datasource/kube_informer.go:323-335 | a namespace holding no configmap is not found by discovery, whatever its annotation says |
| KubeInformer.Dedup | config-reloader/datasource/kube_informer.go:357-364 | the same names, each at most once |
| KubeInformer.DedupDistinct | config-reloader/datasource/kube_informer.go:357-364 | a list without duplicates is kept as it is |
| KubeInformer.DedupLoop | config-reloader/datasource/kube_informer.go:357-364 | the loop keeps the first occurrence of each name, in order |
| KubeInformer.DiscoverNamespaces | config-reloader/datasource/kube_informer.go:289-368 | an error exactly when choosing the candidates fails; otherwise the candidates, each once, in ascending order |
| KubeInformer.DiscoveredIsSortedSet | config-reloader/datasource/kube_informer.go:356-367 | deduplicating then sorting gives the ascending list of the set of names |
| KubeInformer.StatusAnnotations | config-reloader/datasource/kube_informer.go:256-271 | the status key is added only when absent and the status non-empty, removed only when present and the status empty, otherwise kept with its old value; every other annotation is unchanged |
| KubeInformer.StatusIdempotent | config-reloader/datasource/kube_informer.go:256-271 | writing the same status twice is writing it once |
| KubeInformer.StaleStatusKept | config-reloader/datasource/kube_informer.go:262-266 | a status that is already set keeps its old value when a new non-empty status is reported |
| KubeInformer.UsableConfig | config-reloader/datasource/kube_informer.go:173-187 | the text used is the rendered template when rendering succeeds, else the raw text, and the namespace is skipped exactly when that text is empty or does not parse |
| TruncateTag.DropTrailingEmpty | base-image/plugins/out_truncating_remote_syslog.rb:39 | the fields kept are a prefix of the split, end with a non-empty field, and only empty fields are dropped |
| TruncateTag.Shifted | base-image/plugins/out_truncating_remote_syslog.rb:41-44 | a leading `_proc` field is dropped and anything else is kept |
| TruncateTag.Foreign | base-image/plugins/out_truncating_remote_syslog.rb:46-52 | a tag of at most 32 characters is kept; a longer one becomes its first 31 characters followed by `*` |
| TruncateTag.Kube | base-image/plugins/out_truncating_remote_syslog.rb:55-78 | the shortened `ns.pod.container` name never exceeds 32 characters |
| TruncateTag.TruncateTag | base-image/plugins/out_truncating_remote_syslog.rb:38-79 | every tag is shortened to at most 32 characters |
| TruncateTag.KubeFits | base-image/plugins/out_truncating_remote_syslog.rb:59-62 | a kube tag whose three names fit becomes `ns.pod.container` |
| TruncateTag.KubeShortPod | base-image/plugins/out_truncating_remote_syslog.rb:64-69 | when the pod name is no longer than the excess, the joined name is cut to 31 characters and marked with `*`, 32 in all |
| TruncateTag.KubeCutsPod | base-image/plugins/out_truncating_remote_syslog.rb:72-78 | otherwise only the pod name is shortened, by the excess plus one, and marked with `*`; the result is exactly 32 characters, so the final cut never happens |
| TruncateTag.ProcPrefix | base-image/plugins/out_truncating_remote_syslog.rb:41-52 | a `_proc` prefix is ignored for the kube check but kept in a foreign tag |
| TruncateTag.KubeSegments | base-image/plugins/out_truncating_remote_syslog.rb:54-57 | only the namespace, pod and container fields of a kube tag decide the result |
| TruncateTag.Rescue | base-image/plugins/out_truncating_remote_syslog.rb:12-13 | the fallback is a prefix of the tag, at most 32 characters, and a short tag itself |
| TruncateTag.Format | base-image/plugins/out_truncating_remote_syslog.rb:9-17 | the tag handed to syslog is at most 32 characters |
| Dedot.ReplaceDots | base-image/plugins/filter_dedot.rb:40 | with a dot-free separator no dot remains, and a dot-free key is unchanged |
| Dedot.ReplaceDotsConcat | base-image/plugins/filter_dedot.rb:40 | replacing dots distributes over concatenation |
| Dedot.ReplaceDotsIsSplitJoin | base-image/plugins/filter_dedot.rb:40 | replacing every dot is splitting the key at its dots and joining the fields with the separator |
| Dedot.KeyIndex | base-image/plugins/filter_dedot.rb:49 | the first position of the key, or -1 exactly when it is absent |
| Dedot.KeyIndexFirst | base-image/plugins/filter_dedot.rb:49 | the first position holding a key is its position |
| Dedot.KeyIndexSameKeys | base-image/plugins/filter_dedot.rb:49 | the position of a key depends only on the keys |
| Dedot.Lookup | base-image/plugins/filter_dedot.rb:49 | a lookup finds nothing exactly when no entry has the key |
| Dedot.Put | base-image/plugins/filter_dedot.rb:49 | writing a key grows the hash by at most one entry |
| Dedot.PutLookup | base-image/plugins/filter_dedot.rb:49 | after writing a key, reading it gives the value written and every other key reads as before |
| Dedot.PutShape | base-image/plugins/filter_dedot.rb:49 | each entry after a write is the written one or the old one at its place, and keys stay distinct |
| Dedot.PutKeeps | base-image/plugins/filter_dedot.rb:49 | a property of the old entries and of the written one holds of every entry after the write |
| Dedot.PutNew | base-image/plugins/filter_dedot.rb:49 | a new key is appended at the end |
| Dedot.Build | base-image/plugins/filter_dedot.rb:37-50 | a fresh hash filled with some pairs has at most one entry per pair |
| Dedot.BuildSnoc | base-image/plugins/filter_dedot.rb:39-50 | each iteration of the loop writes one more pair |
| Dedot.Renamed | base-image/plugins/filter_dedot.rb:39-49 | one renamed pair per entry of the hash |
| Dedot.DeDotItems | base-image/plugins/filter_dedot.rb:46 | one element per array element |
| Dedot.DeDotValue | base-image/plugins/filter_dedot.rb:36-53 | scalars are kept, hashes stay hashes and arrays stay arrays |
| Dedot.DeDotRecord | base-image/plugins/filter_dedot.rb:36-53 | a record is de-dotted as a hash |
| Dedot.DeDotHash | base-image/plugins/filter_dedot.rb:36-53 | the loop filling a fresh hash computes the de-dotted hash |
| Dedot.DeDotField | base-image/plugins/filter_dedot.rb:42-47 | the recursion on one value computes its de-dotted value |
| Dedot.DeDotArray | base-image/plugins/filter_dedot.rb:46 | the map over an array de-dots its hash elements and keeps the others |
| Dedot.BuildLookup | base-image/plugins/filter_dedot.rb:39-50 | each key of the fresh hash holds the value of its last pair |
| Dedot.LastValueAt | base-image/plugins/filter_dedot.rb:49 | the last pair of a key decides its value |
| Dedot.BuildUnique | base-image/plugins/filter_dedot.rb:37-50 | the keys of a fresh hash are distinct |
| Dedot.BuildKeeps | base-image/plugins/filter_dedot.rb:37-50 | every entry of a fresh hash is one of the pairs written |
| Dedot.BuildDistinct | base-image/plugins/filter_dedot.rb:37-50 | pairs with distinct keys fill the hash in order, unchanged |
| Dedot.LaterWins | base-image/plugins/filter_dedot.rb:39-50 | keys that coincide after the replacement collapse to one entry holding the de-dotted value of the later one |
| Dedot.DeDotInOrder | base-image/plugins/filter_dedot.rb:36-53 | when no two keys coincide after the replacement, the hash keeps its length and order, each entry renamed and de-dotted |
| Dedot.DeDotClean | base-image/plugins/filter_dedot.rb:36-53 | with a dot-free separator every hash key reachable through hashes and arrays of hashes is dot-free and distinct |
| Dedot.CleanUnchanged | base-image/plugins/filter_dedot.rb:36-53 | a value without such dotted keys is left as it is |
| Dedot.DeDotIdempotent | base-image/plugins/filter_dedot.rb:36-53 | with a dot-free separator, de-dotting twice is de-dotting once |
| Dedot.ArrayInArrayKeepsDots | base-image/plugins/filter_dedot.rb:46 | a hash inside an array inside an array keeps its dotted keys |
| Dedot.Configure | base-image/plugins/filter_dedot.rb:15-20 | configuration fails, with the source's message, exactly when de_dot is on and the separator holds a dot |
| Dedot.FilterAsWritten | base-image/plugins/filter_dedot.rb:28-34 | as written the filter returns a record exactly when de_dot is on, and then the de-dotted record |
| Dedot.DisabledDropsEvents | base-image/plugins/filter_dedot.rb:30 | with de_dot off the default configuration is accepted and every event is dropped |
| Dedot.Filter | base-image/plugins/filter_dedot.rb:28-34 | the record passes unchanged with de_dot off and is de-dotted otherwise, after which no dotted key remains; computes the corrected program (see Findings) |
| Dedot.FilterIdempotent | base-image/plugins/filter_dedot.rb:15-34 | a configured filter applied twice gives what it gives once |
| Extract.Inner | image/plugins/filter_extract.rb:19 | the text between the slashes, and nothing for a lone slash |
| Extract.NormalizePattern | image/plugins/filter_extract.rb:17-30 | a warning exactly when the value is not between slashes; the source starts with `(?`: the body itself when it already does, else the body behind `(?m)` |
| Extract.NormalizeSourceStable | image/plugins/filter_extract.rb:25-28 | normalising a normalised source again leaves it as it is |
| Extract.Get | image/plugins/filter_extract.rb:55 | a key is found exactly when some entry of the record carries it, and the value read is that entry's |
| Extract.Put | image/plugins/filter_extract.rb:56 | writing a key the record lacks appends one entry at the end; writing a present key keeps every entry in its place and changes only entries with that key |
| Extract.PutGet | image/plugins/filter_extract.rb:56 | after the write, the key reads as the written value and every other key reads as before |
| Extract.PutKeys | image/plugins/filter_extract.rb:56 | the keys after the write are the keys before plus the written one |
| Extract.PutDistinct | image/plugins/filter_extract.rb:56 | a record whose keys are distinct keeps them distinct |
| Extract.ApplyRule | image/plugins/filter_extract.rb:54-57 | a rule whose key is present and whose pattern matches writes the substitution into its target (overwritten in place or appended at the end); otherwise the record is unchanged |
| Extract.RuleChangesTarget | image/plugins/filter_extract.rb:54-57 | one rule removes no key, adds at most its target, leaves every other key's value and keeps keys distinct |
| Extract.OnlyTargetsChange | image/plugins/filter_extract.rb:51-62 | no field is removed, only target fields are added, every field no rule targets keeps its value, and distinct keys stay distinct |
| Extract.KeepsOrder | image/plugins/filter_extract.rb:51-62 | the fields the record had keep their positions and order; fields the rules add follow them |
| Extract.ApplyRulesAppend | image/plugins/filter_extract.rb:53-58 | running two lists of rules in turn is running their concatenation |
| Extract.LaterSeesEarlier | image/plugins/filter_extract.rb:53-58 | a later rule reading the field an earlier one wrote matches and substitutes against the written text |
| Extract.Record.constructor | image/plugins/filter_extract.rb:51 | the record holds the given fields |
| Extract.Filter | image/plugins/filter_extract.rb:51-62 | the record is updated in place by the rules in order and returned |
| Logfmt.LeadingDigits | image/plugins/parser_logfmt.rb:32 | the longest run of digits at the front of the text |
| Logfmt.LeadingDigitsAll | image/plugins/parser_logfmt.rb:32 | a text of digits is its own run |
| Logfmt.SkipSpaces | image/plugins/parser_logfmt.rb:32 | a suffix of the text that does not start with white space |
| Logfmt.ToIDecimal | image/plugins/parser_logfmt.rb:32 | `to_i` reads back the decimal text of a natural number |
| Logfmt.ToINegative | image/plugins/parser_logfmt.rb:32 | and with a minus sign in front, its negation |
| Logfmt.TimeOf | image/plugins/parser_logfmt.rb:31-35 | every value but a bare `true` has an integer time |
| Logfmt.Get | image/plugins/parser_logfmt.rb:28 | a lookup finds nothing exactly when no field has the key, and otherwise a field of the record |
| Logfmt.Without | image/plugins/parser_logfmt.rb:28 | the record without the key: no field has it, every other field is kept, nothing is added |
| Logfmt.StrictReject | image/plugins/parser_logfmt.rb:18-25 | the loop finds a bare key exactly when the record holds a `true` value |
| Logfmt.Parse | image/plugins/parser_logfmt.rb:16-38 | the outcome is the one the parse specification gives |
| Logfmt.ExtractTime | image/plugins/parser_logfmt.rb:28-37 | the time extraction computes the time and record the specification gives, or the raise |
| Logfmt.StrictBareKey | image/plugins/parser_logfmt.rb:18-25 | in strict mode a bare key yields the whole text as the message, at the engine time |
| Logfmt.TimeKeyRemoved | image/plugins/parser_logfmt.rb:27-37 | the time field never reaches the yielded record, and every other field of the converted record does |
| Logfmt.TimeRule | image/plugins/parser_logfmt.rb:28-35 | no time field gives the engine time; an integer or a string gives its `to_i`; a bare `true` raises, naming the key |
| Logfmt.RaisedOnlyForTrue | image/plugins/parser_logfmt.rb:28-35 | a raise happens only when a time key is set and the converted record holds `true` under it |

## Left out

- Kubernetes clients, informers and listers, CRD installation and polling, `migrationmode.go` and the fluentdconfig datasource: the objects they return are inputs. Errors of a lister whose results are inputs (`List`, `Get` of pods) are not modelled, and neither are the multimap `List` error at config-reloader/datasource/kubedatasource/configmap.go:99-101 or the namespace `Get` error at config-reloader/datasource/kube_informer.go:155-158.
- `GetNamespaces` of the three datasources is modelled through its decisions (which namespaces are processed, which configmap is read, how its text is built, how containers are summarised, when a namespace is skipped); assembling the `NamespaceConfig` records and the config hashes is plumbing and is left out.
- `updateChan` notifications, `handlePodChange`, `matchAny`, the controller and updater loops, signals and `util.ExecAndGetOutput`: concurrency and process control. `HandleCMChange` answers whether a notification is sent.
- File, process and network I/O: `util.WriteStringToFile`, the generator, the fluentd validator and reloader, metrics and the fs datasource.
- The template engine: `template.Render` is a parameter (`UsableConfig` takes the rendered text or its absence); the retag and share fragments of `unique_rewrite_tag.go` and `share.go` are fixed directive values. The error that `fluentd.ParseString` could return for the rendered retag template of `labels.go` (config-reloader/processors/labels.go:219-222) is not modelled: the generated text is a fixed value that the model takes as parsed.
- `util.Hash` (SHA-1) is a function parameter. It is deterministic by construction, and no property depends on its output beyond that.
- Go's `regexp` for `tagRegex` (the tag scanner of `expand_tags.go`) is a parameter. The label-name, label-value, ID and annotation patterns are written as character-class predicates.
- Ruby's `Regexp` in `filter_extract.rb` is a parameter (`Engine`): matching and `gsub` are uninterpreted. A pattern that fails to compile is not modelled. Neither are backreferences in the de_dot separator, which `gsub` would interpret.
- `Logfmt.parse`, the type converters and `Engine.now` are parameters of the logfmt model. Keys are strings and values are `true`, strings or integers; float values, and `to_i` on text with `_` separators, are not modelled.
- `logrus.ParseLevel` and kingpin's `ParseFlags` are parameters or left out; `Config.Config.Validate` takes the level parser.
- `path.Join` is a `/` join without cleaning; `MountedFile.HostPathLayout` states the layout that join gives.
- `strings.ToLower` is ASCII only (`Config.Lower`), and `%q` quoting does not escape (`Config.GoQuote`).
- Strings are sequences of characters: Go's byte-indexed slicing and Ruby's character indexing agree on ASCII text, which is what the tags, names and keys handled here are; multi-byte text is not modelled separately.
- Directive trees are values. The Go code updates `*Directive` nodes in place, but every rewrite is a function from the old tree to the new one, so aliasing between directives is not modelled; the code clones before it shares.
- The fluentd plugin lifecycle (`configure` beyond the separator check, `start`, `shutdown`, the `RemoteSyslogOutput` delegation) and the `in_just_exit.rb` plugins.
- `Dedot`: records are values, so "the input record is not modified" holds by construction; a record key that is not a string is not modelled.
- `TruncateTag.Format`: the `rescue` branch is modelled (`TruncateTag.Rescue`) but never taken for tags the model can represent (character sequences); Ruby's `String#split` raising `ArgumentError` on a tag that is not valid UTF-8 is not modelled.
- `ExtractPlugins.ExpandFrag`: a `fuel` bound limits the depth of the walk; `None` stands for the walk that never returns, which a plugin referring to itself causes (`ExtractPlugins.SelfReferenceDiverges`).
- `Pipeline.Process` and `Pipeline.RunProcess` require the generation context to be set, because plugin expansion dereferences it; the generator always sets it.
- `Share.ShareProcess`: states only that the number of top-level directives is kept; what happens to share stores and `$from` labels is stated by `Share.ShareStoresContents`, `Share.FromRewrite` and `Share.ShareReachesLabel`.
- `Share.ShareType`: states only that the callback does not deepen a directive; its effect on the children is `Share.ShareStoresContents`.
- `Share.ExtractSourceNs` follows the code: `@$from ( a ) ` yields no sender, whereas config-reloader/processors/share_test.go:45 expects `a`.
- `Labels`: errors of the walk that collects referenced labels are ignored, as the code discards the walk's result.
- `MountedFile.LabelsOf`: the combination "no error and no labels" that label parsing cannot return is mapped to an error.
- `Util.TrimTrailingComment` follows the code: a `#` at position 0 is kept.
- `Util.IsLetter`, `Util.IsDigit`: ASCII and Latin-1 letters and ASCII digits only, where Go's `unicode.IsLetter`/`unicode.IsDigit` know all of Unicode; this narrows `Util.MakeFluentdSafeName`, `Config.HasValidBufferMountFolder` and `Relabel.NormalizeLabelName` for other scripts.
- `Extract.Record`: field values are strings (entries `Field(key, value)` of `string`s), so the `TypeError` that image/plugins/filter_extract.rb:55 raises on a non-string field, such as an Integer, is not modelled (`Extract.ApplyRule`, `Extract.Filter`).
- `KubeInformer.Candidates`: the `parse` parameter standing for `labels.Parse` returns an equality map, so the `!=`, `in`, `notin` and existence selectors that `labels.Parse` also accepts are not modelled.
- `KubeInformer.DefaultNameNamespaces`: `d.nslist.Get` answering nil for a namespace the cache does not hold makes the Go code panic on the nil dereference; the model returns that panic as the error `ErrNilNamespace`, and the process crash itself is not modelled.
- `Thisns.ThisnsProcess`, `Config.Config.Validate`, `Config.FirstCheckError`, `Labels.LabelsProcess`, `ExpandTags.ExpandTagsProcess`, `UniqueRewriteTag.UniqueRewriteProcess`, `Dedot.Filter`, `Config.SelectorStage` (and `Config.ValidateSpec`, which uses it: the corrected message for a bad label selector) and `Pipeline.Process` compute the corrected program of "## Findings", not the code as written; the as-written behaviour is modelled and exhibited by the members named there.
- `KubeInformer.StaleStatusKept` and `KubeInformer.EmptyAnnotatedNamespaceMissed` record what the code does (a set status is never replaced by a new non-empty one; an annotated namespace without any configmap is not discovered through configmaps); whether either is intended is unclear, so they are not findings.
- `ConfigMapDS.ChangeFilterIsSelector`: `handleCMChange` passes the selector as the label set and the configmap's labels as the allowlist, which makes the filter the selector itself; this is recorded, not treated as a defect.

## Findings

| source | as written | input that shows it | evidently intended | confidence | as-written member | corrected member |
|---|---|---|---|---|---|---|
| config-reloader/processors/labels.go:75-78 | the guard rejects a `$labels` tag only when it is both too short and lacks the closing `)` | `$labels(a=b` is accepted as label `a` with an empty value; `$labels)` slices out of range and panics | reject a tag that is too short or lacks the `)` | not executed | Labels.ParseTagToLabelsAsWritten (Labels.UnclosedMacroAccepted, Labels.ShortMacroPanics) | Labels.ParseTagToLabels |
| config-reloader/processors/labels.go:196-202 | a tag that is not a `$labels` macro parses to no labels and no error, and is then replaced by the generated tag | `<match kube.ns.**>` is rewritten to a `_labels` tag | leave tags without `$labels` alone | not executed | Labels.ReplaceLabelsAsWritten (Labels.PlainTagRewrittenAsWritten) | Labels.ReplaceLabels (Labels.ReplaceLabelsKeepsPlainTags) |
| config-reloader/processors/expand_tags.go:49 | expansion stops as soon as a pass does not increase the number of tags | `{x}.{y,z}` stops as `x.{y,z}` | expand until no tag holds a brace | not executed | ExpandTags.ExpandAsWritten (ExpandTags.SingleTermGroupStopsExpansion) | ExpandTags.ExpandAll (ExpandTags.ExpandTagsLoop) |
| config-reloader/processors/thisns.go:39-43 | a tag starting with `$thisns` has the macro replaced without requiring a following `.` | `$thisnsx` becomes `kube.NSx`, outside the namespace's tag space | accept `$thisns` only as a whole tag segment | not executed | Thisns.RewriteAsWritten (Thisns.PrefixWithoutDotEscapes) | Thisns.RewriteIntended (Thisns.ThisnsDirective, Thisns.ThisnsIdempotent) |
| config-reloader/processors/unique_rewrite_tag.go:55-63 | a tag starting with `$tag` and ending with `)` is sliced from index 5 | `$tag)` slices out of range and panics | require the `$tag(` prefix | not executed | UniqueRewriteTag.RewriteMacroAsWritten (UniqueRewriteTag.ShortMacroPanics) | UniqueRewriteTag.RewriteMacro (UniqueRewriteTag.RewriteMacroSpec) |
| config-reloader/config/config.go:85,116 | the ID pattern is not anchored, so any ID holding one letter or digit matches | `my id!` passes as a hostname | match the whole ID | not executed | Config.IdMatchesAsWritten (Config.IdCheckTooLoose) | Config.ValidID (Config.FirstCheckError, Config.ValidateAccepts) |
| config-reloader/config/config.go:191 | the label-selector error prints the metadata flag | a malformed `--label-selector=a` with `--meta-values=x=y` reports `bad label selector: x=y` | print the label selector | not executed | Config.BadSelectorMessageAsWritten (Config.BadSelectorMessageNamesSelector) | Config.BadSelectorMessage (Config.BadSelectorMessageNamesSelector) |
| base-image/plugins/filter_dedot.rb:30 | `de_dot(record) if @de_dot` evaluates to nil when de_dot is off, and a filter returning nil drops the event | `de_dot false` drops every record | pass the record through unchanged | not executed | Dedot.FilterAsWritten (Dedot.DisabledDropsEvents) | Dedot.Filter (Dedot.FilterIdempotent) |
