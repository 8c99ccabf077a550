/** Multi-line exception grouping (config-reloader/processors/detect_exceptions.go).
    A `<filter @type detect_exceptions>` cannot be a filter in fluentd, so it
    becomes two outputs: a `rewrite_tag_filter` that re-emits the selected
    events under a hashed prefix, and a `detect_exceptions` match on that
    prefix that strips it again and re-emits the grouped events as
    `_proc.<tag>`. `Prepare` asks every other processor to augment its tags
    so that they also catch the `_proc.` copies. */
module DetectExceptions {
  import opened Wrappers
  import opened Fluentd
  import opened Strs
  import opened Processor

  const KeyDetExc: string := "detexc"

  /** The five parameters carried over to the generated match. */
  const CopiedParams: seq<string> := ["languages", "multiline_flush_interval", "max_lines", "max_bytes", "message"]

  predicate IsDetectExceptions(d: Directive)
  {
    d.name == "filter" && d.Type() == "detect_exceptions"
  }

  predicate NotDetect(d: Directive)
  {
    !IsDetectExceptions(d)
  }

  /** `extractSelector`: the text before the first space. */
  function ExtractSelector(tag: string): (r: string)
    ensures ' ' !in r && HasPrefix(tag, r)
    ensures r == tag || tag[|r|] == ' '
  {
    if ' ' in tag then tag[..IndexOf(tag, ' ')] else tag
  }

  /** The selector undoes `augmentTag`: the first alternative of an augmented
      tag is the tag itself. */
  lemma SelectorOfAugmented(tag: string)
    requires ' ' !in tag
    ensures ExtractSelector(AugmentTag(tag)) == tag
  {
    if tag != "" {
      var a := AugmentTag(tag);
      assert a[|tag|] == ' ' && a[..|tag|] == tag;
    }
  }

  /** `makeTagPrefix`: `hash` is `util.Hash`. */
  function TagPrefix(hash: (string, string) -> string, selector: string): string
  {
    hash(KeyDetExc, selector)
  }

  /** `copyParam`: copies a non-empty value, and nothing else. */
  function CopyParam(name: string, src: Directive, dest: Directive): (r: Directive)
    ensures src.Param(name) != "" ==> r == dest.SetParam(name, src.Param(name))
    ensures src.Param(name) == "" ==> r == dest
  {
    if src.Param(name) != "" then dest.SetParam(name, src.Param(name)) else dest
  }

  /** `copyParam` for each name of `names`, in order. */
  function CopyParams(names: seq<string>, src: Directive, dest: Directive): (r: Directive)
    ensures r.name == dest.name && r.tag == dest.tag && r.nested == dest.nested
    ensures forall k :: k in names && src.Param(k) != "" ==> r.Param(k) == src.Param(k)
    ensures forall k :: (k !in names || src.Param(k) == "") ==> r.Param(k) == dest.Param(k)
    decreases |names|
  {
    if |names| == 0 then dest
    else CopyParams(names[1..], src, CopyParam(names[0], src, dest))
  }

  /** The `rewrite_tag_filter` match: everything the selector catches is
      re-emitted under `<prefix>._proc.`. */
  function RewriteTagMatch(selector: string, prefix: string): (d: Directive)
    ensures d.name == "match" && d.tag == selector && d.Type() == "rewrite_tag_filter"
    ensures |d.nested| == 1 && d.nested[0].name == "rule" && d.nested[0].nested == []
    ensures d.nested[0].Param("tag") == prefix + "." + ProcessedPrefix + ".${tag}"
  {
    Directive("match", selector, map["@type" := "rewrite_tag_filter"],
      [Directive("rule", "", map["key" := "_dummy", "pattern" := "/ZZ/", "invert" := "true",
                                 "tag" := prefix + "." + ProcessedPrefix + ".${tag}"], [])])
  }

  /** The `detect_exceptions` match on the re-emitted events. */
  function DetectMatch(dir: Directive, selector: string, prefix: string): (d: Directive)
    ensures d.name == "match" && d.tag == prefix + "." + ProcessedPrefix + "." + selector && d.nested == []
  {
    CopyParams(CopiedParams, dir, DetectBase(selector, prefix))
  }

  function DetectBase(selector: string, prefix: string): (d: Directive)
    ensures d.name == "match" && d.nested == []
  {
    Directive("match", prefix + "." + ProcessedPrefix + "." + selector,
              map["@type" := "detect_exceptions", "stream" := "container_info", "remove_tag_prefix" := prefix], [])
  }

  /** The generated match detects exceptions on the stream of each
      container, strips the prefix, and carries exactly the non-empty values
      of the five parameters from the filter. */
  lemma DetectMatchParams(dir: Directive, selector: string, prefix: string)
    ensures var d := DetectMatch(dir, selector, prefix);
      d.Type() == "detect_exceptions" &&
      d.Param("stream") == "container_info" && d.Param("remove_tag_prefix") == prefix &&
      (forall k :: k in CopiedParams ==> d.Param(k) == dir.Param(k))
  {
    DetectMatchFixed(dir, selector, prefix);
    DetectMatchCopied(dir, selector, prefix);
  }

  lemma DetectMatchFixed(dir: Directive, selector: string, prefix: string)
    ensures var d := DetectMatch(dir, selector, prefix);
      d.Type() == "detect_exceptions" &&
      d.Param("stream") == "container_info" && d.Param("remove_tag_prefix") == prefix
  {
    var base := DetectBase(selector, prefix);
    assert base.Param("@type") == "detect_exceptions";
    assert base.Param("stream") == "container_info";
    assert base.Param("remove_tag_prefix") == prefix;
    assert "@type" !in CopiedParams && "stream" !in CopiedParams && "remove_tag_prefix" !in CopiedParams;
  }

  lemma DetectMatchCopied(dir: Directive, selector: string, prefix: string)
    ensures forall k :: k in CopiedParams ==> DetectMatch(dir, selector, prefix).Param(k) == dir.Param(k)
  {
    var base := DetectBase(selector, prefix);
    forall k | k in CopiedParams ensures base.Param(k) == "" {
      assert |k| != 5 && |k| != 6 && |k| != 17;
    }
  }

  /** The callback of `detectExceptionsState.Process` given to `transform`:
      a clone of any other directive, handed back for its children; the two
      matches for a detect_exceptions filter, whose children are dropped. */
  function DetectEmit(hash: (string, string) -> string, dir: Directive): (e: Emit)
    ensures e.Valid()
    ensures !IsDetectExceptions(dir) ==> e == Copy(dir)
    ensures IsDetectExceptions(dir) ==>
      e.focus.None? &&
      e.out == [RewriteTagMatch(ExtractSelector(dir.tag), TagPrefix(hash, ExtractSelector(dir.tag))),
                DetectMatch(dir, ExtractSelector(dir.tag), TagPrefix(hash, ExtractSelector(dir.tag)))]
  {
    if !IsDetectExceptions(dir) then Copy(dir)
    else
      var selector := ExtractSelector(dir.tag);
      var prefix := TagPrefix(hash, selector);
      Emit([RewriteTagMatch(selector, prefix), DetectMatch(dir, selector, prefix)], None)
  }

  function Emitter(hash: (string, string) -> string): Emitter
  {
    (d: Directive) => DetectEmit(hash, d)
  }

  /** `detectExceptionsState.Process`. */
  function DetectProcess(ctx: ProcessorContext, input: Fragment): (r: Result<Fragment>)
    ensures r.Ok?
    ensures Everywhere(r.value, NotDetect)
    ensures Everywhere(input, NotDetect) ==> r.value == input
  {
    var f := Emitter(ctx.foreign.hash);
    assert ValidEmitter(f);
    NoDetectLeft(ctx.foreign.hash, input);
    NoDetectUnchanged(ctx.foreign.hash, input);
    Ok(DoTransform(input, f))
  }

  /** No detect_exceptions filter survives, at any depth. */
  lemma {:induction false} NoDetectLeft(hash: (string, string) -> string, input: Fragment)
    ensures ValidEmitter(Emitter(hash))
    ensures Everywhere(DoTransform(input, Emitter(hash)), NotDetect)
    decreases input
  {
    var f := Emitter(hash);
    assert ValidEmitter(f);
    if |input| > 0 {
      NoDetectLeft(hash, input[1..]);
      if IsDetectExceptions(input[0]) {
        GeneratedPairClean(hash, input);
      } else {
        if |input[0].nested| > 0 {
          NoDetectLeft(hash, input[0].nested);
        }
        CopiedClean(hash, input);
      }
    }
  }

  lemma GeneratedPairClean(hash: (string, string) -> string, input: Fragment)
    requires |input| > 0 && IsDetectExceptions(input[0]) && ValidEmitter(Emitter(hash))
    requires Everywhere(DoTransform(input[1..], Emitter(hash)), NotDetect)
    ensures Everywhere(DoTransform(input, Emitter(hash)), NotDetect)
  {
    var f := Emitter(hash);
    var e := DetectEmit(hash, input[0]);
    assert f(input[0]) == e;
    PairShape(hash, input[0]);
    NilHead(input, f);
    PairClean(e.out[0], e.out[1], DoTransform(input[1..], f));
    assert e.out == [e.out[0], e.out[1]];
  }

  /** What the callback makes of a detect_exceptions filter: two matches,
      neither of them a filter, the first holding one empty rule. */
  lemma PairShape(hash: (string, string) -> string, dir: Directive)
    requires IsDetectExceptions(dir)
    ensures var e := DetectEmit(hash, dir);
      e.focus.None? && |e.out| == 2 && NotDetect(e.out[0]) && NotDetect(e.out[1]) &&
      |e.out[0].nested| == 1 && e.out[0].nested[0].name == "rule" && e.out[0].nested[0].nested == [] &&
      e.out[1].nested == []
  {
  }

  /** Two generated matches in front of a clean level keep it clean. */
  lemma PairClean(a: Directive, b: Directive, rest: Fragment)
    requires NotDetect(a) && NotDetect(b) && Everywhere(rest, NotDetect)
    requires |a.nested| == 1 && a.nested[0].name == "rule" && a.nested[0].nested == [] && b.nested == []
    ensures Everywhere([a, b] + rest, NotDetect)
  {
    EverywhereCons(b, rest, NotDetect);
    RuleOnly(a);
    EverywhereCons(a, [b] + rest, NotDetect);
    assert [a, b] + rest == [a] + ([b] + rest);
  }

  lemma CopiedClean(hash: (string, string) -> string, input: Fragment)
    requires |input| > 0 && !IsDetectExceptions(input[0]) && ValidEmitter(Emitter(hash))
    requires Everywhere(DoTransform(input[1..], Emitter(hash)), NotDetect)
    requires |input[0].nested| > 0 ==> Everywhere(DoTransform(input[0].nested, Emitter(hash)), NotDetect)
    ensures Everywhere(DoTransform(input, Emitter(hash)), NotDetect)
  {
    var f := Emitter(hash);
    var child := input[0];
    assert f(child) == Copy(child);
    CopiedHead(input, f);
    var c := if |child.nested| > 0 then child.(nested := DoTransform(child.nested, f)) else child;
    EverywhereCons(c, DoTransform(input[1..], f), NotDetect);
  }

  lemma RuleOnly(a: Directive)
    requires |a.nested| == 1 && a.nested[0].name == "rule" && a.nested[0].nested == []
    ensures Everywhere(a.nested, NotDetect)
  {
    assert a.nested[1..] == [];
  }

  lemma EverywhereCons(x: Directive, rest: Fragment, p: Directive -> bool)
    ensures Everywhere([x] + rest, p) <==> p(x) && Everywhere(x.nested, p) && Everywhere(rest, p)
  {
    assert ([x] + rest)[0] == x && ([x] + rest)[1..] == rest;
  }

  /** A configuration without detect_exceptions filters passes unchanged:
      the callback is then `copy`. */
  lemma {:induction false} NoDetectUnchanged(hash: (string, string) -> string, input: Fragment)
    ensures ValidEmitter(Emitter(hash))
    ensures Everywhere(input, NotDetect) ==> DoTransform(input, Emitter(hash)) == input
    decreases input
  {
    var f := Emitter(hash);
    assert ValidEmitter(f);
    if |input| > 0 && Everywhere(input, NotDetect) {
      var child := input[0];
      if |child.nested| > 0 {
        NoDetectUnchanged(hash, child.nested);
        assert child.(nested := child.nested) == child;
      }
      NoDetectUnchanged(hash, input[1..]);
      assert [child] + input[1..] == input;
    }
  }

  /** What one detect_exceptions filter becomes: the two generated matches
      take its place, and the rest of the level follows as before. */
  lemma FilterBecomesTwoMatches(hash: (string, string) -> string, dir: Directive, rest: Fragment)
    requires IsDetectExceptions(dir)
    ensures ValidEmitter(Emitter(hash))
    ensures var selector := ExtractSelector(dir.tag);
      var prefix := TagPrefix(hash, selector);
      DoTransform([dir] + rest, Emitter(hash)) ==
        [RewriteTagMatch(selector, prefix), DetectMatch(dir, selector, prefix)] + DoTransform(rest, Emitter(hash))
  {
    assert ValidEmitter(Emitter(hash));
    NilSkipsNested(dir, rest, Emitter(hash));
  }

  /** The two generated matches chain up: the rule re-emits the selected tag
      `t` as `<prefix>._proc.t`, the detect_exceptions match catches exactly
      that and strips `<prefix>.`, leaving `_proc.t`, the second alternative
      of the augmented pattern `t _proc.t` the rest of the configuration
      listens on. */
  lemma GeneratedMatchesChain(hash: (string, string) -> string, dir: Directive, t: string)
    requires IsDetectExceptions(dir) && ' ' !in t && t != "" && dir.tag == AugmentTag(t)
    ensures var prefix := TagPrefix(hash, t);
      var m := DetectMatch(dir, ExtractSelector(dir.tag), prefix);
      ExtractSelector(dir.tag) == t &&
      m.tag == m.Param("remove_tag_prefix") + "." + Split(AugmentTag(t), ' ')[1]
  {
    SelectorOfAugmented(t);
    AugmentTagAlternatives(t);
    var prefix := TagPrefix(hash, t);
    DetectMatchParams(dir, t, prefix);
    ProcTail(prefix, t);
  }

  lemma ProcTail(prefix: string, t: string)
    ensures prefix + "." + ProcessedPrefix + "." + t == prefix + "." + ("_proc." + t)
  {
    var x := prefix + ".";
    assert ProcessedPrefix + "." == "_proc.";
    assert x + ProcessedPrefix + "." + t == x + (ProcessedPrefix + ".") + t;
  }

  function AnyDetect(found: bool, d: Directive): bool
  {
    found || IsDetectExceptions(d)
  }

  lemma {:induction false} AnyDetectFold(found: bool, xs: seq<Directive>)
    ensures FoldSeq(AnyDetect, found, xs) <==> found || exists i :: 0 <= i < |xs| && IsDetectExceptions(xs[i])
    decreases |xs|
  {
    if |xs| > 0 {
      AnyDetectFold(AnyDetect(found, xs[0]), xs[1..]);
      assert forall i :: 1 <= i < |xs| ==> xs[i] == xs[1..][i - 1];
      assert forall i :: 0 <= i < |xs| - 1 ==> xs[1..][i] == xs[i + 1];
    }
  }

  /** `detectExceptionsState.Prepare`: sets `NeedsProcessing` when a
      detect_exceptions filter appears at any depth, never clears it, and
      contributes nothing to the main file. */
  method DetectPrepare(gen: GenerationContext, input: Fragment) returns (r: Result<Fragment>)
    modifies gen
    ensures r == Ok([])
    ensures gen.needsProcessing <==>
      old(gen.needsProcessing) || exists i :: 0 <= i < |LevelOrder(input)| && IsDetectExceptions(LevelOrder(input)[i])
    ensures gen.referencedBridges == old(gen.referencedBridges) && gen.plugins == old(gen.plugins)
  {
    FolderSeesLevelOrder(input, false, AnyDetect);
    AnyDetectFold(false, LevelOrder(input));
    var walked := ApplyInPlace(input, false, Folder(AnyDetect));
    if walked.value.1 {
      gen.needsProcessing := true;
    }
    r := Ok([]);
  }

  /** `Prepare` leaves `NeedsProcessing` alone exactly when `Process` has
      nothing to rewrite. */
  lemma PrepareMatchesProcess(input: Fragment)
    ensures (exists i :: 0 <= i < |LevelOrder(input)| && IsDetectExceptions(LevelOrder(input)[i])) <==>
      !Everywhere(input, NotDetect)
  {
    EverywhereLevelOrder(input, NotDetect);
  }
}
