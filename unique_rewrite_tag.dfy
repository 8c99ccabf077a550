/** Namespace-private `retag` (config-reloader/processors/unique_rewrite_tag.go):
    a `<match>` of `@type retag` becomes a `rewrite_tag_filter` whose rules
    emit tags under `kube.<namespace>._retag.`, and the `$tag(...)` macro
    in a match or filter names such an emitted tag. */
module UniqueRewriteTag {
  import opened Wrappers
  import opened Fluentd
  import opened Strs
  import opened Processor

  const MacroUniqueTag: string := "$tag"

  /** The errors of the pass, as the source words them. */
  const ErrNoRuleTag: string := "retag plugin requires each rule to have a tag parameter"
  const ErrPlaceholder: string := "retag plugin does not yet support the ${tag_parts[n]} and __TAG_PARTS[n]__ placeholders"
  const ErrMalformedMacro: string := "Malformed tag. To match output from the retag plugin the tag must be placed inside the $tag() macro"

  /** `createUniqueTag`: the retagged name, kept inside the namespace. */
  function UniqueTag(tag: string, ns: string): (r: string)
    ensures HasPrefix(r, "kube." + ns + "._retag.")
    ensures r[|ns| + 13..] == tag
  {
    "kube." + ns + "._retag." + tag
  }

  /** Distinct rule tags stay distinct. */
  lemma UniqueTagInjective(a: string, b: string, ns: string)
    requires UniqueTag(a, ns) == UniqueTag(b, ns)
    ensures a == b
  {
    assert a == UniqueTag(a, ns)[|ns| + 13..];
  }

  /** The `${tag_parts[n]}` and `__TAG_PARTS[n]__` placeholders, which the
      rewrite does not support. */
  predicate HasPlaceholder(t: string)
  {
    Contains(t, "${tag_parts[") || Contains(t, "__TAG_PARTS[")
  }

  /** A `<rule>` the retag plugin refuses: no tag, or a placeholder in it. */
  predicate BadRule(d: Directive)
  {
    d.name == "rule" && (d.Param("tag") == "" || HasPlaceholder(d.Param("tag")))
  }

  /** One child of a retag match after the rewrite: a rule's tag is made
      unique; any other child is kept. */
  function AdaptedRule(ns: string, d: Directive): Directive
  {
    if d.name == "rule" then d.SetParam("tag", UniqueTag(d.Param("tag"), ns)) else d
  }

  /** The error a bad rule is refused with. */
  function RuleError(d: Directive): string
  {
    if d.Param("tag") == "" then ErrNoRuleTag
    else ErrPlaceholder
  }

  /** The loop over a retag match's children: stops at the first bad rule. */
  function AdaptRules(ns: string, rules: Fragment): (r: Result<Fragment>)
    ensures r.Err? <==> exists i :: 0 <= i < |rules| && BadRule(rules[i])
    ensures r.Ok? ==> |r.value| == |rules| && forall i :: 0 <= i < |rules| ==> r.value[i] == AdaptedRule(ns, rules[i])
    decreases |rules|
  {
    if |rules| == 0 then Ok([])
    else
      var rule := rules[0];
      if BadRule(rule) then
        assert BadRule(rules[0]);
        Err(RuleError(rule))
      else
        match AdaptRules(ns, rules[1..])
        case Err(e) =>
          BadRuleTail(rules);
          Err(e)
        case Ok(rest) =>
          NoBadRuleCons(rules);
          AdaptedCons(ns, rules, rest);
          Ok([AdaptedRule(ns, rule)] + rest)
  }

  lemma BadRuleTail(rules: Fragment)
    requires |rules| > 0 && exists j :: 0 <= j < |rules| - 1 && BadRule(rules[1..][j])
    ensures exists i :: 0 <= i < |rules| && BadRule(rules[i])
  {
    var j :| 0 <= j < |rules| - 1 && BadRule(rules[1..][j]);
    assert BadRule(rules[j + 1]);
  }

  lemma NoBadRuleCons(rules: Fragment)
    requires |rules| > 0 && !BadRule(rules[0])
    requires !exists j :: 0 <= j < |rules| - 1 && BadRule(rules[1..][j])
    ensures !exists i :: 0 <= i < |rules| && BadRule(rules[i])
  {
    forall i | 1 <= i < |rules| ensures !BadRule(rules[i]) {
      assert rules[i] == rules[1..][i - 1];
    }
  }

  lemma AdaptedCons(ns: string, rules: Fragment, rest: Fragment)
    requires |rules| > 0 && |rest| == |rules| - 1
    requires forall i :: 0 <= i < |rules| - 1 ==> rest[i] == AdaptedRule(ns, rules[1..][i])
    ensures forall i :: 0 <= i < |rules| ==> ([AdaptedRule(ns, rules[0])] + rest)[i] == AdaptedRule(ns, rules[i])
  {
    forall i | 1 <= i < |rules| ensures ([AdaptedRule(ns, rules[0])] + rest)[i] == AdaptedRule(ns, rules[i]) {
      assert rules[i] == rules[1..][i - 1];
    }
  }

  /** The same loop, step by step, as the source runs it. */
  method AdaptRulesLoop(ns: string, rules: Fragment) returns (r: Result<Fragment>)
    ensures r == AdaptRules(ns, rules)
  {
    var out: Fragment := [];
    var i := 0;
    ResumeFromStart(ns, rules);
    while i < |rules|
      invariant 0 <= i <= |rules|
      invariant AdaptRules(ns, rules) == Resume(ns, rules[i..], out)
    {
      var adapted := AdaptRule(ns, rules[i]);
      if adapted.Err? {
        RulesStop(ns, rules, i, out);
        r := Err(adapted.msg);
        return;
      }
      RulesStep(ns, rules, i, out);
      out := out + [adapted.value];
      i := i + 1;
    }
    ResumeAtEnd(ns, rules[i..], out);
    r := Ok(out);
  }

  /** One child of a retag match: a good rule gets its unique tag. */
  method AdaptRule(ns: string, rule: Directive) returns (r: Result<Directive>)
    ensures r.Err? <==> BadRule(rule)
    ensures r.Err? ==> r.msg == RuleError(rule)
    ensures r.Ok? ==> r.value == AdaptedRule(ns, rule)
  {
    if rule.name != "rule" {
      return Ok(rule);
    }
    var tagParam := rule.Param("tag");
    if tagParam == "" {
      return Err(ErrNoRuleTag);
    }
    if Contains(tagParam, "${tag_parts[") || Contains(tagParam, "__TAG_PARTS[") {
      return Err(ErrPlaceholder);
    }
    return Ok(rule.SetParam("tag", UniqueTag(tagParam, ns)));
  }

  /** The loop's outcome once `out` holds the rules before `rules`. */
  function Resume(ns: string, rules: Fragment, out: Fragment): Result<Fragment>
  {
    match AdaptRules(ns, rules)
    case Err(e) => Err(e)
    case Ok(rest) => Ok(out + rest)
  }

  lemma ResumeFromStart(ns: string, rules: Fragment)
    ensures AdaptRules(ns, rules) == Resume(ns, rules[0..], [])
  {
    assert rules[0..] == rules;
    match AdaptRules(ns, rules) {
      case Err(_) =>
      case Ok(rest) => assert [] + rest == rest;
    }
  }

  lemma ResumeAtEnd(ns: string, rules: Fragment, out: Fragment)
    requires rules == []
    ensures Resume(ns, rules, out) == Ok(out)
  {
    assert out + [] == out;
  }

  lemma RulesStop(ns: string, rules: Fragment, i: nat, out: Fragment)
    requires i < |rules| && BadRule(rules[i])
    ensures Resume(ns, rules[i..], out) == Err(RuleError(rules[i]))
  {
    assert rules[i..][0] == rules[i];
  }

  lemma RulesStep(ns: string, rules: Fragment, i: nat, out: Fragment)
    requires i < |rules| && !BadRule(rules[i])
    ensures Resume(ns, rules[i..], out) == Resume(ns, rules[i + 1..], out + [AdaptedRule(ns, rules[i])])
  {
    var tail := rules[i..];
    assert tail[0] == rules[i] && tail[1..] == rules[i + 1..];
    match AdaptRules(ns, tail[1..])
    case Err(e) =>
    case Ok(rest) =>
      assert AdaptRules(ns, tail) == Ok([AdaptedRule(ns, rules[i])] + rest);
      assert out + ([AdaptedRule(ns, rules[i])] + rest) == out + [AdaptedRule(ns, rules[i])] + rest;
  }

  /** `adaptUniqueRewriteTagPlugin`: a retag match becomes a
      `rewrite_tag_filter` with unique rule tags; nothing else is touched. */
  function Adapt(ns: string, d: Directive): (r: Result<Directive>)
    ensures r.Ok? ==> r.value.name == d.name && r.value.tag == d.tag && |r.value.nested| == |d.nested|
    ensures r.Ok? ==> forall i :: 0 <= i < |d.nested| ==> r.value.nested[i].nested == d.nested[i].nested
  {
    if d.name != "match" || d.Type() != "retag" then Ok(d)
    else
      match AdaptRules(ns, d.nested)
      case Err(e) => Err(e)
      case Ok(rules) => Ok(d.(nested := rules).SetParam("@type", "rewrite_tag_filter"))
  }

  /** Directives that are not (any longer) retag matches. */
  predicate NotRetag(d: Directive)
  {
    !(d.name == "match" && d.Type() == "retag")
  }

  /** A retag match with good rules: its type is replaced and each rule's tag
      made unique, in order; with a bad rule the pass fails. */
  lemma AdaptRetag(ns: string, d: Directive)
    requires d.name == "match" && d.Type() == "retag"
    ensures Adapt(ns, d).Err? <==> exists i :: 0 <= i < |d.nested| && BadRule(d.nested[i])
    ensures Adapt(ns, d).Ok? ==> Adapt(ns, d).value.Type() == "rewrite_tag_filter"
    ensures Adapt(ns, d).Ok? ==> forall i :: 0 <= i < |d.nested| && d.nested[i].name == "rule" ==>
      Adapt(ns, d).value.nested[i].Param("tag") == UniqueTag(d.nested[i].Param("tag"), ns)
  {
  }

  /** Children that differ in parameters only make a fragment just as high. */
  lemma {:induction false} SameNestingHeight(a: Fragment, b: Fragment)
    requires |a| == |b| && forall i :: 0 <= i < |a| ==> a[i].nested == b[i].nested
    ensures FragHeight(a) == FragHeight(b)
    decreases |a|
  {
    if |a| > 0 {
      SameNestingHeight(a[1..], b[1..]);
    }
  }

  function AdaptCallback(ns: string): Callback<()>
  {
    (d: Directive, u: ()) =>
      match Adapt(ns, d)
      case Ok(e) => Ok((e, u))
      case Err(m) => Err(m)
  }

  lemma AdaptCallbackFacts(ns: string)
    ensures Shallow(AdaptCallback(ns))
    ensures Establishes(AdaptCallback(ns), NotRetag)
  {
    forall d: Directive, s: () | AdaptCallback(ns)(d, s).Ok?
      ensures Height(AdaptCallback(ns)(d, s).value.0) <= Height(d)
    {
      var e := Adapt(ns, d).value;
      SameNestingHeight(e.nested, d.nested);
    }
  }

  /** `rewriteTagMacro` on one directive. Which tags count as a macro call is
      `open`: the source checks for `$tag` and then slices from just after
      where the parenthesis should be; the intended check wants `$tag(`. */
  function RewriteMacroWith(ns: string, gen: Option<GenState>, open: string, d: Directive): (r: Result<Directive>)
    ensures r.Ok? ==> TagOnlyStep(d, r.value)
  {
    if !IsMatchOrFilter(d) || !HasPrefix(d.tag, MacroUniqueTag) then Ok(d)
    else if !HasPrefix(d.tag, open) || !HasSuffix(d.tag, ")") then
      Err(ErrMalformedMacro)
    else if |d.tag| - 1 < |MacroUniqueTag| + 1 then Err(ErrSliceBounds)
    else Ok(GenAugment(gen, d.(tag := UniqueTag(d.tag[|MacroUniqueTag| + 1..|d.tag| - 1], ns))))
  }

  /** As written in unique_rewrite_tag.go:55-67. */
  function RewriteMacroAsWritten(ns: string, gen: Option<GenState>, d: Directive): Result<Directive>
  {
    RewriteMacroWith(ns, gen, MacroUniqueTag, d)
  }

  /** With the opening parenthesis checked. */
  function RewriteMacro(ns: string, gen: Option<GenState>, d: Directive): Result<Directive>
  {
    RewriteMacroWith(ns, gen, MacroUniqueTag + "(", d)
  }

  /** `<match $tag)>` passes both checks of the source and then slices
      `[5:4]`, a run-time panic; the intended check reports it as malformed. */
  lemma ShortMacroPanics()
    ensures RewriteMacroAsWritten("ns", None, Directive("match", "$tag)", map[], [])) ==
            Err(ErrSliceBounds)
    ensures RewriteMacro("ns", None, Directive("match", "$tag)", map[], [])).Err?
    ensures RewriteMacro("ns", None, Directive("match", "$tag)", map[], [])).msg != ErrSliceBounds
  {
    var d := Directive("match", "$tag)", map[], []);
    assert d.tag[..4] == MacroUniqueTag && d.tag[|d.tag| - 1..] == ")";
    assert d.tag[4] != (MacroUniqueTag + "(")[4];
    ShortMacroAsWritten("ns", None, d);
    ShortMacroIntended("ns", None, d);
  }

  /** Any match or filter whose tag starts with `$tag` and ends with the
      `)` right after it takes the slice `[5:4]`. */
  lemma ShortMacroAsWritten(ns: string, gen: Option<GenState>, d: Directive)
    requires IsMatchOrFilter(d) && HasPrefix(d.tag, MacroUniqueTag) && HasSuffix(d.tag, ")") && |d.tag| <= 5
    ensures RewriteMacroAsWritten(ns, gen, d) == Err(ErrSliceBounds)
  {
  }

  /** The intended check reports a `$tag` tag without the parenthesis as
      malformed. */
  lemma ShortMacroIntended(ns: string, gen: Option<GenState>, d: Directive)
    requires IsMatchOrFilter(d) && HasPrefix(d.tag, MacroUniqueTag) && !HasPrefix(d.tag, MacroUniqueTag + "(")
    ensures RewriteMacro(ns, gen, d) ==
            Err(ErrMalformedMacro)
  {
  }

  /** The intended rewrite never fails at run time: `$tag(X)` becomes the very
      tag the retag rules emit for `X`, and a tag that is not a macro call is
      kept. */
  lemma RewriteMacroSpec(ns: string, gen: Option<GenState>, d: Directive, x: string)
    requires IsMatchOrFilter(d) && d.tag == MacroUniqueTag + "(" + x + ")"
    ensures RewriteMacro(ns, gen, d) == Ok(GenAugment(gen, d.(tag := UniqueTag(x, ns))))
  {
    var t := d.tag;
    assert t[..4] == MacroUniqueTag && t[..5] == MacroUniqueTag + "(";
    assert t[|t| - 1..] == ")";
    assert t[5..|t| - 1] == x;
  }

  /** The test's expectation: a rule that emits `x` and a filter on `$tag(x)`
      agree on the tag once both are rewritten. */
  lemma RuleAndMacroAgree(ns: string, rule: Directive, filter: Directive, x: string)
    requires rule.name == "rule" && rule.Param("tag") == x
    requires filter.name == "filter" && filter.tag == MacroUniqueTag + "(" + x + ")"
    ensures RewriteMacro(ns, None, filter).Ok?
    ensures RewriteMacro(ns, None, filter).value.tag == AdaptedRule(ns, rule).Param("tag")
  {
    RewriteMacroSpec(ns, None, filter, x);
  }

  /** Directives whose tag is no longer a `$tag` macro. */
  predicate NoTagMacro(d: Directive)
  {
    !(IsMatchOrFilter(d) && HasPrefix(d.tag, MacroUniqueTag))
  }

  function MacroCallback(ns: string, gen: Option<GenState>): Callback<()>
  {
    (d: Directive, u: ()) =>
      match RewriteMacro(ns, gen, d)
      case Ok(e) => Ok((e, u))
      case Err(m) => Err(m)
  }

  lemma MacroCallbackFacts(ns: string, gen: Option<GenState>)
    ensures Shallow(MacroCallback(ns, gen)) && TagOnly(MacroCallback(ns, gen))
    ensures Establishes(MacroCallback(ns, gen), NoTagMacro)
  {
    forall d: Directive, s: () | MacroCallback(ns, gen)(d, s).Ok?
      ensures NoTagMacro(MacroCallback(ns, gen)(d, s).value.0)
    {
      MacroRewriteClean(ns, gen, d);
    }
  }

  /** A rewritten tag starts with `kube.`, so it is no macro. */
  lemma MacroRewriteClean(ns: string, gen: Option<GenState>, d: Directive)
    requires RewriteMacro(ns, gen, d).Ok?
    ensures NoTagMacro(RewriteMacro(ns, gen, d).value)
  {
    if IsMatchOrFilter(d) && HasPrefix(d.tag, MacroUniqueTag) {
      var t := UniqueTag(d.tag[5..|d.tag| - 1], ns);
      var e := GenAugment(gen, d.(tag := t));
      assert RewriteMacro(ns, gen, d).value == e;
      assert t[0] == 'k';
      assert e.tag[0] == 'k';
    }
  }

  /** `uniqueRewriteTagState.Process`: the retag pass over the whole tree,
      then the macro pass. It fails exactly when some directive of the input
      has a bad rule or a malformed macro; when it succeeds no retag match
      and no `$tag` macro is left anywhere in the tree. */
  function UniqueRewriteProcess(ctx: ProcessorContext, input: Fragment): (r: Result<Fragment>)
    ensures r.Err? <==>
      (exists i :: 0 <= i < |LevelOrder(input)| && Adapt(ctx.namespace, LevelOrder(input)[i]).Err?) ||
      (exists i :: 0 <= i < |LevelOrder(input)| && RewriteMacro(ctx.namespace, ctx.gen, LevelOrder(input)[i]).Err?)
    ensures r.Ok? ==> |r.value| == |input|
    ensures r.Ok? ==> AllSatisfy(LevelOrder(r.value), NotRetag)
    ensures r.Ok? ==> AllSatisfy(LevelOrder(r.value), NoTagMacro)
    ensures r.Ok? ==> |LevelOrder(r.value)| == |LevelOrder(input)|
    ensures r.Ok? ==> forall i :: 0 <= i < |LevelOrder(input)| ==>
      RewrittenAt(ctx.namespace, ctx.gen, LevelOrder(input)[i], LevelOrder(r.value)[i])
  {
    AdaptCallbackFacts(ctx.namespace);
    MacroCallbackFacts(ctx.namespace, ctx.gen);
    UniqueRewriteOutcome(ctx.namespace, ctx.gen, input);
    UniqueRewriteFails(ctx.namespace, ctx.gen, input);
    match ApplyInPlace(input, (), AdaptCallback(ctx.namespace))
    case Err(e) => Err(e)
    case Ok((mid, _)) =>
      match ApplyInPlace(mid, (), MacroCallback(ctx.namespace, ctx.gen))
      case Err(e) => Err(e)
      case Ok((out, _)) => Ok(out)
  }

  /** The two walks, one after the other, as `UniqueRewriteProcess` states. */
  lemma UniqueRewriteOutcome(ns: string, gen: Option<GenState>, input: Fragment)
    requires Shallow(AdaptCallback(ns)) && Shallow(MacroCallback(ns, gen))
    ensures var first := ApplyInPlace(input, (), AdaptCallback(ns));
      first.Ok? && ApplyInPlace(first.value.0, (), MacroCallback(ns, gen)).Ok? ==>
      var out := ApplyInPlace(first.value.0, (), MacroCallback(ns, gen)).value.0;
      |out| == |input| && AllSatisfy(LevelOrder(out), NotRetag) && AllSatisfy(LevelOrder(out), NoTagMacro) &&
      |LevelOrder(out)| == |LevelOrder(input)| &&
      forall i :: 0 <= i < |LevelOrder(input)| ==> RewrittenAt(ns, gen, LevelOrder(input)[i], LevelOrder(out)[i])
  {
    var adapt := AdaptCallback(ns);
    var macro := MacroCallback(ns, gen);
    AdaptCallbackFacts(ns);
    MacroCallbackFacts(ns, gen);
    var first := ApplyInPlace(input, (), adapt);
    if first.Ok? && ApplyInPlace(first.value.0, (), macro).Ok? {
      var mid := first.value.0;
      var out := ApplyInPlace(mid, (), macro).value.0;
      WalkEstablishes(input, (), adapt, NotRetag);
      WalkEstablishes(mid, (), macro, NoTagMacro);
      TagOnlyKeepsShape(mid, (), macro);
      SameShapeOrder(mid, out);
      assert forall d: Directive, e: Directive :: d.name == e.name && d.params == e.params ==> NotRetag(d) == NotRetag(e);
      UniqueRewriteImage(ns, gen, input);
    }
  }

  /** The two walks fail exactly when some directive of the input, at any
      depth, is a retag match with a bad rule or a malformed `$tag` macro:
      the retag pass changes no name and no tag, so the macro pass judges
      each directive as it was written. */
  lemma UniqueRewriteFails(ns: string, gen: Option<GenState>, input: Fragment)
    requires Shallow(AdaptCallback(ns)) && Shallow(MacroCallback(ns, gen))
    ensures var first := ApplyInPlace(input, (), AdaptCallback(ns));
      (first.Err? || ApplyInPlace(first.value.0, (), MacroCallback(ns, gen)).Err?) <==>
      (exists i :: 0 <= i < |LevelOrder(input)| && Adapt(ns, LevelOrder(input)[i]).Err?) ||
      (exists i :: 0 <= i < |LevelOrder(input)| && RewriteMacro(ns, gen, LevelOrder(input)[i]).Err?)
  {
    AdaptFails(ns, input);
    MacroFails(ns, gen, input);
  }

  /** The retag pass fails exactly when some retag match of the tree has a
      bad rule. */
  lemma AdaptFails(ns: string, input: Fragment)
    requires Shallow(AdaptCallback(ns))
    ensures ApplyInPlace(input, (), AdaptCallback(ns)).Err? <==>
      exists i :: 0 <= i < |LevelOrder(input)| && Adapt(ns, LevelOrder(input)[i]).Err?
  {
    var adapt := AdaptCallback(ns);
    var kid := AdaptKid(ns);
    AdaptRewritesKids(ns);
    assert KidKeepsOutcome(adapt, kid) by {
      forall x ensures adapt(kid(x), ()).Ok? == adapt(x, ()).Ok? {
        assert kid(x).name == x.name;
      }
    }
    WalkFailsVia(input, input, adapt, kid);
  }

  /** Some directive of `xs` carries a malformed `$tag` macro. */
  predicate MacroRejects(ns: string, gen: Option<GenState>, xs: seq<Directive>)
  {
    exists i :: 0 <= i < |xs| && RewriteMacro(ns, gen, xs[i]).Err?
  }

  /** After the retag pass, the macro pass fails exactly when some match or
      filter of the input carries a malformed `$tag` macro. */
  lemma MacroFails(ns: string, gen: Option<GenState>, input: Fragment)
    requires Shallow(AdaptCallback(ns)) && Shallow(MacroCallback(ns, gen))
    ensures var first := ApplyInPlace(input, (), AdaptCallback(ns));
      first.Ok? ==>
      (ApplyInPlace(first.value.0, (), MacroCallback(ns, gen)).Err? <==> MacroRejects(ns, gen, LevelOrder(input)))
  {
    var first := ApplyInPlace(input, (), AdaptCallback(ns));
    if first.Ok? {
      var mid := first.value.0;
      assert first.value.1 == ();
      MacroWalkFails(ns, gen, mid);
      AdaptKeepsMacroOutcome(ns, gen, input, mid);
    }
  }

  /** The macro rewrite fails somewhere in the tree the retag pass leaves
      exactly when it fails somewhere in the input. */
  lemma AdaptKeepsMacroOutcome(ns: string, gen: Option<GenState>, input: Fragment, mid: Fragment)
    requires Shallow(AdaptCallback(ns)) && ApplyInPlace(input, (), AdaptCallback(ns)) == Ok((mid, ()))
    ensures MacroRejects(ns, gen, LevelOrder(mid)) == MacroRejects(ns, gen, LevelOrder(input))
  {
    AdaptRewritesKids(ns);
    WalkVia(input, input, AdaptCallback(ns), AdaptKid(ns));
    MappedJudgedAlike(ns, gen, LevelOrder(input), LevelOrder(mid));
  }

  /** The macro pass fails exactly when it meets a malformed macro. */
  lemma MacroWalkFails(ns: string, gen: Option<GenState>, mid: Fragment)
    requires Shallow(MacroCallback(ns, gen))
    ensures ApplyInPlace(mid, (), MacroCallback(ns, gen)).Err? <==> MacroRejects(ns, gen, LevelOrder(mid))
  {
    var macro := MacroCallback(ns, gen);
    var ys := LevelOrder(mid);
    MacroCallbackFacts(ns, gen);
    TagOnlyKeepsChildren(macro);
    StatelessOutcome(mid, macro);
    assert forall i :: 0 <= i < |ys| ==> Accepts(macro)(ys[i]) == RewriteMacro(ns, gen, ys[i]).Ok?;
  }

  /** The macro rewrite fails somewhere in the retag pass's image exactly
      when it fails somewhere in the input. */
  lemma MappedJudgedAlike(ns: string, gen: Option<GenState>, xs: seq<Directive>, ys: seq<Directive>)
    requires MappedVia(AdaptCallback(ns), AdaptKid(ns), xs, ys)
    ensures MacroRejects(ns, gen, ys) == MacroRejects(ns, gen, xs)
  {
    forall i | 0 <= i < |xs| ensures RewriteMacro(ns, gen, ys[i]).Err? == RewriteMacro(ns, gen, xs[i]).Err? {
      AdaptedJudgedAlike(ns, gen, xs[i], ys[i]);
    }
  }

  /** A directive as the retag pass leaves it meets the macro rewrite as it
      was written. */
  lemma AdaptedJudgedAlike(ns: string, gen: Option<GenState>, x: Directive, m: Directive)
    requires StepImage(AdaptCallback(ns), x, m) || StepImage(AdaptCallback(ns), AdaptKid(ns)(x), m)
    ensures RewriteMacro(ns, gen, m).Err? == RewriteMacro(ns, gen, x).Err?
  {
    var v := if StepImage(AdaptCallback(ns), x, m) then x else AdaptedRule(ns, x);
    assert StepImage(AdaptCallback(ns), v, m);
    assert Strip(m) == Strip(Adapt(ns, v).value);
    MacroReadsNameAndTag(ns, gen, m, x);
  }

  /** How the retag pass rewrites a child: a rule gets its unique tag. */
  function AdaptKid(ns: string): Directive -> Directive
  {
    (x: Directive) => AdaptedRule(ns, x)
  }

  function Itself(): Directive -> Directive
  {
    (x: Directive) => x
  }

  /** The retag pass rewrites children, but only a retag match's rules, and
      only their parameters. */
  lemma AdaptRewritesKids(ns: string)
    ensures RewritesKids(AdaptCallback(ns), AdaptKid(ns))
  {
    forall d | AdaptCallback(ns)(d, ()).Ok?
      ensures Variant(AdaptKid(ns), d.nested, AdaptCallback(ns)(d, ()).value.0.nested)
    {
      if d.name == "match" && d.Type() == "retag" {
        var rules := AdaptRules(ns, d.nested).value;
        assert AdaptCallback(ns)(d, ()).value.0.nested == rules;
        assert forall i :: 0 <= i < |d.nested| ==> rules[i] == AdaptKid(ns)(d.nested[i]);
      }
    }
  }

  lemma MacroRewritesKids(ns: string, gen: Option<GenState>)
    ensures RewritesKids(MacroCallback(ns, gen), Itself())
  {
    MacroCallbackFacts(ns, gen);
  }

  /** What the two passes make of one directive `x` of the input, found at
      the same place `y` of the output: the name is kept and the tag is the
      one the macro rewrite gives; a retag match becomes a
      `rewrite_tag_filter` whose rules carry their unique tags; any other
      directive but a rule keeps its parameters. */
  predicate RewrittenAt(ns: string, gen: Option<GenState>, x: Directive, y: Directive)
  {
    RewriteMacro(ns, gen, x).Ok? && y.name == x.name && y.tag == RewriteMacro(ns, gen, x).value.tag &&
    (x.name == "match" && x.Type() == "retag" ==>
      y.Type() == "rewrite_tag_filter" && |y.nested| == |x.nested| &&
      forall j :: 0 <= j < |x.nested| && x.nested[j].name == "rule" ==>
        y.nested[j].Param("tag") == UniqueTag(x.nested[j].Param("tag"), ns)) &&
    (NotRetag(x) && x.name != "rule" ==> y.params == x.params)
  }

  /** The macro rewrite reads only the name and the tag. */
  lemma MacroReadsNameAndTag(ns: string, gen: Option<GenState>, a: Directive, b: Directive)
    requires a.name == b.name && a.tag == b.tag
    ensures RewriteMacro(ns, gen, a).Ok? == RewriteMacro(ns, gen, b).Ok?
    ensures RewriteMacro(ns, gen, a).Ok? ==> RewriteMacro(ns, gen, a).value.tag == RewriteMacro(ns, gen, b).value.tag
  {
  }

  /** One place of the tree through both passes. */
  lemma RewrittenPlace(ns: string, gen: Option<GenState>, x: Directive, m: Directive, y: Directive)
    requires StepImage(AdaptCallback(ns), x, m) || StepImage(AdaptCallback(ns), AdaptKid(ns)(x), m)
    requires StepImage(MacroCallback(ns, gen), m, y) || StepImage(MacroCallback(ns, gen), Itself()(m), y)
    ensures RewrittenAt(ns, gen, x, y)
  {
    var adapt := AdaptCallback(ns);
    var macro := MacroCallback(ns, gen);
    var v := if StepImage(adapt, x, m) then x else AdaptedRule(ns, x);
    assert StepImage(adapt, v, m);
    assert StepImage(macro, m, y);
    var e := Adapt(ns, v).value;
    assert Strip(m) == Strip(e);
    assert m.name == x.name && m.tag == x.tag;
    var f := RewriteMacro(ns, gen, m).value;
    assert Strip(y) == Strip(f);
    MacroReadsNameAndTag(ns, gen, m, x);
    if x.name == "match" && x.Type() == "retag" {
      assert v == x;
      AdaptRetag(ns, x);
      forall j | 0 <= j < |x.nested| && x.nested[j].name == "rule"
        ensures y.nested[j].Param("tag") == UniqueTag(x.nested[j].Param("tag"), ns)
      {
        var rule := AdaptedRule(ns, x.nested[j]);
        assert e.nested[j] == rule;
        assert Strip(m.nested[j]) == Strip(Adapt(ns, rule).value);
        assert Strip(y.nested[j]) == Strip(RewriteMacro(ns, gen, f.nested[j]).value);
        assert f.nested[j] == m.nested[j];
      }
    }
  }

  /** Both passes, position by position over the walk order. */
  lemma UniqueRewriteImage(ns: string, gen: Option<GenState>, input: Fragment)
    requires Shallow(AdaptCallback(ns)) && Shallow(MacroCallback(ns, gen))
    requires ApplyInPlace(input, (), AdaptCallback(ns)).Ok?
    requires ApplyInPlace(ApplyInPlace(input, (), AdaptCallback(ns)).value.0, (), MacroCallback(ns, gen)).Ok?
    ensures var out := ApplyInPlace(ApplyInPlace(input, (), AdaptCallback(ns)).value.0, (), MacroCallback(ns, gen)).value.0;
      |LevelOrder(out)| == |LevelOrder(input)| &&
      forall i :: 0 <= i < |LevelOrder(input)| ==> RewrittenAt(ns, gen, LevelOrder(input)[i], LevelOrder(out)[i])
  {
    var mid := ApplyInPlace(input, (), AdaptCallback(ns)).value.0;
    var out := ApplyInPlace(mid, (), MacroCallback(ns, gen)).value.0;
    AdaptRewritesKids(ns);
    MacroRewritesKids(ns, gen);
    WalkVia(input, input, AdaptCallback(ns), AdaptKid(ns));
    WalkVia(mid, mid, MacroCallback(ns, gen), Itself());
    forall i | 0 <= i < |LevelOrder(input)|
      ensures RewrittenAt(ns, gen, LevelOrder(input)[i], LevelOrder(out)[i])
    {
      RewrittenPlace(ns, gen, LevelOrder(input)[i], LevelOrder(mid)[i], LevelOrder(out)[i]);
    }
  }
}
