/** Namespace-private labels (config-reloader/processors/relabel.go): every
    `<label @x>` a namespace defines, and every `relabel` output that sends
    events to one, is renamed to a name derived from the namespace, so
    namespaces cannot reach each other's labels. `@$...` names are left
    for the share processor. */
module Relabel {
  import opened Wrappers
  import opened Fluentd
  import opened Strs
  import opened Util
  import opened Processor

  /** The errors of the pass, as the source words them. */
  const ErrBadTarget: string := "bad label name: "
  const ErrBadLabel: string := "bad label name "
  const ErrLabelStart: string := " for <label>, must start with @"

  /** `normalizeLabelName`; `hash` is `util.Hash`. */
  function NormalizeLabelName(ns: string, hash: (string, string) -> string, name: string): (r: string)
    ensures HasPrefix(name, "@$") ==> r == name
    ensures !HasPrefix(name, "@$") ==> HasPrefix(r, "@") && HasSuffix(r, "-" + hash(ns, name))
  {
    if HasPrefix(name, "@$") then name
    else
      var r := "@" + FluentdSafeName(name) + "-" + hash(ns, name);
      assert r[|r| - |"-" + hash(ns, name)|..] == "-" + hash(ns, name);
      r
  }

  /** With a digest made of safe runes (SHA-1 hex is), a renamed label is `@`
      followed by letters, digits, `-` and `_` only. */
  lemma NormalizedIsSafe(ns: string, hash: (string, string) -> string, name: string)
    requires !HasPrefix(name, "@$")
    requires forall i :: 0 <= i < |hash(ns, name)| ==> SafeRune(hash(ns, name)[i])
    ensures var r := NormalizeLabelName(ns, hash, name);
      r[0] == '@' && forall i :: 1 <= i < |r| ==> SafeRune(r[i])
  {
    var h := hash(ns, name);
    var n := FluentdSafeName(name);
    FluentdSafeNameProps(name);
    var r := NormalizeLabelName(ns, hash, name);
    assert r == "@" + n + "-" + h;
    forall i | 1 <= i < |r| ensures SafeRune(r[i]) {
      if i <= |n| {
        assert r[i] == n[i - 1];
      } else if i == |n| + 1 {
        assert r[i] == '-';
      } else {
        assert r[i] == h[i - |n| - 2];
      }
    }
  }

  /** Outputs whose `@label` the first pass renames. */
  predicate IsRelabel(d: Directive)
  {
    (d.name == "match" || d.name == "store") && d.Type() == "relabel"
  }

  /** `normalizeAllLabels` on one directive. */
  function NormalizeRelabel(ns: string, hash: (string, string) -> string, d: Directive): (r: Result<Directive>)
    ensures r.Ok? <==> !IsRelabel(d) || HasPrefix(d.Param("@label"), "@")
    ensures r.Ok? && !IsRelabel(d) ==> r.value == d
    ensures r.Ok? && IsRelabel(d) ==>
      r.value == d.SetParam("@label", NormalizeLabelName(ns, hash, d.Param("@label")))
  {
    if !IsRelabel(d) then Ok(d)
    else
      var target := d.Param("@label");
      if !HasPrefix(target, "@") then Err(ErrBadTarget + target)
      else Ok(d.SetParam("@label", NormalizeLabelName(ns, hash, target)))
  }

  /** `rewriteLabelTag` on one directive. */
  function RewriteLabelTag(ns: string, hash: (string, string) -> string, d: Directive): (r: Result<Directive>)
    ensures r.Ok? <==> d.name != "label" || HasPrefix(d.tag, "@")
    ensures r.Ok? && d.name != "label" ==> r.value == d
    ensures r.Ok? && d.name == "label" ==> r.value == d.(tag := NormalizeLabelName(ns, hash, d.tag))
  {
    if d.name != "label" then Ok(d)
    else if !HasPrefix(d.tag, "@") then Err(ErrBadLabel + d.tag + ErrLabelStart)
    else Ok(d.(tag := NormalizeLabelName(ns, hash, d.tag)))
  }

  function RelabelCallback(ns: string, hash: (string, string) -> string): Callback<()>
  {
    (d: Directive, u: ()) =>
      match NormalizeRelabel(ns, hash, d)
      case Ok(e) => Ok((e, u))
      case Err(m) => Err(m)
  }

  function LabelCallback(ns: string, hash: (string, string) -> string): Callback<()>
  {
    (d: Directive, u: ()) =>
      match RewriteLabelTag(ns, hash, d)
      case Ok(e) => Ok((e, u))
      case Err(m) => Err(m)
  }

  /** A `<label>` whose name the second pass accepts. */
  predicate GoodLabelTag(d: Directive)
  {
    d.name != "label" || HasPrefix(d.tag, "@")
  }

  /** A relabel output whose target the first pass accepts. */
  predicate GoodRelabel(d: Directive)
  {
    !IsRelabel(d) || HasPrefix(d.Param("@label"), "@")
  }

  lemma CallbackFacts(ns: string, hash: (string, string) -> string)
    ensures KeepsChildren(RelabelCallback(ns, hash)) && Shallow(RelabelCallback(ns, hash))
    ensures KeepsChildren(LabelCallback(ns, hash)) && Shallow(LabelCallback(ns, hash))
    ensures Preserves(RelabelCallback(ns, hash), GoodLabelTag)
    ensures forall d :: Accepts(RelabelCallback(ns, hash))(d) == GoodRelabel(d)
    ensures forall d :: Accepts(LabelCallback(ns, hash))(d) == GoodLabelTag(d)
  {
  }

  /** What both passes make of one directive: a relabel output's target
      and a `<label>`'s name are normalized; nothing else changes. */
  function Relabeled(ns: string, hash: (string, string) -> string, d: Directive): (e: Directive)
    ensures e.name == d.name && e.nested == d.nested
    ensures !IsRelabel(d) && d.name != "label" ==> e == d
  {
    if IsRelabel(d) then d.SetParam("@label", NormalizeLabelName(ns, hash, d.Param("@label")))
    else if d.name == "label" then d.(tag := NormalizeLabelName(ns, hash, d.tag))
    else d
  }

  /** `rewriteLabelsState.Process`: both passes over the whole tree. It fails
      exactly when a relabel output names a target without `@`, with the
      first such target in walk order, or else when a `<label>` has a name
      without `@`, with the first such name. A successful pass keeps every
      directive where it was and rewrites each as `Relabeled` says. */
  function RelabelProcess(ctx: ProcessorContext, input: Fragment): (r: Result<Fragment>)
    ensures r.Err? <==> !AllSatisfy(LevelOrder(input), GoodRelabel) || !AllSatisfy(LevelOrder(input), GoodLabelTag)
    ensures !AllSatisfy(LevelOrder(input), GoodRelabel) ==>
      r.msg == ErrBadTarget + FirstRejected(LevelOrder(input), GoodRelabel).value.Param("@label")
    ensures AllSatisfy(LevelOrder(input), GoodRelabel) && !AllSatisfy(LevelOrder(input), GoodLabelTag) ==>
      r.msg == ErrBadLabel + FirstRejected(LevelOrder(input), GoodLabelTag).value.tag + ErrLabelStart
    ensures r.Ok? ==> |LevelOrder(r.value)| == |LevelOrder(input)|
    ensures r.Ok? ==> SameNesting(input, r.value)
    ensures r.Ok? ==> forall i :: 0 <= i < |LevelOrder(input)| ==>
      Strip(LevelOrder(r.value)[i]) == Strip(Relabeled(ctx.namespace, ctx.foreign.hash, LevelOrder(input)[i]))
  {
    var first := RelabelCallback(ctx.namespace, ctx.foreign.hash);
    FirstWalk(ctx.namespace, ctx.foreign.hash, input);
    match ApplyInPlace(input, (), first)
    case Err(e) => Err(e)
    case Ok((mid, _)) => LabelPass(ctx, input, mid)
  }

  /** The first pass: it fails exactly on a bad relabel target, the first
      one in walk order, and otherwise keeps every directive where it was. */
  lemma FirstWalk(ns: string, hash: (string, string) -> string, input: Fragment)
    ensures Shallow(RelabelCallback(ns, hash))
    ensures ApplyInPlace(input, (), RelabelCallback(ns, hash)).Err? <==> !AllSatisfy(LevelOrder(input), GoodRelabel)
    ensures ApplyInPlace(input, (), RelabelCallback(ns, hash)).Err? ==>
      ApplyInPlace(input, (), RelabelCallback(ns, hash)).msg ==
      ErrBadTarget + FirstRejected(LevelOrder(input), GoodRelabel).value.Param("@label")
    ensures ApplyInPlace(input, (), RelabelCallback(ns, hash)).Ok? ==>
      var mid := ApplyInPlace(input, (), RelabelCallback(ns, hash)).value.0;
      Mapped(RelabelCallback(ns, hash), LevelOrder(input), LevelOrder(mid)) && SameNesting(input, mid)
  {
    var first := RelabelCallback(ns, hash);
    CallbackFacts(ns, hash);
    StatelessOutcome(input, first);
    RejectedIffNotAll(LevelOrder(input), first, GoodRelabel);
    FirstRejectedAlike(LevelOrder(input), LevelOrder(input), Accepts(first), GoodRelabel, (d: Directive) => d.Param("@label"));
    WalkImage(input, first);
    KeepsNamesNesting(input, (), first);
  }

  /** The second pass, on the first pass's output `mid`, stated on the
      original input. */
  function LabelPass(ctx: ProcessorContext, input: Fragment, mid: Fragment): (r: Result<Fragment>)
    requires Mapped(RelabelCallback(ctx.namespace, ctx.foreign.hash), LevelOrder(input), LevelOrder(mid))
    requires SameNesting(input, mid)
    ensures r.Err? <==> !AllSatisfy(LevelOrder(input), GoodLabelTag)
    ensures r.Err? ==> r.msg == ErrBadLabel + FirstRejected(LevelOrder(input), GoodLabelTag).value.tag + ErrLabelStart
    ensures r.Ok? ==> |LevelOrder(r.value)| == |LevelOrder(input)|
    ensures r.Ok? ==> SameNesting(input, r.value)
    ensures r.Ok? ==> forall i :: 0 <= i < |LevelOrder(input)| ==>
      Strip(LevelOrder(r.value)[i]) == Strip(Relabeled(ctx.namespace, ctx.foreign.hash, LevelOrder(input)[i]))
  {
    var second := LabelCallback(ctx.namespace, ctx.foreign.hash);
    SecondWalkFails(ctx.namespace, ctx.foreign.hash, input, mid);
    SecondWalkImage(ctx.namespace, ctx.foreign.hash, input, mid);
    match ApplyInPlace(mid, (), second)
    case Err(e) => Err(e)
    case Ok((out, _)) => Ok(out)
  }

  /** When the second pass fails, judged on the original input. */
  lemma SecondWalkFails(ns: string, hash: (string, string) -> string, input: Fragment, mid: Fragment)
    requires Mapped(RelabelCallback(ns, hash), LevelOrder(input), LevelOrder(mid))
    ensures Shallow(LabelCallback(ns, hash))
    ensures ApplyInPlace(mid, (), LabelCallback(ns, hash)).Err? <==> !AllSatisfy(LevelOrder(input), GoodLabelTag)
    ensures ApplyInPlace(mid, (), LabelCallback(ns, hash)).Err? ==>
      ApplyInPlace(mid, (), LabelCallback(ns, hash)).msg ==
      ErrBadLabel + FirstRejected(LevelOrder(input), GoodLabelTag).value.tag + ErrLabelStart
  {
    var second := LabelCallback(ns, hash);
    CallbackFacts(ns, hash);
    StatelessOutcome(mid, second);
    FirstPassAlike(ns, hash, LevelOrder(input), LevelOrder(mid));
    RejectedIffNotAll(LevelOrder(input), LabelCallback(ns, hash), GoodLabelTag);
    FirstRejectedAlike(LevelOrder(mid), LevelOrder(input), Accepts(second), GoodLabelTag, (d: Directive) => d.tag);
  }

  /** What a successful second pass leaves, position by position. */
  lemma SecondWalkImage(ns: string, hash: (string, string) -> string, input: Fragment, mid: Fragment)
    requires Mapped(RelabelCallback(ns, hash), LevelOrder(input), LevelOrder(mid))
    requires SameNesting(input, mid)
    ensures Shallow(LabelCallback(ns, hash))
    ensures ApplyInPlace(mid, (), LabelCallback(ns, hash)).Ok? ==>
      var out := ApplyInPlace(mid, (), LabelCallback(ns, hash)).value.0;
      |LevelOrder(out)| == |LevelOrder(input)| && SameNesting(input, out) &&
      forall i :: 0 <= i < |LevelOrder(input)| ==>
        Strip(LevelOrder(out)[i]) == Strip(Relabeled(ns, hash, LevelOrder(input)[i]))
  {
    var second := LabelCallback(ns, hash);
    CallbackFacts(ns, hash);
    var w := ApplyInPlace(mid, (), second);
    if w.Ok? {
      var out := w.value.0;
      WalkImage(mid, second);
      KeepsNamesNesting(mid, (), second);
      SameNestingTrans(input, mid, out);
      BothPasses(ns, hash, LevelOrder(input), LevelOrder(mid), LevelOrder(out));
    }
  }

  /** The first pass keeps names and tags, so the second pass judges its
      output as it would judge the input. */
  lemma FirstPassAlike(ns: string, hash: (string, string) -> string, a: seq<Directive>, m: seq<Directive>)
    requires Mapped(RelabelCallback(ns, hash), a, m)
    ensures |m| == |a|
    ensures forall i :: 0 <= i < |m| ==>
      Accepts(LabelCallback(ns, hash))(m[i]) == GoodLabelTag(a[i]) && m[i].tag == a[i].tag
  {
    forall i | 0 <= i < |m|
      ensures Accepts(LabelCallback(ns, hash))(m[i]) == GoodLabelTag(a[i]) && m[i].tag == a[i].tag
    {
      assert Strip(m[i]) == Strip(RelabelCallback(ns, hash)(a[i], ()).value.0);
    }
  }

  /** The two passes, position by position, are `Relabeled`. */
  lemma BothPasses(ns: string, hash: (string, string) -> string, a: seq<Directive>, m: seq<Directive>, o: seq<Directive>)
    requires Mapped(RelabelCallback(ns, hash), a, m) && Mapped(LabelCallback(ns, hash), m, o)
    ensures |o| == |a|
    ensures forall i :: 0 <= i < |a| ==> Strip(o[i]) == Strip(Relabeled(ns, hash, a[i]))
  {
    forall i | 0 <= i < |a| ensures Strip(o[i]) == Strip(Relabeled(ns, hash, a[i])) {
      assert Strip(m[i]) == Strip(RelabelCallback(ns, hash)(a[i], ()).value.0);
      assert Strip(o[i]) == Strip(LabelCallback(ns, hash)(m[i], ()).value.0);
    }
  }

  lemma RejectedIffNotAll(xs: seq<Directive>, cb: Callback<()>, p: Directive -> bool)
    requires forall d :: Accepts(cb)(d) == p(d)
    ensures FirstRejected(xs, Accepts(cb)).Some? <==> !AllSatisfy(xs, p)
  {
    if FirstRejected(xs, Accepts(cb)).None? {
      assert forall i :: 0 <= i < |xs| ==> Accepts(cb)(xs[i]);
    }
  }

  /** The test's expectation: a relabel output that sent events to the label
      `<label L>` still sends them to the same label once both are renamed —
      stated for any pair of directives of the tree, in walk order. */
  lemma RelabelStillReachesLabel(ctx: ProcessorContext, input: Fragment, i: nat, j: nat)
    requires RelabelProcess(ctx, input).Ok?
    requires i < |LevelOrder(input)| && j < |LevelOrder(input)|
    requires IsRelabel(LevelOrder(input)[i]) && LevelOrder(input)[j].name == "label"
    requires LevelOrder(input)[i].Param("@label") == LevelOrder(input)[j].tag
    ensures LevelOrder(RelabelProcess(ctx, input).value)[i].Param("@label") ==
            LevelOrder(RelabelProcess(ctx, input).value)[j].tag
    ensures LevelOrder(RelabelProcess(ctx, input).value)[j].tag ==
            NormalizeLabelName(ctx.namespace, ctx.foreign.hash, LevelOrder(input)[j].tag)
  {
    var ns := ctx.namespace;
    var hash := ctx.foreign.hash;
    var first := RelabelCallback(ns, hash);
    var second := LabelCallback(ns, hash);
    CallbackFacts(ns, hash);
    var mid := ApplyInPlace(input, (), first).value.0;
    var out := ApplyInPlace(mid, (), second).value.0;
    assert RelabelProcess(ctx, input).value == out;
    WalkImage(input, first);
    WalkImage(mid, second);
    var a := LevelOrder(input);
    var m := LevelOrder(mid);
    var o := LevelOrder(out);
    assert Strip(m[i]) == Strip(first(a[i], ()).value.0);
    assert Strip(m[j]) == Strip(first(a[j], ()).value.0);
    assert Strip(o[i]) == Strip(second(m[i], ()).value.0);
    assert Strip(o[j]) == Strip(second(m[j], ()).value.0);
  }
}
