/** The `$thisns` macro (config-reloader/processors/thisns.go): every
    `<match>` and `<filter>` of a namespace's configuration is confined to
    the tags `kube.<namespace>.…`; `**` and `$thisns` become exactly that
    pattern, and any other tag must already lie inside it. */
module Thisns {
  import opened Wrappers
  import opened Fluentd
  import opened Strs
  import opened Processor
  import Labels

  /** The errors of the pass, as the source words them. */
  const ErrBraces: string := "Cannot process {} in the tag yet"
  const ErrTagStart: string := ". Tag must start with **, $thins or "

  const MacroThisns: string := "$thisns"

  /** `kube.<namespace>`, the tag prefix of the namespace's logs. */
  function GoodPrefix(ns: string): (p: string)
    ensures HasPrefix(p, "kube.") && |p| == |ns| + 5
  {
    "kube." + ns
  }

  /** The callback of `expandThisnsMacroState.Process` on one directive.
      Which tags count as a `$thisns` prefix to rewrite is `macroPrefix`: the
      source rewrites every tag starting with `$thisns`; the intended form
      requires the dot after it. */
  function Rewrite(ns: string, gen: Option<GenState>, macroPrefix: string, d: Directive): (r: Result<Directive>)
    ensures r.Ok? ==> TagOnlyStep(d, r.value)
  {
    var good := GoodPrefix(ns);
    if !IsMatchOrFilter(d) then Ok(d)
    else if d.tag == "**" || d.tag == MacroThisns then Ok(GenAugment(gen, d.(tag := good + ".**")))
    else if HasPrefix(d.tag, macroPrefix) && |MacroThisns| <= |d.tag| then
      Ok(GenAugment(gen, d.(tag := good + d.tag[|MacroThisns|..])))
    else if '{' in d.tag then Err(ErrBraces)
    else if HasPrefix(d.tag, Labels.MacroLabels) then Ok(d)
    else if !HasPrefix(ReplaceAll(d.tag, MacroThisns, good), good + ".") then
      Err("bad tag for <" + d.name + ">: " + d.tag + ErrTagStart + ns)
    else Ok(d)
  }

  /** The rewrite as written in thisns.go:38-42. */
  function RewriteAsWritten(ns: string, gen: Option<GenState>, d: Directive): Result<Directive>
  {
    Rewrite(ns, gen, MacroThisns, d)
  }

  /** The rewrite with a `$thisns` prefix taken only before a dot. */
  function RewriteIntended(ns: string, gen: Option<GenState>, d: Directive): Result<Directive>
  {
    Rewrite(ns, gen, MacroThisns + ".", d)
  }

  function Thisns(ns: string, gen: Option<GenState>): Callback<()>
  {
    (d: Directive, u: ()) =>
      match RewriteIntended(ns, gen, d)
      case Ok(e) => Ok((e, u))
      case Err(m) => Err(m)
  }

  /** The directives the intended callback accepts: anything that is not a
      match or filter; the macro forms; and tags without braces that are
      `$labels` macros or lie under `kube.<namespace>.` once every
      `$thisns` in them is read as the namespace prefix. */
  predicate Admitted(ns: string, d: Directive)
  {
    !IsMatchOrFilter(d) || d.tag == "**" || d.tag == MacroThisns || HasPrefix(d.tag, MacroThisns + ".") ||
    ('{' !in d.tag &&
     (HasPrefix(d.tag, Labels.MacroLabels) ||
      HasPrefix(ReplaceAll(d.tag, MacroThisns, GoodPrefix(ns)), GoodPrefix(ns) + ".")))
  }

  lemma ThisnsShape(ns: string, gen: Option<GenState>)
    ensures Shallow(Thisns(ns, gen)) && TagOnly(Thisns(ns, gen))
  {
  }

  /** One directive under the intended callback: accepted exactly when
      admitted; a macro becomes the (augmented) namespace pattern; every
      other accepted directive is left as it is. */
  lemma ThisnsDirective(ns: string, gen: Option<GenState>, d: Directive)
    ensures RewriteIntended(ns, gen, d).Ok? <==> Admitted(ns, d)
    ensures IsMatchOrFilter(d) && (d.tag == "**" || d.tag == MacroThisns) ==>
      RewriteIntended(ns, gen, d).value == GenAugment(gen, d.(tag := "kube." + ns + ".**"))
    ensures IsMatchOrFilter(d) && HasPrefix(d.tag, MacroThisns + ".") ==>
      RewriteIntended(ns, gen, d).value == GenAugment(gen, d.(tag := "kube." + ns + d.tag[7..]))
    ensures RewriteIntended(ns, gen, d).Ok? && !(IsMatchOrFilter(d) && (d.tag == "**" || HasPrefix(d.tag, MacroThisns))) ==>
      RewriteIntended(ns, gen, d).value == d
  {
    if HasPrefix(d.tag, MacroThisns + ".") {
      assert d.tag[..7] == (MacroThisns + ".")[..7] == MacroThisns;
    }
  }

  /** `expandThisnsMacroState.Process` with the intended callback: it fails
      exactly when some directive of the tree is not admitted, reporting the
      first in walk order, and otherwise changes tags only: each directive,
      in walk order, carries the tag the callback gives the input's
      directive at that place (`ThisnsDirective`). */
  function ThisnsProcess(ctx: ProcessorContext, input: Fragment): (r: Result<Fragment>)
    ensures r.Ok? ==> SameShape(input, r.value)
    ensures r.Err? <==> exists i :: 0 <= i < |LevelOrder(input)| && !Admitted(ctx.namespace, LevelOrder(input)[i])
    ensures r.Ok? ==> Mapped(Thisns(ctx.namespace, ctx.gen), LevelOrder(input), LevelOrder(r.value))
  {
    var cb := Thisns(ctx.namespace, ctx.gen);
    ThisnsShape(ctx.namespace, ctx.gen);
    TagOnlyKeepsChildren(cb);
    StatelessOutcome(input, cb);
    TagOnlyKeepsShape(input, (), cb);
    AcceptsAdmitted(ctx.namespace, ctx.gen);
    WalkImage(input, cb);
    match ApplyInPlace(input, (), cb)
    case Err(e) => Err(e)
    case Ok((out, _)) => Ok(out)
  }

  lemma AcceptsAdmitted(ns: string, gen: Option<GenState>)
    ensures forall d :: Accepts(Thisns(ns, gen))(d) == Admitted(ns, d)
  {
    forall d ensures Accepts(Thisns(ns, gen))(d) == Admitted(ns, d) {
      ThisnsDirective(ns, gen, d);
    }
  }

  /** A tag under `kube.<namespace>.` keeps that prefix when `$thisns` is
      replaced, as long as the prefix itself has no `$`. */
  lemma {:induction false} ReplaceKeepsPrefix(p: string, rest: string, repl: string)
    requires '$' !in p
    ensures ReplaceAll(p + rest, MacroThisns, repl) == p + ReplaceAll(rest, MacroThisns, repl)
    decreases |p|
  {
    if |p| > 0 {
      var s := p + rest;
      assert s[0] == p[0] && p[0] != '$';
      if |s| >= |MacroThisns| {
        assert s[..|MacroThisns|] != MacroThisns by {
          assert s[..|MacroThisns|][0] != MacroThisns[0];
        }
      }
      assert s[1..] == p[1..] + rest;
      ReplaceKeepsPrefix(p[1..], rest, repl);
      assert [s[0]] + (p[1..] + ReplaceAll(rest, MacroThisns, repl)) == p + ReplaceAll(rest, MacroThisns, repl);
    } else {
      assert p + rest == rest;
    }
  }

  /** A directive already under `kube.<namespace>.` passes unchanged. */
  lemma UnderPrefixAccepted(ns: string, gen: Option<GenState>, e: Directive)
    requires '$' !in ns && '{' !in e.tag && HasPrefix(e.tag, GoodPrefix(ns) + ".")
    ensures RewriteIntended(ns, gen, e) == Ok(e)
  {
    var head := GoodPrefix(ns) + ".";
    assert e.tag[0] == head[0] == 'k';
    assert !HasPrefix(e.tag, MacroThisns + ".") && e.tag != "**" && e.tag != MacroThisns;
    assert !HasPrefix(e.tag, Labels.MacroLabels);
    assert e.tag == head + e.tag[|head|..];
    ReplaceKeepsPrefix(head, e.tag[|head|..], GoodPrefix(ns));
  }

  /** A tag the intended callback writes is one it accepts unchanged: running
      the pass again is a no-op, for namespace names (DNS labels) and tags
      without braces. */
  lemma ThisnsIdempotent(ns: string, gen: Option<GenState>, d: Directive)
    requires '$' !in ns && '{' !in ns && '{' !in d.tag
    requires RewriteIntended(ns, gen, d).Ok?
    ensures RewriteIntended(ns, gen, RewriteIntended(ns, gen, d).value) == RewriteIntended(ns, gen, d)
  {
    var e := RewriteIntended(ns, gen, d).value;
    ThisnsDirective(ns, gen, d);
    if e != d {
      RewrittenUnderPrefix(ns, gen, d);
      UnderPrefixAccepted(ns, gen, e);
    }
  }

  /** What the intended callback writes lies under `kube.<namespace>.`. */
  lemma RewrittenUnderPrefix(ns: string, gen: Option<GenState>, d: Directive)
    requires '{' !in ns && '{' !in d.tag
    requires IsMatchOrFilter(d) && (d.tag == "**" || d.tag == MacroThisns || HasPrefix(d.tag, MacroThisns + "."))
    ensures RewriteIntended(ns, gen, d).Ok?
    ensures '{' !in RewriteIntended(ns, gen, d).value.tag
    ensures HasPrefix(RewriteIntended(ns, gen, d).value.tag, GoodPrefix(ns) + ".")
  {
    if d.tag == "**" || d.tag == MacroThisns {
      PatternUnderPrefix(ns, gen, d);
    } else {
      DottedUnderPrefix(ns, gen, d);
    }
  }

  lemma PatternUnderPrefix(ns: string, gen: Option<GenState>, d: Directive)
    requires '{' !in ns
    requires IsMatchOrFilter(d) && (d.tag == "**" || d.tag == MacroThisns)
    ensures RewriteIntended(ns, gen, d).Ok?
    ensures '{' !in RewriteIntended(ns, gen, d).value.tag
    ensures HasPrefix(RewriteIntended(ns, gen, d).value.tag, GoodPrefix(ns) + ".")
  {
    var head := GoodPrefix(ns) + ".";
    var t := head + "**";
    assert GoodPrefix(ns) + ".**" == t;
    assert RewriteIntended(ns, gen, d) == Ok(GenAugment(gen, d.(tag := t)));
    AugmentedUnderPrefix(gen, t, head);
  }

  lemma DottedUnderPrefix(ns: string, gen: Option<GenState>, d: Directive)
    requires '{' !in ns && '{' !in d.tag
    requires IsMatchOrFilter(d) && d.tag != "**" && d.tag != MacroThisns && HasPrefix(d.tag, MacroThisns + ".")
    ensures RewriteIntended(ns, gen, d).Ok?
    ensures '{' !in RewriteIntended(ns, gen, d).value.tag
    ensures HasPrefix(RewriteIntended(ns, gen, d).value.tag, GoodPrefix(ns) + ".")
  {
    var head := GoodPrefix(ns) + ".";
    assert d.tag[..7] == (MacroThisns + ".")[..7] == MacroThisns;
    assert d.tag[7..] == "." + d.tag[8..];
    var t := head + d.tag[8..];
    assert GoodPrefix(ns) + d.tag[7..] == t;
    assert RewriteIntended(ns, gen, d) == Ok(GenAugment(gen, d.(tag := t)));
    AugmentedUnderPrefix(gen, t, head);
  }

  lemma AugmentedUnderPrefix(gen: Option<GenState>, t: string, head: string)
    requires '{' !in t && HasPrefix(t, head)
    ensures forall d: Directive :: '{' !in GenAugment(gen, d.(tag := t)).tag && HasPrefix(GenAugment(gen, d.(tag := t)).tag, head)
  {
    var a := AugmentTag(t);
    assert a[..|head|] == t[..|head|];
  }

  lemma ReplaceMacroHead(x: string, repl: string)
    requires '$' !in x
    ensures ReplaceAll(MacroThisns + x, MacroThisns, repl) == repl + x
  {
    assert (MacroThisns + x)[..7] == MacroThisns;
    assert (MacroThisns + x)[7..] == x;
    ReplaceKeepsPrefix(x, "", repl);
    assert x + "" == x;
  }

  /** As written, `$thisns` followed by anything but a dot is glued to the
      namespace: `$thisnsx.**` in namespace `a` becomes `kube.ax.**`, a
      pattern of namespace `ax`, which the same pass rejects when it sees it
      again. The intended callback rejects such a tag outright. */
  lemma PrefixWithoutDotEscapes(ns: string, x: string)
    requires '$' !in ns && '{' !in ns && '$' !in x && '{' !in x
    requires |x| > 0 && x[0] != '.'
    ensures RewriteAsWritten(ns, None, Directive("match", MacroThisns + x, map[], [])) ==
            Ok(Directive("match", "kube." + ns + x, map[], []))
    ensures RewriteAsWritten(ns, None, Directive("match", "kube." + ns + x, map[], [])).Err?
    ensures RewriteIntended(ns, None, Directive("match", MacroThisns + x, map[], [])).Err?
  {
    GluedAsWritten(ns, x);
    GluedRejected(ns, x);
    UndottedRejected(ns, x);
  }

  lemma GluedAsWritten(ns: string, x: string)
    requires |x| > 0
    ensures RewriteAsWritten(ns, None, Directive("match", MacroThisns + x, map[], [])) ==
            Ok(Directive("match", "kube." + ns + x, map[], []))
  {
    var t := MacroThisns + x;
    assert t[..7] == MacroThisns && t[7..] == x;
    assert |t| > 7;
  }

  lemma GluedRejected(ns: string, x: string)
    requires '$' !in ns && '{' !in ns && '$' !in x && '{' !in x
    requires |x| > 0 && x[0] != '.'
    ensures RewriteAsWritten(ns, None, Directive("match", "kube." + ns + x, map[], [])).Err?
  {
    var good := GoodPrefix(ns);
    var u := good + x;
    assert u == "kube." + ns + x;
    assert !HasPrefix(u, good + ".") by {
      assert u[|good|] != (good + ".")[|good|];
    }
    assert u[0] == 'k' && u[1] == 'u';
    assert u != "**" && u != MacroThisns by {
      assert u[0] != "**"[0] && u[0] != MacroThisns[0];
    }
    assert !HasPrefix(u, MacroThisns) && !HasPrefix(u, Labels.MacroLabels) by {
      if |MacroThisns| <= |u| {
        assert u[..|MacroThisns|][0] != MacroThisns[0];
      }
      if |Labels.MacroLabels| <= |u| {
        assert u[..|Labels.MacroLabels|][1] != Labels.MacroLabels[1];
      }
    }
    assert '$' !in u && '{' !in u;
    ReplaceKeepsPrefix(u, "", good);
    assert u + "" == u;
    assert ReplaceAll(u, MacroThisns, good) == u;
  }

  lemma UndottedRejected(ns: string, x: string)
    requires '$' !in ns && '{' !in ns && '$' !in x && '{' !in x
    requires |x| > 0 && x[0] != '.'
    ensures RewriteIntended(ns, None, Directive("match", MacroThisns + x, map[], [])).Err?
  {
    var good := GoodPrefix(ns);
    var t := MacroThisns + x;
    assert t[..7] == MacroThisns && t[7..] == x;
    assert !HasPrefix(t, MacroThisns + ".") by {
      assert t[7] != (MacroThisns + ".")[7];
    }
    assert t[1] != Labels.MacroLabels[1];
    ReplaceMacroHead(x, good);
    assert !HasPrefix(good + x, good + ".") by {
      assert (good + x)[|good|] != (good + ".")[|good|];
    }
  }
}
