/** Cross-namespace sharing (config-reloader/processors/share.go). A
    namespace S shares its logs with D through a `<store>` of `@type share`
    and `with_namespace D` inside a `copy` match; D receives them in
    `<label @$from(S)>`. Both ends are renamed to the bridge label
    `@bridge-S__D`, and the sender keeps its store only if some receiver
    referenced the bridge during `Prepare`. */
module Share {
  import opened Wrappers
  import opened Fluentd
  import opened Strs
  import opened Util
  import opened Processor

  /** The errors of the pass, as the source words them. */
  const ErrShareNoNamespace: string := "@type share required a with_namespace parameter"

  const MacroFromPrefix: string := "@$from("

  /** `makeBridgeName`. */
  function MakeBridgeName(sourceNs: string, destNs: string): (r: string)
    ensures HasPrefix(r, "@bridge-" + sourceNs + "__")
  {
    "@bridge-" + sourceNs + "__" + destNs
  }

  /** Namespace names have no `_` (they are DNS labels), so a bridge name
      determines both of its namespaces. */
  lemma BridgeNameInjective(s1: string, d1: string, s2: string, d2: string)
    requires '_' !in s1 && '_' !in s2
    requires MakeBridgeName(s1, d1) == MakeBridgeName(s2, d2)
    ensures s1 == s2 && d1 == d2
  {
    var b := MakeBridgeName(s1, d1);
    assert b[8..] == s1 + "__" + d1;
    assert MakeBridgeName(s2, d2)[8..] == s2 + "__" + d2;
    SplitAtUnderscore(s1, d1);
    SplitAtUnderscore(s2, d2);
  }

  /** `s__d` splits back into `s` and `d` at its first `_`. */
  lemma SplitAtUnderscore(s: string, d: string)
    requires '_' !in s
    ensures var u := s + "__" + d;
      IndexOf(u, '_') == |s| && u[..|s|] == s && u[|s| + 2..] == d
  {
    var u := s + "__" + d;
    assert u[|s|] == '_';
    assert u[..|s|] == s;
  }

  /** `extractSourceNsFromMacro`: the trimmed text between `@$from(` and the
      last `)`, or "" when the label is not such a macro. */
  function ExtractSourceNs(labelExpr: string): (r: string)
    ensures !HasPrefix(labelExpr, MacroFromPrefix) || ')' !in labelExpr ==> r == ""
  {
    if !HasPrefix(labelExpr, MacroFromPrefix) then ""
    else
      var i := LastIndexOf(labelExpr, ')');
      if i <= 0 then ""
      else
        assert labelExpr[..|MacroFromPrefix|] == MacroFromPrefix;
        Trim(labelExpr[|MacroFromPrefix|..i])
  }

  /** The macro a receiving namespace writes gives back the sender's name. */
  lemma ExtractFromMacro(sourceNs: string)
    requires ')' !in sourceNs && sourceNs != []
    requires !IsSpace(sourceNs[0]) && !IsSpace(sourceNs[|sourceNs| - 1])
    ensures ExtractSourceNs(MacroFromPrefix + sourceNs + ")") == sourceNs
  {
    var e := MacroFromPrefix + sourceNs + ")";
    assert e[..|MacroFromPrefix|] == MacroFromPrefix;
    assert LastIndexOf(e, ')') == |e| - 1;
    assert e[|MacroFromPrefix|..|e| - 1] == sourceNs;
    TrimUnchanged(sourceNs);
  }

  // ---------------------------------------------------------------------
  // Prepare

  /** The bridge one directive of namespace `ns` refers to, if any. */
  function BridgeOf(ns: string, d: Directive): (r: set<string>)
    ensures |r| <= 1
  {
    if d.name == "label" && ExtractSourceNs(d.tag) != "" then {MakeBridgeName(ExtractSourceNs(d.tag), ns)} else {}
  }

  function BridgeStep(ns: string): (set<string>, Directive) -> set<string>
  {
    (acc: set<string>, d: Directive) => acc + BridgeOf(ns, d)
  }

  /** Every bridge a receiving namespace refers to, anywhere in its tree. */
  function Bridges(ns: string, input: Fragment): set<string>
  {
    FoldSeq(BridgeStep(ns), {}, LevelOrder(input))
  }

  lemma {:induction false} FoldBridges(ns: string, acc: set<string>, xs: seq<Directive>)
    ensures forall b :: b in FoldSeq(BridgeStep(ns), acc, xs) <==>
      b in acc || exists i :: 0 <= i < |xs| && b in BridgeOf(ns, xs[i])
    decreases |xs|
  {
    if |xs| > 0 {
      FoldBridges(ns, acc + BridgeOf(ns, xs[0]), xs[1..]);
      assert forall i :: 1 <= i < |xs| ==> xs[i] == xs[1..][i - 1];
      assert forall i :: 0 <= i < |xs| - 1 ==> xs[1..][i] == xs[i + 1];
    }
  }

  /** A bridge is referenced exactly when some `<label @$from(S)>` of the
      tree names its sender. */
  lemma BridgesAreFromLabels(ns: string, input: Fragment, b: string)
    ensures b in Bridges(ns, input) <==>
      exists i :: 0 <= i < |LevelOrder(input)| && LevelOrder(input)[i].name == "label" &&
        ExtractSourceNs(LevelOrder(input)[i].tag) != "" &&
        b == MakeBridgeName(ExtractSourceNs(LevelOrder(input)[i].tag), ns)
  {
    var xs := LevelOrder(input);
    assert Bridges(ns, input) == FoldSeq(BridgeStep(ns), {}, xs);
    FoldBridges(ns, {}, xs);
    forall i | 0 <= i < |xs|
      ensures b in BridgeOf(ns, xs[i]) <==>
        xs[i].name == "label" && ExtractSourceNs(xs[i].tag) != "" && b == MakeBridgeName(ExtractSourceNs(xs[i].tag), ns)
    {
      BridgeOfMeans(ns, xs[i], b);
    }
  }

  lemma BridgeOfMeans(ns: string, d: Directive, b: string)
    ensures b in BridgeOf(ns, d) <==>
      d.name == "label" && ExtractSourceNs(d.tag) != "" && b == MakeBridgeName(ExtractSourceNs(d.tag), ns)
  {
  }

  /** `shareLogsState.Prepare`: records in the shared generation context
      every bridge the namespace receives from, and contributes nothing to
      the main file. */
  method SharePrepare(gen: GenerationContext, ns: string, input: Fragment) returns (r: Result<Fragment>)
    modifies gen
    ensures r == Ok([])
    ensures gen.referencedBridges == old(gen.referencedBridges) + Bridges(ns, input)
    ensures gen.needsProcessing == old(gen.needsProcessing) && gen.plugins == old(gen.plugins)
  {
    FolderSeesLevelOrder(input, {}, BridgeStep(ns));
    var walked := ApplyInPlace(input, {}, Folder(BridgeStep(ns)));
    gen.referencedBridges := gen.referencedBridges + walked.value.1;
    r := Ok([]);
  }

  // ---------------------------------------------------------------------
  // Process: rewriteShareType

  predicate IsShareStore(d: Directive)
  {
    d.name == "store" && d.Type() == "share"
  }

  /** The store that forwards to a bridge. */
  function Relay(bridge: string): (d: Directive)
    ensures d.name == "store" && d.Type() == "relabel" && d.Param("@label") == bridge && d.nested == []
  {
    Directive("store", "", map["@type" := "relabel", "@label" := bridge], [])
  }

  /** The bridge a share store of namespace `ns` would forward to. */
  function StoreBridge(ns: string, d: Directive): string
  {
    MakeBridgeName(ns, d.Param("with_namespace"))
  }

  /** What one child of a copy match becomes in `rewriteShareType`: other
      children are kept, a share store becomes a relay to its bridge when the
      bridge is referenced and disappears otherwise. */
  function StoreOut(ns: string, refs: set<string>, n: Directive): (r: Fragment)
    ensures |r| <= 1
  {
    if !IsShareStore(n) then [n]
    else if StoreBridge(ns, n) in refs then [Relay(StoreBridge(ns, n))]
    else []
  }

  /** A share store without `with_namespace`, which `rewriteShareType` refuses. */
  predicate BadShare(d: Directive)
  {
    IsShareStore(d) && d.Param("with_namespace") == ""
  }

  /** The loop of `rewriteShareType` over a copy match's children. */
  function ShareStores(ns: string, refs: set<string>, nested: Fragment): (r: Result<Fragment>)
    ensures r.Err? <==> exists j :: 0 <= j < |nested| && BadShare(nested[j])
    ensures r.Ok? ==> |r.value| <= |nested| && FragHeight(r.value) <= FragHeight(nested)
    decreases |nested|
  {
    if |nested| == 0 then Ok([])
    else
      var n := nested[0];
      assert forall j :: 1 <= j < |nested| ==> nested[j] == nested[1..][j - 1];
      if BadShare(n) then Err(ErrShareNoNamespace)
      else
        match ShareStores(ns, refs, nested[1..])
        case Err(e) =>
          assert forall j :: 0 <= j < |nested| - 1 ==> nested[1..][j] == nested[j + 1];
          Err(e)
        case Ok(rest) =>
          FragHeightTail(nested);
          OutHeight(nested, StoreOut(ns, refs, n), rest);
          Ok(StoreOut(ns, refs, n) + rest)
  }

  lemma OutHeight(f: Fragment, e: Fragment, rest: Fragment)
    requires |f| > 0 && |e| <= 1 && (|e| == 1 ==> Height(e[0]) <= Height(f[0]))
    requires FragHeight(rest) <= FragHeight(f[1..])
    ensures FragHeight(e + rest) <= FragHeight(f)
  {
    if |e| == 1 {
      LevelHeight(f, e[0], rest);
      assert e + rest == [e[0]] + rest;
    } else {
      assert e + rest == rest;
      FragHeightTail(f);
    }
  }

  /** What comes out of the loop: no share store is left, every other child
      is kept, every share store whose bridge is referenced is replaced by a
      relay to it, and nothing else appears. */
  lemma ShareStoresContents(ns: string, refs: set<string>, nested: Fragment)
    requires ShareStores(ns, refs, nested).Ok?
    ensures var out := ShareStores(ns, refs, nested).value;
      (forall i :: 0 <= i < |out| ==> !IsShareStore(out[i])) &&
      (forall j :: 0 <= j < |nested| && !IsShareStore(nested[j]) ==> nested[j] in out) &&
      (forall j :: 0 <= j < |nested| && IsShareStore(nested[j]) && StoreBridge(ns, nested[j]) in refs ==>
         Relay(StoreBridge(ns, nested[j])) in out) &&
      (forall x :: x in out ==>
         (x in nested && !IsShareStore(x)) ||
         (exists j :: 0 <= j < |nested| && IsShareStore(nested[j]) && StoreBridge(ns, nested[j]) in refs &&
            x == Relay(StoreBridge(ns, nested[j]))))
  {
    StoresLeaveNoStore(ns, refs, nested);
    StoresKeep(ns, refs, nested);
    StoresAddNothing(ns, refs, nested);
  }

  lemma {:induction false} StoresLeaveNoStore(ns: string, refs: set<string>, nested: Fragment)
    requires ShareStores(ns, refs, nested).Ok?
    ensures var out := ShareStores(ns, refs, nested).value;
      forall i :: 0 <= i < |out| ==> !IsShareStore(out[i])
    decreases |nested|
  {
    if |nested| > 0 {
      StoresLeaveNoStore(ns, refs, nested[1..]);
      var rest := ShareStores(ns, refs, nested[1..]).value;
      var e := StoreOut(ns, refs, nested[0]);
      assert ShareStores(ns, refs, nested).value == e + rest;
      assert forall i :: 0 <= i < |e| ==> !IsShareStore(e[i]);
    }
  }

  lemma {:induction false} StoresKeep(ns: string, refs: set<string>, nested: Fragment)
    requires ShareStores(ns, refs, nested).Ok?
    ensures var out := ShareStores(ns, refs, nested).value;
      (forall j :: 0 <= j < |nested| && !IsShareStore(nested[j]) ==> nested[j] in out) &&
      (forall j :: 0 <= j < |nested| && IsShareStore(nested[j]) && StoreBridge(ns, nested[j]) in refs ==>
         Relay(StoreBridge(ns, nested[j])) in out)
    decreases |nested|
  {
    if |nested| > 0 {
      var tail := nested[1..];
      StoresKeep(ns, refs, tail);
      var rest := ShareStores(ns, refs, tail).value;
      var out := ShareStores(ns, refs, nested).value;
      assert out == StoreOut(ns, refs, nested[0]) + rest;
      assert forall j :: 1 <= j < |nested| ==> nested[j] == tail[j - 1];
    }
  }

  lemma {:induction false} StoresAddNothing(ns: string, refs: set<string>, nested: Fragment)
    requires ShareStores(ns, refs, nested).Ok?
    ensures var out := ShareStores(ns, refs, nested).value;
      forall x :: x in out ==>
        (x in nested && !IsShareStore(x)) ||
        (exists j :: 0 <= j < |nested| && IsShareStore(nested[j]) && StoreBridge(ns, nested[j]) in refs &&
           x == Relay(StoreBridge(ns, nested[j])))
    decreases |nested|
  {
    if |nested| > 0 {
      var n := nested[0];
      var tail := nested[1..];
      StoresAddNothing(ns, refs, tail);
      var rest := ShareStores(ns, refs, tail).value;
      var out := ShareStores(ns, refs, nested).value;
      assert out == StoreOut(ns, refs, n) + rest;
      forall x | x in out
        ensures (x in nested && !IsShareStore(x)) ||
          (exists j :: 0 <= j < |nested| && IsShareStore(nested[j]) && StoreBridge(ns, nested[j]) in refs &&
             x == Relay(StoreBridge(ns, nested[j])))
      {
        if x in rest {
          if !(x in tail && !IsShareStore(x)) {
            var j :| 0 <= j < |tail| && IsShareStore(tail[j]) && StoreBridge(ns, tail[j]) in refs &&
              x == Relay(StoreBridge(ns, tail[j]));
            assert nested[j + 1] == tail[j];
          } else {
            assert x in nested;
          }
        } else {
          assert x in StoreOut(ns, refs, n);
          if IsShareStore(n) {
            assert nested[0] == n;
          }
        }
      }
    }
  }

  /** The same loop as the source writes it, appending to a new slice. */
  method ShareStoresLoop(ns: string, refs: set<string>, nested: Fragment) returns (r: Result<Fragment>)
    ensures r == ShareStores(ns, refs, nested)
  {
    var content: Fragment := [];
    var i := 0;
    ResumeFromStart(ns, refs, nested);
    while i < |nested|
      invariant 0 <= i <= |nested|
      invariant ShareStores(ns, refs, nested) == Resume(ns, refs, nested[i..], content)
    {
      var emitted := StoreEmit(ns, refs, nested[i]);
      if emitted.Err? {
        StoresStop(ns, refs, nested, i, content);
        r := Err(emitted.msg);
        return;
      }
      StoresStep(ns, refs, nested, i, content);
      content := content + emitted.value;
      i := i + 1;
    }
    ResumeAtEnd(ns, refs, nested[i..], content);
    r := Ok(content);
  }

  /** One child of the loop: kept, replaced by a relay, dropped, or
      refused. */
  method StoreEmit(ns: string, refs: set<string>, n: Directive) returns (r: Result<Fragment>)
    ensures r.Err? <==> BadShare(n)
    ensures r.Err? ==> r.msg == ErrShareNoNamespace
    ensures r.Ok? ==> r.value == StoreOut(ns, refs, n)
  {
    if n.name != "store" || n.Type() != "share" {
      return Ok([n]);
    }
    var destNs := n.Param("with_namespace");
    if destNs == "" {
      return Err(ErrShareNoNamespace);
    }
    var bridge := MakeBridgeName(ns, destNs);
    if bridge in refs {
      return Ok([Relay(bridge)]);
    }
    return Ok([]);
  }

  /** The loop's outcome once `content` holds what the children before
      `nested` gave. */
  function Resume(ns: string, refs: set<string>, nested: Fragment, content: Fragment): Result<Fragment>
  {
    match ShareStores(ns, refs, nested)
    case Err(e) => Err(e)
    case Ok(rest) => Ok(content + rest)
  }

  lemma ResumeFromStart(ns: string, refs: set<string>, nested: Fragment)
    ensures ShareStores(ns, refs, nested) == Resume(ns, refs, nested[0..], [])
  {
    assert nested[0..] == nested;
    match ShareStores(ns, refs, nested) {
      case Err(_) =>
      case Ok(rest) => assert [] + rest == rest;
    }
  }

  lemma ResumeAtEnd(ns: string, refs: set<string>, nested: Fragment, content: Fragment)
    requires nested == []
    ensures Resume(ns, refs, nested, content) == Ok(content)
  {
    assert content + [] == content;
  }

  lemma StoresStop(ns: string, refs: set<string>, nested: Fragment, i: nat, content: Fragment)
    requires i < |nested| && BadShare(nested[i])
    ensures Resume(ns, refs, nested[i..], content) == Err(ErrShareNoNamespace)
  {
    assert nested[i..][0] == nested[i];
  }

  lemma StoresStep(ns: string, refs: set<string>, nested: Fragment, i: nat, content: Fragment)
    requires i < |nested| && !BadShare(nested[i])
    ensures Resume(ns, refs, nested[i..], content) ==
            Resume(ns, refs, nested[i + 1..], content + StoreOut(ns, refs, nested[i]))
  {
    var tail := nested[i..];
    assert tail[0] == nested[i] && tail[1..] == nested[i + 1..];
    match ShareStores(ns, refs, tail[1..])
    case Err(e) =>
    case Ok(rest) =>
      var emitted := StoreOut(ns, refs, nested[i]);
      assert ShareStores(ns, refs, tail) == Ok(emitted + rest);
      assert content + (emitted + rest) == content + emitted + rest;
  }

  /** `rewriteShareType` on one directive. */
  function ShareType(ns: string, refs: set<string>, d: Directive): (r: Result<Directive>)
    ensures r.Ok? ==> Height(r.value) <= Height(d)
  {
    if d.name != "match" || d.Type() != "copy" then Ok(d)
    else
      match ShareStores(ns, refs, d.nested)
      case Err(e) => Err(e)
      case Ok(stores) => Ok(d.(nested := stores))
  }

  function ShareTypeCallback(ns: string, refs: set<string>): Callback<()>
  {
    (d: Directive, u: ()) =>
      match ShareType(ns, refs, d)
      case Ok(e) => Ok((e, u))
      case Err(m) => Err(m)
  }

  lemma ShareTypeShallow(ns: string, refs: set<string>)
    ensures Shallow(ShareTypeCallback(ns, refs))
  {
  }

  // ---------------------------------------------------------------------
  // Process: rewriteFromMacro

  /** What `makeRewriteTagFragment` parses from its template: a match on the
      sender's logs that re-tags them into the receiver's namespace. */
  function BridgeFragment(sourceNs: string, destNs: string): (f: Fragment)
    ensures |f| == 1 && f[0].name == "match" && f[0].tag == "kube." + sourceNs + ".**"
    ensures f[0].Type() == "rewrite_tag_filter"
  {
    [Directive("match", "kube." + sourceNs + ".**", map["@type" := "rewrite_tag_filter"],
       [Directive("rule", "", map["key" := "_dummy_", "pattern" := "/ZZ/", "invert" := "true",
                                  "tag" := "kube." + destNs + ".${tag_parts[2]}.${tag_parts[3]}"], [])])]
  }

  /** A `<label>` carrying a `$from` macro. */
  predicate IsFromLabel(d: Directive)
  {
    d.name == "label" && ExtractSourceNs(d.tag) != ""
  }

  /** The callback `rewriteFromMacro` on one directive: the label gets the
      bridge name, and the re-tagging match goes in front of its children. */
  function FromRewrite(ns: string, d: Directive): (e: Directive)
    ensures !IsFromLabel(d) ==> e == d
    ensures IsFromLabel(d) ==>
      e.name == "label" && e.params == d.params &&
      e.tag == MakeBridgeName(ExtractSourceNs(d.tag), ns) &&
      e.nested == BridgeFragment(ExtractSourceNs(d.tag), ns) + d.nested
  {
    if !IsFromLabel(d) then d
    else
      var src := ExtractSourceNs(d.tag);
      d.(tag := MakeBridgeName(src, ns), nested := BridgeFragment(src, ns) + d.nested)
  }

  /** The walk of `rewriteFromMacro`. The callback makes a directive deeper,
      so the generic walker does not apply; this walk recurses on the
      original children and puts the inserted match in front, which is
      what walking the new children amounts to (`FromWalkIsCallbackThenChildren`). */
  function FromWalk(ns: string, dirs: Fragment): (r: Fragment)
    ensures |r| == |dirs|
    decreases dirs, 1
  {
    if |dirs| == 0 then [] else [FromOne(ns, dirs[0])] + FromWalk(ns, dirs[1..])
  }

  function FromOne(ns: string, d: Directive): (e: Directive)
    decreases d, 0
  {
    if IsFromLabel(d) then
      var src := ExtractSourceNs(d.tag);
      d.(tag := MakeBridgeName(src, ns), nested := BridgeFragment(src, ns) + FromWalk(ns, d.nested))
    else d.(nested := FromWalk(ns, d.nested))
  }

  lemma {:induction false} FromWalkAppend(ns: string, a: Fragment, b: Fragment)
    ensures FromWalk(ns, a + b) == FromWalk(ns, a) + FromWalk(ns, b)
    decreases |a|
  {
    if |a| > 0 {
      assert (a + b)[0] == a[0] && (a + b)[1..] == a[1..] + b;
      FromWalkAppend(ns, a[1..], b);
    } else {
      assert a + b == b;
    }
  }

  /** The inserted match holds no label, so walking it changes nothing. */
  lemma BridgeFragmentFixed(ns: string, sourceNs: string, destNs: string)
    ensures FromWalk(ns, BridgeFragment(sourceNs, destNs)) == BridgeFragment(sourceNs, destNs)
  {
    var f := BridgeFragment(sourceNs, destNs);
    var rule := f[0].nested[0];
    assert FromWalk(ns, rule.nested) == [];
    assert FromOne(ns, rule) == rule;
    assert FromWalk(ns, f[0].nested) == [rule] + FromWalk(ns, []);
    assert FromWalk(ns, f[0].nested) == f[0].nested;
    assert FromOne(ns, f[0]) == f[0];
  }

  /** Each directive is first rewritten by the callback, then its (new)
      children are walked: the order of `applyRecursivelyInPlace`. */
  lemma FromWalkIsCallbackThenChildren(ns: string, d: Directive)
    ensures FromOne(ns, d) == FromRewrite(ns, d).(nested := FromWalk(ns, FromRewrite(ns, d).nested))
  {
    if IsFromLabel(d) {
      var src := ExtractSourceNs(d.tag);
      FromWalkAppend(ns, BridgeFragment(src, ns), d.nested);
      BridgeFragmentFixed(ns, src, ns);
    }
  }

  /** `shareLogsState.Process`: the share stores of copy matches first, then
      the `$from` labels. `refs` are the bridges referenced in the shared
      generation context. */
  function ShareProcess(ctx: ProcessorContext, refs: set<string>, input: Fragment): (r: Result<Fragment>)
    ensures r.Ok? ==> |r.value| == |input|
  {
    ShareTypeShallow(ctx.namespace, refs);
    match ApplyInPlace(input, (), ShareTypeCallback(ctx.namespace, refs))
    case Err(e) => Err(e)
    case Ok((mid, _)) => Ok(FromWalk(ctx.namespace, mid))
  }

  /** Both ends of a share meet. In D, `<label @$from(S)>` references the
      bridge `@bridge-S__D` in `Prepare`; with it referenced, S's share store
      for D becomes a relay to that bridge, and D's label is renamed to it. */
  lemma ShareReachesLabel(s: string, dst: string, recv: Directive, store: Directive, refs: set<string>)
    requires ')' !in s && s != [] && !IsSpace(s[0]) && !IsSpace(s[|s| - 1])
    requires recv.name == "label" && recv.tag == MacroFromPrefix + s + ")"
    requires IsShareStore(store) && store.Param("with_namespace") == dst && dst != ""
    requires BridgeOf(dst, recv) <= refs
    ensures ShareStores(s, refs, [store]) == Ok([Relay(MakeBridgeName(s, dst))])
    ensures FromOne(dst, recv).tag == MakeBridgeName(s, dst)
  {
    ExtractFromMacro(s);
    assert IsFromLabel(recv);
    assert MakeBridgeName(s, dst) in BridgeOf(dst, recv);
    SingleStore(s, refs, store);
  }

  lemma SingleStore(ns: string, refs: set<string>, store: Directive)
    requires !BadShare(store)
    ensures ShareStores(ns, refs, [store]) == Ok(StoreOut(ns, refs, store))
  {
    assert [store][1..] == [];
    assert StoreOut(ns, refs, store) + [] == StoreOut(ns, refs, store);
  }

  /** Without a receiver, the share store is dropped. */
  lemma UnreferencedShareDropped(s: string, store: Directive, refs: set<string>)
    requires IsShareStore(store) && store.Param("with_namespace") != ""
    requires StoreBridge(s, store) !in refs
    ensures ShareStores(s, refs, [store]) == Ok([])
  {
    SingleStore(s, refs, store);
  }

  // ---------------------------------------------------------------------
  // GetValidationTrailer

  /** The placeholder label that makes a bridge resolvable when the sender's
      configuration is validated alone. */
  function NullLabel(bridge: string): (d: Directive)
    ensures d.name == "label" && d.tag == bridge
  {
    Directive("label", bridge, map[], [Directive("match", "**", map["@type" := "null"], [])])
  }

  /** The trailer for the bridges listed in `order` (the iteration order of
      Go's map, which the model takes as given): one placeholder label per
      bridge this namespace sends through. */
  function Trailer(ns: string, order: seq<string>): (r: Fragment)
    ensures forall i :: 0 <= i < |r| ==>
      r[i].name == "label" && r[i].tag in order &&
      HasPrefix(r[i].tag, "@bridge-" + ns + "__")
    ensures forall k :: k in order && HasPrefix(k, "@bridge-" + ns + "__") ==> NullLabel(k) in r
    decreases |order|
  {
    if |order| == 0 then []
    else
      var rest := Trailer(ns, order[1..]);
      if HasPrefix(order[0], "@bridge-" + ns + "__") then [NullLabel(order[0])] + rest else rest
  }

  /** `shareLogsState.GetValidationTrailer`, the loop over the bridges. */
  method TrailerLoop(ns: string, order: seq<string>) returns (res: Fragment)
    ensures res == Trailer(ns, order)
  {
    res := [];
    var i := |order|;
    while i > 0
      invariant 0 <= i <= |order|
      invariant res == Trailer(ns, order[i..])
    {
      i := i - 1;
      assert order[i..][1..] == order[i + 1..];
      if HasPrefix(order[i], "@bridge-" + ns + "__") {
        res := [NullLabel(order[i])] + res;
      }
    }
    assert order[0..] == order;
  }

  /** Every relay a namespace's share stores produce targets a label that
      its validation trailer defines. */
  lemma TrailerDefinesRelays(ns: string, refs: set<string>, order: seq<string>, nested: Fragment, x: Directive)
    requires forall k :: k in order <==> k in refs
    requires ShareStores(ns, refs, nested).Ok? && x in ShareStores(ns, refs, nested).value
    requires x.name == "store" && x.Type() == "relabel" && x !in nested
    ensures NullLabel(x.Param("@label")) in Trailer(ns, order)
  {
    ShareStoresContents(ns, refs, nested);
    var j :| 0 <= j < |nested| && IsShareStore(nested[j]) && StoreBridge(ns, nested[j]) in refs &&
      x == Relay(StoreBridge(ns, nested[j]));
  }
}
