/** Reusable output definitions (config-reloader/processors/extract_plugins.go):
    the admin namespace defines `<plugin NAME>` blocks, which are taken out of
    its configuration; an output of any namespace whose `@type` is such a name
    gets the plugin's type, its nested content and every parameter it does not
    set itself. */
module ExtractPlugins {
  import opened Wrappers
  import opened Fluentd
  import opened Processor
  import MountedFile
  import Destinations

  const DirPlugin: string := "plugin"

  predicate IsPlugin(d: Directive)
  {
    d.name == DirPlugin
  }

  // ---------------------------------------------------------------------
  // ExtractPlugins

  /** The plugin definitions of a top level, by name; a later definition of
      the same name replaces an earlier one. */
  function PluginsOf(input: Fragment): (m: map<string, Directive>)
    ensures forall k :: k in m ==> IsPlugin(m[k]) && m[k].tag == k && m[k] in input
    decreases |input|
  {
    if |input| == 0 then map[]
    else
      var n := |input| - 1;
      var m := PluginsOf(input[..n]);
      assert forall d :: d in input[..n] ==> d in input;
      if IsPlugin(input[n]) then m[input[n].tag := input[n]] else m
  }

  /** Every plugin definition of the top level is kept under its name, the
      last definition of a name winning. */
  lemma {:induction false} PluginsOfLast(input: Fragment, i: nat)
    requires i < |input| && IsPlugin(input[i])
    requires forall j :: i < j < |input| ==> !(IsPlugin(input[j]) && input[j].tag == input[i].tag)
    ensures input[i].tag in PluginsOf(input) && PluginsOf(input)[input[i].tag] == input[i]
    decreases |input|
  {
    var n := |input| - 1;
    if i < n {
      assert input[..n][i] == input[i];
      PluginsOfLast(input[..n], i);
    }
  }

  /** Only names of plugin definitions are kept. */
  lemma {:induction false} PluginsOfOnlyDefined(input: Fragment, k: string)
    requires forall j :: 0 <= j < |input| ==> !(IsPlugin(input[j]) && input[j].tag == k)
    ensures k !in PluginsOf(input)
    decreases |input|
  {
    if |input| > 0 {
      var n := |input| - 1;
      assert forall j :: 0 <= j < n ==> input[..n][j] == input[j];
      PluginsOfOnlyDefined(input[..n], k);
    }
  }

  /** The top level without its plugin definitions, in order. */
  function NonPlugins(input: Fragment): (r: Fragment)
    ensures |r| <= |input|
    ensures forall i :: 0 <= i < |r| ==> !IsPlugin(r[i]) && r[i] in input
    ensures forall i :: 0 <= i < |input| && !IsPlugin(input[i]) ==> input[i] in r
    decreases |input|
  {
    if |input| == 0 then []
    else
      var n := |input| - 1;
      var r := NonPlugins(input[..n]);
      assert forall i :: 0 <= i < n ==> input[..n][i] == input[i];
      if IsPlugin(input[n]) then r else r + [input[n]]
  }

  /** `ExtractPlugins`: one pass over the top level (nested plugins are not
      looked at); the context's plugins are replaced, not merged. */
  method ExtractPlugins(g: GenerationContext, input: Fragment) returns (res: Fragment)
    modifies g
    ensures g.plugins == PluginsOf(input) && res == NonPlugins(input)
    ensures g.referencedBridges == old(g.referencedBridges) && g.needsProcessing == old(g.needsProcessing)
  {
    var plugins: map<string, Directive> := map[];
    res := [];
    var i := 0;
    while i < |input|
      invariant 0 <= i <= |input|
      invariant plugins == PluginsOf(input[..i]) && res == NonPlugins(input[..i])
    {
      assert input[..i + 1][..i] == input[..i];
      if IsPlugin(input[i]) {
        plugins := plugins[input[i].tag := input[i]];
      } else {
        res := res + [input[i]];
      }
      i := i + 1;
    }
    assert input[..i] == input;
    g.plugins := plugins;
  }

  // ---------------------------------------------------------------------
  // expandPluginsState.Process

  /** The callback: an output whose type names a plugin takes the plugin's
      children and type, keeps its own parameters, gains the plugin's other
      ones, and loses a legacy `type` parameter. */
  function ExpandOne(plugins: map<string, Directive>, d: Directive): (e: Directive)
    ensures !(Destinations.IsOutput(d) && d.Type() in plugins) ==> e == d
    ensures Destinations.IsOutput(d) && d.Type() in plugins ==>
      var rep := plugins[d.Type()];
      e.name == d.name && e.tag == d.tag && e.nested == rep.nested &&
      e.Type() == rep.Type() && "type" !in e.params &&
      forall k :: k != "@type" && k != "type" ==>
        (k in e.params <==> k in d.params || k in rep.params) &&
        (k in d.params ==> e.params[k] == d.params[k]) &&
        (k !in d.params && k in rep.params ==> e.params[k] == rep.params[k])
  {
    if !(Destinations.IsOutput(d) && d.Type() in plugins) then d
    else
      var rep := plugins[d.Type()];
      var params := MountedFile.MergeMaps(d.params, rep.params)["@type" := rep.Type()] - {"type"};
      Directive(d.name, d.tag, params, rep.nested)
  }

  /** The recursive walk. The callback is stateless and never fails, so
      expanding each directive and then its (new) children visits the same
      directives as the level-by-level walk. A plugin's children are walked
      too, so a plugin that refers to itself makes the walk descend forever:
      `fuel` bounds the depth, and `None` is the walk that never returns. */
  function ExpandFrag(plugins: map<string, Directive>, dirs: Fragment, fuel: nat): (r: Option<Fragment>)
    ensures r.Some? ==> |r.value| == |dirs|
    ensures r.Some? ==> forall i :: 0 <= i < |dirs| ==> Strip(r.value[i]) == Strip(ExpandOne(plugins, dirs[i]))
    decreases fuel, 1, |dirs|
  {
    if |dirs| == 0 then Some([])
    else
      match ExpandDir(plugins, dirs[0], fuel)
      case None => None
      case Some(d) =>
        match ExpandFrag(plugins, dirs[1..], fuel)
        case None => None
        case Some(rest) =>
          assert forall i :: 1 <= i < |dirs| ==> dirs[i] == dirs[1..][i - 1] && ([d] + rest)[i] == rest[i - 1];
          Some([d] + rest)
  }

  function ExpandDir(plugins: map<string, Directive>, d: Directive, fuel: nat): (r: Option<Directive>)
    ensures r.Some? ==> Strip(r.value) == Strip(ExpandOne(plugins, d))
    decreases fuel, 0, 0
  {
    if fuel == 0 then None
    else
      var e := ExpandOne(plugins, d);
      match ExpandFrag(plugins, e.nested, fuel - 1)
      case None => None
      case Some(kids) => Some(e.(nested := kids))
  }

  /** `expandPluginsState.Process`: nothing to do without plugins. */
  function ExpandPlugins(plugins: map<string, Directive>, input: Fragment, fuel: nat): (r: Option<Fragment>)
    ensures |plugins| == 0 ==> r == Some(input)
    ensures |plugins| > 0 ==> r == ExpandFrag(plugins, input, fuel)
  {
    if |plugins| == 0 then Some(input) else ExpandFrag(plugins, input, fuel)
  }

  /** The directives the walk would expand. */
  function NoPluginUse(plugins: map<string, Directive>): Directive -> bool
  {
    (d: Directive) => !(Destinations.IsOutput(d) && d.Type() in plugins)
  }

  /** A configuration that uses no plugin comes back unchanged, once the
      walk may go as deep as the tree. */
  lemma {:induction false} NoUseUnchanged(plugins: map<string, Directive>, dirs: Fragment, fuel: nat)
    requires Everywhere(dirs, NoPluginUse(plugins)) && fuel >= FragHeight(dirs)
    ensures ExpandFrag(plugins, dirs, fuel) == Some(dirs)
    decreases FragHeight(dirs), |dirs|
  {
    if |dirs| > 0 {
      var d := dirs[0];
      HeightWithin(dirs, 0);
      FragHeightTail(dirs);
      assert ExpandOne(plugins, d) == d;
      NoUseUnchanged(plugins, d.nested, fuel - 1);
      assert ExpandDir(plugins, d, fuel) == Some(d);
      NoUseUnchanged(plugins, dirs[1..], fuel);
      assert [d] + dirs[1..] == dirs;
    }
  }

  /** A plugin `p` of type `copy` whose `<store>` has `@type p`. */
  function SelfPlugins(): map<string, Directive>
  {
    map["p" := Directive(DirPlugin, "p", map["@type" := "copy"], [SelfStore()])]
  }

  function SelfStore(): Directive
  {
    Directive("store", "", map["@type" := "p"], [])
  }

  /** Every `<store @type p>` expands to a copy holding another such store,
      so the walk never ends, however deep it may go. */
  lemma {:induction false} SelfReferenceDiverges(fuel: nat)
    ensures ExpandDir(SelfPlugins(), SelfStore(), fuel) == None
    decreases fuel
  {
    if fuel > 0 {
      var e := ExpandOne(SelfPlugins(), SelfStore());
      assert e.nested == [SelfStore()];
      SelfReferenceDiverges(fuel - 1);
      assert ExpandFrag(SelfPlugins(), e.nested, fuel - 1) == None;
    }
  }

  /** So does a namespace's `<match **> @type p`. */
  lemma SelfReferenceMatchDiverges(fuel: nat)
    ensures ExpandPlugins(SelfPlugins(), [Directive("match", "**", map["@type" := "p"], [])], fuel) == None
  {
    var m := Directive("match", "**", map["@type" := "p"], []);
    if fuel > 0 {
      var e := ExpandOne(SelfPlugins(), m);
      assert e.nested == [SelfStore()];
      SelfReferenceDiverges(fuel - 1);
      assert ExpandFrag(SelfPlugins(), e.nested, fuel - 1) == None;
    }
    assert ExpandDir(SelfPlugins(), m, fuel) == None;
  }
}
