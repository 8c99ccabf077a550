/** Files inside containers (config-reloader/processors/mounted_file.go): a
    `<source @type mounted-file>` names a path inside the containers whose
    labels match; `Prepare` turns it into one `tail` source and one metadata
    filter per matching container, reading the file through the kubelet's
    emptyDir directory on the host, and `Process` drops the original. */
module MountedFile {
  import opened Wrappers
  import opened Fluentd
  import opened Strs
  import opened Util
  import opened Processor
  import opened Kube
  import Labels

  /** The errors of the pass, as the source words them. */
  const ErrLabelsRequired: string := "'labels' is required when using @type "
  const ErrPathRequired: string := "'path' is required when using @type "
  const ErrParseCount: string := "One or zero <parse> directives required when using @type "

  const MountedFileSourceType: string := "mounted-file"

  /** `isRelevant`. */
  predicate IsRelevant(d: Directive)
  {
    d.name == "source" && d.Type() == MountedFileSourceType
  }

  /** `ContainerFile`: what a mounted-file source asks for. A Go nil map is
      the empty map here. */
  datatype ContainerFile = ContainerFile(labels: map<string, string>, addedLabels: map<string, string>,
                                         path: string, parse: Option<Directive>)

  // ---------------------------------------------------------------------
  // matches

  /** The value a container has for a selector key: its name for
      `_container`, else its pod's label, with Go's "" for a missing one. */
  function ContainerValue(mini: MiniContainer, k: string): string
  {
    if k == Labels.ContainerLabel then mini.name
    else if k in mini.labels then mini.labels[k]
    else ""
  }

  /** `matches`: every label of the spec has the container's value. */
  predicate Matches(spec: ContainerFile, mini: MiniContainer)
  {
    forall k :: k in spec.labels ==> spec.labels[k] == ContainerValue(mini, k)
  }

  /** A selector on `_container` alone picks the container by name, whatever
      labels its pod has. */
  lemma MatchesByName(spec: ContainerFile, mini: MiniContainer, name: string)
    requires spec.labels == map[Labels.ContainerLabel := name]
    ensures Matches(spec, mini) <==> mini.name == name
  {
    assert Labels.ContainerLabel in spec.labels;
  }

  /** More labels select fewer containers. */
  lemma MatchesAntitone(small: ContainerFile, big: ContainerFile, mini: MiniContainer)
    requires forall k :: k in small.labels ==> k in big.labels && big.labels[k] == small.labels[k]
    requires Matches(big, mini)
    ensures Matches(small, mini)
  {
  }

  // ---------------------------------------------------------------------
  // mergeMaps

  /** `mergeMaps`: the union, where `base` (the pod's own labels) wins. */
  function MergeMaps(base: map<string, string>, more: map<string, string>): (r: map<string, string>)
    ensures r.Keys == base.Keys + more.Keys
    ensures forall k :: k in base ==> r[k] == base[k]
    ensures forall k :: k in more && k !in base ==> r[k] == more[k]
  {
    map k | k in base.Keys + more.Keys :: if k in base then base[k] else more[k]
  }

  /** The two loops of `mergeMaps`. */
  method MergeMapsLoop(base: map<string, string>, more: map<string, string>) returns (res: map<string, string>)
    ensures res == MergeMaps(base, more)
  {
    res := map[];
    var keys := base.Keys;
    while keys != {}
      invariant keys <= base.Keys
      invariant res.Keys == base.Keys - keys
      invariant forall k :: k in res ==> res[k] == base[k]
      decreases keys
    {
      var k :| k in keys;
      res := res[k := base[k]];
      keys := keys - {k};
    }
    keys := more.Keys;
    while keys != {}
      invariant keys <= more.Keys
      invariant res.Keys == base.Keys + (more.Keys - keys)
      invariant forall k :: k in res ==> res[k] == (if k in base then base[k] else more[k])
      decreases keys
    {
      var k :| k in keys;
      if k !in res {
        res := res[k := more[k]];
      }
      keys := keys - {k};
    }
    assert forall k :: k in res <==> k in MergeMaps(base, more);
  }

  // ---------------------------------------------------------------------
  // makeHostPath

  const EmptyDirPlugin: string := "kubernetes.io~empty-dir"

  /** The fixed parts of the tail source and of the metadata filter's Ruby script. */
  const ScriptStream: string := "record['stream']='"
  const ScriptKubernetes: string := "record['kubernetes']="
  const ScriptDocker: string := "record['docker']="
  const ScriptContainerInfo: string := "record['container_info']='"
  const ScriptLabels: string := "record['kubernetes']['labels']="
  const ScriptNamespaceLabels: string := "record['kubernetes']['namespace_labels']="
  const KeyContainerName: string := "container_name"
  const KeyContainerImage: string := "container_image"
  const KeyNamespaceName: string := "namespace_name"
  const KeyPodName: string := "pod_name"
  const KeyPodId: string := "pod_id"
  const KeyContainerId: string := "container_id"
  const PosFilePrefix: string := "/var/log/kfotail-"
  const RecordModifier: string := "record_modifier"
  const ReadFromHead: string := "read_from_head"

  /** `makeHostPath`: where the kubelet keeps the file on the host. The
      caller has checked that the mount path prefixes the file path. */
  function MakeHostPath(kubeletRoot: string, cf: ContainerFile, hm: Mount, mc: MiniContainer): (p: string)
    requires HasPrefix(cf.path, hm.path)
  {
    Join([kubeletRoot, "pods", mc.podID, "volumes", EmptyDirPlugin, hm.volumeName, hm.subPath, cf.path[|hm.path|..]], "/")
  }

  /** The host path is the pod's emptyDir volume directory followed by the
      part of the file path below the mount point. */
  lemma HostPathLayout(kubeletRoot: string, cf: ContainerFile, hm: Mount, mc: MiniContainer)
    requires HasPrefix(cf.path, hm.path)
    ensures MakeHostPath(kubeletRoot, cf, hm, mc) ==
      kubeletRoot + "/" + "pods" + "/" + mc.podID + "/" + "volumes" + "/" + EmptyDirPlugin + "/" +
      hm.volumeName + "/" + hm.subPath + "/" + cf.path[|hm.path|..]
  {
    var rest := cf.path[|hm.path|..];
    var p := [kubeletRoot];
    assert Join(p, "/") == kubeletRoot;
    JoinSnoc(p, "pods", "/");
    p := p + ["pods"];
    JoinSnoc(p, mc.podID, "/");
    p := p + [mc.podID];
    JoinSnoc(p, "volumes", "/");
    p := p + ["volumes"];
    JoinSnoc(p, EmptyDirPlugin, "/");
    p := p + [EmptyDirPlugin];
    JoinSnoc(p, hm.volumeName, "/");
    p := p + [hm.volumeName];
    JoinSnoc(p, hm.subPath, "/");
    p := p + [hm.subPath];
    JoinSnoc(p, rest, "/");
    p := p + [rest];
    assert p == [kubeletRoot, "pods", mc.podID, "volumes", EmptyDirPlugin, hm.volumeName, hm.subPath, rest];
  }

  // ---------------------------------------------------------------------
  // convertToFragement

  /** The first host mount whose path prefixes the file path. */
  function FirstMount(path: string, mounts: seq<Mount>): (r: Option<Mount>)
    ensures r.None? <==> forall i :: 0 <= i < |mounts| ==> !HasPrefix(path, mounts[i].path)
    ensures r.Some? ==> exists i :: (0 <= i < |mounts| && mounts[i] == r.value &&
      HasPrefix(path, r.value.path) && forall j :: 0 <= j < i ==> !HasPrefix(path, mounts[j].path))
    decreases |mounts|
  {
    if |mounts| == 0 then None
    else if HasPrefix(path, mounts[0].path) then Some(mounts[0])
    else
      var r := FirstMount(path, mounts[1..]);
      assert forall i :: 1 <= i < |mounts| ==> mounts[i] == mounts[1..][i - 1];
      if r.Some? then
        var i :| 0 <= i < |mounts[1..]| && mounts[1..][i] == r.value && HasPrefix(path, r.value.path) &&
          forall j :: 0 <= j < i ==> !HasPrefix(path, mounts[1..][j].path);
        assert mounts[i + 1] == r.value;
        assert forall j :: 0 <= j < i + 1 ==> !HasPrefix(path, mounts[j].path) by {
          forall j | 0 <= j < i + 1 ensures !HasPrefix(path, mounts[j].path) {
            if j > 0 { assert mounts[j] == mounts[1..][j - 1]; }
          }
        }
        r
      else r
  }

  /** `makeDefaultParseDirective`. */
  function DefaultParse(): (d: Directive)
    ensures d.name == "parse" && d.Type() == "none"
  {
    Directive("parse", "", map["@type" := "none"], [])
  }

  /** The position-file key and the tag of the tailed file. */
  function TailPos(ctx: ProcessorContext, mc: MiniContainer, hostPath: string): string
  {
    ctx.foreign.hash(ctx.deploymentID, mc.podID + "-" + mc.name + "-" + hostPath)
  }

  function TailTag(ctx: ProcessorContext, mc: MiniContainer, hostPath: string): (t: string)
    ensures HasPrefix(t, "kube." + ctx.namespace + ".")
  {
    "kube." + ctx.namespace + "." + mc.podName + "." + mc.name + "-" + TailPos(ctx, mc, hostPath)
  }

  /** The `tail` source reading the file on the host. */
  function TailSource(ctx: ProcessorContext, cf: ContainerFile, mc: MiniContainer, hostPath: string): (d: Directive)
    ensures d.name == "source" && d.Type() == "tail" && !IsRelevant(d)
    ensures d.Param("path") == hostPath && d.Param("tag") == TailTag(ctx, mc, hostPath)
    ensures d.nested == [if cf.parse.Some? then cf.parse.value else DefaultParse()]
  {
    var pos := TailPos(ctx, mc, hostPath);
    Directive("source", "",
      map["@type" := "tail", "path" := hostPath, ReadFromHead := "true",
          "tag" := TailTag(ctx, mc, hostPath), "pos_file" := PosFilePrefix + pos + ".pos"],
      [if cf.parse.Some? then cf.parse.value else DefaultParse()])
  }

  /** The Ruby script of the metadata filter: stream, Kubernetes and docker
      metadata, the container info key, the pod's labels merged with the
      added ones, and the namespace's labels. */
  function RecordScript(ctx: ProcessorContext, mc: MiniContainer, cf: ContainerFile): string
  {
    ScriptStream + cf.path + "'; " +
    ScriptKubernetes + RubyMapLiteral(map[KeyContainerName := mc.name, KeyContainerImage := mc.image,
                                          KeyNamespaceName := ctx.namespace, KeyPodName := mc.podName,
                                          KeyPodId := mc.podID, "host" := mc.nodeName]) + "; " +
    ScriptDocker + RubyMapLiteral(map[KeyContainerId := mc.containerID]) + "; " +
    ScriptContainerInfo + ctx.foreign.hash(mc.podID, cf.path) + "'; " +
    ScriptLabels + RubyMapLiteral(MergeMaps(mc.labels, cf.addedLabels)) + "; " +
    ScriptNamespaceLabels + RubyMapLiteral(ctx.namespaceLabels)
  }

  /** `makeAttachK8sMetadataDirective`: a filter on the tailed tag. */
  function MetadataFilter(ctx: ProcessorContext, tag: string, mc: MiniContainer, cf: ContainerFile): (d: Directive)
    ensures d.name == "filter" && d.tag == tag && d.Type() == RecordModifier
  {
    Directive("filter", tag, map["@type" := RecordModifier, "remove_keys" := "dummy_"],
      [Directive("record", "", map["dummy_" := "${" + RecordScript(ctx, mc, cf) + "}"], [])])
  }

  /** What one container contributes: nothing unless it matches and one of
      its mounts holds the file; then the source and its filter. */
  function ConvertOne(ctx: ProcessorContext, cf: ContainerFile, mc: MiniContainer): (r: Fragment)
    ensures |r| == 0 || |r| == 2
  {
    if !Matches(cf, mc) then []
    else
      match FirstMount(cf.path, mc.hostMounts)
      case None => []
      case Some(hm) =>
        var hostPath := MakeHostPath(ctx.kubeletRoot, cf, hm, mc);
        var src := TailSource(ctx, cf, mc, hostPath);
        [src, MetadataFilter(ctx, src.Param("tag"), mc, cf)]
  }

  /** The directives for every container, in order. */
  function Convert(ctx: ProcessorContext, cf: ContainerFile, minis: seq<MiniContainer>): Fragment
    decreases |minis|
  {
    if |minis| == 0 then [] else ConvertOne(ctx, cf, minis[0]) + Convert(ctx, cf, minis[1..])
  }

  /** A container yields a pair exactly when it matches and one of its mounts
      prefixes the path; the pair is a tail source of the file below the
      first such mount, and a filter on the very tag the source emits. */
  lemma ConvertOnePair(ctx: ProcessorContext, cf: ContainerFile, mc: MiniContainer)
    ensures |ConvertOne(ctx, cf, mc)| == 2 <==>
      Matches(cf, mc) && exists i :: 0 <= i < |mc.hostMounts| && HasPrefix(cf.path, mc.hostMounts[i].path)
    ensures |ConvertOne(ctx, cf, mc)| == 2 ==>
      var out := ConvertOne(ctx, cf, mc);
      var hm := FirstMount(cf.path, mc.hostMounts).value;
      out[0].name == "source" && out[0].Type() == "tail" &&
      out[0].Param("path") == MakeHostPath(ctx.kubeletRoot, cf, hm, mc) &&
      out[1].name == "filter" && out[1].tag == out[0].Param("tag") &&
      HasPrefix(out[1].tag, "kube." + ctx.namespace + ".")
  {
  }

  /** `convertToFragement`: the loop over containers. */
  method ConvertToFragment(ctx: ProcessorContext, cf: ContainerFile) returns (res: Fragment)
    ensures res == Convert(ctx, cf, ctx.miniContainers)
  {
    var minis := ctx.miniContainers;
    res := [];
    var i := 0;
    while i < |minis|
      invariant 0 <= i <= |minis|
      invariant res + Convert(ctx, cf, minis[i..]) == Convert(ctx, cf, minis)
    {
      var found := ContainerFragment(ctx, cf, minis[i]);
      ConvertStep(ctx, cf, minis, i, res, found);
      res := res + found;
      i := i + 1;
    }
    assert minis[i..] == [];
  }

  lemma ConvertStep(ctx: ProcessorContext, cf: ContainerFile, minis: seq<MiniContainer>, i: nat, res: Fragment, found: Fragment)
    requires i < |minis| && found == ConvertOne(ctx, cf, minis[i])
    ensures res + Convert(ctx, cf, minis[i..]) == res + found + Convert(ctx, cf, minis[i + 1..])
  {
    assert minis[i..][0] == minis[i] && minis[i..][1..] == minis[i + 1..];
  }

  /** The body of that loop: the loop over the container's mounts that
      stops at the first one holding the file. */
  method ContainerFragment(ctx: ProcessorContext, cf: ContainerFile, mc: MiniContainer) returns (found: Fragment)
    ensures found == ConvertOne(ctx, cf, mc)
  {
    found := [];
    if !Matches(cf, mc) {
      return;
    }
    var j := 0;
    while j < |mc.hostMounts|
      invariant 0 <= j <= |mc.hostMounts|
      invariant FirstMount(cf.path, mc.hostMounts) == FirstMount(cf.path, mc.hostMounts[j..])
    {
      var hm := mc.hostMounts[j];
      assert mc.hostMounts[j..][0] == hm && mc.hostMounts[j..][1..] == mc.hostMounts[j + 1..];
      if HasPrefix(cf.path, hm.path) {
        var hostPath := MakeHostPath(ctx.kubeletRoot, cf, hm, mc);
        var src := TailSource(ctx, cf, mc, hostPath);
        found := [src, MetadataFilter(ctx, src.Param("tag"), mc, cf)];
        return;
      }
      j := j + 1;
    }
    assert mc.hostMounts[j..] == [];
  }

  // ---------------------------------------------------------------------
  // Prepare

  /** The labels of a `$labels(...)` text, through the label parser. */
  function LabelsOf(spec: string): (r: Result<map<string, string>>)
    ensures r.Ok? ==> |r.value| > 0 && Labels.GoodLabels(r.value)
  {
    match Labels.ParseTagToLabels(Labels.MacroLabels + "(" + spec + ")")
    case Err(e) => Err(e)
    case Ok(found) => if found.Some? then Ok(found.value) else Err("")
  }

  /** The checks and parsing `Prepare` does on one mounted-file source. */
  function ReadSpec(d: Directive): (r: Result<ContainerFile>)
    ensures d.Param("labels") == "" || d.Param("path") == "" || |d.nested| >= 2 ==> r.Err?
    ensures r.Ok? ==> r.value.path == d.Param("path") && |r.value.labels| > 0 && Labels.GoodLabels(r.value.labels)
    ensures r.Ok? ==> (r.value.parse.Some? <==> |d.nested| == 1) && (r.value.parse.Some? ==> r.value.parse.value == d.nested[0])
  {
    var paramLabels := d.Param("labels");
    if paramLabels == "" then Err(ErrLabelsRequired + MountedFileSourceType)
    else
      match LabelsOf(TrimTrailingComment(paramLabels))
      case Err(e) => Err(e)
      case Ok(labels) =>
        var paramAdded := TrimTrailingComment(d.Param("add_labels"));
        var added := if paramAdded != "" then LabelsOf(paramAdded) else Ok(map[]);
        match added
        case Err(e) => Err(e)
        case Ok(addedLabels) =>
          var paramPath := d.Param("path");
          if paramPath == "" then Err(ErrPathRequired + MountedFileSourceType)
          else if |d.nested| >= 2 then
            Err(ErrParseCount + MountedFileSourceType +
                ", found " + DecimalString(|d.nested|))
          else
            Ok(ContainerFile(labels, addedLabels, paramPath, if |d.nested| == 1 then Some(d.nested[0]) else None))
  }

  /** `mountedFileState.Prepare` over the top level of the configuration. */
  function PrepareSpec(ctx: ProcessorContext, input: Fragment): (r: Result<Fragment>)
    ensures r.Err? <==> exists i :: 0 <= i < |input| && IsRelevant(input[i]) && ReadSpec(input[i]).Err?
    decreases |input|
  {
    if |input| == 0 then Ok([])
    else
      assert forall i :: 1 <= i < |input| ==> input[i] == input[1..][i - 1];
      assert forall i :: 0 <= i < |input| - 1 ==> input[1..][i] == input[i + 1];
      if !IsRelevant(input[0]) then PrepareSpec(ctx, input[1..])
      else
        match ReadSpec(input[0])
        case Err(e) => Err(e)
        case Ok(cf) =>
          match PrepareSpec(ctx, input[1..])
          case Err(e) => Err(e)
          case Ok(rest) => Ok(Convert(ctx, cf, ctx.miniContainers) + rest)
  }

  /** The loop of `mountedFileState.Prepare`. */
  method MountedFilePrepare(ctx: ProcessorContext, input: Fragment) returns (r: Result<Fragment>)
    ensures r == PrepareSpec(ctx, input)
  {
    var res: Fragment := [];
    var i := 0;
    ResumeFromStart(ctx, input);
    while i < |input|
      invariant 0 <= i <= |input|
      invariant PrepareSpec(ctx, input) == Resume(ctx, input[i..], res)
    {
      var out := ReadOne(ctx, input, i, res);
      if out.Err? {
        return Err(out.msg);
      }
      res := out.value;
      i := i + 1;
    }
    ResumeAtEnd(ctx, input[i..], res);
    r := Ok(res);
  }

  /** One turn of the loop on the directive at `i`: passed over unless it
      is a mounted-file source, else read and converted, a source that
      cannot be read ending the loop with its error. */
  method ReadOne(ctx: ProcessorContext, input: Fragment, i: nat, res: Fragment) returns (out: Result<Fragment>)
    requires i < |input|
    ensures out.Err? ==> Resume(ctx, input[i..], res) == out
    ensures out.Ok? ==> Resume(ctx, input[i..], res) == Resume(ctx, input[i + 1..], out.value)
  {
    var rest := input[i..];
    assert rest[1..] == input[i + 1..];
    var frag := input[i];
    if !IsRelevant(frag) {
      ResumeSkip(ctx, rest, res);
      return Ok(res);
    }
    var spec := ReadSpec(frag);
    if spec.Err? {
      ResumeStop(ctx, rest, res);
      return Err(spec.msg);
    }
    var newFrag := ConvertToFragment(ctx, spec.value);
    ResumeConvert(ctx, rest, res, newFrag);
    return Ok(res + newFrag);
  }

  /** The loop's outcome once `res` holds what the directives before `rest`
      gave. */
  function Resume(ctx: ProcessorContext, rest: Fragment, res: Fragment): Result<Fragment>
  {
    match PrepareSpec(ctx, rest)
    case Err(e) => Err(e)
    case Ok(out) => Ok(res + out)
  }

  lemma ResumeFromStart(ctx: ProcessorContext, input: Fragment)
    ensures PrepareSpec(ctx, input) == Resume(ctx, input[0..], [])
  {
    assert input[0..] == input;
    match PrepareSpec(ctx, input) {
      case Err(_) =>
      case Ok(out) => assert [] + out == out;
    }
  }

  lemma ResumeAtEnd(ctx: ProcessorContext, rest: Fragment, res: Fragment)
    requires rest == []
    ensures Resume(ctx, rest, res) == Ok(res)
  {
    assert res + [] == res;
  }

  /** A directive that is not a mounted-file source is passed over. */
  lemma ResumeSkip(ctx: ProcessorContext, rest: Fragment, res: Fragment)
    requires |rest| > 0 && !IsRelevant(rest[0])
    ensures Resume(ctx, rest, res) == Resume(ctx, rest[1..], res)
  {
  }

  /** A mounted-file source that cannot be read ends the loop with its error. */
  lemma ResumeStop(ctx: ProcessorContext, rest: Fragment, res: Fragment)
    requires |rest| > 0 && IsRelevant(rest[0]) && ReadSpec(rest[0]).Err?
    ensures Resume(ctx, rest, res) == Err(ReadSpec(rest[0]).msg)
  {
  }

  /** A readable mounted-file source appends its converted directives. */
  lemma ResumeConvert(ctx: ProcessorContext, rest: Fragment, res: Fragment, newFrag: Fragment)
    requires |rest| > 0 && IsRelevant(rest[0]) && ReadSpec(rest[0]).Ok?
    requires newFrag == Convert(ctx, ReadSpec(rest[0]).value, ctx.miniContainers)
    ensures Resume(ctx, rest, res) == Resume(ctx, rest[1..], res + newFrag)
  {
    match PrepareSpec(ctx, rest[1..])
    case Err(e) =>
    case Ok(out) =>
      assert res + (newFrag + out) == res + newFrag + out;
  }

  // ---------------------------------------------------------------------
  // Process

  /** The top level without the mounted-file sources, in order. */
  function KeepIrrelevant(input: Fragment): (r: Fragment)
    ensures |r| <= |input|
    ensures forall i :: 0 <= i < |r| ==> !IsRelevant(r[i]) && r[i] in input
    ensures forall i :: 0 <= i < |input| && !IsRelevant(input[i]) ==> input[i] in r
    decreases |input|
  {
    if |input| == 0 then []
    else
      var rest := KeepIrrelevant(input[1..]);
      assert forall i :: 1 <= i < |input| ==> input[i] == input[1..][i - 1];
      if IsRelevant(input[0]) then rest else [input[0]] + rest
  }

  /** Without mounted-file sources the configuration is unchanged. */
  lemma {:induction false} KeepIrrelevantIdentity(input: Fragment)
    requires forall i :: 0 <= i < |input| ==> !IsRelevant(input[i])
    ensures KeepIrrelevant(input) == input
    decreases |input|
  {
    if |input| > 0 {
      assert forall i :: 0 <= i < |input| - 1 ==> input[1..][i] == input[i + 1];
      KeepIrrelevantIdentity(input[1..]);
      assert [input[0]] + input[1..] == input;
    }
  }

  /** `mountedFileState.Process`. */
  method MountedFileProcess(input: Fragment) returns (r: Result<Fragment>)
    ensures r == Ok(KeepIrrelevant(input))
  {
    var res: Fragment := [];
    var i := 0;
    while i < |input|
      invariant 0 <= i <= |input|
      invariant res + KeepIrrelevant(input[i..]) == KeepIrrelevant(input)
    {
      assert input[i..][0] == input[i] && input[i..][1..] == input[i + 1..];
      if !IsRelevant(input[i]) {
        res := res + [input[i]];
      }
      i := i + 1;
    }
    assert input[i..] == [];
    assert KeepIrrelevant(input[i..]) == [];
    assert res + [] == res;
    r := Ok(res);
  }
}
