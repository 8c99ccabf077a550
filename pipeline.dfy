/** The processor chain (config-reloader/processors/processor.go): the
    default processors in their fixed order, `Process` chaining their
    outputs, `Prepare` concatenating theirs into the main file while updating
    the generation context, and `GetValidationTrailer` concatenating the
    placeholders each adds. */
module Pipeline {
  import opened Wrappers
  import opened Fluentd
  import opened Processor
  import ExtractPlugins
  import ExpandTags
  import Thisns
  import Destinations
  import Labels
  import UniqueRewriteTag
  import Relabel
  import MountedFile
  import Share
  import DetectExceptions

  /** The errors of the pass, as the source words them. */
  const ErrNilContext: string := "cannot work with nil ProcessorContext"

  /** The processors of this package. */
  datatype Stage =
    | ExpandPluginsStage
    | ExpandTagsStage
    | ThisnsStage
    | FixDestinationsStage
    | LabelsStage
    | UniqueRewriteTagStage
    | RewriteLabelsStage
    | MountedFileStage
    | ShareStage
    | DetectExceptionsStage

  /** `DefaultProcessors`: the order matters, each one relying on the
      rewriting done before it. */
  const DefaultProcessors: seq<Stage> := [
    ExpandPluginsStage, ExpandTagsStage, ThisnsStage, FixDestinationsStage, LabelsStage,
    UniqueRewriteTagStage, RewriteLabelsStage, MountedFileStage, ShareStage, DetectExceptionsStage]

  const NilContext: string := ErrNilContext

  // ---------------------------------------------------------------------
  // Process

  /** One processor's `Process`. `None` is a call that never returns: the
      plugin expansion descending without end (see `ExtractPlugins.ExpandFrag`).
      The generator always hands the processors a generation context;
      `expandPluginsState` dereferences it unconditionally. */
  function RunProcess(ctx: ProcessorContext, s: Stage, input: Fragment, fuel: nat): (r: Option<Result<Fragment>>)
    requires ctx.gen.Some?
    ensures s != ExpandPluginsStage ==> r.Some?
    ensures s == DetectExceptionsStage ==> r.value.Ok? && Everywhere(r.value.value, DetectExceptions.NotDetect)
    ensures s == MountedFileStage ==>
      r.value.Ok? && forall i :: 0 <= i < |r.value.value| ==> !MountedFile.IsRelevant(r.value.value[i])
  {
    match s
    case ExpandPluginsStage =>
      (match ExtractPlugins.ExpandPlugins(ctx.gen.value.plugins, input, fuel)
       case None => None
       case Some(out) => Some(Ok(out)))
    case ExpandTagsStage => Some(ExpandTags.ExpandTagsProcess(ctx, input))
    case ThisnsStage => Some(Thisns.ThisnsProcess(ctx, input))
    case FixDestinationsStage => Some(Destinations.DestinationsProcess(ctx, input))
    case LabelsStage => Some(Labels.LabelsProcess(ctx, input))
    case UniqueRewriteTagStage => Some(UniqueRewriteTag.UniqueRewriteProcess(ctx, input))
    case RewriteLabelsStage => Some(Relabel.RelabelProcess(ctx, input))
    case MountedFileStage => Some(Ok(MountedFile.KeepIrrelevant(input)))
    case ShareStage => Some(Share.ShareProcess(ctx, ctx.gen.value.referencedBridges, input))
    case DetectExceptionsStage => Some(DetectExceptions.DetectProcess(ctx, input))
  }

  /** What is left to do after a step: stop at an error, go on otherwise. */
  function Then(ctx: ProcessorContext, o: Option<Result<Fragment>>, stages: seq<Stage>, fuel: nat): Option<Result<Fragment>>
    requires ctx.gen.Some?
    decreases |stages|, 1
  {
    match o
    case None => None
    case Some(Err(e)) => Some(Err(e))
    case Some(Ok(out)) => Chain(ctx, stages, out, fuel)
  }

  /** The processors' outputs chained, the first error ending the chain. */
  function Chain(ctx: ProcessorContext, stages: seq<Stage>, input: Fragment, fuel: nat): (r: Option<Result<Fragment>>)
    requires ctx.gen.Some?
    decreases |stages|, 0
  {
    if |stages| == 0 then Some(Ok(input))
    else Then(ctx, RunProcess(ctx, stages[0], input, fuel), stages[1..], fuel)
  }

  /** `Process`. */
  function Process(ctx: Option<ProcessorContext>, stages: seq<Stage>, input: Fragment, fuel: nat): (r: Option<Result<Fragment>>)
    requires ctx.Some? ==> ctx.value.gen.Some?
    ensures ctx.None? ==> r == Some(Err(NilContext))
    ensures ctx.Some? && |stages| == 0 ==> r == Some(Ok(input))
  {
    if ctx.None? then Some(Err(NilContext)) else Chain(ctx.value, stages, input, fuel)
  }

  /** Running two lists of processors one after the other is running their
      concatenation. */
  lemma {:induction false} ChainAppend(ctx: ProcessorContext, s1: seq<Stage>, s2: seq<Stage>, input: Fragment, fuel: nat)
    requires ctx.gen.Some?
    ensures Chain(ctx, s1 + s2, input, fuel) ==
      match Chain(ctx, s1, input, fuel)
      case None => None
      case Some(Err(e)) => Some(Err(e))
      case Some(Ok(mid)) => Chain(ctx, s2, mid, fuel)
    decreases |s1|
  {
    if |s1| > 0 {
      assert (s1 + s2)[0] == s1[0] && (s1 + s2)[1..] == s1[1..] + s2;
      match RunProcess(ctx, s1[0], input, fuel)
      case None =>
      case Some(Err(e)) =>
      case Some(Ok(out)) => ChainAppend(ctx, s1[1..], s2, out, fuel);
    } else {
      assert s1 + s2 == s2;
    }
  }

  /** The last processor of a chain decides what kind of output it leaves. */
  lemma ChainLast(ctx: ProcessorContext, stages: seq<Stage>, last: Stage, input: Fragment, fuel: nat)
    requires ctx.gen.Some? && last != ExpandPluginsStage
    ensures Chain(ctx, stages + [last], input, fuel) ==
      match Chain(ctx, stages, input, fuel)
      case None => None
      case Some(Err(e)) => Some(Err(e))
      case Some(Ok(mid)) => RunProcess(ctx, last, mid, fuel)
  {
    ChainAppend(ctx, stages, [last], input, fuel);
    match Chain(ctx, stages, input, fuel)
    case None =>
    case Some(Err(e)) =>
    case Some(Ok(mid)) =>
      var o := RunProcess(ctx, last, mid, fuel);
      assert [last][1..] == [];
      assert Chain(ctx, [last], mid, fuel) == Then(ctx, o, [], fuel);
      match o
      case Some(Err(e)) =>
      case Some(Ok(out)) => assert Chain(ctx, [], out, fuel) == Some(Ok(out));
  }

  /** Whatever the namespace wrote, the output of the default chain holds no
      detect_exceptions filter: the last processor rewrites them all. */
  lemma DefaultChainNoDetect(ctx: ProcessorContext, input: Fragment, fuel: nat, out: Fragment)
    requires ctx.gen.Some?
    requires Process(Some(ctx), DefaultProcessors, input, fuel) == Some(Ok(out))
    ensures Everywhere(out, DetectExceptions.NotDetect)
  {
    EndsInDetect(ctx, DefaultProcessors, input, fuel);
  }

  lemma EndsInDetect(ctx: ProcessorContext, stages: seq<Stage>, input: Fragment, fuel: nat)
    requires ctx.gen.Some? && |stages| > 0 && stages[|stages| - 1] == DetectExceptionsStage
    ensures Chain(ctx, stages, input, fuel).Some? && Chain(ctx, stages, input, fuel).value.Ok? ==>
      Everywhere(Chain(ctx, stages, input, fuel).value.value, DetectExceptions.NotDetect)
  {
    var front := stages[..|stages| - 1];
    assert stages == front + [DetectExceptionsStage];
    ChainLast(ctx, front, DetectExceptionsStage, input, fuel);
  }

  /** `Process`'s loop over the processors. */
  method ProcessLoop(ctx: Option<ProcessorContext>, stages: seq<Stage>, input: Fragment, fuel: nat)
    returns (r: Option<Result<Fragment>>)
    requires ctx.Some? ==> ctx.value.gen.Some?
    ensures r == Process(ctx, stages, input, fuel)
  {
    if ctx.None? {
      return Some(Err(NilContext));
    }
    var c := ctx.value;
    var res := input;
    var i := 0;
    while i < |stages|
      invariant 0 <= i <= |stages|
      invariant Chain(c, stages, input, fuel) == Chain(c, stages[i..], res, fuel)
    {
      assert stages[i..][0] == stages[i] && stages[i..][1..] == stages[i + 1..];
      var step := RunProcess(c, stages[i], res, fuel);
      if step.None? {
        return None;
      }
      if step.value.Err? {
        return Some(Err(step.value.msg));
      }
      res := step.value.value;
      i := i + 1;
    }
    assert stages[i..] == [];
    r := Some(Ok(res));
  }

  // ---------------------------------------------------------------------
  // Prepare

  /** One processor's `Prepare` output, `mounted` being the mounted-file
      processor's: only mounted files add to the main file; share and
      detect_exceptions change the generation context only. */
  function PrepareOne(mounted: Result<Fragment>, s: Stage): (r: Result<Fragment>)
    ensures s != MountedFileStage ==> r == Ok([])
    ensures s == MountedFileStage ==> r == mounted
  {
    if s == MountedFileStage then mounted else Ok([])
  }

  /** The outputs concatenated, the first error ending the loop. */
  function PrepareAll(mounted: Result<Fragment>, stages: seq<Stage>): (r: Result<Fragment>)
    ensures r.Err? <==> mounted.Err? && MountedFileStage in stages
    ensures r.Err? ==> r == mounted
    ensures r.Ok? && MountedFileStage !in stages ==> r.value == []
    decreases |stages|
  {
    if |stages| == 0 then Ok([])
    else
      var n := |stages| - 1;
      assert forall s :: s in stages <==> s in stages[..n] || s == stages[n];
      match PrepareAll(mounted, stages[..n])
      case Err(e) => Err(e)
      case Ok(acc) =>
        match PrepareOne(mounted, stages[n])
        case Err(e) => Err(e)
        case Ok(out) => Ok(acc + out)
  }

  /** The processors whose `Prepare` runs: all of them up to and including
      the first one that fails. */
  function Ran(mounted: Result<Fragment>, stages: seq<Stage>): (r: seq<Stage>)
    ensures |r| <= |stages| && r == stages[..|r|]
    ensures mounted.Ok? || MountedFileStage !in stages ==> r == stages
    decreases |stages|
  {
    if |stages| == 0 then []
    else if PrepareOne(mounted, stages[0]).Err? then [stages[0]]
    else
      var rest := Ran(mounted, stages[1..]);
      assert [stages[0]] + stages[1..][..|rest|] == stages[..|rest| + 1];
      assert [stages[0]] + stages[1..] == stages;
      [stages[0]] + rest
  }

  /** Some directive, at any depth, is a detect_exceptions filter. */
  predicate DetectIn(input: Fragment)
  {
    exists i :: 0 <= i < |LevelOrder(input)| && DetectExceptions.IsDetectExceptions(LevelOrder(input)[i])
  }

  /** One processor's `Prepare`, on the shared context. */
  method PrepareStage(ctx: ProcessorContext, gen: GenerationContext, s: Stage, input: Fragment) returns (r: Result<Fragment>)
    modifies gen
    ensures r == PrepareOne(MountedFile.PrepareSpec(ctx, input), s)
    ensures gen.referencedBridges ==
      old(gen.referencedBridges) + (if s == ShareStage then Share.Bridges(ctx.namespace, input) else {})
    ensures gen.needsProcessing <==>
      old(gen.needsProcessing) || (s == DetectExceptionsStage && DetectIn(input))
    ensures gen.plugins == old(gen.plugins)
  {
    if s == MountedFileStage {
      r := MountedFile.MountedFilePrepare(ctx, input);
    } else if s == ShareStage {
      r := Share.SharePrepare(gen, ctx.namespace, input);
    } else if s == DetectExceptionsStage {
      r := DetectExceptions.DetectPrepare(gen, input);
    } else {
      r := Ok([]);
    }
  }

  /** `Prepare`: the accumulated output, and the bridges and the processing
      flag recorded by the processors that ran. */
  method Prepare(ctx: Option<ProcessorContext>, gen: GenerationContext, stages: seq<Stage>, input: Fragment)
    returns (r: Result<Fragment>)
    modifies gen
    ensures ctx.None? ==> r == Err(NilContext) && unchanged(gen)
    ensures ctx.Some? ==> r == PrepareAll(MountedFile.PrepareSpec(ctx.value, input), stages)
    ensures ctx.Some? ==>
      (gen.referencedBridges, gen.needsProcessing) == Recorded(Ran(MountedFile.PrepareSpec(ctx.value, input), stages), old(gen.referencedBridges), old(gen.needsProcessing),
               Share.Bridges(ctx.value.namespace, input), DetectIn(input))
    ensures gen.plugins == old(gen.plugins)
  {
    if ctx.None? {
      return Err(NilContext);
    }
    r := PrepareLoop(ctx.value, gen, stages, input);
  }

  /** The loop of `Prepare`. */
  method PrepareLoop(c: ProcessorContext, gen: GenerationContext, stages: seq<Stage>, input: Fragment)
    returns (r: Result<Fragment>)
    modifies gen
    ensures r == PrepareAll(MountedFile.PrepareSpec(c, input), stages)
    ensures (gen.referencedBridges, gen.needsProcessing) ==
      Recorded(Ran(MountedFile.PrepareSpec(c, input), stages), old(gen.referencedBridges), old(gen.needsProcessing),
               Share.Bridges(c.namespace, input), DetectIn(input))
    ensures gen.plugins == old(gen.plugins)
  {
    ghost var mounted := MountedFile.PrepareSpec(c, input);
    ghost var bridges := Share.Bridges(c.namespace, input);
    ghost var detect := DetectIn(input);
    ghost var bridges0 := gen.referencedBridges;
    ghost var flag0 := gen.needsProcessing;
    var res: Fragment := [];
    var i := 0;
    RecordedNone(stages, bridges0, flag0, bridges, detect);
    while i < |stages|
      invariant 0 <= i <= |stages|
      invariant PrepareAll(mounted, stages[..i]) == Ok(res)
      invariant forall j :: 0 <= j < i ==> PrepareOne(mounted, stages[j]).Ok?
      invariant (gen.referencedBridges, gen.needsProcessing) == Recorded(stages[..i], bridges0, flag0, bridges, detect)
      invariant gen.plugins == old(gen.plugins)
    {
      var step := PrepareStep(c, gen, stages, i, input, res, bridges0, flag0);
      if step.Err? {
        return Err(step.msg);
      }
      res := res + step.value;
      i := i + 1;
    }
    PrepareFinished(mounted, stages, i);
    r := Ok(res);
  }

  /** The loop of `Prepare` stops at a failing processor: its error is the
      result, and the processors up to it are those that ran. */
  lemma PrepareStopped(mounted: Result<Fragment>, stages: seq<Stage>, i: nat)
    requires i < |stages| && PrepareOne(mounted, stages[i]).Err?
    requires forall j :: 0 <= j < i ==> PrepareOne(mounted, stages[j]).Ok?
    ensures PrepareAll(mounted, stages) == PrepareOne(mounted, stages[i])
    ensures Ran(mounted, stages) == stages[..i + 1]
  {
    RanUpTo(mounted, stages, i);
  }

  /** The loop of `Prepare` runs to the end when no processor fails. */
  lemma PrepareFinished(mounted: Result<Fragment>, stages: seq<Stage>, i: nat)
    requires i == |stages|
    requires forall j :: 0 <= j < i ==> PrepareOne(mounted, stages[j]).Ok?
    ensures stages[..i] == stages
    ensures Ran(mounted, stages) == stages
  {
    assert stages[..i] == stages;
    RanAllOk(mounted, stages);
  }

  /** One iteration of the loop of `Prepare`. */
  method PrepareStep(c: ProcessorContext, gen: GenerationContext, stages: seq<Stage>, i: nat, input: Fragment,
                     res: Fragment, ghost bridges0: set<string>, ghost flag0: bool) returns (step: Result<Fragment>)
    requires i < |stages|
    requires PrepareAll(MountedFile.PrepareSpec(c, input), stages[..i]) == Ok(res)
    requires (gen.referencedBridges, gen.needsProcessing) ==
      Recorded(stages[..i], bridges0, flag0, Share.Bridges(c.namespace, input), DetectIn(input))
    requires forall j :: 0 <= j < i ==> PrepareOne(MountedFile.PrepareSpec(c, input), stages[j]).Ok?
    modifies gen
    ensures step == PrepareOne(MountedFile.PrepareSpec(c, input), stages[i])
    ensures step.Ok? ==> PrepareAll(MountedFile.PrepareSpec(c, input), stages[..i + 1]) == Ok(res + step.value)
    ensures step.Ok? ==> forall j :: 0 <= j < i + 1 ==> PrepareOne(MountedFile.PrepareSpec(c, input), stages[j]).Ok?
    ensures step.Err? ==> PrepareAll(MountedFile.PrepareSpec(c, input), stages) == step
    ensures step.Err? ==> Ran(MountedFile.PrepareSpec(c, input), stages) == stages[..i + 1]
    ensures (gen.referencedBridges, gen.needsProcessing) ==
      Recorded(stages[..i + 1], bridges0, flag0, Share.Bridges(c.namespace, input), DetectIn(input))
    ensures gen.plugins == old(gen.plugins)
  {
    PrefixStep(stages, i, bridges0, flag0, Share.Bridges(c.namespace, input), DetectIn(input));
    step := PrepareStage(c, gen, stages[i], input);
    if step.Err? {
      PrepareStopped(MountedFile.PrepareSpec(c, input), stages, i);
    }
  }

  /** Before the loop nothing is recorded. */
  lemma RecordedNone(stages: seq<Stage>, bridges0: set<string>, flag0: bool, bridges: set<string>, detect: bool)
    ensures Recorded(stages[..0], bridges0, flag0, bridges, detect) == (bridges0, flag0)
  {
    assert stages[..0] == [];
    assert bridges0 + {} == bridges0;
  }

  /** What the processors in `ran` record in the generation context, from
      `bridges0` and `flag0`. */
  function Recorded(ran: seq<Stage>, bridges0: set<string>, flag0: bool, bridges: set<string>, detect: bool): (set<string>, bool)
  {
    (bridges0 + (if ShareStage in ran then bridges else {}), flag0 || (DetectExceptionsStage in ran && detect))
  }

  lemma RecordedSnoc(ran: seq<Stage>, s: Stage, bridges0: set<string>, flag0: bool, bridges: set<string>, detect: bool)
    ensures var before := Recorded(ran, bridges0, flag0, bridges, detect);
      Recorded(ran + [s], bridges0, flag0, bridges, detect) ==
      (before.0 + (if s == ShareStage then bridges else {}), before.1 || (s == DetectExceptionsStage && detect))
  {
    assert ShareStage in ran + [s] <==> ShareStage in ran || s == ShareStage;
    assert DetectExceptionsStage in ran + [s] <==> DetectExceptionsStage in ran || s == DetectExceptionsStage;
    var before := Recorded(ran, bridges0, flag0, bridges, detect);
    var after := Recorded(ran + [s], bridges0, flag0, bridges, detect);
    assert after.0 == before.0 + (if s == ShareStage then bridges else {});
  }

  /** One more processor: the prefix grows by it, as `Recorded` and
      `PrepareAll` see it. */
  lemma PrefixStep(stages: seq<Stage>, i: nat, bridges0: set<string>, flag0: bool, bridges: set<string>, detect: bool)
    requires i < |stages|
    ensures stages[..i + 1][..i] == stages[..i] && stages[..i + 1][i] == stages[i]
    ensures var before := Recorded(stages[..i], bridges0, flag0, bridges, detect);
      Recorded(stages[..i + 1], bridges0, flag0, bridges, detect) ==
      (before.0 + (if stages[i] == ShareStage then bridges else {}), before.1 || (stages[i] == DetectExceptionsStage && detect))
  {
    assert stages[..i + 1] == stages[..i] + [stages[i]];
    RecordedSnoc(stages[..i], stages[i], bridges0, flag0, bridges, detect);
  }

  lemma {:induction false} RanAllOk(mounted: Result<Fragment>, stages: seq<Stage>)
    requires forall j :: 0 <= j < |stages| ==> PrepareOne(mounted, stages[j]).Ok?
    ensures Ran(mounted, stages) == stages
    decreases |stages|
  {
    if |stages| > 0 {
      assert forall j :: 0 <= j < |stages| - 1 ==> stages[1..][j] == stages[j + 1];
      RanAllOk(mounted, stages[1..]);
      assert [stages[0]] + stages[1..] == stages;
    }
  }

  /** The processors that run are those up to the first failing one. */
  lemma {:induction false} RanUpTo(mounted: Result<Fragment>, stages: seq<Stage>, k: nat)
    requires k < |stages| && PrepareOne(mounted, stages[k]).Err?
    requires forall j :: 0 <= j < k ==> PrepareOne(mounted, stages[j]).Ok?
    ensures Ran(mounted, stages) == stages[..k + 1]
    decreases k
  {
    if k > 0 {
      assert forall j :: 0 <= j < k - 1 ==> stages[1..][j] == stages[j + 1];
      RanUpTo(mounted, stages[1..], k - 1);
      assert stages[..k + 1] == [stages[0]] + stages[1..][..k];
    }
  }

  /** With the default processors the main file receives exactly the
      mounted-file processor's output. */
  lemma DefaultPrepareOutput(mounted: Result<Fragment>)
    ensures PrepareAll(mounted, DefaultProcessors) == mounted
  {
    DefaultOrder();
    if mounted.Ok? {
      PrepareAllOnce(mounted, DefaultProcessors, 7);
    }
  }

  /** When the mounted-file processor fails, no bridge and no need for
      processing is recorded: share and detect_exceptions come after it. */
  lemma DefaultPrepareFailure(mounted: Result<Fragment>)
    requires mounted.Err?
    ensures ShareStage !in Ran(mounted, DefaultProcessors)
    ensures DetectExceptionsStage !in Ran(mounted, DefaultProcessors)
  {
    var s := DefaultProcessors;
    DefaultOrder();
    RanUpTo(mounted, s, 7);
    assert forall x :: x in s[..8] ==> exists j :: 0 <= j < 8 && s[j] == x;
  }

  /** Where the processors sit in the default order. */
  lemma DefaultOrder()
    ensures |DefaultProcessors| == 10
    ensures DefaultProcessors[7] == MountedFileStage && DefaultProcessors[8] == ShareStage
    ensures forall j :: 0 <= j < 10 && j != 7 ==> DefaultProcessors[j] != MountedFileStage
    ensures forall j :: 0 <= j < 10 && j != 8 ==> DefaultProcessors[j] != ShareStage
    ensures forall j :: 0 <= j < 9 ==> DefaultProcessors[j] != DetectExceptionsStage
  {
  }

  /** A chain with one mounted-file processor passes its output through. */
  lemma {:induction false} PrepareAllOnce(mounted: Result<Fragment>, stages: seq<Stage>, k: nat)
    requires mounted.Ok? && k < |stages| && stages[k] == MountedFileStage
    requires forall j :: 0 <= j < |stages| && j != k ==> stages[j] != MountedFileStage
    ensures PrepareAll(mounted, stages) == mounted
    decreases |stages|
  {
    var n := |stages| - 1;
    assert forall j :: 0 <= j < n ==> stages[..n][j] == stages[j];
    if k == n {
      assert MountedFileStage !in stages[..n];
      assert [] + mounted.value == mounted.value;
    } else {
      PrepareAllOnce(mounted, stages[..n], k);
      assert mounted.value + [] == mounted.value;
    }
  }

  // ---------------------------------------------------------------------
  // GetValidationTrailer

  /** `GetValidationTrailer`: only the share processor adds placeholders.
      `order` is the iteration order of the referenced bridges. */
  function Trailers(ctx: Option<ProcessorContext>, stages: seq<Stage>, order: seq<string>): (r: Fragment)
    requires ctx.Some? ==> ctx.value.gen.Some?
    ensures ctx.None? ==> r == []
    decreases |stages|
  {
    if ctx.None? || |stages| == 0 then []
    else
      (if stages[0] == ShareStage then Share.Trailer(ctx.value.namespace, order) else []) +
      Trailers(ctx, stages[1..], order)
  }

  /** `GetValidationTrailer`'s loop over the processors. */
  method ValidationTrailer(ctx: Option<ProcessorContext>, stages: seq<Stage>, order: seq<string>) returns (res: Fragment)
    requires ctx.Some? ==> ctx.value.gen.Some?
    ensures res == Trailers(ctx, stages, order)
  {
    res := [];
    if ctx.None? {
      return;
    }
    var i := 0;
    while i < |stages|
      invariant 0 <= i <= |stages|
      invariant Trailers(ctx, stages, order) == res + Trailers(ctx, stages[i..], order)
    {
      var part: Fragment := [];
      if stages[i] == ShareStage {
        part := Share.TrailerLoop(ctx.value.namespace, order);
      }
      TrailersStep(ctx, stages, order, i, res, part);
      res := res + part;
      i := i + 1;
    }
    assert stages[i..] == [];
    assert res + [] == res;
  }

  lemma TrailersStep(ctx: Option<ProcessorContext>, stages: seq<Stage>, order: seq<string>, i: nat, res: Fragment, part: Fragment)
    requires ctx.Some? && ctx.value.gen.Some? && i < |stages|
    requires part == if stages[i] == ShareStage then Share.Trailer(ctx.value.namespace, order) else []
    ensures res + Trailers(ctx, stages[i..], order) == (res + part) + Trailers(ctx, stages[i + 1..], order)
  {
    assert stages[i..][0] == stages[i] && stages[i..][1..] == stages[i + 1..];
  }

  /** With the default processors the trailer is the share processor's. */
  lemma DefaultTrailer(ctx: ProcessorContext, order: seq<string>)
    requires ctx.gen.Some?
    ensures Trailers(Some(ctx), DefaultProcessors, order) == Share.Trailer(ctx.namespace, order)
  {
    DefaultOrder();
    TrailersOne(ctx, DefaultProcessors, order, 8);
  }

  /** A chain with one share processor has its trailer. */
  lemma {:induction false} TrailersOne(ctx: ProcessorContext, stages: seq<Stage>, order: seq<string>, k: nat)
    requires ctx.gen.Some? && k < |stages| && stages[k] == ShareStage
    requires forall j :: 0 <= j < |stages| && j != k ==> stages[j] != ShareStage
    ensures Trailers(Some(ctx), stages, order) == Share.Trailer(ctx.namespace, order)
    decreases k
  {
    assert forall j :: 0 <= j < |stages| - 1 ==> stages[1..][j] == stages[j + 1];
    if k == 0 {
      TrailersNone(ctx, stages[1..], order);
      assert Share.Trailer(ctx.namespace, order) + [] == Share.Trailer(ctx.namespace, order);
    } else {
      TrailersOne(ctx, stages[1..], order, k - 1);
      assert [] + Share.Trailer(ctx.namespace, order) == Share.Trailer(ctx.namespace, order);
    }
  }

  /** A chain without the share processor adds no placeholder. */
  lemma {:induction false} TrailersNone(ctx: ProcessorContext, stages: seq<Stage>, order: seq<string>)
    requires ctx.gen.Some? && forall j :: 0 <= j < |stages| ==> stages[j] != ShareStage
    ensures Trailers(Some(ctx), stages, order) == []
    decreases |stages|
  {
    if |stages| > 0 {
      assert forall j :: 0 <= j < |stages| - 1 ==> stages[1..][j] == stages[j + 1];
      TrailersNone(ctx, stages[1..], order);
    }
  }
}
