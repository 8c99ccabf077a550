/** The processor framework (config-reloader/processors/processor.go): the
    shared generation context, the per-namespace processor context, tag
    augmentation, and the two tree walkers every processor is built on.

    Directive trees are values here. Go mutates directives through pointers;
    each walker below returns the rewritten tree instead, so what a pass
    "changes in place" is exactly the difference between its input and output. */
module Processor {
  import opened Wrappers
  import opened Fluentd
  import opened Strs
  import Kube

  /** The message of a Go slice-bounds panic. */
  const ErrSliceBounds: string := "runtime error: slice bounds out of range"

  const ProcessedPrefix: string := "_proc"

  /** `augmentTag`: a tag also matching the re-emitted `_proc.` copy of itself. */
  function AugmentTag(orig: string): (r: string)
    ensures orig == "" <==> r == ""
    ensures orig != "" ==> HasPrefix(r, orig) && |r| == 2 * |orig| + 7
  {
    if orig == "" then "" else orig + " " + ProcessedPrefix + "." + orig
  }

  /** A fluentd tag pattern is a space-separated list of alternatives; the
      augmented tag lists exactly the original and its `_proc.` variant. */
  lemma AugmentTagAlternatives(orig: string)
    requires orig != "" && ' ' !in orig
    ensures Split(AugmentTag(orig), ' ') == [orig, "_proc." + orig]
  {
    assert ' ' !in "_proc." + orig by {
      assert forall i :: 0 <= i < |orig| ==> ("_proc." + orig)[i + 6] == orig[i];
    }
    assert AugmentTag(orig) == Join([orig, "_proc." + orig], " ");
    SplitJoin([orig, "_proc." + orig], ' ');
  }

  /** The values a `GenerationContext` holds at one moment. A bridge is
      referenced when `ReferencedBridges[name]` is true, so a set suffices. */
  datatype GenState = GenState(referencedBridges: set<string>, needsProcessing: bool,
                               plugins: map<string, Directive>)

  /** `GenerationContext`: state shared by all processors and namespaces in
      one controller loop; `Prepare` passes and `ExtractPlugins` update it. */
  class GenerationContext {
    var referencedBridges: set<string>
    var needsProcessing: bool
    var plugins: map<string, Directive>

    constructor ()
      ensures referencedBridges == {} && !needsProcessing && plugins == map[]
    {
      referencedBridges := {};
      needsProcessing := false;
      plugins := map[];
    }

    function Snapshot(): (g: GenState)
      reads this
      ensures g.referencedBridges == referencedBridges
      ensures g.needsProcessing == needsProcessing && g.plugins == plugins
    {
      GenState(referencedBridges, needsProcessing, plugins)
    }
  }

  /** `GenerationContext.augmentTag`: augments only when a context exists
      and asks for it; nothing but the tag changes. */
  function GenAugment(g: Option<GenState>, d: Directive): (r: Directive)
    ensures r.name == d.name && r.params == d.params && r.nested == d.nested
    ensures (g.None? || !g.value.needsProcessing) ==> r == d
    ensures g.Some? && g.value.needsProcessing ==> r.tag == AugmentTag(d.tag)
  {
    if g.None? || !g.value.needsProcessing then d else d.(tag := AugmentTag(d.tag))
  }

  /** Code the model does not see: SHA-1 hex of `owner:value` (`util.Hash`)
      and the tag tokenizer regular expression of expand_tags.go, which
      returns the tags it finds and the text left between them. */
  datatype Foreign = Foreign(hash: (string, string) -> string,
                             scanTags: string -> (seq<string>, seq<string>))

  /** `ProcessorContext`: what a processor sees of its namespace. */
  datatype ProcessorContext = ProcessorContext(
    namespace: string,
    namespaceLabels: map<string, string>,
    allowFile: bool,
    deploymentID: string,
    miniContainers: seq<Kube.MiniContainer>,
    kubeletRoot: string,
    gen: Option<GenState>,
    allowTagExpansion: bool,
    foreign: Foreign)

  // ---------------------------------------------------------------------
  // applyRecursivelyInPlace

  /** A callback of `applyRecursivelyInPlace`, with the state its closure
      threads through the walk. It may rewrite a directive, but never make
      the tree deeper. */
  type Callback<!S> = (Directive, S) -> Result<(Directive, S)>

  ghost predicate Shallow<S(!new)>(cb: Callback<S>)
  {
    forall d, s :: cb(d, s).Ok? ==> Height(cb(d, s).value.0) <= Height(d)
  }

  /** `applyRecursivelyInPlace`: the callback on every directive of a level,
      then a recursive walk of each directive's (already rewritten) children. */
  function ApplyInPlace<S(!new)>(dirs: Fragment, st: S, cb: Callback<S>): (r: Result<(Fragment, S)>)
    requires Shallow(cb)
    ensures r.Ok? ==> |r.value.0| == |dirs| && FragHeight(r.value.0) <= FragHeight(dirs)
    decreases FragHeight(dirs), 1, 0
  {
    match ApplyLevel(dirs, st, cb)
    case Err(e) => Err(e)
    case Ok((level, st1)) => Descend(level, st1, cb)
  }

  /** The first loop: the callback on each sibling, stopping at an error. */
  function ApplyLevel<S(!new)>(dirs: Fragment, st: S, cb: Callback<S>): (r: Result<(Fragment, S)>)
    requires Shallow(cb)
    ensures r.Ok? ==> |r.value.0| == |dirs| && FragHeight(r.value.0) <= FragHeight(dirs)
    decreases |dirs|
  {
    if |dirs| == 0 then Ok(([], st))
    else
      match cb(dirs[0], st)
      case Err(e) => Err(e)
      case Ok((d, st1)) =>
        match ApplyLevel(dirs[1..], st1, cb)
        case Err(e) => Err(e)
        case Ok((rest, st2)) =>
          LevelHeight(dirs, d, rest);
          Ok(([d] + rest, st2))
  }

  /** Replacing the head of a fragment by a directive no higher than it, and
      the tail by a fragment no higher than it, does not raise the fragment. */
  lemma LevelHeight(f: Fragment, d: Directive, rest: Fragment)
    requires |f| > 0 && Height(d) <= Height(f[0]) && FragHeight(rest) <= FragHeight(f[1..])
    ensures FragHeight([d] + rest) <= FragHeight(f)
  {
    assert ([d] + rest)[1..] == rest;
  }

  /** The second loop: each directive's children, walked in order. */
  function Descend<S(!new)>(level: Fragment, st: S, cb: Callback<S>): (r: Result<(Fragment, S)>)
    requires Shallow(cb)
    ensures r.Ok? ==> |r.value.0| == |level| && FragHeight(r.value.0) <= FragHeight(level)
    decreases FragHeight(level), 0, |level|
  {
    if |level| == 0 then Ok(([], st))
    else
      var d := level[0];
      HeightWithin(level, 0);
      match ApplyInPlace(d.nested, st, cb)
      case Err(e) => Err(e)
      case Ok((kids, st1)) =>
        FragHeightTail(level);
        match Descend(level[1..], st1, cb)
        case Err(e) => Err(e)
        case Ok((rest, st2)) =>
          LevelHeight(level, d.(nested := kids), rest);
          Ok(([d.(nested := kids)] + rest, st2))
  }

  /** The order in which `applyRecursivelyInPlace` reaches directives: a
      whole level first, then the subtree below each of its directives. */
  function LevelOrder(dirs: Fragment): seq<Directive>
    decreases dirs, 1
  {
    dirs + SubtreeOrder(dirs)
  }

  function SubtreeOrder(dirs: Fragment): seq<Directive>
    decreases dirs, 0
  {
    if |dirs| == 0 then [] else LevelOrder(dirs[0].nested) + SubtreeOrder(dirs[1..])
  }

  /** Every directive is reached exactly once: the order lists `Count` of them. */
  lemma {:induction false} LevelOrderCount(dirs: Fragment)
    ensures |LevelOrder(dirs)| == Count(dirs)
    decreases dirs, 1
  {
    SubtreeOrderCount(dirs);
  }

  lemma {:induction false} SubtreeOrderCount(dirs: Fragment)
    ensures |SubtreeOrder(dirs)| + |dirs| == Count(dirs)
    decreases dirs, 0
  {
    if |dirs| > 0 {
      LevelOrderCount(dirs[0].nested);
      SubtreeOrderCount(dirs[1..]);
    }
  }

  /** A callback that records every directive it is given and changes nothing. */
  function Recorder(): Callback<seq<Directive>>
  {
    (d: Directive, log: seq<Directive>) => Ok((d, log + [d]))
  }

  lemma RecorderShallow()
    ensures Shallow(Recorder())
  {
  }

  /** Walking with the recorder leaves the tree as it was and calls back once
      per directive, siblings before children, in `LevelOrder`. */
  lemma {:induction false} RecorderSeesLevelOrder(dirs: Fragment, log: seq<Directive>)
    ensures Shallow(Recorder())
    ensures ApplyInPlace(dirs, log, Recorder()) == Ok((dirs, log + LevelOrder(dirs)))
    decreases dirs, 1
  {
    RecorderShallow();
    RecorderLevel(dirs, log);
    RecorderDescend(dirs, log + dirs);
    assert log + dirs + SubtreeOrder(dirs) == log + LevelOrder(dirs);
  }

  lemma {:induction false} RecorderLevel(dirs: Fragment, log: seq<Directive>)
    requires Shallow(Recorder())
    ensures ApplyLevel(dirs, log, Recorder()) == Ok((dirs, log + dirs))
    decreases |dirs|
  {
    if |dirs| > 0 {
      var d, rest := dirs[0], dirs[1..];
      assert dirs == [d] + rest;
      assert Recorder()(d, log) == Ok((d, log + [d]));
      RecorderLevel(rest, log + [d]);
      assert ApplyLevel(dirs, log, Recorder()) == Ok(([d] + rest, log + [d] + rest));
      assert log + [d] + rest == log + ([d] + rest);
    } else {
      assert log + dirs == log;
    }
  }

  lemma {:induction false} RecorderDescend(level: Fragment, log: seq<Directive>)
    requires Shallow(Recorder())
    ensures Descend(level, log, Recorder()) == Ok((level, log + SubtreeOrder(level)))
    decreases level, 0
  {
    if |level| > 0 {
      var d := level[0];
      RecorderSeesLevelOrder(d.nested, log);
      var log1 := log + LevelOrder(d.nested);
      RecorderDescend(level[1..], log1);
      assert d.(nested := d.nested) == d;
      assert [d] + level[1..] == level;
      assert log1 + SubtreeOrder(level[1..]) == log + SubtreeOrder(level);
    } else {
      assert log + SubtreeOrder(level) == log;
    }
  }

  /** A callback that only reads: each directive it is given updates the
      state through `step`. */
  function Folder<S(!new)>(step: (S, Directive) -> S): Callback<S>
  {
    (d: Directive, s: S) => Ok((d, step(s, d)))
  }

  /** `step` applied to the directives of `xs`, first to last. */
  function FoldSeq<S>(step: (S, Directive) -> S, s: S, xs: seq<Directive>): S
    decreases |xs|
  {
    if |xs| == 0 then s else FoldSeq(step, step(s, xs[0]), xs[1..])
  }

  lemma {:induction false} FoldSeqAppend<S>(step: (S, Directive) -> S, s: S, a: seq<Directive>, b: seq<Directive>)
    ensures FoldSeq(step, s, a + b) == FoldSeq(step, FoldSeq(step, s, a), b)
    decreases |a|
  {
    if |a| > 0 {
      assert (a + b)[0] == a[0] && (a + b)[1..] == a[1..] + b;
      FoldSeqAppend(step, step(s, a[0]), a[1..], b);
    } else {
      assert a + b == b;
    }
  }

  /** A reading walk leaves the tree as it was and folds its directives in
      walk order. */
  lemma {:induction false} FolderSeesLevelOrder<S(!new)>(dirs: Fragment, s: S, step: (S, Directive) -> S)
    ensures Shallow(Folder(step))
    ensures ApplyInPlace(dirs, s, Folder(step)) == Ok((dirs, FoldSeq(step, s, LevelOrder(dirs))))
    decreases dirs, 1
  {
    FolderLevel(dirs, s, step);
    FolderDescend(dirs, FoldSeq(step, s, dirs), step);
    FoldSeqAppend(step, s, dirs, SubtreeOrder(dirs));
  }

  lemma {:induction false} FolderLevel<S(!new)>(dirs: Fragment, s: S, step: (S, Directive) -> S)
    requires Shallow(Folder(step))
    ensures ApplyLevel(dirs, s, Folder(step)) == Ok((dirs, FoldSeq(step, s, dirs)))
    decreases |dirs|
  {
    if |dirs| > 0 {
      FolderLevel(dirs[1..], step(s, dirs[0]), step);
      assert [dirs[0]] + dirs[1..] == dirs;
    }
  }

  lemma {:induction false} FolderDescend<S(!new)>(level: Fragment, s: S, step: (S, Directive) -> S)
    requires Shallow(Folder(step))
    ensures Descend(level, s, Folder(step)) == Ok((level, FoldSeq(step, s, SubtreeOrder(level))))
    decreases level, 0
  {
    if |level| > 0 {
      var d := level[0];
      FolderSeesLevelOrder(d.nested, s, step);
      var s1 := FoldSeq(step, s, LevelOrder(d.nested));
      FolderDescend(level[1..], s1, step);
      FoldSeqAppend(step, s, LevelOrder(d.nested), SubtreeOrder(level[1..]));
      assert d.(nested := d.nested) == d;
      assert [d] + level[1..] == level;
    }
  }

  /** Two fragments with the same directives, parameters and nesting, that
      may differ in tags only. */
  predicate SameShape(a: Fragment, b: Fragment)
    decreases a
  {
    |a| == |b| &&
    (|a| == 0 ||
     (a[0].name == b[0].name && a[0].params == b[0].params &&
      SameShape(a[0].nested, b[0].nested) && SameShape(a[1..], b[1..])))
  }

  /** `e` is `d` with, at most, another tag. */
  predicate TagOnlyStep(d: Directive, e: Directive)
  {
    e.name == d.name && e.params == d.params && e.nested == d.nested
  }

  /** A callback that rewrites tags and nothing else. */
  ghost predicate TagOnly<S(!new)>(cb: Callback<S>)
  {
    forall d, s :: cb(d, s).Ok? ==> TagOnlyStep(d, cb(d, s).value.0)
  }

  predicate Retagged(a: Fragment, b: Fragment)
  {
    |a| == |b| && forall i :: 0 <= i < |a| ==> TagOnlyStep(a[i], b[i])
  }

  /** A walk with a tag-only callback keeps the shape of the tree: every
      directive, parameter and nesting level is where it was. */
  lemma {:induction false} TagOnlyKeepsShape<S(!new)>(dirs: Fragment, st: S, cb: Callback<S>)
    requires Shallow(cb) && TagOnly(cb)
    ensures ApplyInPlace(dirs, st, cb).Ok? ==> SameShape(dirs, ApplyInPlace(dirs, st, cb).value.0)
    decreases FragHeight(dirs), 1, 0
  {
    var lv := ApplyLevel(dirs, st, cb);
    if lv.Ok? {
      LevelRetagged(dirs, st, cb);
      DescendShape(dirs, lv.value.0, lv.value.1, cb);
    }
  }

  lemma {:induction false} LevelRetagged<S(!new)>(dirs: Fragment, st: S, cb: Callback<S>)
    requires Shallow(cb) && TagOnly(cb)
    ensures ApplyLevel(dirs, st, cb).Ok? ==> Retagged(dirs, ApplyLevel(dirs, st, cb).value.0)
    decreases |dirs|
  {
    if |dirs| > 0 {
      var c := cb(dirs[0], st);
      if c.Ok? {
        LevelRetagged(dirs[1..], c.value.1, cb);
        var r := ApplyLevel(dirs, st, cb);
        if r.Ok? {
          var rest := ApplyLevel(dirs[1..], c.value.1, cb).value.0;
          assert r.value.0 == [c.value.0] + rest;
          forall i | 1 <= i < |dirs| ensures TagOnlyStep(dirs[i], r.value.0[i]) {
            assert dirs[i] == dirs[1..][i - 1];
          }
        }
      }
    }
  }

  lemma {:induction false} DescendShape<S(!new)>(orig: Fragment, level: Fragment, st: S, cb: Callback<S>)
    requires Shallow(cb) && TagOnly(cb) && Retagged(orig, level)
    ensures Descend(level, st, cb).Ok? ==> SameShape(orig, Descend(level, st, cb).value.0)
    decreases FragHeight(level), 0, |level|
  {
    if |level| > 0 {
      var d := level[0];
      HeightWithin(level, 0);
      var k := ApplyInPlace(d.nested, st, cb);
      if k.Ok? {
        TagOnlyKeepsShape(d.nested, st, cb);
        FragHeightTail(level);
        assert Retagged(orig[1..], level[1..]) by {
          forall i | 0 <= i < |orig| - 1 ensures TagOnlyStep(orig[1..][i], level[1..][i]) {
            assert TagOnlyStep(orig[i + 1], level[i + 1]);
          }
        }
        DescendShape(orig[1..], level[1..], k.value.1, cb);
      }
    }
  }

  /** Two fragments with the same directives at the same places, whose
      tags and parameters may differ. */
  predicate SameNesting(a: Fragment, b: Fragment)
    decreases a
  {
    |a| == |b| &&
    (|a| == 0 ||
     (a[0].name == b[0].name && SameNesting(a[0].nested, b[0].nested) && SameNesting(a[1..], b[1..])))
  }

  /** A callback that may rewrite a directive's tag and parameters but keeps
      its name and children. */
  ghost predicate KeepsNames<S(!new)>(cb: Callback<S>)
  {
    forall d, s :: cb(d, s).Ok? ==> cb(d, s).value.0.name == d.name && cb(d, s).value.0.nested == d.nested
  }

  /** `b` is `a` with, at each place, the same name and children. */
  predicate Renamed(a: Fragment, b: Fragment)
  {
    |a| == |b| && forall i :: 0 <= i < |a| ==> a[i].name == b[i].name && a[i].nested == b[i].nested
  }

  /** A walk with such a callback keeps every directive where it was. */
  lemma {:induction false} KeepsNamesNesting<S(!new)>(dirs: Fragment, st: S, cb: Callback<S>)
    requires Shallow(cb) && KeepsNames(cb)
    ensures ApplyInPlace(dirs, st, cb).Ok? ==> SameNesting(dirs, ApplyInPlace(dirs, st, cb).value.0)
    decreases FragHeight(dirs), 1, 0
  {
    var lv := ApplyLevel(dirs, st, cb);
    if lv.Ok? {
      LevelRenamed(dirs, st, cb);
      DescendNesting(dirs, lv.value.0, lv.value.1, cb);
    }
  }

  lemma {:induction false} LevelRenamed<S(!new)>(dirs: Fragment, st: S, cb: Callback<S>)
    requires Shallow(cb) && KeepsNames(cb)
    ensures ApplyLevel(dirs, st, cb).Ok? ==> Renamed(dirs, ApplyLevel(dirs, st, cb).value.0)
    decreases |dirs|
  {
    if |dirs| > 0 {
      var c := cb(dirs[0], st);
      if c.Ok? {
        LevelRenamed(dirs[1..], c.value.1, cb);
        var r := ApplyLevel(dirs, st, cb);
        if r.Ok? {
          var rest := ApplyLevel(dirs[1..], c.value.1, cb).value.0;
          assert r.value.0 == [c.value.0] + rest;
          forall i | 1 <= i < |dirs| ensures dirs[i].name == r.value.0[i].name && dirs[i].nested == r.value.0[i].nested {
            assert dirs[i] == dirs[1..][i - 1];
          }
        }
      }
    }
  }

  lemma {:induction false} DescendNesting<S(!new)>(orig: Fragment, level: Fragment, st: S, cb: Callback<S>)
    requires Shallow(cb) && KeepsNames(cb) && Renamed(orig, level)
    ensures Descend(level, st, cb).Ok? ==> SameNesting(orig, Descend(level, st, cb).value.0)
    decreases FragHeight(level), 0, |level|
  {
    if |level| > 0 {
      var d := level[0];
      HeightWithin(level, 0);
      var k := ApplyInPlace(d.nested, st, cb);
      if k.Ok? {
        KeepsNamesNesting(d.nested, st, cb);
        FragHeightTail(level);
        assert Renamed(orig[1..], level[1..]) by {
          forall i | 0 <= i < |orig| - 1
            ensures orig[1..][i].name == level[1..][i].name && orig[1..][i].nested == level[1..][i].nested
          {
            assert orig[1..][i] == orig[i + 1] && level[1..][i] == level[i + 1];
          }
        }
        DescendNesting(orig[1..], level[1..], k.value.1, cb);
      }
    }
  }

  lemma {:induction false} SameNestingTrans(a: Fragment, b: Fragment, c: Fragment)
    requires SameNesting(a, b) && SameNesting(b, c)
    ensures SameNesting(a, c)
    decreases a
  {
    if |a| > 0 {
      SameNestingTrans(a[0].nested, b[0].nested, c[0].nested);
      SameNestingTrans(a[1..], b[1..], c[1..]);
    }
  }

  /** A callback that never reports an error. */
  ghost predicate NeverFails<S(!new)>(cb: Callback<S>)
  {
    forall d, s :: cb(d, s).Ok?
  }

  /** A walk whose callback never fails never fails. */
  lemma {:induction false} NeverFailsWalk<S(!new)>(dirs: Fragment, st: S, cb: Callback<S>)
    requires Shallow(cb) && NeverFails(cb)
    ensures ApplyInPlace(dirs, st, cb).Ok?
    decreases FragHeight(dirs), 1, 0
  {
    NeverFailsLevel(dirs, st, cb);
    var lv := ApplyLevel(dirs, st, cb).value;
    NeverFailsDescend(lv.0, lv.1, cb);
  }

  lemma {:induction false} NeverFailsLevel<S(!new)>(dirs: Fragment, st: S, cb: Callback<S>)
    requires Shallow(cb) && NeverFails(cb)
    ensures ApplyLevel(dirs, st, cb).Ok?
    decreases |dirs|
  {
    if |dirs| > 0 {
      NeverFailsLevel(dirs[1..], cb(dirs[0], st).value.1, cb);
    }
  }

  lemma {:induction false} NeverFailsDescend<S(!new)>(level: Fragment, st: S, cb: Callback<S>)
    requires Shallow(cb) && NeverFails(cb)
    ensures Descend(level, st, cb).Ok?
    decreases FragHeight(level), 0, |level|
  {
    if |level| > 0 {
      HeightWithin(level, 0);
      NeverFailsWalk(level[0].nested, st, cb);
      FragHeightTail(level);
      NeverFailsDescend(level[1..], ApplyInPlace(level[0].nested, st, cb).value.1, cb);
    }
  }

  lemma {:induction false} SameShapeTrans(a: Fragment, b: Fragment, c: Fragment)
    requires SameShape(a, b) && SameShape(b, c)
    ensures SameShape(a, c)
    decreases a
  {
    if |a| > 0 {
      SameShapeTrans(a[0].nested, b[0].nested, c[0].nested);
      SameShapeTrans(a[1..], b[1..], c[1..]);
    }
  }

  lemma {:induction false} SameShapeCount(a: Fragment, b: Fragment)
    requires SameShape(a, b)
    ensures Count(a) == Count(b)
    decreases a
  {
    if |a| > 0 {
      SameShapeCount(a[0].nested, b[0].nested);
      SameShapeCount(a[1..], b[1..]);
    }
  }

  /** A callback that only validates: `ok` accepts, otherwise `msg` is the error. */
  function Checker(ok: Directive -> bool, msg: Directive -> string): Callback<()>
  {
    (d: Directive, u: ()) => if ok(d) then Ok((d, u)) else Err(msg(d))
  }

  /** The first element of `xs` that `ok` rejects. */
  function FirstRejected(xs: seq<Directive>, ok: Directive -> bool): (r: Option<Directive>)
    ensures r.None? <==> forall i :: 0 <= i < |xs| ==> ok(xs[i])
    ensures r.Some? ==> r.value in xs && !ok(r.value)
  {
    if |xs| == 0 then None
    else if !ok(xs[0]) then Some(xs[0])
    else
      var r := FirstRejected(xs[1..], ok);
      assert forall i :: 1 <= i < |xs| ==> xs[i] == xs[1..][i - 1];
      r
  }

  lemma {:induction false} FirstRejectedAppend(a: seq<Directive>, b: seq<Directive>, ok: Directive -> bool)
    ensures FirstRejected(a + b, ok) == if FirstRejected(a, ok).Some? then FirstRejected(a, ok) else FirstRejected(b, ok)
    decreases |a|
  {
    if |a| > 0 {
      assert (a + b)[0] == a[0];
      assert (a + b)[1..] == a[1..] + b;
      FirstRejectedAppend(a[1..], b, ok);
    } else {
      assert a + b == b;
    }
  }

  /** Two lists judged alike position by position have their first
      rejections at the same position: whatever `f` reads agrees there. */
  lemma {:induction false} FirstRejectedAlike(xs: seq<Directive>, ys: seq<Directive>,
                                              ok1: Directive -> bool, ok2: Directive -> bool, f: Directive -> string)
    requires |xs| == |ys|
    requires forall i :: 0 <= i < |xs| ==> ok1(xs[i]) == ok2(ys[i]) && f(xs[i]) == f(ys[i])
    ensures FirstRejected(xs, ok1).Some? <==> FirstRejected(ys, ok2).Some?
    ensures FirstRejected(xs, ok1).Some? ==> f(FirstRejected(xs, ok1).value) == f(FirstRejected(ys, ok2).value)
    decreases |xs|
  {
    if |xs| > 0 && ok1(xs[0]) {
      assert ok1(xs[0]) == ok2(ys[0]);
      forall i | 0 <= i < |xs| - 1
        ensures ok1(xs[1..][i]) == ok2(ys[1..][i]) && f(xs[1..][i]) == f(ys[1..][i])
      {
        assert xs[1..][i] == xs[i + 1] && ys[1..][i] == ys[i + 1];
      }
      FirstRejectedAlike(xs[1..], ys[1..], ok1, ok2, f);
    }
  }

  /** The error `applyRecursivelyInPlace` returns for a validating callback:
      that of the first rejected directive in walk order; with none rejected
      the tree comes back unchanged. */
  function CheckOutcome(dirs: Fragment, ok: Directive -> bool, msg: Directive -> string): Result<(Fragment, ())>
  {
    match FirstRejected(LevelOrder(dirs), ok)
    case None => Ok((dirs, ()))
    case Some(x) => Err(msg(x))
  }

  lemma CheckerShallow(ok: Directive -> bool, msg: Directive -> string)
    ensures Shallow(Checker(ok, msg))
  {
  }

  /** The walk stops at the first callback error and returns it. */
  lemma {:induction false} CheckerStopsAtFirstError(dirs: Fragment, ok: Directive -> bool, msg: Directive -> string)
    ensures Shallow(Checker(ok, msg))
    ensures ApplyInPlace(dirs, (), Checker(ok, msg)) == CheckOutcome(dirs, ok, msg)
    decreases dirs, 1
  {
    CheckerShallow(ok, msg);
    CheckerLevel(dirs, ok, msg);
    FirstRejectedAppend(dirs, SubtreeOrder(dirs), ok);
    if FirstRejected(dirs, ok).None? {
      CheckerDescend(dirs, ok, msg);
    }
  }

  lemma {:induction false} CheckerLevel(dirs: Fragment, ok: Directive -> bool, msg: Directive -> string)
    requires Shallow(Checker(ok, msg))
    ensures ApplyLevel(dirs, (), Checker(ok, msg)) ==
      match FirstRejected(dirs, ok)
      case None => Ok((dirs, ()))
      case Some(x) => Err(msg(x))
    decreases |dirs|
  {
    if |dirs| > 0 {
      CheckerLevel(dirs[1..], ok, msg);
      assert [dirs[0]] + dirs[1..] == dirs;
    }
  }

  lemma {:induction false} CheckerDescend(level: Fragment, ok: Directive -> bool, msg: Directive -> string)
    requires Shallow(Checker(ok, msg))
    ensures Descend(level, (), Checker(ok, msg)) ==
      match FirstRejected(SubtreeOrder(level), ok)
      case None => Ok((level, ()))
      case Some(x) => Err(msg(x))
    decreases level, 0
  {
    if |level| > 0 {
      var d := level[0];
      CheckerStopsAtFirstError(d.nested, ok, msg);
      FirstRejectedAppend(LevelOrder(d.nested), SubtreeOrder(level[1..]), ok);
      if FirstRejected(LevelOrder(d.nested), ok).None? {
        CheckerDescend(level[1..], ok, msg);
        assert d.(nested := d.nested) == d;
        assert [d] + level[1..] == level;
      }
    }
  }

  /** The directives a stateless callback lets through. */
  function Accepts(cb: Callback<()>): Directive -> bool
  {
    (d: Directive) => cb(d, ()).Ok?
  }

  /** A callback that may rewrite a directive but keeps its children. */
  ghost predicate KeepsChildren<S(!new)>(cb: Callback<S>)
  {
    forall d, s :: cb(d, s).Ok? ==> cb(d, s).value.0.nested == d.nested
  }

  lemma KeepsChildrenShallow<S(!new)>(cb: Callback<S>)
    requires KeepsChildren(cb)
    ensures Shallow(cb)
  {
  }

  lemma TagOnlyKeepsChildren<S(!new)>(cb: Callback<S>)
    requires TagOnly(cb)
    ensures KeepsChildren(cb)
  {
  }

  /** Two levels whose directives have, position by position, the same children. */
  predicate SameChildren(a: Fragment, b: Fragment)
  {
    |a| == |b| && forall i :: 0 <= i < |a| ==> a[i].nested == b[i].nested
  }

  lemma {:induction false} LevelSameChildren<S(!new)>(dirs: Fragment, st: S, cb: Callback<S>)
    requires Shallow(cb) && KeepsChildren(cb)
    ensures ApplyLevel(dirs, st, cb).Ok? ==> SameChildren(dirs, ApplyLevel(dirs, st, cb).value.0)
    decreases |dirs|
  {
    if |dirs| > 0 {
      var c := cb(dirs[0], st);
      if c.Ok? {
        LevelSameChildren(dirs[1..], c.value.1, cb);
        var r := ApplyLevel(dirs, st, cb);
        if r.Ok? {
          var rest := ApplyLevel(dirs[1..], c.value.1, cb).value.0;
          assert r.value.0 == [c.value.0] + rest;
          forall i | 1 <= i < |dirs| ensures dirs[i].nested == r.value.0[i].nested {
            assert dirs[i] == dirs[1..][i - 1];
          }
        }
      }
    }
  }

  /** A stateless callback that keeps children fails the walk exactly when
      it rejects some directive, and the walk reports the first rejection in
      walk order: rewriting a directive on the way down does not change
      which directives are reached below it. */
  lemma {:induction false} StatelessOutcome(dirs: Fragment, cb: Callback<()>)
    requires Shallow(cb) && KeepsChildren(cb)
    ensures ApplyInPlace(dirs, (), cb).Err? <==> FirstRejected(LevelOrder(dirs), Accepts(cb)).Some?
    ensures ApplyInPlace(dirs, (), cb).Err? ==>
      ApplyInPlace(dirs, (), cb).msg == cb(FirstRejected(LevelOrder(dirs), Accepts(cb)).value, ()).msg
    decreases FragHeight(dirs), 1, 0
  {
    StatelessLevelOutcome(dirs, cb);
    FirstRejectedAppend(dirs, SubtreeOrder(dirs), Accepts(cb));
    var lv := ApplyLevel(dirs, (), cb);
    if lv.Ok? {
      LevelSameChildren(dirs, (), cb);
      SameChildrenSubtree(dirs, lv.value.0);
      StatelessDescendOutcome(lv.value.0, cb);
      assert lv.value.1 == ();
      assert ApplyInPlace(dirs, (), cb) == Descend(lv.value.0, (), cb);
    }
  }

  lemma {:induction false} StatelessLevelOutcome(dirs: Fragment, cb: Callback<()>)
    requires Shallow(cb)
    ensures ApplyLevel(dirs, (), cb).Err? <==> FirstRejected(dirs, Accepts(cb)).Some?
    ensures ApplyLevel(dirs, (), cb).Err? ==>
      ApplyLevel(dirs, (), cb).msg == cb(FirstRejected(dirs, Accepts(cb)).value, ()).msg
    decreases |dirs|
  {
    if |dirs| > 0 {
      var ok := Accepts(cb);
      assert ok(dirs[0]) == cb(dirs[0], ()).Ok?;
      StatelessLevelOutcome(dirs[1..], cb);
      if cb(dirs[0], ()).Ok? {
        assert FirstRejected(dirs, ok) == FirstRejected(dirs[1..], ok);
        assert cb(dirs[0], ()).value.1 == ();
      }
    }
  }

  lemma {:induction false} StatelessDescendOutcome(level: Fragment, cb: Callback<()>)
    requires Shallow(cb) && KeepsChildren(cb)
    ensures Descend(level, (), cb).Err? <==> FirstRejected(SubtreeOrder(level), Accepts(cb)).Some?
    ensures Descend(level, (), cb).Err? ==>
      Descend(level, (), cb).msg == cb(FirstRejected(SubtreeOrder(level), Accepts(cb)).value, ()).msg
    decreases FragHeight(level), 0, |level|
  {
    if |level| > 0 {
      HeightWithin(level, 0);
      StatelessOutcome(level[0].nested, cb);
      FirstRejectedAppend(LevelOrder(level[0].nested), SubtreeOrder(level[1..]), Accepts(cb));
      FragHeightTail(level);
      StatelessDescendOutcome(level[1..], cb);
      var k := ApplyInPlace(level[0].nested, (), cb);
      if k.Ok? {
        assert k.value.1 == ();
        var rest := Descend(level[1..], (), cb);
        assert Descend(level, (), cb).Err? == rest.Err?;
        assert rest.Err? ==> Descend(level, (), cb).msg == rest.msg;
      }
    }
  }

  /** Only the children of a level decide what lies below it. */
  lemma {:induction false} SameChildrenSubtree(a: Fragment, b: Fragment)
    requires SameChildren(a, b)
    ensures SubtreeOrder(a) == SubtreeOrder(b)
    decreases |a|
  {
    if |a| > 0 {
      assert SameChildren(a[1..], b[1..]) by {
        forall i | 0 <= i < |a| - 1 ensures a[1..][i].nested == b[1..][i].nested {
          assert a[i + 1].nested == b[i + 1].nested;
        }
      }
      SameChildrenSubtree(a[1..], b[1..]);
    }
  }

  /** `q` does not look at children, and the callback never changes it. */
  ghost predicate Preserves<S(!new)>(cb: Callback<S>, q: Directive -> bool)
  {
    (forall d, s :: cb(d, s).Ok? ==> q(cb(d, s).value.0) == q(d)) &&
    (forall d: Directive, k: Fragment :: q(d.(nested := k)) == q(d))
  }

  /** A walk whose callback keeps children and never changes `q` leaves the
      tree with `q` true everywhere exactly when it was before. */
  lemma {:induction false} WalkPreserves<S(!new)>(dirs: Fragment, st: S, cb: Callback<S>, q: Directive -> bool)
    requires Shallow(cb) && KeepsChildren(cb) && Preserves(cb, q)
    ensures ApplyInPlace(dirs, st, cb).Ok? ==>
      (AllSatisfy(LevelOrder(dirs), q) <==> AllSatisfy(LevelOrder(ApplyInPlace(dirs, st, cb).value.0), q))
    decreases FragHeight(dirs), 1, 0
  {
    var lv := ApplyLevel(dirs, st, cb);
    if lv.Ok? {
      var level := lv.value.0;
      LevelPreserves(dirs, st, cb, q);
      LevelSameChildren(dirs, st, cb);
      SameChildrenSubtree(dirs, level);
      DescendPreserves(level, lv.value.1, cb, q);
      AllSatisfyAppend(dirs, SubtreeOrder(dirs), q);
      AllSatisfyAppend(level, SubtreeOrder(level), q);
    }
  }

  lemma {:induction false} LevelPreserves<S(!new)>(dirs: Fragment, st: S, cb: Callback<S>, q: Directive -> bool)
    requires Shallow(cb) && Preserves(cb, q)
    ensures ApplyLevel(dirs, st, cb).Ok? ==>
      (AllSatisfy(dirs, q) <==> AllSatisfy(ApplyLevel(dirs, st, cb).value.0, q))
    decreases |dirs|
  {
    if |dirs| > 0 {
      var c := cb(dirs[0], st);
      if c.Ok? {
        LevelPreserves(dirs[1..], c.value.1, cb, q);
        var r := ApplyLevel(dirs, st, cb);
        if r.Ok? {
          var rest := ApplyLevel(dirs[1..], c.value.1, cb).value.0;
          assert r.value.0 == [c.value.0] + rest;
          AllSatisfyAppend([dirs[0]], dirs[1..], q);
          AllSatisfyAppend([c.value.0], rest, q);
          assert [dirs[0]] + dirs[1..] == dirs;
        }
      }
    }
  }

  lemma {:induction false} DescendPreserves<S(!new)>(level: Fragment, st: S, cb: Callback<S>, q: Directive -> bool)
    requires Shallow(cb) && KeepsChildren(cb) && Preserves(cb, q)
    ensures Descend(level, st, cb).Ok? ==>
      (AllSatisfy(LevelOrder(level), q) <==> AllSatisfy(LevelOrder(Descend(level, st, cb).value.0), q))
    decreases FragHeight(level), 0, |level|
  {
    if |level| > 0 {
      var d := level[0];
      HeightWithin(level, 0);
      var k := ApplyInPlace(d.nested, st, cb);
      if k.Ok? {
        WalkPreserves(d.nested, st, cb, q);
        FragHeightTail(level);
        DescendPreserves(level[1..], k.value.1, cb, q);
        var r := Descend(level, st, cb);
        if r.Ok? {
          var kids := k.value.0;
          var rest := Descend(level[1..], k.value.1, cb).value.0;
          var h := d.(nested := kids);
          assert r.value.0 == [h] + rest;
          assert q(h) == q(d);
          assert level == [d] + level[1..];
          ConsPreserves(d, kids, level[1..], rest, q);
        }
      }
    }
  }

  /** A level whose head keeps `q` and whose head's subtree and siblings
      satisfy `q` everywhere exactly when their replacements do. */
  lemma ConsPreserves(d: Directive, kids: Fragment, tail: Fragment, rest: Fragment, q: Directive -> bool)
    requires q(d.(nested := kids)) == q(d)
    requires AllSatisfy(LevelOrder(d.nested), q) <==> AllSatisfy(LevelOrder(kids), q)
    requires AllSatisfy(LevelOrder(tail), q) <==> AllSatisfy(LevelOrder(rest), q)
    ensures AllSatisfy(LevelOrder([d] + tail), q) <==> AllSatisfy(LevelOrder([d.(nested := kids)] + rest), q)
  {
    ConsSatisfy(d, tail, q);
    ConsSatisfy(d.(nested := kids), rest, q);
  }

  /** `q` holds everywhere below a level exactly when it holds of the head,
      everywhere under the head, and everywhere under the siblings. */
  lemma ConsSatisfy(d: Directive, tail: Fragment, q: Directive -> bool)
    ensures AllSatisfy(LevelOrder([d] + tail), q) <==>
      q(d) && AllSatisfy(LevelOrder(d.nested), q) && AllSatisfy(LevelOrder(tail), q)
  {
    var level := [d] + tail;
    assert level[0] == d && level[1..] == tail;
    assert LevelOrder(level) == [d] + (tail + (LevelOrder(d.nested) + SubtreeOrder(tail)));
    AllSatisfyAppend([d], tail + (LevelOrder(d.nested) + SubtreeOrder(tail)), q);
    AllSatisfyAppend(tail, LevelOrder(d.nested) + SubtreeOrder(tail), q);
    AllSatisfyAppend(LevelOrder(d.nested), SubtreeOrder(tail), q);
    AllSatisfyAppend(tail, SubtreeOrder(tail), q);
  }

  /** A directive without its children. */
  function Strip(d: Directive): (r: Directive)
    ensures r.name == d.name && r.tag == d.tag && r.params == d.params && r.nested == []
  {
    d.(nested := [])
  }

  /** `ys` is `xs` with the callback applied to each directive, children
      aside. */
  predicate Mapped(cb: Callback<()>, xs: seq<Directive>, ys: seq<Directive>)
  {
    |xs| == |ys| &&
    forall i :: 0 <= i < |xs| ==> cb(xs[i], ()).Ok? && Strip(ys[i]) == Strip(cb(xs[i], ()).value.0)
  }

  lemma MappedAppend(cb: Callback<()>, a: seq<Directive>, b: seq<Directive>, c: seq<Directive>, d: seq<Directive>)
    requires Mapped(cb, a, c) && Mapped(cb, b, d)
    ensures Mapped(cb, a + b, c + d)
  {
    forall i | 0 <= i < |a + b|
      ensures cb((a + b)[i], ()).Ok? && Strip((c + d)[i]) == Strip(cb((a + b)[i], ()).value.0)
    {
      if i < |a| {
        assert (a + b)[i] == a[i] && (c + d)[i] == c[i];
      } else {
        assert (a + b)[i] == b[i - |a|] && (c + d)[i] == d[i - |a|];
      }
    }
  }

  /** After a successful walk of a stateless callback that keeps children,
      the tree read in walk order is the input read in walk order with the
      callback applied to every directive: a fact about one call of the
      callback is a fact about the whole tree. */
  lemma {:induction false} WalkImage(dirs: Fragment, cb: Callback<()>)
    requires Shallow(cb) && KeepsChildren(cb)
    ensures ApplyInPlace(dirs, (), cb).Ok? ==> Mapped(cb, LevelOrder(dirs), LevelOrder(ApplyInPlace(dirs, (), cb).value.0))
    decreases FragHeight(dirs), 1, 0
  {
    var lv := ApplyLevel(dirs, (), cb);
    if lv.Ok? {
      var level := lv.value.0;
      assert lv.value.1 == ();
      LevelImage(dirs, cb);
      LevelSameChildren(dirs, (), cb);
      SameChildrenSubtree(dirs, level);
      DescendImage(level, cb);
      var r := ApplyInPlace(dirs, (), cb);
      if r.Ok? {
        var out := r.value.0;
        assert out == Descend(level, (), cb).value.0;
        assert Mapped(cb, dirs, out) by {
          forall i | 0 <= i < |dirs| ensures Strip(out[i]) == Strip(cb(dirs[i], ()).value.0) {
            assert Strip(out[i]) == Strip(level[i]);
          }
        }
        MappedAppend(cb, dirs, SubtreeOrder(dirs), out, SubtreeOrder(out));
      }
    }
  }

  lemma {:induction false} LevelImage(dirs: Fragment, cb: Callback<()>)
    requires Shallow(cb)
    ensures ApplyLevel(dirs, (), cb).Ok? ==>
      |ApplyLevel(dirs, (), cb).value.0| == |dirs| &&
      forall i :: 0 <= i < |dirs| ==> cb(dirs[i], ()).Ok? && ApplyLevel(dirs, (), cb).value.0[i] == cb(dirs[i], ()).value.0
    decreases |dirs|
  {
    if |dirs| > 0 {
      var c := cb(dirs[0], ());
      if c.Ok? {
        assert c.value.1 == ();
        LevelImage(dirs[1..], cb);
        var r := ApplyLevel(dirs, (), cb);
        if r.Ok? {
          var rest := ApplyLevel(dirs[1..], (), cb).value.0;
          assert r.value.0 == [c.value.0] + rest;
          forall i | 1 <= i < |dirs| ensures cb(dirs[i], ()).Ok? && r.value.0[i] == cb(dirs[i], ()).value.0 {
            assert dirs[i] == dirs[1..][i - 1];
          }
        }
      }
    }
  }

  lemma {:induction false} DescendImage(level: Fragment, cb: Callback<()>)
    requires Shallow(cb) && KeepsChildren(cb)
    ensures Descend(level, (), cb).Ok? ==>
      |Descend(level, (), cb).value.0| == |level| &&
      (forall i :: 0 <= i < |level| ==> Strip(Descend(level, (), cb).value.0[i]) == Strip(level[i])) &&
      Mapped(cb, SubtreeOrder(level), SubtreeOrder(Descend(level, (), cb).value.0))
    decreases FragHeight(level), 0, |level|
  {
    if |level| > 0 {
      var d := level[0];
      HeightWithin(level, 0);
      var k := ApplyInPlace(d.nested, (), cb);
      if k.Ok? {
        assert k.value.1 == ();
        WalkImage(d.nested, cb);
        FragHeightTail(level);
        DescendImage(level[1..], cb);
        var r := Descend(level, (), cb);
        if r.Ok? {
          var kids := k.value.0;
          var rest := Descend(level[1..], (), cb).value.0;
          var out := [d.(nested := kids)] + rest;
          assert r.value.0 == out;
          assert out[1..] == rest;
          forall i | 0 <= i < |level| ensures Strip(out[i]) == Strip(level[i]) {
            if i > 0 {
              assert out[i] == rest[i - 1] && level[i] == level[1..][i - 1];
            }
          }
          MappedAppend(cb, LevelOrder(d.nested), SubtreeOrder(level[1..]), LevelOrder(kids), SubtreeOrder(rest));
        }
      }
    }
  }

  // ---------------------------------------------------------------------
  // Callbacks that also rewrite the children they hand down

  /** `dirs` is `orig` with some directives rewritten by `kid`. */
  predicate Variant(kid: Directive -> Directive, orig: Fragment, dirs: Fragment)
  {
    |orig| == |dirs| && forall i :: 0 <= i < |orig| ==> dirs[i] == orig[i] || dirs[i] == kid(orig[i])
  }

  /** A stateless callback that may rewrite children, but each child only
      by `kid`, which keeps the grandchildren. */
  ghost predicate RewritesKids(cb: Callback<()>, kid: Directive -> Directive)
  {
    (forall x :: kid(x).nested == x.nested) &&
    (forall d :: cb(d, ()).Ok? ==> Variant(kid, d.nested, cb(d, ()).value.0.nested))
  }

  /** `y` is what the walk makes of a directive it reaches as `v`: the
      callback's image of `v`, whose children are in turn the callback's
      images of the children that image hands down. */
  predicate StepImage(cb: Callback<()>, v: Directive, y: Directive)
  {
    cb(v, ()).Ok? && Strip(y) == Strip(cb(v, ()).value.0) &&
    |y.nested| == |cb(v, ()).value.0.nested| &&
    forall j :: 0 <= j < |y.nested| ==>
      cb(cb(v, ()).value.0.nested[j], ()).Ok? &&
      Strip(y.nested[j]) == Strip(cb(cb(v, ()).value.0.nested[j], ()).value.0)
  }

  /** Position by position, `ys` is the walk's image of `xs`, each directive
      reached either as it was written or as its parent's callback rewrote it. */
  predicate MappedVia(cb: Callback<()>, kid: Directive -> Directive, xs: seq<Directive>, ys: seq<Directive>)
  {
    |xs| == |ys| &&
    forall i :: 0 <= i < |xs| ==> StepImage(cb, xs[i], ys[i]) || StepImage(cb, kid(xs[i]), ys[i])
  }

  lemma MappedViaAppend(cb: Callback<()>, kid: Directive -> Directive,
                        a: seq<Directive>, b: seq<Directive>, c: seq<Directive>, d: seq<Directive>)
    requires MappedVia(cb, kid, a, c) && MappedVia(cb, kid, b, d)
    ensures MappedVia(cb, kid, a + b, c + d)
  {
    forall i | 0 <= i < |a + b|
      ensures StepImage(cb, (a + b)[i], (c + d)[i]) || StepImage(cb, kid((a + b)[i]), (c + d)[i])
    {
      if i < |a| {
        assert (a + b)[i] == a[i] && (c + d)[i] == c[i];
      } else {
        assert (a + b)[i] == b[i - |a|] && (c + d)[i] == d[i - |a|];
      }
    }
  }

  /** A variant has the children of the original. */
  lemma VariantSameChildren(kid: Directive -> Directive, orig: Fragment, dirs: Fragment)
    requires Variant(kid, orig, dirs) && forall x :: kid(x).nested == x.nested
    ensures SameChildren(orig, dirs)
  {
    forall i | 0 <= i < |orig| ensures orig[i].nested == dirs[i].nested {
      assert dirs[i] == orig[i] || dirs[i] == kid(orig[i]);
    }
  }

  /** The walk of a stateless callback that rewrites children with `kid`:
      each directive of the result, in walk order, is the callback's image of
      the input's directive at that place, as written or as rewritten by
      `kid`; the top level is reached as it stands. */
  lemma {:induction false} WalkVia(orig: Fragment, dirs: Fragment, cb: Callback<()>, kid: Directive -> Directive)
    requires Shallow(cb) && RewritesKids(cb, kid) && Variant(kid, orig, dirs)
    ensures ApplyInPlace(dirs, (), cb).Ok? ==>
      MappedVia(cb, kid, LevelOrder(orig), LevelOrder(ApplyInPlace(dirs, (), cb).value.0)) &&
      forall i :: 0 <= i < |dirs| ==> StepImage(cb, dirs[i], ApplyInPlace(dirs, (), cb).value.0[i])
    decreases FragHeight(dirs), 1, 0
  {
    var lv := ApplyLevel(dirs, (), cb);
    if lv.Ok? {
      var level := lv.value.0;
      assert lv.value.1 == ();
      LevelImage(dirs, cb);
      VariantSameChildren(kid, orig, dirs);
      SameChildrenSubtree(orig, dirs);
      forall i | 0 <= i < |level| ensures cb(dirs[i], ()) == Ok((level[i], ())) {
        assert cb(dirs[i], ()).value.1 == ();
      }
      DescendVia(dirs, level, cb, kid);
      var r := ApplyInPlace(dirs, (), cb);
      if r.Ok? {
        var out := r.value.0;
        assert out == Descend(level, (), cb).value.0;
        assert MappedVia(cb, kid, orig, out) by {
          forall i | 0 <= i < |orig| ensures StepImage(cb, orig[i], out[i]) || StepImage(cb, kid(orig[i]), out[i]) {
            assert StepImage(cb, dirs[i], out[i]);
          }
        }
        MappedViaAppend(cb, kid, orig, SubtreeOrder(orig), out, SubtreeOrder(out));
      }
    }
  }

  /** The second loop of that walk: each directive of the level keeps its
      fields, its children are the walk of the children it hands down, and
      below the level the result is the image of what lay below `above`,
      the directives the level was made from. */
  lemma {:induction false} DescendVia(above: Fragment, level: Fragment, cb: Callback<()>, kid: Directive -> Directive)
    requires Shallow(cb) && RewritesKids(cb, kid)
    requires |above| == |level|
    requires forall i :: 0 <= i < |level| ==> cb(above[i], ()) == Ok((level[i], ()))
    ensures Descend(level, (), cb).Ok? ==>
      (forall i :: 0 <= i < |level| ==> StepImage(cb, above[i], Descend(level, (), cb).value.0[i])) &&
      MappedVia(cb, kid, SubtreeOrder(above), SubtreeOrder(Descend(level, (), cb).value.0))
    decreases FragHeight(level), 0, |level|
  {
    if |level| > 0 {
      var d := level[0];
      HeightWithin(level, 0);
      assert Variant(kid, above[0].nested, d.nested);
      var k := ApplyInPlace(d.nested, (), cb);
      if k.Ok? {
        assert k.value.1 == ();
        WalkVia(above[0].nested, d.nested, cb, kid);
        FragHeightTail(level);
        DescendVia(above[1..], level[1..], cb, kid);
        var r := Descend(level, (), cb);
        if r.Ok? {
          var kids := k.value.0;
          var rest := Descend(level[1..], (), cb).value.0;
          var out := [d.(nested := kids)] + rest;
          assert r.value.0 == out;
          assert out[1..] == rest;
          forall i | 0 <= i < |level| ensures StepImage(cb, above[i], out[i]) {
            if i > 0 {
              assert out[i] == rest[i - 1] && level[i] == level[1..][i - 1] && above[i] == above[1..][i - 1];
            }
          }
          MappedViaAppend(cb, kid, LevelOrder(above[0].nested), SubtreeOrder(above[1..]), LevelOrder(kids), SubtreeOrder(rest));
        }
      }
    }
  }

  /** Rewriting a directive with `kid` never changes whether the callback
      accepts it. */
  ghost predicate KidKeepsOutcome(cb: Callback<()>, kid: Directive -> Directive)
  {
    forall x :: cb(kid(x), ()).Ok? == cb(x, ()).Ok?
  }

  /** The walk of such a callback fails exactly when the callback rejects
      some directive of the input, as written, at any depth. */
  lemma {:induction false} WalkFailsVia(orig: Fragment, dirs: Fragment, cb: Callback<()>, kid: Directive -> Directive)
    requires Shallow(cb) && RewritesKids(cb, kid) && KidKeepsOutcome(cb, kid) && Variant(kid, orig, dirs)
    ensures ApplyInPlace(dirs, (), cb).Err? <==> !AllSatisfy(LevelOrder(orig), Accepts(cb))
    decreases FragHeight(dirs), 1, 0
  {
    var ok := Accepts(cb);
    StatelessLevelOutcome(dirs, cb);
    assert AllSatisfy(dirs, ok) <==> AllSatisfy(orig, ok) by {
      forall i | 0 <= i < |orig| ensures ok(dirs[i]) == ok(orig[i]) {
        assert dirs[i] == orig[i] || dirs[i] == kid(orig[i]);
      }
    }
    AllSatisfyAppend(orig, SubtreeOrder(orig), ok);
    var lv := ApplyLevel(dirs, (), cb);
    if lv.Ok? {
      var level := lv.value.0;
      assert lv.value.1 == ();
      LevelImage(dirs, cb);
      VariantSameChildren(kid, orig, dirs);
      SameChildrenSubtree(orig, dirs);
      forall i | 0 <= i < |level| ensures cb(dirs[i], ()) == Ok((level[i], ())) {
        assert cb(dirs[i], ()).value.1 == ();
      }
      DescendFailsVia(dirs, level, cb, kid);
      assert ApplyInPlace(dirs, (), cb) == Descend(level, (), cb);
    }
  }

  lemma {:induction false} DescendFailsVia(above: Fragment, level: Fragment, cb: Callback<()>, kid: Directive -> Directive)
    requires Shallow(cb) && RewritesKids(cb, kid) && KidKeepsOutcome(cb, kid)
    requires |above| == |level|
    requires forall i :: 0 <= i < |level| ==> cb(above[i], ()) == Ok((level[i], ()))
    ensures Descend(level, (), cb).Err? <==> !AllSatisfy(SubtreeOrder(above), Accepts(cb))
    decreases FragHeight(level), 0, |level|
  {
    if |level| > 0 {
      var d := level[0];
      HeightWithin(level, 0);
      assert Variant(kid, above[0].nested, d.nested);
      WalkFailsVia(above[0].nested, d.nested, cb, kid);
      AllSatisfyAppend(LevelOrder(above[0].nested), SubtreeOrder(above[1..]), Accepts(cb));
      var k := ApplyInPlace(d.nested, (), cb);
      if k.Ok? {
        assert k.value.1 == ();
        FragHeightTail(level);
        forall i | 0 <= i < |level| - 1 ensures cb(above[1..][i], ()) == Ok((level[1..][i], ())) {
          assert above[1..][i] == above[i + 1] && level[1..][i] == level[i + 1];
        }
        DescendFailsVia(above[1..], level[1..], cb, kid);
        assert Descend(level, (), cb).Err? == Descend(level[1..], (), cb).Err?;
      }
    }
  }

  /** A directive below a level lies in the walk of one of its directives'
      children. */
  lemma {:induction false} SubtreeMember(dirs: Fragment, y: Directive)
    requires y in SubtreeOrder(dirs)
    ensures exists j :: 0 <= j < |dirs| && y in LevelOrder(dirs[j].nested)
    decreases |dirs|
  {
    if y !in LevelOrder(dirs[0].nested) {
      SubtreeMember(dirs[1..], y);
      var j :| 0 <= j < |dirs[1..]| && y in LevelOrder(dirs[1..][j].nested);
      assert dirs[1..][j] == dirs[j + 1];
    }
  }

  /** Conversely, the walk of a directive's children is part of the walk. */
  lemma {:induction false} NestedMember(dirs: Fragment, j: nat, y: Directive)
    requires j < |dirs| && y in LevelOrder(dirs[j].nested)
    ensures y in SubtreeOrder(dirs) && y in LevelOrder(dirs)
    decreases |dirs|
  {
    if j > 0 {
      assert dirs[1..][j - 1] == dirs[j];
      NestedMember(dirs[1..], j - 1, y);
    }
  }

  /** Every element of `xs` satisfies `p`. */
  predicate AllSatisfy(xs: seq<Directive>, p: Directive -> bool)
  {
    forall i :: 0 <= i < |xs| ==> p(xs[i])
  }

  /** Every directive a callback writes satisfies `p`, and `p` does not look
      at a directive's children. */
  ghost predicate Establishes<S(!new)>(cb: Callback<S>, p: Directive -> bool)
  {
    (forall d, s :: cb(d, s).Ok? ==> p(cb(d, s).value.0)) &&
    (forall d: Directive, k: Fragment :: p(d) ==> p(d.(nested := k)))
  }

  /** After a successful walk, every directive of the tree is one the
      callback wrote: what the callback guarantees holds everywhere. */
  lemma {:induction false} WalkEstablishes<S(!new)>(dirs: Fragment, st: S, cb: Callback<S>, p: Directive -> bool)
    requires Shallow(cb) && Establishes(cb, p)
    ensures ApplyInPlace(dirs, st, cb).Ok? ==> AllSatisfy(LevelOrder(ApplyInPlace(dirs, st, cb).value.0), p)
    decreases FragHeight(dirs), 1, 0
  {
    var lv := ApplyLevel(dirs, st, cb);
    if lv.Ok? {
      LevelEstablishes(dirs, st, cb, p);
      DescendEstablishes(lv.value.0, lv.value.1, cb, p);
    }
  }

  lemma {:induction false} LevelEstablishes<S(!new)>(dirs: Fragment, st: S, cb: Callback<S>, p: Directive -> bool)
    requires Shallow(cb) && Establishes(cb, p)
    ensures ApplyLevel(dirs, st, cb).Ok? ==> AllSatisfy(ApplyLevel(dirs, st, cb).value.0, p)
    decreases |dirs|
  {
    if |dirs| > 0 {
      var c := cb(dirs[0], st);
      if c.Ok? {
        LevelEstablishes(dirs[1..], c.value.1, cb, p);
      }
    }
  }

  lemma {:induction false} DescendEstablishes<S(!new)>(level: Fragment, st: S, cb: Callback<S>, p: Directive -> bool)
    requires Shallow(cb) && Establishes(cb, p) && AllSatisfy(level, p)
    ensures Descend(level, st, cb).Ok? ==> AllSatisfy(LevelOrder(Descend(level, st, cb).value.0), p)
    decreases FragHeight(level), 0, |level|
  {
    if |level| > 0 {
      var d := level[0];
      HeightWithin(level, 0);
      var k := ApplyInPlace(d.nested, st, cb);
      if k.Ok? {
        WalkEstablishes(d.nested, st, cb, p);
        FragHeightTail(level);
        DescendEstablishes(level[1..], k.value.1, cb, p);
        var r := Descend(level, st, cb);
        if r.Ok? {
          var kids := k.value.0;
          var rest := Descend(level[1..], k.value.1, cb).value.0;
          var h := d.(nested := kids);
          var out := [h] + rest;
          assert r.value.0 == out;
          assert p(h);
          AllSatisfyAppend(rest, SubtreeOrder(rest), p);
          assert out[1..] == rest && out[0] == h;
          assert SubtreeOrder(out) == LevelOrder(kids) + SubtreeOrder(rest);
          AllSatisfyAppend(LevelOrder(kids), SubtreeOrder(rest), p);
          AllSatisfyAppend([h], rest, p);
          AllSatisfyAppend(out, SubtreeOrder(out), p);
        }
      }
    }
  }

  lemma AllSatisfyAppend(a: seq<Directive>, b: seq<Directive>, p: Directive -> bool)
    ensures AllSatisfy(a + b, p) <==> AllSatisfy(a, p) && AllSatisfy(b, p)
  {
    if AllSatisfy(a, p) && AllSatisfy(b, p) {
      forall i | 0 <= i < |a + b| ensures p((a + b)[i]) {
        if i >= |a| { assert (a + b)[i] == b[i - |a|]; }
      }
    }
    if AllSatisfy(a + b, p) {
      forall i | 0 <= i < |a| ensures p(a[i]) {
        assert (a + b)[i] == a[i];
      }
      forall i | 0 <= i < |b| ensures p(b[i]) {
        assert (a + b)[i + |a|] == b[i];
      }
    }
  }

  /** `p` holds of every directive of the tree, stated by recursion on the
      tree rather than on the walk order. */
  predicate Everywhere(dirs: Fragment, p: Directive -> bool)
    decreases dirs
  {
    |dirs| == 0 || (p(dirs[0]) && Everywhere(dirs[0].nested, p) && Everywhere(dirs[1..], p))
  }

  /** The walk order lists every directive of the tree. */
  lemma EverywhereLevelOrder(dirs: Fragment, p: Directive -> bool)
    ensures Everywhere(dirs, p) <==> AllSatisfy(LevelOrder(dirs), p)
  {
    EverywhereSubtree(dirs, p);
    AllSatisfyAppend(dirs, SubtreeOrder(dirs), p);
  }

  lemma {:induction false} EverywhereSubtree(dirs: Fragment, p: Directive -> bool)
    ensures Everywhere(dirs, p) <==> AllSatisfy(dirs, p) && AllSatisfy(SubtreeOrder(dirs), p)
    decreases dirs
  {
    if |dirs| > 0 {
      var d := dirs[0];
      EverywhereSubtree(d.nested, p);
      AllSatisfyAppend(d.nested, SubtreeOrder(d.nested), p);
      EverywhereSubtree(dirs[1..], p);
      AllSatisfyAppend(LevelOrder(d.nested), SubtreeOrder(dirs[1..]), p);
      assert dirs == [d] + dirs[1..];
      AllSatisfyAppend([d], dirs[1..], p);
    }
  }

  /** Two sequences of directives that agree, position by position, on
      names and parameters. */
  predicate Congruent(xs: seq<Directive>, ys: seq<Directive>)
  {
    |xs| == |ys| && forall i :: 0 <= i < |xs| ==> xs[i].name == ys[i].name && xs[i].params == ys[i].params
  }

  /** Trees of the same shape are walked through directives with the same
      names and parameters, in the same order. */
  lemma {:induction false} SameShapeOrder(a: Fragment, b: Fragment)
    requires SameShape(a, b)
    ensures Congruent(LevelOrder(a), LevelOrder(b))
    decreases a, 1
  {
    SameShapeLevel(a, b);
    SameShapeSubtree(a, b);
  }

  lemma {:induction false} SameShapeLevel(a: Fragment, b: Fragment)
    requires SameShape(a, b)
    ensures Congruent(a, b)
    decreases |a|
  {
    if |a| > 0 {
      SameShapeLevel(a[1..], b[1..]);
      forall i | 1 <= i < |a| ensures a[i].name == b[i].name && a[i].params == b[i].params {
        assert a[i] == a[1..][i - 1] && b[i] == b[1..][i - 1];
      }
    }
  }

  lemma {:induction false} SameShapeSubtree(a: Fragment, b: Fragment)
    requires SameShape(a, b)
    ensures Congruent(SubtreeOrder(a), SubtreeOrder(b))
    decreases a, 0
  {
    if |a| > 0 {
      SameShapeOrder(a[0].nested, b[0].nested);
      SameShapeSubtree(a[1..], b[1..]);
    }
  }

  // ---------------------------------------------------------------------
  // transform / doTransform / copy

  /** What a `transform` callback does with one child: the directives it
      appends to the parent's output, and which of them (if any) it returns
      to receive the transformed children; `None` is Go's nil. */
  datatype Emit = Emit(out: Fragment, focus: Option<nat>)
  {
    predicate Valid() { focus.Some? ==> focus.value < |out| }
  }

  type Emitter = Directive -> Emit

  ghost predicate ValidEmitter(f: Emitter)
  {
    forall d :: f(d).Valid()
  }

  /** `doTransform`: each child's emitted directives, in order; a returned
      directive gets the transformed children when the child had any. */
  function DoTransform(input: Fragment, f: Emitter): (r: Fragment)
    requires ValidEmitter(f)
    decreases input
  {
    if |input| == 0 then []
    else
      var child := input[0];
      var e := f(child);
      var out :=
        if |child.nested| > 0 && e.focus.Some?
        then e.out[e.focus.value := e.out[e.focus.value].(nested := DoTransform(child.nested, f))]
        else e.out;
      out + DoTransform(input[1..], f)
  }

  /** `copy`: append a clone and hand it back for its children. */
  function Copy(d: Directive): (e: Emit)
    ensures e.Valid() && e.out == [d]
  {
    Emit([d], Some(0))
  }

  /** `transform(input, copy)` reproduces its input. */
  lemma {:induction false} TransformCopyIdentity(input: Fragment)
    ensures ValidEmitter(Copy)
    ensures DoTransform(input, Copy) == input
    decreases input
  {
    if |input| > 0 {
      var child := input[0];
      if |child.nested| > 0 {
        TransformCopyIdentity(child.nested);
        assert child.(nested := child.nested) == child;
      }
      TransformCopyIdentity(input[1..]);
      assert [input[0]] + input[1..] == input;
    }
  }

  /** A child the callback copies keeps its place, with its children
      transformed when it has any. */
  lemma CopiedHead(input: Fragment, f: Emitter)
    requires ValidEmitter(f) && |input| > 0 && f(input[0]) == Copy(input[0])
    ensures DoTransform(input, f) ==
      [if |input[0].nested| > 0 then input[0].(nested := DoTransform(input[0].nested, f)) else input[0]] +
      DoTransform(input[1..], f)
  {
  }

  /** A child the callback does not hand back is replaced by its output,
      and its children are not visited. */
  lemma NilHead(input: Fragment, f: Emitter)
    requires ValidEmitter(f) && |input| > 0 && f(input[0]).focus.None?
    ensures DoTransform(input, f) == f(input[0]).out + DoTransform(input[1..], f)
  {
  }

  lemma NilSkipsNested(child: Directive, rest: Fragment, f: Emitter)
    requires ValidEmitter(f) && f(child).focus.None?
    ensures DoTransform([child] + rest, f) == f(child).out + DoTransform(rest, f)
  {
    assert ([child] + rest)[1..] == rest;
  }
}
