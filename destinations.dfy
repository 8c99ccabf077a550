/** Output restrictions (config-reloader/processors/destinations.go): plugins
    that could run commands, write anywhere, change tags or read arbitrary
    input are refused, and file buffers are moved to a path the operator
    chooses under `/var/log`. */
module Destinations {
  import opened Wrappers
  import opened Fluentd
  import opened Strs
  import opened Util
  import opened Processor
  import MountedFile

  /** The errors of the pass, as the source words them. */
  const ErrSource: string := "cannot use <source> directive"
  const ErrTagModifier: string := "cannot modify tags using the plugin "

  const ParamBufferPath: string := "buffer_path"
  const SafePathPrefix: string := "/var/log/kfo-"

  /** `makeSafeBufferPath`: `hash` is `util.Hash`, applied to ("", original). */
  function MakeSafeBufferPath(ctx: ProcessorContext, origBufPath: string): (p: string)
    ensures HasPrefix(p, SafePathPrefix) && HasSuffix(p, ".buf")
  {
    var p := SafePathPrefix + FluentdSafeName(ctx.deploymentID) + "-" + ctx.namespace + "-" +
      ctx.foreign.hash("", origBufPath) + ".buf";
    assert p[|p| - 4..] == ".buf";
    p
  }

  /** The buffer file sits directly in `/var/log`, whatever path the user
      asked for: the deployment id is made safe, and neither a namespace name
      nor a SHA-1 digest holds a `/`. */
  lemma SafeBufferPathStaysInLogDir(ctx: ProcessorContext, origBufPath: string)
    requires '/' !in ctx.namespace && '/' !in ctx.foreign.hash("", origBufPath)
    ensures var p := MakeSafeBufferPath(ctx, origBufPath);
      p[..9] == "/var/log/" && '/' !in p[9..]
  {
    var safe := FluentdSafeName(ctx.deploymentID);
    var h := ctx.foreign.hash("", origBufPath);
    FluentdSafeNameProps(ctx.deploymentID);
    var q := SafePathPrefix;
    assert q[..9] == "/var/log/" && q[9..] == "kfo-";
    AppendInLogDir(q, safe);
    q := q + safe;
    AppendInLogDir(q, "-");
    q := q + "-";
    AppendInLogDir(q, ctx.namespace);
    q := q + ctx.namespace;
    AppendInLogDir(q, "-");
    q := q + "-";
    AppendInLogDir(q, h);
    q := q + h;
    AppendInLogDir(q, ".buf");
    q := q + ".buf";
    assert q == MakeSafeBufferPath(ctx, origBufPath);
  }

  /** Appending a name without `/` to a path directly under `/var/log`
      keeps it there. */
  lemma AppendInLogDir(q: string, s: string)
    requires |q| >= 9 && q[..9] == "/var/log/" && '/' !in q[9..] && '/' !in s
    ensures (q + s)[..9] == "/var/log/" && '/' !in (q + s)[9..]
  {
    assert (q + s)[..9] == q[..9];
    assert (q + s)[9..] == q[9..] + s;
  }

  /** `prohibitSources`: the error it returns, if any. */
  function ProhibitSources(d: Directive): (err: Option<string>)
    ensures err.Some? <==> d.name == "source" && d.Type() != MountedFile.MountedFileSourceType
  {
    if d.name == "source" && d.Type() != MountedFile.MountedFileSourceType then Some(ErrSource)
    else None
  }

  /** The plugin types refused in any output or filter. */
  predicate AlwaysProhibited(t: string)
  {
    t == "exec" || t == "exec_filter" || t == "stdout" || t == "rewrite_tag_filter"
  }

  /** `prohibitTypes`: the error it returns, if any. */
  function ProhibitTypes(allowFile: bool, d: Directive): (err: Option<string>)
    ensures d.name != "match" && d.name != "store" && d.name != "filter" ==> err.None?
    ensures (d.name == "match" || d.name == "store" || d.name == "filter") ==>
      (AlwaysProhibited(d.Type()) ==> err == Some("cannot use '@type " + d.Type() + "' in <" + d.name + ">")) &&
      (d.Type() == "detect_exceptions" ==> (err.Some? <==> d.name == "match")) &&
      (d.Type() == "file" ==> (err.Some? <==> !allowFile)) &&
      (d.Type() == "fields_parser" ==>
         (err.Some? <==> d.Param("remove_tag_prefix") != "" || d.Param("add_tag_prefix") != "")) &&
      (!AlwaysProhibited(d.Type()) && d.Type() !in {"detect_exceptions", "file", "fields_parser"} ==> err.None?)
  {
    if d.name != "match" && d.name != "store" && d.name != "filter" then None
    else
      var t := d.Type();
      var refused := Some("cannot use '@type " + t + "' in <" + d.name + ">");
      if AlwaysProhibited(t) then refused
      else if t == "detect_exceptions" then (if d.name == "match" then refused else None)
      else if t == "file" then (if !allowFile then refused else None)
      else if t == "fields_parser" then
        (if d.Param("remove_tag_prefix") != "" || d.Param("add_tag_prefix") != "" then
           Some(ErrTagModifier + t)
         else None)
      else None
  }

  /** Outputs whose `buffer_path` is moved. */
  predicate IsOutput(d: Directive)
  {
    d.name == "match" || d.name == "store"
  }

  predicate IsFileBuffer(d: Directive)
  {
    d.name == "buffer" && d.Type() == "file"
  }

  /** The new value of a path parameter: empty stays empty. */
  function SafePath(ctx: ProcessorContext, orig: string): (p: string)
    ensures orig == "" <==> p == ""
  {
    if orig == "" then "" else MakeSafeBufferPath(ctx, orig)
  }

  /** `rewriteBufferPath`. */
  function RewriteBufferPath(ctx: ProcessorContext, d: Directive): (e: Directive)
    ensures e.name == d.name && e.tag == d.tag && e.nested == d.nested && e.Type() == d.Type()
    ensures IsOutput(d) ==> e.Param(ParamBufferPath) == SafePath(ctx, d.Param(ParamBufferPath)) &&
                            forall k :: k != ParamBufferPath ==> e.Param(k) == d.Param(k)
    ensures IsFileBuffer(d) ==> e.Param("path") == SafePath(ctx, d.Param("path")) &&
                                forall k :: k != "path" ==> e.Param(k) == d.Param(k)
    ensures !IsOutput(d) && !IsFileBuffer(d) ==> e == d
  {
    if IsOutput(d) then
      var orig := d.Param(ParamBufferPath);
      if orig != "" then d.SetParam(ParamBufferPath, MakeSafeBufferPath(ctx, orig)) else d
    else if IsFileBuffer(d) then
      var path := d.Param("path");
      if path != "" then d.SetParam("path", MakeSafeBufferPath(ctx, path)) else d
    else d
  }

  function TypesOk(allowFile: bool): Directive -> bool
  {
    (d: Directive) => ProhibitTypes(allowFile, d).None?
  }

  function TypesMsg(allowFile: bool): Directive -> string
  {
    (d: Directive) => match ProhibitTypes(allowFile, d) case Some(m) => m case None => ""
  }

  function SourcesOk(): Directive -> bool
  {
    (d: Directive) => ProhibitSources(d).None?
  }

  function SourcesMsg(): Directive -> string
  {
    (d: Directive) => match ProhibitSources(d) case Some(m) => m case None => ""
  }

  function RewriteCallback(ctx: ProcessorContext): Callback<()>
  {
    (d: Directive, u: ()) => Ok((RewriteBufferPath(ctx, d), u))
  }

  lemma RewriteCallbackFacts(ctx: ProcessorContext)
    ensures Shallow(RewriteCallback(ctx)) && KeepsChildren(RewriteCallback(ctx)) && NeverFails(RewriteCallback(ctx))
    ensures Preserves(RewriteCallback(ctx), SourcesOk())
  {
  }

  /** `fixDestinations.Process`: three whole-tree passes, type check, buffer
      paths, source check, each stopping at the first error. It fails
      exactly when some directive uses a refused plugin or is a `<source>`
      other than a mounted file, with the type error reported first; on
      success every directive of the tree is the input's with its buffer
      path moved, and nothing else changed. */
  function DestinationsProcess(ctx: ProcessorContext, input: Fragment): (r: Result<Fragment>)
    ensures r.Err? <==>
      !AllSatisfy(LevelOrder(input), TypesOk(ctx.allowFile)) || !AllSatisfy(LevelOrder(input), SourcesOk())
    ensures !AllSatisfy(LevelOrder(input), TypesOk(ctx.allowFile)) ==>
      r.msg == ProhibitTypes(ctx.allowFile, FirstRejected(LevelOrder(input), TypesOk(ctx.allowFile)).value).value
    ensures r.Ok? ==> Mapped(RewriteCallback(ctx), LevelOrder(input), LevelOrder(r.value))
  {
    CheckerStopsAtFirstError(input, TypesOk(ctx.allowFile), TypesMsg(ctx.allowFile));
    match ApplyInPlace(input, (), Checker(TypesOk(ctx.allowFile), TypesMsg(ctx.allowFile)))
    case Err(e) => Err(e)
    case Ok((checked, _)) =>
      assert checked == input;
      MoveThenCheckSources(ctx, input)
  }

  /** The second half of `Process`, on a tree whose types passed: move the
      buffer paths, then refuse sources. */
  function MoveThenCheckSources(ctx: ProcessorContext, input: Fragment): (r: Result<Fragment>)
    ensures r.Err? <==> !AllSatisfy(LevelOrder(input), SourcesOk())
    ensures r.Ok? ==> Mapped(RewriteCallback(ctx), LevelOrder(input), LevelOrder(r.value))
  {
    RewriteCallbackFacts(ctx);
    NeverFailsWalk(input, (), RewriteCallback(ctx));
    WalkImage(input, RewriteCallback(ctx));
    WalkPreserves(input, (), RewriteCallback(ctx), SourcesOk());
    var moved := ApplyInPlace(input, (), RewriteCallback(ctx)).value.0;
    CheckerStopsAtFirstError(moved, SourcesOk(), SourcesMsg());
    match ApplyInPlace(moved, (), Checker(SourcesOk(), SourcesMsg()))
    case Err(e) => Err(e)
    case Ok((out, _)) => Ok(out)
  }

  /** After the pass, every output's non-empty `buffer_path`, and every file
      buffer's non-empty `path`, is the operator's safe path for what the
      user wrote; no other parameter changed. */
  lemma BufferPathsMoved(ctx: ProcessorContext, input: Fragment, i: nat)
    requires DestinationsProcess(ctx, input).Ok? && i < |LevelOrder(input)|
    ensures var d := LevelOrder(input)[i];
      var e := LevelOrder(DestinationsProcess(ctx, input).value)[i];
      e.name == d.name && e.tag == d.tag && e.Type() == d.Type() &&
      (IsOutput(d) ==> e.Param(ParamBufferPath) == SafePath(ctx, d.Param(ParamBufferPath))) &&
      (IsFileBuffer(d) ==> e.Param("path") == SafePath(ctx, d.Param("path")))
  {
    var d := LevelOrder(input)[i];
    var e := LevelOrder(DestinationsProcess(ctx, input).value)[i];
    assert Strip(e) == Strip(RewriteBufferPath(ctx, d));
    assert e.params == RewriteBufferPath(ctx, d).params;
  }
}
