/** The informer-based Kubernetes connection
    (config-reloader/datasource/kube_informer.go): which namespaces are
    inspected, how the status annotation is kept, and which namespaces are
    skipped for want of configuration. */
module KubeInformer {
  import opened Wrappers
  import opened Sorting
  import opened Kube
  import ConfigMapDS

  // ---------------------------------------------------------------------
  // discoverNamespaces: the sources

  /** The names of some namespaces, in order. */
  function NamesOf(nses: seq<Namespace>): (r: seq<string>)
    ensures |r| == |nses| && forall i :: 0 <= i < |nses| ==> r[i] == nses[i].name
    decreases |nses|
  {
    if |nses| == 0 then [] else NamesOf(nses[..|nses| - 1]) + [nses[|nses| - 1].name]
  }

  /** Some namespace named `ns` matches the selector. */
  predicate SelectorLists(selector: map<string, string>, nses: seq<Namespace>, ns: string)
  {
    exists i :: 0 <= i < |nses| && nses[i].name == ns && ConfigMapDS.SelectorMatches(selector, nses[i].labels)
  }

  /** The namespaces a label selector lists, in cache order. */
  function SelectedNames(selector: map<string, string>, nses: seq<Namespace>): (r: seq<string>)
    ensures forall x :: x in r <==> SelectorLists(selector, nses, x)
    decreases |nses|
  {
    if |nses| == 0 then []
    else
      var n := |nses| - 1;
      assert forall i :: 0 <= i < n ==> nses[..n][i] == nses[i];
      var r := SelectedNames(selector, nses[..n]);
      if ConfigMapDS.SelectorMatches(selector, nses[n].labels) then r + [nses[n].name] else r
  }

  /** Whether the namespace cache annotates `ns` with a configmap name. */
  predicate AnnotatedNamespace(opts: Options, nsCache: map<string, Namespace>, ns: string)
    requires ns in nsCache
  {
    opts.annotConfigmapName in nsCache[ns].annotations && nsCache[ns].annotations[opts.annotConfigmapName] != ""
  }

  /** The panic of `d.nslist.Get(...)` answering nil for a namespace the
      cache does not hold, whose annotations are then read. */
  const ErrNilNamespace: string := "runtime error: invalid memory address or nil pointer dereference"

  /** Some configmap without the default name lives in a namespace the
      cache does not hold: the discovery loop reads the annotations of the
      nil namespace it gets back for it. */
  predicate ReadsMissingNamespace(opts: Options, nsCache: map<string, Namespace>, cms: seq<ConfigMap>)
  {
    exists i :: 0 <= i < |cms| && cms[i].name != opts.defaultConfigmapName && cms[i].namespace !in nsCache
  }

  /** Some configmap in `ns` has the default name, or `ns` is a cached,
      annotated namespace holding some configmap. */
  predicate HasDefaultOrAnnotated(opts: Options, nsCache: map<string, Namespace>, cms: seq<ConfigMap>, ns: string)
  {
    exists i :: 0 <= i < |cms| && cms[i].namespace == ns &&
      (cms[i].name == opts.defaultConfigmapName || (ns in nsCache && AnnotatedNamespace(opts, nsCache, ns)))
  }

  /** With a default configmap name: one entry per configmap that has that
      name or lives in an annotated namespace, in the cluster's order. A
      configmap of another name in a namespace the cache does not hold
      stops the loop with the nil dereference. */
  function DefaultNameNamespaces(opts: Options, nsCache: map<string, Namespace>, cms: seq<ConfigMap>): (r: Result<seq<string>>)
    ensures r.Err? <==> ReadsMissingNamespace(opts, nsCache, cms)
    ensures r.Err? ==> r.msg == ErrNilNamespace
    ensures r.Ok? ==> forall x :: x in r.value <==> HasDefaultOrAnnotated(opts, nsCache, cms, x)
    decreases |cms|
  {
    if |cms| == 0 then Ok([])
    else
      var n := |cms| - 1;
      assert forall i :: 0 <= i < n ==> cms[..n][i] == cms[i];
      match DefaultNameNamespaces(opts, nsCache, cms[..n])
      case Err(e) => Err(e)
      case Ok(r) =>
        var cfmap := cms[n];
        if cfmap.name == opts.defaultConfigmapName then Ok(r + [cfmap.namespace])
        else if cfmap.namespace !in nsCache then Err(ErrNilNamespace)
        else if AnnotatedNamespace(opts, nsCache, cfmap.namespace) then Ok(r + [cfmap.namespace])
        else Ok(r)
  }

  /** The namespaces to inspect, before duplicates are removed: the
      configured list first, then a namespace selector (`parse` stands for
      `labels.Parse`), then the fluentdconfig resources (`crd`, the outcome
      of `discoverFluentdConfigNamespaces`), then configmap discovery, and
      otherwise every namespace. `nses` is the namespace cache's list,
      `nsCache` the same cache by name, and `cms` every configmap of the
      cluster. */
  function Candidates(opts: Options, parse: string -> Result<map<string, string>>, nses: seq<Namespace>,
                      nsCache: map<string, Namespace>, cms: seq<ConfigMap>, crd: Result<seq<string>>): (r: Result<seq<string>>)
  {
    if |opts.namespaces| != 0 then Ok(opts.namespaces)
    else if opts.namespaceSelector != "" then
      match parse(opts.namespaceSelector)
      case Err(msg) => Err(msg)
      case Ok(selector) => Ok(SelectedNames(selector, nses))
    else if opts.datasource == Crd then crd
    else if opts.defaultConfigmapName != "" then
      match DefaultNameNamespaces(opts, nsCache, cms)
      case Err(msg) => Err(msg)
      case Ok(found) =>
        if opts.crdMigrationMode then
          match crd
          case Err(msg) => Err(msg)
          case Ok(more) => Ok(found + more)
        else Ok(found)
    else Ok(NamesOf(nses))
  }

  /** Which namespace is a candidate, source by source: an explicit list
      overrides everything, a selector overrides discovery. Only configmap
      discovery with a default name reads the namespace cache by name, and
      fails on a namespace it does not hold. */
  lemma CandidatesMeaning(opts: Options, parse: string -> Result<map<string, string>>, nses: seq<Namespace>,
                          nsCache: map<string, Namespace>, cms: seq<ConfigMap>, crd: Result<seq<string>>, x: string)
    ensures var r := Candidates(opts, parse, nses, nsCache, cms, crd);
      var unlisted := |opts.namespaces| == 0 && opts.namespaceSelector == "";
      var discovery := unlisted && opts.datasource != Crd;
      (|opts.namespaces| != 0 ==> r.Ok? && (x in r.value <==> x in opts.namespaces)) &&
      (|opts.namespaces| == 0 && opts.namespaceSelector != "" ==> (r.Ok? <==> parse(opts.namespaceSelector).Ok?)) &&
      (|opts.namespaces| == 0 && opts.namespaceSelector != "" && r.Ok? ==>
         (x in r.value <==> SelectorLists(parse(opts.namespaceSelector).value, nses, x))) &&
      (unlisted && opts.datasource == Crd ==> r == crd) &&
      (discovery && opts.defaultConfigmapName != "" ==>
         (r.Err? <==> ReadsMissingNamespace(opts, nsCache, cms) || (opts.crdMigrationMode && crd.Err?))) &&
      (discovery && opts.defaultConfigmapName != "" && ReadsMissingNamespace(opts, nsCache, cms) ==>
         r == Err(ErrNilNamespace)) &&
      (discovery && opts.defaultConfigmapName != "" && r.Ok? ==>
         (x in r.value <==> HasDefaultOrAnnotated(opts, nsCache, cms, x) || (opts.crdMigrationMode && x in crd.value))) &&
      (discovery && opts.defaultConfigmapName == "" ==> r.Ok? && (x in r.value <==> x in NamesOf(nses)))
  {
  }

  /** An annotated namespace holding no configmap at all is not discovered
      through configmaps, whatever its annotation names. */
  lemma EmptyAnnotatedNamespaceMissed(opts: Options, nsCache: map<string, Namespace>, cms: seq<ConfigMap>, ns: string)
    requires forall i :: 0 <= i < |cms| ==> cms[i].namespace != ns
    ensures DefaultNameNamespaces(opts, nsCache, cms).Ok? ==> ns !in DefaultNameNamespaces(opts, nsCache, cms).value
  {
  }

  // ---------------------------------------------------------------------
  // discoverNamespaces: duplicates and order

  /** The first occurrence of every name, in order. */
  function Dedup(names: seq<string>): (r: seq<string>)
    ensures forall x :: x in r <==> x in names
    ensures forall x :: multiset(r)[x] <= 1
    decreases |names|
  {
    if |names| == 0 then []
    else
      var n := |names| - 1;
      assert names == names[..n] + [names[n]];
      var r := Dedup(names[..n]);
      if names[n] in r then r else r + [names[n]]
  }

  /** A list without duplicates is left as it is. */
  lemma {:induction false} DedupDistinct(names: seq<string>)
    requires forall i, j :: 0 <= i < j < |names| ==> names[i] != names[j]
    ensures Dedup(names) == names
    decreases |names|
  {
    if |names| > 0 {
      var n := |names| - 1;
      DedupDistinct(names[..n]);
      assert names[n] !in names[..n];
      assert names[..n] + [names[n]] == names;
    }
  }

  /** The dedup loop: `nsKeys` remembers the names already taken. */
  method DedupLoop(namespaces: seq<string>) returns (nsList: seq<string>)
    ensures nsList == Dedup(namespaces)
  {
    var nsKeys: map<string, bool> := map[];
    nsList := [];
    var i := 0;
    while i < |namespaces|
      invariant 0 <= i <= |namespaces|
      invariant nsList == Dedup(namespaces[..i])
      invariant forall x :: x in nsKeys <==> x in nsList
    {
      assert namespaces[..i + 1][..i] == namespaces[..i];
      var ns := namespaces[i];
      if ns !in nsKeys {
        nsKeys := nsKeys[ns := true];
        nsList := nsList + [ns];
      }
      i := i + 1;
    }
    assert namespaces[..i] == namespaces;
  }

  /** `discoverNamespaces`: the candidates, each once, in ascending order. */
  method DiscoverNamespaces(opts: Options, parse: string -> Result<map<string, string>>, nses: seq<Namespace>,
                            nsCache: map<string, Namespace>, cms: seq<ConfigMap>, crd: Result<seq<string>>)
    returns (r: Result<seq<string>>)
    ensures r.Err? <==> Candidates(opts, parse, nses, nsCache, cms, crd).Err?
    ensures r.Ok? ==> r.value == SortSeq(Dedup(Candidates(opts, parse, nses, nsCache, cms, crd).value))
    ensures r.Ok? ==> r.value == SortedSeq(set x | x in Candidates(opts, parse, nses, nsCache, cms, crd).value)
  {
    var namespaces := Candidates(opts, parse, nses, nsCache, cms, crd);
    if namespaces.Err? {
      return Err(namespaces.msg);
    }
    var nsList := DedupLoop(namespaces.value);
    var a := new string[|nsList|];
    forall k | 0 <= k < |nsList| {
      a[k] := nsList[k];
    }
    assert a[..] == nsList;
    SortStrings(a);
    r := Ok(a[..]);
    DiscoveredIsSortedSet(namespaces.value);
  }

  /** The discovered list is the set of candidates listed in ascending
      order: it does not depend on the order the sources list them in. */
  lemma DiscoveredIsSortedSet(names: seq<string>)
    ensures SortSeq(Dedup(names)) == SortedSeq(set x | x in names)
  {
    var a := SortSeq(Dedup(names));
    assert forall x :: multiset(a)[x] <= 1 by {
      forall x ensures multiset(a)[x] <= 1 {
        assert multiset(a)[x] == multiset(Dedup(names))[x];
      }
    }
    SortedDistinctAscending(a);
    var s := set x | x in names;
    forall x ensures x in a <==> x in SortedSeq(s) {
      assert x in a <==> x in multiset(Dedup(names));
    }
    AscendingUnique(a, SortedSeq(s));
  }

  // ---------------------------------------------------------------------
  // UpdateStatus

  /** The annotations `UpdateStatus` writes back: the status is added only
      when the key is absent and the status is set, and the key is removed
      only when present and the status is empty. */
  function StatusAnnotations(annotations: map<string, string>, key: string, status: string): (r: map<string, string>)
    ensures key in r <==> (key in annotations) != (status == "" && key in annotations) || (key !in annotations && status != "")
    ensures key in r ==> r[key] == if key in annotations then annotations[key] else status
    ensures forall k :: k != key ==> (k in r <==> k in annotations) && (k in r ==> r[k] == annotations[k])
  {
    var exists_ := key in annotations;
    var added := if !exists_ && status != "" then annotations[key := status] else annotations;
    if exists_ && status == "" then added - {key} else added
  }

  /** Writing the same status twice changes nothing the second time. */
  lemma StatusIdempotent(annotations: map<string, string>, key: string, status: string)
    ensures StatusAnnotations(StatusAnnotations(annotations, key, status), key, status) ==
            StatusAnnotations(annotations, key, status)
  {
  }

  /** A status annotation that is already set keeps its old value when a
      different, non-empty status is reported. */
  lemma StaleStatusKept(annotations: map<string, string>, key: string, status: string)
    requires key in annotations && status != ""
    ensures StatusAnnotations(annotations, key, status)[key] == annotations[key]
  {
  }

  // ---------------------------------------------------------------------
  // GetNamespaces: skipping

  /** The configuration used for a namespace: the rendered template when
      rendering succeeds, else the raw text; `None` when that is empty or
      does not parse (`parses` stands for `fluentd.ParseString`). */
  function UsableConfig(configdata: string, rendered: Option<string>, parses: string -> bool): (r: Option<string>)
    ensures r.Some? ==> r.value != "" && parses(r.value)
    ensures r.Some? ==> r.value == (if rendered.Some? then rendered.value else configdata)
    ensures r.None? ==> var text := if rendered.Some? then rendered.value else configdata;
                        text == "" || !parses(text)
  {
    var text := if rendered.Some? then rendered.value else configdata;
    if text == "" then None
    else if !parses(text) then None
    else Some(text)
  }
}
