/** The configmap datasource of the informer-based Kubernetes connection
    (config-reloader/datasource/kubedatasource/configmap.go): which
    configmaps of a namespace hold its configuration, how their entries are
    joined, and which configmap changes trigger a reload. */
module ConfigMapDS {
  import opened Wrappers
  import opened Strs
  import opened Sorting
  import opened Kube

  /** The errors of the pass, as the source words them. */
  const ErrNamespaceDetails: string := "Could not get the details of namespace '"

  // ---------------------------------------------------------------------
  // areLabelsInAllowList

  /** `areLabelsInAllowList`: with an allowlist, every label must appear in
      it with the same value. */
  function AreLabelsInAllowList(labels: map<string, string>, allowlist: map<string, string>): (r: bool)
    ensures r <==> |allowlist| == 0 || forall k :: k in labels ==> k in allowlist && allowlist[k] == labels[k]
  {
    ItemsSubset(labels, allowlist);
    |allowlist| == 0 || labels.Items <= allowlist.Items
  }

  /** Inclusion of the (key, value) pairs of two maps, pointwise. */
  lemma ItemsSubset(a: map<string, string>, b: map<string, string>)
    ensures a.Items <= b.Items <==> forall k :: k in a ==> k in b && b[k] == a[k]
  {
    if a.Items <= b.Items {
      forall k | k in a ensures k in b && b[k] == a[k] {
        assert (k, a[k]) in a.Items;
      }
    }
    if forall k :: k in a ==> k in b && b[k] == a[k] {
      forall p | p in a.Items ensures p in b.Items {
        assert p.0 in a && a[p.0] == p.1;
        assert (p.0, b[p.0]) in b.Items;
      }
    }
  }

  /** An equality-based label selector (`labels.Set.AsSelector`): every
      pair of the selector is a label of the object. */
  predicate SelectorMatches(selector: map<string, string>, labels: map<string, string>)
  {
    forall k :: k in selector ==> k in labels && labels[k] == selector[k]
  }

  /** `handleCMChange` passes the selector as `labels` and the configmap's
      labels as `allowlist`, so for a labelled configmap the check is the
      selector the configmaps are listed with. */
  lemma ChangeFilterIsSelector(selector: map<string, string>, cmLabels: map<string, string>)
    requires |cmLabels| > 0
    ensures AreLabelsInAllowList(selector, cmLabels) <==> SelectorMatches(selector, cmLabels)
  {
  }

  // ---------------------------------------------------------------------
  // readConfig

  /** The `fluent.conf` entries of some configmaps, in order. */
  function Entries(cms: seq<ConfigMap>): (r: seq<string>)
    ensures |r| <= |cms|
    ensures forall x :: x in r ==> exists i :: 0 <= i < |cms| && EntryName in cms[i].data && cms[i].data[EntryName] == x
    decreases |cms|
  {
    if |cms| == 0 then []
    else
      var n := |cms| - 1;
      var r := Entries(cms[..n]);
      assert forall i :: 0 <= i < n ==> cms[..n][i] == cms[i];
      if EntryName in cms[n].data then r + [cms[n].data[EntryName]] else r
  }

  /** The entries of two lists of configmaps are those of each, in order. */
  lemma {:induction false} EntriesAppend(a: seq<ConfigMap>, b: seq<ConfigMap>)
    ensures Entries(a + b) == Entries(a) + Entries(b)
    decreases |b|
  {
    if |b| > 0 {
      var n := |b| - 1;
      assert (a + b)[..|a| + n] == a + b[..n];
      assert (a + b)[|a| + n] == b[n];
      EntriesAppend(a, b[..n]);
      assert Entries(a + b) == Entries(a + b[..n]) + (if EntryName in b[n].data then [b[n].data[EntryName]] else []);
      assert Entries(b) == Entries(b[..n]) + (if EntryName in b[n].data then [b[n].data[EntryName]] else []);
    } else {
      assert a + b == a;
    }
  }

  /** A single configmap gives its entry, or nothing when it has none. */
  lemma EntriesSingle(cm: ConfigMap)
    ensures Entries([cm]) == if EntryName in cm.data then [cm.data[EntryName]] else []
  {
    assert [cm][..0] == [];
  }

  /** `readConfig`: the entries joined by newlines; a configmap without the
      entry is skipped. */
  method ReadConfig(cms: seq<ConfigMap>) returns (s: string)
    ensures s == Join(Entries(cms), "\n")
  {
    var configdata: seq<string> := [];
    var i := 0;
    while i < |cms|
      invariant 0 <= i <= |cms|
      invariant configdata == Entries(cms[..i])
    {
      assert cms[..i + 1][..i] == cms[..i];
      if EntryName in cms[i].data {
        configdata := configdata + [cms[i].data[EntryName]];
      }
      i := i + 1;
    }
    assert cms[..i] == cms;
    s := Join(configdata, "\n");
  }

  // ---------------------------------------------------------------------
  // detectConfigMapName

  /** The outcome of `detectConfigMapName`: a name, or one of its two errors. */
  datatype Detected = Named(name: string) | NotConfigured(ns: string) | LookupFailed(ns: string, cause: string)
  {
    function Message(): string
    {
      match this
      case Named(_) => ""
      case NotConfigured(ns) => "Namespace '" + ns + "' is not configured"
      case LookupFailed(ns, cause) => ErrNamespaceDetails + ns + "': " + cause
    }
  }

  /** `detectConfigMapName`: the namespace must be in the cache (`cause` is
      the lister's error otherwise); then the annotation wins over the
      configured default, and with neither the namespace is not configured. */
  function DetectConfigMapName(opts: Options, nsCache: map<string, Namespace>, ns: string, cause: string): (r: Detected)
    ensures r.LookupFailed? <==> ns !in nsCache
    ensures r.LookupFailed? ==> r == LookupFailed(ns, cause)
    ensures ns in nsCache ==>
      var annotations := nsCache[ns].annotations;
      var annotated := opts.annotConfigmapName in annotations && annotations[opts.annotConfigmapName] != "";
      (annotated ==> r == Named(annotations[opts.annotConfigmapName])) &&
      (!annotated && opts.defaultConfigmapName != "" ==> r == Named(opts.defaultConfigmapName)) &&
      (!annotated && opts.defaultConfigmapName == "" ==> r == NotConfigured(ns))
  {
    if ns !in nsCache then LookupFailed(ns, cause)
    else
      match ConfigMapNameChoice(nsCache[ns].annotations, opts.annotConfigmapName, opts.defaultConfigmapName)
      case Some(name) => Named(name)
      case None => NotConfigured(ns)
  }

  // ---------------------------------------------------------------------
  // fetchConfigMaps

  /** The configmaps of a list by name, as `confMapByName` is filled: a later
      configmap replaces an earlier one of the same name. */
  function ByName(cms: seq<ConfigMap>): (m: map<string, ConfigMap>)
    ensures forall i :: 0 <= i < |cms| ==> cms[i].name in m
    ensures forall k :: k in m ==> m[k].name == k
    decreases |cms|
  {
    if |cms| == 0 then map[]
    else
      var n := |cms| - 1;
      assert forall i :: 0 <= i < n ==> cms[..n][i] == cms[i];
      ByName(cms[..n])[cms[n].name := cms[n]]
  }

  /** Every configmap kept is one of the list. */
  lemma {:induction false} ByNameListed(cms: seq<ConfigMap>)
    ensures forall k :: k in ByName(cms) ==> ByName(cms)[k] in cms
    decreases |cms|
  {
    if |cms| > 0 {
      var n := |cms| - 1;
      ByNameListed(cms[..n]);
      assert forall k :: k in ByName(cms[..n]) ==> ByName(cms[..n])[k] in cms[..n];
      assert forall x :: x in cms[..n] ==> x in cms;
    }
  }

  /** The last configmap of each name is the one kept. */
  lemma {:induction false} ByNameLast(cms: seq<ConfigMap>, i: nat)
    requires i < |cms|
    requires forall j :: i < j < |cms| ==> cms[j].name != cms[i].name
    ensures ByName(cms)[cms[i].name] == cms[i]
    decreases |cms|
  {
    var n := |cms| - 1;
    var prev := ByName(cms[..n]);
    assert ByName(cms) == prev[cms[n].name := cms[n]];
    if i < n {
      assert cms[..n][i] == cms[i];
      ByNameLast(cms[..n], i);
      assert cms[n].name != cms[i].name;
      assert prev[cms[i].name] == cms[i];
    }
  }

  /** The names of some configmaps, in order. */
  function Names(cms: seq<ConfigMap>): (r: seq<string>)
    ensures |r| == |cms| && forall i :: 0 <= i < |cms| ==> r[i] == cms[i].name
    decreases |cms|
  {
    if |cms| == 0 then [] else Names(cms[..|cms| - 1]) + [cms[|cms| - 1].name]
  }

  /** What the lister returns for `List(selector)` (its order is the
      cache's, given here as the order of `nsmaps`). */
  function Selected(selector: map<string, string>, nsmaps: seq<ConfigMap>): (r: seq<ConfigMap>)
    ensures forall i :: 0 <= i < |r| ==> r[i] in nsmaps && SelectorMatches(selector, r[i].labels)
    ensures forall i :: 0 <= i < |nsmaps| && SelectorMatches(selector, nsmaps[i].labels) ==> nsmaps[i] in r
    decreases |nsmaps|
  {
    if |nsmaps| == 0 then []
    else
      var n := |nsmaps| - 1;
      assert nsmaps == nsmaps[..n] + [nsmaps[n]];
      var r := Selected(selector, nsmaps[..n]);
      if SelectorMatches(selector, nsmaps[n].labels) then r + [nsmaps[n]] else r
  }

  /** The configmaps of the given names, in the order of the names. */
  function Pick(byName: map<string, ConfigMap>, names: seq<string>): (r: seq<ConfigMap>)
    requires forall i :: 0 <= i < |names| ==> names[i] in byName
    ensures |r| == |names| && forall i :: 0 <= i < |names| ==> r[i] == byName[names[i]]
    decreases |names|
  {
    if |names| == 0 then []
    else
      var n := |names| - 1;
      Pick(byName, names[..n]) + [byName[names[n]]]
  }

  /** Sorting the names of some configmaps keeps them names of those
      configmaps. */
  lemma SortedNamesKnown(cms: seq<ConfigMap>, sorted: seq<string>)
    requires multiset(sorted) == multiset(Names(cms))
    ensures forall i :: 0 <= i < |sorted| ==> sorted[i] in ByName(cms)
  {
    forall i | 0 <= i < |sorted| ensures sorted[i] in ByName(cms) {
      assert sorted[i] in multiset(Names(cms));
      var j :| 0 <= j < |cms| && Names(cms)[j] == sorted[i];
    }
  }

  /** The multimap branch of `fetchConfigMaps`: the selected configmaps,
      one per selected name (duplicates included), ordered by name. */
  function MultimapMaps(selector: map<string, string>, nsmaps: seq<ConfigMap>): (r: seq<ConfigMap>)
  {
    var sel := Selected(selector, nsmaps);
    var names := SortSeq(Names(sel));
    SortedNamesKnown(sel, names);
    Pick(ByName(sel), names)
  }

  /** The multimap configmaps are as many as were selected, with the
      selected names in sorted order. */
  lemma MultimapMapsSorted(selector: map<string, string>, nsmaps: seq<ConfigMap>)
    ensures var r := MultimapMaps(selector, nsmaps);
      var sel := Selected(selector, nsmaps);
      |r| == |sel| && Names(r) == SortSeq(Names(sel)) &&
      SortedBy(Names(r), StrLe) && multiset(Names(r)) == multiset(Names(sel))
  {
    var sel := Selected(selector, nsmaps);
    var names := SortSeq(Names(sel));
    SortedNamesKnown(sel, names);
    NamesOfPick(ByName(sel), names);
  }

  /** Reading configmaps back by name gives back the names. */
  lemma NamesOfPick(byName: map<string, ConfigMap>, names: seq<string>)
    requires forall i :: 0 <= i < |names| ==> names[i] in byName
    requires forall k :: k in byName ==> byName[k].name == k
    ensures Names(Pick(byName, names)) == names
  {
  }

  /** Every multimap configmap is a configmap of the namespace that the
      selector matches. */
  lemma MultimapMapsSelected(selector: map<string, string>, nsmaps: seq<ConfigMap>)
    ensures forall m :: m in MultimapMaps(selector, nsmaps) ==> m in nsmaps && SelectorMatches(selector, m.labels)
  {
    var sel := Selected(selector, nsmaps);
    var r := MultimapMaps(selector, nsmaps);
    SortedNamesKnown(sel, SortSeq(Names(sel)));
    ByNameListed(sel);
    forall i | 0 <= i < |r| ensures r[i] in nsmaps && SelectorMatches(selector, r[i].labels) {
      assert r[i] in sel;
    }
  }

  predicate DistinctNames(cms: seq<ConfigMap>)
  {
    forall i, j :: 0 <= i < j < |cms| ==> cms[i].name != cms[j].name
  }

  /** With distinct names every selected configmap is read. */
  lemma MultimapMapsComplete(selector: map<string, string>, nsmaps: seq<ConfigMap>, m: ConfigMap)
    requires DistinctNames(Selected(selector, nsmaps))
    requires m in nsmaps && SelectorMatches(selector, m.labels)
    ensures m in MultimapMaps(selector, nsmaps)
  {
    var sel := Selected(selector, nsmaps);
    var r := MultimapMaps(selector, nsmaps);
    var names := SortSeq(Names(sel));
    SortedNamesKnown(sel, names);
    var i :| 0 <= i < |sel| && sel[i] == m;
    ByNameLast(sel, i);
    assert Names(sel)[i] == m.name;
    assert m.name in multiset(Names(sel));
    assert m.name in multiset(names);
    var j :| 0 <= j < |names| && names[j] == m.name;
    assert r[j] == m;
  }

  /** The multimap branch as the source runs it: index by name, sort the
      names in place, read back by name. */
  method FetchMultimap(selector: map<string, string>, nsmaps: seq<ConfigMap>) returns (configmaps: seq<ConfigMap>)
    ensures configmaps == MultimapMaps(selector, nsmaps)
  {
    var mapslist := Selected(selector, nsmaps);
    var confMapByName, names := IndexByName(mapslist);
    var sortedConfMaps := SortedCopy(names);
    SortedNamesKnown(mapslist, sortedConfMaps);
    configmaps := ReadBack(confMapByName, sortedConfMaps);
  }

  /** The listed configmaps by name, and their names in list order. */
  method IndexByName(mapslist: seq<ConfigMap>) returns (confMapByName: map<string, ConfigMap>, names: seq<string>)
    ensures confMapByName == ByName(mapslist) && names == Names(mapslist)
  {
    confMapByName := map[];
    names := [];
    var i := 0;
    while i < |mapslist|
      invariant 0 <= i <= |mapslist|
      invariant confMapByName == ByName(mapslist[..i]) && names == Names(mapslist[..i])
    {
      assert mapslist[..i + 1][..i] == mapslist[..i];
      confMapByName := confMapByName[mapslist[i].name := mapslist[i]];
      names := names + [mapslist[i].name];
      i := i + 1;
    }
    assert mapslist[..i] == mapslist;
  }

  /** The configmaps of the sorted names, one by one. */
  method ReadBack(confMapByName: map<string, ConfigMap>, sortedConfMaps: seq<string>) returns (configmaps: seq<ConfigMap>)
    requires forall i :: 0 <= i < |sortedConfMaps| ==> sortedConfMaps[i] in confMapByName
    ensures configmaps == Pick(confMapByName, sortedConfMaps)
  {
    configmaps := [];
    var j := 0;
    while j < |sortedConfMaps|
      invariant 0 <= j <= |sortedConfMaps|
      invariant configmaps == Pick(confMapByName, sortedConfMaps[..j])
    {
      assert sortedConfMaps[..j + 1][..j] == sortedConfMaps[..j];
      configmaps := configmaps + [confMapByName[sortedConfMaps[j]]];
      j := j + 1;
    }
    assert sortedConfMaps[..j] == sortedConfMaps;
  }

  /** `sort.Strings` on a fresh array holding the names. */
  method SortedCopy(names: seq<string>) returns (sorted: seq<string>)
    ensures sorted == SortSeq(names)
  {
    var a := new string[|names|];
    forall k | 0 <= k < |names| {
      a[k] := names[k];
    }
    assert a[..] == names;
    SortStrings(a);
    sorted := a[..];
  }

  /** The configmap of a name, if the namespace has one (`nsmaps.Get`). */
  function Lookup(name: string, nsmaps: seq<ConfigMap>): (r: seq<ConfigMap>)
    ensures |r| <= 1 && forall m :: m in r ==> m in nsmaps && m.name == name
    ensures |r| == 0 <==> forall m :: m in nsmaps ==> m.name != name
  {
    var byName := ByName(nsmaps);
    ByNameListed(nsmaps);
    if name in byName then [byName[name]] else []
  }

  /** The other branch of `fetchConfigMaps`: a failed namespace lookup is an
      error; an unconfigured namespace looks up the empty name, which no
      configmap has in a real cluster. */
  function NamedMaps(opts: Options, nsCache: map<string, Namespace>, ns: string, nsmaps: seq<ConfigMap>, cause: string): (r: Result<seq<ConfigMap>>)
    ensures r.Err? <==> ns !in nsCache
    ensures r.Err? ==> r.msg == ErrNamespaceDetails + ns + "': " + cause
    ensures r.Ok? ==> |r.value| <= 1
    ensures r.Ok? && DetectConfigMapName(opts, nsCache, ns, cause).Named? ==>
      r.value == Lookup(DetectConfigMapName(opts, nsCache, ns, cause).name, nsmaps)
  {
    match DetectConfigMapName(opts, nsCache, ns, cause)
    case LookupFailed(_, _) => Err(DetectConfigMapName(opts, nsCache, ns, cause).Message())
    case NotConfigured(_) => Ok(Lookup("", nsmaps))
    case Named(name) => Ok(Lookup(name, nsmaps))
  }

  /** `fetchConfigMaps` followed by `readConfig`. */
  function FluentdConfig(opts: Options, nsCache: map<string, Namespace>, ns: string, nsmaps: seq<ConfigMap>, cause: string): (r: Result<string>)
  {
    if opts.datasource == Multimap then Ok(Join(Entries(MultimapMaps(opts.parsedLabelSelector, nsmaps)), "\n"))
    else
      match NamedMaps(opts, nsCache, ns, nsmaps, cause)
      case Err(msg) => Err(msg)
      case Ok(cms) => Ok(Join(Entries(cms), "\n"))
  }

  /** `GetFluentdConfig`: the namespace's configmaps, read in order. */
  method GetFluentdConfig(opts: Options, nsCache: map<string, Namespace>, ns: string, nsmaps: seq<ConfigMap>, cause: string)
    returns (r: Result<string>)
    ensures r == FluentdConfig(opts, nsCache, ns, nsmaps, cause)
  {
    var configmaps: seq<ConfigMap>;
    if opts.datasource == Multimap {
      configmaps := FetchMultimap(opts.parsedLabelSelector, nsmaps);
    } else {
      var fetched := NamedMaps(opts, nsCache, ns, nsmaps, cause);
      if fetched.Err? {
        return Err(fetched.msg);
      }
      configmaps := fetched.value;
    }
    var s := ReadConfig(configmaps);
    r := Ok(s);
  }

  /** A namespace configured by its default configmap reads that
      configmap's entry, and nothing when the configmap lacks it. */
  lemma DefaultConfigMapRead(opts: Options, nsCache: map<string, Namespace>, ns: string, cm: ConfigMap, cause: string)
    requires opts.datasource != Multimap && ns in nsCache && opts.defaultConfigmapName != ""
    requires opts.annotConfigmapName !in nsCache[ns].annotations
    requires cm.name == opts.defaultConfigmapName
    ensures FluentdConfig(opts, nsCache, ns, [cm], cause) ==
            Ok(if EntryName in cm.data then cm.data[EntryName] else "")
  {
    assert ByName([cm]) == ByName([cm][..0])[cm.name := cm];
    assert Lookup(cm.name, [cm]) == [cm];
    EntriesSingle(cm);
  }

  // ---------------------------------------------------------------------
  // handleCMChange

  /** `handleCMChange` (after decoding the object): whether a change to the
      configmap `obj` triggers a reload. */
  function HandleCMChange(opts: Options, nsCache: map<string, Namespace>, obj: ConfigMap): (notify: bool)
    ensures notify <==>
      NeedsProcessing(opts.namespaces, obj.namespace) &&
      (if opts.datasource == Multimap then |obj.labels| > 0 && SelectorMatches(opts.parsedLabelSelector, obj.labels)
       else DetectConfigMapName(opts, nsCache, obj.namespace, "") == Named(obj.name))
  {
    if |opts.namespaces| != 0 && !Listed(opts.namespaces, obj.namespace) then false
    else if opts.datasource == Multimap then
      |obj.labels| > 0 && AreLabelsInAllowList(opts.parsedLabelSelector, obj.labels)
    else
      var detected := DetectConfigMapName(opts, nsCache, obj.namespace, "");
      detected.Named? && obj.name == detected.name
  }

  /** Every configmap read in multimap mode is watched: a change to it
      triggers a reload, provided it has labels (a selector with pairs
      selects only labelled configmaps). */
  lemma MultimapReadIsWatched(opts: Options, nsCache: map<string, Namespace>, ns: string, nsmaps: seq<ConfigMap>, cm: ConfigMap)
    requires opts.datasource == Multimap && NeedsProcessing(opts.namespaces, ns)
    requires forall m :: m in nsmaps ==> m.namespace == ns
    requires cm in MultimapMaps(opts.parsedLabelSelector, nsmaps) && |cm.labels| > 0
    ensures HandleCMChange(opts, nsCache, cm)
  {
    MultimapMapsSelected(opts.parsedLabelSelector, nsmaps);
  }

  /** The configmap read for a namespace outside multimap mode is watched. */
  lemma NamedReadIsWatched(opts: Options, nsCache: map<string, Namespace>, ns: string, nsmaps: seq<ConfigMap>, cm: ConfigMap)
    requires opts.datasource != Multimap && NeedsProcessing(opts.namespaces, ns)
    requires forall m :: m in nsmaps ==> m.namespace == ns
    requires NamedMaps(opts, nsCache, ns, nsmaps, "").Ok? && cm in NamedMaps(opts, nsCache, ns, nsmaps, "").value
    requires cm.name != ""
    ensures HandleCMChange(opts, nsCache, cm)
  {
  }
}
