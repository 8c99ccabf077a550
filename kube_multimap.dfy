/** The multimap connection (config-reloader/datasource/kube_multimap.go):
    every configmap of a namespace carrying the configmap annotation
    contributes its `fluent.conf` entry. */
module KubeMultimap {
  import opened Strs
  import Kube
  import ConfigMapDS

  /** The configmaps carrying the annotation key (whatever its value). */
  function Annotated(annot: string, cms: seq<Kube.ConfigMap>): (r: seq<Kube.ConfigMap>)
    ensures forall i :: 0 <= i < |r| ==> annot in r[i].annotations && r[i] in cms
    decreases |cms|
  {
    if |cms| == 0 then []
    else
      var n := |cms| - 1;
      assert cms == cms[..n] + [cms[n]];
      var r := Annotated(annot, cms[..n]);
      if annot in cms[n].annotations then r + [cms[n]] else r
  }

  /** The text the loop builds from some entries: each preceded by a newline. */
  function Prefixed(entries: seq<string>): string
    decreases |entries|
  {
    if |entries| == 0 then "" else Prefixed(entries[..|entries| - 1]) + "\n" + entries[|entries| - 1]
  }

  /** `readConfig`: `contents` grows by a newline and the entry of every
      annotated configmap that has one; the others are skipped. */
  method ReadConfig(annot: string, cms: seq<Kube.ConfigMap>) returns (contents: string)
    ensures contents == Prefixed(ConfigMapDS.Entries(Annotated(annot, cms)))
  {
    contents := "";
    var i := 0;
    while i < |cms|
      invariant 0 <= i <= |cms|
      invariant contents == Prefixed(ConfigMapDS.Entries(Annotated(annot, cms[..i])))
    {
      assert cms[..i + 1][..i] == cms[..i];
      var configMap := cms[i];
      if annot in configMap.annotations {
        if Kube.EntryName in configMap.data {
          contents := contents + "\n" + configMap.data[Kube.EntryName];
        }
        ConfigMapDS.EntriesAppend(Annotated(annot, cms[..i]), [configMap]);
        ConfigMapDS.EntriesSingle(configMap);
        assert Annotated(annot, cms[..i + 1]) == Annotated(annot, cms[..i]) + [configMap];
      }
      i := i + 1;
    }
    assert cms[..i] == cms;
  }

  /** The multimap text is the newline-joined text the configmap datasource
      builds from the same configmaps, behind one more newline. */
  lemma {:induction false} PrefixedIsJoin(entries: seq<string>)
    ensures |entries| == 0 ==> Prefixed(entries) == ""
    ensures |entries| > 0 ==> Prefixed(entries) == "\n" + Join(entries, "\n")
    decreases |entries|
  {
    if |entries| > 1 {
      var n := |entries| - 1;
      PrefixedIsJoin(entries[..n]);
      JoinSnoc(entries[..n], entries[n], "\n");
      assert entries[..n] + [entries[n]] == entries;
    }
  }

  /** A non-empty configuration starts with a newline. */
  lemma ReadConfigLeadingNewline(annot: string, cms: seq<Kube.ConfigMap>)
    ensures var entries := ConfigMapDS.Entries(Annotated(annot, cms));
      Prefixed(entries) != "" ==> Prefixed(entries)[0] == '\n'
  {
    PrefixedIsJoin(ConfigMapDS.Entries(Annotated(annot, cms)));
  }

  /** `containsProcessableMap`: some configmap carries the annotation key. */
  function ContainsProcessableMap(annot: string, cms: seq<Kube.ConfigMap>): (r: bool)
    ensures r <==> exists i :: 0 <= i < |cms| && annot in cms[i].annotations
    decreases |cms|
  {
    if |cms| == 0 then false
    else if annot in cms[0].annotations then true
    else
      assert forall i :: 1 <= i < |cms| ==> cms[i] == cms[1..][i - 1];
      ContainsProcessableMap(annot, cms[1..])
  }

  /** Only a namespace with a processable map has configuration to read. */
  lemma {:induction false} ReadConfigNeedsProcessableMap(annot: string, cms: seq<Kube.ConfigMap>)
    requires !ContainsProcessableMap(annot, cms)
    ensures Annotated(annot, cms) == []
    decreases |cms|
  {
    if |cms| > 0 {
      var n := |cms| - 1;
      assert forall i :: 0 <= i < n ==> cms[..n][i] == cms[i];
      ReadConfigNeedsProcessableMap(annot, cms[..n]);
    }
  }

  /** `needsProcessing`: a processable map is needed, and the namespace must
      be listed when a list is configured. */
  function NeedsProcessing(namespaces: seq<string>, annot: string, ns: string, cms: seq<Kube.ConfigMap>): (r: bool)
    ensures r <==> ContainsProcessableMap(annot, cms) && (|namespaces| == 0 || ns in namespaces)
  {
    if |namespaces| == 0 then ContainsProcessableMap(annot, cms)
    else if Kube.Listed(namespaces, ns) then ContainsProcessableMap(annot, cms)
    else false
  }
}
