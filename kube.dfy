/** The Kubernetes objects the datasources read, and the namespace and
    container projection of the Kubernetes datasource
    (config-reloader/datasource/kube.go). */
module Kube {
  import opened Wrappers
  import opened Sorting

  /** `Mount`: an emptyDir volume mounted into a container. */
  datatype Mount = Mount(path: string, volumeName: string, subPath: string)

  /** `MiniContainer`: the parts of a running container the processors use. */
  datatype MiniContainer = MiniContainer(podID: string, podName: string, image: string, containerID: string,
                                         labels: map<string, string>, name: string, nodeName: string,
                                         hostMounts: seq<Mount>)

  /** A pod volume; `emptyDir` says whether its `EmptyDir` source is set. */
  datatype Volume = Volume(name: string, emptyDir: bool)

  datatype VolumeMount = VolumeMount(name: string, mountPath: string)

  datatype Container = Container(name: string, volumeMounts: seq<VolumeMount>)

  datatype Pod = Pod(uid: string, name: string, labels: map<string, string>, nodeName: string,
                     volumes: seq<Volume>, containers: seq<Container>)

  datatype ConfigMap = ConfigMap(name: string, namespace: string, annotations: map<string, string>,
                                 labels: map<string, string>, data: map<string, string>)

  datatype Namespace = Namespace(name: string, annotations: map<string, string>, labels: map<string, string>)

  /** The settings the datasources read (config-reloader/config/config.go). */
  datatype Options = Options(datasource: string, namespaces: seq<string>, annotConfigmapName: string,
                             defaultConfigmapName: string, annotStatus: string, namespaceSelector: string,
                             crdMigrationMode: bool, parsedLabelSelector: map<string, string>)

  const Multimap: string := "multimap"
  const Crd: string := "crd"

  /** The configmap entry holding a namespace's fluentd configuration. */
  const EntryName: string := "fluent.conf"

  // ---------------------------------------------------------------------
  // needsProcessing

  /** `needsProcessing`: every namespace when no list is configured,
      otherwise the listed ones. */
  function NeedsProcessing(namespaces: seq<string>, ns: string): (r: bool)
    ensures r <==> |namespaces| == 0 || ns in namespaces
  {
    |namespaces| == 0 || Listed(namespaces, ns)
  }

  /** The search loop over the configured list. */
  function Listed(namespaces: seq<string>, ns: string): (r: bool)
    ensures r <==> exists i :: 0 <= i < |namespaces| && namespaces[i] == ns
    decreases |namespaces|
  {
    if |namespaces| == 0 then false
    else if namespaces[0] == ns then true
    else
      assert forall i :: 1 <= i < |namespaces| ==> namespaces[i] == namespaces[1..][i - 1];
      Listed(namespaces[1..], ns)
  }

  // ---------------------------------------------------------------------
  // Configmap name (GetNamespaces)

  /** The configmap a namespace is read from: the one its annotation names,
      else the configured default; `None` when neither is set. */
  function ConfigMapNameChoice(annotations: map<string, string>, annotKey: string, defaultName: string): (r: Option<string>)
    ensures r.None? <==> (annotKey !in annotations || annotations[annotKey] == "") && defaultName == ""
    ensures r.Some? ==> r.value != ""
    ensures annotKey in annotations && annotations[annotKey] != "" ==> r == Some(annotations[annotKey])
    ensures (annotKey !in annotations || annotations[annotKey] == "") && defaultName != "" ==> r == Some(defaultName)
  {
    var annotated := if annotKey in annotations then annotations[annotKey] else "";
    if annotated != "" then Some(annotated)
    else if defaultName != "" then Some(defaultName)
    else None
  }

  // ---------------------------------------------------------------------
  // makeVolume

  /** `makeVolume`: a mount of an emptyDir volume of the pod becomes a host
      mount; any other mount gives nothing. */
  function MakeVolume(volumes: seq<Volume>, vm: VolumeMount): (r: Option<Mount>)
    ensures r.None? <==> forall i :: 0 <= i < |volumes| ==> !(volumes[i].name == vm.name && volumes[i].emptyDir)
    ensures r.Some? ==> r.value == Mount(vm.mountPath, vm.name, "")
    decreases |volumes|
  {
    if |volumes| == 0 then None
    else if volumes[0].name == vm.name && volumes[0].emptyDir then Some(Mount(vm.mountPath, volumes[0].name, ""))
    else
      assert forall i :: 1 <= i < |volumes| ==> volumes[i] == volumes[1..][i - 1];
      MakeVolume(volumes[1..], vm)
  }

  // ---------------------------------------------------------------------
  // convertPodToMinis

  /** The host mounts of a container, in mount order, before sorting. */
  function HostMounts(volumes: seq<Volume>, mounts: seq<VolumeMount>): (r: seq<Mount>)
    ensures |r| <= |mounts|
    ensures forall m :: m in r ==> exists i :: 0 <= i < |mounts| && MakeVolume(volumes, mounts[i]) == Some(m)
    decreases |mounts|
  {
    if |mounts| == 0 then []
    else
      var n := |mounts| - 1;
      var r := HostMounts(volumes, mounts[..n]);
      assert forall i :: 0 <= i < n ==> mounts[..n][i] == mounts[i];
      match MakeVolume(volumes, mounts[n])
      case None => r
      case Some(m) => r + [m]
  }

  /** A container has host mounts iff one of its mounts is of an emptyDir volume. */
  lemma {:induction false} HostMountsNonEmpty(volumes: seq<Volume>, mounts: seq<VolumeMount>)
    ensures |HostMounts(volumes, mounts)| > 0 <==> exists i :: 0 <= i < |mounts| && MakeVolume(volumes, mounts[i]).Some?
    decreases |mounts|
  {
    if |mounts| > 0 {
      var n := |mounts| - 1;
      assert forall i :: 0 <= i < n ==> mounts[..n][i] == mounts[i];
      HostMountsNonEmpty(volumes, mounts[..n]);
    }
  }

  /** Go's `byLength.Less`, made reflexive: a longer path first. */
  predicate LongerOrEqual(a: Mount, b: Mount)
  {
    |a.path| >= |b.path|
  }

  lemma LongerOrEqualIsTotalPreorder()
    ensures TotalPreorder(LongerOrEqual)
  {
  }

  /** A container's mini before its mounts are sorted. */
  function Unsorted(pod: Pod, c: Container): MiniContainer
  {
    MiniContainer(pod.uid, pod.name, "", "", pod.labels, c.name, pod.nodeName, HostMounts(pod.volumes, c.volumeMounts))
  }

  /** The minis of some containers of a pod, in container order: those with
      at least one host mount. */
  function PodMinis(pod: Pod, containers: seq<Container>): (r: seq<MiniContainer>)
    ensures |r| <= |containers|
    ensures forall i :: 0 <= i < |r| ==> |r[i].hostMounts| > 0
    decreases |containers|
  {
    if |containers| == 0 then []
    else
      var n := |containers| - 1;
      var r := PodMinis(pod, containers[..n]);
      var mini := Unsorted(pod, containers[n]);
      if |mini.hostMounts| > 0 then r + [mini] else r
  }

  /** The minis of a pod list, pod by pod, before sorting. */
  function Minis(pods: seq<Pod>): (r: seq<MiniContainer>)
    ensures forall i :: 0 <= i < |r| ==> |r[i].hostMounts| > 0
    decreases |pods|
  {
    if |pods| == 0 then []
    else
      var n := |pods| - 1;
      Minis(pods[..n]) + PodMinis(pods[n], pods[n].containers)
  }

  /** A container contributes its mini exactly when one of its mounts is
      of an emptyDir volume (container names are unique within a pod). */
  lemma {:induction false} PodMinisMembers(pod: Pod, containers: seq<Container>, c: Container)
    requires c in containers
    requires forall j :: 0 <= j < |containers| && containers[j].name == c.name ==> containers[j] == c
    ensures Unsorted(pod, c) in PodMinis(pod, containers) <==> |HostMounts(pod.volumes, c.volumeMounts)| > 0
    decreases |containers|
  {
    var n := |containers| - 1;
    assert forall j :: 0 <= j < n ==> containers[..n][j] == containers[j];
    if c in containers[..n] {
      PodMinisMembers(pod, containers[..n], c);
    } else {
      assert c == containers[n];
      PodMinisNamed(pod, containers[..n], c.name);
    }
  }

  /** Every mini is named after a container of the pod. */
  lemma {:induction false} PodMinisNamed(pod: Pod, containers: seq<Container>, name: string)
    requires forall j :: 0 <= j < |containers| ==> containers[j].name != name
    ensures forall m :: m in PodMinis(pod, containers) ==> m.name != name
    decreases |containers|
  {
    if |containers| > 0 {
      var n := |containers| - 1;
      assert forall j :: 0 <= j < n ==> containers[..n][j] == containers[j];
      PodMinisNamed(pod, containers[..n], name);
    }
  }

  /** `res[i]` is `spec[i]` with its host mounts reordered longest first. */
  predicate SameButSorted(a: MiniContainer, b: MiniContainer)
  {
    a.(hostMounts := []) == b.(hostMounts := []) &&
    multiset(a.hostMounts) == multiset(b.hostMounts) && SortedBy(a.hostMounts, LongerOrEqual)
  }

  predicate SortedMinis(res: seq<MiniContainer>, spec: seq<MiniContainer>)
  {
    |res| == |spec| && forall i :: 0 <= i < |res| ==> SameButSorted(res[i], spec[i])
  }

  lemma SortedMinisAppend(r1: seq<MiniContainer>, s1: seq<MiniContainer>, r2: seq<MiniContainer>, s2: seq<MiniContainer>)
    requires SortedMinis(r1, s1) && SortedMinis(r2, s2)
    ensures SortedMinis(r1 + r2, s1 + s2)
  {
    forall i | 0 <= i < |r1 + r2|
      ensures SameButSorted((r1 + r2)[i], (s1 + s2)[i])
    {
      if i >= |r1| {
        assert (r1 + r2)[i] == r2[i - |r1|] && (s1 + s2)[i] == s2[i - |s1|];
      }
    }
  }

  /** One container: collect its host mounts, keep it if it has any, and
      `sort.Sort(byLength(...))` them. `sort.Sort` is not stable; the
      insertion sort is one of the orders it may produce. */
  method ContainerMini(pod: Pod, c: Container) returns (m: Option<MiniContainer>)
    ensures m.None? <==> |Unsorted(pod, c).hostMounts| == 0
    ensures m.Some? ==> SameButSorted(m.value, Unsorted(pod, c))
  {
    var hostMounts: seq<Mount> := [];
    var i := 0;
    while i < |c.volumeMounts|
      invariant 0 <= i <= |c.volumeMounts|
      invariant hostMounts == HostMounts(pod.volumes, c.volumeMounts[..i])
    {
      assert c.volumeMounts[..i + 1][..i] == c.volumeMounts[..i];
      var vm := c.volumeMounts[i];
      var mount := MakeVolume(pod.volumes, vm);
      if mount.Some? {
        hostMounts := hostMounts + [mount.value];
      }
      i := i + 1;
    }
    assert c.volumeMounts[..i] == c.volumeMounts;
    if |hostMounts| == 0 {
      return None;
    }
    var a := new Mount[|hostMounts|];
    forall k | 0 <= k < |hostMounts| {
      a[k] := hostMounts[k];
    }
    assert a[..] == hostMounts;
    LongerOrEqualIsTotalPreorder();
    InsertionSort(a, LongerOrEqual);
    m := Some(MiniContainer(pod.uid, pod.name, "", "", pod.labels, c.name, pod.nodeName, a[..]));
  }

  /** The containers of one pod, in order. */
  method MinisOfPod(pod: Pod) returns (res: seq<MiniContainer>)
    ensures SortedMinis(res, PodMinis(pod, pod.containers))
  {
    res := [];
    var j := 0;
    while j < |pod.containers|
      invariant 0 <= j <= |pod.containers|
      invariant SortedMinis(res, PodMinis(pod, pod.containers[..j]))
    {
      assert pod.containers[..j + 1][..j] == pod.containers[..j];
      var m := ContainerMini(pod, pod.containers[j]);
      if m.Some? {
        SortedMinisAppend(res, PodMinis(pod, pod.containers[..j]), [m.value], [Unsorted(pod, pod.containers[j])]);
        res := res + [m.value];
      }
      j := j + 1;
    }
    assert pod.containers[..j] == pod.containers;
  }

  /** `convertPodToMinis`: one mini per container with a host mount, pod by
      pod and container by container, each with its mounts longest first. */
  method ConvertPodToMinis(pods: seq<Pod>) returns (res: seq<MiniContainer>)
    ensures SortedMinis(res, Minis(pods))
  {
    res := [];
    var i := 0;
    while i < |pods|
      invariant 0 <= i <= |pods|
      invariant SortedMinis(res, Minis(pods[..i]))
    {
      assert pods[..i + 1][..i] == pods[..i];
      var podMinis := MinisOfPod(pods[i]);
      SortedMinisAppend(res, Minis(pods[..i]), podMinis, PodMinis(pods[i], pods[i].containers));
      res := res + podMinis;
      i := i + 1;
    }
    assert pods[..i] == pods;
  }
}
