/** The tag squeezing of the `truncating_remote_syslog` output
    (base-image/plugins/out_truncating_remote_syslog.rb): syslog keeps at
    most 32 characters of a tag, so a `kube.<ns>.<pod>.<container>` tag is
    shortened by cutting the pod name and marking the cut with `*`. Lengths
    are in characters, as Ruby counts them. */
module TruncateTag {
  import opened Strs

  const MaxTagLength: nat := 32

  /** Ruby's `String#split` drops trailing empty fields. */
  function DropTrailingEmpty(parts: seq<string>): (r: seq<string>)
    ensures |r| <= |parts| && r == parts[..|r|]
    ensures |r| == 0 || r[|r| - 1] != ""
    ensures forall i :: |r| <= i < |parts| ==> parts[i] == ""
    decreases |parts|
  {
    if |parts| == 0 then []
    else if parts[|parts| - 1] == "" then DropTrailingEmpty(parts[..|parts| - 1])
    else parts
  }

  /** `tag.split(/\./)`. */
  function RubySplitDot(s: string): seq<string>
  {
    DropTrailingEmpty(Split(s, '.'))
  }

  /** A leading `_proc` segment (added by the exception detector) is dropped. */
  function Shifted(parts: seq<string>): (r: seq<string>)
    ensures |parts| > 0 && parts[0] == "_proc" ==> r == parts[1..]
    ensures !(|parts| > 0 && parts[0] == "_proc") ==> r == parts
  {
    if |parts| > 0 && parts[0] == "_proc" then parts[1..] else parts
  }

  /** A tag of the form `kube.<ns>.<pod>.<container>[...]`. */
  predicate IsKube(parts: seq<string>)
  {
    |parts| >= 4 && parts[0] == "kube"
  }

  /** A foreign tag: kept when short enough, else cut to 31 characters and
      marked with `*`. */
  function Foreign(tag: string): (r: string)
    ensures |r| <= MaxTagLength
    ensures |tag| <= MaxTagLength ==> r == tag
    ensures |tag| > MaxTagLength ==> |r| == MaxTagLength && r[..31] == tag[..31] && r[31] == '*'
  {
    if |tag| <= 32 then tag else tag[..31] + "*"
  }

  /** The `ns.pod.container` form of a kube tag, shortened as needed. */
  function Kube(ns: string, pod: string, container: string): (r: string)
    ensures |r| <= MaxTagLength
  {
    var total := |ns| + |pod| + |container| + 2;
    if total <= 32 then ns + "." + pod + "." + container
    else
      var overhead := total - 32;
      if |pod| <= overhead then (ns + "." + pod + "." + container)[..31] + "*"
      else
        var t := ns + "." + pod[..|pod| - overhead - 1] + "*." + container;
        t[..if |t| > 32 then 32 else |t|]
  }

  /** `truncate_tag`. */
  function TruncateTag(tag: string): (r: string)
    ensures |r| <= MaxTagLength
  {
    var parts := Shifted(RubySplitDot(tag));
    if !IsKube(parts) then Foreign(tag) else Kube(parts[1], parts[2], parts[3])
  }

  /** A kube tag that fits is rewritten to `ns.pod.container`: the `kube`
      segment and anything after the container are dropped. */
  lemma KubeFits(ns: string, pod: string, container: string)
    requires |ns| + |pod| + |container| + 2 <= MaxTagLength
    ensures Kube(ns, pod, container) == ns + "." + pod + "." + container
  {
  }

  /** When the pod name is no longer than the excess, the joined name is
      cut to 31 characters and marked, filling all 32. */
  lemma KubeShortPod(ns: string, pod: string, container: string)
    requires |ns| + |pod| + |container| + 2 > MaxTagLength
    requires |pod| <= |ns| + |pod| + |container| + 2 - MaxTagLength
    ensures var r := Kube(ns, pod, container);
      |r| == MaxTagLength && r[31] == '*' && r[..31] == (ns + "." + pod + "." + container)[..31]
  {
  }

  /** Otherwise the namespace and the container are kept whole, the pod
      loses its last `overhead + 1` characters to make room for `*`, and the
      result is exactly 32 characters long: the hard cut at 32 never
      happens. */
  lemma KubeCutsPod(ns: string, pod: string, container: string)
    requires |ns| + |pod| + |container| + 2 > MaxTagLength
    requires |pod| > |ns| + |pod| + |container| + 2 - MaxTagLength
    ensures var overhead := |ns| + |pod| + |container| + 2 - MaxTagLength;
      var kept := pod[..|pod| - overhead - 1];
      Kube(ns, pod, container) == ns + "." + kept + "*." + container &&
      |Kube(ns, pod, container)| == MaxTagLength &&
      HasPrefix(pod, kept) && |kept| < |pod|
  {
    var overhead := |ns| + |pod| + |container| + 2 - MaxTagLength;
    var t := ns + "." + pod[..|pod| - overhead - 1] + "*." + container;
    assert |t| == MaxTagLength;
  }

  /** A `_proc` prefix only matters for the kube check: a tag that is not
      a kube tag is returned (or cut) with the prefix, while a kube tag
      behind it is shortened as if the prefix were absent. */
  lemma ProcPrefix(tag: string)
    requires |RubySplitDot(tag)| > 0 && RubySplitDot(tag)[0] == "_proc"
    ensures var rest := RubySplitDot(tag)[1..];
      (IsKube(rest) ==> TruncateTag(tag) == Kube(rest[1], rest[2], rest[3])) &&
      (!IsKube(rest) ==> TruncateTag(tag) == Foreign(tag))
  {
  }

  /** Only the second to fourth segments of a kube tag matter. */
  lemma KubeSegments(tag: string)
    requires IsKube(RubySplitDot(tag))
    ensures var parts := RubySplitDot(tag);
      TruncateTag(tag) == Kube(parts[1], parts[2], parts[3])
  {
  }

  /** The `rescue` in `format`: the first 32 characters of the tag. */
  function Rescue(tag: string): (r: string)
    ensures |r| <= MaxTagLength && HasPrefix(tag, r)
    ensures |tag| <= MaxTagLength ==> r == tag
  {
    if |tag| <= 32 then tag else tag[..32]
  }

  /** The tag `format` hands to syslog. `truncate_tag` only splits, slices
      and concatenates strings, so it cannot raise on a string tag and the
      `rescue` branch is not taken. */
  function Format(tag: string): (r: string)
    ensures |r| <= MaxTagLength
  {
    TruncateTag(tag)
  }
}
