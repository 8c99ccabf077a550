/** The `$labels(...)` macro (config-reloader/processors/labels.go): a
    match or filter written against pod labels is turned into one routed by
    a `._labels.` tag suffix, with generated directives that compute that
    suffix from the record's labels. */
module Labels {
  import opened Wrappers
  import opened Fluentd
  import opened Strs
  import opened Util
  import opened Sorting
  import opened Processor

  /** The errors of the pass, as the source words them. */
  const ErrBadLabelDefinition: string := "bad label definition: "
  const ErrEmptyLabelValue: string := " cannot be empty string"
  const ErrBadMacroUse: string := "bad $labels macro use: "
  const ErrNoLabels: string := "at least one label must be given"

  const MacroLabels: string := "$labels"
  const ContainerLabel: string := "_container"

  predicate IsAsciiAlnum(c: char)
  {
    ('A' <= c <= 'Z') || ('a' <= c <= 'z') || ('0' <= c <= '9')
  }

  /** `reValidLabelName`: `^([A-Za-z0-9][-A-Za-z0-9_.]*)?[A-Za-z0-9]$`. */
  predicate ValidLabelName(s: string)
  {
    |s| >= 1 && IsAsciiAlnum(s[0]) && IsAsciiAlnum(s[|s| - 1]) &&
    forall i :: 0 < i < |s| - 1 ==> (IsAsciiAlnum(s[i]) || s[i] == '-' || s[i] == '_' || s[i] == '.')
  }

  /** `reValidLabelValue`: the same pattern, made optional. */
  predicate ValidLabelValue(s: string)
  {
    s == "" || ValidLabelName(s)
  }

  /** What a parsed label must satisfy: `_container` names a container and
      must be non-empty; any other key is a valid name with a valid value. */
  predicate GoodLabel(k: string, v: string)
  {
    if k == ContainerLabel then ValidLabelName(v) else ValidLabelName(k) && ValidLabelValue(v)
  }

  predicate GoodLabels(m: map<string, string>)
  {
    forall k :: k in m ==> GoodLabel(k, m[k])
  }

  /** Go's `%s` rendering of a string slice. */
  function GoSlice(parts: seq<string>): string
  {
    "[" + Join(parts, " ") + "]"
  }

  /** One `k=v` entry of the macro, checked in the order of labels.go. */
  function ParseRecord(rec: string): (r: Result<(string, string)>)
    ensures r.Ok? ==> GoodLabel(r.value.0, r.value.1)
    ensures r.Ok? ==> |Split(rec, '=')| == 2 &&
                      r.value == (Trim(Split(rec, '=')[0]), Trim(Split(rec, '=')[1]))
  {
    var kv := Split(rec, '=');
    if |kv| != 2 then Err(ErrBadLabelDefinition + GoSlice(kv))
    else
      var k := Trim(kv[0]);
      if k != ContainerLabel && !ValidLabelName(k) then Err("bad label name: " + k)
      else
        var v := Trim(kv[1]);
        if !ValidLabelValue(v) then Err("bad label value: " + v)
        else if k == ContainerLabel && v == "" then Err("value for " + ContainerLabel + ErrEmptyLabelValue)
        else Ok((k, v))
  }

  /** A well-formed entry parses, and parses to its trimmed halves. */
  lemma ParseRecordAccepts(rec: string)
    requires |Split(rec, '=')| == 2
    requires GoodLabel(Trim(Split(rec, '=')[0]), Trim(Split(rec, '=')[1]))
    ensures ParseRecord(rec) == Ok((Trim(Split(rec, '=')[0]), Trim(Split(rec, '=')[1])))
  {
  }

  /** The record loop of `parseTagToLabels`: empty entries are skipped, the
      first bad entry is the error, later keys overwrite earlier ones. */
  function FoldRecords(records: seq<string>, acc: map<string, string>): (r: Result<map<string, string>>)
    ensures r.Ok? && GoodLabels(acc) ==> GoodLabels(r.value)
    ensures r.Ok? ==> acc.Keys <= r.value.Keys
    decreases |records|
  {
    if |records| == 0 then Ok(acc)
    else
      if records[0] == "" then FoldRecords(records[1..], acc)
      else
        match ParseRecord(records[0])
        case Err(e) => Err(e)
        case Ok((k, v)) => GoodLabelsPut(acc, k, v); FoldRecords(records[1..], acc[k := v])
  }

  lemma GoodLabelsPut(acc: map<string, string>, k: string, v: string)
    requires GoodLabel(k, v)
    ensures GoodLabels(acc) ==> GoodLabels(acc[k := v])
    ensures acc.Keys <= acc[k := v].Keys
  {
  }

  /** The macro parses exactly when each of its non-empty entries does. */
  lemma {:induction false} FoldRecordsOk(records: seq<string>, acc: map<string, string>)
    ensures FoldRecords(records, acc).Ok? <==>
            forall i :: 0 <= i < |records| && records[i] != "" ==> ParseRecord(records[i]).Ok?
    decreases |records|
  {
    if |records| > 0 {
      var tail := records[1..];
      assert forall i :: 1 <= i < |records| ==> records[i] == tail[i - 1];
      if records[0] == "" {
        FoldRecordsOk(tail, acc);
      } else {
        match ParseRecord(records[0])
        case Err(_) =>
        case Ok((k, v)) => FoldRecordsOk(tail, acc[k := v]);
      }
    }
  }

  /** Nothing but empty entries parses to no labels at all. */
  lemma {:induction false} FoldRecordsEmptyEntries(records: seq<string>, acc: map<string, string>)
    requires forall i :: 0 <= i < |records| ==> records[i] == ""
    ensures FoldRecords(records, acc) == Ok(acc)
    decreases |records|
  {
    if |records| > 0 {
      FoldRecordsEmptyEntries(records[1..], acc);
    }
  }

  /** `parseTagToLabels` record loop, as the source writes it. */
  method ParseRecords(records: seq<string>) returns (r: Result<map<string, string>>)
    ensures r == FoldRecords(records, map[])
  {
    var result: map<string, string> := map[];
    var i := 0;
    assert records[0..] == records;
    while i < |records|
      invariant 0 <= i <= |records|
      invariant FoldRecords(records[i..], result) == FoldRecords(records, map[])
    {
      var next := ParseEntry(records, i, result);
      if next.Err? {
        return next;
      }
      result := next.value;
      i := i + 1;
    }
    return Ok(result);
  }

  /** One turn of that loop: an empty entry is skipped, a bad one ends the
      loop with its error, a good one is written into the labels. */
  method ParseEntry(records: seq<string>, i: nat, result: map<string, string>) returns (next: Result<map<string, string>>)
    requires i < |records|
    ensures next.Err? ==> FoldRecords(records[i..], result) == next
    ensures next.Ok? ==> FoldRecords(records[i..], result) == FoldRecords(records[i + 1..], next.value)
  {
    assert records[i..][0] == records[i];
    assert records[i..][1..] == records[i + 1..];
    var rec := records[i];
    if rec == "" {
      return Ok(result);
    }
    var p := ParseRecord(rec);
    if p.Err? {
      return Err(p.msg);
    }
    return Ok(result[p.value.0 := p.value.1]);
  }

  /** `parseTagToLabels` with the guard it evidently means: the tag must
      both open with `$labels(` and close with `)`. `Ok(None)` is Go's
      `nil, nil` for a tag that is not a macro at all. */
  function ParseTagToLabels(tag: string): (r: Result<Option<map<string, string>>>)
    ensures !HasPrefix(tag, MacroLabels) ==> r == Ok(None)
    ensures HasPrefix(tag, MacroLabels) ==> r != Ok(None)
    ensures r.Ok? && r.value.Some? ==>
      HasPrefix(tag, MacroLabels + "(") && HasSuffix(tag, ")") &&
      |r.value.value| > 0 && GoodLabels(r.value.value)
  {
    if !HasPrefix(tag, MacroLabels) then Ok(None)
    else if !HasPrefix(tag, MacroLabels + "(") || !HasSuffix(tag, ")") then Err(ErrBadMacroUse + tag)
    else
      assert tag[7] == '(' && tag[|tag| - 1] == ')';
      var inner := tag[|MacroLabels| + 1..|tag| - 1];
      match FoldRecords(Split(inner, ','), map[])
      case Err(e) => Err(e)
      case Ok(m) => if |m| == 0 then Err(ErrNoLabels) else Ok(Some(m))
  }

  /** `parseTagToLabels` exactly as written: its guard joins the two
      conditions with `&&`, so a tag passes it when either one holds, and a
      tag too short for the slice makes Go panic (modelled as an error). */
  function ParseTagToLabelsAsWritten(tag: string): (r: Result<Option<map<string, string>>>)
    ensures !HasPrefix(tag, MacroLabels) ==> r == Ok(None)
    ensures HasPrefix(tag, MacroLabels + "(") && HasSuffix(tag, ")") ==> r == ParseTagToLabels(tag)
  {
    if !HasPrefix(tag, MacroLabels) then Ok(None)
    else if !HasPrefix(tag, MacroLabels + "(") && !HasSuffix(tag, ")") then Err(ErrBadMacroUse + tag)
    else if |tag| - 1 < |MacroLabels| + 1 then
      MacroLength(tag); Err(ErrSliceBounds)
    else
      var inner := tag[|MacroLabels| + 1..|tag| - 1];
      match FoldRecords(Split(inner, ','), map[])
      case Err(e) => Err(e)
      case Ok(m) => if |m| == 0 then Err(ErrNoLabels) else Ok(Some(m))
  }

  /** A tag that opens and closes the macro is at least `$labels()` long. */
  lemma MacroLength(tag: string)
    ensures HasPrefix(tag, MacroLabels + "(") && HasSuffix(tag, ")") ==> |tag| >= 9
  {
    if HasPrefix(tag, MacroLabels + "(") && |tag| == 8 {
      assert tag[7] == '(';
    }
  }

  /** An unclosed macro slips through the written guard: `$labels(a=b`
      loses its last character and yields the label `a` with an empty
      value, where the corrected guard reports the bad macro. */
  lemma UnclosedMacroAccepted()
    ensures ParseTagToLabelsAsWritten("$labels(a=b") == Ok(Some(map["a" := ""]))
    ensures ParseTagToLabels("$labels(a=b").Err?
  {
    var tag := "$labels(a=b";
    assert tag[..7] == MacroLabels && tag[..8] == MacroLabels + "(";
    assert tag[|tag| - 1..] != ")";
    var inner := tag[8..|tag| - 1];
    assert inner == "a=";
    SplitSingle(inner, ',');
    SingleEntry(inner);
  }

  lemma SingleEntry(rec: string)
    requires rec == "a="
    ensures FoldRecords([rec], map[]) == Ok(map["a" := ""])
  {
    SingleEntryRecord(rec);
    FoldOne(rec, "a", "");
  }

  lemma FoldOne(rec: string, k: string, v: string)
    requires rec != "" && ParseRecord(rec) == Ok((k, v))
    ensures FoldRecords([rec], map[]) == Ok(map[k := v])
  {
    assert [rec][1..] == [];
  }

  lemma SingleEntryRecord(rec: string)
    requires rec == "a="
    ensures ParseRecord(rec) == Ok(("a", ""))
  {
    SingleEntrySplit(rec);
    SingleEntryTrim("a", "");
    assert GoodLabel("a", "");
  }

  lemma SingleEntrySplit(rec: string)
    requires rec == "a="
    ensures Split(rec, '=') == ["a", ""]
  {
    assert Join(["a", ""], "=") == rec;
    SplitJoin(["a", ""], '=');
  }

  lemma SingleEntryTrim(k: string, v: string)
    requires k == "a" && v == ""
    ensures Trim(k) == k && Trim(v) == v
  {
  }

  /** `$labels)` passes the written guard and then slices out of range. */
  lemma ShortMacroPanics()
    ensures ParseTagToLabelsAsWritten("$labels)") == Err(ErrSliceBounds)
  {
    assert HasSuffix("$labels)", ")");
  }

  lemma SplitSingle(s: string, sep: char)
    requires sep !in s
    ensures Split(s, sep) == [s]
  {
  }

  /** `safeLabelValue`: `.` and `-` become `_`, and the empty value `_`. */
  function SafeLabelValue(s: string): (r: string)
  {
    if s == "" then "_"
    else seq(|s|, i requires 0 <= i < |s| => if s[i] == '.' || s[i] == '-' then '_' else s[i])
  }

  /** A safe value is never empty, holds no `.` or `-` (the characters
      fluentd tags treat specially), and keeps every other character. */
  lemma SafeLabelValueProps(s: string)
    ensures SafeLabelValue(s) != ""
    ensures '.' !in SafeLabelValue(s) && '-' !in SafeLabelValue(s)
    ensures s != "" ==> |SafeLabelValue(s)| == |s|
    ensures s != "" ==> forall i :: 0 <= i < |s| && s[i] != '.' && s[i] != '-' ==> SafeLabelValue(s)[i] == s[i]
  {
  }

  lemma SafeLabelValueIdempotent(s: string)
    ensures SafeLabelValue(SafeLabelValue(s)) == SafeLabelValue(s)
  {
    SafeLabelValueProps(s);
  }

  /** One label slot of a generated tag. */
  function Slot(labels: map<string, string>, name: string): string
  {
    if name in labels then SafeLabelValue(labels[name]) else "*"
  }

  /** The loop of `makeTagFromFilter` over the names still to write: a
      `_container` name writes nothing, any other its slot, followed by a
      dot unless it is the last name of the list. */
  function LabelSlots(names: seq<string>, labels: map<string, string>): string
    decreases |names|
  {
    if |names| == 0 then ""
    else if names[0] == ContainerLabel then LabelSlots(names[1..], labels)
    else Slot(labels, names[0]) + (if |names| > 1 then "." else "") + LabelSlots(names[1..], labels)
  }

  function Slots(names: seq<string>, labels: map<string, string>): (r: seq<string>)
    ensures |r| == |names| && forall i :: 0 <= i < |names| ==> r[i] == Slot(labels, names[i])
  {
    seq(|names|, i requires 0 <= i < |names| => Slot(labels, names[i]))
  }

  /** The prefix of a generated tag: namespace, then the container when the
      macro names one, else a wildcard. */
  function LabelsTagPrefix(ns: string, labels: map<string, string>): string
  {
    if ContainerLabel in labels then "kube." + ns + ".*." + labels[ContainerLabel] + "._labels."
    else "kube." + ns + ".*.*._labels."
  }

  /** `makeTagFromFilter`. */
  function MakeTagFromFilter(ns: string, sortedNames: seq<string>, labels: map<string, string>): string
  {
    LabelsTagPrefix(ns, labels) + LabelSlots(sortedNames, labels)
  }

  /** With `_container` absent from the name list (as `Process` ensures),
      the generated tag is the prefix followed by one dot-separated slot per
      name, in order. */
  lemma {:induction false} LabelSlotsAreJoinedSlots(names: seq<string>, labels: map<string, string>)
    requires ContainerLabel !in names
    ensures LabelSlots(names, labels) == Join(Slots(names, labels), ".")
    decreases |names|
  {
    if |names| > 0 {
      assert names[0] in names;
      assert forall x :: x in names[1..] ==> x in names;
      LabelSlotsAreJoinedSlots(names[1..], labels);
      assert Slots(names, labels)[1..] == Slots(names[1..], labels);
    }
  }

  // ---------------------------------------------------------------------
  // expandLabelsMacroState.Process

  /** What `collectLabels` accumulates: the referenced label names, and
      whether a parse error has stopped the walk (the error itself is
      dropped by `Process`, the names gathered before it are kept). */
  datatype Collected = Collected(names: set<string>, stopped: bool)

  /** How `collectLabels` reads one directive: only a match or filter with
      a tag is parsed. */
  function MacroOf(d: Directive): (r: Result<Option<map<string, string>>>)
    ensures !IsMatchOrFilter(d) || !HasPrefix(d.tag, MacroLabels) ==> r == Ok(None)
  {
    if !IsMatchOrFilter(d) || d.tag == "" then Ok(None) else ParseTagToLabels(d.tag)
  }

  /** One step of `collectLabels`: a parse error ends the walk (its error is
      ignored, the names collected so far are kept); a macro adds its label
      names. */
  function CollectStep(st: Collected, d: Directive): Collected
  {
    if st.stopped then st
    else
      match MacroOf(d)
      case Err(_) => st.(stopped := true)
      case Ok(None) => st
      case Ok(Some(m)) => st.(names := st.names + m.Keys)
  }

  function CollectLabels(): Callback<Collected>
  {
    Folder(CollectStep)
  }

  /** Label `n` is named by the macro at walk position `i`, and no directive
      before it fails to parse. */
  predicate NamedAt(xs: seq<Directive>, i: int, n: string)
  {
    0 <= i < |xs| && (forall j :: 0 <= j < i ==> MacroOf(xs[j]).Ok?) &&
    MacroOf(xs[i]).Ok? && MacroOf(xs[i]).value.Some? && n in MacroOf(xs[i]).value.value
  }

  /** The collecting fold gathers exactly the names of the macros met
      before the first parse error. */
  lemma {:induction false} CollectFold(xs: seq<Directive>, st: Collected)
    ensures st.stopped ==> FoldSeq(CollectStep, st, xs) == st
    ensures !st.stopped ==> forall n ::
      n in FoldSeq(CollectStep, st, xs).names <==> n in st.names || exists i :: NamedAt(xs, i, n)
    decreases |xs|
  {
    if |xs| > 0 {
      var st1 := CollectStep(st, xs[0]);
      CollectFold(xs[1..], st1);
      if !st.stopped {
        forall n ensures n in FoldSeq(CollectStep, st, xs).names <==> n in st.names || exists i :: NamedAt(xs, i, n) {
          NamedAtCons(xs, n);
        }
      }
    }
  }

  /** Where the first directive stands: a parse error hides every name
      after it; otherwise the names are its own and those after it. */
  lemma NamedAtCons(xs: seq<Directive>, n: string)
    requires |xs| > 0
    ensures MacroOf(xs[0]).Err? ==> !exists i :: NamedAt(xs, i, n)
    ensures MacroOf(xs[0]).Ok? ==>
      ((exists i :: NamedAt(xs, i, n)) <==>
       (MacroOf(xs[0]).value.Some? && n in MacroOf(xs[0]).value.value) || exists i :: NamedAt(xs[1..], i, n))
  {
    if MacroOf(xs[0]).Err? {
      NamedAtErr(xs, n);
    } else {
      NamedAtHead(xs, n);
      NamedAtTail(xs, n);
    }
  }

  lemma NamedAtErr(xs: seq<Directive>, n: string)
    requires |xs| > 0 && MacroOf(xs[0]).Err?
    ensures forall i :: !NamedAt(xs, i, n)
  {
    forall i ensures !NamedAt(xs, i, n) {
      if 0 < i < |xs| {
        assert !MacroOf(xs[0]).Ok?;
      }
    }
  }

  lemma NamedAtHead(xs: seq<Directive>, n: string)
    requires |xs| > 0 && MacroOf(xs[0]).Ok?
    ensures (exists i :: NamedAt(xs, i, n)) ==>
      (MacroOf(xs[0]).value.Some? && n in MacroOf(xs[0]).value.value) || exists i :: NamedAt(xs[1..], i, n)
  {
    if exists i :: NamedAt(xs, i, n) {
      var i :| NamedAt(xs, i, n);
      if i > 0 {
        NamedAtShift(xs, i, n);
        assert NamedAt(xs[1..], i - 1, n);
      }
    }
  }

  lemma NamedAtTail(xs: seq<Directive>, n: string)
    requires |xs| > 0 && MacroOf(xs[0]).Ok?
    ensures (MacroOf(xs[0]).value.Some? && n in MacroOf(xs[0]).value.value) ==> NamedAt(xs, 0, n)
    ensures (exists i :: NamedAt(xs[1..], i, n)) ==> exists i :: NamedAt(xs, i, n)
  {
    if exists i :: NamedAt(xs[1..], i, n) {
      var i :| NamedAt(xs[1..], i, n);
      NamedAtShift(xs, i + 1, n);
      assert NamedAt(xs, i + 1, n);
    }
  }

  lemma NamedAtShift(xs: seq<Directive>, i: int, n: string)
    requires 1 <= i < |xs| && MacroOf(xs[0]).Ok?
    ensures NamedAt(xs, i, n) <==> NamedAt(xs[1..], i - 1, n)
  {
    assert xs[1..][i - 1] == xs[i];
    assert forall j :: 1 <= j < i ==> xs[1..][j - 1] == xs[j];
  }

  /** `replaceLabels` as intended: only a tag that parses as a macro is
      rewritten, to its label tag, then augmented. */
  function ReplaceLabels(ns: string, gen: Option<GenState>, sortedNames: seq<string>): Callback<()>
  {
    (d: Directive, u: ()) =>
      if !IsMatchOrFilter(d) || d.tag == "" then Ok((d, u))
      else
        match ParseTagToLabels(d.tag)
        case Ok(Some(m)) => Ok((GenAugment(gen, d.(tag := MakeTagFromFilter(ns, sortedNames, m))), u))
        case _ => Ok((d, u))
  }

  /** `replaceLabels` as written: `parseTagToLabels` answers `nil, nil` for a
      tag that is not a macro, and only an error skips the rewrite, so every
      other match and filter tag is replaced too. */
  function ReplaceLabelsAsWritten(ns: string, gen: Option<GenState>, sortedNames: seq<string>): Callback<()>
  {
    (d: Directive, u: ()) =>
      if !IsMatchOrFilter(d) || d.tag == "" then Ok((d, u))
      else
        match ParseTagToLabelsAsWritten(d.tag)
        case Err(_) => Ok((d, u))
        case Ok(Some(m)) => Ok((GenAugment(gen, d.(tag := MakeTagFromFilter(ns, sortedNames, m))), u))
        case Ok(None) => Ok((GenAugment(gen, d.(tag := MakeTagFromFilter(ns, sortedNames, map[]))), u))
  }

  /** The written callback rewrites a plain `<match kube.ns.**>`: the
      directive loses its own pattern and gets a label pattern instead. */
  lemma PlainTagRewrittenAsWritten()
    ensures ReplaceLabelsAsWritten("ns", None, ["app"])(Directive("match", "kube.ns.**", map[], []), ()) ==
            Ok((Directive("match", "kube.ns.*.*._labels.*", map[], []), ()))
  {
    var d := Directive("match", "kube.ns.**", map[], []);
    assert "kube.ns.**"[..7][0] != MacroLabels[0];
    assert ParseTagToLabelsAsWritten(d.tag) == Ok(None);
    assert LabelSlots(["app"], map[]) == "*";
    assert MakeTagFromFilter("ns", ["app"], map[]) == "kube.ns.*.*._labels.*";
    assert GenAugment(None, d.(tag := "kube.ns.*.*._labels.*")) == Directive("match", "kube.ns.*.*._labels.*", map[], []);
  }

  /** The intended callback leaves every directive that is not a macro alone,
      and rewrites a macro's tag only. */
  lemma ReplaceLabelsKeepsPlainTags(ns: string, gen: Option<GenState>, sortedNames: seq<string>, d: Directive)
    ensures ReplaceLabels(ns, gen, sortedNames)(d, ()).Ok?
    ensures !HasPrefix(d.tag, MacroLabels) ==> ReplaceLabels(ns, gen, sortedNames)(d, ()).value.0 == d
    ensures IsMatchOrFilter(d) && d.tag != "" && ParseTagToLabels(d.tag).Ok? && ParseTagToLabels(d.tag).value.Some? ==>
      ReplaceLabels(ns, gen, sortedNames)(d, ()).value.0 ==
      GenAugment(gen, d.(tag := MakeTagFromFilter(ns, sortedNames, ParseTagToLabels(d.tag).value.value)))
    ensures TagOnlyStep(d, ReplaceLabels(ns, gen, sortedNames)(d, ()).value.0)
  {
  }

  lemma ReplaceLabelsShape(ns: string, gen: Option<GenState>, sortedNames: seq<string>)
    ensures Shallow(ReplaceLabels(ns, gen, sortedNames)) && TagOnly(ReplaceLabels(ns, gen, sortedNames))
    ensures NeverFails(ReplaceLabels(ns, gen, sortedNames))
  {
  }

  lemma CollectLabelsShallow()
    ensures Shallow(CollectLabels())
    ensures forall d, s :: CollectLabels()(d, s).Ok? && CollectLabels()(d, s).value.0 == d
  {
  }

  /** The three directives the source renders from its template: a
      `record_transformer` filter computing the label values, a
      `rewrite_tag_filter` match appending them to the tag, and a filter
      removing the helper field again. */
  function RetagDirectives(ns: string, sortedNames: seq<string>): (r: Fragment)
    ensures |r| == 3
    ensures r[0].name == "filter" && r[0].tag == "kube." + ns + ".*.*" && r[0].Type() == "record_transformer"
    ensures r[1].name == "match" && r[1].tag == "kube." + ns + ".*.*" && r[1].Type() == "rewrite_tag_filter"
    ensures r[2].name == "filter" && r[2].tag == "kube." + ns + ".*.*.**" &&
            r[2].Param("remove_keys") == "kubernetes_pod_label_values"
  {
    var pattern := "kube." + ns + ".*.*";
    [ Directive("filter", pattern, map["@type" := "record_transformer", "enable_ruby" := "true"],
        [Directive("record", "", map["kubernetes_pod_label_values" := LabelValuesExpr(sortedNames)], [])]),
      Directive("match", pattern, map["@type" := "rewrite_tag_filter"],
        [Directive("rule", "", map["key" := "kubernetes_pod_label_values", "pattern" := "^(.+)$",
                                   "tag" := "${tag}._labels.$1"], [])]),
      Directive("filter", pattern + ".**", map["@type" := "record_transformer",
                                              "remove_keys" := "kubernetes_pod_label_values"], []) ]
  }

  /** The Ruby expression of the template: per label, its safe value from
      the record, dot separated. */
  function LabelValuesExpr(names: seq<string>): string
  {
    if |names| == 0 then ""
    else "${record[\"kubernetes\"][\"labels\"][\"" + names[0] + "\"]&.gsub(/[.-]/, '_') || '_'}" +
         (if |names| > 1 then "." else "") + LabelValuesExpr(names[1..])
  }

  /** The label names `collectLabels` gathers: those of every `$labels`
      macro in walk order, up to the first tag that fails to parse (the
      walk's error is ignored, so the names met before it are kept). */
  function ReferencedNames(input: Fragment): (names: set<string>)
    ensures forall n :: n in names <==> exists i :: NamedAt(LevelOrder(input), i, n)
  {
    FolderSeesLevelOrder(input, Collected({}, false), CollectStep);
    CollectFold(LevelOrder(input), Collected({}, false));
    ApplyInPlace(input, Collected({}, false), CollectLabels()).value.1.names
  }

  /** No match or filter of the tree uses `$labels`. */
  predicate NoLabelsMacro(input: Fragment)
  {
    forall i :: 0 <= i < |LevelOrder(input)| ==>
      !(IsMatchOrFilter(LevelOrder(input)[i]) && HasPrefix(LevelOrder(input)[i].tag, MacroLabels))
  }

  /** A configuration without a `$labels` macro references no label. */
  lemma NoMacroNoNames(input: Fragment)
    ensures NoLabelsMacro(input) ==> ReferencedNames(input) == {}
  {
    if NoLabelsMacro(input) {
      forall n ensures n !in ReferencedNames(input) {
        forall i | 0 <= i < |LevelOrder(input)| ensures !NamedAt(LevelOrder(input), i, n) {
          assert MacroOf(LevelOrder(input)[i]) == Ok(None);
        }
      }
    }
  }

  /** A `$labels` macro that parses, with no parse error before it in walk
      order, makes the names referenced. */
  lemma FirstMacroReferenced(input: Fragment, i: nat)
    requires i < |LevelOrder(input)|
    requires forall j :: 0 <= j < i ==> MacroOf(LevelOrder(input)[j]).Ok?
    requires MacroOf(LevelOrder(input)[i]).Ok? && MacroOf(LevelOrder(input)[i]).value.Some?
    ensures MacroOf(LevelOrder(input)[i]).value.value.Keys <= ReferencedNames(input)
    ensures ReferencedNames(input) != {}
  {
    var m := MacroOf(LevelOrder(input)[i]).value.value;
    forall n | n in m.Keys ensures n in ReferencedNames(input) {
      assert NamedAt(LevelOrder(input), i, n);
    }
    var n :| n in m.Keys;
    assert n in ReferencedNames(input);
  }

  /** The second walk of `Process`: every macro tag rewritten; the tree
      otherwise keeps its shape. */
  function ReplaceAll(ctx: ProcessorContext, input: Fragment, sortedNames: seq<string>): (out: Fragment)
    ensures SameShape(input, out)
    ensures Mapped(ReplaceLabels(ctx.namespace, ctx.gen, sortedNames), LevelOrder(input), LevelOrder(out))
  {
    var cb := ReplaceLabels(ctx.namespace, ctx.gen, sortedNames);
    ReplaceLabelsShape(ctx.namespace, ctx.gen, sortedNames);
    TagOnlyKeepsShape(input, (), cb);
    NeverFailsWalk(input, (), cb);
    TagOnlyKeepsChildren(cb);
    WalkImage(input, cb);
    ApplyInPlace(input, (), cb).value.0
  }

  /** `expandLabelsMacroState.Process` with the intended `replaceLabels`. */
  function LabelsProcess(ctx: ProcessorContext, input: Fragment): (r: Result<Fragment>)
    ensures r.Ok?
    ensures ReferencedNames(input) == {} ==> r.value == input
    ensures NoLabelsMacro(input) ==> r.value == input
    ensures ReferencedNames(input) != {} ==>
      |r.value| == |input| + 3 &&
      r.value[..3] == RetagDirectives(ctx.namespace, SortedSeq(ReferencedNames(input) - {ContainerLabel})) &&
      SameShape(input, r.value[3..])
    ensures ReferencedNames(input) != {} ==>
      Mapped(ReplaceLabels(ctx.namespace, ctx.gen, SortedSeq(ReferencedNames(input) - {ContainerLabel})),
             LevelOrder(input), LevelOrder(r.value[3..]))
  {
    NoMacroNoNames(input);
    var names := ReferencedNames(input);
    if names == {} then Ok(input)
    else
      var sorted := SortedSeq(names - {ContainerLabel});
      var out := ReplaceAll(ctx, input, sorted);
      var r := RetagDirectives(ctx.namespace, sorted) + out;
      assert r[3..] == out && r[..3] == RetagDirectives(ctx.namespace, sorted);
      Ok(r)
  }
}
