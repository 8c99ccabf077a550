/** Command-line configuration of the config-reloader and its validation
    (config-reloader/config/config.go). `Validate` normalises a few numbers,
    canonicalises the fluentd log level, checks names and folders, and parses
    the `k=v,k2=v2` metadata and label-selector flags into maps. */
module Config {
  import opened Wrappers
  import opened Strs
  import opened Util
  import Labels

  /** The errors of validation, as the source words them. */
  const ErrBadLogLevel: string := "not a valid Fluentd log Level: "
  const ErrPairFormat: string := ", use the k=v,k2=v2... format"
  const ErrBadSelector: string := "bad label selector: "
  const ErrHostname: string := "ID must be a valid hostname"
  const ErrAnnotationName: string := "invalid annotation name: '"
  const ErrBufferFolder: string := "invalid fluentd buffer mount folder: /var/log/"
  const ErrFsDir: string := "using --datasource=fs requires --fs-dir too"
  const ErrMetaValues: string := "using --meta-key requires --meta-values too"
  const ErrLabelSelector: string := "using --datasource=multimap requires --label-selector too"
  const ErrParseLogLevel: string := "failed to parse log level: "
  const ErrParseFluentdLogLevel: string := "failed to parse fluentd log level: "

  const DefaultIntervalSeconds: int := 60
  const DefaultExecTimeoutSeconds: int := 30
  const DefaultFluentdLogLevel: string := "info"
  const DefaultAnnotConfigmapName: string := "logging.csp.vmware.com/fluentd-configmap"
  const DefaultAnnotStatus: string := "logging.csp.vmware.com/fluentd-status"
  const DefaultConfigmapName: string := "fluentd-config"
  const DefaultKubeletRoot: string := "/var/lib/kubelet/"
  const DefaultID: string := "default"
  const DefaultAdminNamespace: string := "kube-system"
  const DefaultReadBytesLimit: int := 51200

  // ---------------------------------------------------------------------
  // Fluentd log level

  function LowerChar(c: char): (l: char)
  {
    if 'A' <= c <= 'Z' then (c as int + 32) as char else c
  }

  /** `strings.ToLower`, on ASCII letters. */
  function Lower(s: string): (r: string)
    ensures |r| == |s| && forall i :: 0 <= i < |s| ==> r[i] == LowerChar(s[i])
  {
    seq(|s|, i requires 0 <= i < |s| => LowerChar(s[i]))
  }

  /** Go's `%q` of a string without characters that need escaping. */
  function GoQuote(s: string): string
  {
    "\"" + s + "\""
  }

  const FluentdLevels: set<string> := {"fatal", "error", "warn", "info", "debug", "trace"}

  /** `ParseFluentdLogLevel`: the six fluentd levels, in any case, with
      `warning` as another spelling of `warn`. */
  function ParseFluentdLogLevel(level: string): (r: Result<string>)
    ensures r.Ok? <==> Lower(level) in FluentdLevels || Lower(level) == "warning"
    ensures r.Ok? ==> r.value in FluentdLevels
    ensures r.Ok? && Lower(level) != "warning" ==> r.value == Lower(level)
    ensures Lower(level) == "warning" ==> r == Ok("warn")
    ensures r.Err? ==> r.msg == ErrBadLogLevel + GoQuote(level)
  {
    var l := Lower(level);
    if l == "fatal" then Ok("fatal")
    else if l == "error" then Ok("error")
    else if l == "warn" || l == "warning" then Ok("warn")
    else if l == "info" then Ok("info")
    else if l == "debug" then Ok("debug")
    else if l == "trace" then Ok("trace")
    else Err(ErrBadLogLevel + GoQuote(level))
  }

  /** A level that `Validate` stored parses to itself, so validating twice
      changes it no further. */
  lemma ParseFluentdLogLevelCanonical(level: string)
    requires ParseFluentdLogLevel(level).Ok?
    ensures ParseFluentdLogLevel(ParseFluentdLogLevel(level).value) == ParseFluentdLogLevel(level)
  {
    var v := ParseFluentdLogLevel(level).value;
    assert Lower(v) == v;
  }

  // ---------------------------------------------------------------------
  // Names and folders

  /** `reValidAnnotationName`, `^([A-Za-z0-9][-A-Za-z0-9_.]*)?[A-Za-z0-9]+.*$`,
      written part by part: an optional name up to `i`, letters or digits up
      to `j`, then anything but a line break. */
  predicate AnnotationRegexMatch(s: string, i: nat, j: nat)
  {
    i < j <= |s| &&
    (i == 0 || (IsAsciiAlnum(s[0]) && forall k :: 0 < k < i ==> NameChar(s[k]))) &&
    (forall k :: i <= k < j ==> IsAsciiAlnum(s[k])) &&
    (forall k :: j <= k < |s| ==> s[k] != '\n')
  }

  predicate IsAsciiAlnum(c: char)
  {
    Labels.IsAsciiAlnum(c)
  }

  predicate NameChar(c: char)
  {
    IsAsciiAlnum(c) || c == '-' || c == '_' || c == '.'
  }

  /** What the annotation pattern comes down to: a letter or digit first and
      no line break anywhere. */
  predicate ValidAnnotationName(s: string)
  {
    |s| >= 1 && IsAsciiAlnum(s[0]) && '\n' !in s
  }

  lemma AnnotationRegex(s: string)
    ensures (exists i: nat, j: nat :: AnnotationRegexMatch(s, i, j)) <==> ValidAnnotationName(s)
  {
    if ValidAnnotationName(s) {
      assert AnnotationRegexMatch(s, 0, 1);
    }
    if exists i: nat, j: nat :: AnnotationRegexMatch(s, i, j) {
      var i: nat, j: nat :| AnnotationRegexMatch(s, i, j);
      assert IsAsciiAlnum(s[0]);
      forall k | 0 <= k < |s|
        ensures s[k] != '\n'
      {
        if k < i {
          assert k == 0 || NameChar(s[k]);
        } else if k < j {
          assert IsAsciiAlnum(s[k]);
        }
      }
    }
  }

  /** `reValidID` as the source applies it: the pattern
      `([A-Za-z0-9][-A-Za-z0-9_.]*)?[A-Za-z0-9]` is not anchored, so
      `MatchString` accepts any ID in which some slice is a valid name. */
  predicate IdMatchesAsWritten(id: string)
  {
    exists a: nat, b: nat :: a < b <= |id| && Labels.ValidLabelName(id[a..b])
  }

  /** ... which is any ID holding one ASCII letter or digit. */
  lemma IdMatchesAsWrittenIffAlnum(id: string)
    ensures IdMatchesAsWritten(id) <==> exists k :: 0 <= k < |id| && IsAsciiAlnum(id[k])
  {
    if exists k :: 0 <= k < |id| && IsAsciiAlnum(id[k]) {
      var k :| 0 <= k < |id| && IsAsciiAlnum(id[k]);
      assert Labels.ValidLabelName(id[k..k + 1]);
    }
    if IdMatchesAsWritten(id) {
      var a: nat, b: nat :| a < b <= |id| && Labels.ValidLabelName(id[a..b]);
      assert IsAsciiAlnum(id[a..b][0]);
    }
  }

  /** An ID must be a valid hostname: the whole ID matches the pattern. */
  predicate ValidID(id: string)
  {
    Labels.ValidLabelName(id)
  }

  /** The unanchored check lets IDs through that are not hostnames; every
      valid ID passes both. */
  lemma IdCheckTooLoose()
    ensures IdMatchesAsWritten("my id!") && !ValidID("my id!")
    ensures forall id :: ValidID(id) ==> IdMatchesAsWritten(id)
  {
    var s := "my id!";
    assert Labels.ValidLabelName(s[0..1]);
    assert !Labels.IsAsciiAlnum(s[|s| - 1]);
    forall id | ValidID(id)
      ensures IdMatchesAsWritten(id)
    {
      assert id[0..|id|] == id;
    }
  }

  /** `hasValidBufferMountFolder`: letters, digits, `-` and `_` only. */
  predicate ValidBufferMountFolder(folder: string)
  {
    forall i :: 0 <= i < |folder| ==> SafeRune(folder[i])
  }

  /** A valid folder is exactly one that `MakeFluentdSafeName` keeps as it is. */
  lemma ValidBufferMountFolderIsSafeName(folder: string)
    ensures ValidBufferMountFolder(folder) <==> FluentdSafeName(folder) == folder
  {
    FluentdSafeNameProps(folder);
  }

  /** The rune loop with its early exit. */
  method HasValidBufferMountFolder(folder: string) returns (ok: bool)
    ensures ok <==> ValidBufferMountFolder(folder)
  {
    var i := 0;
    while i < |folder|
      invariant 0 <= i <= |folder|
      invariant forall k :: 0 <= k < i ==> SafeRune(folder[k])
    {
      var r := folder[i];
      if !IsLetter(r) && !IsDigit(r) && r != '-' && r != '_' {
        return false;
      }
      i := i + 1;
    }
    return true;
  }

  // ---------------------------------------------------------------------
  // `k=v,k2=v2` lists

  /** `isValid`: non-empty and without a single quote. */
  predicate IsValidPart(s: string)
  {
    |s| > 0 && '\'' !in s
  }

  /** What one comma-separated entry contributes: nothing (an empty entry or
      a pair with an invalid side), an error, or a trimmed pair. */
  datatype Entry = Skip | Malformed | Pair(key: string, value: string)

  function ReadEntry(e: string): (r: Entry)
    ensures r.Pair? ==> IsValidPart(r.key) && IsValidPart(r.value)
  {
    if e == "" then Skip
    else
      var kv := Split(e, '=');
      if |kv| != 2 then Malformed
      else
        var k := Trim(kv[0]);
        var v := Trim(kv[1]);
        if IsValidPart(k) && IsValidPart(v) then Pair(k, v) else Skip
  }

  /** An entry is malformed iff it is non-empty and not one `=` apart; it
      is a pair iff, besides, both trimmed sides are valid, and then the pair
      is the trimmed sides. */
  lemma ReadEntryCases(e: string)
    ensures ReadEntry(e) == Malformed <==> e != "" && |Split(e, '=')| != 2
    ensures ReadEntry(e).Pair? <==>
      e != "" && |Split(e, '=')| == 2 && IsValidPart(Trim(Split(e, '=')[0])) && IsValidPart(Trim(Split(e, '=')[1]))
    ensures ReadEntry(e).Pair? ==> ReadEntry(e) == Pair(Trim(Split(e, '=')[0]), Trim(Split(e, '=')[1]))
  {
  }

  /** The pairs read so far and whether every entry was well formed. */
  datatype Pairs = Pairs(pairs: map<string, string>, ok: bool)

  /** The entry loop over read entries: it stops at the first malformed one
      with what it has read before it; a later pair of a key replaces an
      earlier one. */
  function FoldPairs(es: seq<Entry>): (r: Pairs)
    ensures forall k :: k in r.pairs ==> IsValidPart(k) && IsValidPart(r.pairs[k])
    decreases |es|
  {
    if |es| == 0 then Pairs(map[], true)
    else
      var n := |es| - 1;
      var p := FoldPairs(es[..n]);
      if !p.ok then p
      else
        match es[n]
        case Skip => p
        case Malformed => Pairs(p.pairs, false)
        case Pair(k, v) =>
          if IsValidPart(k) && IsValidPart(v) then Pairs(p.pairs[k := v], true) else p
  }

  function ReadEntries(entries: seq<string>): (es: seq<Entry>)
    ensures |es| == |entries| && forall i :: 0 <= i < |entries| ==> es[i] == ReadEntry(entries[i])
  {
    seq(|entries|, i requires 0 <= i < |entries| => ReadEntry(entries[i]))
  }

  /** The pairs of a comma-split list. */
  function ReadPairsSpec(entries: seq<string>): (r: Pairs)
  {
    FoldPairs(ReadEntries(entries))
  }

  /** Once an entry is malformed, the entries after it are not read. */
  lemma {:induction false} FoldPairsStops(es: seq<Entry>, n: nat)
    requires n <= |es| && !FoldPairs(es[..n]).ok
    ensures FoldPairs(es) == FoldPairs(es[..n])
    decreases |es|
  {
    if n < |es| {
      var m := |es| - 1;
      assert es[..m][..n] == es[..n];
      FoldPairsStops(es[..m], n);
    } else {
      assert es[..n] == es;
    }
  }

  /** The list is accepted exactly when no entry is malformed. */
  lemma {:induction false} FoldPairsOk(es: seq<Entry>)
    ensures FoldPairs(es).ok <==> Malformed !in es
    decreases |es|
  {
    if |es| > 0 {
      var n := |es| - 1;
      assert es == es[..n] + [es[n]];
      FoldPairsOk(es[..n]);
    }
  }

  /** Every pair kept comes from an entry of the list. */
  lemma {:induction false} FoldPairsSound(es: seq<Entry>, k: string)
    requires k in FoldPairs(es).pairs
    ensures Pair(k, FoldPairs(es).pairs[k]) in es
    decreases |es|
  {
    var n := |es| - 1;
    var p := FoldPairs(es[..n]);
    if p.ok && es[n].Pair? && es[n].key == k && IsValidPart(es[n].key) && IsValidPart(es[n].value) {
      assert es[n] == Pair(k, FoldPairs(es).pairs[k]);
    } else {
      assert k in p.pairs && FoldPairs(es).pairs[k] == p.pairs[k];
      FoldPairsSound(es[..n], k);
      assert es == es[..n] + [es[n]];
    }
  }

  /** In an accepted list, the last pair of each key is the one kept. */
  lemma {:induction false} FoldPairsLast(es: seq<Entry>, i: nat)
    requires i < |es| && es[i].Pair? && IsValidPart(es[i].key) && IsValidPart(es[i].value) && FoldPairs(es).ok
    requires forall j :: i < j < |es| ==> !(es[j].Pair? && es[j].key == es[i].key)
    ensures es[i].key in FoldPairs(es).pairs && FoldPairs(es).pairs[es[i].key] == es[i].value
    decreases |es|
  {
    var n := |es| - 1;
    if i < n {
      assert es[..n][i] == es[i];
      assert FoldPairs(es[..n]).ok;
      FoldPairsLast(es[..n], i);
    }
  }

  /** Entry `i` is a pair and no later entry is a pair of the same key. */
  predicate LastPairOfKey(entries: seq<string>, i: nat)
    requires i < |entries|
  {
    ReadEntry(entries[i]).Pair? &&
    forall j :: i < j < |entries| ==> !(ReadEntry(entries[j]).Pair? && ReadEntry(entries[j]).key == ReadEntry(entries[i]).key)
  }

  /** For a comma-split list: accepted iff no entry is malformed; every pair
      kept is a trimmed entry of it; the last pair of a key wins. */
  lemma ReadPairsMeaning(entries: seq<string>)
    ensures ReadPairsSpec(entries).ok <==> forall i :: 0 <= i < |entries| ==> ReadEntry(entries[i]) != Malformed
    ensures forall k :: k in ReadPairsSpec(entries).pairs ==>
      exists i :: 0 <= i < |entries| && ReadEntry(entries[i]) == Pair(k, ReadPairsSpec(entries).pairs[k])
    ensures forall i :: 0 <= i < |entries| && ReadPairsSpec(entries).ok && LastPairOfKey(entries, i) ==>
      ReadEntry(entries[i]).key in ReadPairsSpec(entries).pairs &&
      ReadPairsSpec(entries).pairs[ReadEntry(entries[i]).key] == ReadEntry(entries[i]).value
  {
    ReadPairsOk(entries);
    ReadPairsSound(entries);
    ReadPairsLast(entries);
  }

  lemma ReadPairsOk(entries: seq<string>)
    ensures ReadPairsSpec(entries).ok <==> forall i :: 0 <= i < |entries| ==> ReadEntry(entries[i]) != Malformed
  {
    var es := ReadEntries(entries);
    FoldPairsOk(es);
    assert (Malformed in es) <==> exists i :: 0 <= i < |entries| && ReadEntry(entries[i]) == Malformed;
  }

  lemma ReadPairsSound(entries: seq<string>)
    ensures forall k :: k in ReadPairsSpec(entries).pairs ==>
      exists i :: 0 <= i < |entries| && ReadEntry(entries[i]) == Pair(k, ReadPairsSpec(entries).pairs[k])
  {
    var es := ReadEntries(entries);
    forall k | k in ReadPairsSpec(entries).pairs
      ensures exists i :: 0 <= i < |entries| && ReadEntry(entries[i]) == Pair(k, ReadPairsSpec(entries).pairs[k])
    {
      FoldPairsSound(es, k);
    }
  }

  lemma ReadPairsLast(entries: seq<string>)
    ensures forall i :: 0 <= i < |entries| && ReadPairsSpec(entries).ok && LastPairOfKey(entries, i) ==>
      ReadEntry(entries[i]).key in ReadPairsSpec(entries).pairs &&
      ReadPairsSpec(entries).pairs[ReadEntry(entries[i]).key] == ReadEntry(entries[i]).value
  {
    var es := ReadEntries(entries);
    forall i | 0 <= i < |entries| && ReadPairsSpec(entries).ok && LastPairOfKey(entries, i)
      ensures ReadEntry(entries[i]).key in ReadPairsSpec(entries).pairs &&
      ReadPairsSpec(entries).pairs[ReadEntry(entries[i]).key] == ReadEntry(entries[i]).value
    {
      FoldPairsLast(es, i);
    }
  }

  /** The entry loop of `Validate`, written once for both lists. */
  method ReadPairs(entries: seq<string>) returns (r: Pairs)
    ensures r == ReadPairsSpec(entries)
  {
    ghost var es := ReadEntries(entries);
    var parsed: map<string, string> := map[];
    var i := 0;
    while i < |entries|
      invariant 0 <= i <= |entries|
      invariant FoldPairs(es[..i]) == Pairs(parsed, true)
    {
      FoldPairsNext(es, i);
      var ele := entries[i];
      if |ele| != 0 {
        var kvp := Split(ele, '=');
        if |kvp| != 2 {
          assert es[i] == Malformed;
          FoldPairsStops(es, i + 1);
          return Pairs(parsed, false);
        }
        var k := Trim(kvp[0]);
        var v := Trim(kvp[1]);
        if IsValidPart(k) && IsValidPart(v) {
          parsed := parsed[k := v];
        }
      }
      i := i + 1;
    }
    assert es[..i] == es;
    return Pairs(parsed, true);
  }

  /** One more entry read by the fold. */
  lemma FoldPairsNext(es: seq<Entry>, i: nat)
    requires i < |es| && FoldPairs(es[..i]).ok
    ensures FoldPairs(es[..i + 1]) ==
      match es[i]
      case Skip => FoldPairs(es[..i])
      case Malformed => Pairs(FoldPairs(es[..i]).pairs, false)
      case Pair(k, v) =>
        if IsValidPart(k) && IsValidPart(v) then Pairs(FoldPairs(es[..i]).pairs[k := v], true) else FoldPairs(es[..i])
  {
    assert es[..i + 1][..i] == es[..i];
  }

  /** Text without the separator splits into itself alone. */
  lemma SplitNoSeparator(t: string, sep: char)
    requires sep !in t
    ensures Split(t, sep) == [t]
  {
  }

  /** A one-entry list reads that entry. */
  lemma SingleEntryList(e: string)
    ensures ReadPairsSpec([e]) == FoldPairs([ReadEntry(e)])
  {
    assert ReadEntries([e]) == [ReadEntry(e)];
  }

  /** `a=` has an empty value, so it is read to no pairs (and `Validate`
      then fails for want of metadata). */
  lemma MetaValuesEmptyValue()
    ensures ReadPairsSpec(Split("a=", ',')) == Pairs(map[], true)
  {
    SplitNoSeparator("a=", ',');
    SplitNoSeparator("", '=');
    assert IndexOf("a=", '=') == 1 && "a="[..1] == "a" && "a="[2..] == "";
    assert Split("a=", '=') == ["a", ""];
    SingleEntryList("a=");
    assert ReadEntry("a=") == Skip;
    assert FoldPairs([Skip])== FoldPairs([Skip][..0]);
  }

  /** `.` and `'` hold no `=` at all: malformed. */
  lemma MetaValuesWithoutEquals()
    ensures !ReadPairsSpec(Split(".", ',')).ok && !ReadPairsSpec(Split("'", ',')).ok
  {
    SplitNoSeparator(".", ',');
    SplitNoSeparator(".", '=');
    SplitNoSeparator("'", ',');
    SplitNoSeparator("'", '=');
    SingleEntryList(".");
    SingleEntryList("'");
    assert FoldPairs([Malformed]) == Pairs(map[], false) by {
      assert [Malformed][..0] == [];
    }
  }

  /** `a==` splits into three parts: malformed. */
  lemma MetaValuesTwoEquals(t: string)
    requires t == "a=="
    ensures !ReadPairsSpec(Split(t, ',')).ok
  {
    SplitNoSeparator(t, ',');
    TwoEqualsSplit(t);
    SingleEntryList(t);
    assert FoldPairs([Malformed]) == Pairs(map[], false) by {
      assert [Malformed][..0] == [];
    }
  }

  lemma TwoEqualsSplit(t: string)
    requires t == "a=="
    ensures |Split(t, '=')| == 3
  {
    assert Join(["a", "", ""], "=") == t;
    SplitJoin(["a", "", ""], '=');
  }

  lemma EntryPlain(e: string)
    requires e == "a=b"
    ensures ReadEntry(e) == Pair("a", "b")
  {
    assert Join(["a", "b"], "=") == e;
    SplitJoin(["a", "b"], '=');
    TrimPlain("a", "b");
  }

  lemma TrimPlain(k: string, v: string)
    requires k == "a" && v == "b"
    ensures Trim(k) == k && Trim(v) == v && IsValidPart(k) && IsValidPart(v)
  {
    assert !IsSpace(k[0]) && !IsSpace(v[0]);
    TrimUnchanged(k);
    TrimUnchanged(v);
  }

  lemma TrimSpaced(a: string, b: string)
    requires a == "c " && b == " d"
    ensures Trim(a) == "c" && Trim(b) == "d"
  {
    assert !IsSpace(a[0]) && IsSpace(a[1]);
    assert TrimLeft(a) == a;
    assert a[..1] == "c";
    assert TrimRight(a) == TrimRight(a[..1]);
    TrimUnchanged(a[..1]);
    assert IsSpace(b[0]) && !IsSpace(b[1]);
    assert b[1..] == "d";
    assert TrimLeft(b) == TrimLeft(b[1..]);
    TrimUnchanged(b[1..]);
  }

  lemma EntrySpaced(e: string)
    requires e == "c = d"
    ensures ReadEntry(e) == Pair("c", "d")
  {
    assert Join(["c ", " d"], "=") == e;
    SplitJoin(["c ", " d"], '=');
    TrimSpaced("c ", " d");
    assert IsValidPart("c") && IsValidPart("d");
  }

  lemma FoldPairsExample(es: seq<Entry>)
    requires |es| == 3 && es[0] == Pair("a", "b") && es[1] == Skip && es[2] == Pair("c", "d")
    ensures FoldPairs(es) == Pairs(map["a" := "b", "c" := "d"], true)
  {
    assert es[..2][..1][..0] == [];
    assert FoldPairs(es[..2][..1]) == Pairs(map["a" := "b"], true);
    assert FoldPairs(es[..2]) == Pairs(map["a" := "b"], true);
  }

  /** Empty entries are skipped and both sides of a pair are trimmed:
      `a=b,,c = d` is read to `a=b` and `c=d`. */
  lemma MetaValuesTrimmedPairs(entries: seq<string>)
    requires entries == ["a=b", "", "c = d"]
    ensures ReadPairsSpec(entries) == Pairs(map["a" := "b", "c" := "d"], true)
  {
    EntryPlain(entries[0]);
    EntrySpaced(entries[2]);
    var es := ReadEntries(entries);
    assert es[0] == Pair("a", "b") && es[1] == Skip && es[2] == Pair("c", "d");
    FoldPairsExample(es);
  }

  // ---------------------------------------------------------------------
  // Validate

  /** The fields `Validate` reads or writes; `level` is the parsed
      reloader log level. */
  datatype Settings = Settings(
    intervalSeconds: int, execTimeoutSeconds: int,
    logLevel: string, level: nat, fluentdLogLevel: string,
    id: string, annotConfigmapName: string, bufferMountFolder: string, annotStatus: string,
    datasource: string, fsDatasourceDir: string,
    metaKey: string, metaValues: string, labelSelector: string,
    parsedMetaValues: map<string, string>, parsedLabelSelector: map<string, string>)

  /** The settings after validation and the error, if any. */
  datatype Validated = Validated(settings: Settings, err: Option<string>)

  function BadMetaMessage(s: Settings): string
  {
    "bad metadata: " + s.metaValues + ErrPairFormat
  }

  /** The label-selector error as the source writes it: it prints the
      metadata flag instead of the selector. */
  function BadSelectorMessageAsWritten(s: Settings): string
  {
    ErrBadSelector + s.metaValues + ErrPairFormat
  }

  /** ... as evidently meant: it prints the selector. */
  function BadSelectorMessage(s: Settings): string
  {
    ErrBadSelector + s.labelSelector + ErrPairFormat
  }

  /** The message as written does not depend on the selector at all, while
      the corrected message names it. */
  lemma BadSelectorMessageNamesSelector(s: Settings, t: Settings)
    ensures s.metaValues == t.metaValues ==> BadSelectorMessageAsWritten(s) == BadSelectorMessageAsWritten(t)
    ensures BadSelectorMessage(s) == BadSelectorMessage(t) ==> s.labelSelector == t.labelSelector
  {
    var p := ErrBadSelector;
    var q := ErrPairFormat;
    if BadSelectorMessage(s) == BadSelectorMessage(t) {
      var a := BadSelectorMessage(s);
      assert |s.labelSelector| == |t.labelSelector|;
      assert s.labelSelector == a[|p|..|a| - |q|] == t.labelSelector;
    }
  }

  /** The first failing check after the log levels, in the source's order. */
  function FirstCheckError(s: Settings): (e: Option<string>)
    ensures e.None? <==>
      ValidID(s.id) && s.annotConfigmapName != "" && ValidAnnotationName(s.annotConfigmapName) &&
      (s.bufferMountFolder == "" || ValidBufferMountFolder(s.bufferMountFolder)) &&
      (s.annotStatus == "" || ValidAnnotationName(s.annotStatus)) &&
      !(s.datasource == "fs" && s.fsDatasourceDir == "") &&
      !(s.metaKey != "" && s.metaValues == "")
  {
    if !ValidID(s.id) then Some(ErrHostname)
    else if s.annotConfigmapName == "" || !ValidAnnotationName(s.annotConfigmapName) then
      Some(ErrAnnotationName + s.annotConfigmapName + "'")
    else if s.bufferMountFolder != "" && !ValidBufferMountFolder(s.bufferMountFolder) then
      Some(ErrBufferFolder + s.bufferMountFolder)
    else if s.annotStatus != "" && !ValidAnnotationName(s.annotStatus) then
      Some(ErrAnnotationName + s.annotStatus + "'")
    else if s.datasource == "fs" && s.fsDatasourceDir == "" then
      Some(ErrFsDir)
    else if s.metaKey != "" && s.metaValues == "" then
      Some(ErrMetaValues)
    else None
  }

  /** The label selector, read only for the multimap datasource. */
  function SelectorStage(s: Settings): (v: Validated)
    ensures v.settings == s.(parsedLabelSelector := v.settings.parsedLabelSelector)
  {
    if s.datasource != "multimap" then Validated(s, None)
    else if s.labelSelector == "" then
      Validated(s, Some(ErrLabelSelector))
    else
      var p := ReadPairsSpec(Split(s.labelSelector, ','));
      if !p.ok then Validated(s, Some(BadSelectorMessage(s)))
      else Validated(s.(parsedLabelSelector := p.pairs), None)
  }

  /** The metadata, read only with a meta key; the parsed map is stored even
      when reading fails. */
  function MetaStage(s: Settings): (v: Validated)
    ensures v.settings == s.(parsedMetaValues := v.settings.parsedMetaValues,
                             parsedLabelSelector := v.settings.parsedLabelSelector)
  {
    if s.metaKey == "" then SelectorStage(s)
    else
      var p := ReadPairsSpec(Split(s.metaValues, ','));
      var s' := s.(parsedMetaValues := p.pairs);
      if !p.ok then Validated(s', Some(BadMetaMessage(s)))
      else if |p.pairs| == 0 then Validated(s', Some(ErrMetaValues))
      else SelectorStage(s')
  }

  function Checks(s: Settings): (v: Validated)
    ensures v.settings == s.(parsedMetaValues := v.settings.parsedMetaValues,
                             parsedLabelSelector := v.settings.parsedLabelSelector)
  {
    var e := FirstCheckError(s);
    if e.Some? then Validated(s, e) else MetaStage(s)
  }

  function Normalized(s: Settings): (r: Settings)
    ensures r.intervalSeconds >= 0 && r.execTimeoutSeconds >= 0
    ensures s.intervalSeconds >= 0 ==> r.intervalSeconds == s.intervalSeconds
    ensures s.execTimeoutSeconds >= 0 ==> r.execTimeoutSeconds == s.execTimeoutSeconds
    ensures r.(intervalSeconds := s.intervalSeconds, execTimeoutSeconds := s.execTimeoutSeconds) == s
  {
    s.(intervalSeconds := if s.intervalSeconds < 0 then DefaultIntervalSeconds else s.intervalSeconds,
       execTimeoutSeconds := if s.execTimeoutSeconds < 0 then DefaultExecTimeoutSeconds else s.execTimeoutSeconds)
  }

  /** `Validate`, given `logrus.ParseLevel` as `parseLevel`. */
  function ValidateSpec(s: Settings, parseLevel: string -> Result<nat>): (v: Validated)
  {
    var s1 := Normalized(s);
    match parseLevel(s1.logLevel)
    case Err(e) => Validated(s1, Some(ErrParseLogLevel + e))
    case Ok(ll) =>
      var s2 := s1.(level := ll);
      match ParseFluentdLogLevel(s2.fluentdLogLevel)
      case Err(e) => Validated(s2, Some(ErrParseFluentdLogLevel + e))
      case Ok(fll) => Checks(s2.(fluentdLogLevel := fll))
  }

  /** Negative intervals and timeouts are reset to their defaults whatever
      else happens; other values are kept. */
  lemma ValidateNormalizes(s: Settings, parseLevel: string -> Result<nat>)
    ensures var r := ValidateSpec(s, parseLevel).settings;
      r.intervalSeconds >= 0 && r.execTimeoutSeconds >= 0 &&
      (s.intervalSeconds >= 0 ==> r.intervalSeconds == s.intervalSeconds) &&
      (s.intervalSeconds < 0 ==> r.intervalSeconds == DefaultIntervalSeconds) &&
      (s.execTimeoutSeconds >= 0 ==> r.execTimeoutSeconds == s.execTimeoutSeconds) &&
      (s.execTimeoutSeconds < 0 ==> r.execTimeoutSeconds == DefaultExecTimeoutSeconds)
  {
  }

  /** Only the normalised numbers, the two levels and the two parsed maps
      ever change. */
  lemma ValidateChangesOnlyDerived(s: Settings, parseLevel: string -> Result<nat>)
    ensures var r := ValidateSpec(s, parseLevel).settings;
      r.(intervalSeconds := s.intervalSeconds, execTimeoutSeconds := s.execTimeoutSeconds, level := s.level,
         fluentdLogLevel := s.fluentdLogLevel, parsedMetaValues := s.parsedMetaValues,
         parsedLabelSelector := s.parsedLabelSelector) == s
  {
  }

  /** Validation succeeds exactly when every check passes, and then the
      fluentd level is canonical and the parsed maps hold the flags' pairs. */
  lemma ValidateAccepts(s: Settings, parseLevel: string -> Result<nat>)
    ensures var v := ValidateSpec(s, parseLevel);
      var metas := ReadPairsSpec(Split(s.metaValues, ','));
      var selector := ReadPairsSpec(Split(s.labelSelector, ','));
      v.err.None? <==>
        parseLevel(s.logLevel).Ok? && ParseFluentdLogLevel(s.fluentdLogLevel).Ok? &&
        FirstCheckError(s).None? &&
        (s.metaKey != "" ==> metas.ok && |metas.pairs| > 0) &&
        (s.datasource == "multimap" ==> s.labelSelector != "" && selector.ok)
    ensures var v := ValidateSpec(s, parseLevel);
      v.err.None? ==>
        v.settings.level == parseLevel(s.logLevel).value &&
        Ok(v.settings.fluentdLogLevel) == ParseFluentdLogLevel(s.fluentdLogLevel) &&
        v.settings.parsedMetaValues ==
          (if s.metaKey == "" then s.parsedMetaValues else ReadPairsSpec(Split(s.metaValues, ',')).pairs) &&
        v.settings.parsedLabelSelector ==
          (if s.datasource == "multimap" then ReadPairsSpec(Split(s.labelSelector, ',')).pairs else s.parsedLabelSelector)
  {
    var s1 := Normalized(s);
    if parseLevel(s.logLevel).Ok? && ParseFluentdLogLevel(s.fluentdLogLevel).Ok? {
      var s3 := s1.(level := parseLevel(s.logLevel).value, fluentdLogLevel := ParseFluentdLogLevel(s.fluentdLogLevel).value);
      assert FirstCheckError(s3) == FirstCheckError(s);
    }
  }

  /** A validated configuration validates again without change. */
  lemma ValidateIdempotent(s: Settings, parseLevel: string -> Result<nat>)
    requires ValidateSpec(s, parseLevel).err.None?
    requires parseLevel(s.logLevel) == Ok(s.level)
    ensures ValidateSpec(ValidateSpec(s, parseLevel).settings, parseLevel) == ValidateSpec(s, parseLevel)
  {
    var r := ValidateSpec(s, parseLevel).settings;
    ValidateAccepts(s, parseLevel);
    ValidateAccepts(r, parseLevel);
    ValidateChangesOnlyDerived(s, parseLevel);
    ParseFluentdLogLevelCanonical(s.fluentdLogLevel);
    assert FirstCheckError(r) == FirstCheckError(s);
    ValidateChangesOnlyDerived(r, parseLevel);
  }

  /** The defaults pass validation, given a reloader level the logging
      library knows; a negative interval is reset to 60 on the way. */
  lemma DefaultsValidate(s: Settings, parseLevel: string -> Result<nat>)
    requires s.fluentdLogLevel == DefaultFluentdLogLevel && parseLevel(s.logLevel).Ok?
    requires s.id == DefaultID && s.annotConfigmapName == DefaultAnnotConfigmapName
    requires s.bufferMountFolder == "" && s.annotStatus == DefaultAnnotStatus
    requires s.datasource == "default" && s.metaKey == ""
    ensures ValidateSpec(s, parseLevel).err.None?
    ensures ValidateSpec(s, parseLevel).settings.intervalSeconds ==
            (if s.intervalSeconds < 0 then DefaultIntervalSeconds else s.intervalSeconds)
  {
    DefaultLevelParses();
    var s3 := Normalized(s).(level := parseLevel(s.logLevel).value, fluentdLogLevel := DefaultFluentdLogLevel);
    DefaultsPassChecks(s3);
    assert ValidateSpec(s, parseLevel) == Checks(s3);
  }

  lemma DefaultLevelParses()
    ensures ParseFluentdLogLevel(DefaultFluentdLogLevel) == Ok(DefaultFluentdLogLevel)
  {
    assert Lower("info") == "info";
  }

  lemma DefaultsPassChecks(s: Settings)
    requires s.id == DefaultID && s.annotConfigmapName == DefaultAnnotConfigmapName
    requires s.bufferMountFolder == "" && s.annotStatus == DefaultAnnotStatus
    requires s.datasource == "default" && s.metaKey == ""
    ensures Checks(s) == Validated(s, None)
  {
    DefaultNamesValid();
  }

  lemma DefaultNamesValid()
    ensures ValidID(DefaultID)
    ensures ValidAnnotationName(DefaultAnnotConfigmapName) && ValidAnnotationName(DefaultAnnotStatus)
  {
    assert Labels.ValidLabelName(DefaultID);
    assert '\n' !in DefaultAnnotConfigmapName && '\n' !in DefaultAnnotStatus;
  }

  /** The configuration object. */
  class Config {
    var intervalSeconds: int
    var execTimeoutSeconds: int
    var logLevel: string
    var level: nat
    var fluentdLogLevel: string
    var id: string
    var annotConfigmapName: string
    var bufferMountFolder: string
    var annotStatus: string
    var datasource: string
    var fsDatasourceDir: string
    var metaKey: string
    var metaValues: string
    var labelSelector: string
    var parsedMetaValues: map<string, string>
    var parsedLabelSelector: map<string, string>

    function Snapshot(): Settings
      reads this
    {
      Settings(intervalSeconds, execTimeoutSeconds, logLevel, level, fluentdLogLevel,
               id, annotConfigmapName, bufferMountFolder, annotStatus, datasource, fsDatasourceDir,
               metaKey, metaValues, labelSelector, parsedMetaValues, parsedLabelSelector)
    }

    /** `defaultConfig`, with the reloader log level given. */
    constructor Default(logLevel: string)
      ensures Snapshot() == Settings(DefaultIntervalSeconds, DefaultExecTimeoutSeconds, logLevel, 0,
                                     DefaultFluentdLogLevel, DefaultID, DefaultAnnotConfigmapName, "",
                                     DefaultAnnotStatus, "default", "", "", "", "", map[], map[])
    {
      intervalSeconds := DefaultIntervalSeconds;
      execTimeoutSeconds := DefaultExecTimeoutSeconds;
      this.logLevel := logLevel;
      level := 0;
      fluentdLogLevel := DefaultFluentdLogLevel;
      id := DefaultID;
      annotConfigmapName := DefaultAnnotConfigmapName;
      bufferMountFolder := "";
      annotStatus := DefaultAnnotStatus;
      datasource := "default";
      fsDatasourceDir := "";
      metaKey := "";
      metaValues := "";
      labelSelector := "";
      parsedMetaValues := map[];
      parsedLabelSelector := map[];
    }

    /** `Validate`: the fields change as `ValidateSpec` says. */
    method Validate(parseLevel: string -> Result<nat>) returns (err: Option<string>)
      modifies this
      ensures Validated(Snapshot(), err) == ValidateSpec(old(Snapshot()), parseLevel)
    {
      Normalize();
      ghost var s1 := Snapshot();
      var ll := parseLevel(logLevel);
      if ll.Err? {
        return Some(ErrParseLogLevel + ll.msg);
      }
      level := ll.value;
      var fll := ParseFluentdLogLevel(fluentdLogLevel);
      if fll.Err? {
        assert Snapshot() == s1.(level := ll.value);
        return Some(ErrParseFluentdLogLevel + fll.msg);
      }
      fluentdLogLevel := fll.value;
      assert Snapshot() == s1.(level := ll.value, fluentdLogLevel := fll.value);
      err := RunChecks();
    }

    /** Negative intervals and timeouts are reset to their defaults. */
    method Normalize()
      modifies this
      ensures Snapshot() == Normalized(old(Snapshot()))
    {
      if intervalSeconds < 0 {
        intervalSeconds := DefaultIntervalSeconds;
      }
      if execTimeoutSeconds < 0 {
        execTimeoutSeconds := DefaultExecTimeoutSeconds;
      }
    }

    /** The name, folder and datasource checks, then the two lists. */
    method RunChecks() returns (err: Option<string>)
      modifies this
      ensures Validated(Snapshot(), err) == Checks(old(Snapshot()))
    {
      err := CheckNames();
      if err.Some? {
        return;
      }
      if metaKey != "" {
        var p := ReadPairs(Split(metaValues, ','));
        parsedMetaValues := p.pairs;
        assert Snapshot() == old(Snapshot()).(parsedMetaValues := p.pairs);
        if !p.ok {
          return Some(BadMetaMessage(Snapshot()));
        }
        if |p.pairs| == 0 {
          return Some(ErrMetaValues);
        }
      }
      err := ReadSelector();
    }

    /** The checks that only read the fields, in the source's order. */
    method CheckNames() returns (err: Option<string>)
      ensures err == FirstCheckError(Snapshot())
    {
      if !ValidID(id) {
        return Some(ErrHostname);
      }
      if annotConfigmapName == "" || !ValidAnnotationName(annotConfigmapName) {
        return Some(ErrAnnotationName + annotConfigmapName + "'");
      }
      if bufferMountFolder != "" {
        var ok := HasValidBufferMountFolder(bufferMountFolder);
        if !ok {
          return Some(ErrBufferFolder + bufferMountFolder);
        }
      }
      if annotStatus != "" && !ValidAnnotationName(annotStatus) {
        return Some(ErrAnnotationName + annotStatus + "'");
      }
      if datasource == "fs" && fsDatasourceDir == "" {
        return Some(ErrFsDir);
      }
      if metaKey != "" && metaValues == "" {
        return Some(ErrMetaValues);
      }
      return None;
    }

    method ReadSelector() returns (err: Option<string>)
      modifies this
      ensures Validated(Snapshot(), err) == SelectorStage(old(Snapshot()))
    {
      if datasource == "multimap" {
        if labelSelector == "" {
          return Some(ErrLabelSelector);
        }
        var p := ReadPairs(Split(labelSelector, ','));
        if !p.ok {
          return Some(BadSelectorMessage(Snapshot()));
        }
        parsedLabelSelector := p.pairs;
      }
      return None;
    }
  }
}
