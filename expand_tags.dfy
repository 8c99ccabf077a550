/** `{a,b}` expansion in match and filter tags
    (config-reloader/processors/expand_tags.go): one directive per expanded
    tag, or, with expansion disabled, an error for any tag using braces. */
module ExpandTags {
  import opened Wrappers
  import opened Fluentd
  import opened Strs
  import opened Util
  import opened Processor

  /** The errors of the pass, as the source words them. */
  const ErrHashBraces: string := "Pattern #{...} is not yet supported in tag definition"
  const ErrInvalidBraces: string := "Invalid {...} pattern in tag definition"
  const ErrExpansionDisabled: string := "Processing of {...} pattern in tags is disabled"

  /** `expandFirstCurlyBraces`: the first `{...}` group replaced by each of
      its comma-separated (trimmed) terms in turn. */
  function ExpandFirstCurlyBraces(tag: string): (r: Result<seq<string>>)
    ensures '{' !in tag ==> r == Ok([tag])
    ensures r.Ok? ==> |r.value| >= 1
  {
    var open := IndexOf(tag, '{');
    if open < 0 then Ok([tag])
    else if open > 0 && tag[open - 1] == '#' then Err(ErrHashBraces)
    else
      var close := IndexOf(tag, '}');
      if close > open + 1 then
        Ok(ExpandGroup(tag[..open], tag[open + 1..close], tag[close + 1..]))
      else Err(ErrInvalidBraces)
  }

  /** The group `inner` replaced by each of its trimmed terms. */
  function ExpandGroup(prefix: string, inner: string, suffix: string): seq<string>
  {
    Bracket(prefix, TrimAll(Split(inner, ',')), suffix)
  }

  /** The two errors: `#{`, and a first `}` that does not close a
      non-empty group after the first `{`. */
  lemma ExpandErrors(tag: string)
    requires '{' in tag
    ensures ExpandFirstCurlyBraces(tag).Err? <==>
      (IndexOf(tag, '{') > 0 && tag[IndexOf(tag, '{') - 1] == '#') || IndexOf(tag, '}') <= IndexOf(tag, '{') + 1
  {
  }

  /** Every expansion of a tag with braces is shorter by at least the two
      braces it drops. */
  lemma ExpandShortens(tag: string)
    requires '{' in tag && ExpandFirstCurlyBraces(tag).Ok?
    ensures forall i :: 0 <= i < |ExpandFirstCurlyBraces(tag).value| ==> |ExpandFirstCurlyBraces(tag).value[i]| + 2 <= |tag|
  {
    var open := IndexOf(tag, '{');
    var close := IndexOf(tag, '}');
    var inner := tag[open + 1..close];
    SplitPartsShorter(inner, ',');
    ExpandUnfold(tag, open, close);
    var parts := Split(inner, ',');
    var out := ExpandGroup(tag[..open], inner, tag[close + 1..]);
    forall i | 0 <= i < |out| ensures |out[i]| + 2 <= |tag| {
      assert out[i] == tag[..open] + TrimAll(parts)[i] + tag[close + 1..];
      assert |TrimAll(parts)[i]| <= |parts[i]| <= |inner|;
    }
  }

  lemma {:induction false} JoinPartsShorter(parts: seq<string>, sep: string)
    ensures forall i :: 0 <= i < |parts| ==> |parts[i]| <= |Join(parts, sep)|
    decreases |parts|
  {
    if |parts| > 1 {
      JoinPartsShorter(parts[1..], sep);
      assert forall i :: 1 <= i < |parts| ==> parts[i] == parts[1..][i - 1];
    }
  }

  /** No field of a split is longer than the string split. */
  lemma SplitPartsShorter(s: string, sep: char)
    ensures forall i :: 0 <= i < |Split(s, sep)| ==> |Split(s, sep)[i]| <= |s|
  {
    JoinPartsShorter(Split(s, sep), [sep]);
  }

  /** Expansion undoes the writing of a brace group: a prefix free of braces
      (and not ending in `#`), a group of trimmed comma-free terms and any
      suffix expand to one tag per term, in order. */
  lemma ExpandWrittenGroup(prefix: string, terms: seq<string>, suffix: string)
    requires '{' !in prefix && '}' !in prefix && (|prefix| == 0 || prefix[|prefix| - 1] != '#')
    requires |terms| >= 1 && Join(terms, ",") != ""
    requires forall i :: 0 <= i < |terms| ==> ',' !in terms[i] && '}' !in terms[i] && Trim(terms[i]) == terms[i]
    ensures ExpandFirstCurlyBraces(WriteGroup(prefix, terms, suffix)) == Ok(Bracket(prefix, terms, suffix))
  {
    var inner := Join(terms, ",");
    JoinAvoids(terms, ",", '}');
    var tag := prefix + "{" + inner + "}" + suffix;
    GroupIndices(tag, prefix, inner, suffix);
    ExpandAt(tag, prefix, inner, suffix);
    SplitCommaJoin(terms);
    var ts := Split(inner, ',');
    assert ts == terms;
    TrimAllUnchanged(terms);
    assert TrimAll(ts) == terms;
  }

  /** `expandFirstCurlyBraces` on a tag whose first braces enclose `inner`. */
  lemma ExpandAt(tag: string, prefix: string, inner: string, suffix: string)
    requires IndexOf(tag, '{') == |prefix| && IndexOf(tag, '}') == |prefix| + 1 + |inner|
    requires tag[..|prefix|] == prefix && tag[|prefix| + 1..|prefix| + 1 + |inner|] == inner
    requires tag[|prefix| + 2 + |inner|..] == suffix
    requires |inner| > 0 && !(|prefix| > 0 && tag[|prefix| - 1] == '#')
    ensures ExpandFirstCurlyBraces(tag) == Ok(Bracket(prefix, TrimAll(Split(inner, ',')), suffix))
  {
    var open := |prefix|;
    var close := |prefix| + 1 + |inner|;
    calc {
      ExpandFirstCurlyBraces(tag);
    == { ExpandUnfold(tag, open, close); }
      Ok(ExpandGroup(tag[..open], tag[open + 1..close], tag[close + 1..]));
    == { assert tag[..open] == prefix && tag[open + 1..close] == inner && tag[close + 1..] == suffix; }
      Ok(ExpandGroup(prefix, inner, suffix));
    }
  }

  /** The success case of `expandFirstCurlyBraces`, spelled out. */
  lemma ExpandUnfold(tag: string, open: nat, close: nat)
    requires open == IndexOf(tag, '{') && close == IndexOf(tag, '}') && close > open + 1
    requires !(open > 0 && tag[open - 1] == '#')
    ensures ExpandFirstCurlyBraces(tag) == Ok(ExpandGroup(tag[..open], tag[open + 1..close], tag[close + 1..]))
  {
  }

  lemma SplitCommaJoin(terms: seq<string>)
    requires |terms| >= 1 && forall i :: 0 <= i < |terms| ==> ',' !in terms[i]
    ensures Split(Join(terms, ","), ',') == terms
  {
    assert [','] == ",";
    SplitJoin(terms, ',');
  }

  /** A tag written with one brace group. */
  function WriteGroup(prefix: string, terms: seq<string>, suffix: string): string
  {
    prefix + "{" + Join(terms, ",") + "}" + suffix
  }

  /** Each term between the same prefix and suffix. */
  function Bracket(prefix: string, terms: seq<string>, suffix: string): (r: seq<string>)
    ensures |r| == |terms| && forall i :: 0 <= i < |terms| ==> r[i] == prefix + terms[i] + suffix
  {
    if |terms| == 0 then [] else [prefix + terms[0] + suffix] + Bracket(prefix, terms[1..], suffix)
  }

  function TrimAll(terms: seq<string>): (r: seq<string>)
    ensures |r| == |terms| && forall i :: 0 <= i < |terms| ==> r[i] == Trim(terms[i])
  {
    if |terms| == 0 then [] else [Trim(terms[0])] + TrimAll(terms[1..])
  }

  lemma TrimAllUnchanged(terms: seq<string>)
    requires forall i :: 0 <= i < |terms| ==> Trim(terms[i]) == terms[i]
    ensures TrimAll(terms) == terms
  {
  }

  /** Where the first braces of a written group lie. */
  lemma GroupIndices(tag: string, prefix: string, inner: string, suffix: string)
    requires tag == prefix + "{" + inner + "}" + suffix
    requires '{' !in prefix && '}' !in prefix && '}' !in inner
    ensures IndexOf(tag, '{') == |prefix| && IndexOf(tag, '}') == |prefix| + 1 + |inner|
    ensures tag[..|prefix|] == prefix && tag[|prefix| + 1..|prefix| + 1 + |inner|] == inner
    ensures tag[|prefix| + 2 + |inner|..] == suffix
  {
    assert tag[..|prefix|] == prefix;
    IndexOfFirst(tag, '{', |prefix|);
    assert tag[..|prefix| + 1 + |inner|] == prefix + "{" + inner;
    IndexOfFirst(tag, '}', |prefix| + 1 + |inner|);
  }

  /** `c` first occurs at `k`. */
  lemma IndexOfFirst(s: string, c: char, k: nat)
    requires k < |s| && s[k] == c && c !in s[..k]
    ensures IndexOf(s, c) == k
  {
    assert c in s;
  }

  lemma {:induction false} JoinAvoids(parts: seq<string>, sep: string, c: char)
    requires c !in sep && forall i :: 0 <= i < |parts| ==> c !in parts[i]
    ensures c !in Join(parts, sep)
    decreases |parts|
  {
    if |parts| > 1 {
      assert forall i :: 1 <= i < |parts| ==> parts[i] == parts[1..][i - 1];
      JoinAvoids(parts[1..], sep, c);
    }
  }

  /** The length of the longest tag that still holds a `{`, 0 when none does:
      every expansion pass makes it smaller. */
  function OpenMeasure(tags: seq<string>): nat
  {
    if |tags| == 0 then 0
    else
      var h := if '{' in tags[0] then |tags[0]| else 0;
      var t := OpenMeasure(tags[1..]);
      if h >= t then h else t
  }

  lemma {:induction false} OpenMeasureAbove(tags: seq<string>, i: nat)
    requires i < |tags| && '{' in tags[i]
    ensures 0 < |tags[i]| <= OpenMeasure(tags)
    decreases |tags|
  {
    if i > 0 {
      assert tags[i] == tags[1..][i - 1];
      OpenMeasureAbove(tags[1..], i - 1);
    }
  }

  lemma {:induction false} OpenMeasureBelow(tags: seq<string>, b: nat)
    requires forall i :: 0 <= i < |tags| && '{' in tags[i] ==> |tags[i]| <= b
    ensures OpenMeasure(tags) <= b
    decreases |tags|
  {
    if |tags| > 0 {
      assert forall i :: 1 <= i < |tags| ==> tags[i] == tags[1..][i - 1];
      OpenMeasureBelow(tags[1..], b);
    }
  }

  /** No tag holds a `{` exactly when the measure is 0. */
  lemma OpenMeasureZero(tags: seq<string>)
    ensures OpenMeasure(tags) == 0 <==> forall i :: 0 <= i < |tags| ==> '{' !in tags[i]
  {
    if forall i :: 0 <= i < |tags| ==> '{' !in tags[i] {
      OpenMeasureBelow(tags, 0);
    }
    if OpenMeasure(tags) == 0 {
      forall i | 0 <= i < |tags| ensures '{' !in tags[i] {
        if '{' in tags[i] {
          OpenMeasureAbove(tags, i);
        }
      }
    }
  }

  /** One pass of the inner loop: every tag expanded once, results
      concatenated in order, stopping at the first error. */
  function ExpandPass(tags: seq<string>): (r: Result<seq<string>>)
    ensures r.Ok? ==> |r.value| >= |tags|
    ensures (forall i :: 0 <= i < |tags| ==> '{' !in tags[i]) ==> r == Ok(tags)
    decreases |tags|
  {
    if |tags| == 0 then Ok([])
    else
      assert forall i :: 1 <= i < |tags| ==> tags[i] == tags[1..][i - 1];
      match ExpandFirstCurlyBraces(tags[0])
      case Err(e) => Err(e)
      case Ok(a) =>
        match ExpandPass(tags[1..])
        case Err(e) => Err(e)
        case Ok(rest) =>
          assert (forall i :: 0 <= i < |tags| ==> '{' !in tags[i]) ==> a + rest == [tags[0]] + tags[1..] == tags;
          Ok(a + rest)
  }

  /** A pass shortens every tag that still holds braces by at least the
      two braces of the group it expanded. */
  lemma {:induction false} ExpandPassShrinks(tags: seq<string>)
    ensures ExpandPass(tags).Ok? ==>
      forall i :: 0 <= i < |ExpandPass(tags).value| && '{' in ExpandPass(tags).value[i] ==>
        |ExpandPass(tags).value[i]| + 2 <= OpenMeasure(tags)
    decreases |tags|
  {
    if |tags| > 0 && ExpandPass(tags).Ok? {
      var a := ExpandFirstCurlyBraces(tags[0]).value;
      var rest := ExpandPass(tags[1..]).value;
      ExpandPassShrinks(tags[1..]);
      if '{' in tags[0] {
        OpenMeasureAbove(tags, 0);
        ExpandShortens(tags[0]);
      }
      assert ExpandPass(tags).value == a + rest;
    }
  }

  /** The measure drops with every pass over tags that hold braces. */
  lemma ExpandPassDecreases(tags: seq<string>)
    requires ExpandPass(tags).Ok? && OpenMeasure(tags) > 0
    ensures OpenMeasure(ExpandPass(tags).value) < OpenMeasure(tags)
  {
    ExpandPassShrinks(tags);
    OpenMeasureBelow(ExpandPass(tags).value, OpenMeasure(tags) - 1);
  }

  lemma ExpandPassIdle(tags: seq<string>)
    requires OpenMeasure(tags) == 0
    ensures ExpandPass(tags) == Ok(tags)
  {
    OpenMeasureZero(tags);
  }

  /** The outer loop of `ProcessExpandingTags` as written: passes repeat
      only while the number of tags grows. */
  function ExpandLoopAsWritten(processing: seq<string>, expanding: seq<string>): (r: Result<seq<string>>)
    decreases OpenMeasure(expanding), |expanding| - |processing|
  {
    if |expanding| <= |processing| then Ok(expanding)
    else
      match ExpandPass(expanding)
      case Err(e) => Err(e)
      case Ok(next) =>
        if OpenMeasure(expanding) > 0 then
          ExpandPassDecreases(expanding);
          ExpandLoopAsWritten(expanding, next)
        else
          ExpandPassIdle(expanding);
          ExpandLoopAsWritten(expanding, next)
  }

  function ExpandAsWritten(tags: seq<string>): Result<seq<string>>
  {
    ExpandLoopAsWritten([], tags)
  }

  /** Passes repeated until no tag holds a `{`: the loop the growth test
      stands in for. */
  function ExpandAll(tags: seq<string>): (r: Result<seq<string>>)
    ensures r.Ok? ==> |r.value| >= |tags| && forall i :: 0 <= i < |r.value| ==> '{' !in r.value[i]
    ensures (forall i :: 0 <= i < |tags| ==> '{' !in tags[i]) ==> r == Ok(tags)
    decreases OpenMeasure(tags)
  {
    OpenMeasureZero(tags);
    if OpenMeasure(tags) == 0 then Ok(tags)
    else
      match ExpandPass(tags)
      case Err(e) => Err(e)
      case Ok(next) =>
        ExpandPassDecreases(tags);
        ExpandAll(next)
  }

  /** A plain lower-case word: no space, comma or brace. */
  predicate Word(s: string)
  {
    |s| > 0 && forall i :: 0 <= i < |s| ==> 'a' <= s[i] <= 'z'
  }

  lemma WordFacts(w: string)
    requires Word(w)
    ensures Trim(w) == w && ',' !in w && '}' !in w && '{' !in w && '#' !in w
  {
    TrimUnchanged(w);
  }

  /** A brace group that yields a single term does not grow the tag count,
      so the written loop stops and leaves the later group unexpanded:
      `{x}.{y,z}` ends as `x.{y,z}`, where the full expansion yields `x.y`
      and `x.z`. */
  lemma SingleTermGroupStopsExpansion(x: string, y: string, z: string)
    requires Word(x) && Word(y) && Word(z)
    ensures ExpandAsWritten([WriteGroup("", [x], WriteGroup(".", [y, z], ""))]) ==
            Ok([WriteGroup(x + ".", [y, z], "")])
    ensures ExpandAll([WriteGroup("", [x], WriteGroup(".", [y, z], ""))]) == Ok([x + "." + y, x + "." + z])
  {
    var tag1 := WriteGroup("", [x], WriteGroup(".", [y, z], ""));
    var tag2 := WriteGroup(x + ".", [y, z], "");
    var done := [x + "." + y, x + "." + z];
    FirstGroup(x, y, z);
    PassSingle(tag1);
    SecondGroup(x, y, z);
    PassSingle(tag2);
    assert tag1[0] == '{' && tag2[|x| + 1] == '{';
    OpenMeasureAbove([tag1], 0);
    OpenMeasureAbove([tag2], 0);
    assert ExpandLoopAsWritten([tag1], [tag2]) == Ok([tag2]);
    WordFacts(x);
    WordFacts(y);
    WordFacts(z);
    assert '{' !in x + "." + y && '{' !in x + "." + z;
    assert ExpandAll(done) == Ok(done);
  }

  lemma FirstGroup(x: string, y: string, z: string)
    requires Word(x) && Word(y) && Word(z)
    ensures ExpandFirstCurlyBraces(WriteGroup("", [x], WriteGroup(".", [y, z], ""))) ==
            Ok([WriteGroup(x + ".", [y, z], "")])
  {
    WordFacts(x);
    assert Join([x], ",") == x;
    var rest := WriteGroup(".", [y, z], "");
    ExpandWrittenGroup("", [x], rest);
    var b := Bracket("", [x], rest);
    assert |b| == 1 && b[0] == "" + x + rest;
    ShiftPrefix(x, Join([y, z], ","));
    assert b == [WriteGroup(x + ".", [y, z], "")];
  }

  lemma ShiftPrefix(x: string, inner: string)
    ensures [] + x + ("." + "{" + inner + "}" + "") == (x + ".") + "{" + inner + "}" + ""
  {
  }

  lemma SecondGroup(x: string, y: string, z: string)
    requires Word(x) && Word(y) && Word(z)
    ensures ExpandFirstCurlyBraces(WriteGroup(x + ".", [y, z], "")) == Ok([x + "." + y, x + "." + z])
  {
    WordFacts(x);
    WordFacts(y);
    WordFacts(z);
    var prefix := x + ".";
    assert prefix[|prefix| - 1] == '.';
    assert '{' !in prefix && '}' !in prefix;
    PairTerms(y, z);
    ExpandWrittenGroup(prefix, [y, z], "");
    BracketPair(prefix, y, z);
  }

  /** Two words are terms a group may hold. */
  lemma PairTerms(y: string, z: string)
    requires Word(y) && Word(z)
    ensures Join([y, z], ",") != ""
    ensures forall i :: 0 <= i < 2 ==> ',' !in [y, z][i] && '}' !in [y, z][i] && Trim([y, z][i]) == [y, z][i]
  {
    WordFacts(y);
    WordFacts(z);
    assert [y, z][1..] == [z];
  }

  lemma BracketPair(prefix: string, y: string, z: string)
    ensures Bracket(prefix, [y, z], "") == [prefix + y, prefix + z]
  {
    assert prefix + y + "" == prefix + y && prefix + z + "" == prefix + z;
  }

  /** A pass over one tag is that tag's expansion. */
  lemma PassSingle(t: string)
    ensures ExpandPass([t]) == ExpandFirstCurlyBraces(t)
  {
    assert [t][1..] == [];
    if ExpandFirstCurlyBraces(t).Ok? {
      assert ExpandFirstCurlyBraces(t).value + [] == ExpandFirstCurlyBraces(t).value;
    }
  }

  /** The expansion loop of `ProcessExpandingTags`, with the corrected
      exit test: passes over the tags until none holds a `{`. */
  method ExpandTagsLoop(tags: seq<string>) returns (r: Result<seq<string>>)
    ensures r == ExpandAll(tags)
  {
    var expanding := tags;
    OpenMeasureZero(expanding);
    while OpenMeasure(expanding) > 0
      invariant ExpandAll(expanding) == ExpandAll(tags)
      decreases OpenMeasure(expanding)
    {
      var next := ExpandPassLoop(expanding);
      if next.Err? {
        return next;
      }
      ExpandPassDecreases(expanding);
      expanding := next.value;
    }
    OpenMeasureZero(expanding);
    return Ok(expanding);
  }

  /** The inner `for` over the tags of one pass. */
  method ExpandPassLoop(processing: seq<string>) returns (r: Result<seq<string>>)
    ensures r == ExpandPass(processing)
  {
    var next: seq<string> := [];
    var i := 0;
    ResumeIsPass(processing, 0, []);
    PassStart(processing);
    while i < |processing|
      invariant 0 <= i <= |processing|
      invariant ResumePass(processing, i, next) == ExpandPass(processing)
    {
      var e := ExpandFirstCurlyBraces(processing[i]);
      if e.Err? {
        return Err(e.msg);
      }
      next := next + e.value;
      i := i + 1;
    }
    return Ok(next);
  }

  /** The rest of a pass, from tag `i` on, after the tags `acc` already
      expanded: what the loop still has to do. */
  function ResumePass(tags: seq<string>, i: nat, acc: seq<string>): Result<seq<string>>
    requires i <= |tags|
    decreases |tags| - i
  {
    if i == |tags| then Ok(acc)
    else
      match ExpandFirstCurlyBraces(tags[i])
      case Err(e) => Err(e)
      case Ok(a) => ResumePass(tags, i + 1, acc + a)
  }

  /** Resuming at `i` after `acc` is the pass over the remaining tags,
      with `acc` in front. */
  lemma {:induction false} ResumeIsPass(tags: seq<string>, i: nat, acc: seq<string>)
    requires i <= |tags|
    ensures ResumePass(tags, i, acc) == Prepend(acc, ExpandPass(tags[i..]))
    decreases |tags| - i
  {
    if i == |tags| {
      assert tags[i..] == [];
      assert acc + [] == acc;
    } else {
      PassStep(tags, i, acc);
      if ExpandFirstCurlyBraces(tags[i]).Ok? {
        ResumeIsPass(tags, i + 1, acc + ExpandFirstCurlyBraces(tags[i]).value);
      }
    }
  }

  lemma PassStart(processing: seq<string>)
    ensures ExpandPass(processing) == Prepend([], ExpandPass(processing[0..]))
  {
    assert processing[0..] == processing;
    if ExpandPass(processing).Ok? {
      assert [] + ExpandPass(processing).value == ExpandPass(processing).value;
    }
  }

  /** One turn of the inner loop. */
  lemma PassStep(processing: seq<string>, i: nat, next: seq<string>)
    requires i < |processing|
    ensures ExpandFirstCurlyBraces(processing[i]).Err? ==>
      Prepend(next, ExpandPass(processing[i..])) == Err(ExpandFirstCurlyBraces(processing[i]).msg)
    ensures ExpandFirstCurlyBraces(processing[i]).Ok? ==>
      Prepend(next, ExpandPass(processing[i..])) ==
      Prepend(next + ExpandFirstCurlyBraces(processing[i]).value, ExpandPass(processing[i + 1..]))
  {
    var rest := processing[i..];
    assert rest[0] == processing[i] && rest[1..] == processing[i + 1..];
    if ExpandFirstCurlyBraces(rest[0]).Ok? && ExpandPass(rest[1..]).Ok? {
      var a := ExpandFirstCurlyBraces(rest[0]).value;
      var b := ExpandPass(rest[1..]).value;
      assert ExpandPass(rest) == Ok(a + b);
      assert next + (a + b) == (next + a) + b;
    }
  }

  function Prepend(acc: seq<string>, r: Result<seq<string>>): Result<seq<string>>
  {
    match r
    case Ok(v) => Ok(acc + v)
    case Err(e) => Err(e)
  }

  // ---------------------------------------------------------------------
  // applyRecursivelyWithState

  type Expander = Directive -> Result<Fragment>

  /** `applyRecursivelyWithState`: every directive's children first, then the
      callback on each directive of the level, outputs concatenated in order. */
  function ApplyWithState(dirs: Fragment, f: Expander): (r: Result<Fragment>)
    decreases dirs, 1
  {
    match WithStateChildren(dirs, f)
    case Err(e) => Err(e)
    case Ok(level) => WithStateLevel(level, f)
  }

  /** The first loop: each directive's nested fragment replaced by its walk. */
  function WithStateChildren(dirs: Fragment, f: Expander): (r: Result<Fragment>)
    ensures r.Ok? ==> |r.value| == |dirs|
    ensures r.Ok? ==> forall i :: 0 <= i < |dirs| ==> r.value[i] == dirs[i].(nested := r.value[i].nested)
    decreases dirs, 0
  {
    if |dirs| == 0 then Ok([])
    else
      match ApplyWithState(dirs[0].nested, f)
      case Err(e) => Err(e)
      case Ok(kids) =>
        match WithStateChildren(dirs[1..], f)
        case Err(e) => Err(e)
        case Ok(rest) =>
          assert forall i :: 1 <= i < |dirs| ==> dirs[i] == dirs[1..][i - 1];
          Ok([dirs[0].(nested := kids)] + rest)
  }

  /** The second loop: callback outputs appended in order, first error wins. */
  function WithStateLevel(level: Fragment, f: Expander): (r: Result<Fragment>)
    decreases |level|
  {
    if |level| == 0 then Ok([])
    else
      match f(level[0])
      case Err(e) => Err(e)
      case Ok(out) =>
        match WithStateLevel(level[1..], f)
        case Err(e) => Err(e)
        case Ok(rest) => Ok(out + rest)
  }

  function Keep(d: Directive): (r: Result<Fragment>)
    ensures r == Ok([d])
  {
    Ok([d])
  }

  /** A callback that keeps each directive leaves the whole tree as it was. */
  lemma {:induction false} KeepWithStateIdentity(dirs: Fragment)
    ensures ApplyWithState(dirs, Keep) == Ok(dirs)
    decreases dirs, 1
  {
    KeepChildren(dirs);
    KeepLevel(dirs);
  }

  lemma {:induction false} KeepChildren(dirs: Fragment)
    ensures WithStateChildren(dirs, Keep) == Ok(dirs)
    decreases dirs, 0
  {
    if |dirs| > 0 {
      KeepWithStateIdentity(dirs[0].nested);
      KeepChildren(dirs[1..]);
      assert dirs[0].(nested := dirs[0].nested) == dirs[0];
      assert [dirs[0]] + dirs[1..] == dirs;
    }
  }

  lemma {:induction false} KeepLevel(level: Fragment)
    ensures WithStateLevel(level, Keep) == Ok(level)
    decreases |level|
  {
    if |level| > 0 {
      KeepLevel(level[1..]);
      assert [level[0]] + level[1..] == level;
    }
  }

  /** A level's output is its directives' outputs concatenated: splitting
      the level splits the output. */
  lemma {:induction false} WithStateLevelAppend(a: Fragment, b: Fragment, f: Expander)
    ensures WithStateLevel(a + b, f) ==
      match WithStateLevel(a, f)
      case Err(e) => Err(e)
      case Ok(x) => (match WithStateLevel(b, f) case Err(e) => Err(e) case Ok(y) => Ok(x + y))
    decreases |a|
  {
    if |a| > 0 {
      assert (a + b)[0] == a[0];
      assert (a + b)[1..] == a[1..] + b;
      WithStateLevelAppend(a[1..], b, f);
      if f(a[0]).Ok? && WithStateLevel(a[1..], f).Ok? && WithStateLevel(b, f).Ok? {
        var out := f(a[0]).value;
        assert out + (WithStateLevel(a[1..], f).value + WithStateLevel(b, f).value) ==
               (out + WithStateLevel(a[1..], f).value) + WithStateLevel(b, f).value;
      }
    } else {
      assert a + b == b;
      if WithStateLevel(b, f).Ok? {
        assert [] + WithStateLevel(b, f).value == WithStateLevel(b, f).value;
      }
    }
  }

  /** The first loop hands each directive the walk of its own children. */
  lemma {:induction false} ChildrenWalked(dirs: Fragment, f: Expander)
    requires WithStateChildren(dirs, f).Ok?
    ensures forall i :: 0 <= i < |dirs| ==>
      ApplyWithState(dirs[i].nested, f) == Ok(WithStateChildren(dirs, f).value[i].nested)
    decreases |dirs|
  {
    if |dirs| > 0 {
      ChildrenWalked(dirs[1..], f);
      var level := WithStateChildren(dirs, f).value;
      assert level[1..] == WithStateChildren(dirs[1..], f).value;
      forall i | 1 <= i < |dirs| ensures ApplyWithState(dirs[i].nested, f) == Ok(level[i].nested) {
        assert dirs[i] == dirs[1..][i - 1] && level[i] == level[1..][i - 1];
      }
    }
  }

  /** Some directive of `xs` is refused by `f`. */
  predicate AnyFails(xs: seq<Directive>, f: Expander)
  {
    exists i :: 0 <= i < |xs| && f(xs[i]).Err?
  }

  lemma AnyFailsAppend(a: seq<Directive>, b: seq<Directive>, f: Expander)
    ensures AnyFails(a + b, f) <==> AnyFails(a, f) || AnyFails(b, f)
  {
    if AnyFails(a + b, f) {
      var i :| 0 <= i < |a + b| && f((a + b)[i]).Err?;
      if i >= |a| { assert (a + b)[i] == b[i - |a|]; }
    }
    if AnyFails(a, f) {
      var i :| 0 <= i < |a| && f(a[i]).Err?;
      assert (a + b)[i] == a[i];
    }
    if AnyFails(b, f) {
      var i :| 0 <= i < |b| && f(b[i]).Err?;
      assert (a + b)[i + |a|] == b[i];
    }
  }

  /** For a callback that decides without looking at children, the walk
      fails exactly when the callback refuses some directive of the tree. */
  lemma {:induction false} WithStateFails(dirs: Fragment, f: Expander)
    requires forall d: Directive, k: Fragment :: f(d.(nested := k)).Err? == f(d).Err?
    ensures ApplyWithState(dirs, f).Err? <==> AnyFails(LevelOrder(dirs), f)
    decreases dirs, 1
  {
    WithStateChildrenFails(dirs, f);
    AnyFailsAppend(dirs, SubtreeOrder(dirs), f);
    var c := WithStateChildren(dirs, f);
    if c.Ok? {
      var level := c.value;
      LevelFails(level, f);
      forall i | 0 <= i < |dirs| ensures f(level[i]).Err? == f(dirs[i]).Err? {
        assert level[i] == dirs[i].(nested := level[i].nested);
      }
      assert AnyFails(level, f) == AnyFails(dirs, f);
    }
  }

  lemma {:induction false} WithStateChildrenFails(dirs: Fragment, f: Expander)
    requires forall d: Directive, k: Fragment :: f(d.(nested := k)).Err? == f(d).Err?
    ensures WithStateChildren(dirs, f).Err? <==> AnyFails(SubtreeOrder(dirs), f)
    decreases dirs, 0
  {
    if |dirs| > 0 {
      WithStateFails(dirs[0].nested, f);
      WithStateChildrenFails(dirs[1..], f);
      AnyFailsAppend(LevelOrder(dirs[0].nested), SubtreeOrder(dirs[1..]), f);
    }
  }

  lemma {:induction false} LevelFails(level: Fragment, f: Expander)
    ensures WithStateLevel(level, f).Err? <==> AnyFails(level, f)
    decreases |level|
  {
    if |level| > 0 {
      LevelFails(level[1..], f);
      AnyFailsAppend([level[0]], level[1..], f);
      assert [level[0]] + level[1..] == level;
    }
  }

  /** `f` keeps every directive of `xs` as it is. */
  predicate AllKept(xs: seq<Directive>, f: Expander)
  {
    forall i :: 0 <= i < |xs| ==> f(xs[i]) == Ok([xs[i]])
  }

  lemma AllKeptAppend(a: seq<Directive>, b: seq<Directive>, f: Expander)
    requires AllKept(a + b, f)
    ensures AllKept(a, f) && AllKept(b, f)
  {
    forall i | 0 <= i < |a| ensures f(a[i]) == Ok([a[i]]) {
      assert (a + b)[i] == a[i];
    }
    forall i | 0 <= i < |b| ensures f(b[i]) == Ok([b[i]]) {
      assert (a + b)[i + |a|] == b[i];
    }
  }

  /** A walk whose callback keeps every directive of the tree gives the
      tree back. */
  lemma {:induction false} WithStateKeeps(dirs: Fragment, f: Expander)
    requires AllKept(LevelOrder(dirs), f)
    ensures ApplyWithState(dirs, f) == Ok(dirs)
    decreases dirs, 1
  {
    AllKeptAppend(dirs, SubtreeOrder(dirs), f);
    WithStateChildrenKeeps(dirs, f);
    LevelKeeps(dirs, f);
  }

  lemma {:induction false} WithStateChildrenKeeps(dirs: Fragment, f: Expander)
    requires AllKept(SubtreeOrder(dirs), f)
    ensures WithStateChildren(dirs, f) == Ok(dirs)
    decreases dirs, 0
  {
    if |dirs| > 0 {
      AllKeptAppend(LevelOrder(dirs[0].nested), SubtreeOrder(dirs[1..]), f);
      WithStateKeeps(dirs[0].nested, f);
      WithStateChildrenKeeps(dirs[1..], f);
      assert dirs[0].(nested := dirs[0].nested) == dirs[0];
      assert [dirs[0]] + dirs[1..] == dirs;
    }
  }

  lemma {:induction false} LevelKeeps(level: Fragment, f: Expander)
    requires AllKept(level, f)
    ensures WithStateLevel(level, f) == Ok(level)
    decreases |level|
  {
    if |level| > 0 {
      AllKeptAppend([level[0]], level[1..], f);
      assert [level[0]] + level[1..] == level;
      LevelKeeps(level[1..], f);
    }
  }

  /** Every directive `f` outputs carries the children it was given and is
      related by `rel` to the directive, children aside. */
  ghost predicate Yields(f: Expander, rel: (Directive, Directive) -> bool)
  {
    forall d, j :: f(d).Ok? && 0 <= j < |f(d).value| ==>
      f(d).value[j].nested == d.nested && rel(Strip(d), f(d).value[j])
  }

  /** `y` comes from some directive of `xs`. */
  ghost predicate Traced(rel: (Directive, Directive) -> bool, xs: seq<Directive>, y: Directive)
  {
    exists x :: x in xs && rel(Strip(x), y)
  }

  /** After a successful walk, every directive of the result, at any depth,
      comes from some directive of the input as the callback relates them. */
  lemma {:induction false} WithStateTraced(dirs: Fragment, f: Expander, rel: (Directive, Directive) -> bool)
    requires Yields(f, rel)
    ensures ApplyWithState(dirs, f).Ok? ==>
      forall y :: y in LevelOrder(ApplyWithState(dirs, f).value) ==> Traced(rel, LevelOrder(dirs), y)
    decreases dirs, 1
  {
    var c := WithStateChildren(dirs, f);
    if c.Ok? && WithStateLevel(c.value, f).Ok? {
      var level := c.value;
      var out := WithStateLevel(level, f).value;
      assert ApplyWithState(dirs, f) == Ok(out);
      ChildrenWalked(dirs, f);
      LevelTraced(level, f, rel);
      forall y | y in LevelOrder(out) ensures Traced(rel, LevelOrder(dirs), y) {
        if y in out {
          var j :| 0 <= j < |out| && out[j] == y;
          var i :| 0 <= i < |level| && out[j].nested == level[i].nested && rel(Strip(level[i]), out[j]);
          assert Strip(level[i]) == Strip(dirs[i]);
          assert dirs[i] in LevelOrder(dirs);
        } else {
          assert y in SubtreeOrder(out);
          SubtreeMember(out, y);
          var j :| 0 <= j < |out| && y in LevelOrder(out[j].nested);
          var i :| 0 <= i < |level| && out[j].nested == level[i].nested && rel(Strip(level[i]), out[j]);
          WithStateTraced(dirs[i].nested, f, rel);
          var x :| x in LevelOrder(dirs[i].nested) && rel(Strip(x), y);
          NestedMember(dirs, i, x);
        }
      }
    }
  }

  lemma {:induction false} LevelTraced(level: Fragment, f: Expander, rel: (Directive, Directive) -> bool)
    requires Yields(f, rel)
    ensures WithStateLevel(level, f).Ok? ==>
      forall j :: 0 <= j < |WithStateLevel(level, f).value| ==>
        exists i :: 0 <= i < |level| && WithStateLevel(level, f).value[j].nested == level[i].nested &&
          rel(Strip(level[i]), WithStateLevel(level, f).value[j])
    decreases |level|
  {
    if |level| > 0 && WithStateLevel(level, f).Ok? {
      LevelTraced(level[1..], f, rel);
      var head := f(level[0]).value;
      var rest := WithStateLevel(level[1..], f).value;
      var out := WithStateLevel(level, f).value;
      assert out == head + rest;
      forall j | 0 <= j < |out|
        ensures exists i :: 0 <= i < |level| && out[j].nested == level[i].nested && rel(Strip(level[i]), out[j])
      {
        if j < |head| {
          assert out[j] == head[j];
        } else {
          assert out[j] == rest[j - |head|];
          var i :| 0 <= i < |level[1..]| && rest[j - |head|].nested == level[1..][i].nested &&
                   rel(Strip(level[1..][i]), rest[j - |head|]);
          assert level[1..][i] == level[i + 1];
        }
      }
    }
  }

  // ---------------------------------------------------------------------
  // expandTagsState.Process

  /** The callback of `ProcessExpandingTags`. The tag tokenizer is the
      foreign `scanTags`: the tags it finds and the text between them. */
  function ExpandTagsCallback(scan: string -> (seq<string>, seq<string>), d: Directive): (r: Result<Fragment>)
    ensures !IsMatchOrFilter(d) ==> r == Ok([d])
    ensures IsMatchOrFilter(d) && |Trim(Concat(scan(d.tag).1))| > 0 ==>
      r == Err("Malformed tag " + d.tag + ". Cannot parse it")
    ensures r.Ok? && |r.value| == 1 ==> r.value[0] == d
    ensures r.Ok? && IsMatchOrFilter(d) && |r.value| != 1 ==>
      ExpandAll(scan(d.tag).0).Ok? && |r.value| == |ExpandAll(scan(d.tag).0).value| &&
      forall i :: 0 <= i < |r.value| ==> r.value[i].tag == ExpandAll(scan(d.tag).0).value[i]
    ensures r.Ok? ==> forall i :: 0 <= i < |r.value| ==>
      r.value[i].name == d.name && r.value[i].params == d.params && r.value[i].nested == d.nested
  {
    if !IsMatchOrFilter(d) then Ok([d])
    else
      var (tags, remainders) := scan(d.tag);
      if |Trim(Concat(remainders))| > 0 then Err("Malformed tag " + d.tag + ". Cannot parse it")
      else
        match ExpandAll(tags)
        case Err(e) => Err(e)
        case Ok(ts) =>
          if |ts| == 1 then Ok([d])
          else Ok(seq(|ts|, i requires 0 <= i < |ts| => d.(tag := ts[i])))
  }

  /** Every clone carries a tag with no `{` left. */
  lemma ExpandedClonesHaveNoBraces(scan: string -> (seq<string>, seq<string>), d: Directive)
    requires ExpandTagsCallback(scan, d).Ok? && |ExpandTagsCallback(scan, d).value| != 1
    ensures forall i :: 0 <= i < |ExpandTagsCallback(scan, d).value| ==> '{' !in ExpandTagsCallback(scan, d).value[i].tag
  {
  }

  /** `strings.Join(parts, "")`. */
  function Concat(parts: seq<string>): string
  {
    Join(parts, "")
  }

  /** `ProcessNotExpandingTags`'s check on one directive. */
  predicate NoBraceTag(d: Directive)
  {
    !IsMatchOrFilter(d) || '{' !in d.tag
  }

  function BracesDisabled(d: Directive): string
  {
    ErrExpansionDisabled
  }

  /** What the expansion may make of a directive `x`, children aside: the
      same name and parameters, and either the same tag or one of the
      brace-free tags that `x`'s tag expands to. */
  predicate ExpandedFrom(scan: string -> (seq<string>, seq<string>), x: Directive, y: Directive)
  {
    y.name == x.name && y.params == x.params &&
    (y.tag == x.tag ||
     (IsMatchOrFilter(x) && ExpandAll(scan(x.tag).0).Ok? && y.tag in ExpandAll(scan(x.tag).0).value))
  }

  /** The callback keeps every directive of `xs` as it is. */
  predicate NothingToExpand(scan: string -> (seq<string>, seq<string>), xs: seq<Directive>)
  {
    forall i :: 0 <= i < |xs| ==> ExpandTagsCallback(scan, xs[i]) == Ok([xs[i]])
  }

  function ExpandCallback(scan: string -> (seq<string>, seq<string>)): Expander
  {
    d => ExpandTagsCallback(scan, d)
  }

  /** The callback decides on a directive's name and tag, and every clone
      carries the directive's children. */
  lemma ExpandCallbackFacts(scan: string -> (seq<string>, seq<string>))
    ensures forall d: Directive, k: Fragment :: ExpandCallback(scan)(d.(nested := k)).Err? == ExpandCallback(scan)(d).Err?
    ensures Yields(ExpandCallback(scan), ExpandedRel(scan))
  {
    forall d: Directive, j | ExpandCallback(scan)(d).Ok? && 0 <= j < |ExpandCallback(scan)(d).value|
      ensures ExpandCallback(scan)(d).value[j].nested == d.nested &&
              ExpandedFrom(scan, Strip(d), ExpandCallback(scan)(d).value[j])
    {
      var out := ExpandTagsCallback(scan, d).value;
      if |out| != 1 {
        assert out[j].tag == ExpandAll(scan(d.tag).0).value[j];
      }
    }
  }

  /** `expandTagsState.Process`. With expansion enabled it fails exactly when
      the callback refuses some directive of the tree; what it builds is
      `ExpandedTree`, each match or filter replaced by its clones in order
      once its children are expanded; a tree whose every directive the
      callback keeps comes back as it was; and every directive
      of the result, at any depth, is a directive of the input with its tag
      kept or replaced by one of its brace-free expansions. */
  function ExpandTagsProcess(ctx: ProcessorContext, input: Fragment): (r: Result<Fragment>)
    ensures ctx.allowTagExpansion ==>
      (r.Err? <==> exists i :: 0 <= i < |LevelOrder(input)| &&
                     ExpandTagsCallback(ctx.foreign.scanTags, LevelOrder(input)[i]).Err?)
    ensures ctx.allowTagExpansion && NothingToExpand(ctx.foreign.scanTags, LevelOrder(input)) ==> r == Ok(input)
    ensures ctx.allowTagExpansion ==> (r.Ok? <==> ExpandedTree(ctx.foreign.scanTags, input).Ok?)
    ensures ctx.allowTagExpansion && r.Ok? ==> r == ExpandedTree(ctx.foreign.scanTags, input)
    ensures ctx.allowTagExpansion && r.Ok? ==> forall y :: y in LevelOrder(r.value) ==>
      exists x :: x in LevelOrder(input) && ExpandedFrom(ctx.foreign.scanTags, x, y)
    ensures !ctx.allowTagExpansion ==>
      (r.Ok? <==> forall i :: 0 <= i < |LevelOrder(input)| ==> NoBraceTag(LevelOrder(input)[i]))
    ensures !ctx.allowTagExpansion && r.Ok? ==> r.value == input
    ensures !ctx.allowTagExpansion && r.Err? ==> r.msg == ErrExpansionDisabled
  {
    if ctx.allowTagExpansion then
      var f := ExpandCallback(ctx.foreign.scanTags);
      ExpandEnabled(ctx.foreign.scanTags, input);
      WithStateIsTree(ctx.foreign.scanTags, input);
      ApplyWithState(input, f)
    else
      CheckerStopsAtFirstError(input, NoBraceTag, BracesDisabled);
      match ApplyInPlace(input, (), Checker(NoBraceTag, BracesDisabled))
      case Err(e) => Err(e)
      case Ok(_) => Ok(input)
  }

  /** The enabled branch, through the facts about the walk with state. */
  lemma ExpandEnabled(scan: string -> (seq<string>, seq<string>), input: Fragment)
    ensures ApplyWithState(input, ExpandCallback(scan)).Err? <==>
      exists i :: 0 <= i < |LevelOrder(input)| && ExpandTagsCallback(scan, LevelOrder(input)[i]).Err?
    ensures NothingToExpand(scan, LevelOrder(input)) ==> ApplyWithState(input, ExpandCallback(scan)) == Ok(input)
    ensures ApplyWithState(input, ExpandCallback(scan)).Ok? ==>
      forall y :: y in LevelOrder(ApplyWithState(input, ExpandCallback(scan)).value) ==>
        exists x :: x in LevelOrder(input) && ExpandedFrom(scan, x, y)
  {
    var f := ExpandCallback(scan);
    var rel := ExpandedRel(scan);
    ExpandCallbackFacts(scan);
    WithStateFails(input, f);
    if AllKept(LevelOrder(input), f) {
      WithStateKeeps(input, f);
    }
    WithStateTraced(input, f, rel);
    var r := ApplyWithState(input, f);
    if r.Ok? {
      forall y | y in LevelOrder(r.value) ensures exists x :: x in LevelOrder(input) && ExpandedFrom(scan, x, y) {
        TracedExpanded(scan, LevelOrder(input), y);
      }
    }
  }

  /** The expansion stated one directive at a time, in document order: each
      directive's children are expanded first, then the callback replaces the
      directive (so `<match {a,b}>` by its clones, in the order of its
      alternatives), and the results are concatenated. */
  function ExpandedTree(scan: string -> (seq<string>, seq<string>), dirs: Fragment): Result<Fragment>
    decreases dirs
  {
    if |dirs| == 0 then Ok([])
    else
      match ExpandedTree(scan, dirs[0].nested)
      case Err(e) => Err(e)
      case Ok(kids) =>
        match ExpandTagsCallback(scan, dirs[0].(nested := kids))
        case Err(e) => Err(e)
        case Ok(out) =>
          match ExpandedTree(scan, dirs[1..])
          case Err(e) => Err(e)
          case Ok(rest) => Ok(out + rest)
  }

  /** The walk with state, which expands every child of a level before the
      callback sees any directive of it, succeeds exactly when the expansion
      one directive at a time does, and then builds the same tree. */
  lemma {:induction false} WithStateIsTree(scan: string -> (seq<string>, seq<string>), dirs: Fragment)
    ensures ApplyWithState(dirs, ExpandCallback(scan)).Ok? <==> ExpandedTree(scan, dirs).Ok?
    ensures ApplyWithState(dirs, ExpandCallback(scan)).Ok? ==>
      ApplyWithState(dirs, ExpandCallback(scan)) == ExpandedTree(scan, dirs)
    decreases dirs
  {
    var f := ExpandCallback(scan);
    if |dirs| > 0 {
      var d, rest := dirs[0], dirs[1..];
      WithStateIsTree(scan, d.nested);
      WithStateIsTree(scan, rest);
      var head := ApplyWithState(d.nested, f);
      var tail := WithStateChildren(rest, f);
      if head.Ok? && tail.Ok? {
        var level := [d.(nested := head.value)] + tail.value;
        assert WithStateChildren(dirs, f) == Ok(level);
        assert level[0] == d.(nested := head.value) && level[1..] == tail.value;
        assert ApplyWithState(rest, f) == WithStateLevel(tail.value, f);
      }
    }
  }

  function ExpandedRel(scan: string -> (seq<string>, seq<string>)): (Directive, Directive) -> bool
  {
    (x, y) => ExpandedFrom(scan, x, y)
  }

  lemma TracedExpanded(scan: string -> (seq<string>, seq<string>), xs: seq<Directive>, y: Directive)
    requires Traced(ExpandedRel(scan), xs, y)
    ensures exists x :: x in xs && ExpandedFrom(scan, x, y)
  {
    var x :| x in xs && ExpandedRel(scan)(Strip(x), y);
    assert ExpandedFrom(scan, Strip(x), y);
  }
}
