/** The `extract` filter (image/plugins/filter_extract.rb): ordered rules
    `(key, pattern, set, to)` rewrite a record in place; a rule whose key is
    present and whose pattern matches that field writes the global
    substitution of the pattern by `to` into the field `set`. The regular
    expression engine is not modelled: matching and substitution are
    parameters. */
module Extract {
  import opened Wrappers
  import opened Strs

  /** A normalised pattern: the regular expression source handed to
      `Regexp.compile`, and whether the slash-less form was warned about. */
  datatype Pattern = Pattern(source: string, warned: bool)

  predicate Slashed(value: string)
  {
    |value| >= 1 && value[0] == '/' && value[|value| - 1] == '/'
  }

  /** Ruby's `value[1..-2]`; a lone `/` gives the empty text. */
  function Inner(value: string): (r: string)
    requires Slashed(value)
    ensures |value| >= 2 ==> r == value[1..|value| - 1]
    ensures |value| == 1 ==> r == ""
  {
    if |value| >= 2 then value[1..|value| - 1] else ""
  }

  /** The `pattern` parameter's conversion: strip `/.../` (else warn) and
      make `.` match newlines unless the pattern sets its own modes. */
  function NormalizePattern(value: string): (p: Pattern)
    ensures p.warned <==> !Slashed(value)
    ensures HasPrefix(p.source, "(?")
    ensures var body := if Slashed(value) then Inner(value) else value;
      p.source == if HasPrefix(body, "(?") then body else "(?m)" + body
  {
    var s := if Slashed(value) then Inner(value) else value;
    var src := if HasPrefix(s, "(?") then s else "(?m)" + s;
    assert HasPrefix(src, "(?") by {
      if !HasPrefix(s, "(?") {
        assert src[..2] == "(?";
      }
    }
    Pattern(src, !Slashed(value))
  }

  /** Normalising the source again (written without slashes) leaves it as
      it is: the mode prefix is added at most once. */
  lemma NormalizeSourceStable(value: string)
    ensures NormalizePattern(NormalizePattern(value).source).source == NormalizePattern(value).source
  {
    var src := NormalizePattern(value).source;
    assert src[0] == '(';
    assert !Slashed(src);
  }

  /** A `<rule>` section after configuration. */
  datatype Rule = Rule(key: string, pattern: string, target: string, to: string)

  /** The regular expression operations a rule uses: `pattern.match(text)`
      and `text.gsub(pattern, to)`. */
  datatype Engine = Engine(matches: (string, string) -> bool, gsub: (string, string, string) -> string)

  /** One entry of a record. A Ruby Hash keeps its entries in insertion
      order, so a record is the sequence of its entries. */
  datatype Field = Field(key: string, value: string)

  /** No key occurs twice, as in any Hash. */
  predicate DistinctKeys(fs: seq<Field>)
  {
    forall i, j :: 0 <= i < j < |fs| ==> fs[i].key != fs[j].key
  }

  function Keys(fs: seq<Field>): set<string>
  {
    set i | 0 <= i < |fs| :: fs[i].key
  }

  /** `record.include?(k)` and `record[k]`. */
  function Get(fs: seq<Field>, k: string): (r: Option<string>)
    ensures r.Some? <==> k in Keys(fs)
    ensures r.Some? ==> exists i :: 0 <= i < |fs| && fs[i] == Field(k, r.value)
    decreases |fs|
  {
    if |fs| == 0 then None
    else if fs[0].key == k then Some(fs[0].value)
    else
      var r := Get(fs[1..], k);
      KeysCons(fs);
      if r.Some? then
        var i :| 0 <= i < |fs[1..]| && fs[1..][i] == Field(k, r.value);
        assert fs[i + 1] == Field(k, r.value);
        r
      else r
  }

  /** `record[k] = v`: an existing entry is overwritten where it stands, a
      new key is appended after all the others. */
  function Put(fs: seq<Field>, k: string, v: string): (r: seq<Field>)
    ensures Get(fs, k).None? ==> r == fs + [Field(k, v)]
    ensures Get(fs, k).Some? ==> |r| == |fs|
    ensures Get(fs, k).Some? ==>
      forall i :: 0 <= i < |fs| ==> r[i].key == fs[i].key && (fs[i].key != k ==> r[i] == fs[i])
    decreases |fs|
  {
    if |fs| == 0 then [Field(k, v)]
    else if fs[0].key == k then [Field(k, v)] + fs[1..]
    else
      var rest := Put(fs[1..], k, v);
      assert [fs[0]] + (fs[1..] + [Field(k, v)]) == fs + [Field(k, v)];
      [fs[0]] + rest
  }

  /** After `record[k] = v`, reading `k` gives `v` and reading any other key
      gives what it gave before. */
  lemma {:induction false} PutGet(fs: seq<Field>, k: string, v: string)
    ensures Get(Put(fs, k, v), k) == Some(v)
    ensures forall j :: j != k ==> Get(Put(fs, k, v), j) == Get(fs, j)
    decreases |fs|
  {
    if |fs| > 0 && fs[0].key != k {
      PutGet(fs[1..], k, v);
      assert Put(fs, k, v)[1..] == Put(fs[1..], k, v);
    } else if |fs| > 0 {
      assert Put(fs, k, v)[1..] == fs[1..];
    }
  }

  /** The keys after `record[k] = v` are the keys before and `k`. */
  lemma PutKeys(fs: seq<Field>, k: string, v: string)
    ensures Keys(Put(fs, k, v)) == Keys(fs) + {k}
  {
    var r := Put(fs, k, v);
    PutGet(fs, k, v);
    forall x ensures x in Keys(r) <==> x in Keys(fs) + {k} {
      assert x in Keys(r) <==> Get(r, x).Some?;
      assert x in Keys(fs) <==> Get(fs, x).Some?;
    }
  }

  /** ... and each of them still once. */
  lemma PutDistinct(fs: seq<Field>, k: string, v: string)
    requires DistinctKeys(fs)
    ensures DistinctKeys(Put(fs, k, v))
  {
    var r := Put(fs, k, v);
    if Get(fs, k).None? {
      forall i, j | 0 <= i < j < |r| ensures r[i].key != r[j].key {
        if j == |fs| {
          assert fs[i].key in Keys(fs);
        } else {
          assert r[i] == fs[i] && r[j] == fs[j];
        }
      }
    } else {
      forall i, j | 0 <= i < j < |r| ensures r[i].key != r[j].key {
        assert r[i].key == fs[i].key && r[j].key == fs[j].key;
      }
    }
  }

  lemma KeysCons(fs: seq<Field>)
    requires |fs| > 0
    ensures Keys(fs) == {fs[0].key} + Keys(fs[1..])
  {
    forall x | x in Keys(fs) ensures x in {fs[0].key} + Keys(fs[1..]) {
      var i :| 0 <= i < |fs| && fs[i].key == x;
      if i > 0 { assert fs[1..][i - 1] == fs[i]; }
    }
    forall x | x in Keys(fs[1..]) ensures x in Keys(fs) {
      var i :| 0 <= i < |fs[1..]| && fs[1..][i].key == x;
      assert fs[i + 1] == fs[1..][i];
    }
  }

  lemma SameKeys(a: seq<Field>, b: seq<Field>)
    requires |a| == |b| && forall i :: 0 <= i < |a| ==> a[i].key == b[i].key
    ensures Keys(a) == Keys(b)
  {
    forall x | x in Keys(a) ensures x in Keys(b) {
      var i :| 0 <= i < |a| && a[i].key == x;
      assert b[i].key == x;
    }
  }

  /** Whether a rule fires on a record. */
  predicate Fires(fields: seq<Field>, rule: Rule, re: Engine)
  {
    Get(fields, rule.key).Some? && re.matches(rule.pattern, Get(fields, rule.key).value)
  }

  /** One rule. */
  function ApplyRule(fields: seq<Field>, rule: Rule, re: Engine): (r: seq<Field>)
    ensures Fires(fields, rule, re) ==>
      r == Put(fields, rule.target, re.gsub(Get(fields, rule.key).value, rule.pattern, rule.to))
    ensures !Fires(fields, rule, re) ==> r == fields
  {
    if Fires(fields, rule, re) then Put(fields, rule.target, re.gsub(Get(fields, rule.key).value, rule.pattern, rule.to))
    else fields
  }

  /** The rules, once each, in declaration order. */
  function ApplyRules(fields: seq<Field>, rules: seq<Rule>, re: Engine): seq<Field>
    decreases |rules|
  {
    if |rules| == 0 then fields
    else
      var n := |rules| - 1;
      ApplyRule(ApplyRules(fields, rules[..n], re), rules[n], re)
  }

  /** The set of fields the rules may write. */
  function Targets(rules: seq<Rule>): set<string>
  {
    set i | 0 <= i < |rules| :: rules[i].target
  }

  /** One rule writes its target field at most. */
  lemma RuleChangesTarget(fields: seq<Field>, rule: Rule, re: Engine)
    ensures var r := ApplyRule(fields, rule, re);
      Keys(fields) <= Keys(r) && Keys(r) <= Keys(fields) + {rule.target} &&
      (forall k :: k != rule.target ==> Get(r, k) == Get(fields, k)) &&
      (DistinctKeys(fields) ==> DistinctKeys(r))
  {
    if Fires(fields, rule, re) {
      var v := re.gsub(Get(fields, rule.key).value, rule.pattern, rule.to);
      PutGet(fields, rule.target, v);
      PutKeys(fields, rule.target, v);
      if DistinctKeys(fields) {
        PutDistinct(fields, rule.target, v);
      }
    }
  }

  /** Fields no rule names as its `set` target are left as they are, no
      field is removed, and the record stays a Hash. */
  lemma {:induction false} OnlyTargetsChange(fields: seq<Field>, rules: seq<Rule>, re: Engine)
    ensures var r := ApplyRules(fields, rules, re);
      Keys(fields) <= Keys(r) && Keys(r) <= Keys(fields) + Targets(rules) &&
      (forall k :: k !in Targets(rules) ==> Get(r, k) == Get(fields, k)) &&
      (DistinctKeys(fields) ==> DistinctKeys(r))
    decreases |rules|
  {
    if |rules| > 0 {
      var n := |rules| - 1;
      var before := ApplyRules(fields, rules[..n], re);
      OnlyTargetsChange(fields, rules[..n], re);
      RuleChangesTarget(before, rules[n], re);
      TargetsSnoc(rules);
      assert ApplyRules(fields, rules, re) == ApplyRule(before, rules[n], re);
    }
  }

  lemma TargetsSnoc(rules: seq<Rule>)
    requires |rules| > 0
    ensures Targets(rules) == Targets(rules[..|rules| - 1]) + {rules[|rules| - 1].target}
  {
    var n := |rules| - 1;
    forall t | t in Targets(rules)
      ensures t in Targets(rules[..n]) + {rules[n].target}
    {
      var i :| 0 <= i < |rules| && rules[i].target == t;
      if i < n {
        assert rules[..n][i] == rules[i];
      }
    }
  }

  /** The entries a record had keep their places, in order, and the fields
      the rules add come after them. */
  lemma {:induction false} KeepsOrder(fields: seq<Field>, rules: seq<Rule>, re: Engine)
    ensures var r := ApplyRules(fields, rules, re);
      |fields| <= |r| && forall i :: 0 <= i < |fields| ==> r[i].key == fields[i].key
    decreases |rules|
  {
    if |rules| > 0 {
      var n := |rules| - 1;
      KeepsOrder(fields, rules[..n], re);
    }
  }

  /** Running two lists of rules one after the other is running their
      concatenation. */
  lemma {:induction false} ApplyRulesAppend(fields: seq<Field>, a: seq<Rule>, b: seq<Rule>, re: Engine)
    ensures ApplyRules(fields, a + b, re) == ApplyRules(ApplyRules(fields, a, re), b, re)
    decreases |b|
  {
    if |b| == 0 {
      assert a + b == a;
    } else {
      var n := |b| - 1;
      assert (a + b)[..|a + b| - 1] == a + b[..n];
      ApplyRulesAppend(fields, a, b[..n], re);
    }
  }

  /** A later rule sees what an earlier one wrote: when the first rule
      fires and writes the field the second one reads, the second one
      matches against the written text. */
  lemma LaterSeesEarlier(fields: seq<Field>, r1: Rule, r2: Rule, re: Engine)
    requires Fires(fields, r1, re) && r2.key == r1.target
    ensures var written := re.gsub(Get(fields, r1.key).value, r1.pattern, r1.to);
      var r := ApplyRules(fields, [r1, r2], re);
      re.matches(r2.pattern, written) ==> Get(r, r2.target) == Some(re.gsub(written, r2.pattern, r2.to))
  {
    assert [r1, r2][..1] == [r1];
    assert [r1][..0] == [];
    var f1 := ApplyRule(fields, r1, re);
    var written := re.gsub(Get(fields, r1.key).value, r1.pattern, r1.to);
    assert ApplyRules(fields, [r1], re) == f1;
    assert ApplyRules(fields, [r1, r2], re) == ApplyRule(f1, r2, re);
    PutGet(fields, r1.target, written);
    if re.matches(r2.pattern, written) {
      PutGet(f1, r2.target, re.gsub(written, r2.pattern, r2.to));
    }
  }

  /** A record: a Hash updated in place. */
  class Record {
    var fields: seq<Field>

    constructor (fields: seq<Field>)
      ensures this.fields == fields
    {
      this.fields := fields;
    }
  }

  /** `filter`: each rule in turn, writing into the record, which is
      returned. */
  method Filter(rules: seq<Rule>, record: Record, re: Engine) returns (r: Record)
    modifies record
    ensures r == record
    ensures record.fields == ApplyRules(old(record.fields), rules, re)
  {
    ghost var start := record.fields;
    var i := 0;
    while i < |rules|
      invariant 0 <= i <= |rules|
      invariant record.fields == ApplyRules(start, rules[..i], re)
    {
      var rule := rules[i];
      var value := Get(record.fields, rule.key);
      if value.Some? && re.matches(rule.pattern, value.value) {
        record.fields := Put(record.fields, rule.target, re.gsub(value.value, rule.pattern, rule.to));
      }
      assert rules[..i + 1][..i] == rules[..i];
      i := i + 1;
    }
    assert rules[..i] == rules;
    r := record;
  }
}
