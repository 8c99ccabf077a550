/** The post-processing of the `logfmt` parser
    (image/plugins/parser_logfmt.rb): the tokenizer's record is checked in
    strict mode, converted, and its time field is taken out. The tokenizer
    itself (`Logfmt.parse`), the type converters and the engine clock are
    parameters. */
module Logfmt {
  import opened Wrappers
  import opened Strs

  /** A value the tokenizer produces: `true` for a bare key, a string or an
      integer. */
  datatype LValue = LTrue | LStr(s: string) | LInt(i: int)

  datatype Field = Field(key: string, value: LValue)

  /** What `parse` does: yield one (time, record) pair, or raise. */
  datatype Outcome = Yielded(time: int, record: seq<Field>) | Raised(msg: string)

  // ---------------------------------------------------------------------
  // String#to_i

  predicate IsDigit(c: char)
  {
    '0' <= c <= '9'
  }

  predicate IsRubySpace(c: char)
  {
    c == ' ' || c == '\t' || c == '\n' || c == '\r' || c == '\U{B}' || c == '\U{C}'
  }

  /** The longest run of digits at the front. */
  function LeadingDigits(s: string): (r: string)
    ensures HasPrefix(s, r)
    ensures forall i :: 0 <= i < |r| ==> IsDigit(r[i])
    ensures |r| < |s| ==> !IsDigit(s[|r|])
    decreases |s|
  {
    if |s| > 0 && IsDigit(s[0]) then [s[0]] + LeadingDigits(s[1..]) else ""
  }

  lemma {:induction false} LeadingDigitsAll(s: string)
    requires forall i :: 0 <= i < |s| ==> IsDigit(s[i])
    ensures LeadingDigits(s) == s
    decreases |s|
  {
    if |s| > 0 {
      LeadingDigitsAll(s[1..]);
    }
  }

  function SkipSpaces(s: string): (r: string)
    ensures |r| <= |s| && r == s[|s| - |r|..]
    ensures |r| == 0 || !IsRubySpace(r[0])
    decreases |s|
  {
    if |s| > 0 && IsRubySpace(s[0]) then SkipSpaces(s[1..]) else s
  }

  /** `String#to_i`: leading white space, an optional sign and the digits
      that follow; anything else reads as 0. */
  function ToI(s: string): int
  {
    var t := SkipSpaces(s);
    if |t| > 0 && t[0] == '-' then -(DecimalValue(LeadingDigits(t[1..])) as int)
    else if |t| > 0 && t[0] == '+' then DecimalValue(LeadingDigits(t[1..]))
    else DecimalValue(LeadingDigits(t))
  }

  /** `to_i` reads back what decimal printing writes. */
  lemma ToIDecimal(n: nat)
    ensures ToI(DecimalString(n)) == n
  {
    var d := DecimalString(n);
    assert IsDigit(d[0]);
    assert SkipSpaces(d) == d;
    LeadingDigitsAll(d);
    DecimalRoundTrip(n);
  }

  /** And with a minus sign in front, its negation. */
  lemma ToINegative(n: nat)
    ensures ToI("-" + DecimalString(n)) == -(n as int)
  {
    var d := DecimalString(n);
    var m := "-" + d;
    assert m[0] == '-' && !IsRubySpace(m[0]);
    assert SkipSpaces(m) == m;
    assert m[1..] == d;
    LeadingDigitsAll(d);
    assert LeadingDigits(m[1..]) == d;
    DecimalRoundTrip(n);
  }

  /** `to_i` on a tokenizer value; `true` has none. */
  function TimeOf(v: LValue): (r: Option<int>)
    ensures r.None? <==> v == LTrue
  {
    match v
    case LTrue => None
    case LStr(s) => Some(ToI(s))
    case LInt(i) => Some(i)
  }

  /** The text interpolation of a value that has no `to_i`. */
  function Show(v: LValue): string
    requires v == LTrue
  {
    "true"
  }

  // ---------------------------------------------------------------------
  // The record

  /** `record[k]`. */
  function Get(record: seq<Field>, k: string): (r: Option<LValue>)
    ensures r.None? <==> forall i :: 0 <= i < |record| ==> record[i].key != k
    ensures r.Some? ==> exists i :: 0 <= i < |record| && record[i] == Field(k, r.value)
    decreases |record|
  {
    if |record| == 0 then None
    else if record[0].key == k then Some(record[0].value)
    else Get(record[1..], k)
  }

  /** What `record.delete(k)` leaves: the record without key `k`, the
      others in order. */
  function Without(record: seq<Field>, k: string): (r: seq<Field>)
    ensures forall i :: 0 <= i < |r| ==> r[i].key != k
    ensures forall i :: 0 <= i < |record| && record[i].key != k ==> record[i] in r
    ensures forall f :: f in r ==> f in record
    decreases |record|
  {
    if |record| == 0 then []
    else if record[0].key == k then Without(record[1..], k)
    else [record[0]] + Without(record[1..], k)
  }

  // ---------------------------------------------------------------------
  // parse

  /** The settings `parse` reads. */
  datatype Settings = Settings(strict: bool, converter: Option<seq<Field> -> seq<Field>>, timeKey: Option<string>)

  predicate HasTrue(record: seq<Field>)
  {
    exists i :: 0 <= i < |record| && record[i].value == LTrue
  }

  /** The message of the `RuntimeError` for a time field without `to_i`. */
  function BadTimeField(k: string, v: LValue): string
    requires v == LTrue
  {
    "The " + k + "=" + Show(v) + " is a bad time field"
  }

  lemma BadTimeFieldText(k: string)
    ensures BadTimeField(k, LTrue) == "The " + k + "=true is a bad time field"
  {
    var pre := "The " + k;
    assert "The " + k + "=" + "true" + " is a bad time field" == pre + ("=true is a bad time field");
  }

  /** The time a record yields, and what it becomes. */
  function TakeTime(record: seq<Field>, timeKey: Option<string>, now: int): (o: Outcome)
  {
    if timeKey.None? then Yielded(now, record)
    else
      var time := Get(record, timeKey.value);
      var rest := Without(record, timeKey.value);
      if time.None? then Yielded(now, rest)
      else if time.value == LTrue then Raised(BadTimeField(timeKey.value, time.value))
      else Yielded(TimeOf(time.value).value, rest)
  }

  /** `parse` on the tokenizer's record for `text`. */
  function ParseSpec(text: string, record: seq<Field>, s: Settings, now: int): (o: Outcome)
  {
    if s.strict && HasTrue(record) then Yielded(now, [Field("message", LStr(text))])
    else
      var converted := if s.converter.Some? then s.converter.value(record) else record;
      TakeTime(converted, s.timeKey, now)
  }

  /** The strict check: the `each` loop that stops at the first `true`. */
  method StrictReject(record: seq<Field>) returns (found: bool)
    ensures found <==> HasTrue(record)
  {
    var i := 0;
    while i < |record|
      invariant 0 <= i <= |record|
      invariant forall j :: 0 <= j < i ==> record[j].value != LTrue
    {
      if record[i].value == LTrue {
        return true;
      }
      i := i + 1;
    }
    return false;
  }

  /** `parse`. */
  method Parse(text: string, record: seq<Field>, s: Settings, now: int) returns (o: Outcome)
    ensures o == ParseSpec(text, record, s, now)
  {
    if s.strict {
      var found := StrictReject(record);
      if found {
        return Yielded(now, [Field("message", LStr(text))]);
      }
    }
    var fields := record;
    if s.converter.Some? {
      fields := s.converter.value(fields);
    }
    o := ExtractTime(fields, s.timeKey, now);
  }

  /** The time extraction: `record.delete` takes the field out of the
      record, then its value is read. */
  method ExtractTime(record: seq<Field>, timeKey: Option<string>, now: int) returns (o: Outcome)
    ensures o == TakeTime(record, timeKey, now)
  {
    if timeKey.None? {
      return Yielded(now, record);
    }
    var fields := record;
    var time := Get(fields, timeKey.value);
    fields := Without(fields, timeKey.value);
    if time.None? {
      o := Yielded(now, fields);
    } else if time.value == LTrue {
      o := Raised(BadTimeField(timeKey.value, time.value));
    } else {
      o := Yielded(TimeOf(time.value).value, fields);
    }
  }

  // ---------------------------------------------------------------------
  // What parse promises

  /** In strict mode a bare key makes the whole text the message, at the
      engine time, whatever the converters and the time key. */
  lemma StrictBareKey(text: string, record: seq<Field>, s: Settings, now: int, i: nat)
    requires s.strict && i < |record| && record[i].value == LTrue
    ensures ParseSpec(text, record, s, now) == Yielded(now, [Field("message", LStr(text))])
  {
  }

  /** The time field never reaches the yielded record, and everything else
      the (converted) record holds does. */
  lemma TimeKeyRemoved(text: string, record: seq<Field>, s: Settings, now: int)
    requires !(s.strict && HasTrue(record)) && s.timeKey.Some?
    ensures var o := ParseSpec(text, record, s, now);
      var converted := if s.converter.Some? then s.converter.value(record) else record;
      o.Yielded? ==>
        (forall i :: 0 <= i < |o.record| ==> o.record[i].key != s.timeKey.value) &&
        (forall i :: 0 <= i < |converted| && converted[i].key != s.timeKey.value ==> converted[i] in o.record)
  {
  }

  /** Without a time field the engine time is used; an integer or a string
      gives its `to_i`; a bare `true` raises, naming the key. */
  lemma TimeRule(record: seq<Field>, k: string, now: int)
    ensures Get(record, k).None? ==> TakeTime(record, Some(k), now) == Yielded(now, Without(record, k))
    ensures Get(record, k) == Some(LTrue) ==>
      TakeTime(record, Some(k), now) == Raised("The " + k + "=true is a bad time field")
    ensures forall n :: Get(record, k) == Some(LInt(n)) ==>
      TakeTime(record, Some(k), now) == Yielded(n, Without(record, k))
    ensures forall t :: Get(record, k) == Some(LStr(t)) ==>
      TakeTime(record, Some(k), now) == Yielded(ToI(t), Without(record, k))
  {
    BadTimeFieldText(k);
  }

  /** A raise happens only for a `true` time field. */
  lemma RaisedOnlyForTrue(text: string, record: seq<Field>, s: Settings, now: int)
    requires ParseSpec(text, record, s, now).Raised?
    ensures s.timeKey.Some?
    ensures var converted := if s.converter.Some? then s.converter.value(record) else record;
      Get(converted, s.timeKey.value) == Some(LTrue)
  {
  }
}
