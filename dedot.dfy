/** The `dedot` filter (base-image/plugins/filter_dedot.rb): every `.` in a
    record key is replaced by a separator, recursively through nested hashes
    and through the hashes held directly in arrays. A record is a Ruby hash,
    so its entries keep their insertion order and their keys are distinct. */
module Dedot {
  import opened Wrappers
  import opened Strs

  /** The errors of the pass, as the source words them. */
  const ErrDotSeparator: string := "Invalid de_dot_separator: cannot be or contain '.'"

  /** A record value: a scalar (kept as its text), an array or a hash. */
  datatype Value = Scalar(repr: string) | Arr(items: seq<Value>) | Hash(entries: seq<Entry>)
  datatype Entry = Entry(key: string, value: Value)

  const DefaultSeparator: string := "_"

  // ---------------------------------------------------------------------
  // Keys

  /** `key.gsub(/\./, separator)`. */
  function ReplaceDots(key: string, sep: string): (r: string)
    ensures '.' !in sep ==> '.' !in r
    ensures '.' !in key ==> r == key
    decreases |key|
  {
    if |key| == 0 then ""
    else (if key[0] == '.' then sep else [key[0]]) + ReplaceDots(key[1..], sep)
  }

  lemma {:induction false} ReplaceDotsConcat(a: string, b: string, sep: string)
    ensures ReplaceDots(a + b, sep) == ReplaceDots(a, sep) + ReplaceDots(b, sep)
    decreases |a|
  {
    if |a| == 0 {
      assert a + b == b;
    } else {
      assert (a + b)[1..] == a[1..] + b;
      ReplaceDotsConcat(a[1..], b, sep);
    }
  }

  /** Replacing every dot is splitting at the dots and joining the fields
      with the separator. */
  lemma {:induction false} ReplaceDotsIsSplitJoin(key: string, sep: string)
    ensures ReplaceDots(key, sep) == Join(Split(key, '.'), sep)
    decreases |key|
  {
    var i := IndexOf(key, '.');
    if i >= 0 {
      var rest := key[i + 1..];
      assert key == key[..i] + ("." + rest);
      ReplaceDotsConcat(key[..i], "." + rest, sep);
      assert ("." + rest)[1..] == rest;
      ReplaceDotsIsSplitJoin(rest, sep);
      JoinCons(key[..i], Split(rest, '.'), sep);
    }
  }

  // ---------------------------------------------------------------------
  // Hashes as ordered entries

  /** The position of a key, or -1. */
  function KeyIndex(es: seq<Entry>, k: string): (i: int)
    ensures i == -1 <==> forall j :: 0 <= j < |es| ==> es[j].key != k
    ensures i >= 0 ==> i < |es| && es[i].key == k && forall j :: 0 <= j < i ==> es[j].key != k
    decreases |es|
  {
    if |es| == 0 then -1
    else if es[0].key == k then 0
    else
      var j := KeyIndex(es[1..], k);
      if j < 0 then -1 else j + 1
  }

  /** The first position holding the key is its position. */
  lemma KeyIndexFirst(es: seq<Entry>, k: string, i: nat)
    requires i < |es| && es[i].key == k && forall j :: 0 <= j < i ==> es[j].key != k
    ensures KeyIndex(es, k) == i
  {
    var x := KeyIndex(es, k);
    assert x != -1;
    assert !(x < i);
    assert !(x > i);
  }

  lemma {:induction false} KeyIndexSameKeys(a: seq<Entry>, b: seq<Entry>, k: string)
    requires |a| == |b| && forall i :: 0 <= i < |a| ==> a[i].key == b[i].key
    ensures KeyIndex(a, k) == KeyIndex(b, k)
    decreases |a|
  {
    if |a| > 0 && a[0].key != k {
      KeyIndexSameKeys(a[1..], b[1..], k);
    }
  }

  /** `hash[k]`. */
  function Lookup(es: seq<Entry>, k: string): (r: Option<Value>)
    ensures r.None? <==> forall j :: 0 <= j < |es| ==> es[j].key != k
  {
    var i := KeyIndex(es, k);
    if i < 0 then None else Some(es[i].value)
  }

  predicate UniqueKeys(es: seq<Entry>)
  {
    forall i, j :: 0 <= i < j < |es| ==> es[i].key != es[j].key
  }

  /** `hash[k] = v`: an existing key keeps its place and takes the new
      value, a new key goes last. */
  function Put(es: seq<Entry>, k: string, v: Value): (r: seq<Entry>)
    ensures |r| == |es| || |r| == |es| + 1
  {
    var i := KeyIndex(es, k);
    if i >= 0 then es[i := Entry(k, v)] else es + [Entry(k, v)]
  }

  /** After writing a key, reading it gives the value written and reading
      any other key gives what it gave before. */
  lemma PutLookup(es: seq<Entry>, k: string, v: Value, k': string)
    ensures Lookup(Put(es, k, v), k') == if k' == k then Some(v) else Lookup(es, k')
  {
    var r := Put(es, k, v);
    var i := KeyIndex(es, k);
    if k' == k {
      KeyIndexFirst(r, k, if i >= 0 then i else |es|);
    } else if i >= 0 {
      KeyIndexSameKeys(r, es, k');
    } else {
      var j := KeyIndex(es, k');
      if j >= 0 {
        KeyIndexFirst(r, k', j);
      }
    }
  }

  /** Every entry after the write is the written one or the old one at the
      same place, and keys stay distinct. */
  lemma PutShape(es: seq<Entry>, k: string, v: Value)
    ensures var r := Put(es, k, v);
      forall i :: 0 <= i < |r| ==> r[i] == Entry(k, v) || (i < |es| && r[i] == es[i])
    ensures UniqueKeys(es) ==> UniqueKeys(Put(es, k, v))
  {
  }

  /** What holds of the old entries and of the written one holds of
      every entry after the write. */
  lemma PutKeeps(es: seq<Entry>, e: Entry, P: Entry -> bool)
    requires forall i :: 0 <= i < |es| ==> P(es[i])
    requires P(e)
    ensures forall i :: 0 <= i < |Put(es, e.key, e.value)| ==> P(Put(es, e.key, e.value)[i])
  {
    PutShape(es, e.key, e.value);
  }

  /** A new key is appended. */
  lemma PutNew(es: seq<Entry>, k: string, v: Value)
    requires forall j :: 0 <= j < |es| ==> es[j].key != k
    ensures Put(es, k, v) == es + [Entry(k, v)]
  {
  }

  // ---------------------------------------------------------------------
  // de_dot

  /** The keys a de-dotted value keeps: distinct and dot-free in every
      hash reached through hashes and through arrays held by a hash; an
      array directly inside an array is not looked into. */
  predicate Clean(v: Value)
    decreases v
  {
    match v
    case Scalar(_) => true
    case Hash(es) =>
      UniqueKeys(es) &&
      (forall i :: 0 <= i < |es| ==> '.' !in es[i].key) &&
      (forall i :: 0 <= i < |es| ==> Clean(es[i].value))
    case Arr(items) => forall i :: 0 <= i < |items| && items[i].Hash? ==> Clean(items[i])
  }

  /** A fresh hash filled with `pairs` in order, `hash[k] = v` each. */
  function Build(pairs: seq<Entry>): (r: seq<Entry>)
    ensures |r| <= |pairs|
    decreases |pairs|
  {
    if |pairs| == 0 then []
    else
      var n := |pairs| - 1;
      Put(Build(pairs[..n]), pairs[n].key, pairs[n].value)
  }

  lemma BuildSnoc(pairs: seq<Entry>, i: nat)
    requires i < |pairs|
    ensures Build(pairs[..i + 1]) == Put(Build(pairs[..i]), pairs[i].key, pairs[i].value)
  {
    assert pairs[..i + 1][..i] == pairs[..i];
  }

  /** What the loop of `de_dot` writes for each entry of a hash, in order:
      the replaced key and the de-dotted value. */
  function Renamed(h: Value, sep: string): (r: seq<Entry>)
    requires h.Hash?
    ensures |r| == |h.entries|
    decreases h, 0
  {
    seq(|h.entries|, i requires 0 <= i < |h.entries| =>
      assert h.entries[i] in h.entries;
      Entry(ReplaceDots(h.entries[i].key, sep), DeDotValue(h.entries[i].value, sep)))
  }

  /** The `value.map` over an array: hash elements de-dotted, everything
      else, arrays included, passed through. */
  function DeDotItems(a: Value, sep: string): (r: seq<Value>)
    requires a.Arr?
    ensures |r| == |a.items|
    decreases a, 0
  {
    seq(|a.items|, i requires 0 <= i < |a.items| =>
      assert a.items[i] in a.items;
      if a.items[i].Hash? then DeDotValue(a.items[i], sep) else a.items[i])
  }

  /** A value after de-dotting: a hash is rebuilt from its renamed
      entries, an array has its hash elements de-dotted, a scalar is kept. */
  function DeDotValue(v: Value, sep: string): (r: Value)
    ensures v.Scalar? ==> r == v
    ensures v.Hash? <==> r.Hash?
    ensures v.Arr? <==> r.Arr?
    decreases v, 1
  {
    match v
    case Scalar(_) => v
    case Hash(_) => Hash(Build(Renamed(v, sep)))
    case Arr(_) => Arr(DeDotItems(v, sep))
  }

  /** `de_dot` on a record. */
  function DeDotRecord(record: seq<Entry>, sep: string): (r: seq<Entry>)
    ensures Hash(r) == DeDotValue(Hash(record), sep)
  {
    Build(Renamed(Hash(record), sep))
  }

  /** `de_dot` on a hash: a loop filling a fresh hash, recursing into hash
      and array values. */
  method DeDotHash(h: Value, sep: string) returns (newrecord: seq<Entry>)
    requires h.Hash?
    ensures Hash(newrecord) == DeDotValue(h, sep)
    decreases h, 1
  {
    ghost var pairs := Renamed(h, sep);
    newrecord := [];
    var i := 0;
    while i < |h.entries|
      invariant 0 <= i <= |h.entries|
      invariant newrecord == Build(pairs[..i])
    {
      var e := h.entries[i];
      assert e in h.entries;
      var newkey := ReplaceDots(e.key, sep);
      var value := DeDotField(e.value, sep);
      BuildSnoc(pairs, i);
      newrecord := Put(newrecord, newkey, value);
      i := i + 1;
    }
    assert pairs[..i] == pairs;
  }

  /** The recursion on one value of the hash. */
  method DeDotField(value: Value, sep: string) returns (r: Value)
    ensures r == DeDotValue(value, sep)
    decreases value, 2
  {
    r := value;
    if value.Hash? {
      var es := DeDotHash(value, sep);
      r := Hash(es);
    } else if value.Arr? {
      var items := DeDotArray(value, sep);
      r := Arr(items);
    }
  }

  /** The `value.map` over an array value. */
  method DeDotArray(a: Value, sep: string) returns (items: seq<Value>)
    requires a.Arr?
    ensures Arr(items) == DeDotValue(a, sep)
    decreases a, 0
  {
    items := [];
    var i := 0;
    while i < |a.items|
      invariant 0 <= i <= |a.items|
      invariant items == DeDotItems(a, sep)[..i]
    {
      var v := a.items[i];
      assert v in a.items;
      if v.Hash? {
        var es := DeDotHash(v, sep);
        v := Hash(es);
      }
      items := items + [v];
      i := i + 1;
    }
  }

  // ---------------------------------------------------------------------
  // Filling a fresh hash

  /** The value of the last pair with key `k`. */
  function LastValue(pairs: seq<Entry>, k: string): Option<Value>
    decreases |pairs|
  {
    if |pairs| == 0 then None
    else if pairs[|pairs| - 1].key == k then Some(pairs[|pairs| - 1].value)
    else LastValue(pairs[..|pairs| - 1], k)
  }

  /** Each key ends up holding the value of its last pair. */
  lemma {:induction false} BuildLookup(pairs: seq<Entry>, k: string)
    ensures Lookup(Build(pairs), k) == LastValue(pairs, k)
    decreases |pairs|
  {
    if |pairs| > 0 {
      var n := |pairs| - 1;
      PutLookup(Build(pairs[..n]), pairs[n].key, pairs[n].value, k);
      if pairs[n].key != k {
        BuildLookup(pairs[..n], k);
      }
    }
  }

  /** The last pair of a key decides its value. */
  lemma {:induction false} LastValueAt(pairs: seq<Entry>, j: nat)
    requires j < |pairs|
    requires forall i :: j < i < |pairs| ==> pairs[i].key != pairs[j].key
    ensures LastValue(pairs, pairs[j].key) == Some(pairs[j].value)
    decreases |pairs|
  {
    var n := |pairs| - 1;
    if j < n {
      assert pairs[..n][j] == pairs[j];
      LastValueAt(pairs[..n], j);
    }
  }

  /** The keys of a fresh hash are distinct. */
  lemma {:induction false} BuildUnique(pairs: seq<Entry>)
    ensures UniqueKeys(Build(pairs))
    decreases |pairs|
  {
    if |pairs| > 0 {
      var n := |pairs| - 1;
      BuildUnique(pairs[..n]);
      PutShape(Build(pairs[..n]), pairs[n].key, pairs[n].value);
    }
  }

  /** Every entry of a fresh hash is one of the pairs written, so what
      holds of every pair holds of every entry. */
  lemma {:induction false} BuildKeeps(pairs: seq<Entry>, P: Entry -> bool)
    requires forall i :: 0 <= i < |pairs| ==> P(pairs[i])
    ensures forall i :: 0 <= i < |Build(pairs)| ==> P(Build(pairs)[i])
    decreases |pairs|
  {
    if |pairs| > 0 {
      var n := |pairs| - 1;
      var prev := Build(pairs[..n]);
      BuildKeeps(pairs[..n], P);
      PutKeeps(prev, pairs[n], P);
    }
  }

  /** Pairs with distinct keys fill the hash as they come. */
  lemma {:induction false} BuildDistinct(pairs: seq<Entry>)
    requires UniqueKeys(pairs)
    ensures Build(pairs) == pairs
    decreases |pairs|
  {
    if |pairs| > 0 {
      var n := |pairs| - 1;
      BuildDistinct(pairs[..n]);
      PutNew(pairs[..n], pairs[n].key, pairs[n].value);
      assert pairs[..n] + [pairs[n]] == pairs;
    }
  }

  // ---------------------------------------------------------------------
  // What de_dot keeps

  /** Keys that coincide after the replacement collapse to one entry,
      holding the value of the later one. */
  lemma LaterWins(h: Value, sep: string, j: nat)
    requires h.Hash? && j < |h.entries|
    requires forall i :: j < i < |h.entries| ==>
      ReplaceDots(h.entries[i].key, sep) != ReplaceDots(h.entries[j].key, sep)
    ensures Lookup(DeDotValue(h, sep).entries, ReplaceDots(h.entries[j].key, sep))
      == Some(DeDotValue(h.entries[j].value, sep))
  {
    var pairs := Renamed(h, sep);
    LastValueAt(pairs, j);
    BuildLookup(pairs, pairs[j].key);
  }

  /** When no two keys become the same, the hash keeps its length and its
      order, entry by entry. */
  lemma DeDotInOrder(h: Value, sep: string)
    requires h.Hash?
    requires forall i, j :: 0 <= i < j < |h.entries| ==>
      ReplaceDots(h.entries[i].key, sep) != ReplaceDots(h.entries[j].key, sep)
    ensures var r := DeDotValue(h, sep).entries;
      |r| == |h.entries| &&
      forall i :: 0 <= i < |r| ==>
        r[i] == Entry(ReplaceDots(h.entries[i].key, sep), DeDotValue(h.entries[i].value, sep))
  {
    BuildDistinct(Renamed(h, sep));
  }

  /** With a separator free of dots, a de-dotted value is clean. */
  lemma {:induction false} DeDotClean(v: Value, sep: string)
    requires '.' !in sep
    ensures Clean(DeDotValue(v, sep))
    decreases v
  {
    match v
    case Scalar(_) =>
    case Hash(es) =>
      var pairs := Renamed(v, sep);
      forall i | 0 <= i < |pairs|
        ensures '.' !in pairs[i].key && Clean(pairs[i].value)
      {
        assert es[i] in es;
        DeDotClean(es[i].value, sep);
      }
      BuildKeeps(pairs, (e: Entry) => '.' !in e.key && Clean(e.value));
      BuildUnique(pairs);
    case Arr(items) =>
      var r := DeDotItems(v, sep);
      forall i | 0 <= i < |r| && r[i].Hash?
        ensures Clean(r[i])
      {
        assert items[i] in items;
        DeDotClean(items[i], sep);
      }
  }

  /** A clean value is left as it is. */
  lemma {:induction false} CleanUnchanged(v: Value, sep: string)
    requires Clean(v)
    ensures DeDotValue(v, sep) == v
    decreases v
  {
    match v
    case Scalar(_) =>
    case Hash(es) =>
      var pairs := Renamed(v, sep);
      forall i | 0 <= i < |es|
        ensures pairs[i] == es[i]
      {
        assert es[i] in es;
        CleanUnchanged(es[i].value, sep);
      }
      assert pairs == es;
      BuildDistinct(es);
    case Arr(items) =>
      forall i | 0 <= i < |items| && items[i].Hash?
        ensures DeDotValue(items[i], sep) == items[i]
      {
        assert items[i] in items;
        CleanUnchanged(items[i], sep);
      }
      assert DeDotItems(v, sep) == items;
  }

  /** With a separator free of dots, de-dotting twice is de-dotting once. */
  lemma DeDotIdempotent(v: Value, sep: string)
    requires '.' !in sep
    ensures DeDotValue(DeDotValue(v, sep), sep) == DeDotValue(v, sep)
  {
    DeDotClean(v, sep);
    CleanUnchanged(DeDotValue(v, sep), sep);
  }

  /** A hash inside an array inside an array keeps its dotted keys. */
  lemma ArrayInArrayKeepsDots(sep: string, inner: Value)
    requires inner == Arr([Hash([Entry("a.b", Scalar("1"))])])
    ensures DeDotValue(Arr([inner]), sep) == Arr([inner])
  {
    assert DeDotItems(Arr([inner]), sep) == [inner];
  }

  // ---------------------------------------------------------------------
  // configure and filter

  datatype Settings = Settings(deDot: bool, separator: string)

  /** `configure`: a separator holding a dot is refused while de_dot is on. */
  function Configure(deDot: bool, separator: string): (r: Result<Settings>)
    ensures r.Err? <==> deDot && '.' in separator
    ensures r.Err? ==> r.msg == ErrDotSeparator
    ensures r.Ok? ==> r.value == Settings(deDot, separator)
  {
    if deDot && '.' in separator then Err(ErrDotSeparator)
    else Ok(Settings(deDot, separator))
  }

  /** `filter` as written: the value of `de_dot(record) if @de_dot`, which
      is nil (`None`, the event is dropped) when de_dot is off. */
  function FilterAsWritten(s: Settings, record: seq<Entry>): (r: Option<seq<Entry>>)
    ensures r.Some? <==> s.deDot
    ensures s.deDot ==> r == Some(DeDotRecord(record, s.separator))
  {
    if s.deDot then Some(DeDotRecord(record, s.separator)) else None
  }

  /** With de_dot off, every event is dropped. */
  lemma DisabledDropsEvents(record: seq<Entry>)
    ensures Configure(false, DefaultSeparator).Ok?
    ensures FilterAsWritten(Configure(false, DefaultSeparator).value, record) == None
  {
  }

  /** `filter` as intended: the record passes unchanged when de_dot is off. */
  function Filter(s: Settings, record: seq<Entry>): (r: seq<Entry>)
    ensures !s.deDot ==> r == record
    ensures s.deDot ==> r == DeDotRecord(record, s.separator)
    ensures s.deDot && '.' !in s.separator ==> Clean(Hash(r))
  {
    if !s.deDot then record
    else if '.' in s.separator then DeDotRecord(record, s.separator)
    else
      DeDotClean(Hash(record), s.separator);
      DeDotRecord(record, s.separator)
  }

  /** A configured filter applied twice gives what it gives once. */
  lemma FilterIdempotent(deDot: bool, separator: string, record: seq<Entry>)
    requires Configure(deDot, separator).Ok?
    ensures var s := Configure(deDot, separator).value;
      Filter(s, Filter(s, record)) == Filter(s, record)
  {
    var s := Configure(deDot, separator).value;
    if deDot {
      DeDotIdempotent(Hash(record), separator);
    }
  }
}
