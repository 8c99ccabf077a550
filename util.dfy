/** The string utilities of the config-reloader: whitespace trimming, safe
    fluentd names, Ruby map literals, sorted map keys and comment stripping. */
module Util {
  import opened Strs
  import opened Sorting

  /** Go's `unicode.IsSpace`: the Latin-1 spaces plus the Unicode White_Space
      code points above Latin-1. */
  predicate IsSpace(c: char)
  {
    c == '\t' || c == '\n' || c == '\U{000B}' || c == '\U{000C}' || c == '\r' || c == ' ' ||
    c == '\U{0085}' || c == '\U{00A0}' || c == '\U{1680}' || ('\U{2000}' <= c <= '\U{200A}') ||
    c == '\U{2028}' || c == '\U{2029}' || c == '\U{202F}' || c == '\U{205F}' || c == '\U{3000}'
  }

  /** Go's `unicode.IsLetter` on Latin-1; code points above U+00FF count as
      non-letters in this model. */
  predicate IsLetter(c: char)
  {
    ('A' <= c <= 'Z') || ('a' <= c <= 'z') || c == '\U{00AA}' || c == '\U{00B5}' || c == '\U{00BA}' ||
    ('\U{00C0}' <= c <= '\U{00D6}') || ('\U{00D8}' <= c <= '\U{00F6}') || ('\U{00F8}' <= c <= '\U{00FF}')
  }

  /** Go's `unicode.IsDigit` on Latin-1. */
  predicate IsDigit(c: char)
  {
    '0' <= c <= '9'
  }

  function TrimLeft(s: string): (r: string)
    ensures |r| <= |s| && r == s[|s| - |r|..]
    ensures forall i :: 0 <= i < |s| - |r| ==> IsSpace(s[i])
    ensures r == [] || !IsSpace(r[0])
    decreases |s|
  {
    if |s| > 0 && IsSpace(s[0]) then TrimLeft(s[1..]) else s
  }

  function TrimRight(s: string): (r: string)
    ensures |r| <= |s| && r == s[..|r|]
    ensures forall i :: |r| <= i < |s| ==> IsSpace(s[i])
    ensures r == [] || !IsSpace(r[|r| - 1])
    decreases |s|
  {
    if |s| > 0 && IsSpace(s[|s| - 1]) then TrimRight(s[..|s| - 1]) else s
  }

  /** `util.Trim` (util.go): strips leading and trailing white space. */
  function Trim(s: string): (r: string)
    ensures r == [] || (!IsSpace(r[0]) && !IsSpace(r[|r| - 1]))
  {
    TrimRight(TrimLeft(s))
  }

  /** Trim removes only white space, and only at the two ends: the result is
      a slice `s[i..j]` with white space before `i` and after `j`. */
  lemma TrimIsInnerSlice(s: string) returns (i: nat, j: nat)
    ensures i <= j <= |s| && Trim(s) == s[i..j]
    ensures forall k :: 0 <= k < i ==> IsSpace(s[k])
    ensures forall k :: j <= k < |s| ==> IsSpace(s[k])
  {
    var l := TrimLeft(s);
    i := |s| - |l|;
    j := i + |TrimRight(l)|;
    assert TrimRight(l) == l[..j - i];
    forall k | j <= k < |s| ensures IsSpace(s[k]) {
      assert s[k] == l[k - i];
    }
  }

  /** A string with no white space at either end is its own trim. */
  lemma {:induction false} TrimUnchanged(s: string)
    requires s == [] || (!IsSpace(s[0]) && !IsSpace(s[|s| - 1]))
    ensures Trim(s) == s
  {
  }

  lemma TrimIdempotent(s: string)
    ensures Trim(Trim(s)) == Trim(s)
  {
    TrimUnchanged(Trim(s));
  }

  /** The runes `MakeFluentdSafeName` keeps. */
  predicate SafeRune(c: char)
  {
    IsLetter(c) || IsDigit(c) || c == '-' || c == '_'
  }

  /** What `MakeFluentdSafeName` computes: one output rune per input rune. */
  function FluentdSafeName(s: string): (r: string)
  {
    seq(|s|, i requires 0 <= i < |s| => if SafeRune(s[i]) then s[i] else '-')
  }

  /** Rune count is kept, only safe runes come out, and safe runes are kept
      in place; so a safe name is a fixed point. */
  lemma FluentdSafeNameProps(s: string)
    ensures |FluentdSafeName(s)| == |s|
    ensures forall i :: 0 <= i < |s| ==> SafeRune(FluentdSafeName(s)[i])
    ensures forall i :: 0 <= i < |s| && SafeRune(s[i]) ==> FluentdSafeName(s)[i] == s[i]
    ensures (forall i :: 0 <= i < |s| ==> SafeRune(s[i])) <==> FluentdSafeName(s) == s
  {
  }

  lemma FluentdSafeNameIdempotent(s: string)
    ensures FluentdSafeName(FluentdSafeName(s)) == FluentdSafeName(s)
  {
    FluentdSafeNameProps(s);
    FluentdSafeNameProps(FluentdSafeName(s));
  }

  /** `util.MakeFluentdSafeName` (util.go): the rune-by-rune buffer loop. */
  method MakeFluentdSafeName(s: string) returns (r: string)
    ensures r == FluentdSafeName(s)
  {
    r := "";
    var i := 0;
    while i < |s|
      invariant 0 <= i <= |s|
      invariant r == FluentdSafeName(s[..i])
    {
      if !IsLetter(s[i]) && !IsDigit(s[i]) && s[i] != '-' && s[i] != '_' {
        r := r + "-";
      } else {
        r := r + [s[i]];
      }
      i := i + 1;
    }
    assert s[..i] == s;
  }

  /** `util.SortedKeys` (util.go): the keys, each once, ascending. */
  method SortedKeys(m: map<string, string>) returns (keys: seq<string>)
    ensures keys == SortedSeq(m.Keys)
  {
    var a := KeysArray(m.Keys);
    SortStrings(a);
    keys := a[..];
    DistinctFromSetMultiset(keys, m.Keys);
    forall x ensures x in keys <==> x in SortedSeq(m.Keys) {
      assert x in keys <==> x in multiset(keys);
    }
    AscendingUnique(keys, SortedSeq(m.Keys));
  }

  /** Copies a key set into a fresh array in whatever order iteration gives. */
  method KeysArray(keys: set<string>) returns (a: array<string>)
    ensures fresh(a) && multiset(a[..]) == multiset(keys)
  {
    a := new string[|keys|];
    var rest := keys;
    ghost var taken: set<string> := {};
    var i := 0;
    while rest != {}
      invariant 0 <= i <= a.Length
      invariant taken + rest == keys && taken !! rest
      invariant |taken| == i && i + |rest| == a.Length
      invariant multiset(a[..i]) == multiset(taken)
    {
      var k :| k in rest;
      ghost var prefix := a[..i];
      a[i] := k;
      assert a[..i + 1] == prefix + [k];
      rest := rest - {k};
      taken := taken + {k};
      i := i + 1;
    }
    assert a[..] == a[..i];
  }

  /** A sorted sequence with the multiset of a set lists each element once. */
  lemma DistinctFromSetMultiset(s: seq<string>, keys: set<string>)
    requires multiset(s) == multiset(keys)
    requires SortedBy(s, StrLe)
    ensures Ascending(s)
  {
    forall i, j | 0 <= i < j < |s| ensures s[i] != s[j] {
      assert s == s[..j] + s[j..];
      assert s[i] in s[..j];
      assert s[j] in s[j..];
      assert multiset(s)[s[j]] == multiset(s[..j])[s[j]] + multiset(s[j..])[s[j]];
    }
  }

  /** One `'k'=>'v'` entry of a Ruby map literal. */
  function RubyEntry(k: string, v: string): string
  {
    "'" + k + "'=>'" + v + "'"
  }

  function RubyEntries(keys: seq<string>, m: map<string, string>): (r: seq<string>)
    requires forall k :: k in keys ==> k in m
    ensures |r| == |keys|
    ensures forall i :: 0 <= i < |keys| ==> r[i] == RubyEntry(keys[i], m[keys[i]])
  {
    if |keys| == 0 then [] else [RubyEntry(keys[0], m[keys[0]])] + RubyEntries(keys[1..], m)
  }

  /** The literal `ToRubyMapLiteral` renders: entries in ascending key order,
      separated by commas, inside braces. */
  function RubyMapLiteral(m: map<string, string>): (r: string)
  {
    "{" + Join(RubyEntries(SortedSeq(m.Keys), m), ",") + "}"
  }

  /** A one-entry map renders as exactly that entry, with no trailing comma. */
  lemma RubyMapLiteralSingle(k: string, v: string)
    ensures RubyMapLiteral(map[k := v]) == "{'" + k + "'=>'" + v + "'}"
  {
    var s := SortedSeq({k});
    assert |s| == 1 && s[0] in {k};
    assert map[k := v].Keys == {k};
  }

  /** `util.ToRubyMapLiteral` (util.go): writes `'k'=>'v',` per sorted key,
      then truncates the last comma and closes the brace. */
  method ToRubyMapLiteral(m: map<string, string>) returns (r: string)
    ensures r == RubyMapLiteral(m)
  {
    if |m| == 0 {
      RubyMapLiteralEmpty(m);
      return "{}";
    }
    var keys := SortedKeys(m);
    var buf := WriteEntries(keys, m);
    TruncatedBuffer(buf, m);
    r := buf[..|buf| - 1] + "}";
  }

  lemma RubyMapLiteralEmpty(m: map<string, string>)
    requires |m| == 0
    ensures RubyMapLiteral(m) == "{}"
  {
    assert m.Keys == {};
  }

  /** Truncating the final comma of the written buffer and closing the brace
      yields the literal. */
  lemma TruncatedBuffer(buf: string, m: map<string, string>)
    requires |m| > 0
    requires buf == "{" + Terminated(RubyEntries(SortedSeq(m.Keys), m), ",")
    ensures |buf| > 0 && buf[..|buf| - 1] + "}" == RubyMapLiteral(m)
  {
    var entries := RubyEntries(SortedSeq(m.Keys), m);
    assert |entries| == |m.Keys| > 0;
    TruncateLast(buf, entries);
  }

  lemma TruncateLast(buf: string, entries: seq<string>)
    requires |entries| > 0 && buf == "{" + Terminated(entries, ",")
    ensures |buf| > 0 && buf[..|buf| - 1] + "}" == "{" + Join(entries, ",") + "}"
  {
    TerminatedJoin(entries, ",");
    var body := "{" + Join(entries, ",");
    assert buf == body + ",";
    assert buf[..|buf| - 1] == body;
  }

  /** The loop of `ToRubyMapLiteral`: the opening brace, then every entry
      followed by a comma. */
  method WriteEntries(keys: seq<string>, m: map<string, string>) returns (buf: string)
    requires forall k :: k in keys ==> k in m
    ensures buf == "{" + Terminated(RubyEntries(keys, m), ",")
  {
    ghost var entries := RubyEntries(keys, m);
    buf := "{";
    var i := 0;
    while i < |keys|
      invariant 0 <= i <= |keys|
      invariant buf == "{" + Terminated(entries[..i], ",")
    {
      WriteStep(buf, entries, i, ",");
      buf := buf + (RubyEntry(keys[i], m[keys[i]]) + ",");
      i := i + 1;
    }
    assert entries[..i] == entries;
  }

  lemma WriteStep(buf: string, entries: seq<string>, i: nat, sep: string)
    requires i < |entries| && buf == "{" + Terminated(entries[..i], sep)
    ensures buf + (entries[i] + sep) == "{" + Terminated(entries[..i + 1], sep)
  {
    assert entries[..i + 1] == entries[..i] + [entries[i]];
    TerminatedSnoc(entries[..i], entries[i], sep);
  }

  /** Every part followed by the separator, as the buffer holds them before
      the final `Truncate`. */
  function Terminated(parts: seq<string>, sep: string): string
  {
    if |parts| == 0 then "" else parts[0] + sep + Terminated(parts[1..], sep)
  }

  lemma {:induction false} TerminatedSnoc(parts: seq<string>, last: string, sep: string)
    ensures Terminated(parts + [last], sep) == Terminated(parts, sep) + last + sep
    decreases |parts|
  {
    if |parts| > 0 {
      assert (parts + [last])[1..] == parts[1..] + [last];
      TerminatedSnoc(parts[1..], last, sep);
    } else {
      assert (parts + [last])[1..] == [];
    }
  }

  /** Dropping the last separator of `Terminated` gives `Join`. */
  lemma {:induction false} TerminatedJoin(parts: seq<string>, sep: string)
    requires |parts| > 0
    ensures Terminated(parts, sep) == Join(parts, sep) + sep
    decreases |parts|
  {
    if |parts| > 1 {
      TerminatedJoin(parts[1..], sep);
    }
  }

  /** `util.TrimTrailingComment` (util.go): cut at the first `#` when it is
      not the first character, then trim. The cut point `k` is the first
      `#`, or the end of a line without one; a line starting with `#` is
      only trimmed. */
  function TrimTrailingComment(line: string): (r: string)
    ensures '#' in r <==> (|line| > 0 && line[0] == '#')
    ensures |line| > 0 && line[0] == '#' ==> r == Trim(line)
    ensures (|line| == 0 || line[0] != '#') ==>
      forall k :: 0 <= k <= |line| && '#' !in line[..k] && (k == |line| || line[k] == '#') ==> r == Trim(line[..k])
  {
    var i := IndexOf(line, '#');
    assert line[..|line|] == line;
    forall k | 0 <= k <= |line| && '#' !in line[..k] && (k == |line| || line[k] == '#')
      ensures k == (if i >= 0 then i else |line|)
    {
      CommentCut(line, k);
    }
    if i > 0 then Trim(line[..i]) else Trim(line)
  }

  /** Only one place is the first `#`, or the end of a line without one. */
  lemma CommentCut(line: string, k: nat)
    requires k <= |line| && '#' !in line[..k] && (k == |line| || line[k] == '#')
    ensures k == (if '#' in line then IndexOf(line, '#') else |line|)
  {
  }

  lemma TrimTrailingCommentNoHash(line: string)
    requires '#' !in line
    ensures TrimTrailingComment(line) == Trim(line)
  {
  }
}
