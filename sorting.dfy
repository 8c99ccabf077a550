/** Ordering of strings as Go's `<` orders them, the sorted key list of a
    string set, and the in-place sort behind `sort.Strings` and `sort.Sort`. */
module Sorting {

  /** Lexicographic order on code points. For valid UTF-8 this is the byte
      order Go's string comparison uses. */
  predicate StrLe(a: string, b: string)
  {
    |a| == 0 || (|b| > 0 && (a[0] < b[0] || (a[0] == b[0] && StrLe(a[1..], b[1..]))))
  }

  lemma {:induction false} StrLeRefl(a: string)
    ensures StrLe(a, a)
  {
    if |a| > 0 { StrLeRefl(a[1..]); }
  }

  lemma {:induction false} StrLeAntisym(a: string, b: string)
    requires StrLe(a, b) && StrLe(b, a)
    ensures a == b
  {
    if |a| > 0 && |b| > 0 { StrLeAntisym(a[1..], b[1..]); }
  }

  lemma {:induction false} StrLeTotal(a: string, b: string)
    ensures StrLe(a, b) || StrLe(b, a)
  {
    if |a| > 0 && |b| > 0 { StrLeTotal(a[1..], b[1..]); }
  }

  lemma {:induction false} StrLeTrans(a: string, b: string, c: string)
    requires StrLe(a, b) && StrLe(b, c)
    ensures StrLe(a, c)
  {
    if |a| > 0 && |b| > 0 && |c| > 0 && a[0] == b[0] && b[0] == c[0] {
      StrLeTrans(a[1..], b[1..], c[1..]);
    }
  }

  /** `le` is a total preorder: the contract `sort.Sort` needs from `Less`. */
  ghost predicate TotalPreorder<T(!new)>(le: (T, T) -> bool)
  {
    (forall x, y :: le(x, y) || le(y, x)) &&
    (forall x, y, z :: le(x, y) && le(y, z) ==> le(x, z))
  }

  lemma StrLeIsTotalPreorder()
    ensures TotalPreorder(StrLe)
  {
    forall x, y ensures StrLe(x, y) || StrLe(y, x) { StrLeTotal(x, y); }
    forall x, y, z | StrLe(x, y) && StrLe(y, z) ensures StrLe(x, z) { StrLeTrans(x, y, z); }
  }

  predicate SortedBy<T>(s: seq<T>, le: (T, T) -> bool)
  {
    forall i, j :: 0 <= i < j < |s| ==> le(s[i], s[j])
  }

  /** Strictly ascending: sorted and free of duplicates. */
  predicate Ascending(s: seq<string>)
  {
    forall i, j :: 0 <= i < j < |s| ==> StrLe(s[i], s[j]) && s[i] != s[j]
  }

  predicate IsLeast(k: string, s: set<string>)
  {
    k in s && forall x :: x in s ==> StrLe(k, x)
  }

  lemma {:induction false} LeastWitness(s: set<string>) returns (k: string)
    requires s != {}
    ensures IsLeast(k, s)
    decreases |s|
  {
    var y :| y in s;
    if s == {y} {
      StrLeRefl(y);
      k := y;
    } else {
      var m := LeastWitness(s - {y});
      StrLeTotal(y, m);
      if StrLe(y, m) {
        forall x | x in s ensures StrLe(y, x) {
          if x == y { StrLeRefl(y); } else { StrLeTrans(y, m, x); }
        }
        k := y;
      } else {
        k := m;
      }
    }
  }

  lemma LeastExists(s: set<string>)
    requires s != {}
    ensures exists k :: IsLeast(k, s)
  {
    var k := LeastWitness(s);
  }

  lemma LeastUnique()
    ensures forall a, b, s :: IsLeast(a, s) && IsLeast(b, s) ==> a == b
  {
    forall a, b, s | IsLeast(a, s) && IsLeast(b, s) ensures a == b { StrLeAntisym(a, b); }
  }

  /** The keys of a Go map in the order `sort.Strings` leaves them: every key
      once, ascending. */
  function SortedSeq(s: set<string>): (r: seq<string>)
    ensures Ascending(r)
    ensures |r| == |s|
    ensures forall x :: x in r <==> x in s
    decreases |s|
  {
    if s == {} then []
    else
      LeastExists(s);
      LeastUnique();
      var k :| IsLeast(k, s);
      var rest := SortedSeq(s - {k});
      AscendingCons(k, s, rest);
      [k] + rest
  }

  lemma AscendingCons(k: string, s: set<string>, rest: seq<string>)
    requires IsLeast(k, s) && Ascending(rest)
    requires forall x :: x in rest <==> x in s - {k}
    ensures Ascending([k] + rest)
    ensures forall x :: x in [k] + rest <==> x in s
  {
    forall i, j | 0 <= i < j < |rest| + 1 ensures StrLe(([k] + rest)[i], ([k] + rest)[j]) && ([k] + rest)[i] != ([k] + rest)[j] {
      assert ([k] + rest)[j] == rest[j - 1] && rest[j - 1] in rest;
      if i > 0 { assert ([k] + rest)[i] == rest[i - 1]; }
    }
  }

  /** An ascending sequence is determined by its elements: whichever way a
      set is listed, sorting it yields `SortedSeq`. */
  lemma {:induction false} AscendingUnique(a: seq<string>, b: seq<string>)
    requires Ascending(a) && Ascending(b)
    requires forall x :: x in a <==> x in b
    ensures a == b
    decreases |a|
  {
    assert |a| > 0 ==> a[0] in b;
    assert |b| > 0 ==> b[0] in a;
    if |a| > 0 && |b| > 0 {
      assert a[0] in b;
      assert b[0] in a;
      var i :| 0 <= i < |b| && b[i] == a[0];
      var j :| 0 <= j < |a| && a[j] == b[0];
      assert StrLe(a[0], b[0]) by { if j > 0 { } else { StrLeRefl(a[0]); } }
      assert StrLe(b[0], a[0]) by { if i > 0 { } else { StrLeRefl(b[0]); } }
      StrLeAntisym(a[0], b[0]);
      forall x ensures x in a[1..] <==> x in b[1..] {
        if x in a[1..] {
          var p :| 0 <= p < |a| - 1 && a[1..][p] == x;
          assert x != a[0] && x in b;
          var q :| 0 <= q < |b| && b[q] == x;
          assert q > 0 && b[1..][q - 1] == x;
        }
        if x in b[1..] {
          var p :| 0 <= p < |b| - 1 && b[1..][p] == x;
          assert x != b[0] && x in a;
          var q :| 0 <= q < |a| && a[q] == x;
          assert q > 0 && a[1..][q - 1] == x;
        }
      }
      AscendingUnique(a[1..], b[1..]);
      assert a == [a[0]] + a[1..];
      assert b == [b[0]] + b[1..];
    }
  }

  /** Insertion sort by adjacent swaps: sorted by `le`, and a permutation of
      the input. `sort.Sort` is not stable, so any such order is one it may
      produce. */
  method InsertionSort<T(!new)>(a: array<T>, le: (T, T) -> bool)
    requires TotalPreorder(le)
    modifies a
    ensures SortedBy(a[..], le)
    ensures multiset(a[..]) == old(multiset(a[..]))
  {
    if a.Length == 0 { return; }
    var i := 1;
    while i < a.Length
      invariant 1 <= i <= a.Length
      invariant SortedBy(a[..i], le)
      invariant multiset(a[..]) == old(multiset(a[..]))
    {
      Sink(a, i, le);
      i := i + 1;
    }
    assert a[..] == a[..a.Length];
  }

  /** Moves `a[i]` left past every larger element of the sorted prefix. */
  method Sink<T(!new)>(a: array<T>, i: nat, le: (T, T) -> bool)
    requires TotalPreorder(le)
    requires i < a.Length && SortedBy(a[..i], le)
    modifies a
    ensures SortedBy(a[..i + 1], le)
    ensures multiset(a[..]) == old(multiset(a[..]))
  {
    var j := i;
    while j > 0 && !le(a[j - 1], a[j])
      invariant 0 <= j <= i
      invariant forall k, l :: 0 <= k < l <= i && k != j && l != j ==> le(a[k], a[l])
      invariant forall l :: j < l <= i ==> le(a[j], a[l])
      invariant forall k, l :: 0 <= k < j < l <= i ==> le(a[k], a[l])
      invariant multiset(a[..]) == old(multiset(a[..]))
    {
      a[j - 1], a[j] := a[j], a[j - 1];
      j := j - 1;
    }
    forall k | 0 <= k < j ensures le(a[k], a[j]) {
      if k < j - 1 { assert le(a[k], a[j - 1]); }
    }
  }

  /** `sort.Strings`: the one sorted order of the strings. */
  method SortStrings(a: array<string>)
    modifies a
    ensures SortedBy(a[..], StrLe)
    ensures multiset(a[..]) == old(multiset(a[..]))
    ensures a[..] == SortSeq(old(a[..]))
  {
    StrLeIsTotalPreorder();
    InsertionSort(a, StrLe);
    SortedUnique(a[..], SortSeq(old(a[..])));
  }

  /** Inserts `x` before the first element it does not follow. */
  function Insert(x: string, s: seq<string>): (r: seq<string>)
    ensures |r| == |s| + 1
    ensures multiset(r) == multiset(s) + multiset{x}
    ensures SortedBy(s, StrLe) ==> SortedBy(r, StrLe)
    decreases |s|
  {
    if |s| == 0 then [x]
    else if StrLe(x, s[0]) then
      InsertHead(x, s);
      [x] + s
    else
      var rest := Insert(x, s[1..]);
      InsertTail(x, s, rest);
      [s[0]] + rest
  }

  /** Every element of `s` follows `y`. */
  predicate LowerBound(y: string, s: seq<string>)
  {
    forall j :: 0 <= j < |s| ==> StrLe(y, s[j])
  }

  lemma SortedCons(y: string, s: seq<string>)
    requires LowerBound(y, s) && SortedBy(s, StrLe)
    ensures SortedBy([y] + s, StrLe)
  {
    forall i, j | 0 <= i < j < |s| + 1 ensures StrLe(([y] + s)[i], ([y] + s)[j]) {
      if i > 0 { assert ([y] + s)[i] == s[i - 1]; }
      assert ([y] + s)[j] == s[j - 1];
    }
  }

  lemma InsertHead(x: string, s: seq<string>)
    requires |s| > 0 && StrLe(x, s[0])
    ensures SortedBy(s, StrLe) ==> SortedBy([x] + s, StrLe)
  {
    if SortedBy(s, StrLe) {
      forall j | 0 <= j < |s| ensures StrLe(x, s[j]) {
        if j > 0 { StrLeTrans(x, s[0], s[j]); }
      }
      SortedCons(x, s);
    }
  }

  /** A bound of `t` and of `x` bounds any permutation of `t` plus `x`. */
  lemma LowerBoundPerm(y: string, x: string, t: seq<string>, r: seq<string>)
    requires LowerBound(y, t) && StrLe(y, x)
    requires multiset(r) == multiset(t) + multiset{x}
    ensures LowerBound(y, r)
  {
    forall j | 0 <= j < |r| ensures StrLe(y, r[j]) {
      assert r[j] in multiset(r);
      if r[j] != x {
        assert r[j] in multiset(t);
        var k :| 0 <= k < |t| && t[k] == r[j];
      }
    }
  }

  lemma InsertTail(x: string, s: seq<string>, rest: seq<string>)
    requires |s| > 0 && !StrLe(x, s[0])
    requires multiset(rest) == multiset(s[1..]) + multiset{x}
    requires SortedBy(s[1..], StrLe) ==> SortedBy(rest, StrLe)
    ensures multiset([s[0]] + rest) == multiset(s) + multiset{x}
    ensures SortedBy(s, StrLe) ==> SortedBy([s[0]] + rest, StrLe)
  {
    assert s == [s[0]] + s[1..];
    if SortedBy(s, StrLe) {
      StrLeTotal(x, s[0]);
      assert SortedBy(s[1..], StrLe) by {
        forall i, j | 0 <= i < j < |s| - 1 ensures StrLe(s[1..][i], s[1..][j]) {
          assert s[1..][i] == s[i + 1] && s[1..][j] == s[j + 1];
        }
      }
      assert LowerBound(s[0], s[1..]) by {
        forall j | 0 <= j < |s| - 1 ensures StrLe(s[0], s[1..][j]) { assert s[1..][j] == s[j + 1]; }
      }
      LowerBoundPerm(s[0], x, s[1..], rest);
      SortedCons(s[0], rest);
    }
  }

  /** What `sort.Strings` leaves behind, as a function of its input. */
  function SortSeq(s: seq<string>): (r: seq<string>)
    ensures |r| == |s|
    ensures multiset(r) == multiset(s)
    ensures SortedBy(r, StrLe)
    decreases |s|
  {
    if |s| == 0 then []
    else
      var n := |s| - 1;
      assert s == s[..n] + [s[n]];
      Insert(s[n], SortSeq(s[..n]))
  }

  /** Two sorted permutations of each other start with the same string. */
  lemma SortedHeads(a: seq<string>, b: seq<string>)
    requires SortedBy(a, StrLe) && SortedBy(b, StrLe)
    requires multiset(a) == multiset(b) && |a| > 0
    ensures |b| > 0 && a[0] == b[0]
  {
    assert a[0] in multiset(b);
    assert b[0] in multiset(a);
    var i :| 0 <= i < |b| && b[i] == a[0];
    var j :| 0 <= j < |a| && a[j] == b[0];
    assert StrLe(a[0], b[0]) by { if j == 0 { StrLeRefl(a[0]); } }
    assert StrLe(b[0], a[0]) by { if i == 0 { StrLeRefl(b[0]); } }
    StrLeAntisym(a[0], b[0]);
  }

  lemma MultisetTail(a: seq<string>)
    requires |a| > 0
    ensures multiset(a[1..]) == multiset(a) - multiset{a[0]}
  {
    assert a == [a[0]] + a[1..];
  }

  lemma SortedTail(a: seq<string>)
    requires |a| > 0 && SortedBy(a, StrLe)
    ensures SortedBy(a[1..], StrLe)
  {
    forall i, j | 0 <= i < j < |a| - 1 ensures StrLe(a[1..][i], a[1..][j]) {
      assert a[1..][i] == a[i + 1] && a[1..][j] == a[j + 1];
    }
  }

  /** Equal strings are indistinguishable, so the sorted order of a list of
      strings is unique: any sort of it equals `SortSeq`. */
  lemma {:induction false} SortedUnique(a: seq<string>, b: seq<string>)
    requires SortedBy(a, StrLe) && SortedBy(b, StrLe)
    requires multiset(a) == multiset(b)
    ensures a == b
    decreases |a|
  {
    if |a| == 0 {
      assert |b| == |multiset(b)| == 0;
    } else {
      SortedHeads(a, b);
      MultisetTail(a);
      MultisetTail(b);
      SortedTail(a);
      SortedTail(b);
      SortedUnique(a[1..], b[1..]);
      assert a == [a[0]] + a[1..];
      assert b == [b[0]] + b[1..];
    }
  }

  /** A sorted list holding each string at most once is strictly ascending. */
  lemma SortedDistinctAscending(a: seq<string>)
    requires SortedBy(a, StrLe)
    requires forall x :: multiset(a)[x] <= 1
    ensures Ascending(a)
  {
    forall i, j | 0 <= i < j < |a| ensures a[i] != a[j] {
      assert a == a[..j] + a[j..];
      assert multiset(a)[a[j]] == multiset(a[..j])[a[j]] + multiset(a[j..])[a[j]];
      assert a[j..][0] == a[j] && a[..j][i] == a[i];
    }
  }
}
