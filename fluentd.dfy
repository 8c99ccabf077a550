/** The fluentd configuration tree the processors rewrite: a directive has a
    name (`match`, `filter`, `source`, `label`, ...), a tag, parameters and
    nested directives. The parser and serialiser are not part of this model. */
module Fluentd {

  datatype Directive = Directive(name: string, tag: string, params: map<string, string>, nested: Fragment)
  {
    /** `Directive.Param`: the value, or "" when the parameter is absent. */
    function Param(key: string): (v: string)
      ensures key !in params ==> v == ""
      ensures key in params ==> v == params[key]
    {
      if key in params then params[key] else ""
    }

    /** `Directive.Type`: the `@type` parameter, or "". */
    function Type(): (t: string)
      ensures "@type" !in params ==> t == ""
    {
      Param("@type")
    }

    /** `Directive.SetParam`: sets one parameter, nothing else changes. */
    function SetParam(key: string, value: string): (d: Directive)
      ensures d.Param(key) == value
      ensures forall k :: k != key ==> d.Param(k) == Param(k)
      ensures d.name == name && d.tag == tag && d.nested == nested
    {
      this.(params := params[key := value])
    }
  }

  type Fragment = seq<Directive>

  /** Levels of nesting: 1 for a leaf. */
  function Height(d: Directive): nat
    decreases d, 0
  {
    1 + FragHeight(d.nested)
  }

  function FragHeight(f: Fragment): nat
    decreases f, 1
  {
    if |f| == 0 then 0
    else
      var a := Height(f[0]);
      var b := FragHeight(f[1..]);
      if a >= b then a else b
  }

  /** No directive of a fragment is higher than the fragment. */
  lemma {:induction false} HeightWithin(f: Fragment, i: nat)
    requires i < |f|
    ensures Height(f[i]) <= FragHeight(f)
    decreases |f|
  {
    if i > 0 {
      assert f[i] == f[1..][i - 1];
      HeightWithin(f[1..], i - 1);
    }
  }

  lemma FragHeightTail(f: Fragment)
    requires |f| > 0
    ensures FragHeight(f[1..]) <= FragHeight(f)
  {
  }

  /** A fragment whose directives are each at most `h` high is at most `h` high. */
  lemma {:induction false} HeightBound(f: Fragment, h: nat)
    requires forall i :: 0 <= i < |f| ==> Height(f[i]) <= h
    ensures FragHeight(f) <= h
    decreases |f|
  {
    if |f| > 0 {
      assert forall i :: 0 <= i < |f| - 1 ==> f[1..][i] == f[i + 1];
      HeightBound(f[1..], h);
    }
  }

  /** Number of directives in a fragment, at every depth. */
  function Count(f: Fragment): nat
    decreases f
  {
    if |f| == 0 then 0 else 1 + Count(f[0].nested) + Count(f[1..])
  }

  lemma {:induction false} CountAppend(a: Fragment, b: Fragment)
    ensures Count(a + b) == Count(a) + Count(b)
    decreases |a|
  {
    if |a| > 0 {
      assert (a + b)[1..] == a[1..] + b;
      assert (a + b)[0] == a[0];
      CountAppend(a[1..], b);
    } else {
      assert a + b == b;
    }
  }

  /** Is `d` a `<match>` or `<filter>`, the directives that carry a routing tag. */
  predicate IsMatchOrFilter(d: Directive)
  {
    d.name == "match" || d.name == "filter"
  }
}
