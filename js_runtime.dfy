/** The few ECMAScript built-ins the service worker leans on, given their
    language meaning so that the handlers can be modelled as written. */
module JsRuntime {

  /** ToBoolean applied to a number: only 0 is falsy here (NaN never arises,
      since indexOf always returns an integer). In particular -1 is truthy. */
  predicate Truthy(n: int)
  {
    n != 0
  }

  /** The reference meaning of "`s` starts with `p`": `p` is a prefix of `s`. */
  predicate StartsWith(s: string, p: string)
  {
    p <= s
  }

  /** `sub` occurs in `s` beginning at position `k`. */
  predicate OccursAt(s: string, sub: string, k: nat)
  {
    k + |sub| <= |s| && s[k..k + |sub|] == sub
  }

  /** String.prototype.indexOf(sub, from) for a start position within `s`:
      the least position at or after `from` where `sub` occurs in `s`, or -1
      when there is none. */
  function IndexOfFrom(s: string, sub: string, from: nat): (r: int)
    requires from <= |s|
    ensures r == -1 <==> forall j: nat :: from <= j ==> !OccursAt(s, sub, j)
    ensures r != -1 ==> from <= r && OccursAt(s, sub, r)
    ensures r != -1 ==> forall j: nat :: from <= j < r ==> !OccursAt(s, sub, j)
    decreases |s| - from
  {
    if from + |sub| > |s| then -1
    else if s[from..from + |sub|] == sub then
      assert OccursAt(s, sub, from);
      from
    else IndexOfFrom(s, sub, from + 1)
  }

  /** String.prototype.indexOf(sub), searching from the start. */
  function StringIndexOf(s: string, sub: string): (r: int)
  {
    IndexOfFrom(s, sub, 0)
  }

  /** `indexOf` used as a boolean is falsy exactly when the search string
      sits at position 0, i.e. exactly when `s` starts with it. Found at a
      later position, or not found at all (-1), both read as true. */
  lemma IndexOfTruthyIffNotPrefix(s: string, p: string)
    ensures Truthy(StringIndexOf(s, p)) <==> !StartsWith(s, p)
  {
    if StartsWith(s, p) {
      assert OccursAt(s, p, 0);
    }
  }

  /** Array.prototype.indexOf(x) with strict equality: the first position of
      `x` in `xs`, or -1 when `x` is absent. */
  function ArrayIndexOf<T(==)>(xs: seq<T>, x: T): (r: int)
    ensures r == -1 <==> x !in xs
    ensures r != -1 ==> 0 <= r < |xs| && xs[r] == x && x !in xs[..r]
  {
    if xs == [] then -1
    else if xs[0] == x then 0
    else
      var k := ArrayIndexOf(xs[1..], x);
      if k == -1 then -1
      else
        assert xs[..k + 1] == [xs[0]] + xs[1..][..k];
        k + 1
  }
}
