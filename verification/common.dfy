/**
 * Small shared vocabulary: an optional value (the model of TypeScript's
 * `T | null | undefined`) and order-preserving filtering of sequences
 * (the model of `Array.prototype.filter`).
 */
module Common {

  /** `None` models both `null` and `undefined`. */
  datatype Option<+T> = None | Some(value: T) {
    function GetOr(default: T): T {
      match this
      case Some(v) => v
      case None => default
    }
  }

  /** A value or an error, for operations that throw in the original code. */
  datatype Result<+T, +E> = Ok(value: T) | Err(error: E)

  /** JavaScript truthiness of an optional string: `null`, `undefined` and `""` are falsy. */
  predicate Truthy(s: Option<string>) {
    s.Some? && s.value != ""
  }

  /** `xs` can be obtained from `ys` by deleting elements, keeping the order of the rest. */
  predicate IsSubsequence<T(==)>(xs: seq<T>, ys: seq<T>)
    decreases |ys|
  {
    if |xs| == 0 then true
    else if |ys| == 0 then false
    else if xs[0] == ys[0] then IsSubsequence(xs[1..], ys[1..])
    else IsSubsequence(xs, ys[1..])
  }

  /** `Array.prototype.filter`: the elements of `s` that satisfy `keep`, in their original order. */
  function Filter<T(==)>(s: seq<T>, keep: T -> bool): (r: seq<T>)
    ensures |r| <= |s|
    ensures forall i :: 0 <= i < |r| ==> r[i] in s && keep(r[i])
    ensures forall i :: 0 <= i < |s| && keep(s[i]) ==> s[i] in r
    ensures IsSubsequence(r, s)
    decreases |s|
  {
    if |s| == 0 then []
    else if keep(s[0]) then [s[0]] + Filter(s[1..], keep)
    else Filter(s[1..], keep)
  }

  /** Two tests that agree on every element of `s` keep the same elements. */
  lemma {:induction false} FilterCongruent<T>(s: seq<T>, keep1: T -> bool, keep2: T -> bool)
    requires forall i :: 0 <= i < |s| ==> keep1(s[i]) == keep2(s[i])
    ensures Filter(s, keep1) == Filter(s, keep2)
    decreases |s|
  {
    if |s| > 0 {
      FilterCongruent(s[1..], keep1, keep2);
    }
  }

  /** Keeping everything changes nothing. */
  lemma {:induction false} FilterKeepsAll<T>(s: seq<T>, keep: T -> bool)
    requires forall i :: 0 <= i < |s| ==> keep(s[i])
    ensures Filter(s, keep) == s
    decreases |s|
  {
    if |s| > 0 {
      FilterKeepsAll(s[1..], keep);
      assert [s[0]] + s[1..] == s;
    }
  }

  /** Membership in a filtered sequence, both directions. */
  lemma FilterMembership<T>(s: seq<T>, keep: T -> bool)
    ensures forall x :: x in Filter(s, keep) <==> x in s && keep(x)
  {
    var r := Filter(s, keep);
    forall x | x in r ensures x in s && keep(x) {
      var k :| 0 <= k < |r| && r[k] == x;
    }
    forall x | x in s && keep(x) ensures x in r {
      var k :| 0 <= k < |s| && s[k] == x;
    }
  }
}
