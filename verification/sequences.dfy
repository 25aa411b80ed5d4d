/**
 * The two array operations the pipeline is built from: `Array.prototype.filter`
 * and `Array.prototype.find`, both with a side-effect-free callback.
 */
module Sequences {
  import opened Wrappers

  /** `s.filter(p)`: the elements of `s` that satisfy `p`, in their original order. */
  function Filter<T(!new)>(s: seq<T>, p: T -> bool): (r: seq<T>)
    ensures |r| <= |s|
    ensures forall x :: x in r <==> x in s && p(x)
  {
    if s == [] then []
    else (if p(s[0]) then [s[0]] else []) + Filter(s[1..], p)
  }

  /** `x` is the first element of `s` that satisfies `p`. */
  predicate IsFirst<T(==)>(s: seq<T>, p: T -> bool, x: T) {
    exists k :: 0 <= k < |s| && s[k] == x && p(x) && forall j :: 0 <= j < k ==> !p(s[j])
  }

  /**
   * `s.find(p)`: the first element of `s` that satisfies `p`, or nothing
   * (`undefined`) when no element does.
   */
  function Find<T(!new)>(s: seq<T>, p: T -> bool): (r: Option<T>)
    ensures r.None? <==> forall k :: 0 <= k < |s| ==> !p(s[k])
    ensures r.Some? ==> IsFirst(s, p, r.value)
  {
    if s == [] then None
    else if p(s[0]) then Some(s[0])
    else
      var r := Find(s[1..], p);
      assert r.Some? ==> exists k :: 0 <= k < |s[1..]| && s[1..][k] == r.value && p(r.value) &&
                                     forall j :: 0 <= j < k ==> !p(s[1..][j]);
      assert r.Some? ==> exists k :: 1 <= k < |s| && s[k] == r.value && p(r.value) &&
                                     forall j :: 0 <= j < k ==> !p(s[j]) by {
        if r.Some? {
          var k :| 0 <= k < |s[1..]| && s[1..][k] == r.value && p(r.value) &&
                   forall j :: 0 <= j < k ==> !p(s[1..][j]);
          assert forall j :: 1 <= j < k + 1 ==> !p(s[j]) by {
            forall j | 1 <= j < k + 1 ensures !p(s[j]) {
              assert s[j] == s[1..][j - 1];
            }
          }
        }
      }
      r
  }
}
