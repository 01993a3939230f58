/** The two collection lookups the generator relies on: Laravel's
    `Collection::first(callback)` (the first element that matches) and
    `Collection::keyBy(...)[key]` (the last element with a given key wins). */
module Seqs {
  import opened Wrappers

  /** The first element of `s` that satisfies `p`, if any. */
  function FirstWhere<T>(s: seq<T>, p: T -> bool): (r: Option<T>)
    ensures r.None? <==> forall i :: 0 <= i < |s| ==> !p(s[i])
    ensures r.Some? ==> exists i :: 0 <= i < |s| && s[i] == r.value && p(s[i]) &&
                                   forall j :: 0 <= j < i ==> !p(s[j])
  {
    if |s| == 0 then None
    else if p(s[0]) then Some(s[0])
    else
      var r := FirstWhere(s[1..], p);
      assert forall i :: 1 <= i < |s| ==> s[i] == s[1..][i - 1];
      r
  }

  /** The last element of `s` that satisfies `p`, if any. */
  function LastWhere<T>(s: seq<T>, p: T -> bool): (r: Option<T>)
    ensures r.None? <==> forall i :: 0 <= i < |s| ==> !p(s[i])
    ensures r.Some? ==> exists i :: 0 <= i < |s| && s[i] == r.value && p(s[i]) &&
                                   forall j :: i < j < |s| ==> !p(s[j])
  {
    if |s| == 0 then None
    else if p(s[|s| - 1]) then Some(s[|s| - 1])
    else
      var init := s[..|s| - 1];
      var r := LastWhere(init, p);
      assert r.Some? ==> exists i :: 0 <= i < |s| && s[i] == r.value && p(s[i]) &&
                                     forall j :: i < j < |s| ==> !p(s[j]) by {
        if r.Some? {
          var i :| 0 <= i < |init| && init[i] == r.value && p(init[i]) &&
                   forall j :: i < j < |init| ==> !p(init[j]);
          assert s[i] == init[i];
          assert forall j :: i < j < |s| ==> !p(s[j]) by {
            forall j | i < j < |s| ensures !p(s[j]) {
              if j < |s| - 1 { assert s[j] == init[j]; }
            }
          }
        }
      }
      r
  }

  /** Inserting an element that does not match anywhere leaves the first
      match unchanged. */
  lemma {:induction false} FirstWhereSkips<T>(a: seq<T>, x: T, b: seq<T>, p: T -> bool)
    requires !p(x)
    ensures FirstWhere(a + [x] + b, p) == FirstWhere(a + b, p)
  {
    if |a| == 0 {
      assert a + [x] + b == [x] + b;
      assert ([x] + b)[1..] == b;
      assert a + b == b;
    } else {
      assert (a + [x] + b)[0] == a[0] && (a + b)[0] == a[0];
      if !p(a[0]) {
        assert (a + [x] + b)[1..] == a[1..] + [x] + b;
        assert (a + b)[1..] == a[1..] + b;
        FirstWhereSkips(a[1..], x, b, p);
      }
    }
  }

  lemma AppendAssociative<T>(x: seq<T>, y: seq<T>, z: seq<T>)
    ensures x + (y + z) == (x + y) + z
  {
  }

  lemma AppendTail<T>(x: seq<T>, y: seq<T>)
    requires |x| > 0
    ensures (x + y)[0] == x[0] && (x + y)[1..] == x[1..] + y
  {
  }
}
