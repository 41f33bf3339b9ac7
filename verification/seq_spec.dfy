/** Reference definitions the default algorithms are proved against. Each is
    written independently of the loops that compute it. */
module SeqSpec {

  /** The elements of `s` in the opposite order. */
  function Reverse<T>(s: seq<T>): (r: seq<T>)
    ensures |r| == |s|
    ensures forall k :: 0 <= k < |s| ==> r[k] == s[|s| - 1 - k]
  {
    if s == [] then [] else Reverse(s[1..]) + [s[0]]
  }

  /** `that` occurs in `s` starting at position `offset`. A negative offset never
      matches; an empty `that` matches at every non-negative offset, including
      offsets past the end of `s`. */
  predicate StartsAt<T(==)>(s: seq<T>, that: seq<T>, offset: int)
  {
    && offset >= 0
    && (that == [] || (offset + |that| <= |s| && s[offset..offset + |that|] == that))
  }

  /** `that` is a suffix of `s`. */
  predicate EndsAt<T(==)>(s: seq<T>, that: seq<T>)
  {
    |that| <= |s| && s[|s| - |that|..] == that
  }

  /** The greatest index of `s` whose element satisfies `p`, or -1 when there is
      none. Defined by peeling elements off the end of `s`. */
  function LastMatch<T>(s: seq<T>, p: T -> bool): (r: int)
    ensures -1 <= r < |s|
    ensures r >= 0 ==> p(s[r])
    ensures forall k :: r < k < |s| ==> !p(s[k])
  {
    if s == [] then -1
    else if p(s[|s| - 1]) then |s| - 1
    else LastMatch(s[..|s| - 1], p)
  }

  /** The characterisation of `LastMatch` determines it: any index with the same
      three properties is `LastMatch` itself. */
  lemma LastMatchUnique<T>(s: seq<T>, p: T -> bool, r: int)
    requires -1 <= r < |s|
    requires r >= 0 ==> p(s[r])
    requires forall k :: r < k < |s| ==> !p(s[k])
    ensures r == LastMatch(s, p)
  {
  }

  /** A suffix test is a prefix test on the reversed sequences. */
  lemma {:induction false} EndsAtIsReversedStartsAt<T>(s: seq<T>, that: seq<T>)
    ensures EndsAt(s, that) <==> StartsAt(Reverse(s), Reverse(that), 0)
  {
    var rs, rt := Reverse(s), Reverse(that);
    var n, m := |s|, |that|;
    if m <= n {
      if EndsAt(s, that) {
        forall k | 0 <= k < m
          ensures rs[k] == rt[k]
        {
          assert s[n - m..][m - 1 - k] == that[m - 1 - k];
        }
        assert rs[0..m] == rt;
      }
      if StartsAt(rs, rt, 0) && that != [] {
        forall k | 0 <= k < m
          ensures s[n - m..][k] == that[k]
        {
          assert rs[0..m][m - 1 - k] == rt[m - 1 - k];
        }
        assert s[n - m..] == that;
      }
    }
  }
}
