/** Substring containment on character sequences, the test that `str::contains`
    performs on each line. */
module Substring {

  /** `q` occurs in `s` as a contiguous block starting at index `i`. */
  ghost predicate OccursAt(s: string, q: string, i: int)
  {
    0 <= i && i + |q| <= |s| && s[i..i + |q|] == q
  }

  /** `s` contains `q` as a contiguous substring: `q` is a prefix of some suffix of `s`.
      The empty query is contained in every string, the empty one included. */
  function Contains(s: string, q: string): (b: bool)
    ensures q == [] ==> b
    ensures b ==> |q| <= |s|
    decreases |s|
  {
    q <= s || (s != [] && Contains(s[1..], q))
  }

  /** `Contains` holds exactly when `q` occurs in `s` at some index. */
  lemma {:induction false} ContainsIff(s: string, q: string)
    ensures Contains(s, q) <==> exists i :: OccursAt(s, q, i)
    decreases |s|
  {
    if Contains(s, q) {
      if q <= s {
        assert OccursAt(s, q, 0);
      } else {
        ContainsIff(s[1..], q);
        var j :| OccursAt(s[1..], q, j);
        var found := s[j + 1..j + 1 + |q|];
        assert forall k | 0 <= k < |q| :: found[k] == s[1..][j..j + |q|][k];
        assert OccursAt(s, q, j + 1);
      }
    }
    if i :| OccursAt(s, q, i) {
      if i > 0 {
        assert s[1..][i - 1..i - 1 + |q|] == s[i..i + |q|];
        assert OccursAt(s[1..], q, i - 1);
        ContainsIff(s[1..], q);
      }
    }
  }

  /** A non-empty query whose first character does not appear in `s` is not contained in `s`. */
  lemma NotContainedWithoutFirst(s: string, q: string)
    requires q != [] && q[0] !in s
    ensures !Contains(s, q)
  {
    forall i | 0 <= i && i + |q| <= |s|
      ensures !OccursAt(s, q, i)
    {
      assert s[i..i + |q|][0] == s[i] != q[0];
    }
    ContainsIff(s, q);
  }
}
