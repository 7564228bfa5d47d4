/** Order-preserving selection from a sequence. */
module Seqs {

  /** `s` is `t` with some elements deleted and the rest kept in their order. */
  predicate IsSubsequence<T(==)>(s: seq<T>, t: seq<T>)
    decreases |t|
  {
    if s == [] then true
    else if t == [] then false
    else if s[0] == t[0] && IsSubsequence(s[1..], t[1..]) then true
    else IsSubsequence(s, t[1..])
  }

  /** A subsequence is no longer than the sequence it is taken from, and keeps only its elements. */
  lemma {:induction false} SubsequenceBounds<T>(s: seq<T>, t: seq<T>)
    requires IsSubsequence(s, t)
    ensures |s| <= |t|
    ensures multiset(s) <= multiset(t)
    decreases |t|
  {
    if s != [] {
      assert t != [];
      if s[0] == t[0] && IsSubsequence(s[1..], t[1..]) {
        SubsequenceBounds(s[1..], t[1..]);
        assert s == [s[0]] + s[1..] && t == [t[0]] + t[1..];
      } else {
        SubsequenceBounds(s, t[1..]);
        assert t == [t[0]] + t[1..];
      }
    }
  }
}
