/** Facts about sequences shared by the inductions over lines and files. */
module Sequences {
  /** Some element of a non-empty sequence has a property exactly when its
      head or some element of its tail has it. */
  lemma ExistsCons<T>(s: seq<T>, q: T -> bool)
    requires s != []
    ensures (exists i :: 0 <= i < |s| && q(s[i])) <==> q(s[0]) || exists i :: 0 <= i < |s[1..]| && q(s[1..][i])
  {
    if exists i :: 0 <= i < |s| && q(s[i]) {
      var i :| 0 <= i < |s| && q(s[i]);
      if i > 0 {
        assert s[1..][i - 1] == s[i];
      }
    }
    if exists i :: 0 <= i < |s[1..]| && q(s[1..][i]) {
      var i :| 0 <= i < |s[1..]| && q(s[1..][i]);
      assert s[i + 1] == s[1..][i];
    }
  }
}
