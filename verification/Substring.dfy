/** Python's `p in s` on strings. */
module Substring {
  predicate OccursAt(s: string, p: string, i: nat)
    requires i + |p| <= |s|
  {
    s[i..i + |p|] == p
  }

  predicate Occurs(s: string, p: string) {
    exists i | 0 <= i <= |s| - |p| :: OccursAt(s, p, i)
  }

  lemma {:induction false} OccursMeans(s: string, p: string)
    ensures Occurs(s, p) <==> exists i, j :: 0 <= i <= j <= |s| && s[i..j] == p
  {
    if Occurs(s, p) {
      var i :| 0 <= i <= |s| - |p| && OccursAt(s, p, i);
      assert s[i..i + |p|] == p;
    }
    if exists i, j :: 0 <= i <= j <= |s| && s[i..j] == p {
      var i, j :| 0 <= i <= j <= |s| && s[i..j] == p;
      assert OccursAt(s, p, i);
    }
  }
}
