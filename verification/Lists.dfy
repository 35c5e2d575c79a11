/** Linked lists as sequences: the head of the list is index 0. */
module Lists {
  datatype Option<+T> = None | Some(value: T)

  ghost predicate NoDup<T>(s: seq<T>) {
    forall i, j | 0 <= i < j < |s| :: s[i] != s[j]
  }

  /** list_del: take the entry x out. */
  function Unlink<T(==)>(s: seq<T>, x: T): seq<T> {
    if s == [] then [] else if s[0] == x then s[1..] else [s[0]] + Unlink(s[1..], x)
  }

  lemma {:induction false} UnlinkFacts<T>(s: seq<T>, x: T)
    requires NoDup(s)
    ensures NoDup(Unlink(s, x))
    ensures forall y :: y in Unlink(s, x) <==> y in s && y != x
    ensures |Unlink(s, x)| == if x in s then |s| - 1 else |s|
  {
    if s != [] {
      assert s == [s[0]] + s[1..];
      UnlinkFacts(s[1..], x);
      forall i | 0 <= i < |s| - 1
        ensures s[0] != s[1..][i]
      {
        assert s[1..][i] == s[i + 1];
      }
      if s[0] != x {
        var u := Unlink(s[1..], x);
        assert s[0] !in u;
        assert forall i | 0 < i < |[s[0]] + u| :: ([s[0]] + u)[i] == u[i - 1];
      }
    }
  }

  /** The first x goes and nothing else changes. */
  lemma {:induction false} UnlinkIs<T>(s: seq<T>, x: T, i: nat)
    requires i < |s| && s[i] == x && forall j | 0 <= j < i :: s[j] != x
    ensures Unlink(s, x) == s[..i] + s[i + 1..]
  {
    if i > 0 {
      UnlinkIs(s[1..], x, i - 1);
      assert [s[0]] + (s[1..][..i - 1] + s[1..][i..]) == s[..i] + s[i + 1..];
    }
  }

  lemma {:induction false} UnlinkLast<T>(s: seq<T>)
    requires s != [] && NoDup(s)
    ensures Unlink(s, s[|s| - 1]) == s[..|s| - 1]
  {
    if |s| > 1 {
      assert forall i, j | 0 <= i < j < |s[1..]| :: s[1..][i] == s[i + 1] && s[1..][j] == s[j + 1];
      UnlinkLast(s[1..]);
      assert s[1..][..|s| - 2] == s[1..|s| - 1] && [s[0]] + s[1..|s| - 1] == s[..|s| - 1];
    }
  }

  /** Different entries that all occur in t are at most as many as the entries of t. */
  lemma {:induction false} Pigeonhole<T>(s: seq<T>, t: seq<T>)
    requires NoDup(s) && NoDup(t) && forall x | x in s :: x in t
    ensures |s| <= |t|
  {
    if s != [] {
      assert s[0] in s;
      UnlinkFacts(t, s[0]);
      assert forall i, j | 0 <= i < j < |s[1..]| :: s[1..][i] == s[i + 1] && s[1..][j] == s[j + 1];
      assert s[0] !in s[1..] by {
        assert forall j | 0 <= j < |s[1..]| :: s[1..][j] == s[j + 1];
      }
      Pigeonhole(s[1..], Unlink(t, s[0]));
    }
  }

  /** 0, 1, ..., n - 1 */
  function Upto(n: nat): (r: seq<nat>)
    ensures |r| == n && NoDup(r) && forall i :: i in r <==> 0 <= i < n
    ensures forall i | 0 <= i < n :: r[i] == i
  {
    var r := seq(n, i => i);
    assert forall i | 0 <= i < n :: i in r by {
      forall i | 0 <= i < n
        ensures i in r
      {
        assert r[i] == i;
      }
    }
    r
  }
}
