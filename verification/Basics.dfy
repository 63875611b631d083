/** Types and sequence functions that several modules share. */
module Basics {
  datatype Option<+T> = None | Some(value: T)

  type byte = x: int | 0 <= x < 256

  lemma TakeDrop<T>(s: seq<T>, i: nat)
    requires i <= |s|
    ensures s == s[..i] + s[i..]
  {}

  lemma TakeTake<T>(s: seq<T>, i: nat)
    requires i < |s|
    ensures s[..i + 1][..i] == s[..i]
  {}

  lemma SliceOfSlice<T>(s: seq<T>, i: nat, n: nat, a: nat, b: nat)
    requires i + n <= |s| && a <= b <= n
    ensures s[i..i + n][a..b] == s[i + a..i + b]
  {
    var t := s[i..i + n];
    assert forall k | 0 <= k < b - a :: t[a..b][k] == t[a + k] == s[i + a + k];
  }

  function Flatten<T>(ps: seq<seq<T>>): seq<T> {
    if ps == [] then [] else ps[0] + Flatten(ps[1..])
  }

  lemma {:induction false} FlattenAppend<T>(a: seq<seq<T>>, b: seq<seq<T>>)
    ensures Flatten(a + b) == Flatten(a) + Flatten(b)
  {
    if a == [] {
      assert a + b == b;
    } else {
      assert (a + b)[1..] == a[1..] + b;
      FlattenAppend(a[1..], b);
    }
  }

  function Sum(s: seq<nat>): nat {
    if s == [] then 0 else s[0] + Sum(s[1..])
  }

  lemma {:induction false} SumAppend(a: seq<nat>, b: seq<nat>)
    ensures Sum(a + b) == Sum(a) + Sum(b)
  {
    if a == [] {
      assert a + b == b;
    } else {
      assert (a + b)[1..] == a[1..] + b;
      SumAppend(a[1..], b);
    }
  }

  lemma SumSnoc(s: seq<nat>, x: nat)
    ensures Sum(s + [x]) == Sum(s) + x
  {
    SumAppend(s, [x]);
  }
}
