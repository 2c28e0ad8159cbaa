/** Sequence and option helpers shared by every module. */
module Prelude {

  datatype Option<+T> = None | Some(value: T)

  /** `s` read from its last element to its first. */
  function Reverse<T>(s: seq<T>): (r: seq<T>)
    ensures |r| == |s|
    ensures forall i :: 0 <= i < |s| ==> r[i] == s[|s| - 1 - i]
  {
    seq(|s|, i requires 0 <= i < |s| => s[|s| - 1 - i])
  }

  predicate NoDuplicates<T(==)>(s: seq<T>) {
    forall i, j :: 0 <= i < j < |s| ==> s[i] != s[j]
  }

  lemma TakeNext<T>(s: seq<T>, k: nat)
    requires k < |s|
    ensures s[..k + 1] == s[..k] + [s[k]]
  {
  }

  lemma TakeAll<T>(s: seq<T>)
    ensures s[..|s|] == s
  {
  }

  /** The elements of `s` that satisfy `f`, in order. */
  function Keep<T(!new)>(s: seq<T>, f: T -> bool): (r: seq<T>)
    ensures forall x :: x in r <==> x in s && f(x)
  {
    if s == [] then []
    else if f(s[|s| - 1]) then Keep(s[..|s| - 1], f) + [s[|s| - 1]]
    else Keep(s[..|s| - 1], f)
  }

  /** Two elements that are kept were in the same order before, and at least as far apart. */
  lemma {:induction false} KeepOrder<T(!new)>(s: seq<T>, f: T -> bool, i: nat, j: nat) returns (a: nat, b: nat)
    requires i <= j < |Keep(s, f)|
    ensures a + (j - i) <= b < |s| && s[a] == Keep(s, f)[i] && s[b] == Keep(s, f)[j]
    ensures f(s[a]) && f(s[b])
  {
    var k := |s| - 1;
    var rest := Keep(s[..k], f);
    if !f(s[k]) || j < |rest| {
      a, b := KeepOrder(s[..k], f, i, j);
    } else if i == j {
      a, b := k, k;
    } else {
      a, b := KeepOrder(s[..k], f, i, j - 1);
      b := k;
    }
  }

  function Min(a: int, b: int): int {
    if a < b then a else b
  }

  function Max(a: int, b: int): int {
    if a < b then b else a
  }

  lemma SubsetSize<T>(a: set<T>, b: set<T>)
    requires a <= b
    ensures |a| <= |b|
  {
    assert b == a + (b - a);
  }
}
