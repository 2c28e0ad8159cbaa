/** sort.Strings on lists without repetitions. */
module Sorting {
  import opened Prelude

  /** Go's order on strings; byte by byte it is the order of the code points. */
  predicate Before(s: string, t: string) {
    if t == "" then false
    else if s == "" then true
    else if s[0] != t[0] then s[0] < t[0]
    else Before(s[1..], t[1..])
  }

  lemma {:induction false} BeforeIrreflexive(s: string)
    ensures !Before(s, s)
    decreases |s|
  {
    if s != "" {
      BeforeIrreflexive(s[1..]);
    }
  }

  lemma {:induction false} BeforeTotal(s: string, t: string)
    ensures s != t ==> Before(s, t) || Before(t, s)
    decreases |s|
  {
    if s != "" && t != "" && s[0] == t[0] {
      BeforeTotal(s[1..], t[1..]);
      assert s == [s[0]] + s[1..] && t == [t[0]] + t[1..];
    }
  }

  lemma {:induction false} BeforeTransitive(s: string, t: string, u: string)
    requires Before(s, t) && Before(t, u)
    ensures Before(s, u)
    decreases |s|
  {
    if s != "" && s[0] == t[0] && t[0] == u[0] {
      BeforeTransitive(s[1..], t[1..], u[1..]);
    }
  }

  /** Strictly ascending. */
  ghost predicate Ascending(ss: seq<string>) {
    forall i, j :: 0 <= i < j < |ss| ==> Before(ss[i], ss[j])
  }

  function Insert(ss: seq<string>, x: string): (r: seq<string>)
    ensures forall y :: y in r <==> y in ss || y == x
  {
    if ss == [] then [x]
    else if Before(x, ss[0]) then
      assert ss == [ss[0]] + ss[1..];
      [x] + ss
    else
      assert ss == [ss[0]] + ss[1..];
      [ss[0]] + Insert(ss[1..], x)
  }

  function Sort(ss: seq<string>): (r: seq<string>)
    ensures forall y :: y in r <==> y in ss
  {
    if ss == [] then []
    else
      assert ss == ss[..|ss| - 1] + [ss[|ss| - 1]];
      Insert(Sort(ss[..|ss| - 1]), ss[|ss| - 1])
  }

  lemma {:induction false} InsertAscends(ss: seq<string>, x: string)
    requires Ascending(ss) && x !in ss
    ensures Ascending(Insert(ss, x))
  {
    var r := Insert(ss, x);
    if ss == [] {
    } else if Before(x, ss[0]) {
      forall j | 0 <= j < |ss| ensures Before(x, ss[j]) {
        if j > 0 { BeforeTransitive(x, ss[0], ss[j]); }
      }
    } else {
      var rest := Insert(ss[1..], x);
      InsertAscends(ss[1..], x);
      BeforeTotal(x, ss[0]);
      forall j | 0 <= j < |rest| ensures Before(ss[0], rest[j]) {
        assert rest[j] in rest;
      }
    }
  }

  lemma {:induction false} SortAscends(ss: seq<string>)
    requires NoDuplicates(ss)
    ensures Ascending(Sort(ss))
  {
    if ss != [] {
      SortAscends(ss[..|ss| - 1]);
      InsertAscends(Sort(ss[..|ss| - 1]), ss[|ss| - 1]);
    }
  }

  lemma AscendingIsDistinct(ss: seq<string>)
    requires Ascending(ss)
    ensures NoDuplicates(ss)
  {
    forall i, j | 0 <= i < j < |ss| ensures ss[i] != ss[j] {
      BeforeIrreflexive(ss[i]);
    }
  }

  /** Nothing comes before the first element. */
  lemma FirstIsLeast(ss: seq<string>, x: string)
    requires Ascending(ss) && x in ss
    ensures x == ss[0] || Before(ss[0], x)
  {
  }

  lemma HasMember(ss: seq<string>)
    ensures ss != [] ==> exists x :: x in ss
  {
    if ss != [] {
      assert ss[0] in ss;
    }
  }

  /** An ascending list is determined by its elements. */
  lemma {:induction false} AscendingIsUnique(a: seq<string>, b: seq<string>)
    requires Ascending(a) && Ascending(b) && forall x :: x in a <==> x in b
    ensures a == b
    decreases |a|
  {
    if a == [] {
      HasMember(b);
    } else {
      assert a[0] in a;
      SameFirst(a, b);
      AscendingIsDistinct(a);
      AscendingIsDistinct(b);
      forall x ensures x in a[1..] <==> x in b[1..] {
        TailMembers(a, x);
        TailMembers(b, x);
      }
      AscendingIsUnique(a[1..], b[1..]);
    }
  }

  lemma SameFirst(a: seq<string>, b: seq<string>)
    requires Ascending(a) && Ascending(b) && a != [] && b != [] && a[0] in b && b[0] in a
    ensures a[0] == b[0]
  {
    FirstIsLeast(a, b[0]);
    FirstIsLeast(b, a[0]);
    if a[0] != b[0] {
      BeforeTransitive(a[0], b[0], a[0]);
      BeforeIrreflexive(a[0]);
    }
  }

  lemma TailMembers(ss: seq<string>, x: string)
    requires NoDuplicates(ss) && ss != []
    ensures x in ss[1..] <==> x in ss && x != ss[0]
  {
    assert ss == [ss[0]] + ss[1..];
    if x in ss[1..] {
      var i :| 0 <= i < |ss| - 1 && ss[1..][i] == x;
      assert ss[i + 1] == x;
    }
  }
}
