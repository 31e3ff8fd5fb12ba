/** Lists without repetition, and strictly increasing lists, kept by insertion at the lower bound. */
module SortedLists {

  predicate Distinct(xs: seq<nat>) {
    forall j, k :: 0 <= j < k < |xs| ==> xs[j] != xs[k]
  }

  predicate Increasing(xs: seq<int>) {
    forall j, k :: 0 <= j < k < |xs| ==> xs[j] < xs[k]
  }

  method Insert(xs: seq<nat>, i: nat) returns (r: seq<nat>)
    requires Increasing(xs)
    ensures Increasing(r) && forall j :: j in r <==> j in xs || j == i
  {
    if i in xs {
      return xs;
    }
    var at := 0;
    while at < |xs| && xs[at] < i
      invariant 0 <= at <= |xs| && forall j :: 0 <= j < at ==> xs[j] < i
    {
      at := at + 1;
    }
    r := xs[..at] + [i] + xs[at..];
    Inserted(xs, at, i);
  }

  lemma {:induction false} Inserted(xs: seq<nat>, at: nat, i: nat)
    requires at <= |xs| && Increasing(xs) && i !in xs
    requires (forall j :: 0 <= j < at ==> xs[j] < i) && (at < |xs| ==> i <= xs[at])
    ensures Increasing(xs[..at] + [i] + xs[at..])
    ensures forall j :: j in xs[..at] + [i] + xs[at..] <==> j in xs || j == i
  {
    var r := xs[..at] + [i] + xs[at..];
    assert xs == xs[..at] + xs[at..];
    if at < |xs| {
      assert xs[at] in xs;
    }
    forall j, k | 0 <= j < k < |r|
      ensures r[j] < r[k]
    {
      assert k > at ==> xs[k - 1] == r[k];
      assert j > at ==> xs[j - 1] == r[j];
    }
  }

  /** Sorting and dropping duplicates. */
  method SortUnique(xs: seq<nat>) returns (r: seq<nat>)
    ensures Increasing(r) && forall j :: j in r <==> j in xs
  {
    r := [];
    for k := 0 to |xs|
      invariant Increasing(r) && forall j :: j in r <==> j in xs[..k]
    {
      assert xs[..k + 1] == xs[..k] + [xs[k]];
      r := Insert(r, xs[k]);
    }
    assert xs[..|xs|] == xs;
  }

  lemma {:induction false} WithoutLast(xs: seq<nat>, j: nat)
    requires xs != [] && Increasing(xs)
    ensures j in xs[..|xs| - 1] <==> j in xs && j != xs[|xs| - 1]
    ensures j in xs ==> j <= xs[|xs| - 1]
  {
    assert xs == xs[..|xs| - 1] + [xs[|xs| - 1]];
  }

  /** An increasing list is determined by its members. */
  lemma {:induction false} IncreasingUnique(xs: seq<nat>, ys: seq<nat>)
    requires Increasing(xs) && Increasing(ys) && forall j: nat :: j in xs <==> j in ys
    ensures xs == ys
    decreases |xs|
  {
    hide Increasing;
    if xs == [] {
      assert forall k :: 0 <= k < |ys| ==> ys[k] in xs;
      return;
    }
    var n := |xs| - 1;
    assert xs[n] in ys;
    var m := |ys| - 1;
    assert ys[m] in xs;
    WithoutLast(xs, ys[m]);
    WithoutLast(ys, xs[n]);
    forall j: nat
      ensures j in xs[..n] <==> j in ys[..m]
    {
      WithoutLast(xs, j);
      WithoutLast(ys, j);
    }
    Prefix(xs);
    Prefix(ys);
    IncreasingUnique(xs[..n], ys[..m]);
    assert xs == xs[..n] + [xs[n]] && ys == ys[..m] + [ys[m]];
  }

  lemma {:induction false} Prefix(xs: seq<nat>)
    requires xs != [] && Increasing(xs)
    ensures Increasing(xs[..|xs| - 1])
  {
  }

  /** An increasing list that gains members keeps its old part in front exactly if every new member
      is greater than every old one. */
  lemma {:induction false} PrefixOrder(xs: seq<nat>, ys: seq<nat>)
    requires Increasing(xs) && Increasing(ys) && forall x :: x in xs ==> x in ys
    ensures xs <= ys <==> forall x, y :: x in xs && y in ys && y !in xs ==> x < y
  {
    if xs <= ys {
      forall x, y | x in xs && y in ys && y !in xs
        ensures x < y
      {
        var j :| 0 <= j < |xs| && xs[j] == x;
        var k :| 0 <= k < |ys| && ys[k] == y;
        assert ys[j] == x && forall i :: 0 <= i < |xs| ==> ys[i] == xs[i] && ys[i] in xs;
      }
    }
    if forall x, y :: x in xs && y in ys && y !in xs ==> x < y {
      FrontOf(xs, ys);
    }
  }

  lemma {:induction false} NoMembers(xs: seq<nat>)
    ensures (forall x :: x !in xs) ==> xs == []
  {
    if xs != [] {
      assert xs[0] in xs;
    }
  }

  lemma {:induction false} FrontOf(xs: seq<nat>, ys: seq<nat>)
    requires Increasing(xs) && Increasing(ys) && (forall x :: x in xs ==> x in ys)
    requires forall x, y :: x in xs && y in ys && y !in xs ==> x < y
    ensures xs <= ys
    decreases |ys|
  {
    if ys == [] {
      NoMembers(xs);
      return;
    }
    var n := |ys| - 1;
    var last := ys[n];
    assert last in ys && ys == ys[..n] + [last];
    if last in xs {
      // Nothing is added: an added member would have to be greater than the last one.
      forall y: nat
        ensures y in ys <==> y in xs
      {
        if y in ys && y !in xs {
          assert last < y;
          WithoutLast(ys, y);
        }
      }
      IncreasingUnique(ys, xs);
    } else {
      Prefix(ys);
      forall x | x in xs
        ensures x in ys[..n]
      {
        WithoutLast(ys, x);
      }
      assert forall y :: y in ys[..n] ==> y in ys;
      FrontOf(xs, ys[..n]);
    }
  }
}
