/** How many elements of a sequence satisfy a predicate. */
module Counting {

  function Count<T>(s: seq<T>, p: T -> bool): (n: nat)
    ensures n <= |s|
  {
    if s == [] then 0 else Count(s[..|s| - 1], p) + if p(s[|s| - 1]) then 1 else 0
  }

  lemma CountSnoc<T>(s: seq<T>, x: T, p: T -> bool)
    ensures Count(s + [x], p) == Count(s, p) + if p(x) then 1 else 0
  {
    assert (s + [x])[..|s|] == s;
  }

  lemma {:induction false} CountUpdate<T>(s: seq<T>, i: nat, x: T, p: T -> bool)
    requires i < |s|
    ensures Count(s[i := x], p) == Count(s, p) - (if p(s[i]) then 1 else 0) + (if p(x) then 1 else 0)
  {
    var n := |s| - 1;
    if i < n {
      assert s[i := x][..n] == s[..n][i := x];
      CountUpdate(s[..n], i, x, p);
    } else {
      assert s[i := x][..n] == s[..n];
    }
  }

  lemma {:induction false} CountNone<T>(s: seq<T>, p: T -> bool)
    requires forall i :: 0 <= i < |s| ==> !p(s[i])
    ensures Count(s, p) == 0
  {
    if s != [] {
      CountNone(s[..|s| - 1], p);
    }
  }

  lemma {:induction false} CountAll<T>(s: seq<T>, p: T -> bool)
    requires forall i :: 0 <= i < |s| ==> p(s[i])
    ensures Count(s, p) == |s|
  {
    if s != [] {
      CountAll(s[..|s| - 1], p);
    }
  }

  lemma {:induction false} CountBelow<T>(s: seq<T>, i: nat, p: T -> bool)
    requires i < |s| && !p(s[i])
    ensures Count(s, p) < |s|
  {
    if i < |s| - 1 {
      CountBelow(s[..|s| - 1], i, p);
    }
  }

  lemma {:induction false} CountAt<T>(s: seq<T>, i: nat, p: T -> bool)
    requires i < |s| && p(s[i])
    ensures Count(s, p) > 0
  {
    if i < |s| - 1 {
      CountAt(s[..|s| - 1], i, p);
    }
  }

  lemma {:induction false} CountTwice<T>(s: seq<T>, i: nat, j: nat, p: T -> bool)
    requires i < j < |s| && p(s[i]) && p(s[j])
    ensures Count(s, p) > 1
  {
    if j < |s| - 1 {
      CountTwice(s[..|s| - 1], i, j, p);
    } else {
      CountAt(s[..|s| - 1], i, p);
    }
  }

  lemma {:induction false} CountWitness<T>(s: seq<T>, p: T -> bool) returns (i: nat)
    requires Count(s, p) > 0
    ensures i < |s| && p(s[i])
  {
    var n := |s| - 1;
    if p(s[n]) {
      i := n;
    } else {
      i := CountWitness(s[..n], p);
    }
  }

  lemma {:induction false} CountPrefix<T>(s: seq<T>, i: nat, p: T -> bool)
    requires i <= |s|
    ensures Count(s[..i], p) <= Count(s, p)
  {
    if i < |s| {
      CountPrefix(s[..|s| - 1], i, p);
      assert s[..|s| - 1][..i] == s[..i];
    } else {
      assert s[..i] == s;
    }
  }
}
