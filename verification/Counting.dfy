/** Sums of a per-element weight over a sequence, used to count goroutines in a
    given phase and to build termination measures over a set of threads. */
module Counting {

  function Total<T>(s: seq<T>, f: T -> nat): nat {
    if |s| == 0 then 0 else f(s[0]) + Total(s[1..], f)
  }

  lemma {:induction false} TotalUpdate<T>(s: seq<T>, i: nat, x: T, f: T -> nat)
    requires i < |s|
    ensures Total(s[i := x], f) + f(s[i]) == Total(s, f) + f(x)
  {
    if i == 0 {
      assert s[i := x][1..] == s[1..];
    } else {
      TotalUpdate(s[1..], i - 1, x, f);
      assert s[i := x][1..] == s[1..][i - 1 := x];
    }
  }

  /** One element's weight is part of the total. */
  lemma {:induction false} TotalIncludes<T>(s: seq<T>, i: nat, f: T -> nat)
    requires i < |s|
    ensures f(s[i]) <= Total(s, f)
  {
    if i > 0 {
      TotalIncludes(s[1..], i - 1, f);
    }
  }

  /** Two different elements contribute separately. */
  lemma {:induction false} TotalIncludesBoth<T>(s: seq<T>, i: nat, j: nat, f: T -> nat)
    requires i < j < |s|
    ensures f(s[i]) + f(s[j]) <= Total(s, f)
  {
    if i == 0 {
      TotalIncludes(s[1..], j - 1, f);
    } else {
      TotalIncludesBoth(s[1..], i - 1, j - 1, f);
    }
  }

  /** A total is zero exactly when every element weighs nothing; otherwise some element carries weight. */
  lemma {:induction false} TotalZero<T>(s: seq<T>, f: T -> nat)
    ensures Total(s, f) == 0 <==> forall i :: 0 <= i < |s| ==> f(s[i]) == 0
  {
    if |s| > 0 {
      TotalZero(s[1..], f);
      assert forall i :: 0 <= i < |s[1..]| ==> s[1..][i] == s[i + 1];
      if forall i :: 0 <= i < |s[1..]| ==> f(s[1..][i]) == 0 {
        if f(s[0]) == 0 {
          forall i | 0 <= i < |s| ensures f(s[i]) == 0 {
            if i > 0 { assert s[i] == s[1..][i - 1]; }
          }
        }
      }
    }
  }

  lemma {:induction false} TotalConstant<T>(s: seq<T>, f: T -> nat, c: nat)
    requires forall i :: 0 <= i < |s| ==> f(s[i]) == c
    ensures Total(s, f) == c * |s|
  {
    if |s| > 0 {
      TotalConstant(s[1..], f, c);
    }
  }

  /** One element drops its weight while each other one gains at most one. */
  lemma {:induction false} TotalDrop<T>(s: seq<T>, t: seq<T>, f: T -> nat, g: T -> nat, i: int)
    requires |s| == |t| && i < |s|
    requires forall j :: 0 <= j < |s| && j != i ==> g(t[j]) <= f(s[j]) + 1
    ensures i >= 0 ==> Total(t, g) + f(s[i]) + 1 <= Total(s, f) + g(t[i]) + |s|
    ensures i < 0 ==> Total(t, g) <= Total(s, f) + |s|
  {
    if |s| > 0 {
      assert forall j :: 0 <= j < |s[1..]| ==> s[1..][j] == s[j + 1] && t[1..][j] == t[j + 1];
      TotalDrop(s[1..], t[1..], f, g, i - 1);
    }
  }
}
