/** Sums over sequences, and facts about sequences as collections. */
module Sequences {
  /** The sum of `f` over the elements. */
  function Total<T>(f: T -> nat, s: seq<T>): nat {
    if s == [] then 0 else Total(f, s[..|s| - 1]) + f(s[|s| - 1])
  }

  lemma TotalAppend<T>(f: T -> nat, s: seq<T>, x: T)
    ensures Total(f, s + [x]) == Total(f, s) + f(x)
  {
    assert (s + [x])[..|s|] == s;
  }

  lemma {:induction false} TotalRemove<T>(f: T -> nat, s: seq<T>, i: nat)
    requires i < |s|
    ensures Total(f, s) == Total(f, s[..i] + s[i + 1..]) + f(s[i])
  {
    var k := |s| - 1;
    var rest := s[..i] + s[i + 1..];
    if i == k {
      assert rest == s[..i];
    } else {
      TotalRemove(f, s[..k], i);
      assert rest[..|rest| - 1] == s[..k][..i] + s[..k][i + 1..] && rest[|rest| - 1] == s[k];
    }
  }

  /** Taking one element out of a sequence takes one occurrence out of its multiset. */
  lemma WithoutOne<T>(s: seq<T>, i: nat)
    requires i < |s|
    ensures multiset(s[..i] + s[i + 1..]) == multiset(s) - multiset{s[i]}
  {
    assert s == s[..i] + ([s[i]] + s[i + 1..]);
  }

  /** Reordering does not change a sum. */
  lemma {:induction false} TotalPermutes<T>(f: T -> nat, a: seq<T>, b: seq<T>)
    requires multiset(a) == multiset(b)
    ensures Total(f, a) == Total(f, b)
  {
    if a == [] {
      assert |multiset(b)| == 0;
    } else {
      var k := |a| - 1;
      assert a[k] in multiset(a);
      assert a[k] in multiset(b);
      var i :| 0 <= i < |b| && b[i] == a[k];
      WithoutOne(a, k);
      WithoutOne(b, i);
      assert a[..k] + a[k + 1..] == a[..k];
      TotalPermutes(f, a[..k], b[..i] + b[i + 1..]);
      TotalRemove(f, b, i);
    }
  }
}
