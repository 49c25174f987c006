/** What several modules need about sequences. */
module Sequences {

  function Reverse<T>(s: seq<T>): (r: seq<T>)
    ensures |r| == |s|
  {
    if s == [] then [] else Reverse(s[1..]) + [s[0]]
  }

  lemma {:induction false} ReverseAt<T>(s: seq<T>, k: nat)
    requires k < |s|
    ensures Reverse(s)[k] == s[|s| - 1 - k]
  {
    if k < |s| - 1 { ReverseAt(s[1..], k); }
  }

  lemma {:induction false} ReverseSnoc<T>(s: seq<T>, m: T)
    ensures Reverse(s + [m]) == [m] + Reverse(s)
  {
    if s == [] {
      assert s + [m] == [m];
    } else {
      assert (s + [m])[1..] == s[1..] + [m];
      ReverseSnoc(s[1..], m);
    }
  }

  /** Reversing keeps every element as often as it occurs. */
  lemma {:induction false} ReverseSame<T>(s: seq<T>)
    ensures multiset(Reverse(s)) == multiset(s)
  {
    if s != [] {
      ReverseSame(s[1..]);
      assert s == [s[0]] + s[1..];
    }
  }

  lemma Regroup<T>(a: seq<T>, b: seq<T>, c: seq<T>)
    ensures a + b + c == a + (b + c)
  {
  }
}
