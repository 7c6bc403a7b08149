/** The elements of a sequence, counted: what sorting and swapping keep. */
module Bags {
  ghost function Bag<T>(s: seq<T>): multiset<T> {
    multiset(s)
  }

  lemma BagBasics<T>(x: T)
    ensures Bag<T>([]) == multiset{} && Bag([x]) == multiset{x}
  {
  }

  lemma BagConcat<T>(a: seq<T>, b: seq<T>)
    ensures Bag(a + b) == Bag(a) + Bag(b)
  {
  }

  lemma BagSplit<T>(s: seq<T>, at: nat)
    requires at < |s|
    ensures Bag(s) == Bag(s[..at] + s[at + 1..]) + multiset{s[at]}
  {
    assert s == s[..at] + [s[at]] + s[at + 1..];
  }

  lemma BagInsert<T>(s: seq<T>, at: nat, x: T)
    requires at <= |s|
    ensures Bag(s[..at] + [x] + s[at..]) == Bag(s) + multiset{x}
  {
    assert s == s[..at] + s[at..];
  }

  lemma BagSwap<T>(s: seq<T>, i: nat, j: nat)
    requires i < |s| && j < |s|
    ensures Bag(s[i := s[j]][j := s[i]]) == Bag(s)
  {
  }

  lemma BagHas<T>(s: seq<T>, x: T)
    ensures x in Bag(s) <==> exists i :: 0 <= i < |s| && s[i] == x
  {
    assert x in Bag(s) <==> x in s;
  }

  lemma BagSize<T>(s: seq<T>)
    ensures |Bag(s)| == |s|
  {
  }

  lemma BagCancel<T>(a: multiset<T>, b: multiset<T>, x: multiset<T>)
    requires a + x == b + x
    ensures a == b
  {
    assert a == (a + x) - x && b == (b + x) - x;
  }

  lemma BagOrder<T>(a: multiset<T>, b: multiset<T>, x: multiset<T>)
    ensures a + b + x == a + x + b == a + (b + x)
  {
  }
}
