/** The k best scores: sorting a whole list, and a bounded heap over a stream. */
module TopKs {
  import opened VectorPartitions
  import opened Bags

  /** A candidate and its score. Scores are numbers under any total order. */
  datatype Scored = Scored(id: Id, score: int)

  function Scores(list: seq<Scored>): (r: seq<int>)
    ensures |r| == |list| && forall i :: 0 <= i < |list| ==> r[i] == list[i].score
  {
    seq(|list|, i requires 0 <= i < |list| => list[i].score)
  }

  predicate Descending(s: seq<int>) {
    forall i, j :: 0 <= i < j < |s| ==> s[i] >= s[j]
  }

  function InsertDown(s: seq<int>, x: int): seq<int> {
    if s == [] then [x]
    else if x >= s[0] then [x] + s
    else [s[0]] + InsertDown(s[1..], x)
  }

  function SortDown(s: seq<int>): seq<int> {
    if s == [] then [] else InsertDown(SortDown(s[1..]), s[0])
  }

  /** The reference: sort everything, take k. */
  function Best(scores: seq<int>, k: nat): seq<int> {
    SortDown(scores)[..if k < |SortDown(scores)| then k else |SortDown(scores)|]
  }

  predicate AtMost(s: seq<int>, m: int) {
    forall j :: 0 <= j < |s| ==> s[j] <= m
  }

  lemma {:induction false} InsertKeepsBound(s: seq<int>, x: int, m: int)
    requires AtMost(s, m) && x <= m
    ensures AtMost(InsertDown(s, x), m)
  {
    if s != [] && x < s[0] {
      InsertKeepsBound(s[1..], x, m);
    }
  }

  lemma {:induction false} InsertsInOrder(s: seq<int>, x: int)
    requires Descending(s)
    ensures Descending(InsertDown(s, x))
  {
    if s != [] && x < s[0] {
      InsertsInOrder(s[1..], x);
      InsertKeepsBound(s[1..], x, s[0]);
    }
  }

  lemma {:induction false} InsertsOne(s: seq<int>, x: int)
    ensures Bag(InsertDown(s, x)) == Bag(s) + multiset{x}
  {
    hide Bag;
    BagBasics(x);
    if s != [] {
      if x >= s[0] {
        BagConcat([x], s);
      } else {
        InsertsOne(s[1..], x);
        BagSplit(s, 0);
        assert s[..0] + s[1..] == s[1..];
        BagConcat([s[0]], InsertDown(s[1..], x));
        BagBasics(s[0]);
        BagOrder(Bag(s[1..]), multiset{x}, multiset{s[0]});
      }
    }
  }

  lemma {:induction false} SortsDown(s: seq<int>)
    ensures Descending(SortDown(s)) && Bag(SortDown(s)) == Bag(s) && |SortDown(s)| == |s|
  {
    hide Bag;
    if s != [] {
      SortsDown(s[1..]);
      InsertsInOrder(SortDown(s[1..]), s[0]);
      InsertsOne(SortDown(s[1..]), s[0]);
      BagSplit(s, 0);
      assert s[..0] + s[1..] == s[1..];
    }
    BagSize(s);
    BagSize(SortDown(s));
  }

  lemma SameFirst(a: seq<int>, b: seq<int>)
    requires Descending(a) && Descending(b) && Bag(a) == Bag(b) && a != [] && b != []
    ensures a[0] == b[0]
  {
    hide Bag;
    BagHas(a, b[0]);
    BagHas(b, b[0]);
    BagHas(a, a[0]);
    BagHas(b, a[0]);
  }

  lemma SameRest<T>(a: seq<T>, b: seq<T>, at: nat)
    requires a != [] && at < |b| && a[0] == b[at] && Bag(a) == Bag(b)
    ensures Bag(a[1..]) == Bag(b[..at] + b[at + 1..])
  {
    hide Bag;
    BagSplit(a, 0);
    BagSplit(b, at);
    assert a[..0] + a[1..] == a[1..];
    BagCancel(Bag(a[1..]), Bag(b[..at] + b[at + 1..]), multiset{a[0]});
  }

  /** There is one way to put numbers in descending order. */
  lemma {:induction false} DescendingUnique(a: seq<int>, b: seq<int>)
    requires Descending(a) && Descending(b) && Bag(a) == Bag(b)
    ensures a == b
  {
    hide Bag;
    BagSize(a);
    BagSize(b);
    if a != [] {
      SameFirst(a, b);
      SameRest(a, b, 0);
      assert b[..0] + b[1..] == b[1..];
      DescendingUnique(a[1..], b[1..]);
      assert a == [a[0]] + a[1..] && b == [b[0]] + b[1..];
    }
  }

  /** If what is left out never beats what is kept, the kept scores in order are the best ones. */
  lemma KeptAreBest(kept: seq<int>, left: seq<int>, all: seq<int>, k: nat)
    requires Descending(kept) && Bag(kept) + Bag(left) == Bag(all)
    requires forall i, j :: 0 <= i < |kept| && 0 <= j < |left| ==> kept[i] >= left[j]
    requires |kept| == if k < |all| then k else |all|
    ensures kept == Best(all, k)
  {
    hide Bag;
    SortsDown(left);
    SortsDown(all);
    var last := SortDown(left);
    var whole := kept + last;
    BagConcat(kept, last);
    forall i, j | 0 <= i < |kept| && 0 <= j < |last| ensures kept[i] >= last[j] {
      BagHas(last, last[j]);
      BagHas(left, last[j]);
    }
    assert Descending(whole);
    DescendingUnique(whole, SortDown(all));
    assert whole[..|kept|] == kept;
  }

  lemma {:induction false} ScoresBag(a: seq<Scored>, b: seq<Scored>)
    requires Bag(a) == Bag(b)
    ensures Bag(Scores(a)) == Bag(Scores(b)) && |a| == |b|
  {
    hide Bag;
    BagSize(a);
    BagSize(b);
    if a == [] {
      assert Scores(a) == Scores(b);
    } else {
      BagHas(a, a[0]);
      BagHas(b, a[0]);
      var at :| 0 <= at < |b| && b[at] == a[0];
      var rest := b[..at] + b[at + 1..];
      SameRest(a, b, at);
      ScoresBag(a[1..], rest);
      BagSplit(Scores(a), 0);
      BagSplit(Scores(b), at);
      assert Scores(a)[..0] + Scores(a)[1..] == Scores(a[1..]);
      assert Scores(b)[..at] + Scores(b)[at + 1..] == Scores(rest);
    }
  }

  lemma ScoresConcat(a: seq<Scored>, b: seq<Scored>)
    ensures Scores(a + b) == Scores(a) + Scores(b)
  {
  }

  /** Kept and left out make up what was offered; the kept are as many as fit; nothing left out beats them. */
  ghost predicate KeepsBest(k: nat, kept: seq<Scored>, left: seq<Scored>, all: seq<Scored>) {
    && Bag(kept + left) == Bag(all)
    && |kept| == (if k < |all| then k else |all|)
    && forall i, j :: 0 <= i < |kept| && 0 <= j < |left| ==> kept[i].score >= left[j].score
  }

  /** What a selection leaves out never beats it; in order, it is the best `k`. */
  lemma SelectionIsBest(kept: seq<Scored>, left: seq<Scored>, all: seq<Scored>, r: seq<Scored>, k: nat)
    requires KeepsBest(k, kept, left, all) && Bag(r) == Bag(kept) && Descending(Scores(r))
    ensures Scores(r) == Best(Scores(all), k) && Bag(r) <= Bag(all)
  {
    hide Bag, Best;
    ScoresBag(r, kept);
    ScoresBag(kept + left, all);
    ScoresConcat(kept, left);
    BagConcat(kept, left);
    BagConcat(Scores(kept), Scores(left));
    forall i, j | 0 <= i < |r| && 0 <= j < |left| ensures Scores(r)[i] >= Scores(left)[j] {
      BagHas(r, r[i]);
      BagHas(kept, r[i]);
    }
    KeptAreBest(Scores(r), Scores(left), Scores(all), k);
  }

  /** Sort candidates best first; candidates with equal scores may come in any order. */
  method SortCandidates(list: seq<Scored>) returns (r: seq<Scored>)
    ensures Bag(r) == Bag(list) && Descending(Scores(r))
  {
    hide Bag;
    r := [];
    assert list[..0] == [];
    for n := 0 to |list|
      invariant Bag(r) == Bag(list[..n]) && Descending(Scores(r))
    {
      var at := 0;
      while at < |r| && r[at].score >= list[n].score
        invariant 0 <= at <= |r| && forall i :: 0 <= i < at ==> r[i].score >= list[n].score
      {
        at := at + 1;
      }
      BagInsert(r, at, list[n]);
      BagInsert(list[..n], n, list[n]);
      assert list[..n + 1] == list[..n][..n] + [list[n]] + list[..n][n..];
      InsertedInOrder(r, at, list[n]);
      r := r[..at] + [list[n]] + r[at..];
    }
    assert list[..|list|] == list;
  }

  lemma InsertedInOrder(r: seq<Scored>, at: nat, x: Scored)
    requires at <= |r| && Descending(Scores(r))
    requires forall i :: 0 <= i < at ==> r[i].score >= x.score
    requires at < |r| ==> r[at].score < x.score
    ensures Descending(Scores(r[..at] + [x] + r[at..]))
  {
    var t := r[..at] + [x] + r[at..];
    forall i, j | 0 <= i < j < |t| ensures Scores(t)[i] >= Scores(t)[j] {
      assert i < at ==> Scores(t)[i] == Scores(r)[i];
      assert j > at ==> Scores(t)[j] == Scores(r)[j - 1];
      assert i > at ==> Scores(t)[i] == Scores(r)[i - 1];
      assert at < j - 1 ==> Scores(r)[at] >= Scores(r)[j - 1];
    }
  }

  /** Rearrange so that nothing after the first `k` beats anything among them. */
  method SelectBest(list: seq<Scored>, k: nat) returns (r: seq<Scored>)
    requires k <= |list|
    ensures Bag(r) == Bag(list) && |r| == |list|
    ensures forall i, j :: 0 <= i < k && k <= j < |r| ==> r[i].score >= r[j].score
  {
    hide Bag;
    r := list;
    for n := 0 to k
      invariant Bag(r) == Bag(list) && |r| == |list|
      invariant forall i, j :: 0 <= i < n && i <= j < |r| ==> r[i].score >= r[j].score
    {
      var at := BestFrom(r, n);
      BagSwap(r, n, at);
      r := r[n := r[at]][at := r[n]];
    }
  }

  method BestFrom(r: seq<Scored>, n: nat) returns (at: nat)
    requires n < |r|
    ensures n <= at < |r| && forall j :: n <= j < |r| ==> r[at].score >= r[j].score
  {
    at := n;
    for m := n to |r|
      invariant n <= at < |r| && forall j :: n <= j < m ==> r[at].score >= r[j].score
    {
      if r[m].score > r[at].score {
        at := m;
      }
    }
  }

  /** Score everything, select, truncate and sort: the best `k` of a list. */
  method TopOf(scored: seq<Scored>, k: nat) returns (r: seq<Scored>)
    ensures Scores(r) == Best(Scores(scored), k)
    ensures Bag(r) <= Bag(scored)
  {
    hide Bag;
    SortsDown(Scores(scored));
    BagBasics(Scored([], 0));
    if k == 0 {
      return [];
    }
    var n := if k < |scored| then k else |scored|;
    if n == 0 {
      return [];
    }
    var selected := SelectBest(scored, n);
    r := SortCandidates(selected[..n]);
    assert selected == selected[..n] + selected[n..];
    SelectionIsBest(selected[..n], selected[n..], scored, r, k);
  }

  lemma StaysPartition(kept: seq<Scored>, left: seq<Scored>, all: seq<Scored>, x: Scored)
    requires Bag(kept + left) == Bag(all)
    ensures Bag(kept + (left + [x])) == Bag(all + [x]) == Bag((kept + [x]) + left)
  {
    hide Bag;
    BagBasics(x);
    BagConcat(kept, left);
    BagConcat(all, [x]);
    BagConcat(left, [x]);
    BagConcat(kept, left + [x]);
    BagConcat(kept, [x]);
    BagConcat(kept + [x], left);
    BagOrder(Bag(kept), Bag(left), multiset{x});
  }

  lemma LeavesOut(k: nat, kept: seq<Scored>, left: seq<Scored>, all: seq<Scored>, x: Scored)
    requires KeepsBest(k, kept, left, all) && |kept| == k && forall i :: 0 <= i < |kept| ==> kept[i].score >= x.score
    ensures KeepsBest(k, kept, left + [x], all + [x])
  {
    hide Bag;
    StaysPartition(kept, left, all, x);
    assert forall j :: 0 <= j < |left + [x]| ==> (left + [x])[j] == if j < |left| then left[j] else x;
  }

  lemma TakesIn(k: nat, kept: seq<Scored>, left: seq<Scored>, all: seq<Scored>, x: Scored)
    requires KeepsBest(k, kept, left, all) && |kept| < k
    ensures KeepsBest(k, kept + [x], left, all + [x])
  {
    hide Bag;
    StaysPartition(kept, left, all, x);
    BagSize(kept + left);
    BagSize(all);
    assert left == [];
  }

  lemma Replaces(k: nat, kept: seq<Scored>, left: seq<Scored>, all: seq<Scored>, x: Scored, at: nat)
    requires KeepsBest(k, kept, left, all) && |kept| == k && at < k && x.score > kept[at].score
    requires forall i :: 0 <= i < |kept| ==> kept[i].score >= kept[at].score
    ensures KeepsBest(k, kept[..at] + kept[at + 1..] + [x], left + [kept[at]], all + [x])
  {
    hide Bag;
    var rest := kept[..at] + kept[at + 1..];
    BagSplit(kept, at);
    BagBasics(kept[at]);
    BagConcat(rest, [kept[at]]);
    BagConcat(kept, left);
    BagConcat(rest + [kept[at]], left);
    StaysPartition(rest, left, rest + left, kept[at]);
    assert Bag(rest + (left + [kept[at]])) == Bag(all) by {
      BagConcat(rest, left + [kept[at]]);
      BagConcat(left, [kept[at]]);
      BagOrder(Bag(rest), Bag(left), multiset{kept[at]});
    }
    StaysPartition(rest, left + [kept[at]], all, x);
    forall i, j | 0 <= i < |rest + [x]| && 0 <= j < |left + [kept[at]]| ensures (rest + [x])[i].score >= (left + [kept[at]])[j].score {
      var y := (left + [kept[at]])[j];
      assert y.score <= kept[at].score by {
        if j < |left| {
          assert y == left[j];
        }
      }
      if i < at {
        assert (rest + [x])[i] == kept[i];
      } else if i < |rest| {
        assert (rest + [x])[i] == kept[i + 1];
      }
    }
  }

  /** A bounded collector of the `k` best candidates of a stream. */
  class TopK {
    const k: nat
    /** The heap, in whatever order; the lowest score leaves first. */
    var heap: seq<Scored>
    ghost var offered: seq<Scored>
    ghost var dropped: seq<Scored>

    ghost predicate Valid()
      reads this
    {
      KeepsBest(k, heap, dropped, offered)
    }

    constructor (k: nat)
      ensures Valid() && offered == [] && this.k == k
    {
      this.k, heap, offered, dropped := k, [], [], [];
    }

    /** The heap's top: a candidate with the lowest score. */
    method Lowest() returns (at: nat)
      requires heap != []
      ensures at < |heap| && forall i :: 0 <= i < |heap| ==> heap[at].score <= heap[i].score
    {
      at := 0;
      for i := 1 to |heap|
        invariant at < |heap| && forall j :: 0 <= j < i ==> heap[at].score <= heap[j].score
      {
        if heap[i].score < heap[at].score {
          at := i;
        }
      }
    }

    method Accepts(score: int) returns (accepted: bool)
      ensures accepted <==> k > 0 && (|heap| < k || exists i :: 0 <= i < |heap| && score > heap[i].score)
    {
      if k == 0 {
        return false;
      }
      if |heap| < k {
        return true;
      }
      if heap == [] {
        return false;
      }
      var at := Lowest();
      accepted := score > heap[at].score;
    }

    /** Offer one candidate: it replaces a lowest one, or is dropped. */
    method Push(id: Id, score: int)
      requires Valid()
      modifies this
      ensures Valid() && offered == old(offered) + [Scored(id, score)]
    {
      hide Bag;
      var x := Scored(id, score);
      var accepted := Accepts(score);
      ghost var all := offered;
      offered := offered + [x];
      if !accepted {
        LeavesOut(k, heap, dropped, all, x);
        dropped := dropped + [x];
        return;
      }
      if |heap| == k {
        var at := Lowest();
        Replaces(k, heap, dropped, all, x, at);
        dropped := dropped + [heap[at]];
        heap := heap[..at] + heap[at + 1..];
      } else {
        TakesIn(k, heap, dropped, all, x);
      }
      heap := heap + [x];
    }

    /** The kept candidates, best first: exactly what sorting everything offered and taking `k` gives. */
    method IntoSorted() returns (r: seq<Scored>)
      requires Valid()
      ensures Scores(r) == Best(Scores(offered), k)
      ensures Bag(r) <= Bag(offered)
    {
      hide Bag, Best;
      r := SortCandidates(heap);
      SelectionIsBest(heap, dropped, offered, r, k);
    }
  }

  /** Streaming a list through the collector gives the score sequence of ranking the whole list. */
  method StreamAgreesWithList(list: seq<Scored>, k: nat) returns (streamed: seq<Scored>, ranked: seq<Scored>)
    ensures Scores(streamed) == Scores(ranked) == Best(Scores(list), k)
    ensures Bag(streamed) <= Bag(list) && Bag(ranked) <= Bag(list)
  {
    var top := new TopK(k);
    for n := 0 to |list|
      invariant fresh(top) && top.Valid() && top.offered == list[..n]
    {
      top.Push(list[n].id, list[n].score);
      assert list[..n + 1] == list[..n] + [list[n]];
    }
    assert list[..|list|] == list;
    streamed := top.IntoSorted();
    ranked := TopOf(list, k);
  }
}
