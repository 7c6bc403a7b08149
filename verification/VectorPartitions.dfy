/** One partition of the in-memory vector index: its vectors, where each id stands, and its size. */
module VectorPartitions {
  import opened Wrappers
  import opened ByteStrings

  const PER_VECTOR_OVERHEAD := 64

  /** An id is its UTF-8 bytes. The components of a vector are numbers of any kind. */
  type Id = Bytes
  type Vector = seq<int>

  datatype StoredVector = StoredVector(id: Id, values: Vector)

  function VectorBytes(id: Id, dims: nat): nat {
    dims * 2 + |id| * 2 + PER_VECTOR_OVERHEAD
  }

  function SizeOf(v: StoredVector): nat {
    VectorBytes(v.id, |v.values|)
  }

  function SumBytes(vectors: seq<StoredVector>): nat {
    if vectors == [] then 0 else SumBytes(vectors[..|vectors| - 1]) + SizeOf(vectors[|vectors| - 1])
  }

  predicate DistinctIds(vectors: seq<StoredVector>) {
    forall i, j :: 0 <= i < j < |vectors| ==> vectors[i].id != vectors[j].id
  }

  /** The first position of an id. */
  function IndexOf(vectors: seq<StoredVector>, id: Id): (r: Option<nat>)
    ensures r.Some? ==> r.value < |vectors| && vectors[r.value].id == id
    ensures r.None? ==> forall i :: 0 <= i < |vectors| ==> vectors[i].id != id
  {
    if vectors == [] then None
    else
      var before := IndexOf(vectors[..|vectors| - 1], id);
      if before.Some? then before
      else if vectors[|vectors| - 1].id == id then Some(|vectors| - 1)
      else
        assert forall i :: 0 <= i < |vectors| - 1 ==> vectors[i] == vectors[..|vectors| - 1][i];
        None
  }

  /** Insert or replace. */
  function Upserted(vectors: seq<StoredVector>, id: Id, values: Vector): seq<StoredVector> {
    match IndexOf(vectors, id)
    case Some(at) => vectors[at := StoredVector(id, values)]
    case None => vectors + [StoredVector(id, values)]
  }

  function UpsertedAll(vectors: seq<(Id, Vector)>): seq<StoredVector> {
    if vectors == [] then []
    else Upserted(UpsertedAll(vectors[..|vectors| - 1]), vectors[|vectors| - 1].0, vectors[|vectors| - 1].1)
  }

  /** The last vector given for an id. */
  function LastGiven(vectors: seq<(Id, Vector)>, id: Id): Option<Vector> {
    if vectors == [] then None
    else if vectors[|vectors| - 1].0 == id then Some(vectors[|vectors| - 1].1)
    else LastGiven(vectors[..|vectors| - 1], id)
  }

  /** What a list of vectors holds, by id. */
  function Lookup(vectors: seq<StoredVector>, id: Id): Option<Vector> {
    match IndexOf(vectors, id)
    case Some(at) => Some(vectors[at].values)
    case None => None
  }

  /** Move the last vector into the removed one's place. */
  function SwapRemoved(vectors: seq<StoredVector>, at: nat): seq<StoredVector>
    requires at < |vectors|
  {
    vectors[at := vectors[|vectors| - 1]][..|vectors| - 1]
  }

  lemma {:induction false} SumBytesReplace(vectors: seq<StoredVector>, at: nat, v: StoredVector)
    requires at < |vectors|
    ensures SumBytes(vectors[at := v]) == SumBytes(vectors) - SizeOf(vectors[at]) + SizeOf(v)
    decreases |vectors|
  {
    hide SizeOf;
    var n := |vectors| - 1;
    if at < n {
      assert vectors[at := v][..n] == vectors[..n][at := v];
      SumBytesReplace(vectors[..n], at, v);
    } else {
      assert vectors[at := v][..n] == vectors[..n];
    }
  }

  lemma {:induction false} SumBytesAppend(vectors: seq<StoredVector>, v: StoredVector)
    ensures SumBytes(vectors + [v]) == SumBytes(vectors) + SizeOf(v)
  {
    assert (vectors + [v])[..|vectors|] == vectors;
  }

  lemma {:induction false} SumBytesSwapRemove(vectors: seq<StoredVector>, at: nat)
    requires at < |vectors|
    ensures SumBytes(SwapRemoved(vectors, at)) == SumBytes(vectors) - SizeOf(vectors[at])
  {
    hide SizeOf;
    var n := |vectors| - 1;
    if at < n {
      SumBytesReplace(vectors[..n], at, vectors[n]);
      assert SwapRemoved(vectors, at) == vectors[..n][at := vectors[n]];
    } else {
      assert SwapRemoved(vectors, at) == vectors[..n];
    }
  }

  lemma IndexIs(vectors: seq<StoredVector>, at: nat)
    requires DistinctIds(vectors) && at < |vectors|
    ensures IndexOf(vectors, vectors[at].id) == Some(at)
  {
  }

  /** A list of vectors inserted one after the other holds, for each id, the last one given. */
  lemma {:induction false} UpsertedAllHolds(vectors: seq<(Id, Vector)>, id: Id)
    ensures DistinctIds(UpsertedAll(vectors)) && Lookup(UpsertedAll(vectors), id) == LastGiven(vectors, id)
  {
    hide Upserted, Lookup, DistinctIds;
    if vectors == [] {
      assert DistinctIds([]) && Lookup([], id) == None by { NothingHeld(id); }
    } else {
      var n := |vectors| - 1;
      UpsertedAllHolds(vectors[..n], id);
      UpsertKeeps(UpsertedAll(vectors[..n]), vectors[n].0, vectors[n].1);
    }
  }

  lemma NothingHeld(id: Id)
    ensures DistinctIds([]) && Lookup([], id) == None
  {
  }

  /** Swapping out one vector keeps every other vector. */
  lemma SwapRemoveKeeps(vectors: seq<StoredVector>, at: nat)
    requires DistinctIds(vectors) && at < |vectors|
    ensures DistinctIds(SwapRemoved(vectors, at))
    ensures forall id :: Lookup(SwapRemoved(vectors, at), id) == if id == vectors[at].id then None else Lookup(vectors, id)
  {
    hide IndexOf;
    var r := SwapRemoved(vectors, at);
    var n := |vectors| - 1;
    assert forall i :: 0 <= i < n ==> r[i] == if i == at then vectors[n] else vectors[i];
    assert forall i :: 0 <= i <= n && i != at ==> vectors[i] == r[if i == n then at else i];
    forall id ensures Lookup(r, id) == if id == vectors[at].id then None else Lookup(vectors, id) {
      if IndexOf(r, id).Some? {
        var i := IndexOf(r, id).value;
        IndexIs(vectors, if i == at then n else i);
      }
    }
  }

  lemma UpsertKeeps(vectors: seq<StoredVector>, id: Id, values: Vector)
    requires DistinctIds(vectors)
    ensures DistinctIds(Upserted(vectors, id, values))
    ensures forall x :: Lookup(Upserted(vectors, id, values), x) == if x == id then Some(values) else Lookup(vectors, x)
  {
    hide IndexOf;
    var r := Upserted(vectors, id, values);
    assert DistinctIds(r);
    assert forall i :: 0 <= i < |vectors| ==> vectors[i].id == r[i].id;
    assert r[if IndexOf(vectors, id).Some? then IndexOf(vectors, id).value else |vectors|].id == id;
    forall x ensures Lookup(r, x) == if x == id then Some(values) else Lookup(vectors, x) {
      if IndexOf(r, x).Some? {
        var i := IndexOf(r, x).value;
        if i < |vectors| {
          IndexIs(vectors, i);
        }
        IndexIs(r, i);
        if x == id && IndexOf(vectors, id).Some? {
          IndexIs(r, IndexOf(vectors, id).value);
        }
      }
    }
  }

  class Partition {
    var vectors: seq<StoredVector>
    var positions: map<Id, nat>
    var bytes: nat
    var lastUsed: nat

    /** `positions` is the exact inverse of the vectors' ids, and `bytes` their size. */
    ghost predicate Valid()
      reads this`vectors, this`positions, this`bytes
    {
      && (forall i :: 0 <= i < |vectors| ==> vectors[i].id in positions && positions[vectors[i].id] == i)
      && (forall id :: id in positions ==> positions[id] < |vectors| && vectors[positions[id]].id == id)
      && bytes == SumBytes(vectors)
    }

    constructor ()
      ensures Valid() && vectors == [] && lastUsed == 0
    {
      vectors, positions, bytes, lastUsed := [], map[], 0, 0;
    }

    lemma PositionIs(id: Id)
      requires Valid()
      ensures DistinctIds(vectors)
      ensures IndexOf(vectors, id) == if id in positions then Some(positions[id]) else None
    {
    }

    method Upsert(id: Id, values: Vector) returns (delta: int)
      requires Valid()
      modifies this`vectors, this`positions, this`bytes
      ensures Valid() && vectors == Upserted(old(vectors), id, values)
      ensures delta == bytes - old(bytes)
    {
      hide SumBytes, IndexOf;
      PositionIs(id);
      var size: int := VectorBytes(id, |values|);
      if id in positions {
        var position := positions[id];
        var former: int := VectorBytes(id, |vectors[position].values|);
        SumBytesReplace(vectors, position, StoredVector(id, values));
        vectors := vectors[position := StoredVector(id, values)];
        bytes := bytes + size - former;
        return size - former;
      }
      SumBytesAppend(vectors, StoredVector(id, values));
      positions := positions[id := |vectors|];
      vectors := vectors + [StoredVector(id, values)];
      bytes := bytes + size;
      delta := size;
    }

    /** Remove one vector by moving the last one into its place. */
    method Remove(id: Id) returns (size: nat)
      requires Valid()
      modifies this`vectors, this`positions, this`bytes
      ensures Valid() && size == old(bytes) - bytes
      ensures match IndexOf(old(vectors), id)
        case None => size == 0 && vectors == old(vectors)
        case Some(at) => size > 0 && vectors == SwapRemoved(old(vectors), at)
    {
      hide SumBytes, IndexOf;
      PositionIs(id);
      if id !in positions {
        return 0;
      }
      var position := positions[id];
      SumBytesSwapRemove(vectors, position);
      var removed := vectors[position];
      positions := positions - {id};
      vectors := vectors[position := vectors[|vectors| - 1]][..|vectors| - 1];
      if position < |vectors| {
        positions := positions[vectors[position].id := position];
      }
      size := VectorBytes(removed.id, |removed.values|);
      bytes := bytes - size;
    }
  }
}
