/**
  The shared vector cache: one byte budget over the partitions of every index,
  evicting the least recently used.
 */
module VectorBudgets {
  import opened Wrappers
  import opened VectorPartitions
  import opened TopKs
  import opened MapSums
  import opened Bags

  /** An index and the name of one of its partitions. */
  type PartitionKey = (nat, string)

  datatype IndexMeta = IndexMeta(totals: map<string, nat>, evicted: set<string>)

  datatype VectorCoverage = VectorCoverage(hydrated: nat, total: nat, evictedPartitions: nat)

  datatype HydrateError = LargerThanBudget(needed: nat, limit: nat)

  /** A hydrated partition, seen as a value. */
  datatype Part = Part(vectors: seq<StoredVector>, lastUsed: nat)

  type Parts = map<PartitionKey, Part>

  ghost function Sizes(parts: Parts): map<PartitionKey, nat> {
    map k | k in parts :: SumBytes(parts[k].vectors)
  }

  ghost function Bytes(parts: Parts): nat {
    Sum(Sizes(parts))
  }

  /** Each partition was used at its own moment, before now. */
  ghost predicate Clocked(parts: Parts, clock: nat) {
    && (forall k :: k in parts ==> parts[k].lastUsed < clock)
    && (forall j, k :: j in parts && k in parts && j != k ==> parts[j].lastUsed != parts[k].lastUsed)
  }

  function MetaOf(meta: map<nat, IndexMeta>, index: nat): IndexMeta {
    if index in meta then meta[index] else IndexMeta(map[], {})
  }

  predicate MarkedEvicted(meta: map<nat, IndexMeta>, key: PartitionKey) {
    key.1 in MetaOf(meta, key.0).evicted
  }

  function WithEvicted(meta: map<nat, IndexMeta>, key: PartitionKey): map<nat, IndexMeta> {
    var m := MetaOf(meta, key.0);
    meta[key.0 := m.(evicted := m.evicted + {key.1})]
  }

  function WithoutEvicted(meta: map<nat, IndexMeta>, key: PartitionKey): map<nat, IndexMeta> {
    var m := MetaOf(meta, key.0);
    meta[key.0 := m.(evicted := m.evicted - {key.1})]
  }

  function WithTotal(meta: map<nat, IndexMeta>, key: PartitionKey, total: nat): map<nat, IndexMeta> {
    var m := MetaOf(meta, key.0);
    meta[key.0 := m.(totals := m.totals[key.1 := total])]
  }

  function TotalOf(meta: map<nat, IndexMeta>, key: PartitionKey): nat {
    if key.1 in MetaOf(meta, key.0).totals then MetaOf(meta, key.0).totals[key.1] else 0
  }

  // ── Eviction ───────────────────────────────────────────────────────────────

  /** Every evicted partition was used less recently than every survivor but `keep`. */
  ghost predicate OlderThanRest(before: Parts, gone: set<PartitionKey>, keep: PartitionKey) {
    forall e, s :: e in gone && e in before && s in before && s !in gone && s != keep ==> before[e].lastUsed < before[s].lastUsed
  }

  ghost predicate Newest(before: Parts, gone: set<PartitionKey>, e: PartitionKey) {
    e in gone && e in before && forall f :: f in gone && f in before ==> before[f].lastUsed <= before[e].lastUsed
  }

  /** No more than needed: without the last eviction, `extra` bytes did not fit. */
  ghost predicate NoneInVain(before: Parts, gone: set<PartitionKey>, extra: nat, limit: nat) {
    forall e :: Newest(before, gone, e) ==> Bytes(before - gone) + SumBytes(before[e].vectors) + extra > limit
  }

  ghost predicate LruEvicted(before: Parts, gone: set<PartitionKey>, keep: PartitionKey, extra: nat, limit: nat) {
    gone <= before.Keys && keep !in gone && OlderThanRest(before, gone, keep) && NoneInVain(before, gone, extra, limit)
  }

  /** The evicted partitions are marked so, and nothing else about the indexes changed. */
  ghost predicate MarksEvictions(gone: set<PartitionKey>, m: map<nat, IndexMeta>, n: map<nat, IndexMeta>) {
    && (forall k: PartitionKey :: MarkedEvicted(n, k) <==> MarkedEvicted(m, k) || k in gone)
    && (forall index :: MetaOf(n, index).totals == MetaOf(m, index).totals)
  }

  lemma BytesRemove(parts: Parts, k: PartitionKey)
    requires k in parts
    ensures Bytes(parts) == Bytes(parts - {k}) + SumBytes(parts[k].vectors)
  {
    SumRemove(Sizes(parts), k);
    assert Sizes(parts) - {k} == Sizes(parts - {k});
  }

  lemma BytesPut(parts: Parts, k: PartitionKey, part: Part)
    ensures Bytes(parts[k := part]) == Bytes(parts - {k}) + SumBytes(part.vectors)
  {
    SumPut(Sizes(parts), k, SumBytes(part.vectors));
    assert Sizes(parts[k := part]) == Sizes(parts)[k := SumBytes(part.vectors)];
    assert Sizes(parts) - {k} == Sizes(parts - {k});
  }

  lemma NothingEvicted(parts: Parts, keep: PartitionKey, extra: nat, limit: nat, m: map<nat, IndexMeta>)
    ensures LruEvicted(parts, {}, keep, extra, limit) && MarksEvictions({}, m, m) && parts - {} == parts
  {
  }

  lemma MarksOneMore(gone: set<PartitionKey>, victim: PartitionKey, m: map<nat, IndexMeta>, n: map<nat, IndexMeta>)
    requires MarksEvictions(gone, m, n)
    ensures MarksEvictions(gone + {victim}, m, WithEvicted(n, victim))
  {
    var after := WithEvicted(n, victim);
    forall k: PartitionKey ensures MarkedEvicted(after, k) <==> MarkedEvicted(m, k) || k in gone + {victim} {
      assert MarkedEvicted(after, k) <==> MarkedEvicted(n, k) || k == victim;
    }
  }

  /** One more eviction, of the least recently used survivor. */
  lemma LruOneMore(before: Parts, gone: set<PartitionKey>, keep: PartitionKey, victim: PartitionKey, extra: nat, limit: nat, clock: nat)
    requires LruEvicted(before, gone, keep, extra, limit) && Clocked(before, clock)
    requires victim in before && victim !in gone && victim != keep && Bytes(before - gone) + extra > limit
    requires forall k :: k in before && k !in gone && k != keep ==> before[victim].lastUsed <= before[k].lastUsed
    ensures LruEvicted(before, gone + {victim}, keep, extra, limit) && before - (gone + {victim}) == before - gone - {victim}
  {
    hide Bytes, NoneInVain, SumBytes;
    var wider := gone + {victim};
    assert before - wider == before - gone - {victim};
    BytesRemove(before - gone, victim);
    assert OlderThanRest(before, wider, keep);
    forall e | Newest(before, wider, e) ensures e == victim {
      assert victim in wider;
    }
    OneNewest(before, wider, victim, extra, limit);
  }

  lemma OneNewest(before: Parts, gone: set<PartitionKey>, victim: PartitionKey, extra: nat, limit: nat)
    requires forall e :: Newest(before, gone, e) ==> e == victim
    requires victim in before && Bytes(before - gone) + SumBytes(before[victim].vectors) + extra > limit
    ensures NoneInVain(before, gone, extra, limit)
  {
    hide Newest, Bytes, SumBytes;
  }

  /** The account is exact, uses are told apart, and nothing is both hydrated and marked evicted. */
  ghost predicate Accounted(parts: Parts, meta: map<nat, IndexMeta>, used: nat, clock: nat) {
    used == Bytes(parts) && Clocked(parts, clock) && Unmarked(parts, meta)
  }

  predicate Unmarked(parts: Parts, meta: map<nat, IndexMeta>) {
    forall k :: k in parts ==> !MarkedEvicted(meta, k)
  }

  lemma AccountEvict(parts: Parts, meta: map<nat, IndexMeta>, used: nat, clock: nat, k: PartitionKey)
    requires Accounted(parts, meta, used, clock) && k in parts
    ensures SumBytes(parts[k].vectors) <= used
    ensures Accounted(parts - {k}, meta, used - SumBytes(parts[k].vectors), clock)
    ensures Accounted(parts - {k}, WithEvicted(meta, k), used - SumBytes(parts[k].vectors), clock)
  {
    hide Bytes, SumBytes;
    BytesRemove(parts, k);
    forall j | j in parts - {k} ensures !MarkedEvicted(WithEvicted(meta, k), j) {
      assert !MarkedEvicted(meta, j);
    }
  }

  /** The least recently used partition, other than `keep`. */
  ghost predicate Oldest(parts: Parts, keep: PartitionKey, victim: PartitionKey) {
    && victim in parts && victim != keep
    && forall k :: k in parts && k != keep ==> parts[victim].lastUsed <= parts[k].lastUsed
  }

  /** Half way through making room: `gone` evicted, each rightly. */
  ghost predicate Evicting(start: Parts, marks: map<nat, IndexMeta>, gone: set<PartitionKey>, keep: PartitionKey, extra: nat, limit: nat, clock: nat,
                           parts: Parts, meta: map<nat, IndexMeta>, used: nat) {
    && parts == start - gone && Clocked(start, clock) && Accounted(parts, meta, used, clock)
    && LruEvicted(start, gone, keep, extra, limit) && MarksEvictions(gone, marks, meta)
  }

  lemma EvictingStart(parts: Parts, meta: map<nat, IndexMeta>, keep: PartitionKey, extra: nat, limit: nat, clock: nat, used: nat)
    requires Accounted(parts, meta, used, clock)
    ensures Evicting(parts, meta, {}, keep, extra, limit, clock, parts, meta, used)
  {
    NothingEvicted(parts, keep, extra, limit, meta);
  }

  lemma EvictingStep(start: Parts, marks: map<nat, IndexMeta>, gone: set<PartitionKey>, keep: PartitionKey, extra: nat, limit: nat, clock: nat,
                     parts: Parts, meta: map<nat, IndexMeta>, used: nat, victim: PartitionKey)
    requires Evicting(start, marks, gone, keep, extra, limit, clock, parts, meta, used)
    requires Oldest(parts, keep, victim) && used + extra > limit
    ensures victim in parts && victim !in gone && SumBytes(parts[victim].vectors) <= used
    ensures Evicting(start, marks, gone + {victim}, keep, extra, limit, clock, parts - {victim}, WithEvicted(meta, victim), used - SumBytes(parts[victim].vectors))
  {
    hide Bytes, LruEvicted, MarksEvictions, SumBytes, Clocked, Unmarked, WithEvicted;
    assert forall k :: k in start && k !in gone ==> k in parts && parts[k] == start[k];
    LruOneMore(start, gone, keep, victim, extra, limit, clock);
    MarksOneMore(gone, victim, marks, meta);
    AccountEvict(parts, meta, used, clock, victim);
  }

  class VectorBudget {
    const limit: nat
    var partitions: map<PartitionKey, Partition>
    var meta: map<nat, IndexMeta>
    var used: nat
    var clock: nat
    var nextIndex: nat
    /** The hydrated partitions, as values. */
    ghost var parts: Parts

    /** Every partition object is well formed, stands under one key and is what `parts` says. */
    ghost predicate Objects()
      reads this`partitions, this`parts, partitions.Values
    {
      ObjectsAre(parts)
    }

    ghost predicate ObjectsAre(ps: Parts)
      reads this`partitions, partitions.Values
    {
      && partitions.Keys == ps.Keys
      && (forall k :: k in partitions ==> partitions[k].Valid() && ps[k] == Part(partitions[k].vectors, partitions[k].lastUsed))
      && (forall j, k :: j in partitions && k in partitions && j != k ==> partitions[j] != partitions[k])
    }

    /** The same of every object but one, which is about to change. */
    ghost predicate OthersAre(key: PartitionKey, ps: Parts)
      reads this`partitions, set k | k in partitions && k != key :: partitions[k]
    {
      && partitions.Keys == ps.Keys && key in partitions
      && (forall k :: k in partitions && k != key ==> partitions[k].Valid() && ps[k] == Part(partitions[k].vectors, partitions[k].lastUsed))
      && (forall j, k :: j in partitions && k in partitions && j != k ==> partitions[j] != partitions[k])
    }

    lemma OpenObject(key: PartitionKey)
      requires Objects() && key in partitions
      ensures OthersAre(key, parts) && partitions[key].Valid() && parts[key] == Part(partitions[key].vectors, partitions[key].lastUsed)
      ensures forall k :: k in partitions && k != key ==> partitions[k] != partitions[key]
    {
    }

    lemma CloseObject(key: PartitionKey, ps: Parts)
      requires OthersAre(key, ps) && partitions[key].Valid()
      ensures ObjectsAre(ps[key := Part(partitions[key].vectors, partitions[key].lastUsed)])
    {
      hide Partition.Valid;
    }

    /** Besides an exact account: over the limit only with a single partition. */
    ghost predicate Valid()
      reads this, partitions.Values
    {
      Objects() && Accounted(parts, meta, used, clock) && WithinLimit(parts, used, limit)
    }

    constructor (limit: nat)
      ensures Valid() && this.limit == limit && partitions == map[] && parts == map[] && meta == map[]
    {
      this.limit, partitions, parts, meta, used, clock, nextIndex := limit, map[], map[], map[], 0, 1, 1;
    }

    /** A new index on this budget. */
    method NewIndex() returns (index: nat)
      requires Valid()
      modifies this`meta, this`nextIndex
      ensures Valid() && index == old(nextIndex) && nextIndex == index + 1
      ensures forall i :: MetaOf(meta, i) == MetaOf(old(meta), i)
    {
      hide Clocked, Bytes, Partition.Valid;
      index := nextIndex;
      nextIndex := nextIndex + 1;
      ghost var marks := meta;
      if index !in meta {
        meta := meta[index := IndexMeta(map[], {})];
      }
      assert forall i :: MetaOf(meta, i) == MetaOf(marks, i);
      assert forall k :: MarkedEvicted(meta, k) <==> MarkedEvicted(marks, k);
    }

    method LeastRecentlyUsed(keep: PartitionKey) returns (victim: Option<PartitionKey>)
      requires Objects()
      ensures victim.None? ==> partitions.Keys <= {keep}
      ensures victim.Some? ==> Oldest(parts, keep, victim.value)
    {
      hide Partition.Valid;
      victim := None;
      var rest := partitions.Keys;
      while rest != {}
        invariant rest <= partitions.Keys
        invariant victim.None? ==> forall k :: k in partitions && k !in rest ==> k == keep
        invariant victim.Some? ==>
          && victim.value in partitions && victim.value != keep
          && forall k :: k in parts && k !in rest && k != keep ==> parts[victim.value].lastUsed <= parts[k].lastUsed
      {
        var k :| k in rest;
        rest := rest - {k};
        if k != keep && (victim.None? || partitions[k].lastUsed < partitions[victim.value].lastUsed) {
          victim := Some(k);
        }
      }
    }

    /** Take a partition out of the account. */
    method TakeOut(key: PartitionKey)
      requires Objects() && Accounted(parts, meta, used, clock) && key in partitions
      modifies this`partitions, this`parts, this`used
      ensures Objects() && Accounted(parts, meta, used, clock)
      ensures partitions == old(partitions) - {key} && parts == old(parts) - {key}
      ensures used == old(used) - SumBytes(old(parts)[key].vectors)
      ensures Accounted(parts, WithEvicted(meta, key), used, clock)
    {
      hide Accounted, SumBytes, Partition.Valid, MarkedEvicted, WithEvicted;
      AccountEvict(parts, meta, used, clock, key);
      assert partitions[key].bytes == SumBytes(parts[key].vectors) by { Size(key); }
      used := used - partitions[key].bytes;
      partitions := partitions - {key};
      parts := parts - {key};
    }

    method EvictOne(ghost objects: map<PartitionKey, Partition>, ghost start: Parts, ghost marks: map<nat, IndexMeta>, ghost gone: set<PartitionKey>,
                    keep: PartitionKey, extra: nat, victim: PartitionKey)
      requires Objects() && Evicting(start, marks, gone, keep, extra, limit, clock, parts, meta, used) && partitions == objects - gone
      requires Oldest(parts, keep, victim) && used + extra > limit
      modifies this`partitions, this`parts, this`meta, this`used
      ensures Objects() && Evicting(start, marks, gone + {victim}, keep, extra, limit, clock, parts, meta, used)
      ensures partitions == old(partitions) - {victim} && victim in objects && victim !in gone
    {
      hide SumBytes, Objects, Evicting, Accounted, LruEvicted, MarksEvictions, WithEvicted, Partition.Valid, Oldest;
      SameKeys();
      EvictingStep(start, marks, gone, keep, extra, limit, clock, parts, meta, used, victim);
      EvictingEnds(start, marks, gone, keep, extra, limit, clock, parts, meta, used);
      ghost var rest, left, more := parts - {victim}, used - SumBytes(parts[victim].vectors), gone + {victim};
      ghost var marked := WithEvicted(meta, victim);
      assert Evicting(start, marks, more, keep, extra, limit, clock, rest, marked, left);
      TakeOut(victim);
      meta := WithEvicted(meta, victim);
      assert parts == rest && used == left && meta == marked;
    }

    /** Evict least recently used partitions, never `keep`, until `extra` more bytes fit; says whether they do. */
    method MakeRoom(extra: nat, keep: PartitionKey) returns (fits: bool, ghost gone: set<PartitionKey>)
      requires Objects() && Accounted(parts, meta, used, clock)
      modifies this`partitions, this`parts, this`meta, this`used
      ensures Objects() && Accounted(parts, meta, used, clock)
      ensures partitions == old(partitions) - gone && parts == old(parts) - gone
      ensures LruEvicted(old(parts), gone, keep, extra, limit) && MarksEvictions(gone, old(meta), meta)
      ensures fits <==> used + extra <= limit
      ensures !fits ==> partitions.Keys <= {keep}
      ensures keep !in gone
    {
      hide SumBytes, Objects, Evicting, Accounted, LruEvicted, MarksEvictions, WithEvicted, Partition.Valid, Oldest;
      EvictingStart(parts, meta, keep, extra, limit, clock, used);
      ghost var start, objects, marks := parts, partitions, meta;
      gone := {};
      while used + extra > limit
        invariant Objects() && Evicting(start, marks, gone, keep, extra, limit, clock, parts, meta, used)
        invariant partitions == objects - gone
        decreases |partitions|
      {
        var victim := LeastRecentlyUsed(keep);
        if victim.None? {
          EvictingEnds(start, marks, gone, keep, extra, limit, clock, parts, meta, used);
          return false, gone;
        }
        EvictOne(objects, start, marks, gone, keep, extra, victim.value);
        MinusOneMore(objects, gone, victim.value);
        gone := gone + {victim.value};
      }
      EvictingEnds(start, marks, gone, keep, extra, limit, clock, parts, meta, used);
      fits := true;
    }

    // ── The operations of an index ───────────────────────────────────────────

    method BuildPartition(vectors: seq<(Id, Vector)>, now: nat) returns (built: Partition)
      ensures fresh(built) && built.Valid() && built.vectors == UpsertedAll(vectors) && built.lastUsed == now
    {
      hide Partition.Valid, Upserted;
      built := new Partition();
      assert vectors[..0] == [];
      for n := 0 to |vectors|
        invariant fresh(built) && built.Valid() && built.vectors == UpsertedAll(vectors[..n])
      {
        assert vectors[..n + 1][..n] == vectors[..n];
        var delta := built.Upsert(vectors[n].0, vectors[n].1);
      }
      assert vectors[..|vectors|] == vectors;
      built.lastUsed := now;
    }

    method Place(key: PartitionKey, built: Partition)
      requires Objects() && key !in partitions && built.Valid() && built !in partitions.Values
      modifies this`partitions, this`parts
      ensures Objects()
      ensures partitions == old(partitions)[key := built] && parts == old(parts)[key := Part(built.vectors, built.lastUsed)]
    {
      hide Partition.Valid;
      partitions := partitions[key := built];
      parts := parts[key := Part(built.vectors, built.lastUsed)];
    }

    /** Put a partition that is not hydrated into the account, as the most recently used. */
    method Insert(key: PartitionKey, built: Partition, ghost now: nat)
      requires Objects() && Accounted(parts, meta, used, clock) && key !in partitions
      requires built.Valid() && built !in partitions.Values && built.lastUsed == now && now < clock && Clocked(parts, now)
      modifies this`partitions, this`parts, this`used, this`meta
      ensures Objects() && Accounted(parts, meta, used, clock)
      ensures partitions == old(partitions)[key := built] && parts == old(parts)[key := Part(built.vectors, now)]
      ensures used == old(used) + SumBytes(built.vectors) && meta == WithoutEvicted(old(meta), key)
    {
      hide Accounted, SumBytes, WithoutEvicted, Clocked, Partition.Valid, MarkedEvicted, Objects;
      SameKeys();
      var size := BytesOf(built);
      AccountInsert(parts, meta, used, clock, key, Part(built.vectors, built.lastUsed));
      used := used + size;
      Place(key, built);
      meta := WithoutEvicted(meta, key);
    }

    /** Take the partition out if it is hydrated, and raise its recorded total to `count`. */
    method Replace(key: PartitionKey, count: nat)
      requires Valid()
      modifies this`partitions, this`parts, this`used, this`meta
      ensures Objects() && Accounted(parts, meta, used, clock) && WithinLimit(parts, used, limit)
      ensures partitions == old(partitions) - {key} && parts == old(parts) - {key}
      ensures forall k: PartitionKey :: MarkedEvicted(meta, k) <==> MarkedEvicted(old(meta), k)
      ensures forall k: PartitionKey :: TotalOf(meta, k) == if k == key && TotalOf(old(meta), k) < count then count else TotalOf(old(meta), k)
    {
      hide Accounted, Objects, Partition.Valid, WithTotal, TotalOf, MarkedEvicted, SumBytes, WithinLimit;
      SameKeys();
      ghost var start, was := parts, used;
      if key in partitions {
        TakeOut(key);
      }
      EmptyFits(parts, meta, used, clock);
      FewerWithinLimit(start, was, parts, used, limit, key);
      var total := TotalOf(meta, key);
      AccountTotal(parts, meta, used, clock, key, if total >= count then total else count);
      meta := WithTotal(meta, key, if total >= count then total else count);
    }

    /** Make room for a built partition and put it in. */
    method Admit(key: PartitionKey, built: Partition, ghost now: nat) returns (ghost gone: set<PartitionKey>)
      requires Objects() && Accounted(parts, meta, used, clock) && key !in partitions && SumBytes(built.vectors) <= limit
      requires built.Valid() && built !in partitions.Values && built.lastUsed == now && now < clock && Clocked(parts, now)
      modifies this`partitions, this`parts, this`used, this`meta
      ensures Objects() && Accounted(parts, meta, used, clock) && used <= limit
      ensures partitions.Values <= old(partitions.Values) + {built}
      ensures parts == (old(parts) - gone)[key := Part(built.vectors, now)]
      ensures LruEvicted(old(parts), gone, key, SumBytes(built.vectors), limit)
      ensures forall k: PartitionKey :: MarkedEvicted(meta, k) <==> k != key && (MarkedEvicted(old(meta), k) || k in gone)
      ensures forall k: PartitionKey :: TotalOf(meta, k) == TotalOf(old(meta), k)
    {
      hide Accounted, SumBytes, Objects, Partition.Valid, LruEvicted, MarksEvictions, WithoutEvicted, TotalOf, MarkedEvicted, Clocked;
      ghost var start, marks := parts, meta;
      var needed := BytesOf(built);
      var fits;
      fits, gone := MakeRoom(needed, key);
      SameKeys();
      EmptyFits(parts, meta, used, clock);
      AdmittedMarks(gone, marks, meta, key);
      StillClocked(start, gone, now);
      assert parts.Keys <= {key} ==> parts == map[];
      Insert(key, built, now);
    }

    /**
      Replace a partition by vectors opened from the store. Refused exactly when
      it alone exceeds the whole budget; otherwise making room always succeeds,
      and the budget holds afterwards.
     */
    method Hydrate(index: nat, partition: string, vectors: seq<(Id, Vector)>) returns (r: Option<HydrateError>, ghost gone: set<PartitionKey>)
      requires Valid()
      modifies this
      ensures Valid() && fresh(partitions.Values - old(partitions.Values)) && clock == old(clock) + 1
      ensures r == if SumBytes(UpsertedAll(vectors)) > limit then Some(LargerThanBudget(SumBytes(UpsertedAll(vectors)), limit)) else None
      ensures Hydrated(old(parts), parts, old(meta), meta, (index, partition), UpsertedAll(vectors), old(clock), gone, limit)
      ensures r.None? ==> used <= limit
    {
      hide Accounted, SumBytes, Objects, Partition.Valid, LruEvicted, WithEvicted, UpsertedAll, Clocked, TotalOf, MarkedEvicted, WithinLimit;
      var built := BuildPartition(vectors, clock);
      ghost var now := clock;
      AccountTick(parts, meta, used, clock);
      clock := clock + 1;
      var key := (index, partition);
      Replace(key, |built.vectors|);
      FewerStillClocked(old(parts), key, now);
      gone := {};
      var needed := BytesOf(built);
      SameKeys();
      if needed > limit {
        AccountMark(parts, meta, used, clock, key);
        meta := WithEvicted(meta, key);
        return Some(LargerThanBudget(needed, limit)), {};
      }
      gone := Admit(key, built, now);
      NowWithinLimit(parts, used, limit);
      r := None;
    }

    /** Insert or replace one vector of a hydrated partition. The budget holds afterwards, unless the partition alone is over it. */
    method Upsert(index: nat, partition: string, id: Id, values: Vector) returns (hydrated: bool, ghost gone: set<PartitionKey>)
      requires Valid()
      modifies this, partitions.Values
      ensures Valid() && partitions.Values <= old(partitions.Values)
      ensures hydrated <==> (index, partition) in old(parts)
      ensures !hydrated ==> parts == old(parts) && meta == old(meta) && used == old(used)
      ensures hydrated ==> used <= limit || parts.Keys == {(index, partition)}
      ensures hydrated ==> UpsertedIn(old(parts), parts, old(meta), meta, (index, partition), id, values, old(clock), gone, limit)
    {
      hide Accounted, SumBytes, Objects, Partition.Valid, LruEvicted, WithTotal, Clocked, TotalOf, MarkedEvicted, WithinLimit, MarksEvictions, Upserted, IndexOf;
      var key := (index, partition);
      gone := {};
      SameKeys();
      if key !in partitions {
        return false, {};
      }
      ghost var start, marks, now := parts, meta, clock;
      var existed := UpsertHere(key, id, values);
      ghost var changed := parts;
      if !existed {
        var total := TotalOf(meta, key) + 1;
        AccountTotal(parts, meta, used, clock, key, total);
        meta := WithTotal(meta, key, total);
      }
      ghost var totalled := meta;
      NothingEvicted(parts, key, 0, limit, meta);
      SameKeys();
      if used > limit {
        var fits;
        fits, gone := MakeRoom(0, key);
        SameKeys();
        OneKeyLeft(partitions.Keys, key);
      }
      if used <= limit {
        NowWithinLimit(parts, used, limit);
      } else {
        OneWithinLimit(parts, used, limit, key);
      }
      MarksStill(gone, totalled, meta);
      hydrated := true;
    }

    /** The part of an upsert inside its partition: the vector, the account, the time of use. */
    method UpsertHere(key: PartitionKey, id: Id, values: Vector) returns (existed: bool)
      requires Objects() && Accounted(parts, meta, used, clock) && key in partitions
      modifies this`used, this`clock, this`parts, partitions[key]
      ensures Objects() && Accounted(parts, meta, used, clock) && clock == old(clock) + 1
      ensures parts == old(parts)[key := Part(Upserted(old(parts)[key].vectors, id, values), old(clock))]
      ensures existed <==> Lookup(old(parts)[key].vectors, id).Some?
    {
      hide Accounted, SumBytes, Partition.Valid, Upserted, IndexOf, ObjectsAre, OthersAre;
      var target := partitions[key];
      OpenObject(key);
      existed := Holds(target, id);
      ghost var start := parts;
      var former := BytesOf(target);
      var delta := target.Upsert(id, values);
      var size := BytesOf(target);
      target.lastUsed := clock;
      ghost var after := Part(target.vectors, clock);
      CloseObject(key, start);
      AccountChange(parts, meta, used, clock, key, after);
      used := used + delta;
      clock := clock + 1;
      parts := parts[key := after];
    }

    method Holds(target: Partition, id: Id) returns (there: bool)
      requires target.Valid()
      ensures there <==> Lookup(target.vectors, id).Some?
    {
      target.PositionIs(id);
      there := id in target.positions;
    }

    /** Remove one vector, from memory and from the partition's total. */
    method Remove(index: nat, partition: string, id: Id)
      requires Valid()
      modifies this, partitions.Values
      ensures Valid() && partitions == old(partitions)
      ensures var key := (index, partition);
        if key in old(parts) && IndexOf(old(parts)[key].vectors, id).Some? then
          && parts == old(parts)[key := Part(SwapRemoved(old(parts)[key].vectors, IndexOf(old(parts)[key].vectors, id).value), old(parts)[key].lastUsed)]
          && forall k: PartitionKey :: TotalOf(meta, k) == if k == key && TotalOf(old(meta), k) > 0 then TotalOf(old(meta), k) - 1 else TotalOf(old(meta), k)
        else parts == old(parts) && meta == old(meta)
      ensures forall k: PartitionKey :: MarkedEvicted(meta, k) <==> MarkedEvicted(old(meta), k)
    {
      hide Accounted, SumBytes, Objects, Partition.Valid, WithTotal, Clocked, MarkedEvicted, WithinLimit, IndexOf;
      var key := (index, partition);
      SameKeys();
      if key !in partitions {
        return;
      }
      ghost var start, was := parts, used;
      var removed := RemoveHere(key, id);
      SameKeysWithinLimit(start, was, parts, used, limit);
      if removed > 0 && key.1 in MetaOf(meta, index).totals {
        var total := TotalOf(meta, key);
        AccountTotal(parts, meta, used, clock, key, if total > 0 then total - 1 else 0);
        meta := WithTotal(meta, key, if total > 0 then total - 1 else 0);
      }
    }

    method RemoveHere(key: PartitionKey, id: Id) returns (removed: nat)
      requires Objects() && Accounted(parts, meta, used, clock) && key in partitions
      modifies this`used, this`parts, partitions[key]
      ensures Objects() && Accounted(parts, meta, used, clock) && used <= old(used)
      ensures match IndexOf(old(parts)[key].vectors, id)
        case None => removed == 0 && parts == old(parts)
        case Some(at) => removed > 0 && parts == old(parts)[key := Part(SwapRemoved(old(parts)[key].vectors, at), old(parts)[key].lastUsed)]
    {
      hide Accounted, SumBytes, Partition.Valid, IndexOf, SwapRemoved, ObjectsAre, OthersAre;
      var target := partitions[key];
      OpenObject(key);
      ghost var start := parts;
      var former := BytesOf(target);
      removed := target.Remove(id);
      var size := BytesOf(target);
      ghost var after := Part(target.vectors, target.lastUsed);
      CloseObject(key, start);
      AccountShrink(parts, meta, used, clock, key, after);
      used := used - removed;
      assert IndexOf(start[key].vectors, id).None? ==> parts[key := after] == parts;
      parts := parts[key := after];
    }

    /** Forget a partition: a deleted Space. */
    method DropPartition(index: nat, partition: string)
      requires Valid()
      modifies this
      ensures Valid() && partitions == old(partitions) - {(index, partition)} && parts == old(parts) - {(index, partition)}
      ensures forall k: PartitionKey :: MarkedEvicted(meta, k) <==> MarkedEvicted(old(meta), k) && k != (index, partition)
      ensures forall k: PartitionKey :: TotalOf(meta, k) == if k == (index, partition) then 0 else TotalOf(old(meta), k)
    {
      hide Accounted, SumBytes, Objects, Partition.Valid, Clocked, WithinLimit;
      var key := (index, partition);
      SameKeys();
      ghost var start, was, marks := parts, used, meta;
      if key in partitions {
        TakeOut(key);
      }
      EmptyFits(parts, meta, used, clock);
      FewerWithinLimit(start, was, parts, used, limit, key);
      var m := MetaOf(meta, index);
      meta := meta[index := IndexMeta(m.totals - {partition}, m.evicted - {partition})];
      assert forall k: PartitionKey :: MarkedEvicted(meta, k) <==> MarkedEvicted(marks, k) && k != key;
      FewerMarks(parts, marks, meta, used, clock);
    }

    /** Record how many vectors a partition has, without hydrating it. */
    method SetPartitionTotal(index: nat, partition: string, total: nat)
      requires Valid()
      modifies this`meta
      ensures Valid()
      ensures forall k: PartitionKey :: TotalOf(meta, k) == if k == (index, partition) then total else TotalOf(old(meta), k)
      ensures forall k: PartitionKey :: MarkedEvicted(meta, k) <==> MarkedEvicted(old(meta), k)
    {
      hide Accounted, SumBytes, Objects, WithTotal, TotalOf, MarkedEvicted, WithinLimit;
      AccountTotal(parts, meta, used, clock, (index, partition), total);
      meta := WithTotal(meta, (index, partition), total);
    }

    /**
      The best `k` of a hydrated partition under any scoring, over the vectors of
      the query's length that `keep` accepts; searching makes it the most
      recently used. `None` when it is not hydrated.
     */
    method Search(index: nat, partition: string, query: Vector, k: nat, score: (Vector, Vector) -> int, keep: Id -> bool) returns (r: Option<seq<Scored>>)
      requires Valid()
      modifies this, partitions.Values
      ensures Valid() && partitions == old(partitions) && meta == old(meta) && used == old(used)
      ensures var key := (index, partition);
        if key !in old(parts) then r.None? && parts == old(parts) && clock == old(clock)
        else
          && parts == old(parts)[key := old(parts)[key].(lastUsed := old(clock))] && clock == old(clock) + 1
          && var ranked := Ranked(old(parts)[key].vectors, query, score, keep);
             r.Some? && Scores(r.value) == Best(Scores(ranked), k) && Bag(r.value) <= Bag(ranked)
    {
      hide Accounted, SumBytes, Objects, Partition.Valid, Best, Ranked, WithinLimit;
      var key := (index, partition);
      SameKeys();
      if key !in partitions {
        return None;
      }
      ghost var start := parts;
      Touch(key);
      SameKeysWithinLimit(start, used, parts, used, limit);
      SameVectors(key);
      var best := TopOf(Ranked(partitions[key].vectors, query, score, keep), k);
      r := Some(best);
    }

    method Touch(key: PartitionKey)
      requires Objects() && Accounted(parts, meta, used, clock) && key in partitions
      modifies this`parts, this`clock, partitions[key]
      ensures Objects() && Accounted(parts, meta, used, clock) && clock == old(clock) + 1
      ensures parts == old(parts)[key := old(parts)[key].(lastUsed := old(clock))]
    {
      hide Accounted, SumBytes, Partition.Valid, ObjectsAre, OthersAre;
      OpenObject(key);
      ghost var start, after := parts, parts[key].(lastUsed := clock);
      AccountChange(parts, meta, used, clock, key, after);
      partitions[key].lastUsed := clock;
      CloseObject(key, start);
      clock := clock + 1;
      parts := parts[key := after];
    }

    /** How many vectors an index holds, knows of, and has evicted partitions. */
    method Coverage(index: nat) returns (r: VectorCoverage)
      requires Valid()
      ensures r.hydrated == Sum(Counts(parts, partitions.Keys, index))
      ensures r.total == if Sum(MetaOf(meta, index).totals) >= r.hydrated then Sum(MetaOf(meta, index).totals) else r.hydrated
      ensures r.evictedPartitions == |MetaOf(meta, index).evicted|
    {
      hide Accounted, WithinLimit, Partition.Valid;
      var hydrated := CountHydrated(index);
      var total := SumOf(MetaOf(meta, index).totals);
      r := VectorCoverage(hydrated, if total >= hydrated then total else hydrated, |MetaOf(meta, index).evicted|);
    }

    method CountHydrated(index: nat) returns (n: nat)
      requires Objects()
      ensures n == Sum(Counts(parts, partitions.Keys, index))
    {
      hide Partition.Valid;
      n := 0;
      var rest := partitions.Keys;
      while rest != {}
        invariant rest <= partitions.Keys && n + Sum(Counts(parts, rest, index)) == Sum(Counts(parts, partitions.Keys, index))
      {
        var k :| k in rest;
        CountOne(parts, rest, index, k);
        rest := rest - {k};
        if k.0 == index {
          n := n + |partitions[k].vectors|;
        }
      }
      assert Counts(parts, {}, index) == map[];
    }

    lemma SameVectors(key: PartitionKey)
      requires Objects() && key in partitions
      ensures partitions[key].vectors == parts[key].vectors
    {
    }

    method BytesOf(built: Partition) returns (n: nat)
      requires built.Valid()
      ensures n == built.bytes == SumBytes(built.vectors)
    {
      n := built.bytes;
    }

    lemma Size(key: PartitionKey)
      requires Objects() && key in partitions
      ensures partitions[key].bytes == SumBytes(parts[key].vectors)
    {
    }

    lemma SameKeys()
      requires Objects()
      ensures partitions.Keys == parts.Keys
    {
    }
  }

  ghost predicate WithinLimit(parts: Parts, used: nat, limit: nat) {
    used <= limit || exists k :: parts.Keys == {k}
  }

  lemma EvictingEnds(start: Parts, marks: map<nat, IndexMeta>, gone: set<PartitionKey>, keep: PartitionKey, extra: nat, limit: nat, clock: nat,
                     parts: Parts, meta: map<nat, IndexMeta>, used: nat)
    requires Evicting(start, marks, gone, keep, extra, limit, clock, parts, meta, used)
    ensures parts == start - gone && Accounted(parts, meta, used, clock)
    ensures LruEvicted(start, gone, keep, extra, limit) && MarksEvictions(gone, marks, meta) && keep !in gone
  {
  }

  lemma MinusOneMore<K, V>(m: map<K, V>, gone: set<K>, k: K)
    requires k in m && k !in gone
    ensures m - gone - {k} == m - (gone + {k}) && |m - gone - {k}| < |m - gone|
  {
    assert (m - gone - {k}).Keys == (m - gone).Keys - {k};
  }

  /** What hydrating `key` with `built` does to the cache. */
  ghost predicate Hydrated(before: Parts, after: Parts, m: map<nat, IndexMeta>, n: map<nat, IndexMeta>, key: PartitionKey,
                           built: seq<StoredVector>, now: nat, gone: set<PartitionKey>, limit: nat) {
    var others := before - {key};
    && (if SumBytes(built) > limit then
          && after == others
          && (forall k: PartitionKey :: MarkedEvicted(n, k) <==> MarkedEvicted(m, k) || k == key)
        else
          && after == (others - gone)[key := Part(built, now)]
          && LruEvicted(others, gone, key, SumBytes(built), limit)
          && (forall k: PartitionKey :: MarkedEvicted(n, k) <==> k != key && (MarkedEvicted(m, k) || k in gone)))
    && (forall k: PartitionKey :: TotalOf(n, k) == if k == key && TotalOf(m, k) < |built| then |built| else TotalOf(m, k))
  }

  lemma AdmittedMarks(gone: set<PartitionKey>, m: map<nat, IndexMeta>, n: map<nat, IndexMeta>, key: PartitionKey)
    requires MarksEvictions(gone, m, n)
    ensures forall k: PartitionKey :: MarkedEvicted(WithoutEvicted(n, key), k) <==> k != key && (MarkedEvicted(m, k) || k in gone)
    ensures forall k: PartitionKey :: TotalOf(WithoutEvicted(n, key), k) == TotalOf(m, k)
  {
    UnmarkOne(n, key);
    assert forall k: PartitionKey :: MetaOf(n, k.0).totals == MetaOf(m, k.0).totals;
  }

  lemma StillClocked(parts: Parts, gone: set<PartitionKey>, clock: nat)
    requires Clocked(parts, clock)
    ensures Clocked(parts - gone, clock)
  {
  }

  lemma FewerStillClocked(parts: Parts, key: PartitionKey, clock: nat)
    requires Clocked(parts, clock)
    ensures Clocked(parts - {key}, clock)
  {
  }

  lemma NowWithinLimit(parts: Parts, used: nat, limit: nat)
    requires used <= limit
    ensures WithinLimit(parts, used, limit)
  {
  }

  lemma FewerWithinLimit(before: Parts, was: nat, after: Parts, used: nat, limit: nat, key: PartitionKey)
    requires WithinLimit(before, was, limit) && used <= was && after == before - {key} && (key !in before ==> used == was)
    requires after == map[] ==> used == 0
    ensures WithinLimit(after, used, limit)
  {
    if used > limit {
      var k :| before.Keys == {k};
      assert after.Keys == before.Keys - {key};
      assert after.Keys == {} ==> after == map[];
    }
  }

  lemma AccountTick(parts: Parts, meta: map<nat, IndexMeta>, used: nat, clock: nat)
    requires Accounted(parts, meta, used, clock)
    ensures Accounted(parts, meta, used, clock + 1) && Clocked(parts, clock)
  {
  }

  lemma AccountTotal(parts: Parts, meta: map<nat, IndexMeta>, used: nat, clock: nat, key: PartitionKey, total: nat)
    requires Accounted(parts, meta, used, clock)
    ensures Accounted(parts, WithTotal(meta, key, total), used, clock)
    ensures forall k: PartitionKey :: MarkedEvicted(WithTotal(meta, key, total), k) <==> MarkedEvicted(meta, k)
    ensures forall k: PartitionKey :: TotalOf(WithTotal(meta, key, total), k) == if k == key then total else TotalOf(meta, k)
  {
    hide Clocked, Bytes;
    assert forall k: PartitionKey :: MarkedEvicted(WithTotal(meta, key, total), k) <==> MarkedEvicted(meta, k);
  }

  lemma AccountMark(parts: Parts, meta: map<nat, IndexMeta>, used: nat, clock: nat, key: PartitionKey)
    requires Accounted(parts, meta, used, clock) && key !in parts
    ensures Accounted(parts, WithEvicted(meta, key), used, clock)
    ensures forall k: PartitionKey :: MarkedEvicted(WithEvicted(meta, key), k) <==> MarkedEvicted(meta, k) || k == key
    ensures forall k: PartitionKey :: TotalOf(WithEvicted(meta, key), k) == TotalOf(meta, k)
  {
    hide Clocked, Bytes;
    assert forall k: PartitionKey :: MarkedEvicted(WithEvicted(meta, key), k) <==> MarkedEvicted(meta, k) || k == key;
  }

  lemma AccountInsert(parts: Parts, meta: map<nat, IndexMeta>, used: nat, clock: nat, key: PartitionKey, part: Part)
    requires Accounted(parts, meta, used, clock) && key !in parts && part.lastUsed < clock && Clocked(parts, part.lastUsed)
    ensures Accounted(parts[key := part], WithoutEvicted(meta, key), used + SumBytes(part.vectors), clock)
  {
    hide Bytes, SumBytes;
    BytesPut(parts, key, part);
    assert parts - {key} == parts;
    UnmarkOne(meta, key);
  }

  lemma UnmarkOne(meta: map<nat, IndexMeta>, key: PartitionKey)
    ensures forall k: PartitionKey :: MarkedEvicted(WithoutEvicted(meta, key), k) <==> MarkedEvicted(meta, k) && k != key
    ensures forall k: PartitionKey :: TotalOf(WithoutEvicted(meta, key), k) == TotalOf(meta, k)
  {
  }

  lemma EmptyFits(parts: Parts, meta: map<nat, IndexMeta>, used: nat, clock: nat)
    requires Accounted(parts, meta, used, clock)
    ensures parts == map[] ==> used == 0
  {
    assert parts == map[] ==> Sizes(parts) == map[];
  }

  /** What upserting one vector into a hydrated partition does to the cache. */
  ghost predicate UpsertedIn(before: Parts, after: Parts, m: map<nat, IndexMeta>, n: map<nat, IndexMeta>, key: PartitionKey, id: Id, values: Vector,
                             now: nat, gone: set<PartitionKey>, limit: nat)
    requires key in before
  {
    var changed := before[key := Part(Upserted(before[key].vectors, id, values), now)];
    && after == changed - gone && LruEvicted(changed, gone, key, 0, limit)
    && (forall k: PartitionKey :: MarkedEvicted(n, k) <==> MarkedEvicted(m, k) || k in gone)
    && (forall k: PartitionKey :: TotalOf(n, k) == TotalOf(m, k) + (if k == key && Lookup(before[key].vectors, id).None? then 1 else 0))
  }

  lemma MarksStill(gone: set<PartitionKey>, m: map<nat, IndexMeta>, n: map<nat, IndexMeta>)
    requires MarksEvictions(gone, m, n)
    ensures forall k: PartitionKey :: MarkedEvicted(n, k) <==> MarkedEvicted(m, k) || k in gone
    ensures forall k: PartitionKey :: TotalOf(n, k) == TotalOf(m, k)
  {
    assert forall k: PartitionKey :: MetaOf(n, k.0).totals == MetaOf(m, k.0).totals;
  }

  lemma OneKeyLeft(keys: set<PartitionKey>, key: PartitionKey)
    requires key in keys
    ensures keys <= {key} ==> keys == {key}
  {
  }

  lemma OneWithinLimit(parts: Parts, used: nat, limit: nat, key: PartitionKey)
    requires parts.Keys == {key}
    ensures WithinLimit(parts, used, limit)
  {
  }

  lemma SameKeysWithinLimit(before: Parts, was: nat, after: Parts, used: nat, limit: nat)
    requires WithinLimit(before, was, limit) && used <= was && after.Keys == before.Keys
    ensures WithinLimit(after, used, limit)
  {
  }

  lemma FewerMarks(parts: Parts, m: map<nat, IndexMeta>, n: map<nat, IndexMeta>, used: nat, clock: nat)
    requires Accounted(parts, m, used, clock)
    requires forall k: PartitionKey :: MarkedEvicted(n, k) ==> MarkedEvicted(m, k)
    ensures Accounted(parts, n, used, clock)
  {
    hide MarkedEvicted, Bytes, Clocked;
  }

  /** A partition changes and becomes the most recently used. */
  lemma AccountChange(parts: Parts, meta: map<nat, IndexMeta>, used: nat, clock: nat, key: PartitionKey, after: Part)
    requires Accounted(parts, meta, used, clock) && key in parts && after.lastUsed == clock
    ensures used >= SumBytes(parts[key].vectors)
    ensures Accounted(parts[key := after], meta, used - SumBytes(parts[key].vectors) + SumBytes(after.vectors), clock + 1)
  {
    hide Bytes, SumBytes, MarkedEvicted;
    BytesRemove(parts, key);
    BytesPut(parts, key, after);
  }

  lemma AccountShrink(parts: Parts, meta: map<nat, IndexMeta>, used: nat, clock: nat, key: PartitionKey, after: Part)
    requires Accounted(parts, meta, used, clock) && key in parts && after.lastUsed == parts[key].lastUsed
    ensures used >= SumBytes(parts[key].vectors)
    ensures Accounted(parts[key := after], meta, used - SumBytes(parts[key].vectors) + SumBytes(after.vectors), clock)
  {
    hide Bytes, SumBytes, MarkedEvicted;
    BytesRemove(parts, key);
    BytesPut(parts, key, after);
  }

  /** The candidates of a search, in storage order: right length, in scope, scored. */
  function Ranked(vectors: seq<StoredVector>, query: Vector, score: (Vector, Vector) -> int, keep: Id -> bool): seq<Scored> {
    if vectors == [] then []
    else
      var before := Ranked(vectors[..|vectors| - 1], query, score, keep);
      var v := vectors[|vectors| - 1];
      if |v.values| == |query| && keep(v.id) then before + [Scored(v.id, score(v.values, query))] else before
  }

  /** The places of the vectors of the query's length that the scope accepts and that get this id and score. */
  function PlacesOf(vectors: seq<StoredVector>, query: Vector, score: (Vector, Vector) -> int, keep: Id -> bool, x: Scored): set<nat> {
    set i: nat | i < |vectors| && |vectors[i].values| == |query| && keep(vectors[i].id) && x == Scored(vectors[i].id, score(vectors[i].values, query))
  }

  /** Exactly those vectors are candidates, each once. */
  lemma {:induction false} RankedIs(vectors: seq<StoredVector>, query: Vector, score: (Vector, Vector) -> int, keep: Id -> bool, x: Scored)
    ensures multiset(Ranked(vectors, query, score, keep))[x] == |PlacesOf(vectors, query, score, keep, x)|
  {
    if vectors == [] {
      assert PlacesOf(vectors, query, score, keep, x) == {};
    } else {
      var n := |vectors| - 1;
      RankedIs(vectors[..n], query, score, keep, x);
      PlacesOneMore(vectors, query, score, keep, x);
      hide PlacesOf;
      var v := vectors[n];
      assert |v.values| == |query| && keep(v.id) ==>
        multiset(Ranked(vectors, query, score, keep)) == multiset(Ranked(vectors[..n], query, score, keep)) + multiset{Scored(v.id, score(v.values, query))};
    }
  }

  lemma PlacesOneMore(vectors: seq<StoredVector>, query: Vector, score: (Vector, Vector) -> int, keep: Id -> bool, x: Scored)
    requires vectors != []
    ensures var n := |vectors| - 1; var v := vectors[n];
      |PlacesOf(vectors, query, score, keep, x)|
        == |PlacesOf(vectors[..n], query, score, keep, x)| + if |v.values| == |query| && keep(v.id) && x == Scored(v.id, score(v.values, query)) then 1 else 0
  {
    var n := |vectors| - 1;
    var before, now := PlacesOf(vectors[..n], query, score, keep, x), PlacesOf(vectors, query, score, keep, x);
    assert n !in before && now == if n in now then before + {n} else before;
  }

  /** How many vectors each of these partitions of one index holds. */
  ghost function Counts(parts: Parts, keys: set<PartitionKey>, index: nat): map<PartitionKey, nat> {
    map k | k in keys && k in parts && k.0 == index :: |parts[k].vectors|
  }

  lemma CountOne(parts: Parts, keys: set<PartitionKey>, index: nat, k: PartitionKey)
    requires k in keys && k in parts
    ensures Sum(Counts(parts, keys, index)) == Sum(Counts(parts, keys - {k}, index)) + (if k.0 == index then |parts[k].vectors| else 0)
  {
    if k.0 == index {
      SumRemove(Counts(parts, keys, index), k);
      assert Counts(parts, keys, index) - {k} == Counts(parts, keys - {k}, index);
    } else {
      assert Counts(parts, keys, index) == Counts(parts, keys - {k}, index);
    }
  }

  method SumOf(m: map<string, nat>) returns (n: nat)
    ensures n == Sum(m)
  {
    n := 0;
    var rest := m.Keys;
    assert m - (m.Keys - rest) == m;
    while rest != {}
      invariant rest <= m.Keys && n + Sum(m - (m.Keys - rest)) == Sum(m)
    {
      var k :| k in rest;
      ghost var left := m - (m.Keys - rest);
      SumRemove(left, k);
      assert left - {k} == m - (m.Keys - (rest - {k}));
      rest := rest - {k};
      n := n + m[k];
    }
    assert m - (m.Keys - rest) == map[];
  }
}
