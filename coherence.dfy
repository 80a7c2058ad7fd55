/** When the memo tables and the cache backend hold what the reference
    definitions say they hold, the memoised manager computes exactly the
    reference completion, and leaves the tables as consistent as it found
    them. Consistency is stated per stored entity, and each call is shown
    to touch only the entries of the entity it serves and of the entities
    below it. */
module Coherence {
  import opened PhpValues
  import opened Entities
  import opened Settings
  import opened Dependencies
  import opened CacheKeys
  import opened Aggregate
  import opened Reference
  import opened ManagerSpec

  /** Key `k` is present in both maps or in neither, with the same value. */
  predicate Agree<K, V(==)>(a: map<K, V>, b: map<K, V>, k: K) {
    (k in a <==> k in b) && (k in a ==> a[k] == b[k])
  }

  /** Two aggregate records agree but for the cache tags collected with
      them. */
  predicate SameProgress(p: Progress, q: Progress) {
    p.(cacheTags := q.cacheTags) == q
  }

  /** The entity is the one the store holds under its key. */
  predicate InStore(store: Store, e: Entity) {
    Key(e) in store && store[Key(e)] == e
  }

  /** Distinct stored entities, and distinct fields of one entity, never
      share a memo or cache key, and the two kinds of persistent entry never
      share one. This holds when entity type ids, bundles, ids and field
      names contain no `.`; the key formats do not guarantee it by
      themselves. */
  ghost predicate KeysDistinct(store: Store) {
    && (forall k1, k2 :: k1 in store && k2 in store && ProgressCid(store[k1]) == ProgressCid(store[k2]) ==> k1 == k2)
    && (forall k1, k2 :: k1 in store && k2 in store && FieldProgressCid(store[k1]) == FieldProgressCid(store[k2]) ==> k1 == k2)
    && (forall k1, k2 :: k1 in store && k2 in store ==> FieldProgressCid(store[k1]) != ProgressCid(store[k2]))
    && (forall k1, k2, i1, i2, f1: bool, f2: bool ::
          k1 in store && k2 in store && 0 <= i1 < |store[k1].fields| && 0 <= i2 < |store[k2].fields|
          && DefinitionCid(store[k1], store[k1].fields[i1].definition.name, f1) == DefinitionCid(store[k2], store[k2].fields[i2].definition.name, f2)
          ==> k1 == k2 && i1 == i2 && f1 == f2)
  }

  /** The unforced gate entry of `e`'s definition `d`, if present, is the
      reference gate. */
  ghost predicate GateEntryOK(store: Store, rank: Rank, m: Memo, e: Entity, d: Definition)
    requires StoreValid(store, rank) && Admissible(e) && d in Definitions(e)
  {
    DefinitionCid(e, d.name, false) in m.definition ==> m.definition[DefinitionCid(e, d.name, false)] == Gate(store, rank, e, d, false)
  }

  ghost predicate GatesCoherent(store: Store, rank: Rank, m: Memo, e: Entity)
    requires StoreValid(store, rank) && Admissible(e)
  {
    forall i :: 0 <= i < |e.fields| ==> Definitions(e)[i] in Definitions(e) && GateEntryOK(store, rank, m, e, Definitions(e)[i])
  }

  /** The aggregate memo, the selection memo and both persistent entries of
      `e` hold the reference values; a persistent entry of the other kind
      is never used. */
  ghost predicate DataCoherent(store: Store, rank: Rank, m: Memo, e: Entity)
    requires StoreValid(store, rank) && Admissible(e)
  {
    var cid := ProgressCid(e);
    var fcid := FieldProgressCid(e);
    && (cid in m.progress ==> SameProgress(m.progress[cid], EntityProgress(store, rank, e)))
    && (cid in m.definitions ==> m.definitions[cid] == Selection(store, rank, e))
    && (cid in m.backend && m.backend[cid].ProgressEntry? ==> SameProgress(m.backend[cid].progress, EntityProgress(store, rank, e)))
    && (fcid in m.backend && m.backend[fcid].CompletionEntry? ==> m.backend[fcid].completion == CompletionMap(store, rank, e))
  }

  ghost predicate CoherentAt(store: Store, rank: Rank, m: Memo, e: Entity)
    requires StoreValid(store, rank) && Admissible(e)
  {
    DataCoherent(store, rank, m, e) && GatesCoherent(store, rank, m, e)
  }

  /** Every stored entity below height `h` is coherent. */
  ghost predicate CoherentBelow(store: Store, rank: Rank, m: Memo, h: nat)
    requires StoreValid(store, rank)
  {
    forall k :: k in store && Height(store, rank, store[k]) < h ==> CoherentAt(store, rank, m, store[k])
  }

  ghost predicate Coherent(store: Store, rank: Rank, m: Memo)
    requires StoreValid(store, rank)
  {
    forall k :: k in store ==> CoherentAt(store, rank, m, store[k])
  }

  predicate DataSame(m: Memo, m': Memo, e: Entity) {
    && Agree(m.progress, m'.progress, ProgressCid(e))
    && Agree(m.definitions, m'.definitions, ProgressCid(e))
    && Agree(m.backend, m'.backend, ProgressCid(e))
    && Agree(m.backend, m'.backend, FieldProgressCid(e))
  }

  predicate GatesSame(m: Memo, m': Memo, e: Entity) {
    forall i :: 0 <= i < |e.fields| ==> Agree(m.definition, m'.definition, DefinitionCid(e, e.fields[i].definition.name, false))
  }

  /** Every entry `e`'s coherence depends on is the same in both. */
  predicate SameAt(m: Memo, m': Memo, e: Entity) {
    DataSame(m, m', e) && GatesSame(m, m', e)
  }

  /** No stored entity at or above height `h` has an entry changed. */
  ghost predicate FixedFrom(store: Store, rank: Rank, m: Memo, m': Memo, h: nat) {
    forall k :: k in store && Height(store, rank, store[k]) >= h ==> SameAt(m, m', store[k])
  }

  /** Only the entries of `e` and of entities below it changed. */
  ghost predicate OnlyAtOrBelow(store: Store, rank: Rank, m: Memo, m': Memo, e: Entity) {
    forall k :: k in store && Height(store, rank, store[k]) >= Height(store, rank, e) && store[k] != e ==> SameAt(m, m', store[k])
  }

  /** Only the entries of `e` changed. */
  ghost predicate OnlyEntity(store: Store, m: Memo, m': Memo, e: Entity) {
    forall k :: k in store && store[k] != e ==> SameAt(m, m', store[k])
  }

  // Frame bookkeeping.

  lemma SameKeepsCoherent(store: Store, rank: Rank, m: Memo, m': Memo, e: Entity)
    requires StoreValid(store, rank) && Admissible(e)
    requires SameAt(m, m', e) && CoherentAt(store, rank, m, e)
    ensures CoherentAt(store, rank, m', e)
  {
    forall i | 0 <= i < |e.fields|
      ensures GateEntryOK(store, rank, m', e, Definitions(e)[i])
    {
      assert Agree(m.definition, m'.definition, DefinitionCid(e, e.fields[i].definition.name, false));
    }
  }

  lemma SameTransitive(m0: Memo, m1: Memo, m2: Memo, e: Entity)
    requires SameAt(m0, m1, e) && SameAt(m1, m2, e)
    ensures SameAt(m0, m2, e)
  {
    forall i | 0 <= i < |e.fields|
      ensures Agree(m0.definition, m2.definition, DefinitionCid(e, e.fields[i].definition.name, false))
    {
      assert Agree(m0.definition, m1.definition, DefinitionCid(e, e.fields[i].definition.name, false));
      assert Agree(m1.definition, m2.definition, DefinitionCid(e, e.fields[i].definition.name, false));
    }
  }

  /** A call on a child leaves its parent's level untouched and restores
      coherence up to the parent. */
  lemma ChildCall(store: Store, rank: Rank, m: Memo, m1: Memo, e: Entity, c: Entity)
    requires StoreValid(store, rank) && InStore(store, c)
    requires Height(store, rank, c) < Height(store, rank, e)
    requires CoherentBelow(store, rank, m, Height(store, rank, e))
    requires CoherentBelow(store, rank, m1, Height(store, rank, c)) && CoherentAt(store, rank, m1, c)
    requires OnlyAtOrBelow(store, rank, m, m1, c)
    ensures CoherentBelow(store, rank, m1, Height(store, rank, e))
    ensures FixedFrom(store, rank, m, m1, Height(store, rank, e))
  {
    forall k | k in store && Height(store, rank, store[k]) < Height(store, rank, e)
      ensures CoherentAt(store, rank, m1, store[k])
    {
      if Height(store, rank, store[k]) >= Height(store, rank, c) && store[k] != c {
        SameKeepsCoherent(store, rank, m, m1, store[k]);
      }
    }
  }

  lemma FixedTransitive(store: Store, rank: Rank, m0: Memo, m1: Memo, m2: Memo, h: nat)
    requires FixedFrom(store, rank, m0, m1, h) && FixedFrom(store, rank, m1, m2, h)
    ensures FixedFrom(store, rank, m0, m2, h)
  {
    forall k | k in store && Height(store, rank, store[k]) >= h
      ensures SameAt(m0, m2, store[k])
    {
      SameTransitive(m0, m1, m2, store[k]);
    }
  }

  lemma OnlyTransitive(store: Store, rank: Rank, m0: Memo, m1: Memo, m2: Memo, e: Entity)
    requires OnlyAtOrBelow(store, rank, m0, m1, e) && OnlyAtOrBelow(store, rank, m1, m2, e)
    ensures OnlyAtOrBelow(store, rank, m0, m2, e)
  {
    forall k | k in store && Height(store, rank, store[k]) >= Height(store, rank, e) && store[k] != e
      ensures SameAt(m0, m2, store[k])
    {
      SameTransitive(m0, m1, m2, store[k]);
    }
  }

  /** A level-`e` step that changed nothing at or above `e`'s height keeps
      the invariant. */
  lemma FixedKeeps(store: Store, rank: Rank, m: Memo, m1: Memo, e: Entity)
    requires StoreValid(store, rank) && InStore(store, e)
    requires FixedFrom(store, rank, m, m1, Height(store, rank, e))
    ensures OnlyAtOrBelow(store, rank, m, m1, e) && SameAt(m, m1, e)
  {
    assert SameAt(m, m1, store[Key(e)]);
  }

  /** A step that changed only `e`'s own entries keeps everything below `e`
      coherent. */
  lemma OwnStep(store: Store, rank: Rank, m: Memo, m1: Memo, e: Entity)
    requires StoreValid(store, rank) && InStore(store, e)
    requires OnlyEntity(store, m, m1, e)
    requires CoherentBelow(store, rank, m, Height(store, rank, e))
    ensures CoherentBelow(store, rank, m1, Height(store, rank, e))
    ensures OnlyAtOrBelow(store, rank, m, m1, e)
  {
    forall k | k in store && Height(store, rank, store[k]) < Height(store, rank, e)
      ensures CoherentAt(store, rank, m1, store[k])
    {
      SameKeepsCoherent(store, rank, m, m1, store[k]);
    }
  }

  /** Unforced gate entries of `e` other than `d`'s (all of them for a
      forced check) are unchanged. */
  predicate GatesSameExcept(m: Memo, m': Memo, e: Entity, d: Definition, force: bool) {
    forall i :: 0 <= i < |e.fields| && (force || e.fields[i].definition.name != d.name) ==>
      Agree(m.definition, m'.definition, DefinitionCid(e, e.fields[i].definition.name, false))
  }

  // Each kind of write touches only the entity it is keyed by.

  /** The keys of a different stored entity differ from `e`'s. */
  lemma OtherKeys(store: Store, rank: Rank, e: Entity, k: EntityKey)
    requires KeysDistinct(store) && InStore(store, e)
    requires k in store && store[k] != e
    ensures ProgressCid(store[k]) != ProgressCid(e) && FieldProgressCid(store[k]) != FieldProgressCid(e)
    ensures ProgressCid(store[k]) != FieldProgressCid(e) && FieldProgressCid(store[k]) != ProgressCid(e)
  {
    assert Key(e) in store;
  }

  lemma ProgressWrite(store: Store, rank: Rank, m: Memo, e: Entity, p: Progress)
    requires KeysDistinct(store) && InStore(store, e)
    ensures OnlyEntity(store, m, m.(progress := m.progress[ProgressCid(e) := p]), e)
  {
    forall k | k in store && store[k] != e
      ensures SameAt(m, m.(progress := m.progress[ProgressCid(e) := p]), store[k])
    {
      OtherKeys(store, rank, e, k);
    }
  }

  lemma DefinitionsWrite(store: Store, rank: Rank, m: Memo, e: Entity, v: seq<Definition>)
    requires KeysDistinct(store) && InStore(store, e)
    ensures OnlyEntity(store, m, m.(definitions := m.definitions[ProgressCid(e) := v]), e)
  {
    forall k | k in store && store[k] != e
      ensures SameAt(m, m.(definitions := m.definitions[ProgressCid(e) := v]), store[k])
    {
      OtherKeys(store, rank, e, k);
    }
  }

  lemma BackendProgressWrite(store: Store, rank: Rank, m: Memo, e: Entity, x: CacheEntry)
    requires KeysDistinct(store) && InStore(store, e)
    ensures OnlyEntity(store, m, m.(backend := m.backend[ProgressCid(e) := x]), e)
  {
    forall k | k in store && store[k] != e
      ensures SameAt(m, m.(backend := m.backend[ProgressCid(e) := x]), store[k])
    {
      OtherKeys(store, rank, e, k);
    }
  }

  lemma BackendCompletionWrite(store: Store, rank: Rank, m: Memo, e: Entity, x: CacheEntry)
    requires KeysDistinct(store) && InStore(store, e)
    ensures OnlyEntity(store, m, m.(backend := m.backend[FieldProgressCid(e) := x]), e)
  {
    forall k | k in store && store[k] != e
      ensures SameAt(m, m.(backend := m.backend[FieldProgressCid(e) := x]), store[k])
    {
      OtherKeys(store, rank, e, k);
    }
  }

  lemma Deletion(store: Store, rank: Rank, m: Memo, e: Entity)
    requires KeysDistinct(store) && InStore(store, e)
    ensures var cid := ProgressCid(e);
      OnlyEntity(store, m, m.(progress := m.progress - {cid}, definitions := m.definitions - {cid}, backend := m.backend - {cid}), e)
  {
    var cid := ProgressCid(e);
    forall k | k in store && store[k] != e
      ensures SameAt(m, m.(progress := m.progress - {cid}, definitions := m.definitions - {cid}, backend := m.backend - {cid}), store[k])
    {
      OtherKeys(store, rank, e, k);
    }
  }

  /** A gate key of `e` is no gate key of another stored entity, and an
      unforced gate key of one of `e`'s fields names that field only. */
  lemma GateKeys(store: Store, rank: Rank, e: Entity, i: nat, force: bool, k: EntityKey, j: nat)
    requires KeysDistinct(store) && InStore(store, e)
    requires i < |e.fields| && k in store && j < |store[k].fields|
    ensures DefinitionCid(store[k], store[k].fields[j].definition.name, false) == DefinitionCid(e, e.fields[i].definition.name, force)
      ==> store[k] == e && i == j && !force
  {
    assert Key(e) in store;
  }

  lemma GateWriteOther(store: Store, rank: Rank, m: Memo, e: Entity, i: nat, force: bool, v: bool, k: EntityKey)
    requires KeysDistinct(store) && InStore(store, e) && i < |e.fields|
    requires k in store && store[k] != e
    ensures SameAt(m, m.(definition := m.definition[DefinitionCid(e, e.fields[i].definition.name, force) := v]), store[k])
  {
    var cid := DefinitionCid(e, e.fields[i].definition.name, force);
    forall j | 0 <= j < |store[k].fields|
      ensures DefinitionCid(store[k], store[k].fields[j].definition.name, false) != cid
    {
      GateKeys(store, rank, e, i, force, k, j);
    }
  }

  lemma GateWriteOwn(store: Store, rank: Rank, m: Memo, e: Entity, i: nat, force: bool, v: bool)
    requires KeysDistinct(store) && InStore(store, e) && i < |e.fields|
    ensures var m' := m.(definition := m.definition[DefinitionCid(e, e.fields[i].definition.name, force) := v]);
      DataSame(m, m', e) && GatesSameExcept(m, m', e, e.fields[i].definition, force)
  {
    var cid := DefinitionCid(e, e.fields[i].definition.name, force);
    forall j | 0 <= j < |e.fields| && (force || e.fields[j].definition.name != e.fields[i].definition.name)
      ensures DefinitionCid(e, e.fields[j].definition.name, false) != cid
    {
      GateKeys(store, rank, e, i, force, Key(e), j);
    }
  }

  lemma GateWrite(store: Store, rank: Rank, m: Memo, e: Entity, d: Definition, force: bool, v: bool)
    requires KeysDistinct(store) && InStore(store, e) && d in Definitions(e)
    ensures var m' := m.(definition := m.definition[DefinitionCid(e, d.name, force) := v]);
      OnlyEntity(store, m, m', e) && DataSame(m, m', e) && GatesSameExcept(m, m', e, d, force)
  {
    var i :| 0 <= i < |e.fields| && Definitions(e)[i] == d;
    forall k | k in store && store[k] != e
      ensures SameAt(m, m.(definition := m.definition[DefinitionCid(e, d.name, force) := v]), store[k])
    {
      GateWriteOther(store, rank, m, e, i, force, v, k);
    }
    GateWriteOwn(store, rank, m, e, i, force, v);
  }
}
