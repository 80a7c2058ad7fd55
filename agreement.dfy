/** The memoised manager agrees with the reference completion: each
    function of ManagerSpec, started from coherent tables, returns the
    reference value and leaves the tables coherent, changing only the
    entries of the entity it serves and of the entities below it. The
    lemmas follow the manager's call structure and recurse as it does. */
module Agreement {
  import opened PhpValues
  import opened Entities
  import opened Settings
  import opened Dependencies
  import opened CacheKeys
  import opened Aggregate
  import opened Reference
  import opened ManagerSpec
  import opened Coherence

  /** Whether each entity the field references is complete. */
  ghost function KidsComplete(store: Store, rank: Rank, e: Entity, f: Field): (r: seq<bool>)
    requires StoreValid(store, rank) && f in e.fields
    ensures |r| == |ReferencedEntities(store, f.targets)|
    ensures forall j :: 0 <= j < |r| ==> (ChildrenBelow(store, rank, e, f);
      r[j] == (EntityProgress(store, rank, ReferencedEntities(store, f.targets)[j]).incomplete == 0))
  {
    var kids := ReferencedEntities(store, f.targets);
    ChildrenBelow(store, rank, e, f);
    seq(|kids|, j requires 0 <= j < |kids| => assert kids[j] in kids; EntityProgress(store, rank, kids[j]).incomplete == 0)
  }

  /** Every entity the field references from position `i` on is complete. */
  ghost predicate ChildrenCompleteFrom(store: Store, rank: Rank, e: Entity, f: Field, i: nat)
    requires StoreValid(store, rank) && f in e.fields
  {
    var done := KidsComplete(store, rank, e, f);
    forall j :: i <= j < |done| ==> done[j]
  }

  lemma Unchanged(store: Store, rank: Rank, m: Memo, e: Entity)
    ensures OnlyAtOrBelow(store, rank, m, m, e) && FixedFrom(store, rank, m, m, Height(store, rank, e))
  {
  }

  lemma CoherentLower(store: Store, rank: Rank, m: Memo, e: Entity, c: Entity)
    requires StoreValid(store, rank) && InStore(store, c)
    requires Height(store, rank, c) < Height(store, rank, e)
    requires CoherentBelow(store, rank, m, Height(store, rank, e))
    ensures CoherentBelow(store, rank, m, Height(store, rank, c)) && CoherentAt(store, rank, m, c)
  {
    assert Key(c) in store;
  }

  lemma {:induction false} ReferenceFoldAgrees(store: Store, rank: Rank, m: Memo, e: Entity, f: Field, i: nat, ok: bool, tags: set<string>)
    requires StoreValid(store, rank) && KeysDistinct(store) && InStore(store, e) && Admissible(e) && f in e.fields
    requires CoherentBelow(store, rank, m, Height(store, rank, e))
    ensures ReferenceFold(store, rank, m, e, f, i, ok, tags).1 <==> ok && ChildrenCompleteFrom(store, rank, e, f, i)
    decreases Height(store, rank, e), 1, |ReferencedEntities(store, f.targets)| - i
  {
    var kids := ReferencedEntities(store, f.targets);
    ChildrenBelow(store, rank, e, f);
    if i < |kids| {
      var c := kids[i];
      assert c in kids;
      var r1 := GetProgressM(store, rank, m, c, false);
      ChildAgrees(store, rank, m, e, c);
      ReferenceFoldAgrees(store, rank, r1.0, e, f, i + 1, ok && r1.1.incomplete == 0, tags + c.cacheTags);
      ChildrenCompleteStep(store, rank, e, f, i, c);
      assert ReferenceFold(store, rank, m, e, f, i, ok, tags) == ReferenceFold(store, rank, r1.0, e, f, i + 1, ok && r1.1.incomplete == 0, tags + c.cacheTags);
    }
  }

  lemma ChildrenCompleteStep(store: Store, rank: Rank, e: Entity, f: Field, i: nat, c: Entity)
    requires StoreValid(store, rank) && f in e.fields && i < |ReferencedEntities(store, f.targets)|
    requires c == ReferencedEntities(store, f.targets)[i] && Admissible(c)
    ensures ChildrenCompleteFrom(store, rank, e, f, i) <==>
      EntityProgress(store, rank, c).incomplete == 0 && ChildrenCompleteFrom(store, rank, e, f, i + 1)
  {
    var done := KidsComplete(store, rank, e, f);
    assert done[i] == (EntityProgress(store, rank, c).incomplete == 0);
  }

  /** The fold over the referenced entities leaves the tables coherent
      below `e` and changes nothing at or above `e`'s height. */
  lemma {:induction false} ReferenceFoldFrame(store: Store, rank: Rank, m: Memo, e: Entity, f: Field, i: nat, ok: bool, tags: set<string>)
    requires StoreValid(store, rank) && KeysDistinct(store) && InStore(store, e) && Admissible(e) && f in e.fields
    requires CoherentBelow(store, rank, m, Height(store, rank, e))
    ensures var r := ReferenceFold(store, rank, m, e, f, i, ok, tags);
      && CoherentBelow(store, rank, r.0, Height(store, rank, e))
      && FixedFrom(store, rank, m, r.0, Height(store, rank, e))
    decreases Height(store, rank, e), 1, |ReferencedEntities(store, f.targets)| - i
  {
    var kids := ReferencedEntities(store, f.targets);
    ChildrenBelow(store, rank, e, f);
    if i < |kids| {
      var c := kids[i];
      assert c in kids;
      var r1 := GetProgressM(store, rank, m, c, false);
      ChildAgrees(store, rank, m, e, c);
      ReferenceFoldFrame(store, rank, r1.0, e, f, i + 1, ok && r1.1.incomplete == 0, tags + c.cacheTags);
      var r := ReferenceFold(store, rank, r1.0, e, f, i + 1, ok && r1.1.incomplete == 0, tags + c.cacheTags);
      FixedTransitive(store, rank, m, r1.0, r.0, Height(store, rank, e));
    } else {
      Unchanged(store, rank, m, e);
    }
  }

  /** A request for an entity below `e` gives the reference counts and
      changes nothing at or above `e`'s height. */
  lemma ChildAgrees(store: Store, rank: Rank, m: Memo, e: Entity, c: Entity)
    requires StoreValid(store, rank) && KeysDistinct(store) && InStore(store, c) && Admissible(c)
    requires Height(store, rank, c) < Height(store, rank, e)
    requires CoherentBelow(store, rank, m, Height(store, rank, e))
    ensures var r := GetProgressM(store, rank, m, c, false);
      && r.1.incomplete == EntityProgress(store, rank, c).incomplete
      && CoherentBelow(store, rank, r.0, Height(store, rank, e))
      && FixedFrom(store, rank, m, r.0, Height(store, rank, e))
    decreases Height(store, rank, e), 0
  {
    CoherentLower(store, rank, m, e, c);
    var r := GetProgressM(store, rank, m, c, false);
    GetProgressAgrees(store, rank, m, c, false);
    ChildCall(store, rank, m, r.0, e, c);
  }

  lemma FieldProgressAgrees(store: Store, rank: Rank, m: Memo, e: Entity, name: string, s: SettingsMap, tags: set<string>)
    requires StoreValid(store, rank) && KeysDistinct(store) && InStore(store, e) && Admissible(e)
    requires CoherentBelow(store, rank, m, Height(store, rank, e))
    ensures var r := FieldProgressM(store, rank, m, e, name, s, tags);
      && r.1 == FieldProgress(store, rank, e, name, s)
      && CoherentBelow(store, rank, r.0, Height(store, rank, e))
      && FixedFrom(store, rank, m, r.0, Height(store, rank, e))
    decreases Height(store, rank, e), 2, 1
  {
    Unchanged(store, rank, m, e);
    match Lookup(e, name)
    case None =>
    case Some(f) =>
      if !AllItemsMismatch(f, s) && f.definition.fieldType != BooleanType && f.definition.fieldType != SignatureType
        && IsReferenceType(f.definition.fieldType)
      {
        ReferenceFieldAgrees(store, rank, m, e, f, s, tags);
      }
  }

  /** The reference branch: the fold over the referenced entities. */
  lemma ReferenceFieldAgrees(store: Store, rank: Rank, m: Memo, e: Entity, f: Field, s: SettingsMap, tags: set<string>)
    requires StoreValid(store, rank) && KeysDistinct(store) && InStore(store, e) && Admissible(e) && f in e.fields
    requires Lookup(e, f.definition.name) == Some(f)
    requires CoherentBelow(store, rank, m, Height(store, rank, e))
    requires !AllItemsMismatch(f, s) && f.definition.fieldType != BooleanType && f.definition.fieldType != SignatureType
    requires IsReferenceType(f.definition.fieldType)
    ensures var r := FieldProgressM(store, rank, m, e, f.definition.name, s, tags);
      && r.1 == FieldProgress(store, rank, e, f.definition.name, s)
      && CoherentBelow(store, rank, r.0, Height(store, rank, e))
      && FixedFrom(store, rank, m, r.0, Height(store, rank, e))
    decreases Height(store, rank, e), 2, 0
  {
    var kids := ReferencedEntities(store, f.targets);
    ReferenceFoldAgrees(store, rank, m, e, f, 0, kids != [], tags + f.definition.cacheTags);
    ReferenceFoldFrame(store, rank, m, e, f, 0, kids != [], tags + f.definition.cacheTags);
    ChildrenCompleteAll(store, rank, e, f);
  }

  lemma ChildrenCompleteAll(store: Store, rank: Rank, e: Entity, f: Field)
    requires StoreValid(store, rank) && f in e.fields
    ensures (ChildrenBelow(store, rank, e, f);
      ChildrenCompleteFrom(store, rank, e, f, 0) <==>
        forall j :: 0 <= j < |ReferencedEntities(store, f.targets)| ==>
          EntityProgress(store, rank, ReferencedEntities(store, f.targets)[j]).incomplete == 0)
  {
    ChildrenBelow(store, rank, e, f);
    var done := KidsComplete(store, rank, e, f);
  }

  lemma MutualAgrees(store: Store, rank: Rank, m: Memo, e: Entity, d: Definition, df: Field)
    requires StoreValid(store, rank) && KeysDistinct(store) && InStore(store, e) && Admissible(e)
    requires CoherentBelow(store, rank, m, Height(store, rank, e))
    ensures var r := MutualM(store, rank, m, e, d, df);
      var s := GetDefinitionSettings(d);
      && (r.1 <==> !(Flag(s, "optional") && !FieldProgress(store, rank, e, d.name, s)
                     && FieldProgress(store, rank, e, df.definition.name, GetDefinitionSettings(df.definition))))
      && CoherentBelow(store, rank, r.0, Height(store, rank, e))
      && FixedFrom(store, rank, m, r.0, Height(store, rank, e))
    decreases Height(store, rank, e), 3, 0, 0
  {
    var s := GetDefinitionSettings(d);
    Unchanged(store, rank, m, e);
    if Flag(s, "optional") {
      var own := FieldProgressM(store, rank, m, e, d.name, s, {});
      FieldProgressAgrees(store, rank, m, e, d.name, s, {});
      if !own.1 {
        var ds := GetDefinitionSettings(df.definition);
        FieldProgressAgrees(store, rank, own.0, e, df.definition.name, ds, {});
        var dep := FieldProgressM(store, rank, own.0, e, df.definition.name, ds, {});
        FixedTransitive(store, rank, m, own.0, dep.0, Height(store, rank, e));
      }
    }
  }

  /** The frame of a step that changed nothing of `e`'s and nothing above
      it, composed after one that changed only `e`'s entries other than its
      data and its unforced gates. */
  lemma ComposeGateLevel(store: Store, rank: Rank, m0: Memo, m1: Memo, m2: Memo, e: Entity)
    requires StoreValid(store, rank) && InStore(store, e)
    requires OnlyAtOrBelow(store, rank, m0, m1, e) && DataSame(m0, m1, e) && GatesSame(m0, m1, e)
    requires OnlyAtOrBelow(store, rank, m1, m2, e) && DataSame(m1, m2, e) && GatesSame(m1, m2, e)
    ensures OnlyAtOrBelow(store, rank, m0, m2, e) && DataSame(m0, m2, e) && GatesSame(m0, m2, e)
  {
    OnlyTransitive(store, rank, m0, m1, m2, e);
    SameTransitive(m0, m1, m2, e);
  }

  lemma DependentAgrees(store: Store, rank: Rank, m: Memo, e: Entity, d: Definition, force: bool)
    requires StoreValid(store, rank) && KeysDistinct(store) && InStore(store, e) && Admissible(e) && d in Definitions(e)
    requires Flag(GetDefinitionSettings(d), "enable") && HasDependency(GetDefinitionSettings(d))
    requires CoherentBelow(store, rank, m, Height(store, rank, e))
    ensures var r := DependentM(store, rank, m, e, d, force);
      && r.1 == Gate(store, rank, e, d, force)
      && CoherentBelow(store, rank, r.0, Height(store, rank, e))
      && OnlyAtOrBelow(store, rank, m, r.0, e) && DataSame(m, r.0, e) && GatesSame(m, r.0, e)
    decreases Height(store, rank, e), 3, ChainDepth(e, d), 1
  {
    var s := GetDefinitionSettings(d);
    Unchanged(store, rank, m, e);
    match DependencyField(e, s)
    case None =>
    case Some(df) =>
      var ds := GetDefinitionSettings(df.definition);
      if PointsBack(ds, d.name) {
        MutualAgrees(store, rank, m, e, d, df);
        FixedKeeps(store, rank, m, MutualM(store, rank, m, e, d, df).0, e);
      } else {
        ChainedAgrees(store, rank, m, e, d, df, force);
      }
  }

  /** The chained case: the dependency is checked with force, then its
      value is read. */
  lemma ChainedAgrees(store: Store, rank: Rank, m: Memo, e: Entity, d: Definition, df: Field, force: bool)
    requires StoreValid(store, rank) && KeysDistinct(store) && InStore(store, e) && Admissible(e) && d in Definitions(e)
    requires Flag(GetDefinitionSettings(d), "enable") && HasDependency(GetDefinitionSettings(d))
    requires DependencyField(e, GetDefinitionSettings(d)) == Some(df)
    requires !PointsBack(GetDefinitionSettings(df.definition), d.name)
    requires CoherentBelow(store, rank, m, Height(store, rank, e))
    ensures var r := DependentM(store, rank, m, e, d, force);
      && r.1 == Gate(store, rank, e, d, force)
      && CoherentBelow(store, rank, r.0, Height(store, rank, e))
      && OnlyAtOrBelow(store, rank, m, r.0, e) && DataSame(m, r.0, e) && GatesSame(m, r.0, e)
    decreases Height(store, rank, e), 3, ChainDepth(e, d), 0
  {
    var ds := GetDefinitionSettings(df.definition);
    assert ChainNext(e, d) == Some(df);
    ChainStepDown(e, d);
    var g := GateM(store, rank, m, e, df.definition, true);
    GateAgrees(store, rank, m, e, df.definition, true);
    if g.1 {
      var v := FieldProgressM(store, rank, g.0, e, df.definition.name, ds, {});
      FieldProgressAgrees(store, rank, g.0, e, df.definition.name, ds, {});
      FixedKeeps(store, rank, g.0, v.0, e);
      ComposeGateLevel(store, rank, m, g.0, v.0, e);
    }
    ChainedValue(store, rank, m, e, d, df, force);
  }

  /** The chained gate value, given that the forced check and the field
      predicate of the dependency agree with the reference. */
  lemma ChainedValue(store: Store, rank: Rank, m: Memo, e: Entity, d: Definition, df: Field, force: bool)
    requires StoreValid(store, rank) && Admissible(e) && d in Definitions(e)
    requires Flag(GetDefinitionSettings(d), "enable") && HasDependency(GetDefinitionSettings(d))
    requires DependencyField(e, GetDefinitionSettings(d)) == Some(df)
    requires !PointsBack(GetDefinitionSettings(df.definition), d.name)
    requires ChainNext(e, d) == Some(df) && df.definition in Definitions(e)
    requires ChainDepth(e, df.definition) < ChainDepth(e, d)
    requires GateM(store, rank, m, e, df.definition, true).1 == Gate(store, rank, e, df.definition, true)
    requires var g := GateM(store, rank, m, e, df.definition, true);
      g.1 ==> FieldProgressM(store, rank, g.0, e, df.definition.name, GetDefinitionSettings(df.definition), {}).1
              == FieldProgress(store, rank, e, df.definition.name, GetDefinitionSettings(df.definition))
    ensures DependentM(store, rank, m, e, d, force).1 == Gate(store, rank, e, d, force)
  {
  }

  lemma GateAgrees(store: Store, rank: Rank, m: Memo, e: Entity, d: Definition, force: bool)
    requires StoreValid(store, rank) && KeysDistinct(store) && InStore(store, e) && Admissible(e) && d in Definitions(e)
    requires CoherentBelow(store, rank, m, Height(store, rank, e))
    requires !force ==> GateEntryOK(store, rank, m, e, d)
    ensures var r := GateM(store, rank, m, e, d, force);
      && r.1 == Gate(store, rank, e, d, force)
      && CoherentBelow(store, rank, r.0, Height(store, rank, e))
      && OnlyAtOrBelow(store, rank, m, r.0, e) && DataSame(m, r.0, e)
      && GatesSameExcept(m, r.0, e, d, force)
      && (!force ==> DefinitionCid(e, d.name, false) in r.0.definition
                     && r.0.definition[DefinitionCid(e, d.name, false)] == Gate(store, rank, e, d, false))
    decreases Height(store, rank, e), 3, ChainDepth(e, d), 3
  {
    var cid := DefinitionCid(e, d.name, force);
    Unchanged(store, rank, m, e);
    if !(cid in m.definition && !force) {
      GateComputeAgrees(store, rank, m, e, d, force);
    }
  }

  lemma GateComputeAgrees(store: Store, rank: Rank, m: Memo, e: Entity, d: Definition, force: bool)
    requires StoreValid(store, rank) && KeysDistinct(store) && InStore(store, e) && Admissible(e) && d in Definitions(e)
    requires CoherentBelow(store, rank, m, Height(store, rank, e))
    ensures var r := GateComputeM(store, rank, m, e, d, force);
      && r.1 == Gate(store, rank, e, d, force)
      && CoherentBelow(store, rank, r.0, Height(store, rank, e))
      && OnlyAtOrBelow(store, rank, m, r.0, e) && DataSame(m, r.0, e)
      && GatesSameExcept(m, r.0, e, d, force)
      && DefinitionCid(e, d.name, force) in r.0.definition
      && r.0.definition[DefinitionCid(e, d.name, force)] == r.1
    decreases Height(store, rank, e), 3, ChainDepth(e, d), 2
  {
    var s := GetDefinitionSettings(d);
    if Flag(s, "enable") && HasDependency(s) {
      var cid := DefinitionCid(e, d.name, force);
      var m1 := m.(definition := m.definition[cid := false]);
      GateEntryStep(store, rank, m, e, d, force, false);
      var r := DependentM(store, rank, m1, e, d, force);
      DependentAgrees(store, rank, m1, e, d, force);
      GateEntryStep(store, rank, r.0, e, d, force, r.1);
      var m2 := r.0.(definition := r.0.definition[cid := r.1]);
      OnlyTransitive(store, rank, m, m1, r.0, e);
      OnlyTransitive(store, rank, m, r.0, m2, e);
      GatesExceptCompose(m, m1, r.0, m2, e, d, force);
    } else {
      GateWithoutDependency(store, rank, m, e, d, force);
    }
  }

  /** Without a dependency to follow, the gate is its `enable` setting, or
      true when forced. */
  lemma GateWithoutDependency(store: Store, rank: Rank, m: Memo, e: Entity, d: Definition, force: bool)
    requires StoreValid(store, rank) && KeysDistinct(store) && InStore(store, e) && Admissible(e) && d in Definitions(e)
    requires CoherentBelow(store, rank, m, Height(store, rank, e))
    requires !(Flag(GetDefinitionSettings(d), "enable") && HasDependency(GetDefinitionSettings(d)))
    ensures var r := GateComputeM(store, rank, m, e, d, force);
      && r.1 == Gate(store, rank, e, d, force)
      && CoherentBelow(store, rank, r.0, Height(store, rank, e))
      && OnlyAtOrBelow(store, rank, m, r.0, e) && DataSame(m, r.0, e)
      && GatesSameExcept(m, r.0, e, d, force)
      && DefinitionCid(e, d.name, force) in r.0.definition
      && r.0.definition[DefinitionCid(e, d.name, force)] == r.1
  {
    var cid := DefinitionCid(e, d.name, force);
    var m1 := m.(definition := m.definition[cid := false]);
    GateEntryStep(store, rank, m, e, d, force, false);
    if force || Flag(GetDefinitionSettings(d), "enable") {
      GateEntryStep(store, rank, m1, e, d, force, true);
      var m2 := m1.(definition := m1.definition[cid := true]);
      OnlyTransitive(store, rank, m, m1, m2, e);
      GatesExceptCompose(m, m1, m1, m2, e, d, force);
    }
  }

  /** Writing one of `e`'s gate entries keeps the tables coherent below
      `e` and touches nothing else of `e`. */
  lemma GateEntryStep(store: Store, rank: Rank, m: Memo, e: Entity, d: Definition, force: bool, v: bool)
    requires StoreValid(store, rank) && KeysDistinct(store) && InStore(store, e) && d in Definitions(e)
    requires CoherentBelow(store, rank, m, Height(store, rank, e))
    ensures var m' := m.(definition := m.definition[DefinitionCid(e, d.name, force) := v]);
      && CoherentBelow(store, rank, m', Height(store, rank, e))
      && OnlyAtOrBelow(store, rank, m, m', e) && DataSame(m, m', e) && GatesSameExcept(m, m', e, d, force)
  {
    var m' := m.(definition := m.definition[DefinitionCid(e, d.name, force) := v]);
    GateWrite(store, rank, m, e, d, force, v);
    OwnStep(store, rank, m, m', e);
  }

  lemma GatesExceptCompose(m0: Memo, m1: Memo, m2: Memo, m3: Memo, e: Entity, d: Definition, force: bool)
    requires DataSame(m0, m1, e) && DataSame(m1, m2, e) && DataSame(m2, m3, e)
    requires GatesSameExcept(m0, m1, e, d, force) && GatesSame(m1, m2, e) && GatesSameExcept(m2, m3, e, d, force)
    ensures DataSame(m0, m3, e) && GatesSameExcept(m0, m3, e, d, force)
  {
  }

  /** An unforced check that brought its own entry up to date keeps all of
      `e`'s gate entries coherent. */
  lemma GateKeepsGates(store: Store, rank: Rank, m: Memo, m': Memo, e: Entity, i: nat)
    requires StoreValid(store, rank) && Admissible(e) && i < |e.fields|
    requires GatesCoherent(store, rank, m, e)
    requires GatesSameExcept(m, m', e, e.fields[i].definition, false)
    requires DefinitionCid(e, e.fields[i].definition.name, false) in m'.definition
    requires m'.definition[DefinitionCid(e, e.fields[i].definition.name, false)] == Gate(store, rank, e, e.fields[i].definition, false)
    ensures GatesCoherent(store, rank, m', e)
  {
    forall j | 0 <= j < |e.fields|
      ensures GateEntryOK(store, rank, m', e, Definitions(e)[j])
    {
      if e.fields[j].definition.name == e.fields[i].definition.name {
        assert j == i;
      } else {
        assert Agree(m.definition, m'.definition, DefinitionCid(e, e.fields[j].definition.name, false));
      }
    }
  }

  lemma {:induction false} SelectAgrees(store: Store, rank: Rank, m: Memo, e: Entity, i: nat)
    requires StoreValid(store, rank) && KeysDistinct(store) && InStore(store, e) && Admissible(e)
    requires CoherentBelow(store, rank, m, Height(store, rank, e)) && GatesCoherent(store, rank, m, e)
    requires ProgressCid(e) in m.definitions
    ensures var cid := ProgressCid(e);
      var r := SelectFold(store, rank, m, e, cid, i);
      && cid in r.definitions && r.definitions[cid] == SelectFrom(store, rank, e, i, m.definitions[cid])
      && CoherentBelow(store, rank, r, Height(store, rank, e)) && GatesCoherent(store, rank, r, e)
      && OnlyAtOrBelow(store, rank, m, r, e)
      && Agree(m.progress, r.progress, cid) && Agree(m.backend, r.backend, cid)
      && Agree(m.backend, r.backend, FieldProgressCid(e))
    decreases Height(store, rank, e), 4, |e.fields| - i
  {
    var cid := ProgressCid(e);
    Unchanged(store, rank, m, e);
    if i < |e.fields| {
      var d := e.fields[i].definition;
      assert d == Definitions(e)[i];
      var g := GateM(store, rank, m, e, d, false);
      GateAgrees(store, rank, m, e, d, false);
      GateKeepsGates(store, rank, m, g.0, e, i);
      var acc := m.definitions[cid];
      var m1 := if g.1 then g.0.(definitions := g.0.definitions[cid := PutDefinition(Stored(g.0.definitions, cid), d)]) else g.0;
      if g.1 {
        DefinitionsWrite(store, rank, g.0, e, PutDefinition(Stored(g.0.definitions, cid), d));
        OwnStep(store, rank, g.0, m1, e);
        assert GatesCoherent(store, rank, m1, e) by {
          assert m1.definition == g.0.definition;
          forall j | 0 <= j < |e.fields|
            ensures GateEntryOK(store, rank, m1, e, Definitions(e)[j])
          {
            assert GateEntryOK(store, rank, g.0, e, Definitions(e)[j]);
          }
        }
      } else {
        Unchanged(store, rank, g.0, e);
      }
      OnlyTransitive(store, rank, m, g.0, m1, e);
      assert m1.definitions[cid] == (if Gate(store, rank, e, d, false) then PutDefinition(acc, d) else acc);
      SelectAgrees(store, rank, m1, e, i + 1);
      OnlyTransitive(store, rank, m, m1, SelectFold(store, rank, m1, e, cid, i + 1), e);
    }
  }

  lemma FieldDefinitionsAgrees(store: Store, rank: Rank, m: Memo, e: Entity)
    requires StoreValid(store, rank) && KeysDistinct(store) && InStore(store, e) && Admissible(e)
    requires CoherentBelow(store, rank, m, Height(store, rank, e)) && CoherentAt(store, rank, m, e)
    ensures var r := GetFieldDefinitionsM(store, rank, m, e);
      && r.1 == Selection(store, rank, e)
      && CoherentBelow(store, rank, r.0, Height(store, rank, e)) && CoherentAt(store, rank, r.0, e)
      && OnlyAtOrBelow(store, rank, m, r.0, e)
    decreases Height(store, rank, e), 5
  {
    var cid := ProgressCid(e);
    Unchanged(store, rank, m, e);
    if cid !in m.definitions {
      var m1 := m.(definitions := m.definitions[cid := []]);
      DefinitionsWrite(store, rank, m, e, []);
      OwnStep(store, rank, m, m1, e);
      assert GatesCoherent(store, rank, m1, e) by {
        forall j | 0 <= j < |e.fields|
          ensures GateEntryOK(store, rank, m1, e, Definitions(e)[j])
        {
          assert GateEntryOK(store, rank, m, e, Definitions(e)[j]);
        }
      }
      SelectAgrees(store, rank, m1, e, 0);
      var r := SelectFold(store, rank, m1, e, cid, 0);
      OnlyTransitive(store, rank, m, m1, r, e);
      assert r.definitions[cid] == Selection(store, rank, e);
    }
  }

  lemma {:induction false} CompletionAgrees(store: Store, rank: Rank, m: Memo, e: Entity, sel: seq<Definition>, i: nat, c: Completion, tags: set<string>)
    requires StoreValid(store, rank) && KeysDistinct(store) && InStore(store, e) && Admissible(e)
    requires CoherentBelow(store, rank, m, Height(store, rank, e))
    ensures var r := CompletionFold(store, rank, m, e, sel, i, c, tags);
      && r.1 == CompletionFrom(store, rank, e, sel, i, c)
      && CoherentBelow(store, rank, r.0, Height(store, rank, e))
      && FixedFrom(store, rank, m, r.0, Height(store, rank, e))
    decreases Height(store, rank, e), 6, |sel| - i
  {
    Unchanged(store, rank, m, e);
    if i < |sel| {
      if !Updatable(e, sel[i].name) {
        CompletionAgrees(store, rank, m, e, sel, i + 1, c, tags);
      } else {
        var ds := GetDefinitionSettings(sel[i]);
        var r1 := FieldProgressM(store, rank, m, e, sel[i].name, ds, tags);
        FieldProgressAgrees(store, rank, m, e, sel[i].name, ds, tags);
        CompletionAgrees(store, rank, r1.0, e, sel, i + 1, Put(c, sel[i].name, r1.1), r1.2);
        var r := CompletionFold(store, rank, r1.0, e, sel, i + 1, Put(c, sel[i].name, r1.1), r1.2);
        FixedTransitive(store, rank, m, r1.0, r.0, Height(store, rank, e));
      }
    }
  }

  lemma GetFieldProgressAgrees(store: Store, rank: Rank, m: Memo, e: Entity, tags: set<string>)
    requires StoreValid(store, rank) && KeysDistinct(store) && InStore(store, e) && Admissible(e)
    requires CoherentBelow(store, rank, m, Height(store, rank, e)) && CoherentAt(store, rank, m, e)
    ensures var r := GetFieldProgressM(store, rank, m, e, tags);
      && r.1 == CompletionMap(store, rank, e)
      && CoherentBelow(store, rank, r.0, Height(store, rank, e)) && CoherentAt(store, rank, r.0, e)
      && OnlyAtOrBelow(store, rank, m, r.0, e)
    decreases Height(store, rank, e), 7
  {
    var fcid := FieldProgressCid(e);
    Unchanged(store, rank, m, e);
    if !(fcid in m.backend && m.backend[fcid].CompletionEntry?) {
      var g := GetFieldDefinitionsM(store, rank, m, e);
      FieldDefinitionsAgrees(store, rank, m, e);
      var r := CompletionFold(store, rank, g.0, e, g.1, 0, [], tags + e.cacheTags);
      CompletionAgrees(store, rank, g.0, e, g.1, 0, [], tags + e.cacheTags);
      FixedKeeps(store, rank, g.0, r.0, e);
      SameKeepsCoherent(store, rank, g.0, r.0, e);
      var m2 := r.0.(backend := r.0.backend[fcid := CompletionEntry(r.1, r.2)]);
      BackendCompletionWrite(store, rank, r.0, e, CompletionEntry(r.1, r.2));
      OwnStep(store, rank, r.0, m2, e);
      OnlyTransitive(store, rank, m, g.0, r.0, e);
      OnlyTransitive(store, rank, m, r.0, m2, e);
      ProgressCidsDiffer(e);
      CompletionWriteCoherent(store, rank, r.0, e, r.1, r.2);
    }
  }

  lemma CompletionWriteCoherent(store: Store, rank: Rank, m: Memo, e: Entity, c: Completion, tags: set<string>)
    requires StoreValid(store, rank) && Admissible(e)
    requires CoherentAt(store, rank, m, e) && c == CompletionMap(store, rank, e)
    ensures CoherentAt(store, rank, m.(backend := m.backend[FieldProgressCid(e) := CompletionEntry(c, tags)]), e)
  {
    var m' := m.(backend := m.backend[FieldProgressCid(e) := CompletionEntry(c, tags)]);
    ProgressCidsDiffer(e);
    forall j | 0 <= j < |e.fields|
      ensures GateEntryOK(store, rank, m', e, Definitions(e)[j])
    {
      assert GateEntryOK(store, rank, m, e, Definitions(e)[j]);
    }
  }

  lemma GetProgressAgrees(store: Store, rank: Rank, m: Memo, e: Entity, noCache: bool)
    requires StoreValid(store, rank) && KeysDistinct(store) && InStore(store, e) && Admissible(e)
    requires CoherentBelow(store, rank, m, Height(store, rank, e)) && CoherentAt(store, rank, m, e)
    ensures var r := GetProgressM(store, rank, m, e, noCache);
      && SameProgress(r.1, EntityProgress(store, rank, e))
      && CoherentBelow(store, rank, r.0, Height(store, rank, e)) && CoherentAt(store, rank, r.0, e)
      && OnlyAtOrBelow(store, rank, m, r.0, e)
    decreases Height(store, rank, e), 8
  {
    var cid := ProgressCid(e);
    var m0 := if noCache then m.(progress := m.progress - {cid}, definitions := m.definitions - {cid}, backend := m.backend - {cid}) else m;
    Unchanged(store, rank, m, e);
    if noCache {
      Deletion(store, rank, m, e);
      OwnStep(store, rank, m, m0, e);
      DeletionCoherent(store, rank, m, e);
    }
    if cid in m0.progress {
    } else if cid in m0.backend && m0.backend[cid].ProgressEntry? {
      var p := m0.backend[cid].progress;
      ProgressWrite(store, rank, m0, e, p);
      OwnStep(store, rank, m0, m0.(progress := m0.progress[cid := p]), e);
      OnlyTransitive(store, rank, m, m0, m0.(progress := m0.progress[cid := p]), e);
      ProgressWriteCoherent(store, rank, m0, e, p);
    } else {
      var fp := GetFieldProgressM(store, rank, m0, e, {ModuleTag});
      GetFieldProgressAgrees(store, rank, m0, e, {ModuleTag});
      var g := GetFieldDefinitionsM(store, rank, fp.0, e);
      FieldDefinitionsAgrees(store, rank, fp.0, e);
      var p := MakeProgress(e, fp.1, g.1, fp.2);
      assert EntityProgress(store, rank, e) == MakeProgress(e, CompletionMap(store, rank, e), Selection(store, rank, e), {});
      assert SameProgress(p, EntityProgress(store, rank, e));
      var m1 := g.0.(backend := g.0.backend[cid := ProgressEntry(p, fp.2)]);
      BackendProgressWrite(store, rank, g.0, e, ProgressEntry(p, fp.2));
      OwnStep(store, rank, g.0, m1, e);
      BackendWriteCoherent(store, rank, g.0, e, p, fp.2);
      var m2 := m1.(progress := m1.progress[cid := p]);
      ProgressWrite(store, rank, m1, e, p);
      OwnStep(store, rank, m1, m2, e);
      ProgressWriteCoherent(store, rank, m1, e, p);
      OnlyTransitive(store, rank, m, m0, fp.0, e);
      OnlyTransitive(store, rank, m, fp.0, g.0, e);
      OnlyTransitive(store, rank, m, g.0, m1, e);
      OnlyTransitive(store, rank, m, m1, m2, e);
    }
  }

  lemma DeletionCoherent(store: Store, rank: Rank, m: Memo, e: Entity)
    requires StoreValid(store, rank) && Admissible(e) && CoherentAt(store, rank, m, e)
    ensures var cid := ProgressCid(e);
      CoherentAt(store, rank, m.(progress := m.progress - {cid}, definitions := m.definitions - {cid}, backend := m.backend - {cid}), e)
  {
    var cid := ProgressCid(e);
    var m' := m.(progress := m.progress - {cid}, definitions := m.definitions - {cid}, backend := m.backend - {cid});
    ProgressCidsDiffer(e);
    forall j | 0 <= j < |e.fields|
      ensures GateEntryOK(store, rank, m', e, Definitions(e)[j])
    {
      assert GateEntryOK(store, rank, m, e, Definitions(e)[j]);
    }
  }

  lemma ProgressWriteCoherent(store: Store, rank: Rank, m: Memo, e: Entity, p: Progress)
    requires StoreValid(store, rank) && Admissible(e) && CoherentAt(store, rank, m, e)
    requires SameProgress(p, EntityProgress(store, rank, e))
    ensures CoherentAt(store, rank, m.(progress := m.progress[ProgressCid(e) := p]), e)
  {
    var m' := m.(progress := m.progress[ProgressCid(e) := p]);
    forall j | 0 <= j < |e.fields|
      ensures GateEntryOK(store, rank, m', e, Definitions(e)[j])
    {
      assert GateEntryOK(store, rank, m, e, Definitions(e)[j]);
    }
  }

  lemma BackendWriteCoherent(store: Store, rank: Rank, m: Memo, e: Entity, p: Progress, tags: set<string>)
    requires StoreValid(store, rank) && Admissible(e) && CoherentAt(store, rank, m, e)
    requires SameProgress(p, EntityProgress(store, rank, e))
    ensures CoherentAt(store, rank, m.(backend := m.backend[ProgressCid(e) := ProgressEntry(p, tags)]), e)
  {
    var m' := m.(backend := m.backend[ProgressCid(e) := ProgressEntry(p, tags)]);
    ProgressCidsDiffer(e);
    forall j | 0 <= j < |e.fields|
      ensures GateEntryOK(store, rank, m', e, Definitions(e)[j])
    {
      assert GateEntryOK(store, rank, m, e, Definitions(e)[j]);
    }
  }

  // What the manager promises its callers.

  /** From coherent tables, `getProgress` returns the reference record (up
      to the cache tags collected with it) and leaves the tables coherent. */
  lemma ManagerMatchesReference(store: Store, rank: Rank, m: Memo, e: Entity, noCache: bool)
    requires StoreValid(store, rank) && KeysDistinct(store) && InStore(store, e)
    requires Coherent(store, rank, m)
    ensures Admissible(e)
    ensures var r := GetProgressM(store, rank, m, e, noCache);
      SameProgress(r.1, EntityProgress(store, rank, e)) && Coherent(store, rank, r.0)
  {
    assert Key(e) in store;
    var h := Height(store, rank, e);
    assert CoherentBelow(store, rank, m, h);
    GetProgressAgrees(store, rank, m, e, noCache);
    var r := GetProgressM(store, rank, m, e, noCache);
    forall k | k in store
      ensures CoherentAt(store, rank, r.0, store[k])
    {
      if store[k] != e && Height(store, rank, store[k]) >= h {
        SameKeepsCoherent(store, rank, m, r.0, store[k]);
      }
    }
  }

  /** Empty memo tables over an empty backend are coherent, so the first
      request of a fresh manager computes the reference record. */
  lemma FreshManagerMatchesReference(store: Store, rank: Rank, e: Entity, noCache: bool)
    requires StoreValid(store, rank) && KeysDistinct(store) && InStore(store, e)
    ensures Admissible(e)
    ensures SameProgress(GetProgressM(store, rank, Memo(map[], map[], map[], map[]), e, noCache).1, EntityProgress(store, rank, e))
  {
    var m := Memo(map[], map[], map[], map[]);
    forall k | k in store
      ensures CoherentAt(store, rank, m, store[k])
    {
    }
    ManagerMatchesReference(store, rank, m, e, noCache);
  }

  /** A second request for the same entity without `noCache` is answered
      from the memo and changes nothing. */
  lemma RepeatedRequestIsMemoised(store: Store, rank: Rank, m: Memo, e: Entity, noCache: bool)
    requires StoreValid(store, rank) && Admissible(e)
    ensures var r := GetProgressM(store, rank, m, e, noCache);
      GetProgressM(store, rank, r.0, e, false) == r
  {
  }

  /** `noCache` drops the memoised and the persistent aggregate but not the
      persistent completion map: a stored completion map is reused as it
      is, whatever the entity now holds. */
  lemma NoCacheReusesStoredCompletion(store: Store, rank: Rank, m: Memo, e: Entity)
    requires StoreValid(store, rank) && Admissible(e)
    requires FieldProgressCid(e) in m.backend && m.backend[FieldProgressCid(e)].CompletionEntry?
    ensures var c := m.backend[FieldProgressCid(e)].completion;
      var p := GetProgressM(store, rank, m, e, true).1;
      p.total == |c| && p.complete == |ArrayFilter(c)| && p.incomplete == |Rejected(c)|
  {
    var cid := ProgressCid(e);
    var c := m.backend[FieldProgressCid(e)].completion;
    ProgressCidsDiffer(e);
    var m0 := m.(progress := m.progress - {cid}, definitions := m.definitions - {cid}, backend := m.backend - {cid});
    assert m0.backend[FieldProgressCid(e)] == m.backend[FieldProgressCid(e)];
    var fp := GetFieldProgressM(store, rank, m0, e, {ModuleTag});
    assert fp.1 == c;
    var g := GetFieldDefinitionsM(store, rank, fp.0, e);
    assert ComputeProgressM(store, rank, m0, e).1 == MakeProgress(e, c, g.1, fp.2);
  }
  /** `noCache` is the deletion of the aggregate memo, the selection memo
      and the persistent aggregate, followed by an ordinary request: the
      gate memo and every other persistent entry, the completion map's
      among them, are left as they were. */
  lemma NoCacheEvictsOnlyProgressKeys(store: Store, rank: Rank, m: Memo, e: Entity)
    requires StoreValid(store, rank) && Admissible(e)
    ensures var cid := ProgressCid(e);
      var m0 := m.(progress := m.progress - {cid}, definitions := m.definitions - {cid}, backend := m.backend - {cid});
      && GetProgressM(store, rank, m, e, true) == GetProgressM(store, rank, m0, e, false)
      && cid !in m0.progress && cid !in m0.definitions && cid !in m0.backend
      && m0.definition == m.definition
      && FieldProgressCid(e) != cid
      && (forall k :: k != cid ==> (k in m0.backend <==> k in m.backend))
      && (forall k :: k != cid && k in m.backend ==> m0.backend[k] == m.backend[k])
  {
    ProgressCidsDiffer(e);
  }

  /** A forced check is recomputed whatever its memo entry holds: from
      tables coherent below `e` it yields the forced reference gate. */
  lemma ForcedGateIgnoresMemo(store: Store, rank: Rank, m: Memo, e: Entity, d: Definition, v: bool)
    requires StoreValid(store, rank) && KeysDistinct(store) && InStore(store, e) && Admissible(e) && d in Definitions(e)
    requires CoherentBelow(store, rank, m, Height(store, rank, e))
    ensures GateM(store, rank, m, e, d, true).1 == Gate(store, rank, e, d, true)
    ensures var m' := m.(definition := m.definition[DefinitionCid(e, d.name, true) := v]);
      GateM(store, rank, m', e, d, true).1 == GateM(store, rank, m, e, d, true).1
  {
    GateAgrees(store, rank, m, e, d, true);
    var m' := m.(definition := m.definition[DefinitionCid(e, d.name, true) := v]);
    GateEntryStep(store, rank, m, e, d, true, v);
    GateAgrees(store, rank, m', e, d, true);
  }

  /** An unforced check whose entry is present is answered from the memo;
      after any unforced check the entry is present and holds its answer,
      so repeating it changes nothing. */
  lemma UnforcedGateIsMemoised(store: Store, rank: Rank, m: Memo, e: Entity, d: Definition)
    requires StoreValid(store, rank) && Admissible(e) && d in Definitions(e)
    ensures var cid := DefinitionCid(e, d.name, false);
      cid in m.definition ==> GateM(store, rank, m, e, d, false) == (m, m.definition[cid])
    ensures var r := GateM(store, rank, m, e, d, false);
      GateM(store, rank, r.0, e, d, false) == r
  {
  }
}
