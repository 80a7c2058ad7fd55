/** The manager's behaviour with its memo tables and its persistent cache,
    as functions from the tables before a call to the tables after it and
    the call's result. `Memo` gathers the three in-request tables and the
    cache backend; every call threads it through in the order the manager
    makes its nested calls. */
module ManagerSpec {
  import opened PhpValues
  import opened Entities
  import opened Settings
  import opened Dependencies
  import opened CacheKeys
  import opened Aggregate
  import opened Reference

  /** A persistent cache entry: an aggregate record or a completion map,
      each with the tags it was stored under. */
  datatype CacheEntry =
    | ProgressEntry(progress: Progress, tags: set<string>)
    | CompletionEntry(completion: Completion, tags: set<string>)

  /** `$this->progress`, `$this->definitions`, `$this->definition` and the
      cache backend. */
  datatype Memo = Memo(
    progress: map<string, Progress>,
    definitions: map<string, seq<Definition>>,
    definition: map<string, bool>,
    backend: map<string, CacheEntry>)

  /** `$this->cacheTags`, set by the constructor. */
  const ModuleTag := "entity.progress"

  /** `$this->definitions[$cid]`, empty when the key is missing. */
  function Stored(defs: map<string, seq<Definition>>, cid: string): seq<Definition> {
    if cid in defs then defs[cid] else []
  }

  type Store = map<EntityKey, Entity>
  type Rank = map<EntityKey, nat>

  /** The loop over referenced entities (lines 215-225) from child `i` on:
      each child's tags are collected and its progress is requested. */
  ghost function ReferenceFold(store: Store, rank: Rank, m: Memo, e: Entity, f: Field, i: nat, ok: bool, tags: set<string>): (Memo, bool, set<string>)
    requires StoreValid(store, rank) && Admissible(e) && f in e.fields
    decreases Height(store, rank, e), 1, |ReferencedEntities(store, f.targets)| - i
  {
    var kids := ReferencedEntities(store, f.targets);
    if i >= |kids| then (m, ok, tags)
    else
      ChildrenBelow(store, rank, e, f);
      assert kids[i] in kids;
      var r := GetProgressM(store, rank, m, kids[i], false);
      ReferenceFold(store, rank, r.0, e, f, i + 1, ok && r.1.incomplete == 0, tags + kids[i].cacheTags)
  }

  /** `isFieldProgress` (lines 173-235): the tables after the call, the
      result and the collected tags. */
  ghost function FieldProgressM(store: Store, rank: Rank, m: Memo, e: Entity, name: string, s: SettingsMap, tags: set<string>): (Memo, bool, set<string>)
    requires StoreValid(store, rank) && Admissible(e)
    decreases Height(store, rank, e), 2
  {
    match Lookup(e, name)
    case None => (m, false, tags)
    case Some(f) =>
      var tags1 := tags + f.definition.cacheTags;
      if AllItemsMismatch(f, s) then (m, false, tags1)
      else if f.definition.fieldType == BooleanType then (m, BooleanProgress(f.value, s), tags1)
      else if f.definition.fieldType == SignatureType then (m, SignatureProgress(f.itemValues), tags1)
      else if IsReferenceType(f.definition.fieldType) then
        ReferenceFold(store, rank, m, e, f, 0, ReferencedEntities(store, f.targets) != [], tags1)
      else (m, !f.isEmpty, tags1)
  }

  /** The mutual-pair branch (lines 362-369); the two predicate calls are
      made only as far as `&&` evaluates them. */
  ghost function MutualM(store: Store, rank: Rank, m: Memo, e: Entity, d: Definition, df: Field): (Memo, bool)
    requires StoreValid(store, rank) && Admissible(e)
    decreases Height(store, rank, e), 3, 0, 0
  {
    var s := GetDefinitionSettings(d);
    if !Flag(s, "optional") then (m, true)
    else
      var own := FieldProgressM(store, rank, m, e, d.name, s, {});
      if own.1 then (own.0, true)
      else
        var dep := FieldProgressM(store, rank, own.0, e, df.definition.name, GetDefinitionSettings(df.definition), {});
        (dep.0, !dep.1)
  }

  /** The dependency branch of `isDefinitionProgress` (lines 352-389),
      reached when the definition is enabled and names a dependency. */
  ghost function DependentM(store: Store, rank: Rank, m: Memo, e: Entity, d: Definition, force: bool): (Memo, bool)
    requires StoreValid(store, rank) && Admissible(e) && d in Definitions(e)
    requires Flag(GetDefinitionSettings(d), "enable") && HasDependency(GetDefinitionSettings(d))
    decreases Height(store, rank, e), 3, ChainDepth(e, d), 1
  {
    var s := GetDefinitionSettings(d);
    match DependencyField(e, s)
    case None => (m, false)
    case Some(df) =>
      var ds := GetDefinitionSettings(df.definition);
      if PointsBack(ds, d.name) then MutualM(store, rank, m, e, d, df)
      else
        assert ChainNext(e, d) == Some(df);
        ChainStepDown(e, d);
        var g := GateM(store, rank, m, e, df.definition, true);
        if !g.1 then (g.0, false)
        else
          var v := FieldProgressM(store, rank, g.0, e, df.definition.name, ds, {});
          var valid := if Flag(ds, "zero_one") && df.rawValue != Null then Truthy(df.rawValue) else v.1;
          var valid' := if Flag(s, "negate") then !valid else valid;
          (v.0, if !force && Flag(s, "optional") then false else valid')
  }

  /** `isDefinitionProgress` (lines 339-397). An unforced call answers from
      `$this->definition` when it can; either kind of call first marks its
      key false, then stores what it computes. */
  ghost function GateM(store: Store, rank: Rank, m: Memo, e: Entity, d: Definition, force: bool): (Memo, bool)
    requires StoreValid(store, rank) && Admissible(e) && d in Definitions(e)
    decreases Height(store, rank, e), 3, ChainDepth(e, d), 3
  {
    var cid := DefinitionCid(e, d.name, force);
    if cid in m.definition && !force then (m, m.definition[cid])
    else GateComputeM(store, rank, m, e, d, force)
  }

  /** Lines 349-395: the entry is marked false while the gate is computed,
      then overwritten with the result. */
  ghost function GateComputeM(store: Store, rank: Rank, m: Memo, e: Entity, d: Definition, force: bool): (Memo, bool)
    requires StoreValid(store, rank) && Admissible(e) && d in Definitions(e)
    decreases Height(store, rank, e), 3, ChainDepth(e, d), 2
  {
    var cid := DefinitionCid(e, d.name, force);
    var m1 := m.(definition := m.definition[cid := false]);
    var s := GetDefinitionSettings(d);
    var enabled := Flag(s, "enable");
    if !(force || enabled) then (m1, false)
    else
      var r := if !(enabled && HasDependency(s)) then (m1, true) else DependentM(store, rank, m1, e, d, force);
      (r.0.(definition := r.0.definition[cid := r.1]), r.1)
  }

  /** The selection loop (lines 283-287) from field `i` on, writing into
      `$this->definitions[$cid]`. */
  ghost function SelectFold(store: Store, rank: Rank, m: Memo, e: Entity, cid: string, i: nat): Memo
    requires StoreValid(store, rank) && Admissible(e)
    decreases Height(store, rank, e), 4, |e.fields| - i
  {
    if i >= |e.fields| then m
    else
      var d := e.fields[i].definition;
      assert d == Definitions(e)[i];
      var g := GateM(store, rank, m, e, d, false);
      var m1 := if g.1 then g.0.(definitions := g.0.definitions[cid := PutDefinition(Stored(g.0.definitions, cid), d)]) else g.0;
      SelectFold(store, rank, m1, e, cid, i + 1)
  }

  /** `getFieldDefinitions` (lines 271-291), the alteration hook being the
      identity. */
  ghost function GetFieldDefinitionsM(store: Store, rank: Rank, m: Memo, e: Entity): (Memo, seq<Definition>)
    requires StoreValid(store, rank) && Admissible(e)
    decreases Height(store, rank, e), 5
  {
    var cid := ProgressCid(e);
    if cid in m.definitions then (m, m.definitions[cid])
    else
      var m1 := SelectFold(store, rank, m.(definitions := m.definitions[cid := []]), e, cid, 0);
      (m1, Stored(m1.definitions, cid))
  }

  /** The completion loop (lines 256-262) from selected definition `i` on. */
  ghost function CompletionFold(store: Store, rank: Rank, m: Memo, e: Entity, sel: seq<Definition>, i: nat, c: Completion, tags: set<string>): (Memo, Completion, set<string>)
    requires StoreValid(store, rank) && Admissible(e)
    decreases Height(store, rank, e), 6, |sel| - i
  {
    if i >= |sel| then (m, c, tags)
    else if !Updatable(e, sel[i].name) then CompletionFold(store, rank, m, e, sel, i + 1, c, tags)
    else
      var r := FieldProgressM(store, rank, m, e, sel[i].name, GetDefinitionSettings(sel[i]), tags);
      CompletionFold(store, rank, r.0, e, sel, i + 1, Put(c, sel[i].name, r.1), r.2)
  }

  /** `getFieldProgress` (lines 240-266): a completion map in the backend
      is used as it is; otherwise one is built and stored. */
  ghost function GetFieldProgressM(store: Store, rank: Rank, m: Memo, e: Entity, tags: set<string>): (Memo, Completion, set<string>)
    requires StoreValid(store, rank) && Admissible(e)
    decreases Height(store, rank, e), 7
  {
    var tags1 := tags + e.cacheTags;
    var cid := FieldProgressCid(e);
    if cid in m.backend && m.backend[cid].CompletionEntry? then (m, m.backend[cid].completion, tags1)
    else
      var g := GetFieldDefinitionsM(store, rank, m, e);
      var r := CompletionFold(store, rank, g.0, e, g.1, 0, [], tags1);
      (r.0.(backend := r.0.backend[cid := CompletionEntry(r.1, r.2)]), r.1, r.2)
  }

  /** `getProgress` (lines 115-168): `noCache` drops the aggregate memo, the
      selection memo and the persistent aggregate; then the memo, the
      backend, or a fresh computation supplies the record, which is
      memoised. */
  ghost function GetProgressM(store: Store, rank: Rank, m: Memo, e: Entity, noCache: bool): (Memo, Progress)
    requires StoreValid(store, rank) && Admissible(e)
    decreases Height(store, rank, e), 8, 1
  {
    var cid := ProgressCid(e);
    var m0 := if noCache then m.(progress := m.progress - {cid}, definitions := m.definitions - {cid}, backend := m.backend - {cid}) else m;
    if cid in m0.progress then (m0, m0.progress[cid])
    else if cid in m0.backend && m0.backend[cid].ProgressEntry? then
      var p := m0.backend[cid].progress;
      (m0.(progress := m0.progress[cid := p]), p)
    else
      var r := ComputeProgressM(store, rank, m0, e);
      (r.0.(progress := r.0.progress[cid := r.1]), r.1)
  }

  /** Lines 135-164: the aggregate built from the completion map and the
      selection, and written to the backend. */
  ghost function ComputeProgressM(store: Store, rank: Rank, m: Memo, e: Entity): (Memo, Progress)
    requires StoreValid(store, rank) && Admissible(e)
    decreases Height(store, rank, e), 8, 0
  {
    var fp := GetFieldProgressM(store, rank, m, e, {ModuleTag});
    var g := GetFieldDefinitionsM(store, rank, fp.0, e);
    var p := MakeProgress(e, fp.1, g.1, fp.2);
    (g.0.(backend := g.0.backend[ProgressCid(e) := ProgressEntry(p, fp.2)]), p)
  }
}
