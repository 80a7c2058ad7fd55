/** What the manager computes, stated without its memo tables and caches:
    the field predicate, the dependency gate, the selection, the completion
    map and the aggregate, as plain recursive functions over an entity and
    the entity store. The memoised manager is proved to agree with these
    whenever its tables hold what these functions give (module Coherence). */
module Reference {
  import opened PhpValues
  import opened Entities
  import opened Settings
  import opened Dependencies
  import opened Aggregate

  const BooleanType := "boolean"
  const SignatureType := "field_signature"

  predicate IsReferenceType(t: string) {
    t == "entity_reference" || t == "entity_reference_revisions"
  }

  /** Lines 181-189: with `all` set and bounded cardinality, the number of
      non-empty items must equal the cardinality. */
  predicate AllItemsMismatch(f: Field, s: SettingsMap) {
    Flag(s, "all") && f.definition.cardinality.Limited? && f.definition.cardinality.count != f.nonEmptyCount
  }

  /** Lines 191-201: the boolean rule. */
  function BooleanProgress(value: Option<int>, s: SettingsMap): bool {
    match value
    case None => false
    case Some(v) =>
      if Flag(s, "zero") then v == 0
      else if Flag(s, "zero_one") then v == 0 || v == 1
      else v == 1
  }

  /** Lines 203-211: some item has a non-empty `value`. */
  predicate SignatureProgress(items: seq<Value>) {
    exists i :: 0 <= i < |items| && Truthy(items[i])
  }

  /** `isFieldProgress` (lines 173-235). */
  ghost function FieldProgress(store: map<EntityKey, Entity>, rank: map<EntityKey, nat>, e: Entity, name: string, s: SettingsMap): bool
    requires StoreValid(store, rank) && Admissible(e)
    decreases Height(store, rank, e), 1
  {
    match Lookup(e, name)
    case None => false
    case Some(f) =>
      if AllItemsMismatch(f, s) then false
      else if f.definition.fieldType == BooleanType then BooleanProgress(f.value, s)
      else if f.definition.fieldType == SignatureType then SignatureProgress(f.itemValues)
      else if IsReferenceType(f.definition.fieldType) then
        var kids := ReferencedEntities(store, f.targets);
        ChildrenBelow(store, rank, e, f);
        kids != [] && forall i :: 0 <= i < |kids| ==> EntityProgress(store, rank, kids[i]).incomplete == 0
      else !f.isEmpty
  }

  /** The value a dependency contributes (lines 376-382): its own predicate,
      except that a `zero_one` dependency whose value is not null counts
      exactly when that value, uncast, is not empty. */
  ghost function DependencyValue(store: map<EntityKey, Entity>, rank: map<EntityKey, nat>, e: Entity, df: Field): bool
    requires StoreValid(store, rank) && Admissible(e)
    decreases Height(store, rank, e), 2, 0
  {
    var ds := GetDefinitionSettings(df.definition);
    if Flag(ds, "zero_one") && df.rawValue != Null then Truthy(df.rawValue)
    else FieldProgress(store, rank, e, df.definition.name, ds)
  }

  /** `isDefinitionProgress` (lines 339-397) without its memo. */
  ghost function Gate(store: map<EntityKey, Entity>, rank: map<EntityKey, nat>, e: Entity, d: Definition, force: bool): bool
    requires StoreValid(store, rank) && Admissible(e) && d in Definitions(e)
    decreases Height(store, rank, e), 2, ChainDepth(e, d)
  {
    var s := GetDefinitionSettings(d);
    var enabled := Flag(s, "enable");
    if !(force || enabled) then false
    else if !(enabled && HasDependency(s)) then true
    else
      match DependencyField(e, s)
      case None => false
      case Some(df) =>
        var ds := GetDefinitionSettings(df.definition);
        if PointsBack(ds, d.name) then
          !(Flag(s, "optional") && !FieldProgress(store, rank, e, d.name, s)
            && FieldProgress(store, rank, e, df.definition.name, ds))
        else
          assert ChainNext(e, d) == Some(df);
          ChainStepDown(e, d);
          Gate(store, rank, e, df.definition, true)
          && (if !force && Flag(s, "optional") then false
              else if Flag(s, "negate") then !DependencyValue(store, rank, e, df)
              else DependencyValue(store, rank, e, df))
  }

  /** The selection loop of lines 283-287 from field `i` on. */
  ghost function SelectFrom(store: map<EntityKey, Entity>, rank: map<EntityKey, nat>, e: Entity, i: nat, acc: seq<Definition>): seq<Definition>
    requires StoreValid(store, rank) && Admissible(e)
    decreases Height(store, rank, e), 3, |e.fields| - i
  {
    if i >= |e.fields| then acc
    else
      var d := e.fields[i].definition;
      assert d == Definitions(e)[i];
      SelectFrom(store, rank, e, i + 1, if Gate(store, rank, e, d, false) then PutDefinition(acc, d) else acc)
  }

  /** `getFieldDefinitions` (lines 271-291), the alteration hook being the
      identity. */
  ghost function Selection(store: map<EntityKey, Entity>, rank: map<EntityKey, nat>, e: Entity): seq<Definition>
    requires StoreValid(store, rank) && Admissible(e)
    decreases Height(store, rank, e), 4
  {
    SelectFrom(store, rank, e, 0, [])
  }

  /** The completion loop of lines 257-262 from selected definition `i` on. */
  ghost function CompletionFrom(store: map<EntityKey, Entity>, rank: map<EntityKey, nat>, e: Entity, sel: seq<Definition>, i: nat, acc: Completion): Completion
    requires StoreValid(store, rank) && Admissible(e)
    decreases Height(store, rank, e), 5, |sel| - i
  {
    if i >= |sel| then acc
    else
      var d := sel[i];
      CompletionFrom(store, rank, e, sel, i + 1,
        if Updatable(e, d.name) then Put(acc, d.name, FieldProgress(store, rank, e, d.name, GetDefinitionSettings(d)))
        else acc)
  }

  /** `getFieldProgress` (lines 240-266). */
  ghost function CompletionMap(store: map<EntityKey, Entity>, rank: map<EntityKey, nat>, e: Entity): Completion
    requires StoreValid(store, rank) && Admissible(e)
    decreases Height(store, rank, e), 6
  {
    CompletionFrom(store, rank, e, Selection(store, rank, e), 0, [])
  }

  /** `getProgress` (lines 115-168), without its cache tags. */
  ghost function EntityProgress(store: map<EntityKey, Entity>, rank: map<EntityKey, nat>, e: Entity): Progress
    requires StoreValid(store, rank) && Admissible(e)
    decreases Height(store, rank, e), 7
  {
    MakeProgress(e, CompletionMap(store, rank, e), Selection(store, rank, e), {})
  }
}
