/** The read-only record the manager evaluates: an entity with named
    fields, each carrying its field definition, its items as the manager
    observes them and the current viewer's update access. */
module Entities {
  import opened PhpValues

  /** Storage cardinality: a bounded number of items or unlimited (-1). */
  datatype Cardinality = Limited(count: nat) | Unlimited

  /** Where a definition keeps its `entity_progress` settings: base field
      definitions and base field overrides expose them as the field setting
      `entity_progress` (null when unset), configurable fields as third-party
      settings of the module, and any other definition class has none. */
  datatype SettingsSource =
    | BaseFieldSource(setting: Option<map<string, Value>>)
    | ThirdPartySource(thirdParty: map<string, Value>)
    | OtherSource

  datatype Definition = Definition(
    name: string,
    fieldType: string,
    cardinality: Cardinality,
    source: SettingsSource,
    cacheTags: set<string>)

  datatype EntityKey = EntityKey(entityType: string, id: string)

  /** One field of an entity. `rawValue` is the main property of the first
      item as stored (`$field->value`), `value` its integer cast, None exactly
      when `rawValue` is Null (the cast of a string is observed, not
      computed), `nonEmptyCount` is
      `filterEmptyItems()->count()`, `isEmpty` the field's own emptiness
      check, `itemValues` the `value` key of each item (Null when unset) and
      `targets` the entities a reference field points to. */
  datatype Field = Field(
    definition: Definition,
    rawValue: Value,
    value: Option<int>,
    nonEmptyCount: nat,
    isEmpty: bool,
    itemValues: seq<Value>,
    targets: seq<EntityKey>,
    updatable: bool)

  datatype Entity = Entity(
    entityType: string,
    bundle: string,
    id: string,
    typeLabel: string,
    fields: seq<Field>,
    cacheTags: set<string>)

  function Key(e: Entity): EntityKey {
    EntityKey(e.entityType, e.id)
  }

  /** Field names are unique within an entity, as keys of the bundle's
      field definition map are. */
  predicate WellFormed(e: Entity) {
    forall i, j :: 0 <= i < j < |e.fields| ==> e.fields[i].definition.name != e.fields[j].definition.name
  }

  function FindField(fs: seq<Field>, name: string): (r: Option<Field>)
    ensures r.Some? ==> r.value in fs && r.value.definition.name == name
    ensures r.None? <==> forall i :: 0 <= i < |fs| ==> fs[i].definition.name != name
  {
    if fs == [] then None
    else if fs[0].definition.name == name then Some(fs[0])
    else FindField(fs[1..], name)
  }

  /** `$entity->hasField($name) ? $entity->get($name) : absent`. */
  function Lookup(e: Entity, name: string): (r: Option<Field>)
    ensures r.Some? ==> r.value in e.fields && r.value.definition.name == name
    ensures r.None? <==> forall i :: 0 <= i < |e.fields| ==> e.fields[i].definition.name != name
  {
    FindField(e.fields, name)
  }

  /** In a well-formed entity the lookup of a field's own name finds it. */
  lemma {:induction false} LookupOwnField(e: Entity, i: nat)
    requires WellFormed(e) && i < |e.fields|
    ensures Lookup(e, e.fields[i].definition.name) == Some(e.fields[i])
  {
    FindOwn(e.fields, i);
  }

  lemma {:induction false} FindOwn(fs: seq<Field>, i: nat)
    requires forall a, b :: 0 <= a < b < |fs| ==> fs[a].definition.name != fs[b].definition.name
    requires i < |fs|
    ensures FindField(fs, fs[i].definition.name) == Some(fs[i])
  {
    if i > 0 {
      assert fs[0].definition.name != fs[i].definition.name;
      assert fs[1..][i - 1] == fs[i];
      FindOwn(fs[1..], i - 1);
    }
  }

  /** The bundle's field definitions, in order. */
  function Definitions(e: Entity): (r: seq<Definition>)
    ensures |r| == |e.fields|
    ensures forall i :: 0 <= i < |e.fields| ==> r[i] == e.fields[i].definition
  {
    seq(|e.fields|, i requires 0 <= i < |e.fields| => e.fields[i].definition)
  }

  /** `$entity->get($name)->access('update')`; a name the entity lacks is
      treated as not updatable. */
  predicate Updatable(e: Entity, name: string) {
    match Lookup(e, name)
    case Some(f) => f.updatable
    case None => false
  }

  /** `referencedEntities()`: the targets that can be loaded, in order. */
  function ReferencedEntities(store: map<EntityKey, Entity>, ts: seq<EntityKey>): (r: seq<Entity>)
    ensures |r| <= |ts|
    ensures forall c :: c in r ==> exists t :: t in ts && t in store && store[t] == c
    ensures forall t :: t in ts && t in store ==> store[t] in r
  {
    if ts == [] then []
    else (if ts[0] in store then [store[ts[0]]] else []) + ReferencedEntities(store, ts[1..])
  }
}
