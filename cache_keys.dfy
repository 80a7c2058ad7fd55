/** The string keys of the manager's memo tables and of its persistent
    cache entries, built as the manager builds them. */
module CacheKeys {
  import opened Entities

  /** PHP's `implode($sep, $parts)`. */
  function Implode(sep: string, parts: seq<string>): string
    decreases |parts|
  {
    if |parts| == 0 then ""
    else if |parts| == 1 then parts[0]
    else parts[0] + sep + Implode(sep, parts[1..])
  }

  /** `['entity.progress', $entity_type, $entity->id()]`. */
  function ProgressKeys(e: Entity): seq<string> {
    ["entity.progress", e.entityType, e.id]
  }

  /** Key of the aggregate memo, of the selection memo and of the persistent
      aggregate entry. */
  function ProgressCid(e: Entity): (cid: string)
    ensures cid == "entity.progress." + e.entityType + "." + e.id
  {
    var parts := ProgressKeys(e);
    assert parts[1..][1..] == [e.id];
    assert Implode(".", parts[1..]) == e.entityType + "." + e.id;
    Implode(".", parts)
  }

  /** Key of the persistent completion-map entry. */
  function FieldProgressCid(e: Entity): (cid: string)
    ensures cid == "entity.progress.field.progress." + e.entityType + "." + e.id
  {
    var parts := ["entity.progress", "field.progress", e.entityType, e.id];
    assert parts[1..][1..][1..] == [e.id];
    assert Implode(".", parts[1..][1..]) == e.entityType + "." + e.id;
    assert parts[1..][1..] == parts[2..];
    assert Implode(".", parts[1..]) == "field.progress" + "." + (e.entityType + "." + e.id);
    Implode(".", parts)
  }

  /** Key of the dependency-gate memo: entity type, bundle, id and field
      name, with a `.force` suffix for forced checks. */
  function DefinitionCid(e: Entity, name: string, force: bool): string {
    e.entityType + "_" + e.bundle + "." + e.id + "." + name + (if force then ".force" else "")
  }

  /** The aggregate and the completion map never share a persistent key
      for the same entity. */
  lemma ProgressCidsDiffer(e: Entity)
    ensures ProgressCid(e) != FieldProgressCid(e)
  {
    assert |FieldProgressCid(e)| == |ProgressCid(e)| + 15;
  }

  /** Forced and unforced checks of a field are memoised apart. */
  lemma ForcedCidDiffers(e: Entity, name: string)
    ensures DefinitionCid(e, name, true) != DefinitionCid(e, name, false)
  {
    assert |DefinitionCid(e, name, true)| == |DefinitionCid(e, name, false)| + 6;
  }
}
