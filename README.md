# Entity progress: a verified model of the completion engine

Entity Progress is a Drupal module that reports how far an entity (a user
profile, an order, any content entity) has been filled in. Its manager,
`EntityProgressManager`, does four things:

- It resolves each field's `entity_progress` settings against seven defaults.
- It selects the fields that count. Selection goes through an `enable`
  gate and a `dependency` resolver that handles mutual pairs and forced
  chains of dependencies.
- It decides whether each selected field the viewer may update is
  complete. Entity reference fields recurse into the referenced entities'
  progress.
- It totals the result into a progress record: total, complete,
  incomplete, percent, and the fields in a complete and an incomplete
  bucket.

The manager memoises each stage in three in-request tables and two
persistent cache entries. The `no_cache` flag clears only some of them.

This project models that engine in three layers:

- **A reference definition with no memo** (`Reference`). It defines the
  field predicate, the gate, the selection, the completion map and the
  progress record directly over an entity store. The `Properties` lemmas
  state the engine's rules about it.
- **An exact state-passing specification** (`ManagerSpec`). It covers the
  memoised manager over a `Memo` of the four tables. `Manager` is a
  `class` whose `map` fields are those tables, and whose methods, each
  with its loops, are proved equal to those functions.
- **The agreement proof** (`Coherence` and `Agreement`). From memo tables
  that hold what the reference says they hold, the memoised manager
  returns the reference record. It also leaves the tables consistent, and
  only the entries of the entity served and of the entities below it
  change.

Termination rests on two preconditions, because the source has no guard
against cycles:

- **References:** the entity store carries a rank, and a reference always
  points to an entity of lower rank.
- **Dependencies:** within one entity, a dependency chain never comes back
  to where it started (`Admissible`).

Three behaviours of the code are easy to misread; the model follows the
code:

- **A field that depends on itself is selected.** The code clears the gate
  for it (line 351), but the field's dependency is then its own field,
  whose own dependency names it back. So the mutual-pair branch runs and
  sets the gate to true at line 364. `SelfDependencyGateTrue` proves this.
- **`no_cache` does not evict everything.** It clears the aggregate memo,
  the selection memo and the persistent aggregate entry. It keeps the
  persistent completion map and the gate memo. A stored completion map
  therefore survives a rebuild (`NoCacheReusesStoredCompletion`,
  `NoCacheEvictsOnlyProgressKeys`).
- **An optional field with a chained dependency is never selected.**
  Selection makes unforced gate checks only. Lines 386-388 then always
  clear the gate of such a field, whatever the field and its dependency
  hold (`ChainedOptionalUnforcedFalse`).

## Model

| member | source | states |
|---|---|---|
| Settings.GetDefinitionSettings | src/EntityProgressManager.php:296-318 | the resolver, a definition without a contract; SettingsUnion, SettingsComplete, EmptyConfigurationGivesDefaults and OverrideReplacesOnlyThatKey state its rules |
| CacheKeys.DefinitionCid | src/EntityProgressManager.php:340 | the gate memo key, a definition without a contract; ForcedCidDiffers states that forced and unforced keys differ |
| Reference.FieldProgress | src/EntityProgressManager.php:173-235 | the field predicate without memo, a definition without a contract; MissingFieldIncomplete, AllItemsRequired, AllIgnoredWhenSatisfied, BooleanRules, SignatureRule, ReferenceRule and GenericRule state its rules |
| Reference.DependencyValue | src/EntityProgressManager.php:376-382 | a dependency's value, a definition without a contract; ZeroOneReadsRawValue, ZeroOneDependsOnContext and DependencyValueIsPredicate state its rules |
| Reference.Gate | src/EntityProgressManager.php:339-397 | the gate without memo, a definition without a contract; the lemmas from DisabledGateFalse to ChainedValue state its rules |
| Reference.SelectFrom | src/EntityProgressManager.php:283-287 | the selection loop, a definition without a contract; SelectFromMembers states what it keeps |
| Reference.Selection | src/EntityProgressManager.php:271-291 | the selection, a definition without a contract; SelectionMembers states what it holds |
| Reference.CompletionFrom | src/EntityProgressManager.php:257-262 | the completion loop, a definition without a contract; CompletionFromIsPutAll relates it to the map writes |
| Reference.CompletionMap | src/EntityProgressManager.php:240-266 | the completion map, a definition without a contract; CompletionMapIsEntries, CompletionMapNames and CompletionMapValues state what it holds |
| Reference.EntityProgress | src/EntityProgressManager.php:115-168 | the progress record, a definition without a contract; ProgressCounts, ProgressRounding, ProgressBucketsInOrder, ProgressBucketMembers and ProgressCompleteIff state its properties |
| ManagerSpec.ReferenceFold | src/EntityProgressManager.php:215-225 | the memoised loop over referenced entities, a definition without a contract; ChildrenProgress follows it and ReferenceFoldAgrees relates it to the reference |
| ManagerSpec.FieldProgressM | src/EntityProgressManager.php:173-235 | the memoised predicate, a definition without a contract; IsFieldProgress follows it and FieldProgressAgrees relates it to the reference |
| ManagerSpec.MutualM | src/EntityProgressManager.php:362-369 | the memoised mutual-pair branch, a definition without a contract; MutualProgress follows it and MutualAgrees relates it to the reference |
| ManagerSpec.DependentM | src/EntityProgressManager.php:352-389 | the memoised dependency branch, a definition without a contract; DependencyProgress follows it and DependentAgrees relates it to the reference |
| ManagerSpec.GateM | src/EntityProgressManager.php:339-397 | the memoised gate, a definition without a contract; IsDefinitionProgress follows it, GateAgrees, ForcedGateIgnoresMemo and UnforcedGateIsMemoised state its behaviour |
| ManagerSpec.GateComputeM | src/EntityProgressManager.php:342-394 | the gate computation with its memo writes, a definition without a contract; GateComputeAgrees relates it to the reference |
| ManagerSpec.SelectFold | src/EntityProgressManager.php:283-287 | the memoised selection loop, a definition without a contract; SelectAgrees relates it to the reference |
| ManagerSpec.GetFieldDefinitionsM | src/EntityProgressManager.php:271-291 | the memoised selection, a definition without a contract; GetFieldDefinitions follows it and FieldDefinitionsAgrees relates it to the reference |
| ManagerSpec.CompletionFold | src/EntityProgressManager.php:256-262 | the memoised completion loop, a definition without a contract; CompletionOf follows it and CompletionAgrees relates it to the reference |
| ManagerSpec.GetFieldProgressM | src/EntityProgressManager.php:240-266 | the cached completion map, a definition without a contract; GetFieldProgress follows it and GetFieldProgressAgrees relates it to the reference |
| ManagerSpec.GetProgressM | src/EntityProgressManager.php:115-168 | the memoised aggregate with `no_cache`, a definition without a contract; GetProgress follows it and ManagerMatchesReference, RepeatedRequestIsMemoised and the no-cache lemmas state its behaviour |
| ManagerSpec.ComputeProgressM | src/EntityProgressManager.php:134-161 | the aggregate computed on a miss, a definition without a contract; ComputeProgress follows it and GetProgressAgrees relates it to the reference |
| Settings.SettingsUnion | src/EntityProgressManager.php:296-318 | resolved keys are exactly the defaults' and the configuration's; a configured key takes the configured value, every other key its default |
| Settings.SettingsComplete | src/EntityProgressManager.php:297-305 | enable, dependency, optional, zero, zero_one, negate and all are present in every resolved record |
| Settings.EmptyConfigurationGivesDefaults | src/EntityProgressManager.php:306-317 | an absent or empty configuration, or a definition class without one, yields exactly the defaults |
| Settings.OverrideReplacesOnlyThatKey | src/EntityProgressManager.php:308 | a configured key replaces that key's default and leaves every other option as it would be without it |
| CacheKeys.ProgressCid | src/EntityProgressManager.php:118-123 | the aggregate key is `entity.progress.<type>.<id>` |
| CacheKeys.FieldProgressCid | src/EntityProgressManager.php:244-250 | the completion-map key is `entity.progress.field.progress.<type>.<id>` |
| CacheKeys.ProgressCidsDiffer | src/EntityProgressManager.php:123 | the aggregate and the completion map of one entity never share a persistent key |
| CacheKeys.ForcedCidDiffers | src/EntityProgressManager.php:340 | forced and unforced gate checks of a field are memoised under different keys |
| Entities.Lookup | src/EntityProgressManager.php:175-176 | a found field is the entity's field of that name; nothing is found exactly when no field has the name |
| Entities.LookupOwnField | src/EntityProgressManager.php:176 | in a well-formed entity, looking up a field's own name finds that field |
| Entities.ReferencedEntities | src/EntityProgressManager.php:215 | every referenced entity is the stored entity of one of the field's targets, and every target the store holds is referenced |
| Dependencies.DependencyField | src/EntityProgressManager.php:355-359 | a dependency field found is a field of the entity whose name is the configured dependency; nothing is found exactly when no dependency name is configured or no field of the entity has it |
| Dependencies.ChainStepDown | src/EntityProgressManager.php:372 | every forced dependency check goes to a definition of the same entity with a strictly shorter chain, so the chained recursion ends |
| Dependencies.ChildrenBelow | src/EntityProgressManager.php:215-221 | every entity a field references is a stored admissible entity of strictly lower height, so the reference recursion ends |
| Aggregate.Put | src/EntityProgressManager.php:260 | writing a name sets its entry, leaves every other entry alone, keeps names distinct and appends a name not yet present |
| Aggregate.ArrayFilter | src/EntityProgressManager.php:139 | the kept entries are exactly the map's done entries, never more than the map has |
| Aggregate.IncompleteCountsNotDone | src/EntityProgressManager.php:138-140 | `array_diff` of the map and its filtered part is exactly the entries not done, so complete plus incomplete is the map's size |
| Aggregate.Percent | src/EntityProgressManager.php:148 | 100 when nothing counts; otherwise complete/total·100 rounded half up, at most 100 |
| Aggregate.PutDefinition | src/EntityProgressManager.php:285 | the selection gains the definition and keeps every entry of another name; an existing name keeps the length, a new name is appended |
| Aggregate.EntriesAsMap | src/EntityProgressManager.php:255-262 | the completion loop's entries are exactly the definitions the viewer may update, each name once with its own result |
| Aggregate.MakeProgress | src/EntityProgressManager.php:137-160 | total is the map size, complete counts done entries, incomplete counts the rest, and the record names the entity |
| Aggregate.ProgressIncompleteIff | src/EntityProgressManager.php:140 | incomplete is 0 exactly when every entry of the map is done |
| Aggregate.ProgressPercent | src/EntityProgressManager.php:148 | the record's percent lies in 0..100, is 100 with nothing to count, and is complete/total rounded half up |
| Aggregate.BucketSizes | src/EntityProgressManager.php:151-156 | each bucket is as long as the number of updatable entries with that result |
| Aggregate.CountUpdatableAll | src/EntityProgressManager.php:151-156 | when every entry is updatable, the updatable done entries are as many as `array_filter` keeps and the others as many as it drops |
| Aggregate.ProgressBucketSizes | src/EntityProgressManager.php:150-156 | with every entry updatable, the buckets are as long as the complete and incomplete counts |
| Aggregate.BucketOfMembers | src/EntityProgressManager.php:151-156 | a bucket holds a definition exactly when the selection holds it with that result and the viewer may update it |
| Aggregate.BucketsAppend | src/EntityProgressManager.php:151-156 | the bucketing loop over two maps in a row appends their buckets |
| Aggregate.EntriesBuckets | src/EntityProgressManager.php:151-156 | sorting the completion loop's entries puts each updatable selected definition, in selection order, into the bucket of its result, as itself (`$definitions[$field_name]`) |
| Properties.MissingFieldIncomplete | src/EntityProgressManager.php:174-175 | a field the entity lacks is incomplete |
| Properties.AllItemsRequired | src/EntityProgressManager.php:181-189 | with `all` set and a bounded cardinality, a non-empty count other than the bound makes the field incomplete, whatever its type |
| Properties.AllIgnoredWhenSatisfied | src/EntityProgressManager.php:181-189 | with unlimited cardinality, or a count equal to the bound, the predicate is as if `all` were unset |
| Properties.BooleanRules | src/EntityProgressManager.php:191-201 | null is incomplete; `zero` means complete iff 0 and wins over `zero_one`; `zero_one` means complete iff 0 or 1; otherwise complete iff 1 |
| Properties.SignatureRule | src/EntityProgressManager.php:203-211 | a signature field is complete iff some item's value is non-empty |
| Properties.ReferenceRule | src/EntityProgressManager.php:213-227 | a reference field is complete iff it references at least one entity and none of them reports a non-zero incomplete count |
| Properties.IncompleteChildMakesIncomplete | src/EntityProgressManager.php:221-224 | one referenced entity with an incomplete field makes the reference field incomplete |
| Properties.GenericRule | src/EntityProgressManager.php:229-231 | any other type is complete iff the field is not empty |
| Properties.DisabledGateFalse | src/EntityProgressManager.php:341-345 | without force, a disabled field's gate is false |
| Properties.GateTrueWithoutDependency | src/EntityProgressManager.php:345-348 | a forced disabled field, or an enabled field without a dependency, passes the gate |
| Properties.MissingDependencyGateFalse | src/EntityProgressManager.php:355-357 | an enabled field whose dependency names a field the entity lacks fails the gate, forced or not |
| Properties.MutualPairGate | src/EntityProgressManager.php:362-369 | in a mutual pair the gate fails iff `optional` is set, this field is incomplete and the dependency complete; force and `negate` play no part |
| Properties.MutualPairWithoutOptional | src/EntityProgressManager.php:362-369 | without `optional` a mutual pair always passes |
| Properties.SelfDependencyGateTrue | src/EntityProgressManager.php:350-369 | an enabled field depending on itself passes the gate |
| Properties.ChainedNeedsForcedDependency | src/EntityProgressManager.php:372-374 | in a chain, the field passes only if its dependency passes the forced gate |
| Properties.ChainedOptionalUnforcedFalse | src/EntityProgressManager.php:386-388 | without force an optional field with a chained dependency never passes |
| Properties.ChainedValue | src/EntityProgressManager.php:375-389 | once the dependency passes its forced gate and `optional` does not apply, the field passes iff the dependency's value differs from `negate` |
| Properties.ZeroOneReadsRawValue | src/EntityProgressManager.php:377-381 | a `zero_one` dependency whose value is not null satisfies dependents iff the uncast value is not empty |
| Properties.ZeroOneDependsOnContext | src/EntityProgressManager.php:377-382 | a `zero_one` boolean holding 0 is complete itself but does not satisfy a field depending on it; holding 1 it does both |
| Properties.DependencyValueIsPredicate | src/EntityProgressManager.php:376-382 | without `zero_one`, or with a null value, a dependency counts by its own predicate |
| Properties.SelectFromMembers | src/EntityProgressManager.php:283-287 | the selection loop keeps names distinct and holds exactly the earlier picks and the remaining definitions that pass the unforced gate |
| Properties.SelectionMembers | src/EntityProgressManager.php:279-287 | the selection holds a bundle definition iff it passes the unforced gate, each name once |
| Properties.CompletionFromIsPutAll | src/EntityProgressManager.php:257-262 | the completion loop is the sequence of map writes of the entries of the updatable selected fields |
| Properties.CompletionMapIsEntries | src/EntityProgressManager.php:255-262 | the completion map is the updatable selected fields' results in selection order, with distinct names |
| Properties.CompletionMapNames | src/EntityProgressManager.php:257-258 | the map names exactly the selected fields the viewer may update |
| Properties.CompletionMapValues | src/EntityProgressManager.php:259-260 | each such field holds its predicate under its own resolved settings |
| Properties.DisabledNeverInCompletion | src/EntityProgressManager.php:284 | a field whose `enable` is empty never appears in the completion map |
| Properties.ProgressCounts | src/EntityProgressManager.php:137-148 | total is the map size, complete plus incomplete is total, percent lies in 0..100 and is 100 when total is 0 |
| Properties.ProgressRounding | src/EntityProgressManager.php:148 | with something to count, percent is complete/total·100 rounded half up |
| Properties.ProgressBuckets | src/EntityProgressManager.php:150-156 | the complete and incomplete buckets are as long as the counts |
| Properties.ProgressBucketsInOrder | src/EntityProgressManager.php:150-156 | the complete bucket is the selected updatable complete definitions in selection order, the incomplete bucket the selected updatable incomplete ones |
| Properties.ProgressBucketMembers | src/EntityProgressManager.php:150-156 | a definition is in the complete (incomplete) bucket iff it is selected, the viewer may update it and its predicate holds (fails) |
| Properties.CompletionUpdatable | src/EntityProgressManager.php:258 | every entry of the completion map is a field the viewer may update |
| Properties.ProgressCompleteIff | src/EntityProgressManager.php:140 | an entity reports nothing incomplete iff every selected field the viewer may update is complete |
| Properties.NothingToCountIsComplete | src/EntityProgressManager.php:148 | an entity with no enabled field counts nothing and reports 100 percent |
| Manager.AnyItemFilled | src/EntityProgressManager.php:204-210 | the signature loop returns true iff some item's value is truthy |
| Manager.SortIntoBuckets | src/EntityProgressManager.php:151-156 | the bucketing loop builds the buckets the aggregate specifies, as long as the counts of updatable done and not-done entries |
| Manager.EntityProgressManager.constructor | src/EntityProgressManager.php:93-100 | a new manager starts with empty memo tables over the given backend |
| Manager.EntityProgressManager.GetProgress | src/EntityProgressManager.php:115-168 | the new tables and the record are those the memoised specification gives, including the `no_cache` eviction |
| Manager.EntityProgressManager.ComputeProgress | src/EntityProgressManager.php:134-161 | the computed record and stored entries are those the specification gives |
| Manager.EntityProgressManager.IsFieldProgress | src/EntityProgressManager.php:173-235 | the predicate, tags and tables are those the specification gives |
| Manager.EntityProgressManager.ChildrenProgress | src/EntityProgressManager.php:215-226 | the loop over referenced entities yields the specification's fold |
| Manager.EntityProgressManager.IsDefinitionProgress | src/EntityProgressManager.php:339-397 | the gate and the gate memo are those the specification gives |
| Manager.EntityProgressManager.DependencyProgress | src/EntityProgressManager.php:348-391 | the dependency branch yields the specification's result |
| Manager.EntityProgressManager.MutualProgress | src/EntityProgressManager.php:362-369 | the mutual-pair branch yields the specification's result |
| Manager.EntityProgressManager.GetFieldDefinitions | src/EntityProgressManager.php:271-291 | the selection and its memo are those the specification gives |
| Manager.EntityProgressManager.GetFieldProgress | src/EntityProgressManager.php:240-266 | the completion map, tags and stored entry are those the specification gives |
| Manager.EntityProgressManager.CompletionOf | src/EntityProgressManager.php:255-262 | the completion loop yields the specification's fold |
| Agreement.ReferenceFoldAgrees | src/EntityProgressManager.php:215-225 | the memoised loop over referenced entities is true iff it started true and every remaining referenced entity reports nothing incomplete |
| Agreement.FieldProgressAgrees | src/EntityProgressManager.php:173-235 | from coherent tables below the entity, the memoised predicate is the reference predicate, and entries from the entity's height up are untouched |
| Agreement.MutualAgrees | src/EntityProgressManager.php:362-369 | the memoised mutual-pair branch passes iff not (`optional`, this field incomplete, dependency complete) |
| Agreement.ChainedAgrees | src/EntityProgressManager.php:371-389 | the memoised chained branch yields the reference gate and changes only lower entities and the gates of this one |
| Agreement.DependentAgrees | src/EntityProgressManager.php:348-391 | the memoised dependency branch yields the reference gate, touching only lower entities |
| Agreement.GateComputeAgrees | src/EntityProgressManager.php:342-394 | the computed gate is the reference gate and is what the memo entry holds afterwards |
| Agreement.GateAgrees | src/EntityProgressManager.php:339-397 | the memoised gate is the reference gate; an unforced check leaves its entry holding that gate |
| Agreement.SelectAgrees | src/EntityProgressManager.php:283-287 | the memoised selection loop writes the reference selection under the entity's key and keeps the tables coherent |
| Agreement.FieldDefinitionsAgrees | src/EntityProgressManager.php:271-291 | the memoised selection is the reference selection and the tables stay coherent |
| Agreement.CompletionAgrees | src/EntityProgressManager.php:256-262 | the memoised completion loop builds the reference completion map |
| Agreement.GetFieldProgressAgrees | src/EntityProgressManager.php:240-266 | the memoised completion map is the reference map and the tables stay coherent |
| Agreement.GetProgressAgrees | src/EntityProgressManager.php:115-168 | the memoised record is the reference record up to cache tags, and only entries of this entity and those below change |
| Agreement.ManagerMatchesReference | src/EntityProgressManager.php:115-168 | from coherent tables `getProgress` returns the reference record up to cache tags, with or without `no_cache`, and keeps the tables coherent |
| Agreement.FreshManagerMatchesReference | src/EntityProgressManager.php:93-100 | the first request of a new manager with an empty backend returns the reference record |
| Agreement.RepeatedRequestIsMemoised | src/EntityProgressManager.php:129-165 | a second request without `no_cache` returns the same record and changes nothing |
| Agreement.NoCacheReusesStoredCompletion | src/EntityProgressManager.php:124-128 | with `no_cache`, a stored completion map is still read back and its counts become the record's |
| Agreement.NoCacheEvictsOnlyProgressKeys | src/EntityProgressManager.php:124-128 | `no_cache` removes exactly the aggregate and selection memo entries and the aggregate cache entry, then requests as normal; the gate memo and every other cache entry survive |
| Agreement.ForcedGateIgnoresMemo | src/EntityProgressManager.php:341 | a forced check yields the forced reference gate whatever its memo entry holds |
| Agreement.UnforcedGateIsMemoised | src/EntityProgressManager.php:340-341 | a present unforced entry is returned as it is, and repeating an unforced check changes nothing |

## Left out

- The framework around the manager is an input. For each field the model takes:
  - the entity field manager's definition list;
  - `access('update')`, as the field's `updatable` flag;
  - `filterEmptyItems()->count()`, `isEmpty()` and the field's item values;
  - the integer cast of its main property.

  The entity type label is a string of the entity.
- `instanceof` dispatch becomes a tagged settings source (base field, third party, other). A non-array third-party value cannot occur: settings are typed as a map.
- Settings values are null, booleans, integers or strings. A dependency setting that is not a string names no field.
- A field's first-item value is given twice: uncast (`rawValue`), as lines 192, 377 and 381 read it, and as its integer cast (`value`), as lines 193-198 read it. The two must agree, None exactly for Null; PHP's cast of a string to an integer is not computed.
- The `entity_progress_fields` alter hook (line 288) is the identity.
- `getDefinitionSetting` (lines 323-331) is not called by any modelled operation and is not modelled.
- The `UseCacheBackendTrait` is not part of this model. Its `cacheGet` and `cacheSet` are reads and writes of a map with caching always on, and `delete` removes one key. Cache expiry and tag invalidation are not modelled. Tags are gathered as a set of strings on the progress record and on each entry.
- `CacheableMetadata` becomes that set of tags. `applyTo` and the render-array `#cache` layout keep only the cache keys and tags in the record.
- A persistent entry of the wrong kind under a key is treated as a miss.
- Entities.Updatable: a completion entry naming a field the entity lacks counts as not updatable and is skipped at line 152, where `$entity->get()` throws. Only a completion map read back from the persistent cache can name such a field; a map the manager computes names only the entity's fields.
- Floating point at line 148 is replaced by the exact integer formula (200·complete + total) div (2·total).
- `getProgress` returning NULL for a missing entity (lines 116, 167) is not modelled. The parameter is typed, so an entity is always given.
- Cycles are excluded by preconditions, not handled:
  - a reference cycle between entities, through `StoreValid` and its rank;
  - a dependency chain of three or more fields that returns to its start, through `Admissible`.

  On such inputs the source does not terminate.
- Agreement.GetProgressAgrees: assumes that no two stored entities, fields or forced/unforced checks share a memo or cache key (`KeysDistinct`). The key formats do not guarantee this: type ids, bundles, ids or names containing `.` or `_` can collide.
- Agreement.ManagerMatchesReference: agreement is stated up to the cache tags on the record, because the tags depend on which memo entries were already present.
- Agreement.GetProgressAgrees: the entity passed must be the one the store holds under its key (`InStore`). Progress of an unsaved or modified copy is not related to the reference.
- The render pre-processing class, the front-end script and the interface file are not part of this model: they hold no completion logic.
