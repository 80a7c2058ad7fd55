/** The manager object: its three in-request memo tables and the cache
    backend are fields the methods update in place; each method is proved
    to leave them, and to return, what ManagerSpec says. */
module Manager {
  import opened PhpValues
  import opened Entities
  import opened Settings
  import opened Dependencies
  import opened CacheKeys
  import opened Aggregate
  import opened Reference
  import opened ManagerSpec

  /** The loop over a signature field's items (lines 206-211): the
      field counts as filled when some item's value is non-empty. */
  method AnyItemFilled(items: seq<Value>) returns (b: bool)
    ensures b <==> exists k :: 0 <= k < |items| && Truthy(items[k])
  {
    b := false;
    var i := 0;
    while i < |items|
      invariant 0 <= i <= |items|
      invariant b <==> exists k :: 0 <= k < i && Truthy(items[k])
    {
      if Truthy(items[i]) {
        b := true;
      }
      i := i + 1;
    }
  }

  /** The bucketing loop of `getProgress` (lines 151-156): every entry the
      viewer may update goes, as its definition, to the bucket its result
      names. */
  method SortIntoBuckets(e: Entity, completion: Completion, sel: seq<Definition>)
    returns (done: seq<Option<Definition>>, notDone: seq<Option<Definition>>)
    ensures (done, notDone) == Buckets(e, completion, sel)
    ensures |done| == CountUpdatable(e, completion, true) && |notDone| == CountUpdatable(e, completion, false)
  {
    done, notDone := [], [];
    var i := 0;
    while i < |completion|
      invariant 0 <= i <= |completion|
      invariant (done, notDone) == Buckets(e, completion[..i], sel)
    {
      assert completion[..i + 1][..i] == completion[..i];
      var entry := completion[i];
      if Updatable(e, entry.name) {
        if entry.done {
          done := done + [FindDefinition(sel, entry.name)];
        } else {
          notDone := notDone + [FindDefinition(sel, entry.name)];
        }
      }
      i := i + 1;
    }
    assert completion[..i] == completion;
    BucketSizes(e, completion, sel);
  }

  class EntityProgressManager {
    /** The entities the manager can load, and the rank that orders their
        references. */
    const store: map<EntityKey, Entity>
    ghost const rank: map<EntityKey, nat>

    var progress: map<string, Progress>
    var definitions: map<string, seq<Definition>>
    var definition: map<string, bool>
    var cacheBackend: map<string, CacheEntry>

    function Snapshot(): Memo
      reads this
    {
      Memo(progress, definitions, definition, cacheBackend)
    }

    /** A manager starts with empty memo tables over an existing backend. */
    constructor(store: map<EntityKey, Entity>, ghost rank: map<EntityKey, nat>, backend: map<string, CacheEntry>)
      requires StoreValid(store, rank)
      ensures this.store == store && this.rank == rank
      ensures Snapshot() == Memo(map[], map[], map[], backend)
    {
      this.store := store;
      this.rank := rank;
      progress := map[];
      definitions := map[];
      definition := map[];
      cacheBackend := backend;
    }

    method GetProgress(e: Entity, noCache: bool) returns (p: Progress)
      requires StoreValid(store, rank) && Admissible(e)
      modifies this
      ensures (Snapshot(), p) == GetProgressM(store, rank, old(Snapshot()), e, noCache)
      decreases Height(store, rank, e), 8, 1
    {
      var cid := ProgressCid(e);
      if noCache {
        progress := progress - {cid};
        definitions := definitions - {cid};
        cacheBackend := cacheBackend - {cid};
      }
      if cid !in progress {
        if cid in cacheBackend && cacheBackend[cid].ProgressEntry? {
          p := cacheBackend[cid].progress;
        } else {
          p := ComputeProgress(e);
        }
        progress := progress[cid := p];
      }
      p := progress[cid];
    }

    /** The computing branch of `getProgress`: counts, percentage and
        buckets of the completion map, written to the backend. */
    method ComputeProgress(e: Entity) returns (p: Progress)
      requires StoreValid(store, rank) && Admissible(e)
      modifies this
      ensures (Snapshot(), p) == ComputeProgressM(store, rank, old(Snapshot()), e)
      decreases Height(store, rank, e), 8, 0
    {
      var completion, tags := GetFieldProgress(e, {ModuleTag});
      var complete := ArrayFilter(completion);
      var sel := GetFieldDefinitions(e);
      var done, notDone := SortIntoBuckets(e, completion, sel);
      p := Progress(|completion|, |complete|, |ArrayDiff(completion, complete)|,
        Percent(|complete|, |completion|), e.entityType, e.id, e.typeLabel,
        done, notDone, ProgressKeys(e), tags);
      cacheBackend := cacheBackend[ProgressCid(e) := ProgressEntry(p, tags)];
    }

    /** `isFieldProgress`, with the collected tags passed in and out. */
    method IsFieldProgress(e: Entity, name: string, s: SettingsMap, tags: set<string>) returns (b: bool, tags': set<string>)
      requires StoreValid(store, rank) && Admissible(e)
      modifies this
      ensures (Snapshot(), b, tags') == FieldProgressM(store, rank, old(Snapshot()), e, name, s, tags)
      decreases Height(store, rank, e), 2
    {
      b := false;
      tags' := tags;
      var lf := Lookup(e, name);
      if lf.None? {
        return;
      }
      var f := lf.value;
      tags' := tags' + f.definition.cacheTags;
      if AllItemsMismatch(f, s) {
        return false, tags';
      }
      if f.definition.fieldType == BooleanType {
        if f.value.Some? {
          var v := f.value.value;
          b := v == 1;
          if Flag(s, "zero") {
            b := v == 0;
          } else if Flag(s, "zero_one") {
            b := v == 0 || v == 1;
          }
        }
      } else if f.definition.fieldType == SignatureType {
        b := AnyItemFilled(f.itemValues);
      } else if IsReferenceType(f.definition.fieldType) {
        b, tags' := ChildrenProgress(e, f, tags');
      } else {
        b := !f.isEmpty;
      }
    }

    /** The loop over the entities a reference field points at: every
        one of them must be complete, and there must be at least one. */
    method ChildrenProgress(e: Entity, f: Field, tags: set<string>) returns (b: bool, tags': set<string>)
      requires StoreValid(store, rank) && Admissible(e) && f in e.fields
      modifies this
      ensures (Snapshot(), b, tags') == ReferenceFold(store, rank, old(Snapshot()), e, f, 0, ReferencedEntities(store, f.targets) != [], tags)
      decreases Height(store, rank, e), 1
    {
      var kids := ReferencedEntities(store, f.targets);
      ChildrenBelow(store, rank, e, f);
      b := kids != [];
      tags' := tags;
      var i := 0;
      while i < |kids|
        invariant 0 <= i <= |kids|
        invariant ReferenceFold(store, rank, Snapshot(), e, f, i, b, tags') == ReferenceFold(store, rank, old(Snapshot()), e, f, 0, kids != [], tags)
      {
        var child := kids[i];
        assert child in kids;
        tags' := tags' + child.cacheTags;
        var progress := GetProgress(child, false);
        if progress.incomplete != 0 {
          b := false;
        }
        i := i + 1;
      }
    }

    /** `isDefinitionProgress`. */
    method IsDefinitionProgress(e: Entity, d: Definition, force: bool) returns (r: bool)
      requires StoreValid(store, rank) && Admissible(e) && d in Definitions(e)
      modifies this
      ensures (Snapshot(), r) == GateM(store, rank, old(Snapshot()), e, d, force)
      decreases Height(store, rank, e), 3, ChainDepth(e, d), 3
    {
      var cid := DefinitionCid(e, d.name, force);
      if cid !in definition || force {
        definition := definition[cid := false];
        var s := GetDefinitionSettings(d);
        var enabled := Flag(s, "enable");
        if force || enabled {
          var valid := true;
          if enabled && HasDependency(s) {
            valid := DependencyProgress(e, d, force);
          }
          definition := definition[cid := valid];
        }
      }
      r := definition[cid];
    }

    /** The dependency branch of `isDefinitionProgress`. */
    method DependencyProgress(e: Entity, d: Definition, force: bool) returns (valid: bool)
      requires StoreValid(store, rank) && Admissible(e) && d in Definitions(e)
      requires Flag(GetDefinitionSettings(d), "enable") && HasDependency(GetDefinitionSettings(d))
      modifies this
      ensures (Snapshot(), valid) == DependentM(store, rank, old(Snapshot()), e, d, force)
      decreases Height(store, rank, e), 3, ChainDepth(e, d), 1
    {
      var s := GetDefinitionSettings(d);
      valid := true;
      if Setting(s, "dependency") == Str(d.name) {
        // A field made to depend on itself; overridden below, since the
        // field then points back at itself.
        valid := false;
      }
      var ldf := DependencyField(e, s);
      if ldf.None? {
        return false;
      }
      var df := ldf.value;
      var ds := GetDefinitionSettings(df.definition);
      if PointsBack(ds, d.name) {
        valid := MutualProgress(e, d, df);
        return;
      }
      assert ChainNext(e, d) == Some(df);
      ChainStepDown(e, d);
      valid := true;
      var depGate := IsDefinitionProgress(e, df.definition, true);
      if !depGate {
        valid := false;
      }
      if valid {
        var discarded;
        valid, discarded := IsFieldProgress(e, df.definition.name, ds, {});
        if Flag(ds, "zero_one") && df.rawValue != Null {
          valid := Truthy(df.rawValue);
        }
        if Flag(s, "negate") {
          valid := !valid;
        }
        if !force && Flag(s, "optional") {
          valid := false;
        }
      }
    }

    /** Two fields that depend on each other: an optional one is left out
        only when it is empty while the other is filled. */
    method MutualProgress(e: Entity, d: Definition, df: Field) returns (valid: bool)
      requires StoreValid(store, rank) && Admissible(e)
      modifies this
      ensures (Snapshot(), valid) == MutualM(store, rank, old(Snapshot()), e, d, df)
      decreases Height(store, rank, e), 3, 0, 0
    {
      var s := GetDefinitionSettings(d);
      valid := true;
      if Flag(s, "optional") {
        var own, ownTags := IsFieldProgress(e, d.name, s, {});
        if !own {
          var dep, depTags := IsFieldProgress(e, df.definition.name, GetDefinitionSettings(df.definition), {});
          if dep {
            valid := false;
          }
        }
      }
    }

    /** `getFieldDefinitions`. */
    method GetFieldDefinitions(e: Entity) returns (sel: seq<Definition>)
      requires StoreValid(store, rank) && Admissible(e)
      modifies this
      ensures (Snapshot(), sel) == GetFieldDefinitionsM(store, rank, old(Snapshot()), e)
      decreases Height(store, rank, e), 5
    {
      var cid := ProgressCid(e);
      if cid !in definitions {
        definitions := definitions[cid := []];
        ghost var target := SelectFold(store, rank, Snapshot(), e, cid, 0);
        var i := 0;
        while i < |e.fields|
          invariant 0 <= i <= |e.fields|
          invariant SelectFold(store, rank, Snapshot(), e, cid, i) == target
        {
          var d := e.fields[i].definition;
          assert d == Definitions(e)[i];
          var ok := IsDefinitionProgress(e, d, false);
          if ok {
            definitions := definitions[cid := PutDefinition(Stored(definitions, cid), d)];
          }
          i := i + 1;
        }
      }
      sel := Stored(definitions, cid);
    }

    /** `getFieldProgress`, with the collected tags passed in and out. */
    method GetFieldProgress(e: Entity, tags: set<string>) returns (c: Completion, tags': set<string>)
      requires StoreValid(store, rank) && Admissible(e)
      modifies this
      ensures (Snapshot(), c, tags') == GetFieldProgressM(store, rank, old(Snapshot()), e, tags)
      decreases Height(store, rank, e), 7
    {
      tags' := tags + e.cacheTags;
      var cid := FieldProgressCid(e);
      if cid in cacheBackend && cacheBackend[cid].CompletionEntry? {
        c := cacheBackend[cid].completion;
      } else {
        var sel := GetFieldDefinitions(e);
        c, tags' := CompletionOf(e, sel, tags');
        cacheBackend := cacheBackend[cid := CompletionEntry(c, tags')];
      }
    }

    /** The loop of `getFieldProgress` over the selected definitions. */
    method CompletionOf(e: Entity, sel: seq<Definition>, tags: set<string>) returns (c: Completion, tags': set<string>)
      requires StoreValid(store, rank) && Admissible(e)
      modifies this
      ensures (Snapshot(), c, tags') == CompletionFold(store, rank, old(Snapshot()), e, sel, 0, [], tags)
      decreases Height(store, rank, e), 6
    {
      c, tags' := [], tags;
      ghost var target := CompletionFold(store, rank, Snapshot(), e, sel, 0, c, tags');
      var i := 0;
      while i < |sel|
        invariant 0 <= i <= |sel|
        invariant CompletionFold(store, rank, Snapshot(), e, sel, i, c, tags') == target
      {
        var d := sel[i];
        if Updatable(e, d.name) {
          var settings := GetDefinitionSettings(d);
          var b;
          b, tags' := IsFieldProgress(e, d.name, settings, tags');
          c := Put(c, d.name, b);
        }
        i := i + 1;
      }
    }
  }
}
