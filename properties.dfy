/** What the completion engine promises, proved about its memo-free
    meaning: the field rules, the dependency gate, the selection, the
    completion map and the aggregate. */
module Properties {
  import opened PhpValues
  import opened Entities
  import opened Settings
  import opened Dependencies
  import opened Aggregate
  import opened Reference

  // The field predicate.

  /** A field the entity does not have is incomplete. */
  lemma MissingFieldIncomplete(store: map<EntityKey, Entity>, rank: map<EntityKey, nat>, e: Entity, name: string, s: SettingsMap)
    requires StoreValid(store, rank) && Admissible(e)
    requires forall i :: 0 <= i < |e.fields| ==> e.fields[i].definition.name != name
    ensures !FieldProgress(store, rank, e, name, s)
  {
  }

  /** With `all` set and a bounded cardinality, a non-empty item count other
      than the cardinality makes the field incomplete whatever its type. */
  lemma AllItemsRequired(store: map<EntityKey, Entity>, rank: map<EntityKey, nat>, e: Entity, f: Field, s: SettingsMap)
    requires StoreValid(store, rank) && Admissible(e) && f in e.fields
    requires Flag(s, "all") && f.definition.cardinality.Limited?
    requires f.nonEmptyCount != f.definition.cardinality.count
    ensures !FieldProgress(store, rank, e, f.definition.name, s)
  {
    FieldByName(e, f);
  }

  /** An unlimited cardinality, or a count equal to the bound, makes `all`
      irrelevant: clearing it changes nothing. */
  lemma AllIgnoredWhenSatisfied(store: map<EntityKey, Entity>, rank: map<EntityKey, nat>, e: Entity, f: Field, s: SettingsMap)
    requires StoreValid(store, rank) && Admissible(e) && f in e.fields
    requires f.definition.cardinality.Unlimited? || f.nonEmptyCount == f.definition.cardinality.count
    ensures FieldProgress(store, rank, e, f.definition.name, s)
         == FieldProgress(store, rank, e, f.definition.name, s["all" := Bool(false)])
  {
    FieldByName(e, f);
    assert Setting(s["all" := Bool(false)], "zero") == Setting(s, "zero");
    assert Setting(s["all" := Bool(false)], "zero_one") == Setting(s, "zero_one");
  }

  /** The boolean rules: null is incomplete; `zero` wants 0 and wins over
      `zero_one`; `zero_one` accepts 0 and 1; otherwise only 1 counts. */
  lemma BooleanRules(store: map<EntityKey, Entity>, rank: map<EntityKey, nat>, e: Entity, f: Field, s: SettingsMap)
    requires StoreValid(store, rank) && Admissible(e) && f in e.fields
    requires f.definition.fieldType == "boolean" && !AllItemsMismatch(f, s)
    ensures f.value.None? ==> !FieldProgress(store, rank, e, f.definition.name, s)
    ensures f.value.Some? && Flag(s, "zero") ==>
      (FieldProgress(store, rank, e, f.definition.name, s) <==> f.value.value == 0)
    ensures f.value.Some? && !Flag(s, "zero") && Flag(s, "zero_one") ==>
      (FieldProgress(store, rank, e, f.definition.name, s) <==> f.value.value == 0 || f.value.value == 1)
    ensures f.value.Some? && !Flag(s, "zero") && !Flag(s, "zero_one") ==>
      (FieldProgress(store, rank, e, f.definition.name, s) <==> f.value.value == 1)
  {
    FieldByName(e, f);
  }

  /** A signature field is complete exactly when some item has a non-empty
      `value`; its own emptiness check is not consulted. */
  lemma SignatureRule(store: map<EntityKey, Entity>, rank: map<EntityKey, nat>, e: Entity, f: Field, s: SettingsMap)
    requires StoreValid(store, rank) && Admissible(e) && f in e.fields
    requires f.definition.fieldType == "field_signature" && !AllItemsMismatch(f, s)
    ensures FieldProgress(store, rank, e, f.definition.name, s)
        <==> exists i :: 0 <= i < |f.itemValues| && Truthy(f.itemValues[i])
  {
    FieldByName(e, f);
  }

  /** A reference field is complete exactly when it references at least one
      entity and none of them reports an incomplete field. */
  lemma ReferenceRule(store: map<EntityKey, Entity>, rank: map<EntityKey, nat>, e: Entity, f: Field, s: SettingsMap)
    requires StoreValid(store, rank) && Admissible(e) && f in e.fields
    requires IsReferenceType(f.definition.fieldType) && !AllItemsMismatch(f, s)
    ensures forall c :: c in ReferencedEntities(store, f.targets) ==> Admissible(c)
    ensures FieldProgress(store, rank, e, f.definition.name, s) <==>
      && ReferencedEntities(store, f.targets) != []
      && forall c :: c in ReferencedEntities(store, f.targets) ==>
           Admissible(c) && EntityProgress(store, rank, c).incomplete == 0
  {
    FieldByName(e, f);
    ChildrenBelow(store, rank, e, f);
    KidsAllComplete(store, rank, ReferencedEntities(store, f.targets));
  }

  /** Read through positions or through membership, every referenced entity
      is complete. */
  lemma KidsAllComplete(store: map<EntityKey, Entity>, rank: map<EntityKey, nat>, kids: seq<Entity>)
    requires StoreValid(store, rank) && forall c :: c in kids ==> Admissible(c)
    ensures (forall i :: 0 <= i < |kids| ==> Admissible(kids[i]) && EntityProgress(store, rank, kids[i]).incomplete == 0)
       <==> (forall c :: c in kids ==> Admissible(c) && EntityProgress(store, rank, c).incomplete == 0)
  {
    if forall i :: 0 <= i < |kids| ==> Admissible(kids[i]) && EntityProgress(store, rank, kids[i]).incomplete == 0 {
      forall c | c in kids ensures Admissible(c) && EntityProgress(store, rank, c).incomplete == 0 {
        var i :| 0 <= i < |kids| && kids[i] == c;
      }
    }
  }

  /** One referenced entity with an incomplete field makes the reference
      field incomplete. */
  lemma IncompleteChildMakesIncomplete(store: map<EntityKey, Entity>, rank: map<EntityKey, nat>, e: Entity, f: Field, s: SettingsMap, c: Entity)
    requires StoreValid(store, rank) && Admissible(e) && f in e.fields
    requires IsReferenceType(f.definition.fieldType)
    requires c in ReferencedEntities(store, f.targets)
    requires Admissible(c) && EntityProgress(store, rank, c).incomplete != 0
    ensures !FieldProgress(store, rank, e, f.definition.name, s)
  {
    if !AllItemsMismatch(f, s) {
      ReferenceRule(store, rank, e, f, s);
    } else {
      AllItemsRequired(store, rank, e, f, s);
    }
  }

  /** Any other field type falls back to the field's own emptiness check. */
  lemma GenericRule(store: map<EntityKey, Entity>, rank: map<EntityKey, nat>, e: Entity, f: Field, s: SettingsMap)
    requires StoreValid(store, rank) && Admissible(e) && f in e.fields
    requires f.definition.fieldType != "boolean" && f.definition.fieldType != "field_signature"
    requires !IsReferenceType(f.definition.fieldType) && !AllItemsMismatch(f, s)
    ensures FieldProgress(store, rank, e, f.definition.name, s) <==> !f.isEmpty
  {
    FieldByName(e, f);
  }

  lemma FieldByName(e: Entity, f: Field)
    requires WellFormed(e) && f in e.fields
    ensures Lookup(e, f.definition.name) == Some(f)
  {
    var i :| 0 <= i < |e.fields| && e.fields[i] == f;
    LookupOwnField(e, i);
  }

  // The dependency gate.

  /** Without force, a disabled field is never selected. */
  lemma DisabledGateFalse(store: map<EntityKey, Entity>, rank: map<EntityKey, nat>, e: Entity, d: Definition)
    requires StoreValid(store, rank) && Admissible(e) && d in Definitions(e)
    requires !Flag(GetDefinitionSettings(d), "enable")
    ensures !Gate(store, rank, e, d, false)
  {
  }

  /** Forcing passes a disabled field, and an enabled field without a
      dependency always passes. */
  lemma GateTrueWithoutDependency(store: map<EntityKey, Entity>, rank: map<EntityKey, nat>, e: Entity, d: Definition, force: bool)
    requires StoreValid(store, rank) && Admissible(e) && d in Definitions(e)
    requires var s := GetDefinitionSettings(d);
      (force && !Flag(s, "enable")) || (Flag(s, "enable") && !HasDependency(s))
    ensures Gate(store, rank, e, d, force)
  {
  }

  /** An enabled field whose dependency names a field the entity lacks is
      never selected. */
  lemma MissingDependencyGateFalse(store: map<EntityKey, Entity>, rank: map<EntityKey, nat>, e: Entity, d: Definition, force: bool, n: string)
    requires StoreValid(store, rank) && Admissible(e) && d in Definitions(e)
    requires var s := GetDefinitionSettings(d);
      Flag(s, "enable") && Setting(s, "dependency") == Str(n) && HasDependency(s)
    requires forall i :: 0 <= i < |e.fields| ==> e.fields[i].definition.name != n
    ensures !Gate(store, rank, e, d, force)
  {
  }

  /** A mutual pair (the dependency's dependency names this field) passes
      unless `optional` is set, this field is incomplete and the dependency
      complete; force and `negate` play no part. */
  lemma MutualPairGate(store: map<EntityKey, Entity>, rank: map<EntityKey, nat>, e: Entity, d: Definition, df: Field, force: bool)
    requires StoreValid(store, rank) && Admissible(e) && d in Definitions(e)
    requires var s := GetDefinitionSettings(d);
      Flag(s, "enable") && HasDependency(s) && DependencyField(e, s) == Some(df)
    requires PointsBack(GetDefinitionSettings(df.definition), d.name)
    ensures var s := GetDefinitionSettings(d);
      Gate(store, rank, e, d, force) <==>
        !(Flag(s, "optional")
          && !FieldProgress(store, rank, e, d.name, s)
          && FieldProgress(store, rank, e, df.definition.name, GetDefinitionSettings(df.definition)))
  {
  }

  /** With `optional` unset both fields of a mutual pair pass, whatever
      their values. */
  lemma MutualPairWithoutOptional(store: map<EntityKey, Entity>, rank: map<EntityKey, nat>, e: Entity, d: Definition, df: Field, force: bool)
    requires StoreValid(store, rank) && Admissible(e) && d in Definitions(e)
    requires var s := GetDefinitionSettings(d);
      Flag(s, "enable") && HasDependency(s) && DependencyField(e, s) == Some(df) && !Flag(s, "optional")
    requires PointsBack(GetDefinitionSettings(df.definition), d.name)
    ensures Gate(store, rank, e, d, force)
  {
    MutualPairGate(store, rank, e, d, df, force);
  }

  /** A field that depends on itself is a mutual pair with itself and
      always passes. */
  lemma SelfDependencyGateTrue(store: map<EntityKey, Entity>, rank: map<EntityKey, nat>, e: Entity, d: Definition, force: bool)
    requires StoreValid(store, rank) && Admissible(e) && d in Definitions(e)
    requires var s := GetDefinitionSettings(d);
      Flag(s, "enable") && DependencyName(s) == Some(d.name)
    ensures Gate(store, rank, e, d, force)
  {
    var i :| 0 <= i < |e.fields| && Definitions(e)[i] == d;
    LookupOwnField(e, i);
  }

  /** In a chained dependency the field passes only if its dependency
      passes the forced gate. */
  lemma ChainedNeedsForcedDependency(store: map<EntityKey, Entity>, rank: map<EntityKey, nat>, e: Entity, d: Definition, df: Field, force: bool)
    requires StoreValid(store, rank) && Admissible(e) && d in Definitions(e)
    requires var s := GetDefinitionSettings(d);
      Flag(s, "enable") && HasDependency(s) && DependencyField(e, s) == Some(df)
    requires !PointsBack(GetDefinitionSettings(df.definition), d.name)
    ensures df.definition in Definitions(e)
    ensures Gate(store, rank, e, d, force) ==> Gate(store, rank, e, df.definition, true)
  {
    assert ChainNext(e, d) == Some(df);
    ChainStepDown(e, d);
  }

  /** Without force, an optional field with a chained dependency is never
      selected. */
  lemma ChainedOptionalUnforcedFalse(store: map<EntityKey, Entity>, rank: map<EntityKey, nat>, e: Entity, d: Definition, df: Field)
    requires StoreValid(store, rank) && Admissible(e) && d in Definitions(e)
    requires var s := GetDefinitionSettings(d);
      Flag(s, "enable") && HasDependency(s) && DependencyField(e, s) == Some(df) && Flag(s, "optional")
    requires !PointsBack(GetDefinitionSettings(df.definition), d.name)
    ensures !Gate(store, rank, e, d, false)
  {
  }

  /** Once the dependency passes its forced gate and `optional` does not
      apply, the field passes exactly when the dependency's value is done,
      inverted by `negate`. */
  lemma ChainedValue(store: map<EntityKey, Entity>, rank: map<EntityKey, nat>, e: Entity, d: Definition, df: Field, force: bool)
    requires StoreValid(store, rank) && Admissible(e) && d in Definitions(e)
    requires var s := GetDefinitionSettings(d);
      Flag(s, "enable") && HasDependency(s) && DependencyField(e, s) == Some(df)
      && (force || !Flag(s, "optional"))
    requires !PointsBack(GetDefinitionSettings(df.definition), d.name)
    ensures df.definition in Definitions(e)
    ensures Gate(store, rank, e, df.definition, true) ==>
      (Gate(store, rank, e, d, force) <==> (DependencyValue(store, rank, e, df) != Flag(GetDefinitionSettings(d), "negate")))
  {
    assert ChainNext(e, d) == Some(df);
    ChainStepDown(e, d);
  }

  /** A `zero_one` dependency whose value is not null satisfies its
      dependents exactly when the value, uncast, is not empty: "0.5" or
      "abc" count although they cast to 0. */
  lemma ZeroOneReadsRawValue(store: map<EntityKey, Entity>, rank: map<EntityKey, nat>, e: Entity, df: Field)
    requires StoreValid(store, rank) && Admissible(e)
    requires Flag(GetDefinitionSettings(df.definition), "zero_one") && df.rawValue != Null
    ensures DependencyValue(store, rank, e, df) <==> Truthy(df.rawValue)
  {
  }

  /** A `zero_one` boolean holding 0 is complete on its own, yet does not
      satisfy a field that depends on it; holding 1 it does both. A boolean
      stores 0 or 1, as an integer or a string, so its value is empty
      exactly when it is 0. */
  lemma ZeroOneDependsOnContext(store: map<EntityKey, Entity>, rank: map<EntityKey, nat>, e: Entity, df: Field)
    requires StoreValid(store, rank) && Admissible(e) && df in e.fields
    requires var ds := GetDefinitionSettings(df.definition);
      df.definition.fieldType == "boolean" && Flag(ds, "zero_one") && !Flag(ds, "zero") && !AllItemsMismatch(df, ds)
    requires df.rawValue != Null
    requires (df.value == Some(0) && !Truthy(df.rawValue)) || (df.value == Some(1) && Truthy(df.rawValue))
    ensures FieldProgress(store, rank, e, df.definition.name, GetDefinitionSettings(df.definition))
    ensures DependencyValue(store, rank, e, df) <==> df.value == Some(1)
  {
    BooleanRules(store, rank, e, df, GetDefinitionSettings(df.definition));
    ZeroOneReadsRawValue(store, rank, e, df);
  }

  /** Without `zero_one`, or with a null value, a dependency counts by its
      own predicate. */
  lemma DependencyValueIsPredicate(store: map<EntityKey, Entity>, rank: map<EntityKey, nat>, e: Entity, df: Field)
    requires StoreValid(store, rank) && Admissible(e)
    requires !Flag(GetDefinitionSettings(df.definition), "zero_one") || df.rawValue == Null
    ensures DependencyValue(store, rank, e, df)
        == FieldProgress(store, rank, e, df.definition.name, GetDefinitionSettings(df.definition))
  {
  }

  // The selection.

  lemma {:induction false} SelectFromMembers(store: map<EntityKey, Entity>, rank: map<EntityKey, nat>, e: Entity, i: nat, acc: seq<Definition>)
    requires StoreValid(store, rank) && Admissible(e) && i <= |e.fields|
    requires DistinctDefinitionNames(acc)
    requires forall x, j :: x in acc && i <= j < |e.fields| ==> x.name != e.fields[j].definition.name
    ensures DistinctDefinitionNames(SelectFrom(store, rank, e, i, acc))
    ensures forall d :: d in SelectFrom(store, rank, e, i, acc) <==>
      d in acc || exists j :: i <= j < |e.fields| && e.fields[j].definition == d && Gate(store, rank, e, d, false)
    decreases |e.fields| - i
  {
    if i < |e.fields| {
      var d := e.fields[i].definition;
      assert d == Definitions(e)[i];
      var g := Gate(store, rank, e, d, false);
      SelectStep(e, i, acc, g);
      SelectFromMembers(store, rank, e, i + 1, if g then PutDefinition(acc, d) else acc);
    }
  }

  /** One step of the selection loop keeps the selected names distinct and
      apart from the names still to come. */
  lemma SelectStep(e: Entity, i: nat, acc: seq<Definition>, g: bool)
    requires WellFormed(e) && i < |e.fields|
    requires DistinctDefinitionNames(acc)
    requires forall x, j :: x in acc && i <= j < |e.fields| ==> x.name != e.fields[j].definition.name
    ensures var acc' := if g then PutDefinition(acc, e.fields[i].definition) else acc;
      && DistinctDefinitionNames(acc')
      && (forall x, j :: x in acc' && i + 1 <= j < |e.fields| ==> x.name != e.fields[j].definition.name)
      && (forall x :: x in acc' <==> x in acc || (g && x == e.fields[i].definition))
  {
    var d := e.fields[i].definition;
    if g {
      assert forall k :: 0 <= k < |acc| ==> acc[k].name != d.name by {
        forall k | 0 <= k < |acc| ensures acc[k].name != d.name {
          assert acc[k] in acc;
        }
      }
      var acc' := acc + [d];
      assert PutDefinition(acc, d) == acc';
      forall a, b | 0 <= a < b < |acc'| ensures acc'[a].name != acc'[b].name {
        if b == |acc| { assert acc'[a] == acc[a]; }
      }
      forall x, j | x in acc' && i + 1 <= j < |e.fields| ensures x.name != e.fields[j].definition.name {
        if x == d { assert e.fields[i].definition.name != e.fields[j].definition.name; }
      }
    }
  }

  /** The selection holds exactly the bundle's definitions that pass the
      unforced gate, each name once. */
  lemma SelectionMembers(store: map<EntityKey, Entity>, rank: map<EntityKey, nat>, e: Entity)
    requires StoreValid(store, rank) && Admissible(e)
    ensures DistinctDefinitionNames(Selection(store, rank, e))
    ensures forall d :: d in Selection(store, rank, e) <==> d in Definitions(e) && Gate(store, rank, e, d, false)
  {
    SelectFromMembers(store, rank, e, 0, []);
    forall d ensures d in Selection(store, rank, e) <==> d in Definitions(e) && Gate(store, rank, e, d, false) {
      if d in Definitions(e) {
        var j :| 0 <= j < |e.fields| && Definitions(e)[j] == d;
      }
    }
  }

  // The completion map.

  /** The predicate of each definition of `sel` under its own settings. */
  ghost function Dones(store: map<EntityKey, Entity>, rank: map<EntityKey, nat>, e: Entity, sel: seq<Definition>): (r: seq<bool>)
    requires StoreValid(store, rank) && Admissible(e)
    ensures |r| == |sel|
    ensures forall j :: 0 <= j < |sel| ==> r[j] == FieldProgress(store, rank, e, sel[j].name, GetDefinitionSettings(sel[j]))
  {
    seq(|sel|, j requires 0 <= j < |sel| => FieldProgress(store, rank, e, sel[j].name, GetDefinitionSettings(sel[j])))
  }

  lemma {:induction false} CompletionFromIsPutAll(store: map<EntityKey, Entity>, rank: map<EntityKey, nat>, e: Entity, sel: seq<Definition>, i: nat, acc: Completion)
    requires StoreValid(store, rank) && Admissible(e) && i <= |sel|
    ensures CompletionFrom(store, rank, e, sel, i, acc) == PutAll(acc, Entries(e, sel[i..], Dones(store, rank, e, sel)[i..]))
    decreases |sel| - i
  {
    var dones := Dones(store, rank, e, sel);
    if i < |sel| {
      var d := sel[i];
      var acc' := if Updatable(e, d.name) then Put(acc, d.name, dones[i]) else acc;
      assert sel[i..][0] == d && sel[i..][1..] == sel[i + 1..];
      assert dones[i..][0] == dones[i] && dones[i..][1..] == dones[i + 1..];
      CompletionFromIsPutAll(store, rank, e, sel, i + 1, acc');
      var rs := Entries(e, sel[i + 1..], dones[i + 1..]);
      if Updatable(e, d.name) {
        var x := FieldResult(d.name, dones[i]);
        assert Entries(e, sel[i..], dones[i..]) == [x] + rs;
        assert ([x] + rs)[1..] == rs;
      } else {
        assert Entries(e, sel[i..], dones[i..]) == rs;
      }
    } else {
      assert sel[i..] == [];
    }
  }

  /** The completion map is the selection's entries in order, as the
      selection never repeats a name. */
  lemma CompletionMapIsEntries(store: map<EntityKey, Entity>, rank: map<EntityKey, nat>, e: Entity)
    requires StoreValid(store, rank) && Admissible(e)
    ensures DistinctDefinitionNames(Selection(store, rank, e))
    ensures CompletionMap(store, rank, e) == Entries(e, Selection(store, rank, e), Dones(store, rank, e, Selection(store, rank, e)))
    ensures DistinctNames(CompletionMap(store, rank, e))
  {
    var sel := Selection(store, rank, e);
    var dones := Dones(store, rank, e, sel);
    SelectionMembers(store, rank, e);
    CompletionFromIsPutAll(store, rank, e, sel, 0, []);
    assert sel[0..] == sel && dones[0..] == dones;
    EntriesDistinct(e, sel, dones);
    var rs := Entries(e, sel, dones);
    assert [] + rs == rs;
    PutAllAppends([], rs);
  }

  /** The completion map names exactly the selected fields the viewer may
      update. */
  lemma CompletionMapNames(store: map<EntityKey, Entity>, rank: map<EntityKey, nat>, e: Entity)
    requires StoreValid(store, rank) && Admissible(e)
    ensures forall n :: n in Names(CompletionMap(store, rank, e)) <==>
      exists d :: d in Selection(store, rank, e) && d.name == n && Updatable(e, n)
  {
    var sel := Selection(store, rank, e);
    var dones := Dones(store, rank, e, sel);
    CompletionMapIsEntries(store, rank, e);
    EntriesNamesMembers(e, sel, dones);
  }

  /** Each selected field the viewer may update holds its predicate under
      its own settings in the completion map. */
  lemma CompletionMapValues(store: map<EntityKey, Entity>, rank: map<EntityKey, nat>, e: Entity)
    requires StoreValid(store, rank) && Admissible(e)
    ensures forall d :: d in Selection(store, rank, e) && Updatable(e, d.name) ==>
      Get(CompletionMap(store, rank, e), d.name) == Some(FieldProgress(store, rank, e, d.name, GetDefinitionSettings(d)))
  {
    var sel := Selection(store, rank, e);
    var dones := Dones(store, rank, e, sel);
    CompletionMapIsEntries(store, rank, e);
    EntriesAsMap(e, sel, dones);
    var c := Entries(e, sel, dones);
    forall d | d in sel && Updatable(e, d.name)
      ensures Get(c, d.name) == Some(FieldProgress(store, rank, e, d.name, GetDefinitionSettings(d)))
    {
      var j :| 0 <= j < |sel| && sel[j] == d;
      assert Get(c, sel[j].name) == Some(dones[j]);
    }
  }

  /** A field whose `enable` setting is empty never appears in the
      completion map, whatever its other settings. */
  lemma DisabledNeverInCompletion(store: map<EntityKey, Entity>, rank: map<EntityKey, nat>, e: Entity, f: Field)
    requires StoreValid(store, rank) && Admissible(e) && f in e.fields
    requires !Flag(GetDefinitionSettings(f.definition), "enable")
    ensures f.definition.name !in Names(CompletionMap(store, rank, e))
  {
    CompletionMapNames(store, rank, e);
    SelectionMembers(store, rank, e);
    var k :| 0 <= k < |e.fields| && e.fields[k] == f;
    forall d | d in Selection(store, rank, e) ensures d.name != f.definition.name {
      var i :| 0 <= i < |e.fields| && Definitions(e)[i] == d;
      assert Gate(store, rank, e, d, false);
      assert d != f.definition;
      assert i != k;
      assert e.fields[i].definition.name != e.fields[k].definition.name;
    }
  }

  // The aggregate.

  /** The counts of the aggregate: complete plus incomplete is the number of
      counted fields, and the percentage lies in 0..100, 100 with nothing
      to count. */
  lemma ProgressCounts(store: map<EntityKey, Entity>, rank: map<EntityKey, nat>, e: Entity)
    requires StoreValid(store, rank) && Admissible(e)
    ensures EntityProgress(store, rank, e).total == |CompletionMap(store, rank, e)|
    ensures EntityProgress(store, rank, e).complete + EntityProgress(store, rank, e).incomplete
         == EntityProgress(store, rank, e).total
    ensures EntityProgress(store, rank, e).percent <= 100
    ensures EntityProgress(store, rank, e).total == 0 ==> EntityProgress(store, rank, e).percent == 100
  {
    assert EntityProgress(store, rank, e) == MakeProgress(e, CompletionMap(store, rank, e), Selection(store, rank, e), {});
    ProgressPercent(e, CompletionMap(store, rank, e), Selection(store, rank, e), {});
  }

  /** With something to count, the percentage is complete/total rounded
      half up. */
  lemma ProgressRounding(store: map<EntityKey, Entity>, rank: map<EntityKey, nat>, e: Entity)
    requires StoreValid(store, rank) && Admissible(e)
    ensures var p := EntityProgress(store, rank, e);
      p.total > 0 ==> 2 * p.total * p.percent <= 200 * p.complete + p.total < 2 * p.total * (p.percent + 1)
  {
    assert EntityProgress(store, rank, e) == MakeProgress(e, CompletionMap(store, rank, e), Selection(store, rank, e), {});
    ProgressPercent(e, CompletionMap(store, rank, e), Selection(store, rank, e), {});
  }

  /** Every counted field lands in the bucket of its result: the buckets
      have as many entries as the counts. */
  lemma ProgressBuckets(store: map<EntityKey, Entity>, rank: map<EntityKey, nat>, e: Entity)
    requires StoreValid(store, rank) && Admissible(e)
    ensures |EntityProgress(store, rank, e).completeFields| == EntityProgress(store, rank, e).complete
    ensures |EntityProgress(store, rank, e).incompleteFields| == EntityProgress(store, rank, e).incomplete
  {
    CompletionUpdatable(store, rank, e);
    assert EntityProgress(store, rank, e) == MakeProgress(e, CompletionMap(store, rank, e), Selection(store, rank, e), {});
    ProgressBucketSizes(e, CompletionMap(store, rank, e), Selection(store, rank, e), {});
  }

  /** The buckets hold, in selection order, the selected fields the viewer
      may update: the complete bucket those whose predicate holds, the
      incomplete bucket the others. */
  lemma ProgressBucketsInOrder(store: map<EntityKey, Entity>, rank: map<EntityKey, nat>, e: Entity)
    requires StoreValid(store, rank) && Admissible(e)
    ensures var sel := Selection(store, rank, e);
      && EntityProgress(store, rank, e).completeFields == BucketOf(e, sel, Dones(store, rank, e, sel), true)
      && EntityProgress(store, rank, e).incompleteFields == BucketOf(e, sel, Dones(store, rank, e, sel), false)
  {
    var sel := Selection(store, rank, e);
    CompletionMapIsEntries(store, rank, e);
    assert EntityProgress(store, rank, e) == MakeProgress(e, CompletionMap(store, rank, e), sel, {});
    EntriesBuckets(e, sel, Dones(store, rank, e, sel), sel);
  }

  /** A definition sits in the complete bucket exactly when it is selected,
      the viewer may update it and it is complete; in the incomplete bucket
      exactly when it is selected, updatable and incomplete. */
  lemma ProgressBucketMembers(store: map<EntityKey, Entity>, rank: map<EntityKey, nat>, e: Entity, want: bool)
    requires StoreValid(store, rank) && Admissible(e)
    ensures var p := EntityProgress(store, rank, e);
      forall x: Option<Definition> :: x in (if want then p.completeFields else p.incompleteFields) <==>
        && x.Some? && x.value in Selection(store, rank, e) && Updatable(e, x.value.name)
        && FieldProgress(store, rank, e, x.value.name, GetDefinitionSettings(x.value)) == want
  {
    var sel := Selection(store, rank, e);
    var dones := Dones(store, rank, e, sel);
    ProgressBucketsInOrder(store, rank, e);
    BucketOfMembers(e, sel, dones, want);
    forall x: Option<Definition> | x.Some? && x.value in sel
      ensures (exists j :: 0 <= j < |sel| && sel[j] == x.value && Updatable(e, sel[j].name) && dones[j] == want)
        <==> Updatable(e, x.value.name) && FieldProgress(store, rank, e, x.value.name, GetDefinitionSettings(x.value)) == want
    {
      var j :| 0 <= j < |sel| && sel[j] == x.value;
    }
  }

  lemma CompletionUpdatable(store: map<EntityKey, Entity>, rank: map<EntityKey, nat>, e: Entity)
    requires StoreValid(store, rank) && Admissible(e)
    ensures forall k :: 0 <= k < |CompletionMap(store, rank, e)| ==> Updatable(e, CompletionMap(store, rank, e)[k].name)
  {
    var sel := Selection(store, rank, e);
    CompletionMapIsEntries(store, rank, e);
    EntriesAsMap(e, sel, Dones(store, rank, e, sel));
  }

  /** An entity reports no incomplete field exactly when every selected
      field the viewer may update is complete. */
  lemma ProgressCompleteIff(store: map<EntityKey, Entity>, rank: map<EntityKey, nat>, e: Entity)
    requires StoreValid(store, rank) && Admissible(e)
    ensures EntityProgress(store, rank, e).incomplete == 0 <==>
      forall d :: d in Selection(store, rank, e) && Updatable(e, d.name) ==>
        FieldProgress(store, rank, e, d.name, GetDefinitionSettings(d))
  {
    var sel := Selection(store, rank, e);
    var dones := Dones(store, rank, e, sel);
    var c := CompletionMap(store, rank, e);
    assert EntityProgress(store, rank, e) == MakeProgress(e, c, sel, {});
    ProgressIncompleteIff(e, c, sel, {});
    CompletionMapIsEntries(store, rank, e);
    EntriesAllDone(e, sel, dones);
    assert (forall k :: 0 <= k < |c| ==> c[k].done) <==> (forall j :: 0 <= j < |sel| && Updatable(e, sel[j].name) ==> dones[j]);
    DonesAtMembers(store, rank, e, sel);
  }

  /** Read through positions or through membership, every selected field
      the viewer may update is done. */
  lemma DonesAtMembers(store: map<EntityKey, Entity>, rank: map<EntityKey, nat>, e: Entity, sel: seq<Definition>)
    requires StoreValid(store, rank) && Admissible(e)
    ensures (forall j :: 0 <= j < |sel| && Updatable(e, sel[j].name) ==> Dones(store, rank, e, sel)[j]) <==>
      forall d :: d in sel && Updatable(e, d.name) ==> FieldProgress(store, rank, e, d.name, GetDefinitionSettings(d))
  {
    var dones := Dones(store, rank, e, sel);
    if forall j :: 0 <= j < |sel| && Updatable(e, sel[j].name) ==> dones[j] {
      forall d | d in sel && Updatable(e, d.name) ensures FieldProgress(store, rank, e, d.name, GetDefinitionSettings(d)) {
        var j :| 0 <= j < |sel| && sel[j] == d;
      }
    }
  }

  lemma {:induction false} NothingSelectedFrom(store: map<EntityKey, Entity>, rank: map<EntityKey, nat>, e: Entity, i: nat)
    requires StoreValid(store, rank) && Admissible(e)
    requires forall f :: f in e.fields ==> !Flag(GetDefinitionSettings(f.definition), "enable")
    ensures SelectFrom(store, rank, e, i, []) == []
    decreases |e.fields| - i
  {
    if i < |e.fields| {
      assert e.fields[i] in e.fields;
      NothingSelectedFrom(store, rank, e, i + 1);
    }
  }

  /** An entity with no enabled field counts nothing and reports 100
      percent. */
  lemma NothingToCountIsComplete(store: map<EntityKey, Entity>, rank: map<EntityKey, nat>, e: Entity)
    requires StoreValid(store, rank) && Admissible(e)
    requires forall f :: f in e.fields ==> !Flag(GetDefinitionSettings(f.definition), "enable")
    ensures EntityProgress(store, rank, e).total == 0 && EntityProgress(store, rank, e).percent == 100
  {
    NothingSelectedFrom(store, rank, e, 0);
    assert CompletionMap(store, rank, e) == [];
    assert EntityProgress(store, rank, e) == MakeProgress(e, [], Selection(store, rank, e), {});
    ProgressPercent(e, [], Selection(store, rank, e), {});
  }
}
