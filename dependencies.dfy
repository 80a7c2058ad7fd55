/** What makes the manager's recursion finite: dependency chains inside one
    entity end, and references between entities go strictly downhill in a
    rank the entity store carries. The source has no guard against either
    kind of cycle; here they are preconditions. */
module Dependencies {
  import opened PhpValues
  import opened Entities
  import opened Settings

  /** `isset($entity->{$dependency})`: the field the dependency names. */
  function DependencyField(e: Entity, s: SettingsMap): (r: Option<Field>)
    ensures r.Some? ==> r.value in e.fields && DependencyName(s) == Some(r.value.definition.name)
    ensures r.None? <==>
      (DependencyName(s).None? || forall i :: 0 <= i < |e.fields| ==> e.fields[i].definition.name != DependencyName(s).value)
  {
    match DependencyName(s)
    case Some(n) => Lookup(e, n)
    case None => None
  }

  /** The definition the dependency resolver checks with force (line 372):
      the field is enabled, has a dependency that exists, and that
      dependency does not point back at it. */
  function ChainNext(e: Entity, d: Definition): (r: Option<Field>)
    ensures r.Some? ==> r.value in e.fields
  {
    var s := GetDefinitionSettings(d);
    if Flag(s, "enable") && HasDependency(s) then
      match DependencyField(e, s)
      case Some(df) =>
        if PointsBack(GetDefinitionSettings(df.definition), d.name) then None else Some(df)
      case None => None
    else None
  }

  /** Position of the field called `name`. */
  function FieldIndex(fs: seq<Field>, name: string): (r: Option<nat>)
    ensures r.Some? ==> r.value < |fs| && fs[r.value].definition.name == name
    ensures r.None? ==> forall i :: 0 <= i < |fs| ==> fs[i].definition.name != name
  {
    if fs == [] then None
    else if fs[0].definition.name == name then Some(0)
    else match FieldIndex(fs[1..], name)
      case Some(j) => Some(j + 1)
      case None => None
  }

  /** For each field, by position, the position of the field ChainNext
      leads to. */
  function Successors(e: Entity): (s: seq<Option<nat>>)
    ensures |s| == |e.fields|
  {
    seq(|e.fields|, i requires 0 <= i < |e.fields| =>
      match ChainNext(e, e.fields[i].definition)
      case Some(f) => FieldIndex(e.fields, f.definition.name)
      case None => None)
  }

  /** Following the successors from position `i` stops within `fuel` steps. */
  predicate EndsWithin(s: seq<Option<nat>>, i: nat, fuel: nat)
    decreases fuel
  {
    i < |s| ==>
      match s[i]
      case None => true
      case Some(j) => fuel > 0 && EndsWithin(s, j, fuel - 1)
  }

  function StepsWithin(s: seq<Option<nat>>, i: nat, fuel: nat): nat
    decreases fuel
  {
    if i >= |s| then 0
    else match s[i]
      case None => 0
      case Some(j) => if fuel == 0 then 0 else 1 + StepsWithin(s, j, fuel - 1)
  }

  /** The number of forced dependency checks a definition triggers. */
  function ChainDepth(e: Entity, d: Definition): nat {
    match FieldIndex(e.fields, d.name)
    case Some(i) => StepsWithin(Successors(e), i, |e.fields|)
    case None => 0
  }

  /** No cycle of three or more enabled dependencies: every chain ends. */
  predicate Acyclic(e: Entity) {
    forall i :: 0 <= i < |e.fields| ==> EndsWithin(Successors(e), i, |e.fields|)
  }

  predicate Admissible(e: Entity) {
    WellFormed(e) && Acyclic(e)
  }

  /** More fuel never makes a finished chain unfinished, nor changes its
      length. */
  lemma {:induction false} FuelMonotone(s: seq<Option<nat>>, i: nat, k: nat, k': nat)
    requires EndsWithin(s, i, k) && k <= k'
    ensures EndsWithin(s, i, k') && StepsWithin(s, i, k') == StepsWithin(s, i, k)
    decreases k
  {
    if i < |s| && s[i].Some? {
      FuelMonotone(s, s[i].value, k - 1, k' - 1);
    }
  }

  /** Each forced dependency check goes one step down the chain. */
  lemma ChainStepDown(e: Entity, d: Definition)
    requires Admissible(e) && d in Definitions(e)
    requires ChainNext(e, d).Some?
    ensures ChainNext(e, d).value.definition in Definitions(e)
    ensures ChainDepth(e, ChainNext(e, d).value.definition) < ChainDepth(e, d)
  {
    var f := ChainNext(e, d).value;
    var n := |e.fields|;
    var s := Successors(e);
    var i0 :| 0 <= i0 < n && Definitions(e)[i0] == d;
    var i := FieldIndex(e.fields, d.name).value;
    assert i == i0;
    var j0 :| 0 <= j0 < n && e.fields[j0] == f;
    assert Definitions(e)[j0] == f.definition;
    var j := FieldIndex(e.fields, f.definition.name).value;
    assert j == j0;
    assert s[i] == Some(j);
    assert EndsWithin(s, i, n);
    FuelMonotone(s, j, n - 1, n);
  }

  // Entity store ranking.

  function Max(a: nat, b: nat): nat {
    if a < b then b else a
  }

  ghost function TargetsHeight(store: map<EntityKey, Entity>, rank: map<EntityKey, nat>, ts: seq<EntityKey>): nat {
    if ts == [] then 0
    else Max(if ts[0] in store && ts[0] in rank then rank[ts[0]] + 1 else 0,
             TargetsHeight(store, rank, ts[1..]))
  }

  ghost function FieldsHeight(store: map<EntityKey, Entity>, rank: map<EntityKey, nat>, fs: seq<Field>): nat {
    if fs == [] then 0
    else Max(TargetsHeight(store, rank, fs[0].targets), FieldsHeight(store, rank, fs[1..]))
  }

  /** One more than the highest rank among the entity's loadable targets. */
  ghost function Height(store: map<EntityKey, Entity>, rank: map<EntityKey, nat>, e: Entity): nat {
    FieldsHeight(store, rank, e.fields)
  }

  /** The entity store: every entity sits under its own key, is admissible,
      and references only entities of lower rank. */
  ghost predicate StoreValid(store: map<EntityKey, Entity>, rank: map<EntityKey, nat>) {
    forall k :: k in store ==>
      && k in rank
      && Key(store[k]) == k
      && Admissible(store[k])
      && Height(store, rank, store[k]) <= rank[k]
  }

  lemma {:induction false} TargetBelow(store: map<EntityKey, Entity>, rank: map<EntityKey, nat>, ts: seq<EntityKey>, c: Entity)
    requires StoreValid(store, rank)
    requires c in ReferencedEntities(store, ts)
    ensures Height(store, rank, c) < TargetsHeight(store, rank, ts)
    ensures Key(c) in store && store[Key(c)] == c && Admissible(c)
  {
    if ts[0] in store && c == store[ts[0]] {
    } else {
      assert c in ReferencedEntities(store, ts[1..]);
      TargetBelow(store, rank, ts[1..], c);
    }
  }

  lemma {:induction false} FieldTargetsBelow(store: map<EntityKey, Entity>, rank: map<EntityKey, nat>, fs: seq<Field>, f: Field)
    requires f in fs
    ensures TargetsHeight(store, rank, f.targets) <= FieldsHeight(store, rank, fs)
  {
    if fs[0] != f {
      FieldTargetsBelow(store, rank, fs[1..], f);
    }
  }

  /** Every entity a field of `e` references lies strictly below `e` and is
      a well-formed member of the store. */
  lemma ChildrenBelow(store: map<EntityKey, Entity>, rank: map<EntityKey, nat>, e: Entity, f: Field)
    requires StoreValid(store, rank) && f in e.fields
    ensures forall c :: c in ReferencedEntities(store, f.targets) ==>
      && Height(store, rank, c) < Height(store, rank, e)
      && Key(c) in store && store[Key(c)] == c && Admissible(c)
  {
    forall c | c in ReferencedEntities(store, f.targets)
      ensures Height(store, rank, c) < Height(store, rank, e)
      ensures Key(c) in store && store[Key(c)] == c && Admissible(c)
    {
      TargetBelow(store, rank, f.targets, c);
      FieldTargetsBelow(store, rank, e.fields, f);
    }
  }
}
