/** The aggregator: the completion map (field name to done, in insertion
    order, as a PHP array), its counts, the rounded percentage, the
    complete/incomplete buckets and the progress record. */
module Aggregate {
  import opened PhpValues
  import opened Entities
  import opened CacheKeys

  datatype FieldResult = FieldResult(name: string, done: bool)

  /** An ordered PHP array from field name to completion. */
  type Completion = seq<FieldResult>

  function Names(c: Completion): set<string> {
    if c == [] then {} else {c[0].name} + Names(c[1..])
  }

  predicate DistinctNames(c: Completion) {
    forall i, j :: 0 <= i < j < |c| ==> c[i].name != c[j].name
  }

  /** `$completion[$name]`, absent when the key is missing. */
  function Get(c: Completion, name: string): Option<bool> {
    if c == [] then None
    else if c[0].name == name then Some(c[0].done)
    else Get(c[1..], name)
  }

  /** `$completion[$name] = $done`: overwrite in place, or append. */
  function Put(c: Completion, name: string, done: bool): (r: Completion)
    ensures Names(r) == Names(c) + {name}
    ensures Get(r, name) == Some(done)
    ensures forall n :: n != name ==> Get(r, n) == Get(c, n)
    ensures DistinctNames(c) ==> DistinctNames(r)
    ensures name !in Names(c) ==> r == c + [FieldResult(name, done)]
  {
    if c == [] then [FieldResult(name, done)]
    else if c[0].name == name then
      ReplaceHeadDistinct(c, FieldResult(name, done));
      [FieldResult(name, done)] + c[1..]
    else
      var rest := Put(c[1..], name, done);
      ConsDistinct(c, rest, name);
      [c[0]] + rest
  }

  lemma ReplaceHeadDistinct(c: Completion, x: FieldResult)
    requires c != [] && x.name == c[0].name
    ensures DistinctNames(c) ==> DistinctNames([x] + c[1..])
  {
    if DistinctNames(c) {
      forall i, j | 0 <= i < j < |c| ensures ([x] + c[1..])[i].name != ([x] + c[1..])[j].name {
        assert c[i].name != c[j].name;
      }
    }
  }

  lemma ConsDistinct(c: Completion, rest: Completion, name: string)
    requires c != [] && c[0].name != name && Names(rest) == Names(c[1..]) + {name}
    requires DistinctNames(c[1..]) ==> DistinctNames(rest)
    ensures DistinctNames(c) ==> DistinctNames([c[0]] + rest)
  {
    if DistinctNames(c) {
      NamesMembership(c[1..]);
      NamesMembership(rest);
      assert c[0].name !in Names(c[1..]);
      assert DistinctNames(c[1..]);
      forall i, j | 0 <= i < j < |[c[0]] + rest| ensures ([c[0]] + rest)[i].name != ([c[0]] + rest)[j].name {
        if i == 0 { assert rest[j - 1].name in Names(rest); }
      }
    }
  }

  lemma {:induction false} NamesMembership(c: Completion)
    ensures forall i :: 0 <= i < |c| ==> c[i].name in Names(c)
    ensures forall n :: n in Names(c) ==> exists i :: 0 <= i < |c| && c[i].name == n
  {
    if c != [] {
      NamesMembership(c[1..]);
      assert forall i :: 1 <= i < |c| ==> c[i] == c[1..][i - 1];
    }
  }

  /** In a map without repeated keys, each entry is what a lookup of its
      key finds. */
  lemma {:induction false} GetEntry(c: Completion, i: nat)
    requires DistinctNames(c) && i < |c|
    ensures Get(c, c[i].name) == Some(c[i].done)
  {
    if i > 0 {
      assert c[0].name != c[i].name;
      assert c[1..][i - 1] == c[i];
      GetEntry(c[1..], i - 1);
    }
  }

  /** A lookup finds a value exactly for the keys the map holds. */
  lemma {:induction false} GetNames(c: Completion, n: string)
    ensures Get(c, n).Some? <==> n in Names(c)
  {
    if c != [] { GetNames(c[1..], n); }
  }

  /** Writing the entries of `rs` one after another. */
  function PutAll(c: Completion, rs: Completion): Completion
    decreases |rs|
  {
    if rs == [] then c else PutAll(Put(c, rs[0].name, rs[0].done), rs[1..])
  }

  /** Writing entries with fresh names appends them. */
  lemma {:induction false} PutAllAppends(c: Completion, rs: Completion)
    requires DistinctNames(c + rs)
    ensures PutAll(c, rs) == c + rs
    decreases |rs|
  {
    if rs != [] {
      NamesMembership(c);
      assert (c + rs)[|c|] == rs[0];
      assert rs[0].name !in Names(c) by {
        forall k | 0 <= k < |c| ensures c[k].name != rs[0].name {
          assert (c + rs)[k] == c[k];
        }
      }
      assert (c + [rs[0]]) + rs[1..] == c + rs;
      PutAllAppends(c + [rs[0]], rs[1..]);
    }
  }

  predicate DistinctDefinitionNames(sel: seq<Definition>) {
    forall i, j :: 0 <= i < j < |sel| ==> sel[i].name != sel[j].name
  }

  /** The entries the completion loop writes for the definitions `sel`
      whose results are `dones`: one per definition the viewer may update,
      in order. */
  function Entries(e: Entity, sel: seq<Definition>, dones: seq<bool>): (r: Completion)
    requires |dones| == |sel|
    ensures |r| <= |sel|
  {
    if sel == [] then []
    else (if Updatable(e, sel[0].name) then [FieldResult(sel[0].name, dones[0])] else [])
         + Entries(e, sel[1..], dones[1..])
  }

  /** Entry `x` is the one definition `j` of `sel` contributes. */
  predicate EntryOf(e: Entity, sel: seq<Definition>, dones: seq<bool>, x: FieldResult, j: int) {
    0 <= j < |sel| && j < |dones| && sel[j].name == x.name && Updatable(e, sel[j].name) && x.done == dones[j]
  }

  /** Each entry comes from a definition the viewer may update and carries
      its result. */
  lemma {:induction false} EntriesFrom(e: Entity, sel: seq<Definition>, dones: seq<bool>, k: nat)
    requires |dones| == |sel| && k < |Entries(e, sel, dones)|
    ensures exists j :: EntryOf(e, sel, dones, Entries(e, sel, dones)[k], j)
  {
    var rest := Entries(e, sel[1..], dones[1..]);
    var head := if Updatable(e, sel[0].name) then [FieldResult(sel[0].name, dones[0])] else [];
    assert Entries(e, sel, dones) == head + rest;
    if k < |head| {
      assert EntryOf(e, sel, dones, Entries(e, sel, dones)[k], 0);
    } else {
      assert Entries(e, sel, dones)[k] == rest[k - |head|];
      EntriesFrom(e, sel[1..], dones[1..], k - |head|);
      var j :| EntryOf(e, sel[1..], dones[1..], rest[k - |head|], j);
      assert sel[j + 1] == sel[1..][j] && dones[j + 1] == dones[1..][j];
      assert EntryOf(e, sel, dones, Entries(e, sel, dones)[k], j + 1);
    }
  }

  /** Every definition the viewer may update has an entry. */
  lemma {:induction false} EntriesCover(e: Entity, sel: seq<Definition>, dones: seq<bool>, j: nat)
    requires |dones| == |sel| && j < |sel| && Updatable(e, sel[j].name)
    ensures exists k :: 0 <= k < |Entries(e, sel, dones)| && Entries(e, sel, dones)[k].name == sel[j].name
  {
    var rest := Entries(e, sel[1..], dones[1..]);
    var head := if Updatable(e, sel[0].name) then [FieldResult(sel[0].name, dones[0])] else [];
    assert Entries(e, sel, dones) == head + rest;
    if j == 0 {
      assert Entries(e, sel, dones)[0].name == sel[0].name;
    } else {
      assert sel[1..][j - 1] == sel[j];
      EntriesCover(e, sel[1..], dones[1..], j - 1);
      var k :| 0 <= k < |rest| && rest[k].name == sel[1..][j - 1].name;
      assert Entries(e, sel, dones)[k + |head|] == rest[k];
    }
  }

  /** No name repeats among the entries. */
  lemma {:induction false} EntriesDistinct(e: Entity, sel: seq<Definition>, dones: seq<bool>)
    requires |dones| == |sel| && DistinctDefinitionNames(sel)
    ensures DistinctNames(Entries(e, sel, dones))
  {
    if sel != [] {
      var rest := Entries(e, sel[1..], dones[1..]);
      var head := if Updatable(e, sel[0].name) then [FieldResult(sel[0].name, dones[0])] else [];
      var r := Entries(e, sel, dones);
      assert r == head + rest;
      assert DistinctDefinitionNames(sel[1..]);
      EntriesDistinct(e, sel[1..], dones[1..]);
      forall a, b | 0 <= a < b < |r| ensures r[a].name != r[b].name {
        if a < |head| {
          assert r[b] == rest[b - 1];
          EntriesFrom(e, sel[1..], dones[1..], b - 1);
          var j :| EntryOf(e, sel[1..], dones[1..], rest[b - 1], j);
          assert sel[j + 1] == sel[1..][j];
        } else {
          assert r[a] == rest[a - |head|] && r[b] == rest[b - |head|];
        }
      }
    }
  }

  /** Read through positions or through membership, the entries name the
      same definitions. */
  lemma EntriesNamesMembers(e: Entity, sel: seq<Definition>, dones: seq<bool>)
    requires |dones| == |sel| && DistinctDefinitionNames(sel)
    ensures forall n :: n in Names(Entries(e, sel, dones)) <==>
      exists d :: d in sel && d.name == n && Updatable(e, n)
  {
    EntriesAsMap(e, sel, dones);
    forall n ensures n in Names(Entries(e, sel, dones)) <==> exists d :: d in sel && d.name == n && Updatable(e, n) {
      if n in Names(Entries(e, sel, dones)) {
        var j :| 0 <= j < |sel| && sel[j].name == n && Updatable(e, n);
        assert sel[j] in sel;
      }
      if exists d :: d in sel && d.name == n && Updatable(e, n) {
        var d :| d in sel && d.name == n && Updatable(e, n);
        var j :| 0 <= j < |sel| && sel[j] == d;
      }
    }
  }

  /** Read as a map, the entries hold exactly the definitions the viewer may
      update, each with its own result. */
  lemma EntriesAsMap(e: Entity, sel: seq<Definition>, dones: seq<bool>)
    requires |dones| == |sel| && DistinctDefinitionNames(sel)
    ensures DistinctNames(Entries(e, sel, dones))
    ensures forall k :: 0 <= k < |Entries(e, sel, dones)| ==> Updatable(e, Entries(e, sel, dones)[k].name)
    ensures forall n :: n in Names(Entries(e, sel, dones)) <==>
      exists j :: 0 <= j < |sel| && sel[j].name == n && Updatable(e, n)
    ensures forall j :: 0 <= j < |sel| && Updatable(e, sel[j].name) ==>
      Get(Entries(e, sel, dones), sel[j].name) == Some(dones[j])
  {
    var r := Entries(e, sel, dones);
    EntriesDistinct(e, sel, dones);
    NamesMembership(r);
    forall k | 0 <= k < |r| ensures Updatable(e, r[k].name) {
      EntriesFrom(e, sel, dones, k);
    }
    forall n ensures n in Names(r) <==> exists j :: 0 <= j < |sel| && sel[j].name == n && Updatable(e, n) {
      if n in Names(r) {
        var k :| 0 <= k < |r| && r[k].name == n;
        EntriesFrom(e, sel, dones, k);
        var j :| EntryOf(e, sel, dones, r[k], j);
      }
      if exists j :: 0 <= j < |sel| && sel[j].name == n && Updatable(e, n) {
        var j :| 0 <= j < |sel| && sel[j].name == n && Updatable(e, n);
        EntriesCover(e, sel, dones, j);
      }
    }
    forall j | 0 <= j < |sel| && Updatable(e, sel[j].name) ensures Get(r, sel[j].name) == Some(dones[j]) {
      EntriesCover(e, sel, dones, j);
      var k :| 0 <= k < |r| && r[k].name == sel[j].name;
      EntriesFrom(e, sel, dones, k);
      var j' :| EntryOf(e, sel, dones, r[k], j');
      assert j == j';
      GetEntry(r, k);
    }
  }

  /** Every entry is done exactly when every definition the viewer may update
      has a true result. */
  lemma EntriesAllDone(e: Entity, sel: seq<Definition>, dones: seq<bool>)
    requires |dones| == |sel| && DistinctDefinitionNames(sel)
    ensures (forall k :: 0 <= k < |Entries(e, sel, dones)| ==> Entries(e, sel, dones)[k].done)
        <==> (forall j :: 0 <= j < |sel| && Updatable(e, sel[j].name) ==> dones[j])
  {
    var r := Entries(e, sel, dones);
    if forall k :: 0 <= k < |r| ==> r[k].done {
      forall j | 0 <= j < |sel| && Updatable(e, sel[j].name) ensures dones[j] {
        EntriesAsMap(e, sel, dones);
        EntriesCover(e, sel, dones, j);
        var k :| 0 <= k < |r| && r[k].name == sel[j].name;
        GetEntry(r, k);
      }
    }
    if forall j :: 0 <= j < |sel| && Updatable(e, sel[j].name) ==> dones[j] {
      forall k | 0 <= k < |r| ensures r[k].done {
        EntriesFrom(e, sel, dones, k);
      }
    }
  }

  /** `array_filter($completion)`: the entries that are done. */
  function ArrayFilter(c: Completion): (r: Completion)
    ensures |r| <= |c|
    ensures forall i :: 0 <= i < |r| ==> r[i].done
    ensures forall x :: x in r <==> x in c && x.done
  {
    if c == [] then []
    else (if c[0].done then [c[0]] else []) + ArrayFilter(c[1..])
  }

  /** The entries that are not done. */
  function Rejected(c: Completion): (r: Completion)
    ensures |r| <= |c|
  {
    if c == [] then []
    else (if c[0].done then [] else [c[0]]) + Rejected(c[1..])
  }

  /** `array_diff($c, $f)`: entries of `c` whose string form matches that of
      no entry of `f` (PHP compares `(string) $a === (string) $b`). */
  function ArrayDiff(c: Completion, f: Completion): Completion {
    if c == [] then []
    else (if forall j :: 0 <= j < |f| ==> BoolString(c[0].done) != BoolString(f[j].done) then [c[0]] else [])
         + ArrayDiff(c[1..], f)
  }

  lemma {:induction false} FilterSplits(c: Completion)
    ensures |ArrayFilter(c)| + |Rejected(c)| == |c|
  {
    if c != [] { FilterSplits(c[1..]); }
  }

  lemma {:induction false} DiffWithDoneEntries(c: Completion, f: Completion)
    requires f != [] && forall j :: 0 <= j < |f| ==> f[j].done
    ensures ArrayDiff(c, f) == Rejected(c)
  {
    if c != [] {
      assert BoolString(f[0].done) == "1";
      DiffWithDoneEntries(c[1..], f);
    }
  }

  lemma {:induction false} DiffWithNothing(c: Completion)
    ensures ArrayDiff(c, []) == c
  {
    if c != [] { DiffWithNothing(c[1..]); }
  }

  lemma {:induction false} NothingDoneAllRejected(c: Completion)
    requires ArrayFilter(c) == []
    ensures Rejected(c) == c
  {
    if c != [] {
      assert !c[0].done;
      NothingDoneAllRejected(c[1..]);
    }
  }

  /** `count(array_diff($completion, array_filter($completion)))` is the
      number of entries that are not done. */
  lemma IncompleteCountsNotDone(c: Completion)
    ensures ArrayDiff(c, ArrayFilter(c)) == Rejected(c)
    ensures |ArrayFilter(c)| + |ArrayDiff(c, ArrayFilter(c))| == |c|
  {
    if ArrayFilter(c) == [] {
      DiffWithNothing(c);
      NothingDoneAllRejected(c);
    } else {
      DiffWithDoneEntries(c, ArrayFilter(c));
    }
    FilterSplits(c);
  }

  lemma {:induction false} NothingRejectedAllDone(c: Completion)
    ensures Rejected(c) == [] <==> forall i :: 0 <= i < |c| ==> c[i].done
  {
    if c != [] {
      NothingRejectedAllDone(c[1..]);
      assert forall i :: 1 <= i < |c| ==> c[i] == c[1..][i - 1];
    }
  }

  /** `(int) (($complete / $total) * 100 + .5)`, or 100 when nothing counts,
      in exact integer arithmetic. */
  function Percent(complete: nat, total: nat): (p: nat)
    ensures total == 0 ==> p == 100
    ensures total > 0 ==> 2 * total * p <= 200 * complete + total < 2 * total * (p + 1)
    ensures complete <= total ==> p <= 100
  {
    if total == 0 then 100
    else
      var p := (200 * complete + total) / (2 * total);
      assert 2 * total * p <= 200 * complete + total < 2 * total * (p + 1);
      assert complete <= total ==> p <= 100 by {
        if complete <= total {
          assert 200 * complete + total < 2 * total * 101;
          PercentBound(total, p);
        }
      }
      p
  }

  lemma PercentBound(total: nat, p: nat)
    requires total > 0 && 2 * total * p < 2 * total * 101
    ensures p <= 100
  {
    if p > 100 {
      MulMonotone(2 * total, 101, p);
      assert false;
    }
  }

  lemma {:induction false} MulMonotone(t: nat, a: nat, b: nat)
    requires a <= b
    ensures t * a <= t * b
    decreases b - a
  {
    if a < b {
      MulMonotone(t, a, b - 1);
      assert t * b == t * (b - 1) + t;
    }
  }

  /** `$definitions[$name]` in the selected definitions; None for a name
      the selection lacks (PHP's null). */
  function FindDefinition(sel: seq<Definition>, name: string): (r: Option<Definition>)
    ensures r.Some? ==> r.value in sel && r.value.name == name
    ensures r.None? ==> forall i :: 0 <= i < |sel| ==> sel[i].name != name
  {
    if sel == [] then None
    else if sel[0].name == name then Some(sel[0])
    else FindDefinition(sel[1..], name)
  }

  /** `$selection[$d->getName()] = $d`: overwrite in place, or append. */
  function PutDefinition(sel: seq<Definition>, d: Definition): (r: seq<Definition>)
    ensures (forall i :: 0 <= i < |sel| ==> sel[i].name != d.name) ==> r == sel + [d]
    ensures forall x :: x in r ==> x in sel || x == d
    ensures forall x :: x in sel && x.name != d.name ==> x in r
    ensures (exists i :: 0 <= i < |sel| && sel[i].name == d.name) ==> |r| == |sel|
    ensures d in r
  {
    if sel == [] then [d]
    else if sel[0].name == d.name then [d] + sel[1..]
    else [sel[0]] + PutDefinition(sel[1..], d)
  }

  /** The bucketing loop of lines 151-156 over the entries of `c` in order,
      defined on prefixes so that the loop can follow it. */
  function Buckets(e: Entity, c: Completion, sel: seq<Definition>): (seq<Option<Definition>>, seq<Option<Definition>>)
    decreases |c|
  {
    if c == [] then ([], [])
    else
      var prev := Buckets(e, c[..|c| - 1], sel);
      var last := c[|c| - 1];
      if !Updatable(e, last.name) then prev
      else if last.done then (prev.0 + [FindDefinition(sel, last.name)], prev.1)
      else (prev.0, prev.1 + [FindDefinition(sel, last.name)])
  }

  function CountUpdatable(e: Entity, c: Completion, done: bool): nat
    decreases |c|
  {
    if c == [] then 0
    else CountUpdatable(e, c[..|c| - 1], done)
         + (if Updatable(e, c[|c| - 1].name) && c[|c| - 1].done == done then 1 else 0)
  }

  /** Every updatable entry lands in the bucket its completion names, once. */
  lemma {:induction false} BucketSizes(e: Entity, c: Completion, sel: seq<Definition>)
    ensures |Buckets(e, c, sel).0| == CountUpdatable(e, c, true)
    ensures |Buckets(e, c, sel).1| == CountUpdatable(e, c, false)
    decreases |c|
  {
    if c != [] { BucketSizes(e, c[..|c| - 1], sel); }
  }

  lemma {:induction false} CountUpdatableAll(e: Entity, c: Completion)
    requires forall i :: 0 <= i < |c| ==> Updatable(e, c[i].name)
    ensures CountUpdatable(e, c, true) == |ArrayFilter(c)|
    ensures CountUpdatable(e, c, false) == |Rejected(c)|
    decreases |c|
  {
    if c != [] {
      var init, x := c[..|c| - 1], c[|c| - 1];
      assert c == init + [x];
      assert forall i :: 0 <= i < |init| ==> init[i] == c[i];
      CountUpdatableAll(e, init);
      FilterAppend(init, x);
      CountUpdatableLast(e, c);
    }
  }

  lemma CountUpdatableLast(e: Entity, c: Completion)
    requires c != [] && Updatable(e, c[|c| - 1].name)
    ensures CountUpdatable(e, c, true) == CountUpdatable(e, c[..|c| - 1], true) + (if c[|c| - 1].done then 1 else 0)
    ensures CountUpdatable(e, c, false) == CountUpdatable(e, c[..|c| - 1], false) + (if c[|c| - 1].done then 0 else 1)
  {
  }

  lemma {:induction false} FilterAppend(c: Completion, x: FieldResult)
    ensures |ArrayFilter(c + [x])| == |ArrayFilter(c)| + (if x.done then 1 else 0)
    ensures |Rejected(c + [x])| == |Rejected(c)| + (if x.done then 0 else 1)
  {
    if c == [] {
      assert ArrayFilter([x])== (if x.done then [x] else []) + ArrayFilter([]);
      assert Rejected([x]) == (if x.done then [] else [x]) + Rejected([]);
    } else {
      assert (c + [x])[1..] == c[1..] + [x];
      FilterAppend(c[1..], x);
    }
  }

  /** The definitions of `sel` the viewer may update whose result in
      `dones` is `want`, in order. */
  function BucketOf(e: Entity, sel: seq<Definition>, dones: seq<bool>, want: bool): (r: seq<Option<Definition>>)
    requires |dones| == |sel|
    ensures |r| <= |sel|
  {
    if sel == [] then []
    else (if Updatable(e, sel[0].name) && dones[0] == want then [Some(sel[0])] else [])
         + BucketOf(e, sel[1..], dones[1..], want)
  }

  /** A bucket holds a definition exactly when some position of `sel`
      carries it with the bucket's result and the viewer may update it. */
  lemma {:induction false} BucketOfMembers(e: Entity, sel: seq<Definition>, dones: seq<bool>, want: bool)
    requires |dones| == |sel|
    ensures forall x: Option<Definition> :: x in BucketOf(e, sel, dones, want) <==>
      x.Some? && exists j :: 0 <= j < |sel| && sel[j] == x.value && Updatable(e, sel[j].name) && dones[j] == want
  {
    if sel != [] {
      var head := if Updatable(e, sel[0].name) && dones[0] == want then [Some(sel[0])] else [];
      var rest := BucketOf(e, sel[1..], dones[1..], want);
      assert BucketOf(e, sel, dones, want) == head + rest;
      BucketOfMembers(e, sel[1..], dones[1..], want);
      forall x: Option<Definition> ensures x in BucketOf(e, sel, dones, want) <==>
        x.Some? && exists j :: 0 <= j < |sel| && sel[j] == x.value && Updatable(e, sel[j].name) && dones[j] == want
      {
        if x in rest {
          var j :| 0 <= j < |sel[1..]| && sel[1..][j] == x.value && Updatable(e, sel[1..][j].name) && dones[1..][j] == want;
          assert sel[j + 1] == x.value && dones[j + 1] == want;
        }
        if x.Some? && exists j :: 0 <= j < |sel| && sel[j] == x.value && Updatable(e, sel[j].name) && dones[j] == want {
          var j :| 0 <= j < |sel| && sel[j] == x.value && Updatable(e, sel[j].name) && dones[j] == want;
          if j > 0 {
            assert sel[1..][j - 1] == sel[j] && dones[1..][j - 1] == dones[j];
          }
        }
      }
    }
  }

  /** The bucketing loop over two maps in a row appends their buckets. */
  lemma {:induction false} BucketsAppend(e: Entity, a: Completion, b: Completion, sel: seq<Definition>)
    ensures Buckets(e, a + b, sel) == (Buckets(e, a, sel).0 + Buckets(e, b, sel).0, Buckets(e, a, sel).1 + Buckets(e, b, sel).1)
    decreases |b|
  {
    if b == [] {
      assert a + b == a;
      assert Buckets(e, a, sel).0 + [] == Buckets(e, a, sel).0 && Buckets(e, a, sel).1 + [] == Buckets(e, a, sel).1;
    } else {
      var b', last := b[..|b| - 1], b[|b| - 1];
      assert (a + b)[..|a + b| - 1] == a + b';
      assert (a + b)[|a + b| - 1] == last;
      BucketsAppend(e, a, b', sel);
      var pa, pb := Buckets(e, a, sel), Buckets(e, b', sel);
      if Updatable(e, last.name) {
        var x := FindDefinition(sel, last.name);
        if last.done {
          assert Buckets(e, b, sel) == (pb.0 + [x], pb.1);
          assert Buckets(e, a + b, sel) == ((pa.0 + pb.0) + [x], pa.1 + pb.1);
          assert (pa.0 + pb.0) + [x] == pa.0 + (pb.0 + [x]);
        } else {
          assert Buckets(e, b, sel) == (pb.0, pb.1 + [x]);
          assert Buckets(e, a + b, sel) == (pa.0 + pb.0, (pa.1 + pb.1) + [x]);
          assert (pa.1 + pb.1) + [x] == pa.1 + (pb.1 + [x]);
        }
      }
    }
  }

  /** Among distinct names, a definition's own name finds it. */
  lemma FindOwnDefinition(sel: seq<Definition>, d: Definition)
    requires DistinctDefinitionNames(sel) && d in sel
    ensures FindDefinition(sel, d.name) == Some(d)
  {
    var i :| 0 <= i < |sel| && sel[i] == d;
    var r := FindDefinition(sel, d.name);
    var k :| 0 <= k < |sel| && sel[k] == r.value;
    assert k == i;
  }

  /** The bucket of the one entry a definition contributes. */
  lemma HeadBuckets(e: Entity, d: Definition, v: bool, full: seq<Definition>)
    requires DistinctDefinitionNames(full) && d in full
    ensures var head := if Updatable(e, d.name) then [FieldResult(d.name, v)] else [];
      Buckets(e, head, full) == (if Updatable(e, d.name) && v then [Some(d)] else [],
                                 if Updatable(e, d.name) && !v then [Some(d)] else [])
  {
    if Updatable(e, d.name) {
      FindOwnDefinition(full, d);
      var x := FieldResult(d.name, v);
      var c := [x];
      assert c[..|c| - 1] == [] && c[|c| - 1] == x && x.name == d.name && x.done == v;
      assert Buckets(e, [], full) == ([], []);
      assert FindDefinition(full, x.name) == Some(d);
      var b := Buckets(e, c, full);
      assert b.0 == (if v then [Some(d)] else []);
      assert b.1 == (if v then [] else [Some(d)]);
    }
  }

  /** Sorting the entries the completion loop writes for `sel` puts, in the
      order of `sel`, each updatable definition into the bucket of its
      result, looked up in the selection `full` it comes from. */
  lemma {:induction false} EntriesBuckets(e: Entity, sel: seq<Definition>, dones: seq<bool>, full: seq<Definition>)
    requires |dones| == |sel| && DistinctDefinitionNames(full)
    requires forall x :: x in sel ==> x in full
    ensures Buckets(e, Entries(e, sel, dones), full) == (BucketOf(e, sel, dones, true), BucketOf(e, sel, dones, false))
  {
    if sel != [] {
      var head := if Updatable(e, sel[0].name) then [FieldResult(sel[0].name, dones[0])] else [];
      var rest := Entries(e, sel[1..], dones[1..]);
      assert Entries(e, sel, dones) == head + rest;
      BucketsAppend(e, head, rest, full);
      assert forall x :: x in sel[1..] ==> x in sel;
      EntriesBuckets(e, sel[1..], dones[1..], full);
      HeadBuckets(e, sel[0], dones[0], full);
    }
  }

  /** The aggregate record `getProgress` returns and caches. */
  datatype Progress = Progress(
    total: nat,
    complete: nat,
    incomplete: nat,
    percent: nat,
    entityType: string,
    entityId: string,
    entityTypeLabel: string,
    completeFields: seq<Option<Definition>>,
    incompleteFields: seq<Option<Definition>>,
    cacheKeys: seq<string>,
    cacheTags: set<string>)

  /** Lines 137-160: counts, percentage and buckets of a completion map. */
  function MakeProgress(e: Entity, c: Completion, sel: seq<Definition>, tags: set<string>): (p: Progress)
    ensures p.total == |c| && p.complete + p.incomplete == p.total
    ensures p.complete == |ArrayFilter(c)| && p.incomplete == |Rejected(c)|
    ensures p.entityType == e.entityType && p.entityId == e.id && p.cacheTags == tags
  {
    var done := ArrayFilter(c);
    var notDone := ArrayDiff(c, done);
    IncompleteCountsNotDone(c);
    var b := Buckets(e, c, sel);
    Progress(|c|, |done|, |notDone|, Percent(|done|, |c|), e.entityType, e.id, e.typeLabel,
             b.0, b.1, ProgressKeys(e), tags)
  }

  /** Nothing is incomplete exactly when every entry of the map is done. */
  lemma ProgressIncompleteIff(e: Entity, c: Completion, sel: seq<Definition>, tags: set<string>)
    ensures MakeProgress(e, c, sel, tags).incomplete == 0 <==> forall i :: 0 <= i < |c| ==> c[i].done
  {
    NothingRejectedAllDone(c);
  }

  /** The percentage is at most 100, is 100 when nothing counts, and is
      complete/total rounded half up. */
  lemma ProgressPercent(e: Entity, c: Completion, sel: seq<Definition>, tags: set<string>)
    ensures var p := MakeProgress(e, c, sel, tags);
      && p.percent <= 100 && (p.total == 0 ==> p.percent == 100)
      && (p.total > 0 ==> 2 * p.total * p.percent <= 200 * p.complete + p.total < 2 * p.total * (p.percent + 1))
  {
    var p := MakeProgress(e, c, sel, tags);
    assert p.percent == Percent(p.complete, p.total);
  }

  /** When every entry is updatable, each lands in the bucket of its
      result: the buckets are as long as the counts. */
  lemma ProgressBucketSizes(e: Entity, c: Completion, sel: seq<Definition>, tags: set<string>)
    requires forall i :: 0 <= i < |c| ==> Updatable(e, c[i].name)
    ensures var p := MakeProgress(e, c, sel, tags);
      |p.completeFields| == p.complete && |p.incompleteFields| == p.incomplete
  {
    BucketSizes(e, c, sel);
    CountUpdatableAll(e, c);
  }
}
