/** The importer diff: for every importer of a dependency graph, the
    dependencies its manifest lists that the graph has not resolved (to
    add) and the edges the graph has that the manifest no longer lists (to
    remove), merged with the user's own add and remove requests.

    The dependency record is a type parameter `D`. Building one from a
    manifest entry (parsing the specifier and naming its dependency type)
    is the parameter `asDep`, and the later filter that drops additions
    the graph already satisfies is the parameter `filter`. */
module ImporterSpecs {
  import opened Wrappers

  /** A long dependency-type name, such as `devDependencies`. */
  type Bucket = string

  /** A manifest's dependency buckets: bucket -> package name -> specifier. */
  type Manifest = map<Bucket, map<string, string>>

  /** An importer node: its manifest, if it has one, and its out-edges,
      each mapped to whether the edge has a target node. */
  datatype Importer = Importer(manifest: Option<Manifest>, edgesOut: map<string, bool>)

  /** The graph's importers by id. Graph nodes are keyed by id, so no two
      importers share one. */
  type Importers = map<string, Importer>

  /** The entries of the user's add map in insertion order: importer id ->
      package name -> dependency. */
  type UserAdd<D> = seq<(string, map<string, D>)>

  /** The entries of the user's remove map: importer id -> names. */
  type UserRemove = seq<(string, set<string>)>

  /** Builds the dependency for one manifest entry: the importer's
      manifest, the bucket, the name and the specifier. */
  type AsDep<D> = (Option<Manifest>, Bucket, string, string) -> D

  datatype AddResult<D> = AddResult(deps: map<string, map<string, D>>, modifiedDependencies: bool)
  datatype RemoveResult = RemoveResult(names: map<string, set<string>>, modifiedDependencies: bool)
  datatype ImporterError = NotAnImporter(found: string)

  /** Distinct keys: what a JavaScript `Map` guarantees of its entries. */
  predicate DistinctKeys<V>(entries: seq<(string, V)>) {
    forall j, k :: 0 <= j < k < |entries| ==> entries[j].0 != entries[k].0
  }

  /** `importer.manifest?.[bucket] ?? {}` */
  function ListedDeps(i: Importer, bucket: Bucket): map<string, string> {
    if i.manifest.Some? && bucket in i.manifest.value then i.manifest.value[bucket] else map[]
  }

  /** Whether the manifest lists `name` in any bucket (`hasDepName`). */
  function HasDepName(buckets: seq<Bucket>, i: Importer, name: string): (r: bool)
    ensures r <==> exists k :: 0 <= k < |buckets| && name in ListedDeps(i, buckets[k])
    decreases |buckets|
  {
    if buckets == [] then false
    else if name in ListedDeps(i, buckets[0]) then true
    else HasDepName(buckets[1..], i, name)
  }

  /** `add.get(id)`. */
  function UserAddFor<D>(add: UserAdd<D>, id: string): (r: Option<map<string, D>>)
    ensures r.Some? ==> exists k :: 0 <= k < |add| && add[k] == (id, r.value)
    ensures r.None? <==> forall k :: 0 <= k < |add| ==> add[k].0 != id
    decreases |add|
  {
    if add == [] then None
    else if add[0].0 == id then Some(add[0].1)
    else UserAddFor(add[1..], id)
  }

  /** The user's additions for one importer, none when it has no entry. */
  function AddedFor<D>(add: UserAdd<D>, id: string): map<string, D> {
    UserAddFor(add, id).GetOr(map[])
  }

  /** Whether an out-edge named `name` reaches a node. */
  predicate Resolved(i: Importer, name: string) {
    name in i.edgesOut && i.edgesOut[name]
  }

  /** The stale step: out-edges whose name the manifest does not list and
      the user is not adding to this importer. */
  function StaleNames<D>(buckets: seq<Bucket>, add: UserAdd<D>, id: string, i: Importer): (r: set<string>)
    ensures r <= i.edgesOut.Keys
    ensures forall n :: n in r <==>
              && n in i.edgesOut
              && (forall k :: 0 <= k < |buckets| ==> n !in ListedDeps(i, buckets[k]))
              && n !in AddedFor(add, id)
  {
    set n | n in i.edgesOut && !HasDepName(buckets, i, n) && n !in AddedFor(add, id)
  }

  /** One bucket's dependencies with no resolved edge. */
  function BucketMissing<D>(i: Importer, b: Bucket, asDep: AsDep<D>): map<string, D> {
    var listed := ListedDeps(i, b);
    map n | n in listed && !Resolved(i, n) :: asDep(i.manifest, b, n, listed[n])
  }

  /** The missing step, bucket by bucket in order: a later bucket
      overwrites an earlier one's entry for the same name. */
  function MissingDeps<D>(buckets: seq<Bucket>, i: Importer, asDep: AsDep<D>): (r: map<string, D>)
    ensures forall n :: n in r <==> !Resolved(i, n) && exists k :: 0 <= k < |buckets| && n in ListedDeps(i, buckets[k])
    decreases |buckets|
  {
    if buckets == [] then map[]
    else MissingDeps(buckets[..|buckets| - 1], i, asDep) + BucketMissing(i, buckets[|buckets| - 1], asDep)
  }

  /** The add map each importer starts with, before the user's additions. */
  function ComputedAdd<D>(buckets: seq<Bucket>, importers: Importers, asDep: AsDep<D>): (r: map<string, map<string, D>>)
    ensures r.Keys == importers.Keys
  {
    map id | id in importers :: MissingDeps(buckets, importers[id], asDep)
  }

  /** The remove sets each importer starts with, before the user's removals. */
  function ComputedRemove<D>(buckets: seq<Bucket>, importers: Importers, add: UserAdd<D>): (r: map<string, set<string>>)
    ensures r.Keys == importers.Keys
  {
    map id | id in importers :: StaleNames(buckets, add, id, importers[id])
  }

  /** Merges the user's additions entry by entry; the first entry for an id
      that is not an importer fails the whole merge. */
  function MergeAdd<D>(acc: map<string, map<string, D>>, add: UserAdd<D>): (r: Result<map<string, map<string, D>>, ImporterError>)
    ensures r.Success? ==> r.value.Keys == acc.Keys
    ensures r.Success? <==> forall k :: 0 <= k < |add| ==> add[k].0 in acc
    ensures r.Failure? ==> exists k :: (&& 0 <= k < |add| && add[k].0 !in acc && r.error == NotAnImporter(add[k].0)
                                       && forall j :: 0 <= j < k ==> add[j].0 in acc)
    decreases |add|
  {
    if add == [] then Success(acc)
    else
      var (id, deps) := add[0];
      if id !in acc then Failure(NotAnImporter(id))
      else
        var r := MergeAdd(acc[id := acc[id] + deps], add[1..]);
        assert forall k :: 1 <= k < |add| ==> add[k] == add[1..][k - 1];
        r
  }

  /** Merges the user's removals; an id that is not an importer is skipped. */
  function MergeRemove(acc: map<string, set<string>>, remove: UserRemove): (r: map<string, set<string>>)
    ensures r.Keys == acc.Keys
    decreases |remove|
  {
    if remove == [] then acc
    else
      var (id, names) := remove[0];
      MergeRemove(if id in acc then acc[id := acc[id] + names] else acc, remove[1..])
  }

  /** Drops the importers left with nothing to remove. */
  function Prune(m: map<string, set<string>>): (r: map<string, set<string>>)
    ensures forall id :: id in r ==> r[id] != {} && id in m && r[id] == m[id]
    ensures forall id :: id in m && m[id] != {} ==> id in r && r[id] == m[id]
    ensures r.Keys <= m.Keys
  {
    map id | id in m && m[id] != {} :: m[id]
  }

  /** The add map before satisfied dependencies are filtered out. */
  function AddBeforeFilter<D>(buckets: seq<Bucket>, importers: Importers, add: UserAdd<D>, asDep: AsDep<D>)
    : (r: Result<map<string, map<string, D>>, ImporterError>)
    ensures r.Success? ==> r.value.Keys == importers.Keys
  {
    MergeAdd(ComputedAdd(buckets, importers, asDep), add)
  }

  /** The remove map, merged and pruned. */
  function RemoveNames<D>(buckets: seq<Bucket>, importers: Importers, add: UserAdd<D>, remove: UserRemove)
    : map<string, set<string>>
  {
    Prune(MergeRemove(ComputedRemove(buckets, importers, add), remove))
  }

  /** `getImporterSpecs`. */
  function GetImporterSpecs<D>(buckets: seq<Bucket>, importers: Importers, add: UserAdd<D>, remove: UserRemove,
                               asDep: AsDep<D>, filter: map<string, map<string, D>> -> map<string, map<string, D>>)
    : (r: Result<(AddResult<D>, RemoveResult), ImporterError>)
    ensures r.Success? <==> forall k :: 0 <= k < |add| ==> add[k].0 in importers
    ensures r.Success? ==> r.value.0.deps == filter(AddBeforeFilter(buckets, importers, add, asDep).value)
    ensures r.Success? ==> r.value.1.names == RemoveNames(buckets, importers, add, remove)
    ensures r.Success? ==> (r.value.0.modifiedDependencies <==> exists id :: id in r.value.0.deps && r.value.0.deps[id] != map[])
    ensures r.Success? ==> (r.value.1.modifiedDependencies <==>
                              exists id, n :: id in importers && n in importers[id].edgesOut
                                              && !HasDepName(buckets, importers[id], n) && n !in AddedFor(add, id))
  {
    var merged :- AddBeforeFilter(buckets, importers, add, asDep);
    var filtered := filter(merged);
    var addFlag := exists id :: id in filtered && |filtered[id]| > 0;
    var removeFlag := exists id, n :: id in importers && n in StaleNames(buckets, add, id, importers[id]);
    assert forall id, n :: id in importers ==>
      (n in StaleNames(buckets, add, id, importers[id]) <==>
         n in importers[id].edgesOut && !HasDepName(buckets, importers[id], n) && n !in AddedFor(add, id));
    Success((AddResult(filtered, addFlag), RemoveResult(RemoveNames(buckets, importers, add, remove), removeFlag)))
  }

  // ---------------------------------------------------------------------
  // Properties

  /** An out-edge is stale exactly when no bucket lists its name and the
      user is not adding it to the same importer. */
  lemma StaleIff<D>(buckets: seq<Bucket>, add: UserAdd<D>, id: string, i: Importer, n: string)
    requires DistinctKeys(add)
    ensures n in StaleNames(buckets, add, id, i) <==>
              (&& n in i.edgesOut
               && (forall k :: 0 <= k < |buckets| ==> n !in ListedDeps(i, buckets[k]))
               && (forall k :: 0 <= k < |add| && add[k].0 == id ==> n !in add[k].1))
  {
    if UserAddFor(add, id).Some? {
      var k :| 0 <= k < |add| && add[k] == (id, UserAddFor(add, id).value);
    }
  }

  /** A name several buckets list is added with the entry of the last
      bucket that lists it. */
  lemma {:induction false} MissingLastBucketWins<D>(buckets: seq<Bucket>, i: Importer, asDep: AsDep<D>, n: string, k: int)
    requires 0 <= k < |buckets| && n in ListedDeps(i, buckets[k]) && !Resolved(i, n)
    requires forall j :: k < j < |buckets| ==> n !in ListedDeps(i, buckets[j])
    ensures n in MissingDeps(buckets, i, asDep)
    ensures MissingDeps(buckets, i, asDep)[n] == asDep(i.manifest, buckets[k], n, ListedDeps(i, buckets[k])[n])
    decreases |buckets|
  {
    var init := buckets[..|buckets| - 1];
    if k < |buckets| - 1 {
      assert init[k] == buckets[k];
      forall j | k < j < |init| ensures n !in ListedDeps(i, init[j]) {
        assert init[j] == buckets[j];
      }
      MissingLastBucketWins(init, i, asDep, n, k);
      assert n !in BucketMissing(i, buckets[|buckets| - 1], asDep);
    }
  }

  /** After the merge every importer's map is its computed map overwritten
      by the user's additions for it. */
  lemma {:induction false} MergeAddValue<D>(acc: map<string, map<string, D>>, add: UserAdd<D>)
    requires DistinctKeys(add)
    requires MergeAdd(acc, add).Success?
    ensures forall id :: id in acc ==> MergeAdd(acc, add).value[id] == acc[id] + AddedFor(add, id)
    decreases |add|
  {
    if add == [] {
      forall id | id in acc ensures acc[id] + AddedFor(add, id) == acc[id] {
        assert AddedFor(add, id) == map[];
      }
    } else {
      var id0 := add[0].0;
      var acc' := acc[id0 := acc[id0] + add[0].1];
      DistinctTail(add);
      assert MergeAdd(acc, add) == MergeAdd(acc', add[1..]);
      MergeAddValue(acc', add[1..]);
      forall id | id in acc ensures MergeAdd(acc, add).value[id] == acc[id] + AddedFor(add, id) {
        if id == id0 {
          assert acc'[id] + AddedFor(add[1..], id) == acc'[id];
        }
      }
    }
  }

  /** The entries after the first keep distinct keys, none of them the
      first entry's. */
  lemma DistinctTail<D>(add: UserAdd<D>)
    requires DistinctKeys(add) && add != []
    ensures DistinctKeys(add[1..])
    ensures AddedFor(add[1..], add[0].0) == map[]
    ensures forall id :: id != add[0].0 ==> AddedFor(add, id) == AddedFor(add[1..], id)
  {
    assert forall k :: 1 <= k < |add| ==> add[k] == add[1..][k - 1];
  }

  /** A name is in an importer's merged remove set exactly when it was
      there before or some user remove entry for that importer names it. */
  lemma {:induction false} MergeRemoveValue(acc: map<string, set<string>>, remove: UserRemove, id: string, n: string)
    requires id in acc
    ensures n in MergeRemove(acc, remove)[id] <==>
              n in acc[id] || exists k :: 0 <= k < |remove| && remove[k].0 == id && n in remove[k].1
    decreases |remove|
  {
    if remove != [] {
      var (id0, names) := remove[0];
      var acc' := if id0 in acc then acc[id0 := acc[id0] + names] else acc;
      MergeRemoveValue(acc', remove[1..], id, n);
      assert forall k :: 1 <= k < |remove| ==> remove[k] == remove[1..][k - 1];
      if exists k :: 0 <= k < |remove| && remove[k].0 == id && n in remove[k].1 {
        var k :| 0 <= k < |remove| && remove[k].0 == id && n in remove[k].1;
        if k > 0 {
          assert remove[1..][k - 1] == remove[k];
        }
      }
    }
  }

  /** One importer's merged add map: the user's entries win, and every
      other name is there exactly when a bucket lists it and no edge
      resolves it, with the entry the missing step computed. */
  lemma AddedDeps<D>(buckets: seq<Bucket>, importers: Importers, add: UserAdd<D>, asDep: AsDep<D>, id: string, n: string)
    requires DistinctKeys(add)
    requires AddBeforeFilter(buckets, importers, add, asDep).Success?
    requires id in importers
    ensures var m := AddBeforeFilter(buckets, importers, add, asDep).value[id];
            && (n in AddedFor(add, id) ==> n in m && m[n] == AddedFor(add, id)[n])
            && (n !in AddedFor(add, id) ==>
                  (n in m <==> !Resolved(importers[id], n) && HasDepName(buckets, importers[id], n)))
            && (n !in AddedFor(add, id) && n in m ==> m[n] == MissingDeps(buckets, importers[id], asDep)[n])
  {
    MergeAddValue(ComputedAdd(buckets, importers, asDep), add);
  }

  /** A name the stale step removes from an importer is not in that
      importer's merged add map. */
  lemma StaleNotAdded<D>(buckets: seq<Bucket>, importers: Importers, add: UserAdd<D>, asDep: AsDep<D>, id: string, n: string)
    requires DistinctKeys(add)
    requires AddBeforeFilter(buckets, importers, add, asDep).Success?
    requires id in importers && n in StaleNames(buckets, add, id, importers[id])
    ensures n !in AddBeforeFilter(buckets, importers, add, asDep).value[id]
  {
    AddedDeps(buckets, importers, add, asDep, id, n);
  }

  /** The remove map: an id that is not an importer never appears, and an
      importer's set is its stale names together with every name the user
      removes from it, the importer being dropped when that is empty. */
  lemma RemovedNames<D>(buckets: seq<Bucket>, importers: Importers, add: UserAdd<D>, remove: UserRemove, id: string, n: string)
    ensures id !in importers ==> id !in RemoveNames(buckets, importers, add, remove)
    ensures id in importers ==>
              (&& id in RemoveNames(buckets, importers, add, remove)
               && n in RemoveNames(buckets, importers, add, remove)[id]
              <==>
               || n in StaleNames(buckets, add, id, importers[id])
               || exists k :: 0 <= k < |remove| && remove[k].0 == id && n in remove[k].1)
  {
    if id in importers {
      MergeRemoveValue(ComputedRemove(buckets, importers, add), remove, id, n);
    }
  }

  /** Whenever the remove flag is set the remove map is not empty (the
      converse fails: user removals alone leave the flag unset). */
  lemma RemoveFlagHasNames<D>(buckets: seq<Bucket>, importers: Importers, add: UserAdd<D>, remove: UserRemove,
                              asDep: AsDep<D>, filter: map<string, map<string, D>> -> map<string, map<string, D>>)
    ensures var r := GetImporterSpecs(buckets, importers, add, remove, asDep, filter);
            r.Success? && r.value.1.modifiedDependencies ==> r.value.1.names != map[]
  {
    var r := GetImporterSpecs(buckets, importers, add, remove, asDep, filter);
    if r.Success? && r.value.1.modifiedDependencies {
      var id, n :| id in importers && n in importers[id].edgesOut
                   && !HasDepName(buckets, importers[id], n) && n !in AddedFor(add, id);
      assert n in StaleNames(buckets, add, id, importers[id]);
      RemovedNames(buckets, importers, add, remove, id, n);
    }
  }
}
