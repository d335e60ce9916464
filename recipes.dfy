/**
 * The recipe record and the lineage forest that the `parent_id` column
 * links the records of the `recipes` table into.
 */
module Recipes {
  import opened Wrappers
  import opened Sequences

  /** One row of the `recipes` table; `createdAt` stands for the `created_at` timestamp. */
  datatype Recipe = Recipe(
    id: nat,
    title: string,
    description: Option<string>,
    ingredients: string,
    instructions: string,
    parentId: Option<nat>,
    author: string,
    changes: Option<string>,
    createdAt: nat)

  /** The table, keyed by `id`. */
  type Table = map<nat, Recipe>

  /** JavaScript truthiness of an optional text value: `null`, `undefined` and `""` are falsy. */
  predicate Truthy(s: Option<string>) {
    s.Some? && s.value != ""
  }

  /** JavaScript truthiness of an optional identifier: the number 0 is falsy. */
  predicate IdTruthy(p: Option<nat>) {
    p.Some? && p.value != 0
  }

  /** The record a (possibly null) identifier names, if any. */
  function Lookup(t: Table, key: Option<nat>): (r: Option<Recipe>)
    ensures r.Some? <==> key.Some? && key.value in t
    ensures r.Some? ==> r.value == t[key.value]
  {
    if key.Some? && key.value in t then Some(t[key.value]) else None
  }

  /** Every record is stored under its own id. */
  ghost predicate Keyed(t: Table) {
    forall id :: id in t ==> t[id].id == id
  }

  /** Every non-null `parent_id` names a record of the table. */
  ghost predicate ParentsExist(t: Table) {
    forall id :: id in t && t[id].parentId.Some? ==> t[id].parentId.value in t
  }

  /** A root-first line of descent: records of `t`, each the parent of the next. */
  ghost predicate IsChain(t: Table, c: seq<Recipe>) {
    && (forall i :: 0 <= i < |c| ==> c[i].id in t && t[c[i].id] == c[i])
    && (forall i, j {:trigger c[i], c[j]} :: 0 <= i && j == i + 1 && j < |c| ==> c[j].parentId == Some(c[i].id))
  }

  /** No record descends from itself. */
  ghost predicate Acyclic(t: Table) {
    forall c: seq<Recipe> :: IsChain(t, c) && |c| >= 2 ==> c[0].id != c[|c| - 1].id
  }

  /** The lineage invariant the request handlers maintain. */
  ghost predicate Forest(t: Table) {
    Keyed(t) && ParentsExist(t) && Acyclic(t)
  }

  lemma SubChain(t: Table, c: seq<Recipe>, i: nat, j: nat)
    requires IsChain(t, c) && i <= j <= |c|
    ensures IsChain(t, c[i..j])
  {
    forall k | 0 <= k < j - i ensures c[i..j][k] == c[i + k] { }
  }

  /** Along a line of descent in an acyclic table no id repeats. */
  lemma ChainIdsDistinct(t: Table, c: seq<Recipe>)
    requires Acyclic(t) && IsChain(t, c)
    ensures forall i, j :: 0 <= i < j < |c| ==> c[i].id != c[j].id
  {
    forall i, j | 0 <= i < j < |c| ensures c[i].id != c[j].id {
      SubChain(t, c, i, j + 1);
      var sub := c[i..j + 1];
      assert sub[0] == c[i] && sub[|sub| - 1] == c[j];
    }
  }

  /** A line of descent in an acyclic table is no longer than the table. */
  lemma ChainLength(t: Table, c: seq<Recipe>)
    requires Acyclic(t) && IsChain(t, c)
    ensures |c| <= |t|
  {
    ChainIdsDistinct(t, c);
    var ids := seq(|c|, i requires 0 <= i < |c| => c[i].id);
    DistinctLength(ids, t.Keys);
    assert |t.Keys| == |t|;
  }

  /** A line of descent extends upward by the parent of its first record. */
  lemma ChainCons(t: Table, acc: seq<Recipe>, p: Recipe)
    requires IsChain(t, acc)
    requires p.id in t && t[p.id] == p
    requires acc != [] ==> acc[0].parentId == Some(p.id)
    ensures IsChain(t, [p] + acc)
  {
    var c := [p] + acc;
    assert forall i :: 0 < i < |c| ==> c[i] == acc[i - 1];
  }

  /** `root` is reached from `x` by following exactly `d` parent links. */
  ghost predicate AtDistance(t: Table, root: nat, x: nat, d: nat)
    decreases d
  {
    && x in t
    && if d == 0 then x == root
       else t[x].parentId.Some? && AtDistance(t, root, t[x].parentId.value, d - 1)
  }

  /** The `d` links from `x` up to `root`, as a root-first line of descent. */
  lemma {:induction false} AncestorChain(t: Table, root: nat, x: nat, d: nat) returns (c: seq<Recipe>)
    requires Keyed(t) && AtDistance(t, root, x, d)
    ensures IsChain(t, c) && |c| == d + 1
    ensures c[0].id == root && c[d] == t[x]
    decreases d
  {
    if d == 0 {
      c := [t[x]];
    } else {
      var up := AncestorChain(t, root, t[x].parentId.value, d - 1);
      c := up + [t[x]];
      assert forall i :: 0 <= i < |up| ==> c[i] == up[i];
    }
  }

  /** In an acyclic table every distance is shorter than the table. */
  lemma DistanceBound(t: Table, root: nat, x: nat, d: nat)
    requires Keyed(t) && Acyclic(t) && AtDistance(t, root, x, d)
    ensures d < |t|
  {
    var c := AncestorChain(t, root, x, d);
    ChainLength(t, c);
  }

  /** Each record of a line of descent is at its offset from the last record, counted upward. */
  lemma {:induction false} ChainDistances(t: Table, c: seq<Recipe>)
    requires IsChain(t, c) && c != []
    ensures forall i :: 0 <= i < |c| ==> AtDistance(t, c[i].id, c[|c| - 1].id, |c| - 1 - i)
    decreases |c|
  {
    var n := |c|;
    if n > 1 {
      SubChain(t, c, 0, n - 1);
      ChainDistances(t, c[..n - 1]);
      forall i | 0 <= i < n ensures AtDistance(t, c[i].id, c[n - 1].id, n - 1 - i) {
        if i < n - 1 {
          assert c[..n - 1][i] == c[i] && c[..n - 1][n - 2] == c[n - 2];
          assert t[c[n - 1].id].parentId == Some(c[n - 2].id);
        }
      }
    }
  }

  /** Following parent links is deterministic, so two distances to the same ancestor differ by a loop. */
  lemma {:induction false} DistanceShift(t: Table, root: nat, x: nat, d1: nat, d2: nat)
    requires AtDistance(t, root, x, d1) && AtDistance(t, root, x, d2) && d1 < d2
    ensures AtDistance(t, root, root, d2 - d1)
    decreases d1
  {
    if d1 > 0 {
      DistanceShift(t, root, t[x].parentId.value, d1 - 1, d2 - 1);
    }
  }

  /** In an acyclic table the only way from a record to itself is the empty one. */
  lemma SelfDistanceZero(t: Table, root: nat, k: nat)
    requires Keyed(t) && Acyclic(t) && AtDistance(t, root, root, k)
    ensures k == 0
  {
    var c := AncestorChain(t, root, root, k);
  }

  lemma DistanceOrdered(t: Table, root: nat, x: nat, lo: nat, hi: nat)
    requires Keyed(t) && Acyclic(t) && lo <= hi
    requires AtDistance(t, root, x, lo) && AtDistance(t, root, x, hi)
    ensures lo == hi
  {
    if lo < hi {
      DistanceShift(t, root, x, lo, hi);
      SelfDistanceZero(t, root, hi - lo);
    }
  }

  /** In an acyclic table a record has at most one distance to a given ancestor. */
  lemma DistanceUnique(t: Table, root: nat, x: nat, d1: nat, d2: nat)
    requires Keyed(t) && Acyclic(t)
    requires AtDistance(t, root, x, d1) && AtDistance(t, root, x, d2)
    ensures d1 == d2
  {
    if d1 <= d2 {
      DistanceOrdered(t, root, x, d1, d2);
    } else {
      DistanceOrdered(t, root, x, d2, d1);
    }
  }

  /** Following `d` parent links up from `x` leads to one record only. */
  lemma {:induction false} AncestorUnique(t: Table, a: nat, b: nat, x: nat, d: nat)
    requires AtDistance(t, a, x, d) && AtDistance(t, b, x, d)
    ensures a == b
    decreases d
  {
    if d > 0 {
      AncestorUnique(t, a, b, t[x].parentId.value, d - 1);
    }
  }

  /** A way of `d` links from `x` up to `root` passes, after its first `k` links, through some `z`. */
  lemma {:induction false} DistanceSplit(t: Table, root: nat, x: nat, d: nat, k: nat) returns (z: nat)
    requires AtDistance(t, root, x, d) && k <= d
    ensures AtDistance(t, z, x, k) && AtDistance(t, root, z, d - k)
    decreases k
  {
    if k == 0 {
      z := x;
    } else {
      z := DistanceSplit(t, root, t[x].parentId.value, d - 1, k - 1);
    }
  }

  /** Every record of `s` is a record of `t` under the same id, with the same `parent_id`. */
  ghost predicate LinksWithin(s: Table, t: Table) {
    forall x :: x in s ==> x in t && s[x].id == t[x].id && s[x].parentId == t[x].parentId
  }

  /** Keeping or dropping records without touching any `parent_id` cannot close a cycle. */
  lemma AcyclicWithin(s: Table, t: Table)
    requires LinksWithin(s, t) && Acyclic(t)
    ensures Acyclic(s)
  {
    forall c: seq<Recipe> | IsChain(s, c) && |c| >= 2 ensures c[0].id != c[|c| - 1].id {
      var d := seq(|c|, i requires 0 <= i < |c| => t[c[i].id]);
      assert forall i :: 0 <= i < |c| ==> d[i].id == c[i].id && d[i].parentId == c[i].parentId;
      assert IsChain(t, d);
    }
  }

  /** Inserting a record under a fresh id whose parent is null or present keeps the forest. */
  lemma ForestInsert(t: Table, r: Recipe)
    requires Forest(t) && r.id !in t
    requires r.parentId.Some? ==> r.parentId.value in t
    ensures Forest(t[r.id := r])
  {
    var u := t[r.id := r];
    forall c: seq<Recipe> | IsChain(u, c) && |c| >= 2 ensures c[0].id != c[|c| - 1].id {
      InsertedIsLeaf(t, r, c);
      if c[|c| - 1].id != r.id {
        assert IsChain(t, c);
      }
    }
  }

  /** A record inserted under a fresh id has no children, so it can only end a line of descent. */
  lemma InsertedIsLeaf(t: Table, r: Recipe, c: seq<Recipe>)
    requires ParentsExist(t) && r.id !in t
    requires r.parentId.Some? ==> r.parentId.value in t
    requires IsChain(t[r.id := r], c)
    ensures forall i :: 0 <= i < |c| - 1 ==> c[i].id != r.id
  {
    forall i | 0 <= i < |c| - 1 ensures c[i].id != r.id {
      assert c[i + 1].parentId == Some(c[i].id);
    }
  }

  /** Replacing a record by one with the same id and `parent_id` keeps the forest. */
  lemma ForestReplace(t: Table, r: Recipe)
    requires Forest(t) && r.id in t && r.parentId == t[r.id].parentId
    ensures Forest(t[r.id := r])
  {
    AcyclicWithin(t[r.id := r], t);
  }

  /** Removing a record that no record names as its parent keeps the forest. */
  lemma ForestRemove(t: Table, id: nat)
    requires Forest(t)
    requires forall x :: x in t ==> t[x].parentId != Some(id)
    ensures Forest(t - {id})
  {
    AcyclicWithin(t - {id}, t);
  }
}
