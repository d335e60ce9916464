/**
 * The write side of the data layer: `create`, `update` and `delete` change
 * the `recipes` table in place. The table is held by a `RecipeStore` whose
 * `nextId` field plays the part of the SERIAL sequence behind `id`.
 */
module RecipeTable {
  import opened Wrappers
  import opened Recipes
  import opened RecipeQueries

  /** The values `create` receives; `None` stands for `undefined` or `null`. */
  datatype NewRecipe = NewRecipe(
    title: string,
    description: Option<string>,
    ingredients: string,
    instructions: string,
    parentId: Option<nat>,
    author: Option<string>,
    changes: Option<string>)

  /** The values `update` receives for the five columns it may overwrite; `None` is SQL NULL. */
  datatype Patch = Patch(
    title: Option<string>,
    description: Option<string>,
    ingredients: Option<string>,
    instructions: Option<string>,
    changes: Option<string>)

  /** The outcome of `delete`: the forks error, or the row `DELETE ... RETURNING` gave back, if any. */
  datatype Deletion = HasForks | Deleted(row: Option<Recipe>)

  /** The row the INSERT stores under `id` at time `now`. */
  function Inserted(data: NewRecipe, id: nat, now: nat): (r: Recipe)
    ensures r.id == id && r.createdAt == now
    ensures r.title == data.title && r.description == data.description
    ensures r.ingredients == data.ingredients && r.instructions == data.instructions
    ensures r.parentId.Some? <==> IdTruthy(data.parentId)
    ensures r.parentId.Some? ==> r.parentId == data.parentId
    ensures r.author != ""
    ensures Truthy(data.author) ==> r.author == data.author.value
    ensures !Truthy(data.author) ==> r.author == "Anonymous"
    ensures r.changes.Some? <==> Truthy(data.changes)
    ensures r.changes.Some? ==> r.changes == data.changes
  {
    Recipe(
      id, data.title, data.description, data.ingredients, data.instructions,
      if IdTruthy(data.parentId) then data.parentId else None,
      if Truthy(data.author) then data.author.value else "Anonymous",
      if Truthy(data.changes) then data.changes else None,
      now)
  }

  /** `COALESCE(v, kept)`: the supplied value, or the stored one when NULL was supplied. */
  function Coalesce<T>(v: Option<T>, kept: T): T {
    if v.Some? then v.value else kept
  }

  /** The row `update` leaves behind: supplied columns overwritten, the others kept. */
  function Patched(r: Recipe, p: Patch): (u: Recipe)
    ensures u.id == r.id && u.parentId == r.parentId && u.author == r.author && u.createdAt == r.createdAt
    ensures p.title.Some? ==> u.title == p.title.value
    ensures p.title.None? ==> u.title == r.title
    ensures p.description.Some? ==> u.description == p.description
    ensures p.description.None? ==> u.description == r.description
    ensures p.ingredients.Some? ==> u.ingredients == p.ingredients.value
    ensures p.ingredients.None? ==> u.ingredients == r.ingredients
    ensures p.instructions.Some? ==> u.instructions == p.instructions.value
    ensures p.instructions.None? ==> u.instructions == r.instructions
    ensures p.changes.Some? ==> u.changes == p.changes
    ensures p.changes.None? ==> u.changes == r.changes
  {
    r.(
      title := Coalesce(p.title, r.title),
      description := if p.description.Some? then p.description else r.description,
      ingredients := Coalesce(p.ingredients, r.ingredients),
      instructions := Coalesce(p.instructions, r.instructions),
      changes := if p.changes.Some? then p.changes else r.changes)
  }

  /** An update that supplies nothing leaves the row as it was. */
  lemma EmptyPatchKeeps(r: Recipe)
    ensures Patched(r, Patch(None, None, None, None, None)) == r
  {
  }

  /** Applying the same update twice is the same as applying it once. */
  lemma PatchIdempotent(r: Recipe, p: Patch)
    ensures Patched(Patched(r, p), p) == Patched(r, p)
  {
  }

  /** A record has no forks exactly when no record names it as its parent. */
  lemma NoForks(t: Table, id: nat)
    ensures ForkCount(t, id) == 0 <==> forall x :: x in t ==> t[x].parentId != Some(id)
  {
    if exists x :: x in t && t[x].parentId == Some(id) {
      var x :| x in t && t[x].parentId == Some(id);
      assert x in ChildIds(t, id);
    }
  }

  /** A new record under a fresh id adds one to its parent's `fork_count` and to no one else's. */
  lemma InsertCountsFork(t: Table, r: Recipe, x: nat)
    requires r.id !in t
    ensures ForkCount(t[r.id := r], x) == ForkCount(t, x) + (if r.parentId == Some(x) then 1 else 0)
  {
    if r.parentId == Some(x) {
      InsertedChild(t, r, x);
      assert r.id !in ChildIds(t, x);
    } else {
      assert ChildIds(t[r.id := r], x) == ChildIds(t, x);
    }
  }

  lemma InsertedChild(t: Table, r: Recipe, x: nat)
    requires r.id !in t && r.parentId == Some(x)
    ensures ChildIds(t[r.id := r], x) == ChildIds(t, x) + {r.id}
  {
  }

  /** Rewriting a record without touching its `parent_id` leaves every `fork_count` as it was. */
  lemma ReplaceKeepsForks(t: Table, r: Recipe, x: nat)
    requires r.id in t && r.parentId == t[r.id].parentId
    ensures ForkCount(t[r.id := r], x) == ForkCount(t, x)
  {
    assert ChildIds(t[r.id := r], x) == ChildIds(t, x);
  }

  /** After a record is deleted, `findAll` no longer lists it. */
  lemma DeletedNotListed(t: Table, id: nat)
    requires Keyed(t)
    ensures forall v :: v in FindAll(t - {id}) ==> v.recipe.id != id
  {
    var u := t - {id};
    FindAllLists(u);
    forall v | v in FindAll(u) ensures v.recipe.id != id {
      var i :| 0 <= i < |FindAll(u)| && FindAll(u)[i] == v;
      ViewRecordAt(FindAll(u), i);
    }
  }

  /** After a record is deleted, `findById` misses it and finds every other record as before. */
  lemma DeletedNotFound(t: Table, id: nat, x: nat)
    requires Keyed(t)
    ensures FindById(t - {id}, id) == None
    ensures x in t && x != id ==> FindById(t - {id}, x).Some? && FindById(t - {id}, x).value.recipe == t[x]
  {
  }

  lemma ViewRecordAt(vs: seq<RecipeView>, i: nat)
    requires i < |vs|
    ensures |ViewRecords(vs)| == |vs| && ViewRecords(vs)[i] == vs[i].recipe
  {
    assert |ViewRecords(vs)| == |vs|;
  }

  /** The `recipes` table together with the SERIAL counter that hands out ids. */
  class RecipeStore {
    var table: Table
    var nextId: nat

    /** Every row sits under its own id, and ids are positive and below the counter. */
    ghost predicate Valid()
      reads this
    {
      && Keyed(table)
      && 0 < nextId
      && forall id :: id in table ==> 0 < id < nextId
    }

    /** An empty table whose SERIAL counter starts at 1. */
    constructor()
      ensures Valid() && table == map[] && nextId == 1
    {
      table := map[];
      nextId := 1;
    }

    /** `Recipe.create`: insert one row under a fresh id and return it. */
    method Create(data: NewRecipe, now: nat) returns (r: Recipe)
      requires Valid()
      modifies this
      ensures Valid()
      ensures r == Inserted(data, old(nextId), now) && r.id !in old(table)
      ensures table == old(table)[r.id := r] && nextId == old(nextId) + 1
    {
      r := Inserted(data, nextId, now);
      table := table[nextId := r];
      nextId := nextId + 1;
    }

    /** `Recipe.update`: overwrite the supplied columns of row `id`, returning the row if there is one. */
    method Update(id: nat, patch: Patch) returns (r: Option<Recipe>)
      requires Valid()
      modifies this
      ensures Valid() && nextId == old(nextId)
      ensures id in old(table) ==> r == Some(Patched(old(table)[id], patch)) && table == old(table)[id := r.value]
      ensures id !in old(table) ==> r == None && table == old(table)
    {
      if id in table {
        var u := Patched(table[id], patch);
        table := table[id := u];
        r := Some(u);
      } else {
        r := None;
      }
    }

    /** `Recipe.delete`: refuse while forks exist, otherwise remove row `id`. */
    method Delete(id: nat) returns (d: Deletion)
      requires Valid()
      modifies this
      ensures Valid() && nextId == old(nextId)
      ensures ForkCount(old(table), id) > 0 ==> d == HasForks && table == old(table)
      ensures ForkCount(old(table), id) == 0 ==> d == Deleted(Lookup(old(table), Some(id))) && table == old(table) - {id}
    {
      if ForkCount(table, id) > 0 {
        return HasForks;
      }
      d := Deleted(Lookup(table, Some(id)));
      table := table - {id};
    }
  }
}
