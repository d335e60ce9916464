/**
 * The request handlers of the recipe API. Each one checks its guards, makes
 * at most one call on the store and answers with a status, a success flag,
 * an optional message and a payload. The writing handlers keep the lineage
 * forest intact.
 */
module RecipeController {
  import opened Wrappers
  import opened Recipes
  import opened RecipeQueries
  import opened RecipeTable

  /** A JSON request body; members that are absent or `null` are `None`. */
  datatype Body = Body(
    title: Option<string>,
    description: Option<string>,
    ingredients: Option<string>,
    instructions: Option<string>,
    parentId: Option<nat>,
    author: Option<string>,
    changes: Option<string>)

  /** The `data` member of a response. */
  datatype Payload =
    | NoData
    | Row(recipe: Recipe)
    | Detail(view: RecipeView)
    | Listing(views: seq<RecipeView>)
    | Forks(forks: seq<ForkView>)
    | Lineage(rows: seq<ChainRow>)
    | Subtree(nodes: seq<TreeRow>)

  /** An HTTP status with the JSON object sent back. */
  datatype Response = Response(status: nat, success: bool, message: Option<string>, data: Payload)

  const RequiredMessage := "Title, ingredients, and instructions are required"
  const ParentMissingMessage := "Parent recipe not found"
  const OriginalMissingMessage := "Original recipe not found"
  const NotFoundMessage := "Recipe not found"
  const ForksMessage := "Cannot delete recipe with existing forks"
  const CreatedMessage := "Recipe created successfully"
  const ForkedMessage := "Recipe forked successfully"
  const UpdatedMessage := "Recipe updated successfully"
  const DeletedMessage := "Recipe deleted successfully"

  /** A failed request: status, `success: false` and a message. */
  function Fail(status: nat, message: string): (res: Response)
    ensures !res.success && res.status == status && res.message == Some(message) && res.data == NoData
  {
    Response(status, false, Some(message), NoData)
  }

  /** The guard of `createRecipe`: title, ingredients and instructions are all truthy. */
  predicate HasRequired(body: Body) {
    Truthy(body.title) && Truthy(body.ingredients) && Truthy(body.instructions)
  }

  /** What `createRecipe` hands to `Recipe.create`, once the required fields are known to be there. */
  function CreateData(body: Body): (d: NewRecipe)
    requires HasRequired(body)
    ensures d.title != "" && d.ingredients != "" && d.instructions != ""
    ensures Some(d.title) == body.title && Some(d.ingredients) == body.ingredients
    ensures Some(d.instructions) == body.instructions
    ensures d.description == body.description && d.parentId == body.parentId
    ensures d.author == body.author && d.changes == body.changes
  {
    NewRecipe(
      body.title.value, body.description, body.ingredients.value, body.instructions.value,
      body.parentId, body.author, body.changes)
  }

  /**
   * What `forkRecipe` hands to `Recipe.create`: every falsy content field
   * falls back to the original's, the title with " (Fork)" appended.
   */
  function ForkData(orig: Recipe, body: Body): (d: NewRecipe)
    ensures d.parentId == Some(orig.id)
    ensures d.title != ""
    ensures Truthy(body.title) ==> d.title == body.title.value
    ensures !Truthy(body.title) ==> d.title == orig.title + " (Fork)"
    ensures Truthy(body.description) ==> d.description == body.description
    ensures !Truthy(body.description) ==> d.description == orig.description
    ensures Truthy(body.ingredients) ==> d.ingredients == body.ingredients.value
    ensures !Truthy(body.ingredients) ==> d.ingredients == orig.ingredients
    ensures Truthy(body.instructions) ==> d.instructions == body.instructions.value
    ensures !Truthy(body.instructions) ==> d.instructions == orig.instructions
    ensures d.author == body.author && d.changes == body.changes
  {
    NewRecipe(
      if Truthy(body.title) then body.title.value else orig.title + " (Fork)",
      if Truthy(body.description) then body.description else orig.description,
      if Truthy(body.ingredients) then body.ingredients.value else orig.ingredients,
      if Truthy(body.instructions) then body.instructions.value else orig.instructions,
      Some(orig.id), body.author, body.changes)
  }

  /** What `updateRecipe` hands to `Recipe.update`: `parent_id` and `author` in the body are ignored. */
  function PatchOf(body: Body): (p: Patch)
    ensures p.title == body.title && p.description == body.description
    ensures p.ingredients == body.ingredients && p.instructions == body.instructions
    ensures p.changes == body.changes
  {
    Patch(body.title, body.description, body.ingredients, body.instructions, body.changes)
  }

  /** A fork made without any content of its own differs from the original exactly in its title. */
  lemma PlainForkCopies(orig: Recipe, id: nat, now: nat, author: Option<string>)
    requires orig.id != 0
    ensures var r := Inserted(ForkData(orig, Body(None, None, None, None, None, author, None)), id, now);
      && r.title == orig.title + " (Fork)"
      && r.title != orig.title
      && r.description == orig.description
      && r.ingredients == orig.ingredients
      && r.instructions == orig.instructions
      && r.parentId == Some(orig.id)
      && r.changes == None
  {
    var s := orig.title + " (Fork)";
    assert |s| == |orig.title| + 7;
  }

  /** `getAllRecipes`: every record once, newest first, with its derived columns. */
  function GetAllRecipes(t: Table): (res: Response)
    requires Keyed(t)
    ensures res.status == 200 && res.success && res.data == Listing(FindAll(t))
    ensures ListsNewestFirst(t, AllIds(t), ViewRecords(res.data.views))
    ensures forall v :: v in res.data.views ==>
      v.parentTitle == ParentTitle(t, v.recipe) && v.forkCount == ForkCount(t, v.recipe.id)
  {
    FindAllLists(t);
    Response(200, true, None, Listing(FindAll(t)))
  }

  /** `getRecipeById`: the record with its derived columns, or 404. */
  function GetRecipeById(t: Table, id: nat): (res: Response)
    requires Keyed(t)
    ensures id !in t ==> res == Fail(404, NotFoundMessage)
    ensures id in t ==> res.status == 200 && res.success && res.data.Detail?
    ensures id in t ==> res.data == Detail(View(t, t[id]))
    ensures id in t ==> res.data.view.recipe == t[id] && res.data.view.forkCount == ForkCount(t, id)
    ensures id in t ==> res.data.view.parentTitle == ParentTitle(t, t[id])
  {
    match FindById(t, id)
    case None => Fail(404, NotFoundMessage)
    case Some(v) => Response(200, true, None, Detail(v))
  }

  /** `getRecipeChain`: the ancestor chain, root first, ending at the record itself; or 404. */
  function GetRecipeChain(t: Table, id: nat): (res: Response)
    requires Keyed(t) && Acyclic(t)
    ensures id !in t ==> res == Fail(404, NotFoundMessage)
    ensures id in t ==> res.status == 200 && res.success && res.data == Lineage(ChainRows(t, id))
    ensures id in t ==> |res.data.rows| > 0 && res.data.rows[|res.data.rows| - 1].id == id
  {
    if FindById(t, id).None? then Fail(404, NotFoundMessage)
    else
      ChainShape(t, id);
      ChainRowsSound(t, id);
      Response(200, true, None, Lineage(ChainRows(t, id)))
  }

  /** `getRecipeChildren`: the direct forks, newest first; or 404. */
  function GetRecipeChildren(t: Table, id: nat): (res: Response)
    requires Keyed(t)
    ensures id !in t ==> res == Fail(404, NotFoundMessage)
    ensures id in t ==> res.status == 200 && res.success && res.data == Forks(GetChildren(t, id))
    ensures id in t ==> ListsNewestFirst(t, ChildIds(t, id), ForkRecords(res.data.forks))
    ensures id in t ==> forall v :: v in res.data.forks ==>
      v.recipe.parentId == Some(id) && v.forkCount == ForkCount(t, v.recipe.id)
  {
    if FindById(t, id).None? then Fail(404, NotFoundMessage)
    else
      GetChildrenLists(t, id);
      Response(200, true, None, Forks(GetChildren(t, id)))
  }

  /** `getRecipeTree`: the subtree rooted at the record, by depth and id; or 404. */
  function GetRecipeTree(t: Table, id: nat): (res: Response)
    requires Keyed(t) && Acyclic(t)
    ensures id !in t ==> res == Fail(404, NotFoundMessage)
    ensures id in t ==> res.status == 200 && res.success && res.data == Subtree(GetTree(t, id))
    ensures id in t ==> res.data.nodes != [] && res.data.nodes[0].id == id && res.data.nodes[0].depth == 0
  {
    if FindById(t, id).None? then Fail(404, NotFoundMessage)
    else
      GetTreeRows(t, id);
      Response(200, true, None, Subtree(GetTree(t, id)))
  }

  /** `createRecipe`: validate, check the parent, insert. */
  method CreateRecipe(store: RecipeStore, body: Body, now: nat) returns (res: Response)
    requires store.Valid()
    modifies store
    ensures store.Valid()
    ensures !HasRequired(body) ==> res == Fail(400, RequiredMessage) && unchanged(store)
    ensures HasRequired(body) && IdTruthy(body.parentId) && body.parentId.value !in old(store.table) ==>
      res == Fail(404, ParentMissingMessage) && unchanged(store)
    ensures HasRequired(body) && (IdTruthy(body.parentId) ==> body.parentId.value in old(store.table)) ==>
      var r := Inserted(CreateData(body), old(store.nextId), now);
      && res == Response(201, true, Some(if IdTruthy(body.parentId) then ForkedMessage else CreatedMessage), Row(r))
      && store.table == old(store.table)[r.id := r]
    ensures Forest(old(store.table)) ==> Forest(store.table)
  {
    if !HasRequired(body) {
      return Fail(400, RequiredMessage);
    }
    if IdTruthy(body.parentId) && FindById(store.table, body.parentId.value).None? {
      return Fail(404, ParentMissingMessage);
    }
    ghost var before := store.table;
    var r := store.Create(CreateData(body), now);
    if Forest(before) {
      ForestInsert(before, r);
    }
    res := Response(201, true, Some(if IdTruthy(body.parentId) then ForkedMessage else CreatedMessage), Row(r));
  }

  /** `forkRecipe`: look up the original, then insert a child of it. */
  method ForkRecipe(store: RecipeStore, id: nat, body: Body, now: nat) returns (res: Response)
    requires store.Valid()
    modifies store
    ensures store.Valid()
    ensures id !in old(store.table) ==> res == Fail(404, OriginalMissingMessage) && unchanged(store)
    ensures id in old(store.table) ==>
      var r := Inserted(ForkData(old(store.table)[id], body), old(store.nextId), now);
      && res == Response(201, true, Some(ForkedMessage), Row(r))
      && r.parentId == Some(id)
      && store.table == old(store.table)[r.id := r]
    ensures Forest(old(store.table)) ==> Forest(store.table)
  {
    var original := FindById(store.table, id);
    if original.None? {
      return Fail(404, OriginalMissingMessage);
    }
    ghost var before := store.table;
    var r := store.Create(ForkData(original.value.recipe, body), now);
    if Forest(before) {
      ForestInsert(before, r);
    }
    res := Response(201, true, Some(ForkedMessage), Row(r));
  }

  /** `updateRecipe`: look the record up, then overwrite the supplied columns; no other checks. */
  method UpdateRecipe(store: RecipeStore, id: nat, body: Body) returns (res: Response)
    requires store.Valid()
    modifies store
    ensures store.Valid() && store.nextId == old(store.nextId)
    ensures id !in old(store.table) ==> res == Fail(404, NotFoundMessage) && unchanged(store)
    ensures id in old(store.table) ==>
      var u := Patched(old(store.table)[id], PatchOf(body));
      && res == Response(200, true, Some(UpdatedMessage), Row(u))
      && store.table == old(store.table)[id := u]
    ensures Forest(old(store.table)) ==> Forest(store.table)
  {
    if FindById(store.table, id).None? {
      return Fail(404, NotFoundMessage);
    }
    ghost var before := store.table;
    var updated := store.Update(id, PatchOf(body));
    if Forest(before) {
      ForestReplace(before, updated.value);
    }
    res := Response(200, true, Some(UpdatedMessage), Row(updated.value));
  }

  /** `deleteRecipe`: look the record up, then delete it unless it has forks. */
  method DeleteRecipe(store: RecipeStore, id: nat) returns (res: Response)
    requires store.Valid()
    modifies store
    ensures store.Valid() && store.nextId == old(store.nextId)
    ensures id !in old(store.table) ==> res == Fail(404, NotFoundMessage) && unchanged(store)
    ensures id in old(store.table) && ForkCount(old(store.table), id) > 0 ==>
      res == Fail(400, ForksMessage) && store.table == old(store.table)
    ensures id in old(store.table) && ForkCount(old(store.table), id) == 0 ==>
      res == Response(200, true, Some(DeletedMessage), NoData) && store.table == old(store.table) - {id}
    ensures Forest(old(store.table)) ==> Forest(store.table)
  {
    if FindById(store.table, id).None? {
      return Fail(404, NotFoundMessage);
    }
    ghost var before := store.table;
    var outcome := store.Delete(id);
    if outcome.HasForks? {
      return Fail(400, ForksMessage);
    }
    if Forest(before) {
      NoForks(before, id);
      ForestRemove(before, id);
    }
    res := Response(200, true, Some(DeletedMessage), NoData);
  }
}
