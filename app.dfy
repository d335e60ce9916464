/**
 * The client's own lineage logic: walking up the list it loaded to show a
 * recipe's ancestry, the two list filters, the fork form prefill and the
 * required-field check that decides whether a request is sent at all.
 */
module App {
  import opened Wrappers
  import opened Sequences
  import opened Recipes
  import opened RecipeQueries
  import opened RecipeController

  // ------------------------------------------------------------ list lookups

  /** `recipes.find(r => r.id === key)`: the first listed record with that id; a null key matches none. */
  function Find(recipes: seq<Recipe>, key: Option<nat>): (r: Option<Recipe>)
    ensures r.Some? ==> r.value in recipes && key == Some(r.value.id)
    ensures r.None? <==> forall i :: 0 <= i < |recipes| ==> key != Some(recipes[i].id)
    ensures r.Some? ==>
      exists i :: 0 <= i < |recipes| && recipes[i] == r.value && forall j :: 0 <= j < i ==> key != Some(recipes[j].id)
    decreases |recipes|
  {
    if recipes == [] then None
    else if key == Some(recipes[0].id) then Some(recipes[0])
    else
      var r := Find(recipes[1..], key);
      assert forall i :: 1 <= i < |recipes| ==> recipes[1..][i - 1] == recipes[i];
      if r.Some? then
        var i :| 0 <= i < |recipes[1..]| && recipes[1..][i] == r.value &&
          forall j :: 0 <= j < i ==> key != Some(recipes[1..][j].id);
        assert recipes[i + 1] == r.value && forall j :: 0 <= j < i + 1 ==> key != Some(recipes[j].id);
        r
      else
        r
  }

  /** The list seen as a table: each id names the first listed record that carries it (see `FindIsLookup`). */
  function Index(recipes: seq<Recipe>): (t: Table)
    ensures Keyed(t) && |t| <= |recipes|
    ensures forall k :: k in t ==> t[k] in recipes
    decreases |recipes|
  {
    if recipes == [] then map[]
    else Index(recipes[1..])[recipes[0].id := recipes[0]]
  }

  /** Looking a key up in the list and in its index agree. */
  lemma {:induction false} FindIsLookup(recipes: seq<Recipe>, key: Option<nat>)
    ensures Find(recipes, key) == Lookup(Index(recipes), key)
    decreases |recipes|
  {
    if recipes != [] {
      FindIsLookup(recipes[1..], key);
    }
  }

  /** The list `findAll` serves indexes back to the very table it was read from. */
  lemma ServedListIndex(t: Table, recipes: seq<Recipe>)
    requires Keyed(t) && ListsNewestFirst(t, AllIds(t), recipes)
    ensures Index(recipes) == t
  {
    var u := Index(recipes);
    forall k | k in t ensures k in u && u[k] == t[k] {
      assert k in AllIds(t);
      ListedRecordIndexed(t, recipes, k);
    }
    forall k | k in u ensures k in t {
      var i :| 0 <= i < |recipes| && recipes[i] == u[k];
    }
    SameMap(u, t);
  }

  /** A record of the table that the list holds is what the index holds under its id. */
  lemma ListedRecordIndexed(t: Table, recipes: seq<Recipe>, k: nat)
    requires Keyed(t) && forall i :: 0 <= i < |recipes| ==> recipes[i].id in t && t[recipes[i].id] == recipes[i]
    requires k in t && t[k] in recipes
    ensures k in Index(recipes) && Index(recipes)[k] == t[k]
  {
    var u := Index(recipes);
    var i :| 0 <= i < |recipes| && recipes[i] == t[k];
    FindIsLookup(recipes, Some(k));
    var j :| 0 <= j < |recipes| && recipes[j] == u[k];
  }

  /** Two tables with the same keys and the same record under each key are equal. */
  lemma SameMap(u: Table, t: Table)
    requires forall k :: k in t ==> k in u && u[k] == t[k]
    requires forall k :: k in u ==> k in t
    ensures u == t
  {
  }

  // --------------------------------------------------------- getRecipeChain

  /**
   * `getRecipeChain`: start at the listed record `recipeId`, and while there
   * is a current record put it in front and move to the record its
   * `parent_id` names. The walk matches the server's `getChain` on the
   * table the list indexes to.
   */
  method GetRecipeChain(recipes: seq<Recipe>, recipeId: nat) returns (chain: seq<Recipe>)
    requires Acyclic(Index(recipes))
    ensures chain == Chain(Index(recipes), recipeId)
  {
    ghost var t := Index(recipes);
    ghost var key := Some(recipeId);
    chain := [];
    var current := Find(recipes, Some(recipeId));
    FindIsLookup(recipes, key);
    while current.Some?
      invariant IsChain(t, chain)
      invariant chain != [] ==> chain[0].parentId == key
      invariant current == Lookup(t, key)
      invariant ChainFrom(t, key, chain) == Chain(t, recipeId)
      decreases |t| - |chain|
    {
      var p := current.value;
      WalkStep(t, key, chain);
      chain := [p] + chain;
      key := p.parentId;
      current := Find(recipes, p.parentId);
      FindIsLookup(recipes, key);
    }
  }

  /** One turn of the loop: the record found is put in front, and the walk goes on from its parent. */
  lemma WalkStep(t: Table, key: Option<nat>, chain: seq<Recipe>)
    requires Keyed(t) && Acyclic(t) && IsChain(t, chain)
    requires chain != [] ==> chain[0].parentId == key
    requires key.Some? && key.value in t
    ensures var p := t[key.value];
      && IsChain(t, [p] + chain) && |chain| < |t|
      && ChainFrom(t, key, chain) == ChainFrom(t, p.parentId, [p] + chain)
  {
    ChainStep(t, chain, t[key.value]);
  }

  /**
   * Where the walk starts and stops, in the client's own terms: it is empty
   * for an id that is not listed, else it ends at that record and its first
   * record's `parent_id` matches no listed record.
   */
  lemma ClientChainEnds(recipes: seq<Recipe>, recipeId: nat)
    requires Acyclic(Index(recipes))
    ensures var c := Chain(Index(recipes), recipeId);
      && (c == [] <==> Find(recipes, Some(recipeId)).None?)
      && (c != [] ==> Some(c[|c| - 1]) == Find(recipes, Some(recipeId)))
      && (c != [] ==> Find(recipes, c[0].parentId).None?)
  {
    var t := Index(recipes);
    var c := Chain(t, recipeId);
    ChainShape(t, recipeId);
    FindIsLookup(recipes, Some(recipeId));
    if c != [] {
      FindIsLookup(recipes, c[0].parentId);
    }
  }

  /**
   * What lies between, in the client's own terms: listed records, each the
   * parent of the next, none repeated, no more of them than the list holds.
   */
  lemma ClientChainLinks(recipes: seq<Recipe>, recipeId: nat)
    requires Acyclic(Index(recipes))
    ensures var c := Chain(Index(recipes), recipeId);
      && (forall i :: 0 <= i < |c| ==> c[i] in recipes)
      && (forall i :: 0 <= i < |c| - 1 ==> c[i + 1].parentId == Some(c[i].id))
      && (forall i, j :: 0 <= i < j < |c| ==> c[i].id != c[j].id)
      && |c| <= |recipes|
  {
    var t := Index(recipes);
    var c := Chain(t, recipeId);
    ChainShape(t, recipeId);
    ChainOnce(t, recipeId);
    forall i | 0 <= i < |c| - 1 ensures c[i + 1].parentId == Some(c[i].id) {
      assert c[i + 1].parentId == Some(c[i].id);
    }
  }

  /** On the list `findAll` served from a forest the walk needs no extra assumption. */
  lemma ServedListWalks(t: Table)
    requires Forest(t)
    ensures var recipes := ViewRecords(FindAll(t)); Acyclic(Index(recipes)) && Index(recipes) == t
  {
    FindAllLists(t);
    ServedListIndex(t, ViewRecords(FindAll(t)));
  }

  // ------------------------------------------------------------------ filters

  /** `getChildren(recipeId)`: the listed records whose `parent_id` is `recipeId`, in list order. */
  function GetChildren(recipes: seq<Recipe>, recipeId: nat): (r: seq<Recipe>)
    ensures Subsequence(r, recipes)
    ensures forall x :: multiset(r)[x] == if x.parentId == Some(recipeId) then multiset(recipes)[x] else 0
  {
    Filter(recipes, (x: Recipe) => x.parentId == Some(recipeId))
  }

  /** `rootRecipes`: the listed records whose `parent_id` is falsy, in list order. */
  function RootRecipes(recipes: seq<Recipe>): (r: seq<Recipe>)
    ensures Subsequence(r, recipes)
    ensures forall x :: multiset(r)[x] == if !IdTruthy(x.parentId) then multiset(recipes)[x] else 0
  {
    Filter(recipes, (x: Recipe) => !IdTruthy(x.parentId))
  }

  /** A listed record is among the children of `recipeId` exactly when its `parent_id` is `recipeId`. */
  lemma ChildrenMembers(recipes: seq<Recipe>, recipeId: nat, x: Recipe)
    ensures x in GetChildren(recipes, recipeId) <==> x in recipes && x.parentId == Some(recipeId)
  {
    var r := GetChildren(recipes, recipeId);
    assert x in r <==> multiset(r)[x] > 0;
    assert x in recipes <==> multiset(recipes)[x] > 0;
  }

  /** A listed record is a root exactly when its `parent_id` is falsy; roots and forks split the list. */
  lemma RootMembers(recipes: seq<Recipe>, x: Recipe)
    ensures x in RootRecipes(recipes) <==> x in recipes && !IdTruthy(x.parentId)
  {
    var r := RootRecipes(recipes);
    assert x in r <==> multiset(r)[x] > 0;
    assert x in recipes <==> multiset(recipes)[x] > 0;
  }

  // -------------------------------------------------------------------- forms

  /** The create/edit form. `description` may hold the null copied from a parent. */
  datatype Form = Form(
    title: string,
    description: Option<string>,
    ingredients: string,
    instructions: string,
    changes: string,
    author: string)

  /** The form the create modal starts from. */
  const EmptyForm := Form("", Some(""), "", "", "", "CurrentUser")

  /** The state `handleFork` sets: the parent to fork and the prefilled form. */
  datatype ForkPrefill = ForkPrefill(forkParentId: nat, form: Form)

  /** The request a submit handler sends, if any. */
  datatype ApiCall =
    | NoCall
    | CreateCall(body: Body)
    | ForkCall(parentId: nat, body: Body)
    | UpdateCall(id: nat, body: Body)

  /**
   * `handleFork`: prefill the form from the listed parent. `None` stands for
   * the TypeError the handler raises when no listed record has that id.
   */
  function HandleFork(recipes: seq<Recipe>, recipeId: nat): (r: Option<ForkPrefill>)
    ensures r.None? <==> Find(recipes, Some(recipeId)).None?
    ensures r.Some? ==> var parent := Find(recipes, Some(recipeId)).value;
      && r.value.forkParentId == recipeId
      && r.value.form.title == parent.title + " (Fork)"
      && r.value.form.description == parent.description
      && r.value.form.ingredients == parent.ingredients
      && r.value.form.instructions == parent.instructions
      && r.value.form.changes == ""
      && r.value.form.author == "CurrentUser"
  {
    match Find(recipes, Some(recipeId))
    case None => None
    case Some(parent) =>
      Some(ForkPrefill(recipeId, Form(
        parent.title + " (Fork)", parent.description, parent.ingredients, parent.instructions,
        "", "CurrentUser")))
  }

  /** `JSON.stringify(formData)` as the server reads it: no `parent_id` member. */
  function FormBody(f: Form): (b: Body)
    ensures b.title == Some(f.title) && b.ingredients == Some(f.ingredients)
    ensures b.instructions == Some(f.instructions) && b.description == f.description
    ensures b.parentId == None && b.author == Some(f.author) && b.changes == Some(f.changes)
  {
    Body(Some(f.title), f.description, Some(f.ingredients), Some(f.instructions), None, Some(f.author), Some(f.changes))
  }

  /** The client's required-field check. */
  predicate FormComplete(f: Form) {
    f.title != "" && f.ingredients != "" && f.instructions != ""
  }

  /** `handleCreate`: nothing when a required field is empty, else fork or create. */
  function HandleCreate(f: Form, forkParentId: Option<nat>): (call: ApiCall)
    ensures !FormComplete(f) <==> call == NoCall
    ensures FormComplete(f) && IdTruthy(forkParentId) ==> call == ForkCall(forkParentId.value, FormBody(f))
    ensures FormComplete(f) && !IdTruthy(forkParentId) ==> call == CreateCall(FormBody(f))
  {
    if !FormComplete(f) then NoCall
    else if IdTruthy(forkParentId) then ForkCall(forkParentId.value, FormBody(f))
    else CreateCall(FormBody(f))
  }

  /** `handleUpdate`: nothing when a required field is empty, else update the selected recipe. */
  function HandleUpdate(f: Form, selectedId: nat): (call: ApiCall)
    ensures !FormComplete(f) <==> call == NoCall
    ensures FormComplete(f) ==> call == UpdateCall(selectedId, FormBody(f))
  {
    if !FormComplete(f) then NoCall else UpdateCall(selectedId, FormBody(f))
  }

  /** The client sends a form exactly when the server's required-field check would accept it. */
  lemma ClientCheckMatchesServer(f: Form)
    ensures FormComplete(f) <==> HasRequired(FormBody(f))
  {
  }

  /** A create the client sends carries no parent, so the server stores a root. */
  lemma CreateCallMakesRoot(f: Form, forkParentId: Option<nat>, id: nat, now: nat)
    requires HandleCreate(f, forkParentId).CreateCall?
    ensures var b := HandleCreate(f, forkParentId).body;
      HasRequired(b) && RecipeTable.Inserted(CreateData(b), id, now).parentId == None
  {
  }

  /**
   * Submitting the fork prefill unchanged makes the server store the same
   * content as a fork request with no content of its own.
   */
  lemma PrefillMatchesServerDefaults(recipes: seq<Recipe>, recipeId: nat)
    requires HandleFork(recipes, recipeId).Some?
    ensures var parent := Find(recipes, Some(recipeId)).value;
      var body := FormBody(HandleFork(recipes, recipeId).value.form);
      ForkData(parent, body) == ForkData(parent, Body(None, None, None, None, None, Some("CurrentUser"), Some("")))
  {
  }
}
