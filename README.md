# Recipe lineage store

This project models the lineage store of the recipe-chain application. A
`recipes` table holds recipe records. Each record may name a parent through
`parent_id`, and these links make the table a forest of forks. The model
covers three layers:

- **The data layer** (`server/models/Recipe.js`):
  - `findAll`, `findById`, `getChildren`, `getChain` and `getTree` are functions over the table, a `map<nat, Recipe>` keyed by id. The derived columns `fork_count` and `parent_title` are computed the same way.
  - `create`, `update` and `delete` are methods of the class `RecipeStore`. The class holds the table and the SERIAL counter that hands out ids.
- **The request handlers** (`server/controllers/RecipeController.js`):
  - The read handlers are functions from the table to a `Response`, which carries a status, `success`, a message and a payload.
  - The write handlers are methods on the store that check their guards first and then make one store call.
- **The client helpers** (`client/src/App.jsx`):
  - `getRecipeChain` is a `while` loop, proved to compute the server's chain on the table that the loaded list indexes to.
  - The two list filters.
  - The fork form prefill.
  - The required-field checks that decide whether a request is sent.

The main invariant is `Forest`:

- every record sits under its own id;
- every non-null `parent_id` names a record;
- no record descends from itself.

`Acyclic` is defined on lines of descent: sequences of records, each one the parent of the next. `AtDistance(t, root, x, d)` says that `d` parent links lead from `x` up to `root`. It is the reference definition that the chain and tree queries are proved against.

Modules:

| module | file | contents |
|---|---|---|
| `Wrappers` | `wrappers.dfy` | `Option` |
| `Sequences` | `sequences.dfy` | generic facts on sequences, `Filter` |
| `Recipes` | `recipes.dfy` | the record, truthiness, the forest predicates, and the lemmas that inserting, replacing and removing records keep the forest |
| `RecipeQueries` | `recipe_queries.dfy` | read queries |
| `RecipeTable` | `recipe_table.dfy` | writes |
| `RecipeController` | `recipe_controller.dfy` | handlers |
| `App` | `app.dfy` | client |

Where the code and its written description differ, the model follows the code:

- **A fork's default title.** It is the original's title with `" (Fork)"` appended, not an exact copy (`server/controllers/RecipeController.js:125`). `PlainForkCopies` proves that such a fork's title differs from the original's.
- **`updateRecipe` validates nothing** (`server/controllers/RecipeController.js:233-246`):
  - An empty title, ingredients or instructions is stored as given.
  - A `parent_id` or `author` in the body is ignored, because `Recipe.update` only reads five columns.
- **There is no depth cap and no integrity error.**
  - The recursive queries simply follow the links. They terminate because the table is acyclic.
- **`create` returns the row the INSERT gave back** (`RETURNING *`). It carries no `fork_count` or `parent_title`.
- **A falsy `parent_id` makes a root.**
  - `0`, `null` and a missing value all become null (`server/models/Recipe.js:47`).
  - `createRecipe` only checks the parent when `parent_id` is truthy. It reports "Recipe forked successfully" when `parent_id` is truthy and "Recipe created successfully" otherwise.

## Model

| member | source | states |
|---|---|---|
| Recipes.ForestInsert | server/controllers/RecipeController.js:67-85 | Adding a record under an unused id keeps the forest, provided its `parent_id` is null or names a record. |
| Recipes.InsertedIsLeaf | server/models/Recipe.js:34-54 | A record inserted under an unused id can only be the last record of a line of descent. |
| Recipes.ForestReplace | server/models/Recipe.js:114-121 | Rewriting a record while keeping its id and `parent_id` keeps the forest. |
| Recipes.AcyclicWithin | server/models/Recipe.js:114-121 | A table whose records all appear in an acyclic table, with the same `parent_id`, is acyclic. |
| Recipes.ForestRemove | server/models/Recipe.js:139-147 | Removing a record that no record names as its parent keeps the forest. |
| Recipes.DistanceBound | server/models/Recipe.js:58-68 | In an acyclic table every ancestor is fewer links away than the table has records. So the recursive walks end. |
| Recipes.DistanceUnique | server/models/Recipe.js:93-103 | In an acyclic table a record lies at only one distance below a given ancestor. |
| Recipes.AncestorUnique | server/models/Recipe.js:65-67 | Following `d` parent links from a record leads to one record only. |
| RecipeQueries.ChildIds | server/models/Recipe.js:9 | The ids of the records whose `parent_id` is the id (the subquery's `WHERE parent_id = r.id`). Its meaning is used in `NoForks` and `InsertCountsFork`. |
| RecipeQueries.ForkCount | server/models/Recipe.js:9 | The derived `fork_count`: the number of records whose `parent_id` is the id (`COUNT(*)`). `NoForks` and `InsertCountsFork` state its properties. |
| RecipeQueries.View | server/models/Recipe.js:6-11 | A row of `findAll`/`findById`: the record with its `parent_title` and `fork_count`. |
| RecipeQueries.ParentTitle | server/models/Recipe.js:8-11 | `parent_title` is present exactly when `parent_id` names a record. It is that record's title. |
| RecipeQueries.FindAll | server/models/Recipe.js:4-17 | The `findAll` query: the views of the table's records sorted by `created_at` descending. Its meaning is proved in `FindAllLists` and `FindAllSize`. |
| RecipeQueries.FindAllLists | server/models/Recipe.js:4-17 | `findAll` lists every record of the table exactly once, drawn from the table, ordered by `created_at` descending. Each entry carries its own `parent_title` and `fork_count`. |
| RecipeQueries.FindAllSize | server/models/Recipe.js:4-17 | `findAll` has as many entries as the table has records. |
| RecipeQueries.SortKeeps | server/models/Recipe.js:12 | The `created_at` sort is a permutation of its input. |
| RecipeQueries.SortNewestFirst | server/models/Recipe.js:12 | The sort's result has non-increasing `created_at`. |
| RecipeQueries.FindById | server/models/Recipe.js:19-32 | There is a result exactly when the id is in the table. It is that record with its `parent_title` and `fork_count`. |
| RecipeQueries.GetChildren | server/models/Recipe.js:77-89 | The `getChildren` query: the records whose `parent_id` is the id, newest first, with their counts. Its meaning is proved in `GetChildrenLists`. |
| RecipeQueries.GetChildrenLists | server/models/Recipe.js:77-89 | `getChildren` lists exactly the records whose `parent_id` is the id, each once, newest first, each with its own `fork_count`. |
| RecipeQueries.ChainFrom | server/models/Recipe.js:58-68 | The recursive `recipe_chain` step: put the record the current `parent_id` names in front, until it names none. The measure is the number of records not yet collected. |
| RecipeQueries.Chain | server/models/Recipe.js:56-75 | `getChain(id)`: the walk started at `id`. Its meaning is proved in `ChainShape`, `ChainOnce` and `ChainAncestors`. |
| RecipeQueries.ChainShape | server/models/Recipe.js:56-75 | The chain is empty exactly when the id is absent. Otherwise it ends at the record itself, and each record is the parent of the next. The first record's `parent_id` names no record, and it is null when every parent exists. |
| RecipeQueries.ChainOnce | server/models/Recipe.js:56-75 | No record occurs twice in a chain, and a chain is no longer than the table. |
| RecipeQueries.ChainAncestors | server/models/Recipe.js:58-70 | The record `d` links above `id` is exactly the one `d` places before the end of the chain. |
| RecipeQueries.ChainRows | server/models/Recipe.js:59-70 | The rows of `getChain` (id, title, `parent_id`, level), level 1 at the record itself, ordered by level descending. Its meaning is proved in `ChainRowsSound` and `ChainRowsComplete`. |
| RecipeQueries.ChainRowsSound | server/models/Recipe.js:59-70 | Each row copies the id, title and `parent_id` of a record that lies `level - 1` links above `id`, and levels descend (`ORDER BY level DESC`). |
| RecipeQueries.ChainRowsComplete | server/models/Recipe.js:58-68 | Every ancestor `d` links up has its row at level `d + 1`. |
| RecipeQueries.LevelRows | server/models/Recipe.js:100-105 | One level of the tree, each record once, in ascending id order, at the given depth. |
| RecipeQueries.TreeFrom | server/models/Recipe.js:93-105 | The level-by-level expansion is ordered by depth, then id. |
| RecipeQueries.TreeFromSound | server/models/Recipe.js:93-103 | Each row is a record of the table at its stated distance below the root. |
| RecipeQueries.TreeFromComplete | server/models/Recipe.js:93-103 | Every descendant of the root has its row, so the depth cut of the expansion never applies on an acyclic table. |
| RecipeQueries.GetTree | server/models/Recipe.js:91-110 | `getTree(rootId)`: the level-order expansion from the root, or nothing for an absent root. Its meaning is proved in `GetTreeRows` and `TreeParentsListed`. |
| RecipeQueries.GetTreeRows | server/models/Recipe.js:91-110 | Every row is a record at its depth below `rootId` (the root at 0), and every descendant is present. Rows are ordered by (depth, id), no id repeats, and the result is empty exactly when `rootId` is absent. |
| RecipeQueries.TreeParentsListed | server/models/Recipe.js:100-105 | Every row at depth `d > 0` has its parent's row earlier in the result, at depth `d - 1`. |
| RecipeTable.Inserted | server/models/Recipe.js:42-50 | The stored row copies the title, description, ingredients and instructions. A falsy `parent_id` becomes null and a falsy `changes` becomes null. A falsy `author` becomes `'Anonymous'`, so the author is never empty. |
| RecipeTable.Patched | server/models/Recipe.js:113-131 | Each of the five columns is overwritten when a value is supplied (even `""`) and kept when NULL is. The id, `parent_id`, author and `created_at` never change. |
| RecipeTable.EmptyPatchKeeps | server/models/Recipe.js:116-121 | An update that supplies nothing leaves the row unchanged. |
| RecipeTable.PatchIdempotent | server/models/Recipe.js:116-121 | Applying the same update twice equals applying it once. |
| RecipeTable.NoForks | server/models/Recipe.js:139-143 | `fork_count` is 0 exactly when no record names the id as its parent. |
| RecipeTable.InsertCountsFork | server/models/Recipe.js:9 | An insert adds one to the parent's `fork_count` and leaves every other count unchanged. |
| RecipeTable.InsertedChild | server/models/Recipe.js:9 | The parent's fork set grows by the new id. |
| RecipeTable.ReplaceKeepsForks | server/models/Recipe.js:114-121 | An update leaves every `fork_count` unchanged. |
| RecipeTable.DeletedNotListed | server/models/Recipe.js:145-148 | After a delete, `findAll` no longer lists the record. |
| RecipeTable.DeletedNotFound | server/models/Recipe.js:145-148 | After a delete, `findById` misses the record and still finds every other record unchanged. |
| RecipeTable.RecipeStore.Create | server/models/Recipe.js:34-54 | The new row is `Inserted(data, old nextId, now)` under an id not in use. The table gains exactly that row, and the counter advances by one. |
| RecipeTable.RecipeStore.Update | server/models/Recipe.js:112-136 | When the row exists, it becomes `Patched(old row, patch)` and is returned, and no other row changes. Otherwise the result is none and the table is unchanged. |
| RecipeTable.RecipeStore.Delete | server/models/Recipe.js:138-149 | While `fork_count > 0` the result is the forks error and the table is unchanged. Otherwise exactly that id is removed and the old row, if any, is returned. |
| RecipeController.Fail | server/controllers/RecipeController.js:60-64 | An error response: the status, `success: false` and the message, with no data. |
| RecipeController.HasRequired | server/controllers/RecipeController.js:59 | The required-field guard: title, ingredients and instructions are all truthy. |
| RecipeController.CreateData | server/controllers/RecipeController.js:77-85 | `createRecipe` passes the body's fields to `create` unchanged. The required ones are non-empty. |
| RecipeController.ForkData | server/controllers/RecipeController.js:124-132 | The fork's `parent_id` is the original's id, and its title is never empty. Each falsy title, description, ingredients or instructions falls back to the original's, with `" (Fork)"` appended to the title. Author and changes pass through. |
| RecipeController.PlainForkCopies | server/controllers/RecipeController.js:124-132 | A fork with no content of its own copies the original's content. Its title is the original's plus `" (Fork)"`, so it differs from the original's. |
| RecipeController.PatchOf | server/controllers/RecipeController.js:235-246 | `updateRecipe` hands the body's five content fields to `update` unvalidated. `parent_id` and author are dropped. |
| RecipeController.GetAllRecipes | server/controllers/RecipeController.js:4-19 | Status 200 with exactly `findAll`'s rows: every record once, newest first, each row carrying its own `parent_title` and `fork_count`. |
| RecipeController.GetRecipeById | server/controllers/RecipeController.js:21-45 | 404 "Recipe not found" for an absent id. Otherwise 200 with exactly `findById`'s row: the record, its `parent_title` and its `fork_count`. |
| RecipeController.GetRecipeChain | server/controllers/RecipeController.js:149-175 | 404 for an absent id. Otherwise 200 with `getChain`'s rows, which are not empty and end at the id. |
| RecipeController.GetRecipeChildren | server/controllers/RecipeController.js:177-203 | 404 for an absent id. Otherwise 200 with exactly `getChildren`'s rows: the direct forks, each once, newest first, each with its own `fork_count`. |
| RecipeController.GetRecipeTree | server/controllers/RecipeController.js:205-231 | 404 for an absent id. Otherwise 200 with exactly `getTree`'s rows, whose first row is the id at depth 0. |
| RecipeController.CreateRecipe | server/controllers/RecipeController.js:47-102 | A falsy title, ingredients or instructions gives 400 and stores nothing. A truthy `parent_id` naming no record gives 404 "Parent recipe not found" and stores nothing. Otherwise one row is inserted and 201 is returned with it, with the forked or created message. The forest invariant is kept. |
| RecipeController.ForkRecipe | server/controllers/RecipeController.js:104-147 | An absent original gives 404 and stores nothing. Otherwise one child of it is inserted from `ForkData` and 201 "Recipe forked successfully" is returned. The forest invariant is kept. |
| RecipeController.UpdateRecipe | server/controllers/RecipeController.js:233-261 | An absent id gives 404 and leaves the store unchanged. Otherwise only that row is patched and 200 is returned with the new row. The forest invariant is kept. |
| RecipeController.DeleteRecipe | server/controllers/RecipeController.js:263-296 | An absent id gives 404 and leaves the store unchanged. A recipe with forks gives 400 "Cannot delete recipe with existing forks" and leaves the table unchanged. Otherwise exactly that row is removed and 200 "Recipe deleted successfully" is returned. The forest invariant is kept. |
| App.Find | client/src/App.jsx:142-146 | `find` yields the first listed record carrying the key, or nothing exactly when no listed record carries it. A null key matches nothing. |
| App.Index | client/src/App.jsx:142-146 | The list seen as a table: keyed, drawn from the list, no larger than it. |
| App.FindIsLookup | client/src/App.jsx:142-146 | Searching the list answers exactly as looking the key up in its index. |
| App.ServedListIndex | client/src/App.jsx:27-31 | The list `findAll` serves indexes back to the server's table. |
| App.ServedListWalks | client/src/App.jsx:27-31 | On a list served from a forest, the client walk's precondition holds. |
| App.GetRecipeChain | client/src/App.jsx:140-150 | The `while` loop computes exactly the server's chain on the indexed list. The decreasing measure is the number of records not yet collected. |
| App.WalkStep | client/src/App.jsx:144-147 | One turn puts the found record in front and goes on from its parent, without leaving the table. |
| App.ClientChainEnds | client/src/App.jsx:142-147 | The walk is empty exactly when the id is not listed. Otherwise it ends at the listed record, and the first record's `parent_id` matches no listed record. |
| App.ClientChainLinks | client/src/App.jsx:144-147 | The walk holds listed records, each the parent of the next. None repeats, and there are no more of them than the list holds. |
| App.GetChildren | client/src/App.jsx:152-154 | A subsequence of the list that keeps each record with `parent_id === id` as often as the list has it, and no other record. |
| App.ChildrenMembers | client/src/App.jsx:152-154 | A record is a child exactly when it is listed and its `parent_id` is the id. |
| App.RootRecipes | client/src/App.jsx:230 | A subsequence of the list that keeps exactly the records with a falsy `parent_id`, counted as in the list. |
| App.RootMembers | client/src/App.jsx:230 | A record is a root exactly when it is listed and its `parent_id` is falsy. |
| App.HandleFork | client/src/App.jsx:74-86 | `forkParentId` is set to the id. The prefill is the parent's title plus `" (Fork)"`, its description, ingredients and instructions, `changes` `""` and author `"CurrentUser"`. The result is none exactly when no listed record has the id. |
| App.PrefillMatchesServerDefaults | client/src/App.jsx:77-84 | Submitting the prefill unchanged makes the server store what a fork request with no content of its own would store. |
| App.FormBody | client/src/App.jsx:52-54 | The form is sent as is. It carries no `parent_id`. |
| App.FormComplete | client/src/App.jsx:41-45 | The client's required-field check: title, ingredients and instructions are non-empty. `ClientCheckMatchesServer` relates it to the server's guard. |
| App.HandleCreate | client/src/App.jsx:40-55 | No call is made exactly when a required field is empty. Otherwise the call is `fork(forkParentId, form)` when `forkParentId` is truthy, else `create(form)`. |
| App.HandleUpdate | client/src/App.jsx:100-111 | No call is made exactly when a required field is empty. Otherwise the call is `update(selected id, form)`. |
| App.ClientCheckMatchesServer | client/src/App.jsx:41-48 | The client sends the form exactly when the server's required-field check accepts it. |
| App.CreateCallMakesRoot | client/src/App.jsx:53-54 | A plain create from the client passes the server's check and stores a record with no parent. |

## Left out

- Database failures and the 500 responses they produce. The store never fails in this model.
- Concurrency. Each handler is one sequential step, so the race between the check and the insert or delete is not modelled.
- The clock. `created_at` is a `now` parameter of `Create`.
- Ties among equal `created_at` values. SQL leaves their order unspecified. The model's sort picks one order, and the contracts promise only non-increasing `created_at`.
- The database schema, which is not part of this model. `RecipeStore.Create` accepts any `parent_id`, as if there were no foreign key. The forest is kept by the handlers' own checks.
- Request values of other JSON types. Path and body ids are natural numbers, and text fields are optional strings. A non-numeric path id, which fails in the database, is not modelled.
- RecipeQueries.TreeFrom: the expansion stops after as many levels as the table has records. `TreeFromComplete` shows that no level that deep has records on an acyclic table.
- App.GetRecipeChain: the walk requires the indexed list to be acyclic. `ServedListWalks` discharges this for a list served from a forest. A stale list is not modelled.
- App.HandleFork: when no listed record has the id, the handler raises a TypeError. This is modelled as `None`.
- The client list holds `findAll` rows. Their `parent_title` and `fork_count` columns are not used by the modelled helpers and are dropped.
- React state, rendering, `alert`, `window.confirm` and the `fetch` wrappers, which are UI and network I/O. The state setters after a successful call are also left out.
- `handleEdit`'s form filling, which is not part of the modelled core.
- App.HandleFork: the handler runs `setForkParentId(recipeId)` before the `parent.title` TypeError, so in the source `forkParentId` is set even when no listed record has the id. The `None` result does not capture that state change.
- `fork_count` comes from `COUNT(*)`, a Postgres bigint that node-postgres sends to the client as a string. The model uses `nat`.
