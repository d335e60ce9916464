/**
 * The read queries of the recipe model: `findAll`, `findById`, `getChain`,
 * `getChildren` and `getTree`, each a function of the table.
 */
module RecipeQueries {
  import opened Wrappers
  import opened Sequences
  import opened Recipes

  /** A row of `findAll` and `findById`: the record, its parent's title and its number of forks. */
  datatype RecipeView = RecipeView(recipe: Recipe, parentTitle: Option<string>, forkCount: nat)

  /** A row of `getChildren`: the record and its own number of forks. */
  datatype ForkView = ForkView(recipe: Recipe, forkCount: nat)

  /** A row of `getChain`: level 1 is the requested recipe, level n + 1 its n-th ancestor. */
  datatype ChainRow = ChainRow(id: nat, title: string, parentId: Option<nat>, level: nat)

  /** A row of `getTree`, with the record's distance below the tree's root. */
  datatype TreeRow = TreeRow(id: nat, title: string, parentId: Option<nat>, ingredients: string, author: string, depth: nat)

  // ---------------------------------------------------------------- derived columns

  /** The ids of the records whose `parent_id` is `id`. */
  function ChildIds(t: Table, id: nat): set<nat> {
    set c | c in t && t[c].parentId == Some(id)
  }

  /** The derived `fork_count` column: how many records have `parent_id = id`. */
  function ForkCount(t: Table, id: nat): nat {
    |ChildIds(t, id)|
  }

  /** The derived `parent_title` column of the left join on `parent_id`. */
  function ParentTitle(t: Table, r: Recipe): (title: Option<string>)
    ensures title.Some? <==> r.parentId.Some? && r.parentId.value in t
    ensures title.Some? ==> title.value == t[r.parentId.value].title
  {
    match Lookup(t, r.parentId)
    case None => None
    case Some(p) => Some(p.title)
  }

  function View(t: Table, r: Recipe): RecipeView {
    RecipeView(r, ParentTitle(t, r), ForkCount(t, r.id))
  }

  // ---------------------------------------------------------------- ordering

  /** `ORDER BY created_at DESC`. */
  ghost predicate NewestFirst(s: seq<Recipe>) {
    forall i, j :: 0 <= i < j < |s| ==> s[i].createdAt >= s[j].createdAt
  }

  lemma ConsNewestFirst(r: Recipe, s: seq<Recipe>)
    requires NewestFirst(s) && (s != [] ==> r.createdAt >= s[0].createdAt)
    ensures NewestFirst([r] + s)
  {
    forall j | 1 <= j < |[r] + s| ensures r.createdAt >= ([r] + s)[j].createdAt {
      assert ([r] + s)[j] == s[j - 1];
    }
  }

  /** Inserts `r` before the first record that is not newer than it. */
  function InsertByAge(r: Recipe, s: seq<Recipe>): (o: seq<Recipe>)
    requires NewestFirst(s)
    ensures NewestFirst(o)
    ensures o != [] && (o[0] == r || (s != [] && o[0] == s[0]))
  {
    if s == [] || r.createdAt >= s[0].createdAt then
      ConsNewestFirst(r, s);
      [r] + s
    else
      var rest := InsertByAge(r, s[1..]);
      ConsNewestFirst(s[0], rest);
      [s[0]] + rest
  }

  /** Insertion adds `r` and keeps every other record with its multiplicity. */
  lemma {:induction false} InsertByAgeKeeps(r: Recipe, s: seq<Recipe>)
    requires NewestFirst(s)
    ensures multiset(InsertByAge(r, s)) == multiset(s) + multiset{r}
  {
    if s != [] && r.createdAt < s[0].createdAt {
      InsertByAgeKeeps(r, s[1..]);
      assert s == [s[0]] + s[1..];
    }
  }

  /** Insertion sort, newest first; records with equal timestamps end up in some order. */
  function SortNewestFirst(s: seq<Recipe>): (o: seq<Recipe>)
    ensures NewestFirst(o)
  {
    if s == [] then []
    else InsertByAge(s[0], SortNewestFirst(s[1..]))
  }

  /** Sorting is a permutation. */
  lemma {:induction false} SortKeeps(s: seq<Recipe>)
    ensures multiset(SortNewestFirst(s)) == multiset(s)
  {
    if s != [] {
      var rest := SortNewestFirst(s[1..]);
      SortKeeps(s[1..]);
      InsertByAgeKeeps(s[0], rest);
      assert multiset(s) == multiset(s[1..]) + multiset{s[0]} by {
        assert s == [s[0]] + s[1..];
      }
    }
  }

  /** The records stored under the ids of `order`, in that order. */
  function RecordsAt(t: Table, order: seq<nat>): (rs: seq<Recipe>)
    requires forall i :: 0 <= i < |order| ==> order[i] in t
    ensures |rs| == |order|
    ensures forall i :: 0 <= i < |rs| ==> rs[i] == t[order[i]]
  {
    if order == [] then [] else [t[order[0]]] + RecordsAt(t, order[1..])
  }

  lemma RecordsAtDistinct(t: Table, order: seq<nat>)
    requires Keyed(t) && Ascending(order)
    requires forall i :: 0 <= i < |order| ==> order[i] in t
    ensures Distinct(RecordsAt(t, order))
  {
    var rs := RecordsAt(t, order);
    forall i, j | 0 <= i < j < |rs| ensures rs[i] != rs[j] {
      assert rs[i].id == order[i] && rs[j].id == order[j];
    }
  }

  /** The records with the given ids, in ascending id order. */
  function RecordsOf(t: Table, ids: set<nat>): (rs: seq<Recipe>)
    requires Keyed(t) && (forall x :: x in ids ==> x in t)
    ensures Distinct(rs) && |rs| == |ids|
    ensures forall i :: 0 <= i < |rs| ==> rs[i].id in ids && t[rs[i].id] == rs[i]
    ensures forall id :: id in ids ==> t[id] in rs
  {
    var order := SortedIds(ids);
    var rs := RecordsAt(t, order);
    RecordsAtDistinct(t, order);
    assert forall id :: id in ids ==> t[id] in rs by {
      forall id | id in ids ensures t[id] in rs {
        assert rs[IndexOf(order, id)] == t[id];
      }
    }
    rs
  }

  function IndexOf(s: seq<nat>, x: nat): (i: nat)
    requires x in s
    ensures i < |s| && s[i] == x
  {
    if s[0] == x then 0 else 1 + IndexOf(s[1..], x)
  }

  /** Sorting keeps exactly the elements it was given. */
  lemma SortKeepsElements(s: seq<Recipe>)
    ensures |SortNewestFirst(s)| == |s|
    ensures forall r :: r in SortNewestFirst(s) <==> r in s
  {
    var o := SortNewestFirst(s);
    SortKeeps(s);
    assert |o| == |multiset(o)| == |multiset(s)| == |s|;
    forall r ensures r in o <==> r in s {
      assert r in o <==> r in multiset(o);
      assert r in s <==> r in multiset(s);
    }
  }

  /** `rs` lists each record whose id is in `ids` exactly once, newest first. */
  ghost predicate ListsNewestFirst(t: Table, ids: set<nat>, rs: seq<Recipe>) {
    && |rs| == |ids|
    && (forall i :: 0 <= i < |rs| ==> rs[i].id in ids && rs[i].id in t && t[rs[i].id] == rs[i])
    && (forall id :: id in ids && id in t ==> t[id] in rs)
    && (forall i, j :: 0 <= i < j < |rs| ==> rs[i].id != rs[j].id)
    && NewestFirst(rs)
  }

  /** A newest-first ordering of the records with the given ids. */
  function NewestRecordsOf(t: Table, ids: set<nat>): (rs: seq<Recipe>)
    requires Keyed(t) && (forall x :: x in ids ==> x in t)
    ensures ListsNewestFirst(t, ids, rs)
  {
    var byId := RecordsOf(t, ids);
    var rs := SortNewestFirst(byId);
    SortedRecordsProps(t, ids, byId, rs);
    rs
  }

  lemma SortedRecordsProps(t: Table, ids: set<nat>, byId: seq<Recipe>, rs: seq<Recipe>)
    requires (forall x :: x in ids ==> x in t) && Distinct(byId) && |byId| == |ids|
    requires forall i :: 0 <= i < |byId| ==> byId[i].id in ids && t[byId[i].id] == byId[i]
    requires forall id :: id in ids ==> t[id] in byId
    requires rs == SortNewestFirst(byId)
    ensures ListsNewestFirst(t, ids, rs)
  {
    SortKeeps(byId);
    PermutationDistinct(byId, rs);
    SortKeepsElements(byId);
    forall i | 0 <= i < |rs| ensures rs[i].id in ids && t[rs[i].id] == rs[i] {
      assert rs[i] in byId;
    }
    forall i, j | 0 <= i < j < |rs| ensures rs[i].id != rs[j].id {
      assert rs[i] != rs[j];
      assert rs[i] in byId && rs[j] in byId;
    }
  }

  // ---------------------------------------------------------------- findAll, findById

  function Views(t: Table, rs: seq<Recipe>): (vs: seq<RecipeView>)
    ensures |vs| == |rs| && forall i :: 0 <= i < |rs| ==> vs[i] == View(t, rs[i])
  {
    if rs == [] then [] else [View(t, rs[0])] + Views(t, rs[1..])
  }

  /** The records behind a list of rows. */
  function ViewRecords(vs: seq<RecipeView>): (rs: seq<Recipe>)
    ensures |rs| == |vs| && forall i :: 0 <= i < |vs| ==> rs[i] == vs[i].recipe
  {
    if vs == [] then [] else [vs[0].recipe] + ViewRecords(vs[1..])
  }

  /** The ids of all records. */
  function AllIds(t: Table): set<nat> {
    set id | id in t
  }

  /** `findAll`: every record with its derived columns, newest first. */
  function FindAll(t: Table): seq<RecipeView>
    requires Keyed(t)
  {
    Views(t, NewestRecordsOf(t, AllIds(t)))
  }

  /** `findAll` lists every record exactly once, with its derived columns, newest first. */
  lemma FindAllLists(t: Table)
    requires Keyed(t)
    ensures ListsNewestFirst(t, AllIds(t), ViewRecords(FindAll(t)))
    ensures forall v :: v in FindAll(t) ==> v == View(t, v.recipe)
  {
    ViewsKeepRecords(t, NewestRecordsOf(t, AllIds(t)));
  }

  lemma ViewsKeepRecords(t: Table, rs: seq<Recipe>)
    ensures ViewRecords(Views(t, rs)) == rs
    ensures forall v :: v in Views(t, rs) ==> v == View(t, v.recipe)
  {
    var vs := Views(t, rs);
    assert forall i :: 0 <= i < |rs| ==> ViewRecords(vs)[i] == vs[i].recipe == rs[i];
  }

  /** `findAll` returns one row per record of the table. */
  lemma FindAllSize(t: Table)
    requires Keyed(t)
    ensures |FindAll(t)| == |t|
  {
    assert AllIds(t) == t.Keys && |t.Keys| == |t|;
  }

  /** `findById`: the record with its derived columns, or nothing. */
  function FindById(t: Table, id: nat): (r: Option<RecipeView>)
    requires Keyed(t)
    ensures r.Some? <==> id in t
    ensures r.Some? ==> r.value.recipe == t[id]
    ensures r.Some? ==> r.value.parentTitle == ParentTitle(t, t[id]) && r.value.forkCount == ForkCount(t, id)
  {
    if id in t then Some(View(t, t[id])) else None
  }

  // ---------------------------------------------------------------- getChildren

  function ForkViews(t: Table, rs: seq<Recipe>): (vs: seq<ForkView>)
    ensures |vs| == |rs| && forall i :: 0 <= i < |rs| ==> vs[i] == ForkView(rs[i], ForkCount(t, rs[i].id))
  {
    if rs == [] then [] else [ForkView(rs[0], ForkCount(t, rs[0].id))] + ForkViews(t, rs[1..])
  }

  function ForkRecords(vs: seq<ForkView>): (rs: seq<Recipe>)
    ensures |rs| == |vs| && forall i :: 0 <= i < |vs| ==> rs[i] == vs[i].recipe
  {
    if vs == [] then [] else [vs[0].recipe] + ForkRecords(vs[1..])
  }

  /** `getChildren`: the records whose `parent_id` is `id`, each with its own fork count, newest first. */
  function GetChildren(t: Table, id: nat): seq<ForkView>
    requires Keyed(t)
  {
    ForkViews(t, NewestRecordsOf(t, ChildIds(t, id)))
  }

  /** `getChildren` lists every direct fork of `id` exactly once, with its own fork count, newest first. */
  lemma GetChildrenLists(t: Table, id: nat)
    requires Keyed(t)
    ensures ListsNewestFirst(t, ChildIds(t, id), ForkRecords(GetChildren(t, id)))
    ensures forall v :: v in GetChildren(t, id) ==> v.recipe.parentId == Some(id)
    ensures forall v :: v in GetChildren(t, id) ==> v.forkCount == ForkCount(t, v.recipe.id)
  {
    var rs := NewestRecordsOf(t, ChildIds(t, id));
    ForkViewsKeepRecords(t, rs);
    forall v | v in GetChildren(t, id) ensures v.recipe.parentId == Some(id) {
      var k :| 0 <= k < |GetChildren(t, id)| && GetChildren(t, id)[k] == v;
      assert ForkRecords(GetChildren(t, id))[k] == v.recipe;
    }
  }

  lemma ForkViewsKeepRecords(t: Table, rs: seq<Recipe>)
    ensures ForkRecords(ForkViews(t, rs)) == rs
    ensures forall v :: v in ForkViews(t, rs) ==> v.forkCount == ForkCount(t, v.recipe.id)
  {
    var vs := ForkViews(t, rs);
    assert forall i :: 0 <= i < |rs| ==> ForkRecords(vs)[i] == vs[i].recipe == rs[i];
  }

  // ---------------------------------------------------------------- getChain

  /** One step of the walk keeps a line of descent that fits in the table. */
  lemma ChainStep(t: Table, acc: seq<Recipe>, p: Recipe)
    requires Keyed(t) && Acyclic(t) && IsChain(t, acc)
    requires p.id in t && t[p.id] == p
    requires acc != [] ==> acc[0].parentId == Some(p.id)
    ensures IsChain(t, [p] + acc) && |acc| < |t|
  {
    ChainCons(t, acc, p);
    ChainLength(t, [p] + acc);
  }

  /**
   * The walk of the recursive `recipe_chain` query: `acc` is what has been
   * collected so far, root-first, and `cur` the `parent_id` of its first
   * record (for an empty `acc`, the requested id).
   */
  function ChainFrom(t: Table, cur: Option<nat>, acc: seq<Recipe>): seq<Recipe>
    requires Keyed(t) && Acyclic(t) && IsChain(t, acc)
    requires acc != [] ==> acc[0].parentId == cur
    decreases |t| - |acc|
  {
    if cur.None? || cur.value !in t then
      acc
    else
      var p := t[cur.value];
      ChainStep(t, acc, p);
      ChainFrom(t, p.parentId, [p] + acc)
  }

  /** The walk only ever prepends: what was collected stays at the end. */
  lemma {:induction false} ChainFromPrefix(t: Table, cur: Option<nat>, acc: seq<Recipe>) returns (pre: seq<Recipe>)
    requires Keyed(t) && Acyclic(t) && IsChain(t, acc)
    requires acc != [] ==> acc[0].parentId == cur
    ensures ChainFrom(t, cur, acc) == pre + acc
    decreases |t| - |acc|
  {
    if cur.None? || cur.value !in t {
      pre := [];
      assert [] + acc == acc;
    } else {
      var p := t[cur.value];
      ChainStep(t, acc, p);
      var up := ChainFromPrefix(t, p.parentId, [p] + acc);
      pre := up + [p];
      assert up + ([p] + acc) == pre + acc;
    }
  }

  /** The walk yields a line of descent of the table. */
  lemma {:induction false} ChainFromIsChain(t: Table, cur: Option<nat>, acc: seq<Recipe>)
    requires Keyed(t) && Acyclic(t) && IsChain(t, acc)
    requires acc != [] ==> acc[0].parentId == cur
    ensures IsChain(t, ChainFrom(t, cur, acc))
    decreases |t| - |acc|
  {
    if cur.Some? && cur.value in t {
      var p := t[cur.value];
      ChainStep(t, acc, p);
      ChainFromIsChain(t, p.parentId, [p] + acc);
    }
  }

  /** The walk stops only where a `parent_id` names no record. */
  lemma {:induction false} ChainFromStops(t: Table, cur: Option<nat>, acc: seq<Recipe>)
    requires Keyed(t) && Acyclic(t) && IsChain(t, acc)
    requires acc != [] ==> acc[0].parentId == cur
    ensures var r := ChainFrom(t, cur, acc); r != [] ==> Lookup(t, r[0].parentId) == None
    decreases |t| - |acc|
  {
    if cur.Some? && cur.value in t {
      var p := t[cur.value];
      ChainStep(t, acc, p);
      ChainFromStops(t, p.parentId, [p] + acc);
    }
  }

  /** `getChain(id)`: the line of descent that ends at `id`, root first. */
  function Chain(t: Table, id: nat): seq<Recipe>
    requires Keyed(t) && Acyclic(t)
  {
    ChainFrom(t, Some(id), [])
  }

  /**
   * The chain is empty exactly for a missing id; otherwise it is a line of
   * descent that ends at `id` and starts at a record whose `parent_id` names
   * no record (no `parent_id` at all, once every parent exists).
   */
  lemma ChainShape(t: Table, id: nat)
    requires Keyed(t) && Acyclic(t)
    ensures var r := Chain(t, id);
      && (r == [] <==> id !in t)
      && (r != [] ==> r[|r| - 1] == t[id])
      && IsChain(t, r)
      && (r != [] ==> Lookup(t, r[0].parentId) == None)
      && (ParentsExist(t) && r != [] ==> r[0].parentId == None)
  {
    ChainFromIsChain(t, Some(id), []);
    ChainFromStops(t, Some(id), []);
    if id in t {
      var p := t[id];
      ChainStep(t, [], p);
      assert [p] + [] == [p];
      var pre := ChainFromPrefix(t, p.parentId, [p]);
    }
  }

  /** No record appears twice in a chain, which is no longer than the table. */
  lemma ChainOnce(t: Table, id: nat)
    requires Keyed(t) && Acyclic(t)
    ensures var r := Chain(t, id);
      (forall i, j :: 0 <= i < j < |r| ==> r[i].id != r[j].id) && |r| <= |t|
  {
    ChainShape(t, id);
    ChainIdsDistinct(t, Chain(t, id));
    ChainLength(t, Chain(t, id));
  }

  /**
   * The chain holds exactly the ancestors of `id`: the record `d` links
   * above `id` sits `d` places before the end, and no other record is there.
   */
  lemma ChainAncestors(t: Table, id: nat)
    requires Keyed(t) && Acyclic(t)
    ensures var r := Chain(t, id);
      forall x: nat, d: nat :: AtDistance(t, x, id, d) <==> d < |r| && r[|r| - 1 - d].id == x
  {
    var r := Chain(t, id);
    ChainShape(t, id);
    if r != [] {
      ChainDistances(t, r);
      var n := |r|;
      forall x: nat, d: nat | AtDistance(t, x, id, d) ensures d < n && r[n - 1 - d].id == x {
        if d < n {
          AncestorUnique(t, x, r[n - 1 - d].id, id, d);
        } else {
          var z := DistanceSplit(t, x, id, d, n - 1);
          AncestorUnique(t, z, r[0].id, id, n - 1);
        }
      }
    }
  }

  /** The rows of `getChain(id)`: level 1 is `id` itself, ordered by level descending. */
  function ChainRows(t: Table, id: nat): seq<ChainRow>
    requires Keyed(t) && Acyclic(t)
  {
    var c := Chain(t, id);
    seq(|c|, i requires 0 <= i < |c| => ChainRow(c[i].id, c[i].title, c[i].parentId, |c| - i))
  }

  /**
   * Each row of `getChain(id)` copies a record of the table that lies
   * `level - 1` links above `id`, and the levels descend.
   */
  lemma ChainRowsSound(t: Table, id: nat)
    requires Keyed(t) && Acyclic(t)
    ensures var rows := ChainRows(t, id);
      && (forall i :: 0 <= i < |rows| ==>
            && rows[i].id in t && rows[i].level >= 1
            && rows[i].title == t[rows[i].id].title && rows[i].parentId == t[rows[i].id].parentId
            && AtDistance(t, rows[i].id, id, rows[i].level - 1))
      && (forall i, j :: 0 <= i < j < |rows| ==> rows[i].level > rows[j].level)
  {
    ChainShape(t, id);
    ChainAncestors(t, id);
  }

  /** Every ancestor of `id`, `d` links up, has its row at level `d + 1`. */
  lemma ChainRowsComplete(t: Table, id: nat)
    requires Keyed(t) && Acyclic(t)
    ensures var rows := ChainRows(t, id);
      forall x: nat, d: nat :: AtDistance(t, x, id, d) ==>
        exists i :: 0 <= i < |rows| && rows[i].id == x && rows[i].level == d + 1
  {
    var c := Chain(t, id);
    var rows := ChainRows(t, id);
    ChainAncestors(t, id);
    forall x: nat, d: nat | AtDistance(t, x, id, d)
      ensures exists i :: 0 <= i < |rows| && rows[i].id == x && rows[i].level == d + 1
    {
      assert rows[|c| - 1 - d].id == x;
    }
  }

  // ---------------------------------------------------------------- getTree

  function TreeRowOf(r: Recipe, depth: nat): TreeRow {
    TreeRow(r.id, r.title, r.parentId, r.ingredients, r.author, depth)
  }

  /** `ORDER BY depth, id`. */
  predicate RowBefore(a: TreeRow, b: TreeRow) {
    a.depth < b.depth || (a.depth == b.depth && a.id < b.id)
  }

  /** The records whose parent is in `level`: the recursive step of `recipe_tree`. */
  function ChildrenOf(t: Table, level: set<nat>): set<nat> {
    set x | x in t && t[x].parentId.Some? && t[x].parentId.value in level
  }

  /** `level` is exactly the set of records `depth` links below `root`. */
  ghost predicate IsLevel(t: Table, root: nat, level: set<nat>, depth: nat) {
    forall x :: x in level <==> AtDistance(t, root, x, depth)
  }

  lemma NextLevel(t: Table, root: nat, level: set<nat>, depth: nat)
    requires IsLevel(t, root, level, depth)
    ensures IsLevel(t, root, ChildrenOf(t, level), depth + 1)
  {
  }

  lemma LevelBound(t: Table, root: nat, level: set<nat>, depth: nat)
    requires Keyed(t) && Acyclic(t) && IsLevel(t, root, level, depth) && level != {}
    ensures depth < |t|
  {
    var x :| x in level;
    DistanceBound(t, root, x, depth);
  }

  lemma EmptyLevelEnds(t: Table, root: nat, depth: nat)
    requires IsLevel(t, root, {}, depth)
    ensures forall x: nat, d: nat :: d >= depth ==> !AtDistance(t, root, x, d)
  {
    forall x: nat, d: nat | d >= depth ensures !AtDistance(t, root, x, d) {
      if AtDistance(t, root, x, d) {
        var z := DistanceSplit(t, root, x, d, d - depth);
      }
    }
  }

  function RowsAt(rs: seq<Recipe>, depth: nat): (rows: seq<TreeRow>)
    ensures |rows| == |rs| && forall i :: 0 <= i < |rs| ==> rows[i] == TreeRowOf(rs[i], depth)
  {
    if rs == [] then [] else [TreeRowOf(rs[0], depth)] + RowsAt(rs[1..], depth)
  }

  /** The rows of one level at the given depth, in ascending id order. */
  function LevelRows(t: Table, level: set<nat>, depth: nat): (rows: seq<TreeRow>)
    requires Keyed(t) && forall x :: x in level ==> x in t
    ensures forall i :: 0 <= i < |rows| ==>
      rows[i].id in level && rows[i].depth == depth && rows[i] == TreeRowOf(t[rows[i].id], depth)
    ensures forall x :: x in level ==> TreeRowOf(t[x], depth) in rows
    ensures RowsSorted(rows)
  {
    var ids := SortedIds(level);
    var rows := RowsAt(RecordsAt(t, ids), depth);
    LevelRowsProps(t, level, ids, rows, depth);
    rows
  }

  lemma LevelRowsProps(t: Table, level: set<nat>, ids: seq<nat>, rows: seq<TreeRow>, depth: nat)
    requires Keyed(t) && Ascending(ids) && forall x :: x in ids <==> x in level
    requires forall x :: x in level ==> x in t
    requires |rows| == |ids| && forall i :: 0 <= i < |ids| ==> rows[i] == TreeRowOf(t[ids[i]], depth)
    ensures forall i :: 0 <= i < |rows| ==>
      rows[i].id in level && rows[i].depth == depth && rows[i] == TreeRowOf(t[rows[i].id], depth)
    ensures forall x :: x in level ==> TreeRowOf(t[x], depth) in rows
    ensures RowsSorted(rows)
  {
    forall i | 0 <= i < |rows| ensures rows[i].id == ids[i] {
      assert t[ids[i]].id == ids[i];
    }
    forall x | x in level ensures TreeRowOf(t[x], depth) in rows {
      assert rows[IndexOf(ids, x)] == TreeRowOf(t[x], depth);
    }
  }

  /** Rows in `ORDER BY depth, id` order. */
  ghost predicate RowsSorted(rows: seq<TreeRow>) {
    forall i, j :: 0 <= i < j < |rows| ==> RowBefore(rows[i], rows[j])
  }

  /** Every row is a record of the table at its stated distance, at least `depth`, below `root`. */
  ghost predicate RowsSound(t: Table, root: nat, rows: seq<TreeRow>, depth: nat) {
    forall i :: 0 <= i < |rows| ==>
      && rows[i].depth >= depth && rows[i].id in t
      && AtDistance(t, root, rows[i].id, rows[i].depth)
      && rows[i] == TreeRowOf(t[rows[i].id], rows[i].depth)
  }

  /** Every record at least `depth` links below `root` has its row. */
  ghost predicate RowsComplete(t: Table, root: nat, rows: seq<TreeRow>, depth: nat) {
    forall x: nat, d: nat :: d >= depth && AtDistance(t, root, x, d) ==> x in t && TreeRowOf(t[x], d) in rows
  }

  /**
   * The level-order expansion of `recipe_tree` from the records of `level`,
   * which lie `depth` links below the root. It gives up after as many levels
   * as the table has records; on an acyclic table no record lies that deep
   * (see `TreeFromComplete`).
   */
  function TreeFrom(t: Table, level: set<nat>, depth: nat): (rows: seq<TreeRow>)
    requires Keyed(t) && forall x :: x in level ==> x in t
    ensures RowsSorted(rows) && forall i :: 0 <= i < |rows| ==> rows[i].depth >= depth
    decreases |t| - depth
  {
    if level == {} || |t| <= depth then []
    else
      var here := LevelRows(t, level, depth);
      var below := TreeFrom(t, ChildrenOf(t, level), depth + 1);
      SortedConcat(here, below, depth);
      here + below
  }

  lemma SortedConcat(here: seq<TreeRow>, below: seq<TreeRow>, depth: nat)
    requires RowsSorted(here) && RowsSorted(below)
    requires forall i :: 0 <= i < |here| ==> here[i].depth == depth
    requires forall i :: 0 <= i < |below| ==> below[i].depth > depth
    ensures RowsSorted(here + below)
    ensures forall i :: 0 <= i < |here + below| ==> (here + below)[i].depth >= depth
  {
  }

  /** Every row of the expansion is a record at its stated distance below `root`. */
  lemma {:induction false} TreeFromSound(t: Table, root: nat, level: set<nat>, depth: nat)
    requires Keyed(t) && IsLevel(t, root, level, depth)
    ensures RowsSound(t, root, TreeFrom(t, level, depth), depth)
    decreases |t| - depth
  {
    if level != {} && depth < |t| {
      NextLevel(t, root, level, depth);
      TreeFromSound(t, root, ChildrenOf(t, level), depth + 1);
      LevelRowsSound(t, root, level, depth);
      SoundConcat(t, root, LevelRows(t, level, depth), TreeFrom(t, ChildrenOf(t, level), depth + 1), depth);
    }
  }

  lemma LevelRowsSound(t: Table, root: nat, level: set<nat>, depth: nat)
    requires Keyed(t) && IsLevel(t, root, level, depth)
    ensures var here := LevelRows(t, level, depth);
      forall i :: 0 <= i < |here| ==>
        here[i].depth == depth && here[i].id in t && AtDistance(t, root, here[i].id, depth)
        && here[i] == TreeRowOf(t[here[i].id], depth)
  {
  }

  lemma SoundConcat(t: Table, root: nat, here: seq<TreeRow>, below: seq<TreeRow>, depth: nat)
    requires forall i :: 0 <= i < |here| ==>
      here[i].depth == depth && here[i].id in t && AtDistance(t, root, here[i].id, depth)
      && here[i] == TreeRowOf(t[here[i].id], depth)
    requires RowsSound(t, root, below, depth + 1)
    ensures RowsSound(t, root, here + below, depth)
  {
    assert forall i :: 0 <= i < |here + below| ==>
      (here + below)[i] == if i < |here| then here[i] else below[i - |here|];
  }

  /** Every record at or below the current depth has its row in the expansion. */
  lemma {:induction false} TreeFromComplete(t: Table, root: nat, level: set<nat>, depth: nat)
    requires Keyed(t) && Acyclic(t) && IsLevel(t, root, level, depth)
    ensures RowsComplete(t, root, TreeFrom(t, level, depth), depth)
    decreases |t| - depth
  {
    if level == {} {
      EmptyLevelEnds(t, root, depth);
    } else {
      LevelBound(t, root, level, depth);
      NextLevel(t, root, level, depth);
      TreeFromComplete(t, root, ChildrenOf(t, level), depth + 1);
      CompleteConcat(t, root, LevelRows(t, level, depth), TreeFrom(t, ChildrenOf(t, level), depth + 1), depth);
    }
  }

  lemma CompleteConcat(t: Table, root: nat, here: seq<TreeRow>, below: seq<TreeRow>, depth: nat)
    requires forall x: nat :: AtDistance(t, root, x, depth) ==> x in t && TreeRowOf(t[x], depth) in here
    requires RowsComplete(t, root, below, depth + 1)
    ensures RowsComplete(t, root, here + below, depth)
  {
  }

  /** `getTree(rootId)`: level-order expansion from `rootId` at depth 0. */
  function GetTree(t: Table, rootId: nat): seq<TreeRow>
    requires Keyed(t)
  {
    TreeFrom(t, if rootId in t then {rootId} else {}, 0)
  }

  /**
   * `getTree(rootId)` holds exactly the records below `rootId`, each once,
   * at its distance from `rootId`, ordered by depth and then id; it is empty
   * exactly when `rootId` names no record.
   */
  lemma GetTreeRows(t: Table, rootId: nat)
    requires Keyed(t) && Acyclic(t)
    ensures var rows := GetTree(t, rootId);
      && (forall i :: 0 <= i < |rows| ==>
            rows[i].id in t && rows[i] == TreeRowOf(t[rows[i].id], rows[i].depth)
            && AtDistance(t, rootId, rows[i].id, rows[i].depth))
      && (forall x: nat, d: nat :: AtDistance(t, rootId, x, d) ==> TreeRowOf(t[x], d) in rows)
      && (forall i, j :: 0 <= i < j < |rows| ==> RowBefore(rows[i], rows[j]))
      && (forall i, j :: 0 <= i < j < |rows| ==> rows[i].id != rows[j].id)
      && (rows == [] <==> rootId !in t)
  {
    var level := if rootId in t then {rootId} else {};
    var rows := GetTree(t, rootId);
    TreeFromSound(t, rootId, level, 0);
    TreeFromComplete(t, rootId, level, 0);
    if rootId in t {
      assert AtDistance(t, rootId, rootId, 0);
    }
    forall i, j | 0 <= i < j < |rows| ensures rows[i].id != rows[j].id {
      if rows[i].id == rows[j].id {
        DistanceUnique(t, rootId, rows[i].id, rows[i].depth, rows[j].depth);
      }
    }
  }

  /** Every row below the root has its parent's row earlier in the result, one level up. */
  lemma TreeParentsListed(t: Table, rootId: nat)
    requires Keyed(t) && Acyclic(t)
    ensures var rows := GetTree(t, rootId);
      forall i :: 0 <= i < |rows| && rows[i].depth > 0 ==>
        rows[i].parentId.Some? &&
        exists j :: 0 <= j < i && rows[j].id == rows[i].parentId.value && rows[j].depth == rows[i].depth - 1
  {
    var rows := GetTree(t, rootId);
    GetTreeRows(t, rootId);
    forall i | 0 <= i < |rows| && rows[i].depth > 0
      ensures rows[i].parentId.Some? &&
        exists j :: 0 <= j < i && rows[j].id == rows[i].parentId.value && rows[j].depth == rows[i].depth - 1
    {
      var x := rows[i].id;
      var p := t[x].parentId.value;
      assert AtDistance(t, rootId, p, rows[i].depth - 1);
      var j :| 0 <= j < |rows| && rows[j] == TreeRowOf(t[p], rows[i].depth - 1);
    }
  }
}
