/**
 The task table and the forest its `parent_task_id` column forms.

 A table maps ids to rows, as the primary key does. `Ancestor` follows the parent
 column a given number of times; everything else about the shape of the forest
 (cycles, subtrees, depth) is said in terms of it.
 */
module Forest {

  /** A uuid. PostgreSQL orders uuids bytewise, so their numeric value orders them too. */
  type Id = nat

  /**
   An id as a request writes it. The hexadecimal letters of a uuid may be upper or lower case:
   PostgreSQL takes every spelling for the same id and prints number 0, all lower case, while
   the services compare the text itself.
   */
  datatype IdText = IdText(id: Id, spelling: nat) {
    predicate AsStored() {
      spelling == 0
    }
  }

  /** The id as PostgreSQL prints it. */
  function Stored(id: Id): IdText {
    IdText(id, 0)
  }

  datatype Option<+T> = None | Some(value: T) {
    function GetOr(default: T): T {
      if Some? then value else default
    }
  }

  datatype Status = TODO | IN_PROGRESS | BLOCKED | DONE | CANCELLED

  datatype Priority = LOW | MEDIUM | HIGH | URGENT

  datatype Task = Task(
    projectId: Id,
    parent: Option<Id>,
    title: string,
    description: Option<string>,
    status: Status,
    priority: Priority,
    assignee: Option<Id>,
    createdBy: Id,
    dueDate: Option<int>,
    completedAt: Option<int>,
    createdAt: int)

  type Table = map<Id, Task>

  /** The row reached from `x` by following the parent column `k` times. */
  function Ancestor(t: Table, x: Id, k: nat): Option<Id>
    decreases k
  {
    if x !in t then None
    else if k == 0 then Some(x)
    else match t[x].parent
      case None => None
      case Some(p) => Ancestor(t, p, k - 1)
  }

  /** Every parent is a row of its child's project. */
  ghost predicate ParentsInProject(t: Table) {
    forall x {:trigger t[x].parent} :: x in t && t[x].parent.Some? ==>
      t[x].parent.value in t && t[t[x].parent.value].projectId == t[x].projectId
  }

  /** No row is its own proper ancestor. */
  ghost predicate NoCycle(t: Table) {
    forall x, k: nat :: x in t && k > 0 ==> Ancestor(t, x, k) != Some(x)
  }

  ghost predicate IsForest(t: Table) {
    ParentsInProject(t) && NoCycle(t)
  }

  /** `x` is `root` or one of its descendants. */
  ghost predicate InSubtree(t: Table, root: Id, x: Id) {
    exists k: nat :: Ancestor(t, x, k) == Some(root)
  }

  ghost function Subtree(t: Table, root: Id): set<Id> {
    set x | x in t && InSubtree(t, root, x)
  }

  // ---------------------------------------------------------------------------
  // Ranks: a numbering that grows from parent to child. A table has one exactly
  // when it has no cycle; the rank is what recursion over the forest decreases.

  ghost predicate Ranks(t: Table, rank: map<Id, nat>) {
    && rank.Keys == t.Keys
    && forall x {:trigger t[x].parent} :: x in t && t[x].parent.Some? && t[x].parent.value in t ==>
      rank[t[x].parent.value] < rank[x]
  }

  lemma {:induction false} RankFalls(t: Table, rank: map<Id, nat>, x: Id, k: nat)
    requires Ranks(t, rank) && Ancestor(t, x, k).Some?
    ensures x in t && Ancestor(t, x, k).value in t
    ensures rank[Ancestor(t, x, k).value] + k <= rank[x]
    decreases k
  {
    if k > 0 {
      RankFalls(t, rank, t[x].parent.value, k - 1);
    }
  }

  lemma RankedHasNoCycle(t: Table, rank: map<Id, nat>)
    requires Ranks(t, rank)
    ensures NoCycle(t)
  {
    forall x, k: nat | x in t && k > 0
      ensures Ancestor(t, x, k) != Some(x)
    {
      if Ancestor(t, x, k).Some? {
        RankFalls(t, rank, x, k);
      }
    }
  }

  /** The rows on the way from `x` to its `n`-th ancestor. */
  ghost function Chain(t: Table, x: Id, n: nat): set<Id>
    requires Ancestor(t, x, n).Some?
    decreases n
  {
    if n == 0 then {x} else {x} + Chain(t, t[x].parent.value, n - 1)
  }

  lemma {:induction false} ChainMember(t: Table, x: Id, n: nat, y: Id) returns (k: nat)
    requires Ancestor(t, x, n).Some? && y in Chain(t, x, n)
    ensures Ancestor(t, x, k) == Some(y)
    decreases n
  {
    if y == x {
      k := 0;
    } else {
      var j := ChainMember(t, t[x].parent.value, n - 1, y);
      k := j + 1;
    }
  }

  ghost predicate OnCycle(t: Table, x: Id) {
    exists k: nat :: k > 0 && Ancestor(t, x, k) == Some(x)
  }

  /** What lies above a row on a cycle lies on the cycle. */
  lemma CycleGoesUp(t: Table, x: Id, c: nat, n: nat)
    requires c > 0 && Ancestor(t, x, c) == Some(x) && Ancestor(t, x, n).Some?
    ensures OnCycle(t, Ancestor(t, x, n).value)
  {
    AncestorAdd(t, x, c, n);
    AncestorAdd(t, x, n, c);
    assert Ancestor(t, Ancestor(t, x, n).value, c) == Ancestor(t, x, n);
  }

  /** Two distances to the same row lie a cycle apart. */
  lemma TwoDistances(t: Table, root: Id, x: Id, j: nat, k: nat)
    requires j < k && Ancestor(t, x, j) == Some(root) && Ancestor(t, x, k) == Some(root)
    ensures OnCycle(t, root)
  {
    AncestorAdd(t, x, j, k - j);
    assert Ancestor(t, root, k - j) == Some(root);
  }

  /** So a row is found at one distance only below a row that is on no cycle. */
  lemma OneDistance(t: Table, root: Id, x: Id, j: nat, k: nat)
    requires !OnCycle(t, root) && Ancestor(t, x, j) == Some(root) && Ancestor(t, x, k) == Some(root)
    ensures j == k
  {
    if j < k {
      TwoDistances(t, root, x, j, k);
    } else if k < j {
      TwoDistances(t, root, x, k, j);
    }
  }

  /** What lies below a row that is on no cycle is on none. */
  lemma BelowOffCycle(t: Table, root: Id, x: Id, k: nat)
    requires !OnCycle(t, root) && Ancestor(t, x, k) == Some(root)
    ensures !OnCycle(t, x)
  {
    if OnCycle(t, x) {
      var c: nat :| c > 0 && Ancestor(t, x, c) == Some(x);
      CycleGoesUp(t, x, c, k);
      assert false;
    }
  }

  /** A chain that ends off every cycle repeats no row. */
  lemma {:induction false} ChainSize(t: Table, x: Id, n: nat)
    requires Ancestor(t, x, n).Some? && !OnCycle(t, Ancestor(t, x, n).value)
    ensures |Chain(t, x, n)| == n + 1
    ensures Chain(t, x, n) <= t.Keys
    decreases n
  {
    if n > 0 {
      var p := t[x].parent.value;
      ChainSize(t, p, n - 1);
      if x in Chain(t, p, n - 1) {
        var j := ChainMember(t, p, n - 1, x);
        CycleGoesUp(t, x, j + 1, n);
        assert false;
      }
    }
  }

  lemma SubsetSize<T>(a: set<T>, b: set<T>)
    requires a <= b
    ensures |a| <= |b|
  {
    assert b == a + (b - a);
  }

  /** So it has no more rows than the table. */
  lemma LongChainMeetsCycle(t: Table, x: Id, n: nat)
    requires n >= |t| && Ancestor(t, x, n).Some?
    ensures OnCycle(t, Ancestor(t, x, n).value)
  {
    if !OnCycle(t, Ancestor(t, x, n).value) {
      ChainSize(t, x, n);
      SubsetSize(Chain(t, x, n), t.Keys);
      assert false;
    }
  }

  lemma BelowIsShort(t: Table, root: Id, x: Id, k: nat)
    requires !OnCycle(t, root) && Ancestor(t, x, k) == Some(root)
    ensures k < |t|
  {
    if k >= |t| {
      LongChainMeetsCycle(t, x, k);
      assert false;
    }
  }

  /** Without cycles no chain of parents has more rows than the table. */
  lemma ChainIsShort(t: Table, x: Id, n: nat)
    requires NoCycle(t) && n >= |t|
    ensures Ancestor(t, x, n).None?
  {
    if Ancestor(t, x, n).Some? {
      LongChainMeetsCycle(t, x, n);
      assert false;
    }
  }

  /** Parent steps possible from `x`, counting at most `n`. */
  ghost function Steps(t: Table, x: Id, n: nat): nat
    decreases n
  {
    if n == 0 || x !in t || t[x].parent.None? then 0 else 1 + Steps(t, t[x].parent.value, n - 1)
  }

  lemma {:induction false} StepsSettle(t: Table, x: Id, n: nat)
    requires Ancestor(t, x, n).None?
    ensures Steps(t, x, n) == Steps(t, x, n + 1)
    decreases n
  {
    if n > 0 && x in t && t[x].parent.Some? {
      StepsSettle(t, t[x].parent.value, n - 1);
    }
  }

  lemma NoCycleIsRanked(t: Table)
    requires NoCycle(t)
    ensures exists rank :: Ranks(t, rank)
  {
    var n := |t|;
    var rank := map x | x in t :: Steps(t, x, n);
    forall x | x in t && t[x].parent.Some? && t[x].parent.value in t
      ensures rank[t[x].parent.value] < rank[x]
    {
      var p := t[x].parent.value;
      assert |t| > 0;
      ChainIsShort(t, x, n);
      assert Ancestor(t, p, n - 1).None?;
      StepsSettle(t, p, n - 1);
    }
    assert Ranks(t, rank);
  }

  ghost function Rank(t: Table): (rank: map<Id, nat>)
    requires NoCycle(t)
    ensures Ranks(t, rank)
  {
    NoCycleIsRanked(t);
    var rank :| Ranks(t, rank);
    rank
  }

  // ---------------------------------------------------------------------------
  // Depth

  /** Distance from the top of the tree `x` is in (a task without parent has depth 0). */
  ghost function Depth(t: Table, x: Id): nat
    requires IsForest(t) && x in t
    decreases Rank(t)[x]
  {
    match t[x].parent
    case None => 0
    case Some(p) => 1 + Depth(t, p)
  }

  /** The ancestors of `x` are exactly those `0..Depth` steps up, and depth counts them down. */
  lemma {:induction false} DepthOfAncestor(t: Table, x: Id, k: nat)
    requires IsForest(t) && x in t
    ensures Ancestor(t, x, k).Some? <==> k <= Depth(t, x)
    ensures Ancestor(t, x, k).Some? ==>
      Ancestor(t, x, k).value in t && Depth(t, Ancestor(t, x, k).value) == Depth(t, x) - k
    decreases k
  {
    if k > 0 && t[x].parent.Some? {
      DepthOfAncestor(t, t[x].parent.value, k - 1);
    }
  }

  lemma {:induction false} AncestorAdd(t: Table, x: Id, j: nat, k: nat)
    requires Ancestor(t, x, j).Some?
    ensures Ancestor(t, x, j + k) == Ancestor(t, Ancestor(t, x, j).value, k)
    decreases j
  {
    if j > 0 {
      AncestorAdd(t, t[x].parent.value, j - 1, k);
    }
  }

  lemma InSubtreeSelf(t: Table, root: Id)
    requires root in t
    ensures InSubtree(t, root, root)
  {
    assert Ancestor(t, root, 0) == Some(root);
  }

  /** A subtree is its root and the rows whose parent is in it. */
  lemma InSubtreeParent(t: Table, root: Id, x: Id)
    requires x in t && x != root
    ensures InSubtree(t, root, x) <==> t[x].parent.Some? && InSubtree(t, root, t[x].parent.value)
  {
    if t[x].parent.Some? {
      var p := t[x].parent.value;
      if InSubtree(t, root, x) {
        var k: nat :| Ancestor(t, x, k) == Some(root);
        assert Ancestor(t, p, k - 1) == Some(root);
      }
      if InSubtree(t, root, p) {
        var k: nat :| Ancestor(t, p, k) == Some(root);
        assert Ancestor(t, x, k + 1) == Some(root);
      }
    }
  }

  /** In a forest the number of steps from a row up to an ancestor is unique. */
  lemma AncestorDistance(t: Table, root: Id, x: Id, k: nat)
    requires IsForest(t) && Ancestor(t, x, k) == Some(root)
    ensures x in t && root in t
    ensures k == Depth(t, x) - Depth(t, root)
  {
    assert x in t;
    DepthOfAncestor(t, x, k);
  }

  lemma InSubtreeDeeper(t: Table, root: Id, x: Id)
    requires IsForest(t) && InSubtree(t, root, x)
    ensures x in t && root in t && Depth(t, x) >= Depth(t, root)
    ensures Ancestor(t, x, Depth(t, x) - Depth(t, root)) == Some(root)
  {
    var k: nat :| Ancestor(t, x, k) == Some(root);
    AncestorDistance(t, root, x, k);
  }

  // ---------------------------------------------------------------------------
  // Inserting a row

  /** A new id with a parent of its own project, or none, keeps the forest and every depth in it. */
  lemma InsertKeepsForest(t: Table, id: Id, row: Task)
    requires IsForest(t) && id !in t
    requires row.parent.Some? ==> row.parent.value in t && t[row.parent.value].projectId == row.projectId
    ensures IsForest(t[id := row])
    ensures forall x :: x in t ==> Depth(t[id := row], x) == Depth(t, x)
    ensures Depth(t[id := row], id) == if row.parent.Some? then Depth(t, row.parent.value) + 1 else 0
  {
    InsertIsForest(t, id, row);
    forall x | x in t ensures Depth(t[id := row], x) == Depth(t, x) {
      InsertKeepsDepth(t, id, row, x);
    }
  }

  lemma InsertIsForest(t: Table, id: Id, row: Task)
    requires IsForest(t) && id !in t
    requires row.parent.Some? ==> row.parent.value in t && t[row.parent.value].projectId == row.projectId
    ensures IsForest(t[id := row])
  {
    var t' := t[id := row];
    var was := Rank(t);
    var rank := was[id := if row.parent.Some? then was[row.parent.value] + 1 else 0];
    assert Ranks(t', rank);
    RankedHasNoCycle(t', rank);
  }

  lemma {:induction false} InsertKeepsDepth(t: Table, id: Id, row: Task, x: Id)
    requires IsForest(t) && id !in t && IsForest(t[id := row]) && x in t
    ensures Depth(t[id := row], x) == Depth(t, x)
    decreases Depth(t, x)
  {
    if t[x].parent.Some? {
      InsertKeepsDepth(t, id, row, t[x].parent.value);
    }
  }

  /** A created task changes the ancestors of no other. */
  lemma {:induction false} InsertKeepsAncestor(t: Table, id: Id, row: Task, x: Id, k: nat)
    requires ParentsInProject(t) && id !in t && x in t
    ensures Ancestor(t[id := row], x, k) == Ancestor(t, x, k)
    decreases k
  {
    if k > 0 && t[x].parent.Some? {
      InsertKeepsAncestor(t, id, row, t[x].parent.value, k - 1);
    }
  }

  // ---------------------------------------------------------------------------
  // Changing a parent

  function Reparent(t: Table, id: Id, parent: Option<Id>): Table
    requires id in t
  {
    t[id := t[id].(parent := parent)]
  }

  /** `parent` may become the parent of `id` without leaving the project or closing a cycle. */
  ghost predicate ParentFits(t: Table, id: Id, parent: Option<Id>) {
    parent.Some? ==>
      && id in t && parent.value in t
      && t[parent.value].projectId == t[id].projectId
      && !InSubtree(t, id, parent.value)
  }

  /** The depth of a task placed under `parent`. */
  ghost function DepthUnder(t: Table, parent: Option<Id>): nat
    requires IsForest(t) && (parent.Some? ==> parent.value in t)
  {
    if parent.Some? then Depth(t, parent.value) + 1 else 0
  }

  /** The depth of `x` once `id` has been moved under `parent`. */
  ghost function DepthAfterMove(t: Table, id: Id, parent: Option<Id>, x: Id): int
    requires IsForest(t) && id in t && x in t && (parent.Some? ==> parent.value in t)
  {
    if InSubtree(t, id, x) then Depth(t, x) - Depth(t, id) + DepthUnder(t, parent) else Depth(t, x)
  }

  /**
   Re-parenting under a fitting parent keeps the forest; it shifts the depth of the moved
   subtree by one common amount, keeps every other depth, and keeps which rows the subtree has.
   */
  lemma ReparentKeepsForest(t: Table, id: Id, parent: Option<Id>)
    requires IsForest(t) && id in t && ParentFits(t, id, parent)
    ensures IsForest(Reparent(t, id, parent))
    ensures forall x :: x in t ==> Depth(Reparent(t, id, parent), x) == DepthAfterMove(t, id, parent, x)
    ensures forall x :: x in t ==> (InSubtree(Reparent(t, id, parent), id, x) <==> InSubtree(t, id, x))
  {
    ReparentIsForest(t, id, parent);
    forall x | x in t
      ensures Depth(Reparent(t, id, parent), x) == DepthAfterMove(t, id, parent, x)
      ensures InSubtree(Reparent(t, id, parent), id, x) <==> InSubtree(t, id, x)
    {
      ReparentDepth(t, id, parent, x);
    }
  }

  lemma ReparentIsForest(t: Table, id: Id, parent: Option<Id>)
    requires IsForest(t) && id in t && ParentFits(t, id, parent)
    ensures IsForest(Reparent(t, id, parent))
  {
    var t' := Reparent(t, id, parent);
    var was := Rank(t);
    var shift := if parent.Some? then was[parent.value] + 1 else 0;
    var rank := map x | x in t' :: if InSubtree(t, id, x) then was[x] + shift else was[x];
    InSubtreeSelf(t, id);
    forall x | x in t' && t'[x].parent.Some? && t'[x].parent.value in t'
      ensures rank[t'[x].parent.value] < rank[x]
    {
      if x != id {
        InSubtreeParent(t, id, x);
        assert t'[x].parent == t[x].parent && was[t[x].parent.value] < was[x];
      }
    }
    assert Ranks(t', rank);
    RankedHasNoCycle(t', rank);
  }

  /** A change of parent keeps the forest exactly if the new parent does not lie below the task. */
  lemma ReparentForestIff(t: Table, id: Id, parent: Id)
    requires IsForest(t) && id in t && parent in t && t[parent].projectId == t[id].projectId
    ensures IsForest(Reparent(t, id, Some(parent))) <==> !InSubtree(t, id, parent)
    ensures InSubtree(t, id, parent) ==> OnCycle(Reparent(t, id, Some(parent)), id)
  {
    if InSubtree(t, id, parent) {
      var k: nat :| Ancestor(t, parent, k) == Some(id);
      PathStays(t, id, Some(parent), parent, k);
      assert Ancestor(Reparent(t, id, Some(parent)), id, k + 1) == Some(id);
    } else {
      ReparentIsForest(t, id, Some(parent));
    }
  }

  /** The way up to `id` does not depend on the parent of `id`. */
  lemma {:induction false} PathStays(t: Table, id: Id, parent: Option<Id>, x: Id, k: nat)
    requires IsForest(t) && id in t && Ancestor(t, x, k) == Some(id)
    ensures Ancestor(Reparent(t, id, parent), x, k) == Some(id)
    decreases k
  {
    if k > 0 {
      assert x != id;
      PathStays(t, id, parent, t[x].parent.value, k - 1);
    }
  }

  /** Nor does the way up from a row that is not below `id`. */
  lemma {:induction false} PathElsewhereStays(t: Table, id: Id, parent: Option<Id>, x: Id, k: nat)
    requires id in t && !InSubtree(t, id, x)
    ensures Ancestor(Reparent(t, id, parent), x, k) == Ancestor(t, x, k)
    decreases k
  {
    if x in t {
      InSubtreeSelf(t, id);
      if k > 0 && t[x].parent.Some? {
        InSubtreeParent(t, id, x);
        PathElsewhereStays(t, id, parent, t[x].parent.value, k - 1);
      }
    }
  }

  lemma {:induction false} ReparentDepth(t: Table, id: Id, parent: Option<Id>, x: Id)
    requires IsForest(t) && id in t && ParentFits(t, id, parent) && x in t
    requires IsForest(Reparent(t, id, parent))
    ensures Depth(Reparent(t, id, parent), x) == DepthAfterMove(t, id, parent, x)
    ensures InSubtree(Reparent(t, id, parent), id, x) <==> InSubtree(t, id, x)
    decreases Rank(Reparent(t, id, parent))[x]
  {
    var t' := Reparent(t, id, parent);
    if x == id {
      InSubtreeSelf(t, id);
      InSubtreeSelf(t', id);
      if parent.Some? {
        ReparentDepth(t, id, parent, parent.value);
      }
    } else {
      InSubtreeParent(t, id, x);
      InSubtreeParent(t', id, x);
      if t[x].parent.Some? {
        ReparentDepth(t, id, parent, t[x].parent.value);
      }
    }
  }

  // ---------------------------------------------------------------------------
  // Deleting a row: ON DELETE CASCADE on the parent column

  /** Deletes the rows `gone`, then the rows left without their parent, and so on. */
  function CascadeDelete(t: Table, gone: set<Id>): Table
    requires gone <= t.Keys
    decreases |t|
  {
    if gone == {} then t
    else
      var rest := t - gone;
      SizeFalls(t, gone);
      CascadeDelete(rest, Orphans(rest, gone))
  }

  function Orphans(rest: Table, gone: set<Id>): set<Id> {
    set x | x in rest && rest[x].parent.Some? && rest[x].parent.value in gone
  }

  lemma SizeFalls(t: Table, gone: set<Id>)
    requires gone <= t.Keys && gone != {}
    ensures |t - gone| < |t|
  {
    var rest := t - gone;
    assert rest.Keys == t.Keys - gone;
    assert |t.Keys| == |t.Keys - gone| + |gone|;
  }

  /** Some ancestor of `x` (or `x` itself) is in `gone`. */
  ghost predicate Under(t: Table, gone: set<Id>, x: Id) {
    exists k: nat :: Ancestor(t, x, k).Some? && Ancestor(t, x, k).value in gone
  }

  lemma {:induction false} AncestorInRest(t: Table, gone: set<Id>, x: Id, k: nat)
    requires Ancestor(t - gone, x, k).Some?
    ensures Ancestor(t, x, k) == Ancestor(t - gone, x, k)
    decreases k
  {
    if k > 0 {
      AncestorInRest(t, gone, t[x].parent.value, k - 1);
    }
  }

  lemma {:induction false} UnderSurvivor(t: Table, gone: set<Id>, x: Id, k: nat)
    requires gone <= t.Keys && x !in gone
    requires Ancestor(t, x, k).Some? && Ancestor(t, x, k).value in gone
    ensures x in t - gone && Under(t - gone, Orphans(t - gone, gone), x)
    decreases k
  {
    var rest := t - gone;
    var p := t[x].parent.value;
    if p in gone {
      assert Ancestor(rest, x, 0) == Some(x);
    } else {
      UnderSurvivor(t, gone, p, k - 1);
      var j: nat :| Ancestor(rest, p, j).Some? && Ancestor(rest, p, j).value in Orphans(rest, gone);
      assert Ancestor(rest, x, j + 1) == Ancestor(rest, p, j);
    }
  }

  lemma UnderOrphan(t: Table, gone: set<Id>, x: Id)
    requires gone <= t.Keys && Under(t - gone, Orphans(t - gone, gone), x)
    ensures Under(t, gone, x)
  {
    var rest := t - gone;
    var k: nat :| Ancestor(rest, x, k).Some? && Ancestor(rest, x, k).value in Orphans(rest, gone);
    AncestorInRest(t, gone, x, k);
    var y := Ancestor(rest, x, k).value;
    AncestorAdd(t, x, k, 1);
    assert Ancestor(t, t[y].parent.value, 0) == Some(t[y].parent.value);
    assert Ancestor(t, y, 1) == Some(t[y].parent.value);
  }

  /** The cascade removes exactly the rows that have an ancestor among the deleted ones. */
  lemma {:induction false} CascadeExact(t: Table, gone: set<Id>)
    requires gone <= t.Keys
    ensures CascadeDelete(t, gone) == map x | x in t && !Under(t, gone, x) :: t[x]
    decreases |t|
  {
    if gone != {} {
      var rest := t - gone;
      SizeFalls(t, gone);
      CascadeExact(rest, Orphans(rest, gone));
      forall x | x in t
        ensures Under(t, gone, x) <==> (x in gone || Under(rest, Orphans(rest, gone), x))
      {
        if x in gone {
          assert Ancestor(t, x, 0) == Some(x);
        } else if Under(t, gone, x) {
          var k: nat :| Ancestor(t, x, k).Some? && Ancestor(t, x, k).value in gone;
          UnderSurvivor(t, gone, x, k);
        } else if Under(rest, Orphans(rest, gone), x) {
          UnderOrphan(t, gone, x);
        }
      }
    }
  }

  /** Deleting one task deletes exactly its subtree. */
  lemma RemoveIsSubtree(t: Table, id: Id)
    requires id in t
    ensures CascadeDelete(t, {id}) == t - Subtree(t, id)
  {
    CascadeExact(t, {id});
    forall x | x in t ensures Under(t, {id}, x) <==> InSubtree(t, id, x) {
      if Under(t, {id}, x) {
        var k: nat :| Ancestor(t, x, k).Some? && Ancestor(t, x, k).value in {id};
        assert Ancestor(t, x, k) == Some(id);
      }
      if InSubtree(t, id, x) {
        var k: nat :| Ancestor(t, x, k) == Some(id);
        assert Ancestor(t, x, k).value in {id};
      }
    }
  }

  /** What is left after deleting a subtree is a forest with unchanged depths. */
  lemma RemoveKeepsForest(t: Table, id: Id)
    requires IsForest(t) && id in t
    ensures IsForest(t - Subtree(t, id))
    ensures forall x :: x in t - Subtree(t, id) ==> Depth(t - Subtree(t, id), x) == Depth(t, x)
  {
    var rest := t - Subtree(t, id);
    forall x | x in rest && rest[x].parent.Some?
      ensures rest[x].parent.value in rest
    {
      InSubtreeSelf(t, id);
      InSubtreeParent(t, id, x);
    }
    var rank := Rank(t) - Subtree(t, id);
    assert Ranks(rest, rank);
    RankedHasNoCycle(rest, rank);
    forall x | x in rest ensures Depth(rest, x) == Depth(t, x) {
      RemoveKeepsDepth(t, Subtree(t, id), x);
    }
  }

  lemma {:induction false} RemoveKeepsDepth(t: Table, gone: set<Id>, x: Id)
    requires IsForest(t) && IsForest(t - gone) && x in t - gone
    ensures Depth(t - gone, x) == Depth(t, x)
    decreases Depth(t, x)
  {
    assert (t - gone)[x].parent == t[x].parent;
    if t[x].parent.Some? {
      RemoveKeepsDepth(t, gone, t[x].parent.value);
    }
  }
}
