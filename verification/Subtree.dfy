/**
 `getSubtree`: turning the flat rows of the descendants query into a nested tree.

 The service makes one node object per row, keyed by id, and then pushes each node onto its
 parent's `children`. Here the nodes are heap objects, and the nested tree they form is read
 off as a value of type `Tree`.
 */
module Subtree {
  import opened Forest
  import opened Cte
  import opened Ordering

  datatype Tree = Tree(id: Id, depth: nat, children: seq<Tree>)

  /** The ids of the child tasks of `x`. */
  ghost function ChildIds(t: Table, x: Id): set<Id> {
    set c | c in t && t[c].parent == Some(x)
  }

  ghost function IdSet(trees: seq<Tree>): set<Id> {
    set k | k in trees :: k.id
  }

  /** The children of the node are exactly the child tasks, once each, in id order. */
  ghost predicate ChildrenFit(t: Table, tree: Tree) {
    && (forall i, j :: 0 <= i < j < |tree.children| ==> tree.children[i].id < tree.children[j].id)
    && IdSet(tree.children) == ChildIds(t, tree.id)
  }

  /**
   `tree` is the nested form of the part of the table below `tree.id`: each depth is the nesting
   level, and the children of every node fit.
   */
  ghost predicate IsNested(t: Table, tree: Tree, level: nat) {
    && tree.id in t && tree.depth == level && ChildrenFit(t, tree)
    && forall k :: k in tree.children ==> IsNested(t, k, level + 1)
  }

  lemma ChildOfNode(t: Table, tree: Tree, k: Tree)
    requires ChildrenFit(t, tree) && k in tree.children
    ensures k.id in t && t[k.id].parent == Some(tree.id)
  {
    assert k.id in ChildIds(t, tree.id);
  }

  /** The nodes of a tree in preorder. */
  function Flatten(tree: Tree): seq<CteRow> {
    [CteRow(tree.id, tree.depth)] + FlattenAll(tree.children)
  }

  function FlattenAll(trees: seq<Tree>): seq<CteRow> {
    if trees == [] then [] else Flatten(trees[0]) + FlattenAll(trees[1..])
  }

  lemma {:induction false} FlattenAllMember(trees: seq<Tree>, r: CteRow)
    ensures r in FlattenAll(trees) <==> exists k :: k in trees && r in Flatten(k)
  {
    if trees != [] {
      FlattenAllMember(trees[1..], r);
      assert FlattenAll(trees) == Flatten(trees[0]) + FlattenAll(trees[1..]);
      assert forall k :: k in trees <==> k == trees[0] || k in trees[1..];
    }
  }

  lemma FlattenMember(tree: Tree, r: CteRow)
    ensures r in Flatten(tree) <==>
      r == CteRow(tree.id, tree.depth) || exists k :: k in tree.children && r in Flatten(k)
  {
    FlattenAllMember(tree.children, r);
    assert Flatten(tree) == [CteRow(tree.id, tree.depth)] + FlattenAll(tree.children);
  }

  /** A nested tree holds exactly the descendants, at their distance from the root. */
  lemma {:induction false} NestedMembers(t: Table, tree: Tree, level: nat, r: CteRow)
    requires IsNested(t, tree, level)
    ensures r in Flatten(tree) <==> r.depth >= level && Ancestor(t, r.id, r.depth - level) == Some(tree.id)
    decreases tree
  {
    forall k | k in tree.children ensures r in Flatten(k) <==> BelowChild(t, level, r, k.id) {
      NestedMembers(t, k, level + 1, r);
    }
    RootAndChildren(t, tree, level, r);
  }

  lemma {:induction false} RootAndChildren(t: Table, tree: Tree, level: nat, r: CteRow)
    requires IsNested(t, tree, level)
    requires forall k :: k in tree.children ==> (r in Flatten(k) <==> BelowChild(t, level, r, k.id))
    ensures r in Flatten(tree) <==> r.depth >= level && Ancestor(t, r.id, r.depth - level) == Some(tree.id)
  {
    FlattenMember(tree, r);
    var deeper := exists k :: k in tree.children && BelowChild(t, level, r, k.id);
    assert r in Flatten(tree) <==> r == CteRow(tree.id, level) || deeper;
    if r.depth > level {
      ThroughChild(t, tree, r.id, r.depth - level - 1);
      assert deeper <==> Ancestor(t, r.id, r.depth - level) == Some(tree.id);
    } else {
      assert !deeper;
    }
  }

  ghost predicate BelowChild(t: Table, level: nat, r: CteRow, child: Id) {
    r.depth > level && Ancestor(t, r.id, r.depth - level - 1) == Some(child)
  }

  /** A proper descendant lies below exactly the child on its way up. */
  lemma ThroughChild(t: Table, tree: Tree, x: Id, j: nat)
    requires tree.id in t && ChildrenFit(t, tree)
    ensures Ancestor(t, x, j + 1) == Some(tree.id) <==>
      exists k :: k in tree.children && Ancestor(t, x, j) == Some(k.id)
  {
    if Ancestor(t, x, j + 1) == Some(tree.id) {
      AncestorPrefix(t, x, j, 1);
      AncestorAdd(t, x, j, 1);
      assert Ancestor(t, x, j).value in ChildIds(t, tree.id);
    }
    if k :| k in tree.children && Ancestor(t, x, j) == Some(k.id) {
      ChildOfNode(t, tree, k);
      AncestorAdd(t, x, j, 1);
      assert Ancestor(t, k.id, 1) == Ancestor(t, tree.id, 0);
    }
  }

  /** No task occurs twice below a task that is on no cycle. */
  lemma {:induction false} NestedDistinct(t: Table, tree: Tree, level: nat)
    requires IsNested(t, tree, level) && !OnCycle(t, tree.id)
    ensures DistinctIds(Flatten(tree))
    decreases tree, 1
  {
    forall k | k in tree.children ensures t[k.id].parent == Some(tree.id) {
      ChildOfNode(t, tree, k);
    }
    NestedAllDistinct(t, tree, tree.children, level);
    forall r | r in FlattenAll(tree.children) ensures r.id != tree.id {
      BelowParent(t, tree.id, tree.children, level, r);
    }
    assert Flatten(tree) == [CteRow(tree.id, tree.depth)] + FlattenAll(tree.children);
  }

  lemma {:induction false} NestedAllDistinct(t: Table, tree: Tree, trees: seq<Tree>, level: nat)
    requires tree.id in t && !OnCycle(t, tree.id)
    requires forall k :: k in trees ==> k < tree && IsNested(t, k, level + 1) && t[k.id].parent == Some(tree.id)
    requires forall i, j :: 0 <= i < j < |trees| ==> trees[i].id < trees[j].id
    ensures DistinctIds(FlattenAll(trees))
    decreases tree, 0, |trees|
  {
    if trees != [] {
      var first, rest := Flatten(trees[0]), FlattenAll(trees[1..]);
      assert Ancestor(t, trees[0].id, 1) == Ancestor(t, tree.id, 0);
      BelowOffCycle(t, tree.id, trees[0].id, 1);
      NestedDistinct(t, trees[0], level + 1);
      NestedAllDistinct(t, tree, trees[1..], level);
      forall a, b | a in first && b in rest ensures a.id != b.id {
        SiblingsApart(t, tree.id, trees[0], trees[1..], level, a, b);
      }
      assert FlattenAll(trees) == first + rest;
    }
  }

  /** The rows in the tree of a child task have that child, and above it the parent, at their distance. */
  lemma BelowOne(t: Table, parent: Id, child: Tree, level: nat, r: CteRow)
    requires parent in t && IsNested(t, child, level + 1) && t[child.id].parent == Some(parent) && r in Flatten(child)
    ensures r.depth > level && Ancestor(t, r.id, r.depth - level - 1) == Some(child.id)
    ensures Ancestor(t, r.id, r.depth - level) == Some(parent)
  {
    NestedMembers(t, child, level + 1, r);
    AncestorAdd(t, r.id, r.depth - level - 1, 1);
    assert Ancestor(t, child.id, 1) == Ancestor(t, parent, 0);
  }

  lemma BelowParent(t: Table, parent: Id, trees: seq<Tree>, level: nat, r: CteRow)
    requires parent in t && !OnCycle(t, parent) && r in FlattenAll(trees)
    requires forall k :: k in trees ==> IsNested(t, k, level + 1) && t[k.id].parent == Some(parent)
    ensures r.id != parent
  {
    FlattenAllMember(trees, r);
    var k :| k in trees && r in Flatten(k);
    BelowOne(t, parent, k, level, r);
  }

  /** Different children of one task have no descendant in common. */
  lemma SiblingsApart(t: Table, parent: Id, first: Tree, others: seq<Tree>, level: nat, a: CteRow, b: CteRow)
    requires parent in t && !OnCycle(t, parent) && IsNested(t, first, level + 1) && t[first.id].parent == Some(parent)
    requires forall k :: k in others ==> k.id != first.id && IsNested(t, k, level + 1) && t[k.id].parent == Some(parent)
    requires a in Flatten(first) && b in FlattenAll(others)
    ensures a.id != b.id
  {
    FlattenAllMember(others, b);
    var k :| k in others && b in Flatten(k);
    BelowOne(t, parent, first, level, a);
    BelowOne(t, parent, k, level, b);
    if a.id == b.id {
      OneDistance(t, parent, a.id, a.depth - level, b.depth - level);
    }
  }

  /** A nested tree drops no row of the descendants query and repeats none. */
  lemma NestedHoldsDescendants(t: Table, scan: seq<Id>, tree: Tree)
    requires Enumerates(scan, t) && IsNested(t, tree, 0) && !OnCycle(t, tree.id)
    ensures multiset(Flatten(tree)) == multiset(Descendants(t, scan, tree.id))
  {
    NestedDistinct(t, tree, 0);
    forall r: CteRow ensures r in Flatten(tree) <==> r in Descendants(t, scan, tree.id) {
      NestedMembers(t, tree, 0, r);
      DescendantsRow(t, scan, tree.id, r);
    }
    assert DistinctIds(Descendants(t, scan, tree.id)) by {
      DescendantsExact(t, scan, tree.id);
    }
    DistinctSameBag(Flatten(tree), Descendants(t, scan, tree.id));
  }

  /** Strictly ascending sequences with the same members are equal. */
  lemma {:induction false} AscendingUnique(a: seq<Id>, b: seq<Id>)
    requires (forall i, j :: 0 <= i < j < |a| ==> a[i] < a[j]) && (forall i, j :: 0 <= i < j < |b| ==> b[i] < b[j])
    requires forall x :: x in a <==> x in b
    ensures a == b
  {
    assert |a| > 0 ==> a[0] in a;
    assert |b| > 0 ==> b[0] in b;
    if a != [] && b != [] {
      forall x ensures x in a[1..] <==> x in b[1..] {
        assert x in a <==> x == a[0] || x in a[1..];
        assert x in b <==> x == b[0] || x in b[1..];
      }
      AscendingUnique(a[1..], b[1..]);
    }
  }

  function Ids(trees: seq<Tree>): seq<Id> {
    seq(|trees|, i requires 0 <= i < |trees| => trees[i].id)
  }

  lemma FittingChildren(t: Table, a: Tree, b: Tree)
    requires ChildrenFit(t, a) && ChildrenFit(t, b) && a.id == b.id
    ensures Ids(a.children) == Ids(b.children)
  {
    IdsMembers(a.children);
    IdsMembers(b.children);
    AscendingUnique(Ids(a.children), Ids(b.children));
  }

  lemma IdsMembers(trees: seq<Tree>)
    ensures forall x :: x in Ids(trees) <==> x in IdSet(trees)
  {
    forall x ensures x in Ids(trees) <==> x in IdSet(trees) {
      if x in IdSet(trees) {
        var i :| 0 <= i < |trees| && trees[i].id == x;
        assert Ids(trees)[i] == x;
      }
    }
  }

  /** There is only one nested tree for a task, so the result does not depend on the order rows are read in. */
  lemma {:induction false} NestedUnique(t: Table, a: Tree, b: Tree, level: nat)
    requires IsNested(t, a, level) && IsNested(t, b, level) && a.id == b.id
    ensures a == b
    decreases a
  {
    FittingChildren(t, a, b);
    assert |a.children| == |Ids(a.children)| == |b.children|;
    forall i | 0 <= i < |a.children| ensures a.children[i] == b.children[i] {
      assert Ids(a.children)[i] == Ids(b.children)[i];
      assert a.children[i] in a.children && b.children[i] in b.children;
      NestedUnique(t, a.children[i], b.children[i], level + 1);
    }
  }

  // ---------------------------------------------------------------------------
  // The rows in query order

  /** ORDER BY depth ASC, id ASC */
  function ByDepthThenId(): (CteRow, CteRow) -> bool {
    (a: CteRow, b: CteRow) => a.depth < b.depth || (a.depth == b.depth && a.id <= b.id)
  }

  function SubtreeRows(t: Table, scan: seq<Id>, root: Id): seq<CteRow>
    requires Enumerates(scan, t) && root in t && !OnCycle(t, root)
  {
    OrderBy(Descendants(t, scan, root), ByDepthThenId())
  }

  /** What the second pass relies on: the descendants once each, by depth and then by id. */
  ghost predicate AreSubtreeRows(t: Table, root: Id, rows: seq<CteRow>) {
    && DistinctIds(rows)
    && (forall r: CteRow {:trigger r in rows} :: r in rows <==> Ancestor(t, r.id, r.depth) == Some(root))
    && Sorted(rows, ByDepthThenId())
  }

  lemma SubtreeRowsSorted(t: Table, scan: seq<Id>, root: Id)
    requires Enumerates(scan, t) && root in t && !OnCycle(t, root)
    ensures AreSubtreeRows(t, root, SubtreeRows(t, scan, root))
  {
    var raw, rows := Descendants(t, scan, root), SubtreeRows(t, scan, root);
    DescendantsExact(t, scan, root);
    OrderBySorts(raw, ByDepthThenId());
    SameMembers(raw, rows);
    ReorderedDistinct(raw, rows);
    SameIdSameRow(raw, rows);
  }

  lemma SameIdSameRow(raw: seq<CteRow>, rows: seq<CteRow>)
    requires DistinctIds(raw) && Distinct(rows) && forall r :: r in rows ==> r in raw
    ensures DistinctIds(rows)
  {
    forall i, j | 0 <= i < j < |rows| ensures rows[i].id != rows[j].id {
      assert rows[i] in raw && rows[j] in raw;
    }
  }

  /** The ids the second pass pushes onto the children of `x`, in the order it pushes them. */
  function Kids(t: Table, rows: seq<CteRow>, root: Id, x: Id): (kids: seq<Id>)
    ensures forall i :: 0 <= i < |kids| ==> kids[i] in t && t[kids[i]].parent == Some(x)
    decreases |rows|
  {
    if rows == [] then []
    else
      var r := rows[|rows| - 1];
      Kids(t, rows[..|rows| - 1], root, x) +
      if r.id != root && r.id in t && t[r.id].parent == Some(x) then [r.id] else []
  }

  lemma {:induction false} KidsMember(t: Table, rows: seq<CteRow>, root: Id, x: Id, c: Id)
    ensures c in Kids(t, rows, root, x) <==>
      (exists r :: r in rows && r.id == c) && c != root && c in t && t[c].parent == Some(x)
    decreases |rows|
  {
    if rows != [] {
      var m := |rows| - 1;
      KidsMember(t, rows[..m], root, x, c);
      assert rows == rows[..m] + [rows[m]];
    }
  }

  /** Rows of tasks with the same parent have the same depth. */
  lemma SameLevel(t: Table, root: Id, x: Id, a: CteRow, b: CteRow)
    requires !OnCycle(t, root) && Ancestor(t, a.id, a.depth) == Some(root) && Ancestor(t, b.id, b.depth) == Some(root)
    requires a.id != root && b.id != root && t[a.id].parent == Some(x) && t[b.id].parent == Some(x)
    ensures a.depth == b.depth
  {
    OneDistance(t, root, x, a.depth - 1, b.depth - 1);
  }

  lemma {:induction false} KidsAscend(t: Table, rows: seq<CteRow>, root: Id, x: Id)
    requires !OnCycle(t, root) && DistinctIds(rows) && Sorted(rows, ByDepthThenId())
    requires forall r :: r in rows ==> Ancestor(t, r.id, r.depth) == Some(root)
    ensures forall i, j :: 0 <= i < j < |Kids(t, rows, root, x)| ==>
      Kids(t, rows, root, x)[i] < Kids(t, rows, root, x)[j]
    decreases |rows|
  {
    if rows != [] {
      var m := |rows| - 1;
      var last := rows[m];
      KidsAscend(t, rows[..m], root, x);
      forall c | c in Kids(t, rows[..m], root, x) && last.id in t && t[last.id].parent == Some(x)
        ensures c < last.id
      {
        KidsMember(t, rows[..m], root, x, c);
        var i :| 0 <= i < m && rows[..m][i].id == c;
        assert rows[i] in rows && last in rows;
        SameLevel(t, root, x, rows[i], last);
        assert ByDepthThenId()(rows[i], last);
      }
      var front := Kids(t, rows[..m], root, x);
      assert forall i :: 0 <= i < |front| ==> front[i] in front;
    }
  }

  /** The nested tree that the pushed child lists describe. */
  ghost function TreeOf(t: Table, rows: seq<CteRow>, root: Id, x: Id, level: nat): Tree
    requires !OnCycle(t, root) && Ancestor(t, x, level) == Some(root)
    decreases |t| - level
  {
    var kids := Kids(t, rows, root, x);
    Tree(x, level, seq(|kids|, (i: nat) requires i < |kids| =>
      ChildLevel(t, root, x, kids[i], level);
      TreeOf(t, rows, root, kids[i], level + 1)))
  }

  lemma ChildLevel(t: Table, root: Id, x: Id, c: Id, level: nat)
    requires !OnCycle(t, root) && Ancestor(t, x, level) == Some(root) && c in t && t[c].parent == Some(x)
    ensures Ancestor(t, c, level + 1) == Some(root) && level + 1 < |t|
  {
    BelowIsShort(t, root, c, level + 1);
  }

  lemma KidsFit(t: Table, rows: seq<CteRow>, root: Id, x: Id, level: nat)
    requires !OnCycle(t, root) && AreSubtreeRows(t, root, rows) && Ancestor(t, x, level) == Some(root) && x in t
    ensures ChildrenFit(t, TreeOf(t, rows, root, x, level))
  {
    var kids := Kids(t, rows, root, x);
    var tree := TreeOf(t, rows, root, x, level);
    KidsAscend(t, rows, root, x);
    forall i | 0 <= i < |kids| ensures tree.children[i].id == kids[i] {
      ChildLevel(t, root, x, kids[i], level);
      assert tree.children[i] == TreeOf(t, rows, root, kids[i], level + 1);
    }
    forall c ensures c in IdSet(tree.children) <==> c in ChildIds(t, x) {
      KidsMember(t, rows, root, x, c);
      if c in ChildIds(t, x) {
        ChildLevel(t, root, x, c, level);
        assert CteRow(c, level + 1) in rows;
        var i :| 0 <= i < |kids| && kids[i] == c;
        assert tree.children[i] in tree.children;
      }
    }
  }

  lemma {:induction false} TreeOfNested(t: Table, rows: seq<CteRow>, root: Id, x: Id, level: nat)
    requires !OnCycle(t, root) && AreSubtreeRows(t, root, rows) && Ancestor(t, x, level) == Some(root)
    ensures x in t && IsNested(t, TreeOf(t, rows, root, x, level), level)
    decreases |t| - level
  {
    var kids := Kids(t, rows, root, x);
    var tree := TreeOf(t, rows, root, x, level);
    forall i | 0 <= i < |kids| ensures IsNested(t, tree.children[i], level + 1) {
      ChildLevel(t, root, x, kids[i], level);
      TreeOfNested(t, rows, root, kids[i], level + 1);
    }
    KidsFit(t, rows, root, x, level);
  }

  // ---------------------------------------------------------------------------
  // The two passes over the rows

  class SubtreeNode {
    const id: Id
    const title: string
    const status: Status
    const priority: Priority
    const assignee: Option<Id>
    const dueDate: Option<int>
    const depth: nat
    var children: seq<SubtreeNode>

    constructor (id: Id, task: Task, depth: nat)
      ensures this.id == id && this.depth == depth && children == []
      ensures Shows(task) && title == task.title && status == task.status && priority == task.priority
      ensures assignee == task.assignee && dueDate == task.dueDate
    {
      this.id, this.depth, children := id, depth, [];
      title, status, priority, assignee, dueDate := task.title, task.status, task.priority, task.assignee, task.dueDate;
    }

    predicate Shows(task: Task) {
      && title == task.title && status == task.status && priority == task.priority
      && assignee == task.assignee && dueDate == task.dueDate
    }
  }

  /** Following `children` from `node` gives `tree`, and every node shows its task. */
  ghost predicate Represents(t: Table, node: SubtreeNode, tree: Tree, nodes: set<SubtreeNode>)
    reads nodes
    decreases tree
  {
    && node in nodes
    && node.id == tree.id && node.depth == tree.depth
    && tree.id in t && node.Shows(t[tree.id])
    && |node.children| == |tree.children|
    && forall i :: 0 <= i < |tree.children| ==> Represents(t, node.children[i], tree.children[i], nodes)
  }

  /** `nodes` has one object per row, keyed by its id. */
  ghost predicate OnePerRow(t: Table, rows: seq<CteRow>, nodes: map<Id, SubtreeNode>) {
    && (forall x :: x in nodes <==> exists r :: r in rows && r.id == x)
    && (forall r :: r in rows ==> r.id in nodes && nodes[r.id].depth == r.depth)
    && (forall x :: x in nodes ==> nodes[x].id == x && x in t && nodes[x].Shows(t[x]))
  }

  ghost predicate ChildrenAre(nodes: map<Id, SubtreeNode>, x: Id, kids: seq<Id>)
    requires x in nodes
    reads nodes[x]
  {
    && |nodes[x].children| == |kids|
    && forall i :: 0 <= i < |kids| ==> kids[i] in nodes && nodes[x].children[i] == nodes[kids[i]]
  }

  /** Each node has the columns of the task it stands for. */
  ghost predicate HaveColumns(t: Table, nodes: set<SubtreeNode>) {
    forall n :: n in nodes ==>
      && n.id in t && n.title == t[n.id].title && n.status == t[n.id].status && n.priority == t[n.id].priority
      && n.assignee == t[n.id].assignee && n.dueDate == t[n.id].dueDate
  }

  /** First pass: a node without children for every row. */
  method MakeNodes(t: Table, rows: seq<CteRow>) returns (nodes: map<Id, SubtreeNode>)
    requires DistinctIds(rows) && forall r :: r in rows ==> r.id in t
    ensures OnePerRow(t, rows, nodes) && HaveColumns(t, nodes.Values)
    ensures forall x :: x in nodes ==> fresh(nodes[x]) && nodes[x].children == []
  {
    nodes := map[];
    for i := 0 to |rows|
      invariant OnePerRow(t, rows[..i], nodes) && HaveColumns(t, nodes.Values)
      invariant forall x :: x in nodes ==> fresh(nodes[x]) && nodes[x].children == []
    {
      var r := rows[i];
      assert r in rows;
      assert rows[..i + 1] == rows[..i] + [r];
      var node := new SubtreeNode(r.id, t[r.id], r.depth);
      assert r.id !in nodes;
      nodes := nodes[r.id := node];
    }
    assert rows[..|rows|] == rows;
  }

  lemma KidsStep(t: Table, rows: seq<CteRow>, r: CteRow, root: Id, x: Id)
    ensures Kids(t, rows + [r], root, x) == Kids(t, rows, root, x) +
      if r.id != root && r.id in t && t[r.id].parent == Some(x) then [r.id] else []
  {
    assert (rows + [r])[..|rows + [r]| - 1] == rows;
  }

  ghost predicate Linked(t: Table, rows: seq<CteRow>, root: Id, nodes: map<Id, SubtreeNode>)
    reads nodes.Values
  {
    forall x :: x in nodes ==> ChildrenAre(nodes, x, Kids(t, rows, root, x))
  }

  /**
   One turn of the second pass: recognises the root by its text, or pushes the node of row `r` onto its
   parent's children.
   */
  method LinkRow(t: Table, r: CteRow, sought: IdText, nodes: map<Id, SubtreeNode>, ghost done: seq<CteRow>)
    returns (found: bool)
    requires forall x :: x in nodes ==> nodes[x].id == x
    requires r.id in nodes && r.id in t && Linked(t, done, sought.id, nodes)
    requires sought.id in t && (t[sought.id].parent.Some? ==> t[sought.id].parent.value !in nodes)
    modifies nodes.Values
    ensures found <==> Stored(r.id) == sought
    ensures Linked(t, done + [r], sought.id, nodes)
  {
    found := Stored(r.id) == sought;
    if !found && t[r.id].parent.Some? && t[r.id].parent.value in nodes {
      var parent := nodes[t[r.id].parent.value];
      parent.children := parent.children + [nodes[r.id]];
    }
    forall x | x in nodes ensures ChildrenAre(nodes, x, Kids(t, done + [r], sought.id, x)) {
      KidsStep(t, done, r, sought.id, x);
    }
  }

  /**
   Second pass: links every row and finds the root on the way, if some row's id has the text asked
   for. A row of another spelling goes to its parent, which for the root is not among the nodes.
   */
  method LinkNodes(t: Table, rows: seq<CteRow>, sought: IdText, nodes: map<Id, SubtreeNode>) returns (top: SubtreeNode?)
    requires forall x :: x in nodes ==> nodes[x].id == x && nodes[x].children == []
    requires forall i :: 0 <= i < |rows| ==> rows[i].id in nodes && rows[i].id in t
    requires exists i :: 0 <= i < |rows| && rows[i].id == sought.id
    requires sought.id in t && (t[sought.id].parent.Some? ==> t[sought.id].parent.value !in nodes)
    modifies nodes.Values
    ensures sought.id in nodes && top == (if sought.AsStored() then nodes[sought.id] else null)
    ensures Linked(t, rows, sought.id, nodes)
  {
    top := null;
    ghost var at :| 0 <= at < |rows| && rows[at].id == sought.id;
    ghost var done := [];
    for i := 0 to |rows|
      invariant at < i && sought.AsStored() ==> sought.id in nodes && top == nodes[sought.id]
      invariant !sought.AsStored() ==> top == null
      invariant done == rows[..i] && Linked(t, done, sought.id, nodes)
    {
      var found := LinkRow(t, rows[i], sought, nodes, done);
      if found {
        top := nodes[rows[i].id];
      }
      done := done + [rows[i]];
    }
    assert done == rows;
  }

  lemma {:induction false} LinkedRepresents(t: Table, rows: seq<CteRow>, root: Id, nodes: map<Id, SubtreeNode>,
      x: Id, level: nat)
    requires !OnCycle(t, root) && AreSubtreeRows(t, root, rows) && OnePerRow(t, rows, nodes)
    requires Linked(t, rows, root, nodes)
    requires CteRow(x, level) in rows && x in t
    ensures Represents(t, nodes[x], TreeOf(t, rows, root, x, level), nodes.Values)
    decreases |t| - level
  {
    var kids := Kids(t, rows, root, x);
    var tree := TreeOf(t, rows, root, x, level);
    BelowIsShort(t, root, x, level);
    forall i | 0 <= i < |kids|
      ensures Represents(t, nodes[x].children[i], tree.children[i], nodes.Values)
    {
      var c := kids[i];
      ChildLevel(t, root, x, c, level);
      assert CteRow(c, level + 1) in rows;
      LinkedRepresents(t, rows, root, nodes, c, level + 1);
    }
  }

  /**
   Builds the nested tree of a task from the rows of the descendants query. It is returned
   exactly if the task's id is written as the database prints it.
   */
  method BuildSubtree(t: Table, scan: seq<Id>, sought: IdText)
    returns (top: SubtreeNode?, ghost tree: Tree, ghost nodes: set<SubtreeNode>)
    requires Enumerates(scan, t) && sought.id in t && !OnCycle(t, sought.id)
    ensures top != null <==> sought.AsStored()
    ensures fresh(nodes) && HaveColumns(t, nodes) && (top != null ==> Represents(t, top, tree, nodes))
    ensures tree.id == sought.id && IsNested(t, tree, 0)
    ensures multiset(Flatten(tree)) == multiset(Descendants(t, scan, sought.id))
  {
    var root := sought.id;
    var rows := SubtreeRows(t, scan, root);
    SubtreeRowsSorted(t, scan, root);
    assert CteRow(root, 0) in rows;
    assert forall r :: r in rows ==> r.id in t;
    var byId := MakeNodes(t, rows);
    assert forall i :: 0 <= i < |rows| ==> rows[i] in rows;
    ParentNotBelow(t, root, rows);
    top := LinkNodes(t, rows, sought, byId);
    tree, nodes := TreeOf(t, rows, root, root, 0), byId.Values;
    LinkedRepresents(t, rows, root, byId, root, 0);
    TreeOfNested(t, rows, root, root, 0);
    NestedHoldsDescendants(t, scan, tree);
  }

  /** The parent of the root is no row of the query. */
  lemma ParentNotBelow(t: Table, root: Id, rows: seq<CteRow>)
    requires root in t && !OnCycle(t, root) && AreSubtreeRows(t, root, rows)
    ensures t[root].parent.Some? ==> forall r :: r in rows ==> r.id != t[root].parent.value
  {
    if r :| r in rows && t[root].parent == Some(r.id) {
      assert Ancestor(t, root, r.depth + 1) == Ancestor(t, r.id, r.depth);
      assert false;
    }
  }
}
