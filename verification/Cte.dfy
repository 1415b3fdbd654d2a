/**
 The two recursive queries over the task table: downward from a task to its descendants, and
 upward from a task to its ancestors.

 `WITH RECURSIVE ... UNION ALL` keeps a working table. Each round joins the working table with
 the task rows and appends the result to the output, duplicates included, until a round is
 empty. Rows are kept in sequences so that a duplicate would show. The order in which the
 database reads the task rows is the parameter `scan`: any enumeration of the table.
 */
module Cte {
  import opened Forest
  import opened Ordering

  datatype CteRow = CteRow(id: Id, depth: nat)

  /** `scan` lists the rows of the table once each, in some order. */
  ghost predicate Enumerates(scan: seq<Id>, t: Table) {
    && (forall x :: x in scan <==> x in t)
    && Distinct(scan)
  }

  ghost predicate DistinctIds(rows: seq<CteRow>) {
    forall i, j :: 0 <= i < j < |rows| ==> rows[i].id != rows[j].id
  }

  /** The scanned ids that satisfy a WHERE or ON condition, as rows of the given depth. */
  function Where(scan: seq<Id>, keep: Id -> bool, depth: nat): seq<CteRow> {
    if scan == [] then []
    else (if keep(scan[0]) then [CteRow(scan[0], depth)] else []) + Where(scan[1..], keep, depth)
  }

  lemma {:induction false} WhereMember(scan: seq<Id>, keep: Id -> bool, depth: nat, r: CteRow)
    ensures r in Where(scan, keep, depth) <==> r.id in scan && keep(r.id) && r.depth == depth
  {
    if scan != [] {
      WhereMember(scan[1..], keep, depth, r);
      assert scan == [scan[0]] + scan[1..];
    }
  }

  lemma {:induction false} WhereDistinct(scan: seq<Id>, keep: Id -> bool, depth: nat)
    requires Distinct(scan)
    ensures DistinctIds(Where(scan, keep, depth))
  {
    if scan != [] {
      WhereDistinct(scan[1..], keep, depth);
      forall r | r in Where(scan[1..], keep, depth) ensures r.id != scan[0] {
        WhereMember(scan[1..], keep, depth, r);
      }
    }
  }

  /** One round: joins the working table with the scanned rows on condition `on`. */
  function Join(scan: seq<Id>, on: Id -> Id -> bool, work: seq<CteRow>): seq<CteRow> {
    if work == [] then []
    else Where(scan, on(work[0].id), work[0].depth + 1) + Join(scan, on, work[1..])
  }

  lemma JoinOne(scan: seq<Id>, on: Id -> Id -> bool, w: CteRow)
    ensures Join(scan, on, [w]) == Where(scan, on(w.id), w.depth + 1)
  {
    assert [w][1..] == [];
    assert Join(scan, on, []) == [];
  }

  lemma {:induction false} JoinMember(scan: seq<Id>, on: Id -> Id -> bool, work: seq<CteRow>, r: CteRow)
    ensures r in Join(scan, on, work) <==> r.id in scan && exists w :: w in work && Joins(on, w, r)
  {
    if work != [] {
      WhereMember(scan, on(work[0].id), work[0].depth + 1, r);
      JoinMember(scan, on, work[1..], r);
      assert r in Where(scan, on(work[0].id), work[0].depth + 1) <==> r.id in scan && Joins(on, work[0], r);
      assert forall w :: w in work <==> w == work[0] || w in work[1..];
    }
  }

  /** `r` results from joining the working row `w`. */
  predicate Joins(on: Id -> Id -> bool, w: CteRow, r: CteRow) {
    on(w.id)(r.id) && r.depth == w.depth + 1
  }

  /** A join in which no scanned row matches two working rows produces no row twice. */
  lemma {:induction false} JoinDistinct(scan: seq<Id>, on: Id -> Id -> bool, work: seq<CteRow>)
    requires Distinct(scan) && DistinctIds(work)
    requires forall a, b, c :: on(a)(c) && on(b)(c) ==> a == b
    ensures DistinctIds(Join(scan, on, work))
  {
    if work != [] {
      var here, rest := Where(scan, on(work[0].id), work[0].depth + 1), Join(scan, on, work[1..]);
      WhereDistinct(scan, on(work[0].id), work[0].depth + 1);
      JoinDistinct(scan, on, work[1..]);
      forall a, b | a in here && b in rest ensures a.id != b.id {
        WhereMember(scan, on(work[0].id), work[0].depth + 1, a);
        JoinMember(scan, on, work[1..], b);
      }
    }
  }

  // ---------------------------------------------------------------------------
  // WITH RECURSIVE

  /** The working table of round `k`, from the start rows on. */
  function Round(scan: seq<Id>, on: Id -> Id -> bool, start: seq<CteRow>, k: nat): seq<CteRow> {
    if k == 0 then start else Join(scan, on, Round(scan, on, start, k - 1))
  }

  /** What holds of the start rows and is kept by a join holds of every round. */
  lemma {:induction false} RoundInduction(scan: seq<Id>, on: Id -> Id -> bool, start: seq<CteRow>,
      p: (nat, seq<CteRow>) -> bool, k: nat)
    requires p(0, start) && forall j: nat, work :: p(j, work) ==> p(j + 1, Join(scan, on, work))
    ensures p(k, Round(scan, on, start, k))
    decreases k
  {
    if k > 0 {
      RoundInduction(scan, on, start, p, k - 1);
    }
  }

  ghost predicate EndsBy(scan: seq<Id>, on: Id -> Id -> bool, start: seq<CteRow>, bound: nat) {
    forall k: nat :: k >= bound ==> Round(scan, on, start, k) == []
  }

  /** The rounds from `k` on, up to the first empty one. Without a `bound` on the rounds the query would not end. */
  function Rounds(scan: seq<Id>, on: Id -> Id -> bool, start: seq<CteRow>, k: nat, ghost bound: nat): seq<CteRow>
    requires EndsBy(scan, on, start, bound)
    decreases bound - k
  {
    var work := Round(scan, on, start, k);
    if work == [] then [] else work + Rounds(scan, on, start, k + 1, bound)
  }

  ghost predicate HasDepth(rows: seq<CteRow>, depth: nat) {
    forall r :: r in rows ==> r.depth == depth
  }

  /** Rows of round `k` have depth `k`. */
  lemma RoundDepth(scan: seq<Id>, on: Id -> Id -> bool, start: seq<CteRow>, k: nat)
    requires HasDepth(start, 0)
    ensures HasDepth(Round(scan, on, start, k), k)
  {
    var p := (j: nat, work: seq<CteRow>) => HasDepth(work, j);
    forall j: nat, work | p(j, work) ensures p(j + 1, Join(scan, on, work)) {
      forall r | r in Join(scan, on, work) ensures r.depth == j + 1 {
        JoinMember(scan, on, work, r);
      }
    }
    RoundInduction(scan, on, start, p, k);
  }

  lemma {:induction false} EmptyStays(scan: seq<Id>, on: Id -> Id -> bool, start: seq<CteRow>, k: nat, j: nat)
    requires k <= j && Round(scan, on, start, k) == []
    ensures Round(scan, on, start, j) == []
    decreases j
  {
    if k < j {
      EmptyStays(scan, on, start, k, j - 1);
    }
  }

  /** The query yields exactly the rows of its rounds. */
  lemma {:induction false} RoundsMember(scan: seq<Id>, on: Id -> Id -> bool, start: seq<CteRow>, k: nat, bound: nat,
      r: CteRow)
    requires EndsBy(scan, on, start, bound) && HasDepth(start, 0)
    ensures r in Rounds(scan, on, start, k, bound) <==> r.depth >= k && r in Round(scan, on, start, r.depth)
    decreases bound - k
  {
    var work := Round(scan, on, start, k);
    if work == [] {
      if r.depth >= k {
        EmptyStays(scan, on, start, k, r.depth);
      }
    } else {
      RoundsMember(scan, on, start, k + 1, bound, r);
      RoundDepth(scan, on, start, k);
    }
  }

  lemma DistinctConcat(a: seq<CteRow>, b: seq<CteRow>)
    requires DistinctIds(a) && DistinctIds(b) && forall x, y :: x in a && y in b ==> x.id != y.id
    ensures DistinctIds(a + b)
  {
  }

  /** No round repeats an id and no two rounds share one. */
  ghost predicate RoundsApart(scan: seq<Id>, on: Id -> Id -> bool, start: seq<CteRow>) {
    && (forall j: nat :: DistinctIds(Round(scan, on, start, j)))
    && (forall a: CteRow, b: CteRow ::
          a in Round(scan, on, start, a.depth) && b in Round(scan, on, start, b.depth) && a.id == b.id ==>
            a.depth == b.depth)
  }

  /** Then the query yields each id once. */
  lemma {:induction false} RoundsDistinct(scan: seq<Id>, on: Id -> Id -> bool, start: seq<CteRow>, k: nat, bound: nat)
    requires EndsBy(scan, on, start, bound) && HasDepth(start, 0) && RoundsApart(scan, on, start)
    ensures DistinctIds(Rounds(scan, on, start, k, bound))
    decreases bound - k
  {
    var work := Round(scan, on, start, k);
    if work != [] {
      RoundsDistinct(scan, on, start, k + 1, bound);
      RoundDepth(scan, on, start, k);
      forall x, y | x in work && y in Rounds(scan, on, start, k + 1, bound) ensures x.id != y.id {
        RoundsMember(scan, on, start, k + 1, bound, y);
      }
      DistinctConcat(work, Rounds(scan, on, start, k + 1, bound));
    }
  }

  // ---------------------------------------------------------------------------
  // Downward: JOIN subtree s ON c.parent_task_id = s.id

  function ChildOf(t: Table): Id -> Id -> bool {
    s => c => c in t && t[c].parent == Some(s)
  }

  function StartAt(root: Id): seq<CteRow> {
    [CteRow(root, 0)]
  }

  /** `work` holds exactly the rows `k` parent steps below `root`. */
  ghost predicate IsBelow(t: Table, root: Id, k: nat, work: seq<CteRow>) {
    forall r: CteRow {:trigger r in work} :: r in work <==> r.depth == k && Ancestor(t, r.id, k) == Some(root)
  }

  lemma JoinGoesDown(t: Table, scan: seq<Id>, root: Id, k: nat, work: seq<CteRow>)
    requires Enumerates(scan, t) && IsBelow(t, root, k, work)
    ensures IsBelow(t, root, k + 1, Join(scan, ChildOf(t), work))
  {
    forall r: CteRow
      ensures r in Join(scan, ChildOf(t), work) <==> r.depth == k + 1 && Ancestor(t, r.id, k + 1) == Some(root)
    {
      JoinMember(scan, ChildOf(t), work, r);
      if r.depth == k + 1 && Ancestor(t, r.id, k + 1) == Some(root) {
        assert CteRow(t[r.id].parent.value, k) in work;
      }
    }
  }

  /** Round `k` of the downward query holds exactly the rows `k` parent steps below `root`. */
  lemma DownRound(t: Table, scan: seq<Id>, root: Id, k: nat)
    requires Enumerates(scan, t) && root in t
    ensures IsBelow(t, root, k, Round(scan, ChildOf(t), StartAt(root), k))
  {
    var p := (j: nat, work: seq<CteRow>) => IsBelow(t, root, j, work);
    forall j: nat, work | p(j, work) ensures p(j + 1, Join(scan, ChildOf(t), work)) {
      JoinGoesDown(t, scan, root, j, work);
    }
    RoundInduction(scan, ChildOf(t), StartAt(root), p, k);
  }

  lemma {:induction false} DownRoundDistinct(t: Table, scan: seq<Id>, root: Id, k: nat)
    requires Enumerates(scan, t)
    ensures DistinctIds(Round(scan, ChildOf(t), StartAt(root), k))
    decreases k
  {
    if k > 0 {
      DownRoundDistinct(t, scan, root, k - 1);
      JoinDistinct(scan, ChildOf(t), Round(scan, ChildOf(t), StartAt(root), k - 1));
    }
  }

  /** From a row off every cycle the rounds are empty from the number of rows on. */
  lemma DownEndsOffCycle(t: Table, scan: seq<Id>, root: Id)
    requires Enumerates(scan, t) && root in t && !OnCycle(t, root)
    ensures EndsBy(scan, ChildOf(t), StartAt(root), |t|)
  {
    forall k: nat | k >= |t| ensures Round(scan, ChildOf(t), StartAt(root), k) == [] {
      var work := Round(scan, ChildOf(t), StartAt(root), k);
      if work != [] {
        DownRound(t, scan, root, k);
        assert work[0] in work;
        LongChainMeetsCycle(t, work[0].id, k);
        assert false;
      }
    }
  }

  /** The downward query ends because the parent graph has no cycle: no chain is longer than the table. */
  lemma DownEnds(t: Table, scan: seq<Id>, root: Id)
    requires NoCycle(t) && Enumerates(scan, t) && root in t
    ensures EndsBy(scan, ChildOf(t), StartAt(root), |t|)
  {
    DownEndsOffCycle(t, scan, root);
  }

  /** Below a row on a cycle there is a row at every distance. (`j` locates it on the cycle.) */
  lemma {:induction false} CycleGoesDown(t: Table, x: Id, k: nat, n: nat) returns (y: Id, j: nat)
    requires k > 0 && Ancestor(t, x, k) == Some(x)
    ensures j < k && Ancestor(t, x, j) == Some(y) && Ancestor(t, y, n) == Some(x)
    decreases n
  {
    if n == 0 {
      y, j := x, 0;
    } else {
      var above, i := CycleGoesDown(t, x, k, n - 1);
      j := if i > 0 then i - 1 else k - 1;
      AncestorPrefix(t, x, j, k - j);
      y := Ancestor(t, x, j).value;
      AncestorAdd(t, x, j, 1);
      assert Ancestor(t, y, 1) == Some(above);
      AncestorAdd(t, y, 1, n - 1);
    }
  }

  /** From a row on a cycle no round of the downward query is ever empty. */
  lemma CycleNeverEnds(t: Table, scan: seq<Id>, root: Id, n: nat)
    requires Enumerates(scan, t) && root in t && OnCycle(t, root)
    ensures Round(scan, ChildOf(t), StartAt(root), n) != []
  {
    var k: nat :| k > 0 && Ancestor(t, root, k) == Some(root);
    var y, _ := CycleGoesDown(t, root, k, n);
    DownRound(t, scan, root, n);
    assert CteRow(y, n) in Round(scan, ChildOf(t), StartAt(root), n);
  }

  /**
   On any table, with cycles or not, the downward query from `root` ends exactly if `root` is not its
   own proper ancestor.
   */
  lemma DownEndsIff(t: Table, scan: seq<Id>, root: Id)
    requires Enumerates(scan, t) && root in t
    ensures (exists bound: nat :: EndsBy(scan, ChildOf(t), StartAt(root), bound)) <==> !OnCycle(t, root)
  {
    if OnCycle(t, root) {
      forall bound: nat ensures !EndsBy(scan, ChildOf(t), StartAt(root), bound) {
        CycleNeverEnds(t, scan, root, bound);
      }
    } else {
      DownEndsOffCycle(t, scan, root);
    }
  }

  /** The query ends: the round after as many rounds as there are rows is empty. */
  predicate DownAnswers(t: Table, scan: seq<Id>, root: Id) {
    Round(scan, ChildOf(t), StartAt(root), |t|) == []
  }

  lemma DownAnswersIff(t: Table, scan: seq<Id>, root: Id)
    requires Enumerates(scan, t) && root in t
    ensures DownAnswers(t, scan, root) <==> !OnCycle(t, root)
  {
    if OnCycle(t, root) {
      CycleNeverEnds(t, scan, root, |t|);
    } else {
      DownEndsOffCycle(t, scan, root);
    }
  }

  /** The rows of the descendants query started at `root`. */
  function Descendants(t: Table, scan: seq<Id>, root: Id): seq<CteRow>
    requires Enumerates(scan, t) && root in t && !OnCycle(t, root)
  {
    DownEndsOffCycle(t, scan, root);
    Rounds(scan, ChildOf(t), StartAt(root), 0, |t|)
  }

  lemma DescendantsRow(t: Table, scan: seq<Id>, root: Id, r: CteRow)
    requires Enumerates(scan, t) && root in t && !OnCycle(t, root)
    ensures r in Descendants(t, scan, root) <==> Ancestor(t, r.id, r.depth) == Some(root)
  {
    DownEndsOffCycle(t, scan, root);
    RoundsMember(scan, ChildOf(t), StartAt(root), 0, |t|, r);
    DownRound(t, scan, root, r.depth);
  }

  lemma DownRoundsApart(t: Table, scan: seq<Id>, root: Id)
    requires Enumerates(scan, t) && root in t && !OnCycle(t, root)
    ensures RoundsApart(scan, ChildOf(t), StartAt(root))
  {
    forall j: nat ensures DistinctIds(Round(scan, ChildOf(t), StartAt(root), j)) {
      DownRoundDistinct(t, scan, root, j);
    }
    forall a: CteRow, b: CteRow |
      && a in Round(scan, ChildOf(t), StartAt(root), a.depth)
      && b in Round(scan, ChildOf(t), StartAt(root), b.depth) && a.id == b.id
      ensures a.depth == b.depth
    {
      DownRound(t, scan, root, a.depth);
      DownRound(t, scan, root, b.depth);
      OneDistance(t, root, a.id, a.depth, b.depth);
    }
  }

  lemma {:induction false} AncestorPrefix(t: Table, x: Id, j: nat, k: nat)
    requires Ancestor(t, x, j + k).Some?
    ensures Ancestor(t, x, j).Some?
    decreases j
  {
    if j > 0 {
      AncestorPrefix(t, t[x].parent.value, j - 1, k);
    }
  }

  /**
   The descendants query lists `x` with depth `d` exactly when `d` parent steps from `x` reach
   `root`, and lists every `x` once although it is a UNION ALL.
   */
  lemma DescendantsExact(t: Table, scan: seq<Id>, root: Id)
    requires Enumerates(scan, t) && root in t && !OnCycle(t, root)
    ensures forall r: CteRow {:trigger r in Descendants(t, scan, root)} ::
      r in Descendants(t, scan, root) <==> Ancestor(t, r.id, r.depth) == Some(root)
    ensures DistinctIds(Descendants(t, scan, root))
  {
    forall r: CteRow ensures r in Descendants(t, scan, root) <==> Ancestor(t, r.id, r.depth) == Some(root) {
      DescendantsRow(t, scan, root, r);
    }
    DownEndsOffCycle(t, scan, root);
    DownRoundsApart(t, scan, root);
    RoundsDistinct(scan, ChildOf(t), StartAt(root), 0, |t|);
  }

  /** `Math.max` over the depth column, starting from 0. */
  function MaxDepth(rows: seq<CteRow>): nat {
    if rows == [] then 0
    else if rows[0].depth > MaxDepth(rows[1..]) then rows[0].depth else MaxDepth(rows[1..])
  }

  lemma {:induction false} MaxDepthIsMax(rows: seq<CteRow>)
    ensures forall r :: r in rows ==> r.depth <= MaxDepth(rows)
    ensures rows != [] ==> exists r :: r in rows && r.depth == MaxDepth(rows)
  {
    if rows != [] {
      MaxDepthIsMax(rows[1..]);
      assert rows[0] in rows;
      if |rows| > 1 {
        var r :| r in rows[1..] && r.depth == MaxDepth(rows[1..]);
        assert r in rows;
      }
    }
  }

  // ---------------------------------------------------------------------------
  // Upward: JOIN a ON t.id = a.parent_task_id

  function ParentOf(t: Table): Id -> Id -> bool {
    a => p => a in t && t[a].parent == Some(p)
  }

  function Is(x: Id): Id -> bool {
    y => y == x
  }

  lemma StartRow(t: Table, scan: seq<Id>, x: Id)
    requires Enumerates(scan, t)
    ensures Where(scan, Is(x), 0) == if x in t then [CteRow(x, 0)] else []
  {
    WhereOne(scan, Is(x), 0, x);
  }

  /** A condition that only `x` can satisfy selects `x` once or nothing. */
  lemma WhereOne(scan: seq<Id>, keep: Id -> bool, depth: nat, x: Id)
    requires Distinct(scan) && forall y :: keep(y) ==> y == x
    ensures Where(scan, keep, depth) == if x in scan && keep(x) then [CteRow(x, depth)] else []
  {
    var rows := Where(scan, keep, depth);
    WhereDistinct(scan, keep, depth);
    WhereMember(scan, keep, depth, CteRow(x, depth));
    forall i | 0 <= i < |rows| ensures rows[i] == CteRow(x, depth) {
      WhereMember(scan, keep, depth, rows[i]);
    }
  }

  lemma ParentJoin(t: Table, scan: seq<Id>, y: Id, k: nat)
    requires ParentsInProject(t) && Enumerates(scan, t) && y in t
    ensures Join(scan, ParentOf(t), [CteRow(y, k)]) ==
      if t[y].parent.Some? then [CteRow(t[y].parent.value, k + 1)] else []
  {
    JoinOne(scan, ParentOf(t), CteRow(y, k));
    OneParent(t, y);
    assert t[y].parent.Some? ==> t[y].parent.value in scan;
    SelectOne(scan, ParentOf(t)(y), k + 1, t[y].parent);
  }

  /** A condition that holds of `p` alone, if there is one, selects just that. */
  lemma SelectOne(scan: seq<Id>, keep: Id -> bool, depth: nat, p: Option<Id>)
    requires Distinct(scan) && (p.Some? ==> p.value in scan)
    requires forall x: Id :: keep(x) <==> p == Some(x)
    ensures Where(scan, keep, depth) == if p.Some? then [CteRow(p.value, depth)] else []
  {
    WhereOne(scan, keep, depth, p.GetOr(0));
  }

  lemma OneParent(t: Table, y: Id)
    requires y in t
    ensures forall p: Id :: ParentOf(t)(y)(p) <==> t[y].parent == Some(p)
  {
  }

  /** The `k`-th ancestor as a row, or nothing. */
  function AncestorRow(t: Table, x: Id, k: nat): seq<CteRow> {
    if Ancestor(t, x, k).Some? then [CteRow(Ancestor(t, x, k).value, k)] else []
  }

  lemma JoinGoesUp(t: Table, scan: seq<Id>, x: Id, k: nat)
    requires ParentsInProject(t) && Enumerates(scan, t)
    ensures Join(scan, ParentOf(t), AncestorRow(t, x, k)) == AncestorRow(t, x, k + 1)
  {
    NextAncestor(t, x, k);
    if Ancestor(t, x, k).Some? {
      ParentJoin(t, scan, Ancestor(t, x, k).value, k);
    }
  }

  lemma NextAncestor(t: Table, x: Id, k: nat)
    requires ParentsInProject(t)
    ensures Ancestor(t, x, k + 1) == match Ancestor(t, x, k)
      case None => None
      case Some(y) => if y in t then t[y].parent else None
    ensures Ancestor(t, x, k).Some? ==> Ancestor(t, x, k).value in t
  {
    if Ancestor(t, x, k).Some? {
      var y := Ancestor(t, x, k).value;
      AncestorAdd(t, x, k, 0);
      AncestorAdd(t, x, k, 1);
      assert y in t;
      assert t[y].parent.Some? ==> Ancestor(t, t[y].parent.value, 0) == t[y].parent;
    } else {
      NoneAbove(t, x, k, 1);
    }
  }

  /** Round `k` of the upward query holds the `k`-th ancestor, or nothing. */
  lemma UpRound(t: Table, scan: seq<Id>, x: Id, k: nat)
    requires ParentsInProject(t) && Enumerates(scan, t)
    ensures Round(scan, ParentOf(t), Where(scan, Is(x), 0), k) == AncestorRow(t, x, k)
  {
    StartRow(t, scan, x);
    UpRoundFrom(t, scan, x, Where(scan, Is(x), 0), k);
  }

  lemma UpRoundFrom(t: Table, scan: seq<Id>, x: Id, start: seq<CteRow>, k: nat)
    requires ParentsInProject(t) && Enumerates(scan, t) && start == AncestorRow(t, x, 0)
    ensures Round(scan, ParentOf(t), start, k) == AncestorRow(t, x, k)
  {
    var p := (j: nat, work: seq<CteRow>) => work == AncestorRow(t, x, j);
    forall j: nat, work | p(j, work) ensures p(j + 1, Join(scan, ParentOf(t), work)) {
      JoinGoesUp(t, scan, x, j);
    }
    RoundInduction(scan, ParentOf(t), start, p, k);
  }

  lemma NoneAbove(t: Table, x: Id, j: nat, k: nat)
    requires Ancestor(t, x, j).None?
    ensures Ancestor(t, x, j + k).None?
  {
    if Ancestor(t, x, j + k).Some? {
      AncestorPrefix(t, x, j, k);
      assert false;
    }
  }

  /** The chain of parents above `x` comes to an end. */
  ghost predicate Grounded(t: Table, x: Id) {
    Ancestor(t, x, |t|).None?
  }

  lemma ForestGrounded(t: Table, x: Id)
    requires NoCycle(t)
    ensures Grounded(t, x) && !OnCycle(t, x)
  {
    ChainIsShort(t, x, |t|);
  }

  predicate UpAnswers(t: Table, scan: seq<Id>, x: Id) {
    Round(scan, ParentOf(t), Where(scan, Is(x), 0), |t|) == []
  }

  /** The upward query ends exactly if the chain of parents does. */
  lemma UpAnswersIff(t: Table, scan: seq<Id>, x: Id)
    requires ParentsInProject(t) && Enumerates(scan, t)
    ensures UpAnswers(t, scan, x) <==> Grounded(t, x)
    ensures UpAnswers(t, scan, x) <==> exists bound: nat :: EndsBy(scan, ParentOf(t), Where(scan, Is(x), 0), bound)
  {
    UpRound(t, scan, x, |t|);
    if Grounded(t, x) {
      UpEnds(t, scan, x);
    }
    if bound: nat :| EndsBy(scan, ParentOf(t), Where(scan, Is(x), 0), bound) {
      UpRound(t, scan, x, bound);
      if Ancestor(t, x, |t|).Some? {
        AboveCycle(t, x, bound);
        assert false;
      }
    }
  }

  /** A chain as long as the table has no end. */
  lemma AboveCycle(t: Table, x: Id, n: nat)
    requires Ancestor(t, x, |t|).Some?
    ensures Ancestor(t, x, n).Some?
  {
    LongChainMeetsCycle(t, x, |t|);
    var y := Ancestor(t, x, |t|).value;
    var c: nat :| c > 0 && Ancestor(t, y, c) == Some(y);
    GoesRound(t, y, c, n);
    AncestorAdd(t, x, |t|, n);
    AncestorPrefix(t, x, n, |t|);
  }

  lemma {:induction false} GoesRound(t: Table, y: Id, c: nat, n: nat)
    requires c > 0 && Ancestor(t, y, c) == Some(y)
    ensures Ancestor(t, y, n).Some?
    decreases n
  {
    if n < c {
      AncestorPrefix(t, y, n, c - n);
    } else {
      GoesRound(t, y, c, n - c);
      AncestorAdd(t, y, c, n - c);
    }
  }

  lemma UpRoundEmpty(t: Table, scan: seq<Id>, x: Id, k: nat)
    requires ParentsInProject(t) && Enumerates(scan, t) && Grounded(t, x) && k >= |t|
    ensures Round(scan, ParentOf(t), Where(scan, Is(x), 0), k) == []
  {
    UpRound(t, scan, x, k);
    NoneAbove(t, x, |t|, k - |t|);
  }

  lemma UpEnds(t: Table, scan: seq<Id>, x: Id)
    requires ParentsInProject(t) && Enumerates(scan, t) && Grounded(t, x)
    ensures EndsBy(scan, ParentOf(t), Where(scan, Is(x), 0), |t|)
  {
    forall k: nat | k >= |t| ensures Round(scan, ParentOf(t), Where(scan, Is(x), 0), k) == [] {
      UpRoundEmpty(t, scan, x, k);
    }
  }

  /** The rows of the ancestors query started at `x`. */
  function Ancestors(t: Table, scan: seq<Id>, x: Id): seq<CteRow>
    requires ParentsInProject(t) && Enumerates(scan, t) && Grounded(t, x)
  {
    UpEnds(t, scan, x);
    Rounds(scan, ParentOf(t), Where(scan, Is(x), 0), 0, |t|)
  }

  /** `SELECT COALESCE(MAX(depth), 0)` over the ancestors query. */
  function DepthOf(t: Table, scan: seq<Id>, x: Id): nat
    requires ParentsInProject(t) && Enumerates(scan, t) && Grounded(t, x)
  {
    MaxDepth(Ancestors(t, scan, x))
  }

  lemma AncestorsRow(t: Table, scan: seq<Id>, x: Id, r: CteRow)
    requires ParentsInProject(t) && Enumerates(scan, t) && Grounded(t, x)
    ensures r in Ancestors(t, scan, x) <==> Ancestor(t, x, r.depth) == Some(r.id)
  {
    UpEnds(t, scan, x);
    StartRow(t, scan, x);
    RoundsMember(scan, ParentOf(t), Where(scan, Is(x), 0), 0, |t|, r);
    UpRound(t, scan, x, r.depth);
  }

  /**
   The ancestors query lists exactly `x` and the rows 1, 2, ... parent steps above it, so
   `DepthOf` is the length of the ancestor chain; for a missing task it is 0.
   */
  lemma AncestorsExact(t: Table, scan: seq<Id>, x: Id)
    requires ParentsInProject(t) && Enumerates(scan, t) && Grounded(t, x)
    ensures forall r: CteRow {:trigger r in Ancestors(t, scan, x)} ::
      r in Ancestors(t, scan, x) <==> Ancestor(t, x, r.depth) == Some(r.id)
    ensures x in t ==> forall k: nat :: Ancestor(t, x, k).Some? <==> k <= DepthOf(t, scan, x)
    ensures x !in t ==> DepthOf(t, scan, x) == 0
  {
    var rows := Ancestors(t, scan, x);
    forall r: CteRow ensures r in rows <==> Ancestor(t, x, r.depth) == Some(r.id) {
      AncestorsRow(t, scan, x, r);
    }
    MaxDepthIsMax(rows);
    if x in t {
      assert CteRow(x, 0) in rows;
      forall k: nat ensures Ancestor(t, x, k).Some? <==> k <= DepthOf(t, scan, x) {
        DepthOfChain(t, scan, x, k);
      }
    }
  }

  lemma DepthOfChain(t: Table, scan: seq<Id>, x: Id, k: nat)
    requires ParentsInProject(t) && Enumerates(scan, t) && Grounded(t, x) && x in t
    ensures Ancestor(t, x, k).Some? <==> k <= DepthOf(t, scan, x)
  {
    var rows := Ancestors(t, scan, x);
    AncestorsRow(t, scan, x, CteRow(x, 0));
    MaxDepthIsMax(rows);
    var deepest :| deepest in rows && deepest.depth == MaxDepth(rows);
    AncestorsRow(t, scan, x, deepest);
    if Ancestor(t, x, k).Some? {
      AncestorsRow(t, scan, x, CteRow(Ancestor(t, x, k).value, k));
    } else if k <= deepest.depth {
      AncestorPrefix(t, x, k, deepest.depth - k);
      assert false;
    }
  }

  /** In a forest that is the depth. */
  lemma DepthOfIsDepth(t: Table, scan: seq<Id>, x: Id)
    requires IsForest(t) && Enumerates(scan, t) && x in t
    ensures Grounded(t, x) && DepthOf(t, scan, x) == Depth(t, x)
  {
    ForestGrounded(t, x);
    AncestorsExact(t, scan, x);
    DepthOfAncestor(t, x, Depth(t, x));
    DepthOfAncestor(t, x, DepthOf(t, scan, x));
  }
}
