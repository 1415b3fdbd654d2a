/**
 Moves that overlap. `moveTask` reads and checks and then saves without a transaction, so other
 calls can come in between. Here a move is two steps, any number of moves run at once, tasks are
 created, updated and removed meanwhile, and a call may stop half-way. (The reads of one check
 are taken together.)

 A save writes the whole row as it was read, with the new parent: it undoes updates made since, and
 puts a row that was deleted back. A parent that was deleted fails the foreign key.
 */
module ConcurrentMoves {
  import opened Forest
  import opened Cte
  import Tasks

  /**
   A move that has passed its checks: the row as read and the new parent. It is `current` as long
   as no other move was saved since, and `undisturbed` as long as no task was created either.
   */
  datatype Pending = Pending(id: Id, row: Task, newParent: Option<Id>, current: bool, undisturbed: bool)

  /** `seen` holds all task ids there ever were, with their projects. */
  datatype State = State(tasks: Table, calls: map<Id, Pending>, seen: map<Id, Id>)

  datatype Step =
    | Call(op: Tasks.Op)
    | Check(pid: Id, op: Tasks.Op)
    | Save(pid: Id)
    | Stop(pid: Id)

  const INITIAL: State := State(map[], map[], map[])

  ghost predicate Enabled(projects: Tasks.Projects, s: State, step: Step) {
    match step
    case Call(op) => !op.Move? && (op.Create? ==> op.id !in s.seen)
    case Check(pid, op) => pid !in s.calls && op.Move? && Tasks.MoveFails(projects, s.tasks, op).None?
    case Save(pid) => pid in s.calls
    case Stop(_) => true
  }

  function Outdate(calls: map<Id, Pending>): map<Id, Pending> {
    map p | p in calls :: calls[p].(current := false, undisturbed := false)
  }

  function Disturb(calls: map<Id, Pending>): map<Id, Pending> {
    map p | p in calls :: calls[p].(undisturbed := false)
  }

  function Saved(t: Table, c: Pending): Table {
    if c.newParent.Some? && c.newParent.value !in t then t else t[c.id := c.row.(parent := c.newParent)]
  }

  /** The table after one of the atomic calls. */
  ghost function Called(projects: Tasks.Projects, t: Table, op: Tasks.Op): Table {
    Tasks.Apply(projects, Tasks.State(t, []), op).0.tasks
  }

  /** The state after a step; a step that is not enabled changes nothing. */
  ghost function Next(projects: Tasks.Projects, s: State, step: Step): State {
    if !Enabled(projects, s, step) then s
    else match step
      case Call(op) =>
        if op.Create? then State(Called(projects, s.tasks, op), Disturb(s.calls), s.seen[op.id := op.projectId])
        else s.(tasks := Called(projects, s.tasks, op))
      case Check(pid, op) =>
        s.(calls := s.calls[pid := Pending(op.task.id, s.tasks[op.task.id], Tasks.ValueOf(op.newParent), true, true)])
      case Save(pid) => s.(tasks := Saved(s.tasks, s.calls[pid]), calls := Outdate(s.calls - {pid}))
      case Stop(pid) => s.(calls := s.calls - {pid})
  }

  ghost function Run(projects: Tasks.Projects, steps: seq<Step>): State
    decreases |steps|
  {
    if steps == [] then INITIAL else Next(projects, Run(projects, steps[..|steps| - 1]), steps[|steps| - 1])
  }

  /** A check and its save with no other step in between amount to the atomic move. */
  lemma AloneIsMove(projects: Tasks.Projects, s: State, op: Tasks.Op, pid: Id)
    requires op.Move? && pid !in s.calls
    ensures Next(projects, Next(projects, s, Check(pid, op)), Save(pid)).tasks ==
      Tasks.Apply(projects, Tasks.State(s.tasks, []), op).0.tasks
  {
    var checked := Next(projects, s, Check(pid, op));
    if Tasks.MoveFails(projects, s.tasks, op).None? {
      assert Saved(s.tasks, checked.calls[pid]) == Reparent(s.tasks, op.task.id, Tasks.ValueOf(op.newParent));
    }
  }

  // ---------------------------------------------------------------------------
  // What stays of a check

  /** Task and parent, whether they still exist or not, are different and of one project. */
  ghost predicate InOneProject(seen: map<Id, Id>, c: Pending) {
    && c.id in seen && seen[c.id] == c.row.projectId
    && (c.newParent.Some? ==>
          && c.newParent.value != c.id && c.newParent.value in seen && seen[c.newParent.value] == c.row.projectId)
  }

  ghost predicate TasksSeen(t: Table, seen: map<Id, Id>) {
    forall x :: x in t ==> x in seen && seen[x] == t[x].projectId
  }

  /** The parent lies below the task. */
  ghost predicate Backwards(t: Table, c: Pending) {
    c.newParent.Some? && InSubtree(t, c.id, c.newParent.value)
  }

  /** The save would place a task deeper than allowed: one of the subtree, or the row itself if it is put back. */
  ghost predicate SavesDeep(t: Table, c: Pending) {
    && c.newParent.Some? && c.newParent.value in t
    && (!Tasks.StaysShallow(t, c.id, c.newParent.value) || Ancestor(t, c.newParent.value, Tasks.MAX_DEPTH).Some?)
  }

  ghost predicate CallsInProject(s: State) {
    && TasksSeen(s.tasks, s.seen)
    && forall p :: p in s.calls ==> InOneProject(s.seen, s.calls[p])
  }

  ghost predicate Good(s: State) {
    IsForest(s.tasks) && CallsInProject(s)
  }

  ghost predicate CurrentFits(s: State) {
    forall p :: p in s.calls && s.calls[p].current ==> !Backwards(s.tasks, s.calls[p])
  }

  ghost predicate UndisturbedFits(s: State) {
    forall p :: p in s.calls && s.calls[p].undisturbed ==> s.calls[p].current && !SavesDeep(s.tasks, s.calls[p])
  }

  lemma MadeInProject(projects: Tasks.Projects, s: State, op: Tasks.Op)
    requires Good(s) && Enabled(projects, s, Call(op))
    ensures forall x :: x in s.tasks && x in Called(projects, s.tasks, op) ==>
      Called(projects, s.tasks, op)[x].projectId == s.tasks[x].projectId
    ensures forall x :: x in Called(projects, s.tasks, op) && x !in s.tasks ==> op.Create? && x == op.id
  {
  }

  lemma CallGood(projects: Tasks.Projects, s: State, op: Tasks.Op)
    requires Good(s) && Enabled(projects, s, Call(op))
    ensures Good(Next(projects, s, Call(op)))
  {
    var s' := Next(projects, s, Call(op));
    Tasks.ApplyForestIff(projects, Tasks.State(s.tasks, []), op);
    MadeInProject(projects, s, op);
    forall p | p in s'.calls ensures InOneProject(s'.seen, s'.calls[p]) {
      assert InOneProject(s.seen, s.calls[p]);
    }
  }

  lemma CheckGood(projects: Tasks.Projects, s: State, step: Step)
    requires Good(s) && step.Check? && Enabled(projects, s, step)
    ensures Good(Next(projects, s, step))
  {
    var s', op := Next(projects, s, step), step.op;
    Tasks.MovesAccepted(projects, s.tasks, op);
    forall p | p in s'.calls ensures InOneProject(s'.seen, s'.calls[p]) {
      if p != step.pid {
        assert InOneProject(s.seen, s.calls[p]);
      }
    }
  }

  /** Nothing in a table lies below a row it does not have. */
  lemma NothingBelow(t: Table, id: Id)
    requires ParentsInProject(t) && id !in t
    ensures forall x, k: nat :: Ancestor(t, x, k) != Some(id)
  {
    forall x, k: nat ensures Ancestor(t, x, k) != Some(id) {
      if Ancestor(t, x, k) == Some(id) {
        NextAncestor(t, x, k);
        assert false;
      }
    }
  }

  /** A save of a row that is still there has the shape of a change of parent. */
  lemma SavedShape(t: Table, seen: map<Id, Id>, c: Pending)
    requires TasksSeen(t, seen) && InOneProject(seen, c) && c.id in t && (c.newParent.Some? ==> c.newParent.value in t)
    ensures Tasks.SameShape(Reparent(t, c.id, c.newParent), Saved(t, c))
    ensures Tasks.SameShape(Saved(t, c), Reparent(t, c.id, c.newParent))
  {
  }

  lemma SavedForestIff(t: Table, seen: map<Id, Id>, c: Pending)
    requires IsForest(t) && TasksSeen(t, seen) && InOneProject(seen, c)
    ensures IsForest(Saved(t, c)) <==> !Backwards(t, c)
  {
    if c.newParent.Some? && c.newParent.value !in t {
    } else if c.id !in t {
      NothingBelow(t, c.id);
      InsertIsForest(t, c.id, c.row.(parent := c.newParent));
    } else {
      SavedShape(t, seen, c);
      if c.newParent.Some? {
        ReparentForestIff(t, c.id, c.newParent.value);
      } else {
        ReparentIsForest(t, c.id, None);
      }
      if IsForest(Saved(t, c)) {
        Tasks.SameParentsSameForest(Saved(t, c), Reparent(t, c.id, c.newParent));
      } else if !Backwards(t, c) {
        Tasks.SameParentsSameForest(Reparent(t, c.id, c.newParent), Saved(t, c));
      }
    }
  }

  lemma SaveKeepsCalls(projects: Tasks.Projects, s: State, pid: Id)
    requires CallsInProject(s) && pid in s.calls
    ensures CallsInProject(Next(projects, s, Save(pid)))
  {
    var s', c := Next(projects, s, Save(pid)), s.calls[pid];
    assert InOneProject(s.seen, c);
    forall p | p in s'.calls ensures InOneProject(s'.seen, s'.calls[p]) {
      assert InOneProject(s.seen, s.calls[p]);
    }
  }

  // ---------------------------------------------------------------------------
  // When every state is a forest

  /** The step saves a parent that by now lies below its task. */
  ghost predicate ClosesCycle(s: State, step: Step) {
    step.Save? && step.pid in s.calls && Backwards(s.tasks, s.calls[step.pid])
  }

  lemma StepKeepsGood(projects: Tasks.Projects, s: State, step: Step)
    requires Good(s) && Enabled(projects, s, step) && !ClosesCycle(s, step)
    ensures Good(Next(projects, s, step))
  {
    match step
    case Call(op) => CallGood(projects, s, op);
    case Check(_, _) => CheckGood(projects, s, step);
    case Save(pid) =>
      SavedForestIff(s.tasks, s.seen, s.calls[pid]);
      SaveKeepsCalls(projects, s, pid);
    case Stop(_) =>
  }

  lemma ClosingBreaks(projects: Tasks.Projects, s: State, pid: Id)
    requires Good(s) && ClosesCycle(s, Save(pid))
    ensures !IsForest(Saved(s.tasks, s.calls[pid]))
  {
    SavedForestIff(s.tasks, s.seen, s.calls[pid]);
  }

  /** A step keeps the forest exactly if it does not save such a parent. */
  lemma StepGoodIff(projects: Tasks.Projects, s: State, step: Step)
    requires Good(s)
    ensures Good(Next(projects, s, step)) <==> !ClosesCycle(s, step)
    ensures ClosesCycle(s, step) ==> !IsForest(Next(projects, s, step).tasks)
  {
    if ClosesCycle(s, step) {
      ClosingBreaks(projects, s, step.pid);
    } else if Enabled(projects, s, step) {
      StepKeepsGood(projects, s, step);
    }
  }

  ghost predicate AlwaysForest(projects: Tasks.Projects, steps: seq<Step>)
    decreases |steps|
  {
    IsForest(Run(projects, steps).tasks) && (steps == [] || AlwaysForest(projects, steps[..|steps| - 1]))
  }

  ghost predicate NeverCloses(projects: Tasks.Projects, steps: seq<Step>)
    decreases |steps|
  {
    steps == [] ||
    var init := steps[..|steps| - 1];
    NeverCloses(projects, init) && !ClosesCycle(Run(projects, init), steps[|steps| - 1])
  }

  /**
   With moves interleaved in any way, every state of a run is a forest if and only if no move is
   saved when its new parent lies below the task.
   */
  lemma {:induction false} RunForestIff(projects: Tasks.Projects, steps: seq<Step>)
    ensures AlwaysForest(projects, steps) <==> NeverCloses(projects, steps)
    ensures AlwaysForest(projects, steps) ==> Good(Run(projects, steps))
    decreases |steps|
  {
    Tasks.EmptyIsForest();
    if steps != [] {
      RunForestIff(projects, steps[..|steps| - 1]);
      if AlwaysForest(projects, steps[..|steps| - 1]) {
        StepGoodIff(projects, Run(projects, steps[..|steps| - 1]), steps[|steps| - 1]);
      }
    }
  }

  /** The check of a move that already slips past it, see `Tasks.SlipsPast`. */
  ghost predicate ChecksSlipping(s: State, step: Step) {
    step.Check? && Tasks.SlipsPast(s.tasks, step.op)
  }

  /** No check lets a descendant slip past, and every move is saved before any other is saved after its check. */
  ghost predicate AlwaysCurrent(projects: Tasks.Projects, steps: seq<Step>)
    decreases |steps|
  {
    steps == [] ||
    var init, last := steps[..|steps| - 1], steps[|steps| - 1];
    && AlwaysCurrent(projects, init) && !ChecksSlipping(Run(projects, init), last)
    && (last.Save? && last.pid in Run(projects, init).calls ==> Run(projects, init).calls[last.pid].current)
  }

  lemma {:induction false} UpdateKeepsAncestor(t: Table, t': Table, x: Id, k: nat)
    requires Tasks.SameShape(t, t')
    ensures Ancestor(t', x, k) == Ancestor(t, x, k)
    decreases k
  {
    if k > 0 && x in t && t[x].parent.Some? {
      UpdateKeepsAncestor(t, t', t[x].parent.value, k - 1);
    }
  }

  /** What an atomic call leaves of ancestor chains from rows that were there: the same or nothing. */
  lemma CallKeepsAncestor(projects: Tasks.Projects, t: Table, op: Tasks.Op, x: Id, k: nat)
    requires ParentsInProject(t) && !op.Move? && (op.Create? ==> op.id !in t && op.id != x)
    requires Ancestor(Called(projects, t, op), x, k).Some?
    ensures Ancestor(Called(projects, t, op), x, k) == Ancestor(t, x, k)
  {
    var t' := Called(projects, t, op);
    if t' != t {
      match op
      case Create(_, _, _, _, _, _) => InsertKeepsAncestor(t, op.id, Tasks.NewRow(op), x, k);
      case Update(_, _, _, _, _, _) => UpdateKeepsAncestor(t, t', x, k);
      case Remove(_, _, _) => AncestorInRest(t, Subtree(t, op.taskId), x, k);
    }
  }

  lemma CallKeepsBackwards(projects: Tasks.Projects, s: State, op: Tasks.Op, c: Pending)
    requires Good(s) && Enabled(projects, s, Call(op)) && InOneProject(s.seen, c)
    ensures Backwards(Called(projects, s.tasks, op), c) ==> Backwards(s.tasks, c)
  {
    if Backwards(Called(projects, s.tasks, op), c) {
      var k: nat :| Ancestor(Called(projects, s.tasks, op), c.newParent.value, k) == Some(c.id);
      CallKeepsAncestor(projects, s.tasks, op, c.newParent.value, k);
    }
  }

  lemma StepKeepsCurrent(projects: Tasks.Projects, s: State, step: Step)
    requires Good(s) && CurrentFits(s) && !ChecksSlipping(s, step)
    ensures CurrentFits(Next(projects, s, step))
  {
    var s' := Next(projects, s, step);
    if Enabled(projects, s, step) {
      match step
      case Call(op) =>
        forall p | p in s'.calls && s'.calls[p].current ensures !Backwards(s'.tasks, s'.calls[p]) {
          assert InOneProject(s.seen, s.calls[p]);
          CallKeepsBackwards(projects, s, op, s.calls[p]);
        }
      case Check(_, op) => Tasks.MovesAccepted(projects, s.tasks, op);
      case _ =>
    }
  }

  /** Then the checks are as good as a transaction: the other calls and unsaved moves do no harm. */
  lemma {:induction false} CurrentMovesKeepForest(projects: Tasks.Projects, steps: seq<Step>)
    requires AlwaysCurrent(projects, steps)
    ensures AlwaysForest(projects, steps) && Good(Run(projects, steps)) && CurrentFits(Run(projects, steps))
    decreases |steps|
  {
    Tasks.EmptyIsForest();
    if steps != [] {
      var s, last := Run(projects, steps[..|steps| - 1]), steps[|steps| - 1];
      CurrentMovesKeepForest(projects, steps[..|steps| - 1]);
      assert !ClosesCycle(s, last);
      StepGoodIff(projects, s, last);
      StepKeepsCurrent(projects, s, last);
    }
  }

  // ---------------------------------------------------------------------------
  // When every state stays within MAX_DEPTH

  /** The step creates a task or saves a move that by now goes too deep. */
  ghost predicate GoesDeep(projects: Tasks.Projects, s: State, step: Step) {
    && Enabled(projects, s, step)
    && match step
       case Call(op) => Tasks.CreatesDeep(projects, Tasks.State(s.tasks, []), op)
       case Save(pid) => SavesDeep(s.tasks, s.calls[pid])
       case _ => false
  }

  lemma CallShallowIff(projects: Tasks.Projects, t: Table, op: Tasks.Op)
    requires Tasks.ShallowForest(t) && !op.Move? && (op.Create? ==> op.id !in t)
    ensures Tasks.ShallowForest(Called(projects, t, op)) <==> !Tasks.CreatesDeep(projects, Tasks.State(t, []), op)
  {
    Tasks.NextShallow(projects, Tasks.History(Tasks.State(t, []), map[]), op);
  }

  lemma SavedShallowIff(t: Table, seen: map<Id, Id>, c: Pending)
    requires Tasks.ShallowForest(t) && TasksSeen(t, seen) && InOneProject(seen, c) && !Backwards(t, c)
    ensures Tasks.ShallowForest(Saved(t, c)) <==> !SavesDeep(t, c)
  {
    SavedForestIff(t, seen, c);
    if c.newParent.Some? && c.newParent.value !in t {
    } else if c.id !in t {
      PutBackShallowIff(t, c);
    } else {
      MovedShallowIff(t, seen, c);
    }
  }

  lemma PutBackShallowIff(t: Table, c: Pending)
    requires Tasks.ShallowForest(t) && c.id !in t && IsForest(Saved(t, c))
    requires c.newParent.Some? ==> c.newParent.value in t && t[c.newParent.value].projectId == c.row.projectId
    ensures Tasks.ShallowForest(Saved(t, c)) <==> !SavesDeep(t, c)
  {
    InsertKeepsForest(t, c.id, c.row.(parent := c.newParent));
    assert c.id in Saved(t, c);
    if c.newParent.Some? {
      DepthOfAncestor(t, c.newParent.value, Tasks.MAX_DEPTH);
      NothingBelow(t, c.id);
    }
  }

  lemma MovedShallowIff(t: Table, seen: map<Id, Id>, c: Pending)
    requires Tasks.ShallowForest(t) && TasksSeen(t, seen) && InOneProject(seen, c) && !Backwards(t, c) && c.id in t
    requires c.newParent.Some? ==> c.newParent.value in t
    ensures Tasks.ShallowForest(Saved(t, c)) <==> !SavesDeep(t, c)
  {
    SavedShape(t, seen, c);
    SavedDepths(t, c);
    if c.newParent.Some? {
      Tasks.ShallowMeans(t, c.id, c.newParent.value);
      if Ancestor(t, c.newParent.value, Tasks.MAX_DEPTH).Some? {
        DeepParent(t, c.id, c.newParent.value);
      }
    }
  }

  lemma SavedDepths(t: Table, c: Pending)
    requires Tasks.ShallowForest(t) && c.id in t && ParentFits(t, c.id, c.newParent)
    requires Tasks.SameShape(Reparent(t, c.id, c.newParent), Saved(t, c))
    ensures Tasks.ShallowForest(Saved(t, c)) <==>
      forall x :: x in t && InSubtree(t, c.id, x) ==> DepthAfterMove(t, c.id, c.newParent, x) <= Tasks.MAX_DEPTH
    ensures c.newParent.None? ==> Tasks.ShallowForest(Saved(t, c))
  {
    ReparentKeepsForest(t, c.id, c.newParent);
    Tasks.SameParentsSameForest(Reparent(t, c.id, c.newParent), Saved(t, c));
    assert forall x :: x in t ==> Depth(Saved(t, c), x) == DepthAfterMove(t, c.id, c.newParent, x);
    assert Saved(t, c).Keys == t.Keys;
  }

  /** Under a parent at MAX_DEPTH already the moved task goes too deep. */
  lemma DeepParent(t: Table, id: Id, parent: Id)
    requires id in t && Ancestor(t, parent, Tasks.MAX_DEPTH).Some?
    ensures !Tasks.StaysShallow(t, id, parent)
  {
    assert Ancestor(t, id, 0) == Some(id);
  }

  lemma StepShallowIff(projects: Tasks.Projects, s: State, step: Step)
    requires Good(s) && Tasks.ShallowForest(s.tasks)
    ensures Tasks.ShallowForest(Next(projects, s, step).tasks) <==>
      !ClosesCycle(s, step) && !GoesDeep(projects, s, step)
  {
    StepGoodIff(projects, s, step);
    if Enabled(projects, s, step) && !ClosesCycle(s, step) {
      match step
      case Call(op) => CallShallowIff(projects, s.tasks, op);
      case Save(pid) => SavedShallowIff(s.tasks, s.seen, s.calls[pid]);
      case _ =>
    }
  }

  ghost predicate AlwaysShallow(projects: Tasks.Projects, steps: seq<Step>)
    decreases |steps|
  {
    Tasks.ShallowForest(Run(projects, steps).tasks) && (steps == [] || AlwaysShallow(projects, steps[..|steps| - 1]))
  }

  ghost predicate NeverDeep(projects: Tasks.Projects, steps: seq<Step>)
    decreases |steps|
  {
    steps == [] ||
    var init := steps[..|steps| - 1];
    NeverDeep(projects, init) && !GoesDeep(projects, Run(projects, init), steps[|steps| - 1])
  }

  lemma {:induction false} ShallowIsForest(projects: Tasks.Projects, steps: seq<Step>)
    requires AlwaysShallow(projects, steps)
    ensures AlwaysForest(projects, steps)
    decreases |steps|
  {
    if steps != [] {
      ShallowIsForest(projects, steps[..|steps| - 1]);
    }
  }

  /** Every state of a run is a forest within MAX_DEPTH exactly when no step of it closes a cycle or goes too deep. */
  lemma {:induction false} RunShallowIff(projects: Tasks.Projects, steps: seq<Step>)
    ensures AlwaysShallow(projects, steps) <==> NeverCloses(projects, steps) && NeverDeep(projects, steps)
    decreases |steps|
  {
    Tasks.EmptyIsForest();
    if steps != [] {
      var init := steps[..|steps| - 1];
      RunShallowIff(projects, init);
      if AlwaysShallow(projects, init) {
        ShallowIsForest(projects, init);
        RunForestIff(projects, init);
        StepShallowIff(projects, Run(projects, init), steps[|steps| - 1]);
      }
    }
  }

  /** Moreover no creation is asked to go too deep or comes between the check and the save of a move. */
  ghost predicate AlwaysUndisturbed(projects: Tasks.Projects, steps: seq<Step>)
    decreases |steps|
  {
    steps == [] ||
    var init, last := steps[..|steps| - 1], steps[|steps| - 1];
    var s := Run(projects, init);
    && AlwaysUndisturbed(projects, init) && !ChecksSlipping(s, last)
    && (last.Save? && last.pid in s.calls ==> s.calls[last.pid].undisturbed)
    && (last.Call? ==> !GoesDeep(projects, s, last))
  }

  lemma CallKeepsShallowSave(projects: Tasks.Projects, s: State, op: Tasks.Op, c: Pending)
    requires Good(s) && Enabled(projects, s, Call(op)) && !op.Create?
    requires InOneProject(s.seen, c) && !SavesDeep(s.tasks, c)
    ensures !SavesDeep(Called(projects, s.tasks, op), c)
  {
    var t' := Called(projects, s.tasks, op);
    MadeInProject(projects, s, op);
    if c.newParent.Some? && c.newParent.value in t' {
      forall x, k: nat | Ancestor(t', x, k).Some? ensures Ancestor(t', x, k) == Ancestor(s.tasks, x, k) {
        CallKeepsAncestor(projects, s.tasks, op, x, k);
      }
    }
  }

  lemma CheckIsShallow(projects: Tasks.Projects, s: State, step: Step)
    requires Good(s) && step.Check? && Enabled(projects, s, step)
    ensures !SavesDeep(s.tasks, Next(projects, s, step).calls[step.pid])
  {
    Tasks.MovesAccepted(projects, s.tasks, step.op);
    if step.op.newParent.Some? && Ancestor(s.tasks, step.op.newParent.value.id, Tasks.MAX_DEPTH).Some? {
      DeepParent(s.tasks, step.op.task.id, step.op.newParent.value.id);
    }
  }

  lemma StepKeepsUndisturbed(projects: Tasks.Projects, s: State, step: Step)
    requires Good(s) && UndisturbedFits(s)
    ensures UndisturbedFits(Next(projects, s, step))
  {
    var s' := Next(projects, s, step);
    if Enabled(projects, s, step) {
      match step
      case Call(op) =>
        forall p | p in s'.calls && s'.calls[p].undisturbed
          ensures s'.calls[p].current && !SavesDeep(s'.tasks, s'.calls[p])
        {
          assert InOneProject(s.seen, s.calls[p]);
          CallKeepsShallowSave(projects, s, op, s.calls[p]);
        }
      case Check(_, _) => CheckIsShallow(projects, s, step);
      case _ =>
    }
  }

  lemma {:induction false} UndisturbedIsCurrent(projects: Tasks.Projects, steps: seq<Step>)
    requires AlwaysUndisturbed(projects, steps)
    ensures AlwaysCurrent(projects, steps) && Good(Run(projects, steps))
    ensures CurrentFits(Run(projects, steps)) && UndisturbedFits(Run(projects, steps))
    decreases |steps|
  {
    Tasks.EmptyIsForest();
    if steps != [] {
      var s, last := Run(projects, steps[..|steps| - 1]), steps[|steps| - 1];
      UndisturbedIsCurrent(projects, steps[..|steps| - 1]);
      StepGoodIff(projects, s, last);
      StepKeepsCurrent(projects, s, last);
      StepKeepsUndisturbed(projects, s, last);
    }
  }

  /** Then the depth limit holds too. */
  lemma {:induction false} UndisturbedMovesStayShallow(projects: Tasks.Projects, steps: seq<Step>)
    requires AlwaysUndisturbed(projects, steps)
    ensures AlwaysShallow(projects, steps)
    decreases |steps|
  {
    Tasks.EmptyIsForest();
    if steps != [] {
      var s, last := Run(projects, steps[..|steps| - 1]), steps[|steps| - 1];
      UndisturbedMovesStayShallow(projects, steps[..|steps| - 1]);
      UndisturbedIsCurrent(projects, steps[..|steps| - 1]);
      StepShallowIff(projects, s, last);
    }
  }

  // ---------------------------------------------------------------------------
  // Two moves that meet

  /** Under any forest, once `a` is moved below `b`, every task below `a` lies below `b`. */
  lemma MovedBelow(t: Table, a: Id, p: Id, b: Id, q: Id)
    requires IsForest(t) && a in t && p in t && t[p].projectId == t[a].projectId
    requires !InSubtree(t, a, p) && InSubtree(t, b, p) && InSubtree(t, a, q)
    ensures InSubtree(Reparent(t, a, Some(p)), b, q)
  {
    var t' := Reparent(t, a, Some(p));
    var k: nat :| Ancestor(t, p, k) == Some(b);
    var m: nat :| Ancestor(t, q, m) == Some(a);
    PathElsewhereStays(t, a, Some(p), p, k);
    PathStays(t, a, Some(p), q, m);
    assert Ancestor(t', a, k + 1) == Some(b);
    AncestorAdd(t', q, m, k + 1);
  }

  ghost function CheckBothThenSaveBoth(projects: Tasks.Projects, s: State, first: Tasks.Op, second: Tasks.Op): State {
    var checked := Next(projects, Next(projects, s, Check(1, first)), Check(2, second));
    Next(projects, Next(projects, checked, Save(1)), Save(2))
  }

  /**
   For every forest: two moves, of `a` to below `b` and of `b` to below `a`, that each pass their
   checks, with ids written as the database prints them, leave `b` on a cycle if both are checked
   before both are saved; the descendants query from there has no empty round any more.
   */
  lemma TwoMovesMeet(projects: Tasks.Projects, s: State, first: Tasks.Op, second: Tasks.Op, scan: seq<Id>, n: nat)
    requires Good(s) && s.calls == map[]
    requires first.Move? && second.Move? && first.newParent.Some? && second.newParent.Some?
    requires first.newParent.value.AsStored() && second.newParent.value.AsStored()
    requires Tasks.MoveFails(projects, s.tasks, first).None? && Tasks.MoveFails(projects, s.tasks, second).None?
    requires InSubtree(s.tasks, second.task.id, first.newParent.value.id)
    requires InSubtree(s.tasks, first.task.id, second.newParent.value.id)
    requires Enumerates(scan, s.tasks)
    ensures var t := CheckBothThenSaveBoth(projects, s, first, second).tasks;
      && OnCycle(t, second.task.id) && Enumerates(scan, t)
      && Round(scan, ChildOf(t), StartAt(second.task.id), n) != []
  {
    var a, p, b, q := first.task.id, first.newParent.value.id, second.task.id, second.newParent.value.id;
    Tasks.MovesAccepted(projects, s.tasks, first);
    Tasks.MovesAccepted(projects, s.tasks, second);
    MovedBelow(s.tasks, a, p, b, q);
    ReparentIsForest(s.tasks, a, Some(p));
    var t1 := Reparent(s.tasks, a, Some(p));
    ReparentForestIff(t1, b, q);
    BothSaved(projects, s, first, second);
    CycleNeverEnds(Reparent(t1, b, Some(q)), scan, b, n);
  }

  lemma BothSaved(projects: Tasks.Projects, s: State, first: Tasks.Op, second: Tasks.Op)
    requires s.calls == map[] && first.Move? && second.Move? && first.newParent.Some? && second.newParent.Some?
    requires Tasks.MoveFails(projects, s.tasks, first).None? && Tasks.MoveFails(projects, s.tasks, second).None?
    requires first.task.id != second.task.id
    requires first.newParent.value.id in s.tasks && second.newParent.value.id in s.tasks
    ensures CheckBothThenSaveBoth(projects, s, first, second).tasks ==
      Reparent(Reparent(s.tasks, first.task.id, Some(first.newParent.value.id)), second.task.id,
        Some(second.newParent.value.id))
  {
    var c1 := Pending(first.task.id, s.tasks[first.task.id], Tasks.ValueOf(first.newParent), true, true);
    var c2 := Pending(second.task.id, s.tasks[second.task.id], Tasks.ValueOf(second.newParent), true, true);
    var s2 := Next(projects, Next(projects, s, Check(1, first)), Check(2, second));
    assert s2 == s.(calls := map[1 := c1, 2 := c2]);
    var s3 := Next(projects, s2, Save(1));
    assert s3.calls == map[2 := c2.(current := false, undisturbed := false)];
  }
}
