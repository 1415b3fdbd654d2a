/**
 The task service: what each operation does to the task table and the event log, and what holds
 after every sequence of operations.

 Each service call is one atomic step, as if it ran in a transaction of its own. An id of a
 request carries its text where the service compares text, and is its value where only the database sees it.
 */
module Tasks {
  import opened Forest
  import opened Cte

  /** Deepest level a move may place a task at (a task without parent is at level 0). */
  const MAX_DEPTH: nat := 5

  datatype Event =
    | Created(taskId: Id, projectId: Id, actorId: Id)
    | Assigned(taskId: Id, assignee: IdText, actorId: Id)
    | StatusChanged(taskId: Id, from: Status, to: Status, actorId: Id)
    | Completed(taskId: Id, actorId: Id, creatorId: Id)

  /** `QueryTimedOut` is a recursive query that does not end, `SelfParent` the table's check constraint. */
  datatype Error =
    | ProjectNotFound | TaskNotFound | ParentNotFound | OwnParent | WouldCycle | TooDeep | QueryTimedOut | SelfParent

  datatype Result = Ok(task: Task) | Err(error: Error)

  datatype CreateDto = CreateDto(
    title: string,
    description: Option<string>,
    priority: Option<Priority>,
    assignee: Option<IdText>,
    dueDate: Option<int>,
    parent: Option<Id>)

  /** `None` leaves a column alone; a nullable column takes `Some(None)` to clear it. */
  datatype UpdateDto = UpdateDto(
    title: Option<string>,
    description: Option<Option<string>>,
    status: Option<Status>,
    priority: Option<Priority>,
    assignee: Option<Option<IdText>>,
    dueDate: Option<Option<int>>)

  datatype State = State(tasks: Table, events: seq<Event>)

  datatype Op =
    | Create(workspaceId: Id, projectId: Id, createdBy: Id, dto: CreateDto, id: Id, now: int)
    | Update(workspaceId: Id, projectId: Id, taskId: Id, actorId: Id, changes: UpdateDto, now: int)
    | Remove(workspaceId: Id, projectId: Id, taskId: Id)
    | Move(workspaceId: Id, projectId: Id, task: IdText, newParent: Option<IdText>)

  /** Projects and the workspace each belongs to. */
  type Projects = map<Id, Id>

  predicate InProject(t: Table, projectId: Id, id: Id) {
    id in t && t[id].projectId == projectId
  }

  /** What `findOneOrFail` reports, if anything. */
  function FindFails(projects: Projects, t: Table, workspaceId: Id, projectId: Id, taskId: Id): Option<Error> {
    if !(projectId in projects && projects[projectId] == workspaceId) then Some(ProjectNotFound)
    else if !InProject(t, projectId, taskId) then Some(TaskNotFound)
    else None
  }

  function ValueOf(text: Option<IdText>): Option<Id> {
    if text.Some? then Some(text.value.id) else None
  }

  function TextOf(id: Option<Id>): Option<IdText> {
    if id.Some? then Some(Stored(id.value)) else None
  }

  // ---------------------------------------------------------------------------
  // Create

  function NewRow(op: Op): Task
    requires op.Create?
  {
    Task(op.projectId, op.dto.parent, op.dto.title, op.dto.description, TODO, op.dto.priority.GetOr(MEDIUM),
         ValueOf(op.dto.assignee), op.createdBy, op.dto.dueDate, None, op.now)
  }

  function CreateEvents(op: Op): seq<Event>
    requires op.Create?
  {
    [Created(op.id, op.projectId, op.createdBy)] +
    if op.dto.assignee.Some? then [Assigned(op.id, op.dto.assignee.value, op.createdBy)] else []
  }

  function CreateSpec(projects: Projects, s: State, op: Op): (State, Result)
    requires op.Create?
  {
    if !(op.projectId in projects && projects[op.projectId] == op.workspaceId) then (s, Err(ProjectNotFound))
    else if op.dto.parent.Some? && !InProject(s.tasks, op.projectId, op.dto.parent.value) then (s, Err(ParentNotFound))
    else (State(s.tasks[op.id := NewRow(op)], s.events + CreateEvents(op)), Ok(NewRow(op)))
  }

  // ---------------------------------------------------------------------------
  // Update

  function UpdatedRow(row: Task, dto: UpdateDto, now: int): Task {
    row.(title := dto.title.GetOr(row.title),
         description := dto.description.GetOr(row.description),
         priority := dto.priority.GetOr(row.priority),
         assignee := if dto.assignee.Some? then ValueOf(dto.assignee.value) else row.assignee,
         dueDate := dto.dueDate.GetOr(row.dueDate),
         status := dto.status.GetOr(row.status),
         completedAt := if dto.status.None? then row.completedAt
                        else if dto.status.value == DONE then Some(now) else None)
  }

  /** Texts are compared, so naming the present assignee in another spelling counts as a change. */
  function AssignEvents(op: Op, before: Task): seq<Event>
    requires op.Update?
  {
    var given := op.changes.assignee;
    if given.Some? && given.value != TextOf(before.assignee) && given.value.Some?
    then [Assigned(op.taskId, given.value.value, op.actorId)] else []
  }

  function StatusEvents(op: Op, before: Task, after: Task): seq<Event>
    requires op.Update?
  {
    if before.status == after.status then []
    else
      [StatusChanged(op.taskId, before.status, after.status, op.actorId)] +
      if after.status == DONE then [Completed(op.taskId, op.actorId, after.createdBy)] else []
  }

  /** The events as the service emits them, from the request and the row before and after. */
  function SavedEvents(taskId: Id, actorId: Id, dto: UpdateDto, before: Task, task: Task): seq<Event> {
    (if dto.assignee.Some? && dto.assignee.value != TextOf(before.assignee) && dto.assignee.value.Some?
     then [Assigned(taskId, dto.assignee.value.value, actorId)] else []) +
    (if dto.status.Some? && dto.status.value != before.status
     then [StatusChanged(taskId, before.status, task.status, actorId)] +
       (if task.status == DONE then [Completed(taskId, actorId, task.createdBy)] else [])
     else [])
  }

  lemma UpdateEvents(events: seq<Event>, op: Op, before: Task)
    requires op.Update?
    ensures var task := UpdatedRow(before, op.changes, op.now);
      events + SavedEvents(op.taskId, op.actorId, op.changes, before, task) ==
      events + AssignEvents(op, before) + StatusEvents(op, before, task)
  {
    var task := UpdatedRow(before, op.changes, op.now);
    var told, changed := AssignEvents(op, before), StatusEvents(op, before, task);
    assert SavedEvents(op.taskId, op.actorId, op.changes, before, task) == told + changed;
    assert events + (told + changed) == events + told + changed;
  }

  function UpdateSpec(projects: Projects, s: State, op: Op): (State, Result)
    requires op.Update?
  {
    match FindFails(projects, s.tasks, op.workspaceId, op.projectId, op.taskId)
    case Some(e) => (s, Err(e))
    case None =>
      var before := s.tasks[op.taskId];
      var after := UpdatedRow(before, op.changes, op.now);
      (State(s.tasks[op.taskId := after], s.events + AssignEvents(op, before) + StatusEvents(op, before, after)),
       Ok(after))
  }

  // ---------------------------------------------------------------------------
  // Remove

  ghost function RemoveSpec(projects: Projects, s: State, op: Op): (State, Result)
    requires op.Remove?
  {
    match FindFails(projects, s.tasks, op.workspaceId, op.projectId, op.taskId)
    case Some(e) => (s, Err(e))
    case None => (s.(tasks := s.tasks - Subtree(s.tasks, op.taskId)), Ok(s.tasks[op.taskId]))
  }

  // ---------------------------------------------------------------------------
  // Move

  /**
   Under `parent` every task of the subtree of `id`, at distance `k` from it, would have at most
   MAX_DEPTH above it.
   */
  ghost predicate StaysShallow(t: Table, id: Id, parent: Id) {
    forall x, j: nat, k: nat ::
      Ancestor(t, x, k) == Some(id) && Ancestor(t, parent, j).Some? ==> j + 1 + k <= MAX_DEPTH
  }

  /** What the queries and checks for a new parent find wrong with it. */
  ghost function ParentFails(t: Table, task: IdText, parent: IdText): Option<Error> {
    if OnCycle(t, task.id) then Some(QueryTimedOut)
    else if parent.AsStored() && InSubtree(t, task.id, parent.id) then Some(WouldCycle)
    else if !Grounded(t, parent.id) then Some(QueryTimedOut)
    else if !StaysShallow(t, task.id, parent.id) then Some(TooDeep)
    else if parent.id == task.id then Some(SelfParent)
    else None
  }

  /** The reason a move is refused, if it is. */
  ghost function MoveFails(projects: Projects, t: Table, op: Op): Option<Error>
    requires op.Move?
  {
    match FindFails(projects, t, op.workspaceId, op.projectId, op.task.id)
    case Some(e) => Some(e)
    case None =>
      if op.newParent.None? then None
      else if op.newParent.value == op.task then Some(OwnParent)
      else if !InProject(t, op.projectId, op.newParent.value.id) then Some(ParentNotFound)
      else ParentFails(t, op.task, op.newParent.value)
  }

  ghost function MoveSpec(projects: Projects, s: State, op: Op): (State, Result)
    requires op.Move?
  {
    match MoveFails(projects, s.tasks, op)
    case Some(e) => (s, Err(e))
    case None =>
      var tasks := Reparent(s.tasks, op.task.id, ValueOf(op.newParent));
      (s.(tasks := tasks), Ok(tasks[op.task.id]))
  }

  /** In a forest that is the depth of every moved task after the move. */
  lemma ShallowMeans(t: Table, id: Id, parent: Id)
    requires IsForest(t) && id in t && parent in t
    ensures StaysShallow(t, id, parent) <==>
      forall x :: x in t && InSubtree(t, id, x) ==> DepthAfterMove(t, id, Some(parent), x) <= MAX_DEPTH
  {
    var after := forall x :: x in t && InSubtree(t, id, x) ==> DepthAfterMove(t, id, Some(parent), x) <= MAX_DEPTH;
    if StaysShallow(t, id, parent) {
      forall x | x in t && InSubtree(t, id, x) ensures DepthAfterMove(t, id, Some(parent), x) <= MAX_DEPTH {
        InSubtreeDeeper(t, id, x);
        DepthOfAncestor(t, parent, Depth(t, parent));
        assert Ancestor(t, x, Depth(t, x) - Depth(t, id)) == Some(id);
      }
    }
    if after {
      forall x, j: nat, k: nat | Ancestor(t, x, k) == Some(id) && Ancestor(t, parent, j).Some?
        ensures j + 1 + k <= MAX_DEPTH
      {
        AncestorDistance(t, id, x, k);
        DepthOfAncestor(t, parent, j);
        assert DepthAfterMove(t, id, Some(parent), x) <= MAX_DEPTH;
      }
    }
  }

  /**
   The test the service makes, one sum over the height of the subtree found by the downward
   query and the depth found by the upward query, decides whether every moved task stays
   shallow enough.
   */
  lemma HeightDecides(t: Table, scan: seq<Id>, id: Id, parent: Id)
    requires ParentsInProject(t) && Enumerates(scan, t) && id in t && parent in t
    requires !OnCycle(t, id) && Grounded(t, parent)
    ensures DepthOf(t, scan, parent) + 1 + MaxDepth(Descendants(t, scan, id)) <= MAX_DEPTH <==>
      StaysShallow(t, id, parent)
  {
    var rows := Descendants(t, scan, id);
    AncestorsExact(t, scan, parent);
    DescendantsExact(t, scan, id);
    MaxDepthIsMax(rows);
    assert CteRow(id, 0) in rows;
    var lowest :| lowest in rows && lowest.depth == MaxDepth(rows);
    assert Ancestor(t, lowest.id, lowest.depth) == Some(id);
    assert Ancestor(t, parent, DepthOf(t, scan, parent)).Some?;
    if DepthOf(t, scan, parent) + 1 + MaxDepth(rows) <= MAX_DEPTH {
      forall x, j: nat, k: nat | Ancestor(t, x, k) == Some(id) && Ancestor(t, parent, j).Some?
        ensures j + 1 + k <= MAX_DEPTH
      {
        assert CteRow(x, k) in rows;
      }
    }
  }

  /** The downward query finds a row exactly when it is in the subtree. */
  lemma DescendantsDecide(t: Table, scan: seq<Id>, id: Id, x: Id)
    requires Enumerates(scan, t) && id in t && !OnCycle(t, id)
    ensures (exists r :: r in Descendants(t, scan, id) && r.id == x) <==> InSubtree(t, id, x)
  {
    if InSubtree(t, id, x) {
      var k: nat :| Ancestor(t, x, k) == Some(id);
      DescendantsRow(t, scan, id, CteRow(x, k));
    }
    if r :| r in Descendants(t, scan, id) && r.id == x {
      DescendantsRow(t, scan, id, r);
    }
  }

  /** The test of the service, which compares the printed ids of the rows with the text of the request. */
  lemma TextDecides(t: Table, scan: seq<Id>, id: Id, text: IdText)
    requires Enumerates(scan, t) && id in t && !OnCycle(t, id)
    ensures (exists r :: r in Descendants(t, scan, id) && Stored(r.id) == text) <==>
      text.AsStored() && InSubtree(t, id, text.id)
  {
    DescendantsDecide(t, scan, id, text.id);
    if r :| r in Descendants(t, scan, id) && r.id == text.id && text.AsStored() {
      assert Stored(r.id) == text;
    }
  }

  // ---------------------------------------------------------------------------
  // Runs

  /** Ids come from `gen_random_uuid()`: never one seen before. */
  ghost predicate Fresh(s: State, id: Id) {
    id !in s.tasks && forall e :: e in s.events ==> e.taskId != id
  }

  ghost function Apply(projects: Projects, s: State, op: Op): (State, Result) {
    match op
    case Create(_, _, _, _, _, _) => CreateSpec(projects, s, op)
    case Update(_, _, _, _, _, _) => UpdateSpec(projects, s, op)
    case Remove(_, _, _) => RemoveSpec(projects, s, op)
    case Move(_, _, _, _) => MoveSpec(projects, s, op)
  }

  ghost predicate Allowed(s: State, op: Op) {
    op.Create? ==> Fresh(s, op.id)
  }

  // ---------------------------------------------------------------------------
  // What a call gives its caller, said by columns and conditions of the request

  predicate InWorkspace(projects: Projects, workspaceId: Id, projectId: Id) {
    projectId in projects && projects[projectId] == workspaceId
  }

  ghost predicate OthersStay(before: Table, after: Table, id: Id) {
    forall x :: x != id ==> (x in after <==> x in before) && (x in before ==> after[x] == before[x])
  }

  /**
   Success exactly for a task of the project, which is one of the workspace; a failure says what is
   missing and changes nothing.
   */
  ghost predicate FoundOrFails(projects: Projects, before: State, after: State, workspaceId: Id, projectId: Id,
      taskId: Id, r: Result)
  {
    && (r == Err(ProjectNotFound) <==> !InWorkspace(projects, workspaceId, projectId))
    && (r == Err(TaskNotFound) <==>
          InWorkspace(projects, workspaceId, projectId) &&
            !(taskId in before.tasks && before.tasks[taskId].projectId == projectId))
    && (r.Err? ==> after == before)
  }

  /** The row a creation stores. */
  ghost predicate StoresNew(row: Task, op: Op)
    requires op.Create?
  {
    && row.projectId == op.projectId && row.parent == op.dto.parent && row.title == op.dto.title
    && row.description == op.dto.description && row.status == TODO && row.dueDate == op.dto.dueDate
    && row.priority == (if op.dto.priority.Some? then op.dto.priority.value else MEDIUM)
    && (if op.dto.assignee.Some? then row.assignee == Some(op.dto.assignee.value.id) else row.assignee == None)
    && row.createdBy == op.createdBy && row.createdAt == op.now && row.completedAt == None
  }

  /** Fails exactly for a missing project or parent, else stores the row and logs the creation and the assignment. */
  ghost predicate CreateResult(projects: Projects, before: State, after: State, op: Op, r: Result)
    requires op.Create?
  {
    var parentMissing := op.dto.parent.Some? &&
      !(op.dto.parent.value in before.tasks && before.tasks[op.dto.parent.value].projectId == op.projectId);
    && (r == Err(ProjectNotFound) <==> !InWorkspace(projects, op.workspaceId, op.projectId))
    && (r == Err(ParentNotFound) <==> InWorkspace(projects, op.workspaceId, op.projectId) && parentMissing)
    && (r.Err? ==> (r.error == ProjectNotFound || r.error == ParentNotFound) && after == before)
    && (r.Ok? ==>
          && op.id in after.tasks && after.tasks[op.id] == r.task && OthersStay(before.tasks, after.tasks, op.id)
          && StoresNew(r.task, op)
          && after.events == before.events + [Created(op.id, op.projectId, op.createdBy)] +
             (if op.dto.assignee.Some? then [Assigned(op.id, op.dto.assignee.value, op.createdBy)] else []))
  }

  lemma CreateGives(projects: Projects, s: State, op: Op)
    requires op.Create?
    ensures var (s', r) := Apply(projects, s, op); CreateResult(projects, s, s', op, r)
  {
    var (s', r) := Apply(projects, s, op);
    if r.Ok? {
      var made := [Created(op.id, op.projectId, op.createdBy)];
      var given := if op.dto.assignee.Some? then [Assigned(op.id, op.dto.assignee.value, op.createdBy)] else [];
      assert s.events + made + given == s.events + (made + given);
    }
  }

  /**
   Each given column has the given value, each other column its old one, and the completion time
   follows a given status.
   */
  ghost predicate StoresGiven(was: Task, row: Task, dto: UpdateDto, now: int) {
    && row.title == (if dto.title.Some? then dto.title.value else was.title)
    && row.description == (if dto.description.Some? then dto.description.value else was.description)
    && row.status == (if dto.status.Some? then dto.status.value else was.status)
    && row.priority == (if dto.priority.Some? then dto.priority.value else was.priority)
    && row.dueDate == (if dto.dueDate.Some? then dto.dueDate.value else was.dueDate)
    && (dto.assignee.None? ==> row.assignee == was.assignee)
    && (dto.assignee == Some(None) ==> row.assignee == None)
    && (dto.assignee.Some? && dto.assignee.value.Some? ==> row.assignee == Some(dto.assignee.value.value.id))
    && (dto.status.None? ==> row.completedAt == was.completedAt)
    && (dto.status.Some? ==> row.completedAt == if dto.status.value == DONE then Some(now) else None)
    && row.projectId == was.projectId && row.parent == was.parent
    && row.createdBy == was.createdBy && row.createdAt == was.createdAt
  }

  /** Someone is named who is not the present assignee, or is in another spelling. */
  predicate NamesAnother(was: Task, dto: UpdateDto) {
    && dto.assignee.Some? && dto.assignee.value.Some?
    && !(was.assignee == Some(dto.assignee.value.value.id) && dto.assignee.value.value.AsStored())
  }

  /**
   The events of an update: the assignment, then the change of status, then the completion, each
   exactly in its case.
   */
  ghost function UpdateLog(was: Task, op: Op): seq<Event>
    requires op.Update?
  {
    var dto := op.changes;
    (if NamesAnother(was, dto) then [Assigned(op.taskId, dto.assignee.value.value, op.actorId)] else []) +
    (if dto.status.Some? && dto.status.value != was.status
     then [StatusChanged(op.taskId, was.status, dto.status.value, op.actorId)] else []) +
    (if dto.status == Some(DONE) && was.status != DONE then [Completed(op.taskId, op.actorId, was.createdBy)] else [])
  }

  ghost predicate UpdateResult(projects: Projects, before: State, after: State, op: Op, r: Result)
    requires op.Update?
  {
    && FoundOrFails(projects, before, after, op.workspaceId, op.projectId, op.taskId, r)
    && (r.Err? ==> r.error == ProjectNotFound || r.error == TaskNotFound)
    && (r.Ok? ==>
          && op.taskId in before.tasks && op.taskId in after.tasks && after.tasks[op.taskId] == r.task
          && OthersStay(before.tasks, after.tasks, op.taskId)
          && StoresGiven(before.tasks[op.taskId], r.task, op.changes, op.now)
          && after.events == before.events + UpdateLog(before.tasks[op.taskId], op))
  }

  lemma UpdateGives(projects: Projects, s: State, op: Op)
    requires op.Update?
    ensures var (s', r) := Apply(projects, s, op); UpdateResult(projects, s, s', op, r)
  {
    var (s', r) := Apply(projects, s, op);
    if r.Ok? {
      var was := s.tasks[op.taskId];
      UpdateLogs(was, op);
      assert s.events + AssignEvents(op, was) + StatusEvents(op, was, r.task) ==
        s.events + (AssignEvents(op, was) + StatusEvents(op, was, r.task));
    }
  }

  lemma UpdateLogs(was: Task, op: Op)
    requires op.Update?
    ensures AssignEvents(op, was) + StatusEvents(op, was, UpdatedRow(was, op.changes, op.now)) == UpdateLog(was, op)
  {
  }

  /** The task and everything below it is gone, every other row is as it was, and nothing is logged. */
  ghost predicate RemoveResult(projects: Projects, before: State, after: State, op: Op, r: Result)
    requires op.Remove?
  {
    && FoundOrFails(projects, before, after, op.workspaceId, op.projectId, op.taskId, r)
    && (r.Err? ==> r.error == ProjectNotFound || r.error == TaskNotFound)
    && after.events == before.events
    && (r.Ok? ==>
          && (forall x :: x in after.tasks <==>
                x in before.tasks && forall k: nat :: Ancestor(before.tasks, x, k) != Some(op.taskId))
          && (forall x :: x in after.tasks ==> after.tasks[x] == before.tasks[x]))
  }

  lemma RemoveGives(projects: Projects, s: State, op: Op)
    requires op.Remove?
    ensures var (s', r) := Apply(projects, s, op); RemoveResult(projects, s, s', op, r)
  {
  }

  /**
   When a move in a forest is accepted: project and task are found, and the new parent is none, or
   another task of the project that is not a descendant written as the database prints it, under which no moved
   task comes to lie deeper than allowed. (Under a descendant there is no depth, but the same sum is made.)
   */
  ghost predicate MoveAllowed(projects: Projects, t: Table, op: Op)
    requires op.Move? && IsForest(t)
  {
    && InWorkspace(projects, op.workspaceId, op.projectId)
    && op.task.id in t && t[op.task.id].projectId == op.projectId
    && (op.newParent.None? ||
        var p := op.newParent.value;
        && p.id in t && t[p.id].projectId == op.projectId && p.id != op.task.id
        && !(p.AsStored() && InSubtree(t, op.task.id, p.id))
        && (if InSubtree(t, op.task.id, p.id) then StaysShallow(t, op.task.id, p.id)
            else forall x :: x in t && InSubtree(t, op.task.id, x) ==>
              DepthAfterMove(t, op.task.id, Some(p.id), x) <= 5))
  }

  /** Only the parent changes, to the one asked for, and nothing is logged; a refused move changes nothing. */
  ghost predicate MoveResult(before: State, after: State, op: Op, r: Result)
    requires op.Move?
  {
    && after.events == before.events
    && (r.Err? ==> after == before)
    && (r.Ok? ==>
          && op.task.id in before.tasks && op.task.id in after.tasks && after.tasks[op.task.id] == r.task
          && OthersStay(before.tasks, after.tasks, op.task.id)
          && r.task == before.tasks[op.task.id].(parent := r.task.parent)
          && (if op.newParent.None? then r.task.parent == None else r.task.parent == Some(op.newParent.value.id)))
  }

  lemma MoveGives(projects: Projects, s: State, op: Op)
    requires op.Move?
    ensures var (s', r) := Apply(projects, s, op); MoveResult(s, s', op, r)
  {
  }

  /** In a forest a move is accepted exactly under that condition. */
  lemma MoveAllowedIff(projects: Projects, s: State, op: Op)
    requires op.Move? && IsForest(s.tasks)
    ensures Apply(projects, s, op).1.Ok? <==> MoveAllowed(projects, s.tasks, op)
  {
    var t := s.tasks;
    if op.newParent.Some? && op.task.id in t && op.newParent.value.id in t {
      InSubtreeSelf(t, op.task.id);
      ForestGrounded(t, op.task.id);
      ForestGrounded(t, op.newParent.value.id);
      ShallowMeans(t, op.task.id, op.newParent.value.id);
    }
  }

  /** What a refusal in a forest says, in the order the checks are made. */
  lemma MoveRefusals(projects: Projects, s: State, op: Op)
    requires op.Move? && IsForest(s.tasks)
    ensures var r, t := Apply(projects, s, op).1, s.tasks;
      var found := InWorkspace(projects, op.workspaceId, op.projectId) && InProject(t, op.projectId, op.task.id);
      && (r == Err(ProjectNotFound) <==> !InWorkspace(projects, op.workspaceId, op.projectId))
      && (r == Err(TaskNotFound) <==>
            InWorkspace(projects, op.workspaceId, op.projectId) && !InProject(t, op.projectId, op.task.id))
      && (r == Err(OwnParent) <==> found && op.newParent == Some(op.task))
      && (op.newParent.Some? && op.newParent.value != op.task ==>
            var p := op.newParent.value;
            && (r == Err(ParentNotFound) <==> found && !InProject(t, op.projectId, p.id))
            && (r == Err(WouldCycle) <==>
                  found && p.AsStored() && InProject(t, op.projectId, p.id) && InSubtree(t, op.task.id, p.id)))
      && r != Err(QueryTimedOut)
  {
    if op.newParent.Some? {
      ForestGrounded(s.tasks, op.task.id);
      ForestGrounded(s.tasks, op.newParent.value.id);
    }
  }

  // ---------------------------------------------------------------------------
  // What every operation keeps

  /** Every operation keeps parents inside their project. */
  lemma ApplyKeepsProjects(projects: Projects, s: State, op: Op)
    requires ParentsInProject(s.tasks) && Allowed(s, op)
    ensures ParentsInProject(Apply(projects, s, op).0.tasks)
  {
    if op.Remove? && Apply(projects, s, op).1.Ok? {
      RemoveKeepsProjects(s.tasks, op.taskId);
    }
  }

  lemma RemoveKeepsProjects(t: Table, id: Id)
    requires ParentsInProject(t) && id in t
    ensures ParentsInProject(t - Subtree(t, id))
  {
    var rest := t - Subtree(t, id);
    forall x | x in rest && rest[x].parent.Some? ensures rest[x].parent.value in rest {
      InSubtreeSelf(t, id);
      InSubtreeParent(t, id, x);
    }
  }

  /**
   The move gets past the check for cycles although the new parent is another task of the moved
   subtree: its id is not written as the database prints it.
   */
  ghost predicate SlipsPast(t: Table, op: Op) {
    && op.Move? && op.newParent.Some? && !op.newParent.value.AsStored()
    && op.newParent.value.id != op.task.id && InSubtree(t, op.task.id, op.newParent.value.id)
  }

  /** And it passes the other checks. */
  ghost predicate ClosesCycle(projects: Projects, t: Table, op: Op) {
    && SlipsPast(t, op)
    && FindFails(projects, t, op.workspaceId, op.projectId, op.task.id).None?
    && StaysShallow(t, op.task.id, op.newParent.value.id)
  }

  lemma {:induction false} SubtreeInProject(t: Table, id: Id, x: Id, k: nat)
    requires ParentsInProject(t) && Ancestor(t, x, k) == Some(id)
    ensures x in t && id in t && t[x].projectId == t[id].projectId
    decreases k
  {
    if k > 0 {
      SubtreeInProject(t, id, t[x].parent.value, k - 1);
    }
  }

  /** Such a move is not refused, and a move that is not refused is such a one or has a fitting parent. */
  lemma MovesAccepted(projects: Projects, t: Table, op: Op)
    requires IsForest(t) && op.Move?
    ensures ClosesCycle(projects, t, op) ==> MoveFails(projects, t, op).None?
    ensures MoveFails(projects, t, op).None? && !ClosesCycle(projects, t, op) ==>
      op.task.id in t && ParentFits(t, op.task.id, ValueOf(op.newParent))
    ensures MoveFails(projects, t, op).None? && op.newParent.Some? ==>
      StaysShallow(t, op.task.id, op.newParent.value.id)
  {
    if ClosesCycle(projects, t, op) {
      var k: nat :| Ancestor(t, op.newParent.value.id, k) == Some(op.task.id);
      SubtreeInProject(t, op.task.id, op.newParent.value.id, k);
      ForestGrounded(t, op.task.id);
      ForestGrounded(t, op.newParent.value.id);
    }
  }

  /** A move keeps the forest exactly unless it is such a move; then the moved task lies on a cycle. */
  lemma MoveForestIff(projects: Projects, s: State, op: Op)
    requires IsForest(s.tasks) && op.Move?
    ensures IsForest(Apply(projects, s, op).0.tasks) <==> !ClosesCycle(projects, s.tasks, op)
    ensures ClosesCycle(projects, s.tasks, op) ==> OnCycle(Apply(projects, s, op).0.tasks, op.task.id)
  {
    MovesAccepted(projects, s.tasks, op);
    if MoveFails(projects, s.tasks, op).None? {
      if op.newParent.Some? {
        ReparentForestIff(s.tasks, op.task.id, op.newParent.value.id);
      } else {
        ReparentIsForest(s.tasks, op.task.id, None);
      }
    }
  }

  /** Every other operation keeps it in any case. */
  lemma ApplyForestIff(projects: Projects, s: State, op: Op)
    requires IsForest(s.tasks) && Allowed(s, op)
    ensures IsForest(Apply(projects, s, op).0.tasks) <==> !ClosesCycle(projects, s.tasks, op)
  {
    match op
    case Create(_, _, _, _, _, _) =>
      if Apply(projects, s, op).1.Ok? {
        InsertKeepsForest(s.tasks, op.id, NewRow(op));
      }
    case Update(_, _, _, _, _, _) =>
      if Apply(projects, s, op).1.Ok? {
        SameParentsSameForest(s.tasks, Apply(projects, s, op).0.tasks);
      }
    case Remove(_, _, _) =>
      if Apply(projects, s, op).1.Ok? {
        RemoveKeepsForest(s.tasks, op.taskId);
      }
    case Move(_, _, _, _) => MoveForestIff(projects, s, op);
  }

  ghost predicate SameShape(t: Table, t': Table) {
    t.Keys == t'.Keys && forall x :: x in t ==> t'[x].parent == t[x].parent && t'[x].projectId == t[x].projectId
  }

  lemma SameParentsSameForest(t: Table, t': Table)
    requires IsForest(t) && SameShape(t, t')
    ensures IsForest(t')
    ensures forall x :: x in t ==> Depth(t', x) == Depth(t, x)
  {
    assert Ranks(t', Rank(t));
    RankedHasNoCycle(t', Rank(t));
    forall x | x in t ensures Depth(t', x) == Depth(t, x) {
      SameParentsSameDepth(t, t', x);
    }
  }

  lemma {:induction false} SameParentsSameDepth(t: Table, t': Table, x: Id)
    requires IsForest(t) && IsForest(t') && x in t && SameShape(t, t')
    ensures Depth(t', x) == Depth(t, x)
    decreases Depth(t, x)
  {
    if t[x].parent.Some? {
      SameParentsSameDepth(t, t', t[x].parent.value);
    }
  }

  /** A state together with the depth each task had when it was created. */
  datatype History = History(state: State, born: map<Id, nat>)

  ghost function DepthAtBirth(t: Table, x: Id): nat {
    if IsForest(t) && x in t then Depth(t, x) else 0
  }

  ghost function Next(projects: Projects, h: History, op: Op): History {
    if !Allowed(h.state, op) then h
    else
      var (s, r) := Apply(projects, h.state, op);
      History(s, if op.Create? && r.Ok? then h.born[op.id := DepthAtBirth(s.tasks, op.id)] else h.born)
  }

  /** The history after performing `ops` in order on an empty table; operations may fail. */
  ghost function Run(projects: Projects, ops: seq<Op>): History
    decreases |ops|
  {
    if ops == [] then History(State(map[], []), map[])
    else Next(projects, Run(projects, ops[..|ops| - 1]), ops[|ops| - 1])
  }

  lemma EmptyIsForest()
    ensures IsForest(map[])
  {
    RankedHasNoCycle(map[], map[]);
  }

  lemma {:induction false} RunKeepsProjects(projects: Projects, ops: seq<Op>)
    ensures ParentsInProject(Run(projects, ops).state.tasks)
    decreases |ops|
  {
    if ops != [] {
      var s := Run(projects, ops[..|ops| - 1]).state;
      RunKeepsProjects(projects, ops[..|ops| - 1]);
      if Allowed(s, ops[|ops| - 1]) {
        ApplyKeepsProjects(projects, s, ops[|ops| - 1]);
      }
    }
  }

  // ---------------------------------------------------------------------------
  // When the table stays a forest

  /** Every state of the run is a forest. */
  ghost predicate AlwaysForest(projects: Projects, ops: seq<Op>)
    decreases |ops|
  {
    IsForest(Run(projects, ops).state.tasks) && (ops != [] ==> AlwaysForest(projects, ops[..|ops| - 1]))
  }

  /** No operation of the run is a move that closes a cycle. */
  ghost predicate NeverCloses(projects: Projects, ops: seq<Op>)
    decreases |ops|
  {
    ops != [] ==>
      && NeverCloses(projects, ops[..|ops| - 1])
      && !ClosesCycle(projects, Run(projects, ops[..|ops| - 1]).state.tasks, ops[|ops| - 1])
  }

  lemma NextForestIff(projects: Projects, h: History, op: Op)
    requires IsForest(h.state.tasks)
    ensures IsForest(Next(projects, h, op).state.tasks) <==> !ClosesCycle(projects, h.state.tasks, op)
  {
    if Allowed(h.state, op) {
      ApplyForestIff(projects, h.state, op);
    }
  }

  /** Every state of a run is a forest exactly when no move in it closes a cycle. */
  lemma {:induction false} RunForestIff(projects: Projects, ops: seq<Op>)
    ensures AlwaysForest(projects, ops) <==> NeverCloses(projects, ops)
    decreases |ops|
  {
    EmptyIsForest();
    if ops != [] {
      RunForestIff(projects, ops[..|ops| - 1]);
      if AlwaysForest(projects, ops[..|ops| - 1]) {
        NextForestIff(projects, Run(projects, ops[..|ops| - 1]), ops[|ops| - 1]);
      }
    }
  }

  /** In particular when new parents are written as the database prints them. */
  lemma {:induction false} StoredTextsKeepForest(projects: Projects, ops: seq<Op>)
    requires forall op :: op in ops && op.Move? && op.newParent.Some? ==> op.newParent.value.AsStored()
    ensures AlwaysForest(projects, ops)
    decreases |ops|
  {
    EmptyIsForest();
    if ops != [] {
      StoredTextsKeepForest(projects, ops[..|ops| - 1]);
      assert ops[|ops| - 1] in ops;
      NextForestIff(projects, Run(projects, ops[..|ops| - 1]), ops[|ops| - 1]);
    }
  }

  /** A task and its one child, as two creations leave them. */
  ghost predicate ParentAndChild(t: Table, projectId: Id, a: Id, b: Id) {
    && a != b && t.Keys == {a, b} && t[a].parent == None && t[b].parent == Some(a)
    && t[a].projectId == projectId && t[b].projectId == projectId
  }

  lemma ParentAndChildForest(t: Table, projectId: Id, a: Id, b: Id)
    requires ParentAndChild(t, projectId, a, b)
    ensures IsForest(t) && InSubtree(t, a, b) && StaysShallow(t, a, b)
  {
    RankedHasNoCycle(t, map[a := 0, b := 1]);
    assert Ancestor(t, a, 1) == None && Ancestor(t, b, 1) == Some(a);
    forall x, j: nat, k: nat | Ancestor(t, x, k) == Some(a) && Ancestor(t, b, j).Some? ensures j + 1 + k <= MAX_DEPTH {
      DepthOfAncestor(t, x, k);
      DepthOfAncestor(t, b, j);
      assert Depth(t, a) == 0 && Depth(t, b) == 1;
    }
  }

  /**
   The smallest such move: a task under its own child, with the child's id in another spelling.
   Afterwards the queries from there do not end.
   */
  lemma MoveUnderChild(projects: Projects, s: State, op: Op, a: Id, b: Id, scan: seq<Id>, n: nat)
    requires op.Move? && ParentAndChild(s.tasks, op.projectId, a, b) && op.projectId in projects
    requires projects[op.projectId] == op.workspaceId && op.task.id == a
    requires op.newParent.Some? && op.newParent.value.id == b && !op.newParent.value.AsStored()
    requires Enumerates(scan, s.tasks)
    ensures var t := Apply(projects, s, op).0.tasks;
      && OnCycle(t, a) && Enumerates(scan, t) && Round(scan, ChildOf(t), StartAt(a), n) != []
  {
    ParentAndChildForest(s.tasks, op.projectId, a, b);
    MoveForestIff(projects, s, op);
    MovesAccepted(projects, s.tasks, op);
    CycleNeverEnds(Apply(projects, s, op).0.tasks, scan, a, n);
  }

  // ---------------------------------------------------------------------------
  // Depth over a run

  /** No task is deeper than the larger of MAX_DEPTH and the depth it was created at. */
  ghost predicate DepthBounded(h: History)
    requires IsForest(h.state.tasks)
  {
    forall x :: x in h.state.tasks ==>
      x in h.born && (Depth(h.state.tasks, x) <= MAX_DEPTH || Depth(h.state.tasks, x) <= h.born[x])
  }

  /** An accepted move that keeps the forest leaves each task at an allowed depth or no deeper than it was. */
  lemma MoveDepths(projects: Projects, t: Table, op: Op, x: Id)
    requires IsForest(t) && op.Move? && MoveFails(projects, t, op).None? && !ClosesCycle(projects, t, op) && x in t
    ensures op.task.id in t && ParentFits(t, op.task.id, ValueOf(op.newParent))
    ensures DepthAfterMove(t, op.task.id, ValueOf(op.newParent), x) <= MAX_DEPTH
      || DepthAfterMove(t, op.task.id, ValueOf(op.newParent), x) <= Depth(t, x)
  {
    MovesAccepted(projects, t, op);
    if op.newParent.Some? {
      ShallowMeans(t, op.task.id, op.newParent.value.id);
    }
  }

  lemma MoveKeepsDepthBound(projects: Projects, h: History, op: Op)
    requires IsForest(h.state.tasks) && DepthBounded(h) && op.Move?
    requires MoveFails(projects, h.state.tasks, op).None? && !ClosesCycle(projects, h.state.tasks, op)
    ensures IsForest(Next(projects, h, op).state.tasks) && DepthBounded(Next(projects, h, op))
  {
    var t := h.state.tasks;
    MovesAccepted(projects, t, op);
    ReparentKeepsForest(t, op.task.id, ValueOf(op.newParent));
    forall x | x in t
      ensures DepthAfterMove(t, op.task.id, ValueOf(op.newParent), x) <= MAX_DEPTH
        || DepthAfterMove(t, op.task.id, ValueOf(op.newParent), x) <= Depth(t, x)
    {
      MoveDepths(projects, t, op, x);
    }
  }

  lemma NextKeepsDepthBound(projects: Projects, h: History, op: Op)
    requires IsForest(h.state.tasks) && DepthBounded(h) && IsForest(Next(projects, h, op).state.tasks)
    ensures DepthBounded(Next(projects, h, op))
  {
    var t := h.state.tasks;
    NextForestIff(projects, h, op);
    if Allowed(h.state, op) && Apply(projects, h.state, op).1.Ok? {
      match op
      case Create(_, _, _, _, _, _) => InsertKeepsForest(t, op.id, NewRow(op));
      case Update(_, _, _, _, _, _) => SameParentsSameForest(t, Next(projects, h, op).state.tasks);
      case Remove(_, _, _) => RemoveKeepsForest(t, op.taskId);
      case Move(_, _, _, _) => MoveKeepsDepthBound(projects, h, op);
    }
  }

  /**
   As long as the table is a forest, and so has depths, the depth bound holds for every task,
   although `Create` itself checks no depth.
   */
  lemma {:induction false} RunDepthBounded(projects: Projects, ops: seq<Op>)
    requires AlwaysForest(projects, ops)
    ensures DepthBounded(Run(projects, ops))
    decreases |ops|
  {
    if ops != [] {
      RunDepthBounded(projects, ops[..|ops| - 1]);
      NextKeepsDepthBound(projects, Run(projects, ops[..|ops| - 1]), ops[|ops| - 1]);
    }
  }

  // ---------------------------------------------------------------------------
  // When the whole forest stays within MAX_DEPTH

  /** A forest with no task below MAX_DEPTH. */
  ghost predicate ShallowForest(t: Table) {
    IsForest(t) && forall x :: x in t ==> Depth(t, x) <= MAX_DEPTH
  }

  /** A creation that would succeed and places its task deeper than MAX_DEPTH. */
  ghost predicate CreatesDeep(projects: Projects, s: State, op: Op) {
    && op.Create? && Allowed(s, op)
    && CreateSpec(projects, s, op).1.Ok?
    && op.dto.parent.Some? && Ancestor(s.tasks, op.dto.parent.value, MAX_DEPTH).Some?
  }

  lemma NextShallow(projects: Projects, h: History, op: Op)
    requires ShallowForest(h.state.tasks)
    ensures ShallowForest(Next(projects, h, op).state.tasks) <==>
      !CreatesDeep(projects, h.state, op) && !ClosesCycle(projects, h.state.tasks, op)
  {
    var t := h.state.tasks;
    NextForestIff(projects, h, op);
    if Allowed(h.state, op) && Apply(projects, h.state, op).1.Ok? && !ClosesCycle(projects, t, op) {
      match op
      case Create(_, _, _, _, _, _) => CreateShallowIff(projects, h, op);
      case Update(_, _, _, _, _, _) => SameParentsSameForest(t, Next(projects, h, op).state.tasks);
      case Remove(_, _, _) => RemoveKeepsForest(t, op.taskId);
      case Move(_, _, _, _) => MoveShallow(projects, h, op);
    }
  }

  lemma CreateShallowIff(projects: Projects, h: History, op: Op)
    requires ShallowForest(h.state.tasks) && op.Create? && Allowed(h.state, op) &&
      CreateSpec(projects, h.state, op).1.Ok?
    ensures ShallowForest(Next(projects, h, op).state.tasks) <==> !CreatesDeep(projects, h.state, op)
  {
    var t := h.state.tasks;
    InsertKeepsForest(t, op.id, NewRow(op));
    assert op.id in Next(projects, h, op).state.tasks;
    if op.dto.parent.Some? {
      DepthOfAncestor(t, op.dto.parent.value, MAX_DEPTH);
    }
  }

  lemma MoveShallow(projects: Projects, h: History, op: Op)
    requires ShallowForest(h.state.tasks) && op.Move?
    requires MoveFails(projects, h.state.tasks, op).None? && !ClosesCycle(projects, h.state.tasks, op)
    ensures ShallowForest(Next(projects, h, op).state.tasks)
  {
    var t := h.state.tasks;
    MovesAccepted(projects, t, op);
    ReparentKeepsForest(t, op.task.id, ValueOf(op.newParent));
    forall x | x in t ensures DepthAfterMove(t, op.task.id, ValueOf(op.newParent), x) <= MAX_DEPTH {
      MoveDepths(projects, t, op, x);
    }
  }

  /** Every state of the run is a forest and respects MAX_DEPTH. */
  ghost predicate AlwaysShallow(projects: Projects, ops: seq<Op>)
    decreases |ops|
  {
    ShallowForest(Run(projects, ops).state.tasks) && (ops != [] ==> AlwaysShallow(projects, ops[..|ops| - 1]))
  }

  /** No operation of the run is a creation that goes too deep. */
  ghost predicate NeverCreatesDeep(projects: Projects, ops: seq<Op>)
    decreases |ops|
  {
    ops != [] ==>
      && NeverCreatesDeep(projects, ops[..|ops| - 1])
      && !CreatesDeep(projects, Run(projects, ops[..|ops| - 1]).state, ops[|ops| - 1])
  }

  /**
   Every state of a run is a forest that respects MAX_DEPTH exactly when no move closes a cycle
   and no creation is asked to go under a task that is already at MAX_DEPTH; moves that keep the
   forest, updates and removals never break it.
   */
  lemma {:induction false} RunShallowIff(projects: Projects, ops: seq<Op>)
    ensures AlwaysShallow(projects, ops) <==> NeverCloses(projects, ops) && NeverCreatesDeep(projects, ops)
    decreases |ops|
  {
    EmptyIsForest();
    if ops != [] {
      RunShallowIff(projects, ops[..|ops| - 1]);
      if AlwaysShallow(projects, ops[..|ops| - 1]) {
        NextShallow(projects, Run(projects, ops[..|ops| - 1]), ops[|ops| - 1]);
      }
    }
  }

  /** Creates task `n` under task `n - 1`, or at the top for 0. */
  function ChainOp(n: nat): Op {
    Create(0, 0, 0, CreateDto("", None, None, None, None, if n == 0 then None else Some(n - 1)), n, 0)
  }

  function ChainOps(n: nat): seq<Op> {
    if n == 0 then [] else ChainOps(n - 1) + [ChainOp(n - 1)]
  }

  /** Tasks 0..n-1 exist in a forest and the last one is at depth n-1. */
  ghost predicate IsChain(s: State, n: nat) {
    && IsForest(s.tasks)
    && (n > 0 ==> InProject(s.tasks, 0, n - 1) && Depth(s.tasks, n - 1) == n - 1)
    && (forall x :: x in s.tasks ==> x < n)
    && (forall e :: e in s.events ==> e.taskId < n)
  }

  lemma ChainGrows(h: History, n: nat)
    requires IsChain(h.state, n)
    ensures IsChain(Next(map[0 := 0], h, ChainOp(n)).state, n + 1)
  {
    assert Allowed(h.state, ChainOp(n));
    InsertKeepsForest(h.state.tasks, n, NewRow(ChainOp(n)));
  }

  /** So MAX_DEPTH is no bound on the forest: for every depth some run creates a task there. */
  lemma {:induction false} CreateGoesAnyDepth(n: nat)
    ensures IsChain(Run(map[0 := 0], ChainOps(n)).state, n)
  {
    EmptyIsForest();
    if n > 0 {
      CreateGoesAnyDepth(n - 1);
      assert ChainOps(n)[..|ChainOps(n)| - 1] == ChainOps(n - 1);
      ChainGrows(Run(map[0 := 0], ChainOps(n - 1)), n - 1);
    }
  }

  // ---------------------------------------------------------------------------
  // Columns that never change

  /** Tasks on both sides have the same project, creator and creation time, and no old id comes back. */
  ghost predicate IdentityKept(before: State, after: State) {
    && before.events <= after.events
    && (forall x :: x in before.tasks && x in after.tasks ==>
          && after.tasks[x].projectId == before.tasks[x].projectId
          && after.tasks[x].createdBy == before.tasks[x].createdBy
          && after.tasks[x].createdAt == before.tasks[x].createdAt)
    && (forall x :: x in after.tasks && x !in before.tasks ==> forall e :: e in before.events ==> e.taskId != x)
  }

  /** Every task in the table has an event in the log. */
  ghost predicate AllLogged(s: State) {
    forall x :: x in s.tasks ==> exists e :: e in s.events && e.taskId == x
  }

  lemma ApplyKeepsIdentity(projects: Projects, s: State, op: Op)
    requires Allowed(s, op)
    ensures IdentityKept(s, Apply(projects, s, op).0)
  {
  }

  lemma ApplyKeepsLogged(projects: Projects, s: State, op: Op)
    requires Allowed(s, op) && AllLogged(s)
    ensures AllLogged(Apply(projects, s, op).0)
  {
    var s' := Apply(projects, s, op).0;
    forall x | x in s'.tasks ensures exists e :: e in s'.events && e.taskId == x {
      if x in s.tasks {
        var e :| e in s.events && e.taskId == x;
        assert e in s'.events;
      } else {
        assert CreateEvents(op)[0] in s'.events;
      }
    }
  }

  lemma {:induction false} RunAllLogged(projects: Projects, ops: seq<Op>)
    ensures AllLogged(Run(projects, ops).state)
    decreases |ops|
  {
    if ops != [] {
      var s, op := Run(projects, ops[..|ops| - 1]).state, ops[|ops| - 1];
      RunAllLogged(projects, ops[..|ops| - 1]);
      if Allowed(s, op) {
        ApplyKeepsLogged(projects, s, op);
      }
    }
  }

  lemma IdentityTransitive(a: State, b: State, c: State)
    requires IdentityKept(a, b) && IdentityKept(b, c) && AllLogged(a)
    ensures IdentityKept(a, c)
  {
    forall x | x in a.tasks && x in c.tasks ensures x in b.tasks {
      var e :| e in a.events && e.taskId == x;
      assert e in b.events;
    }
    assert forall e :: e in a.events ==> e in b.events;
  }

  /**
   Over a run a task keeps its project, creator and creation time as long as it exists, the
   log only grows, and a removed task's id never denotes another task.
   */
  lemma {:induction false} RunKeepsIdentity(projects: Projects, ops: seq<Op>, n: nat)
    requires n <= |ops|
    ensures IdentityKept(Run(projects, ops[..n]).state, Run(projects, ops).state)
    decreases |ops|
  {
    if n == |ops| {
      assert ops[..n] == ops;
    } else {
      var init := ops[..|ops| - 1];
      assert init[..n] == ops[..n];
      RunKeepsIdentity(projects, init, n);
      RunAllLogged(projects, ops[..n]);
      if Allowed(Run(projects, init).state, ops[|ops| - 1]) {
        ApplyKeepsIdentity(projects, Run(projects, init).state, ops[|ops| - 1]);
        IdentityTransitive(Run(projects, ops[..n]).state, Run(projects, init).state, Run(projects, ops).state);
      }
    }
  }

  // ---------------------------------------------------------------------------
  // Completion time and the event log

  ghost predicate CompletedWhenDone(t: Table) {
    forall x :: x in t ==> (t[x].completedAt.Some? <==> t[x].status == DONE)
  }

  /**
   Replays the log for one task: its status after being created as TODO and then changed as
   logged. `None` if the log never created it or some change does not start where the last
   one ended.
   */
  function Replay(events: seq<Event>, id: Id): Option<Status>
    decreases |events|
  {
    if events == [] then None
    else
      var before := Replay(events[..|events| - 1], id);
      match events[|events| - 1]
      case Created(x, _, _) => if x != id then before else if before.None? then Some(TODO) else None
      case StatusChanged(x, from, to, _) =>
        if x != id then before else if before == Some(from) && from != to then Some(to) else None
      case _ => before
  }

  /** Each change into DONE is followed at once by its completion event, and nothing else makes one. */
  ghost predicate CompletionsPaired(events: seq<Event>) {
    && (forall i :: 0 <= i < |events| && events[i].StatusChanged? && events[i].to == DONE ==>
          i + 1 < |events| && events[i + 1].Completed? && events[i + 1].taskId == events[i].taskId)
    && (forall i :: 0 <= i < |events| && events[i].Completed? ==>
          0 < i && events[i - 1].StatusChanged? && events[i - 1].to == DONE && events[i - 1].taskId == events[i].taskId)
  }

  ghost predicate LogMatches(s: State) {
    && CompletedWhenDone(s.tasks)
    && (forall x :: x in s.tasks ==> Replay(s.events, x) == Some(s.tasks[x].status))
    && CompletionsPaired(s.events)
  }

  lemma ReplayAppend(events: seq<Event>, e: Event, id: Id)
    ensures (e.taskId != id || e.Assigned? || e.Completed?) ==> Replay(events + [e], id) == Replay(events, id)
    ensures e.Created? && e.taskId == id && Replay(events, id).None? ==> Replay(events + [e], id) == Some(TODO)
    ensures e.StatusChanged? && e.taskId == id && Replay(events, id) == Some(e.from) && e.from != e.to ==>
      Replay(events + [e], id) == Some(e.to)
  {
    assert (events + [e])[..|events + [e]| - 1] == events;
  }

  lemma {:induction false} ReplayUnknown(events: seq<Event>, id: Id)
    requires forall e :: e in events ==> e.taskId != id
    ensures Replay(events, id).None?
    decreases |events|
  {
    if events != [] {
      assert events[|events| - 1] in events;
      ReplayUnknown(events[..|events| - 1], id);
    }
  }

  lemma CreateReplays(events: seq<Event>, op: Op, x: Id)
    requires op.Create? && (forall e :: e in events ==> e.taskId != op.id)
    ensures Replay(events + CreateEvents(op), x) == if x == op.id then Some(TODO) else Replay(events, x)
  {
    var made := Created(op.id, op.projectId, op.createdBy);
    ReplayUnknown(events, op.id);
    ReplayAppend(events, made, x);
    if op.dto.assignee.Some? {
      var given := Assigned(op.id, op.dto.assignee.value, op.createdBy);
      ReplayAppend(events + [made], given, x);
      assert events + CreateEvents(op) == events + [made] + [given];
    } else {
      assert events + CreateEvents(op) == events + [made];
    }
  }

  /** Events that neither complete a task nor change one into DONE keep the pairing. */
  lemma PairedAppend(events: seq<Event>, e: Event)
    requires CompletionsPaired(events) && (e.Created? || e.Assigned? || (e.StatusChanged? && e.to != DONE))
    ensures CompletionsPaired(events + [e])
  {
  }

  lemma CreatePaired(events: seq<Event>, op: Op)
    requires op.Create? && CompletionsPaired(events)
    ensures CompletionsPaired(events + CreateEvents(op))
  {
    var made := Created(op.id, op.projectId, op.createdBy);
    PairedAppend(events, made);
    if op.dto.assignee.Some? {
      var given := Assigned(op.id, op.dto.assignee.value, op.createdBy);
      PairedAppend(events + [made], given);
      assert events + CreateEvents(op) == events + [made] + [given];
    } else {
      assert events + CreateEvents(op) == events + [made];
    }
  }

  lemma CreateKeepsLog(projects: Projects, s: State, op: Op)
    requires op.Create? && LogMatches(s) && Fresh(s, op.id)
    ensures LogMatches(CreateSpec(projects, s, op).0)
  {
    var (s', r) := CreateSpec(projects, s, op);
    if r.Ok? {
      CreatePaired(s.events, op);
      forall x | x in s'.tasks ensures Replay(s'.events, x) == Some(s'.tasks[x].status) {
        CreateReplays(s.events, op, x);
      }
    }
  }

  lemma AssignKeepsLog(events: seq<Event>, op: Op, before: Task, x: Id)
    requires op.Update? && CompletionsPaired(events)
    ensures CompletionsPaired(events + AssignEvents(op, before))
    ensures Replay(events + AssignEvents(op, before), x) == Replay(events, x)
  {
    if AssignEvents(op, before) != [] {
      ReplayAppend(events, AssignEvents(op, before)[0], x);
    } else {
      assert events + [] == events;
    }
  }

  lemma StatusKeepsLog(events: seq<Event>, op: Op, before: Task, after: Task, x: Id)
    requires op.Update? && CompletionsPaired(events)
    ensures CompletionsPaired(events + StatusEvents(op, before, after))
    ensures x != op.taskId ==> Replay(events + StatusEvents(op, before, after), x) == Replay(events, x)
    ensures Replay(events, op.taskId) == Some(before.status) ==>
      Replay(events + StatusEvents(op, before, after), op.taskId) == Some(after.status)
  {
    if before.status == after.status {
      assert events + [] == events;
    } else {
      var change := StatusChanged(op.taskId, before.status, after.status, op.actorId);
      var log := events + [change];
      ReplayAppend(events, change, x);
      ReplayAppend(events, change, op.taskId);
      if after.status == DONE {
        var done := Completed(op.taskId, op.actorId, after.createdBy);
        ReplayAppend(log, done, x);
        ReplayAppend(log, done, op.taskId);
        assert events + StatusEvents(op, before, after) == log + [done];
      } else {
        assert events + StatusEvents(op, before, after) == log;
      }
    }
  }

  lemma UpdateKeepsLog(projects: Projects, s: State, op: Op)
    requires op.Update? && LogMatches(s)
    ensures LogMatches(UpdateSpec(projects, s, op).0)
  {
    var (s', r) := UpdateSpec(projects, s, op);
    if r.Ok? {
      var before, after := s.tasks[op.taskId], s'.tasks[op.taskId];
      var log := s.events + AssignEvents(op, before);
      AssignKeepsLog(s.events, op, before, op.taskId);
      forall x | x in s'.tasks ensures Replay(s'.events, x) == Some(s'.tasks[x].status) {
        AssignKeepsLog(s.events, op, before, x);
        StatusKeepsLog(log, op, before, after, x);
      }
      StatusKeepsLog(log, op, before, after, op.taskId);
    }
  }

  /**
   After every run a task has a completion time exactly when it is DONE, its logged status
   changes lead without a gap from TODO to its present status, and completion events and
   changes into DONE correspond one to one.
   */
  lemma {:induction false} RunLogMatches(projects: Projects, ops: seq<Op>)
    ensures LogMatches(Run(projects, ops).state)
    decreases |ops|
  {
    if ops != [] {
      RunLogMatches(projects, ops[..|ops| - 1]);
      var s, op := Run(projects, ops[..|ops| - 1]).state, ops[|ops| - 1];
      if Allowed(s, op) {
        match op
        case Create(_, _, _, _, _, _) => CreateKeepsLog(projects, s, op);
        case Update(_, _, _, _, _, _) => UpdateKeepsLog(projects, s, op);
        case Remove(_, _, _) =>
        case Move(_, _, _, _) =>
      }
    }
  }

  // ---------------------------------------------------------------------------
  // Assignments are announced

  /** The user named by the last assignment event of a task. */
  function LastAssigned(events: seq<Event>, id: Id): Option<Id>
    decreases |events|
  {
    if events == [] then None
    else
      var e := events[|events| - 1];
      if e.Assigned? && e.taskId == id then Some(e.assignee.id) else LastAssigned(events[..|events| - 1], id)
  }

  /** Whoever a task is assigned to was told by its last assignment event. */
  ghost predicate AssigneesAnnounced(s: State) {
    forall x :: x in s.tasks && s.tasks[x].assignee.Some? ==> LastAssigned(s.events, x) == s.tasks[x].assignee
  }

  lemma {:induction false} LastAssignedAppend(events: seq<Event>, more: seq<Event>, id: Id)
    ensures LastAssigned(events + more, id) ==
      if LastAssigned(more, id).Some? then LastAssigned(more, id) else LastAssigned(events, id)
    decreases |more|
  {
    if more == [] {
      assert events + more == events;
    } else {
      assert (events + more)[..|events + more| - 1] == events + more[..|more| - 1];
      LastAssignedAppend(events, more[..|more| - 1], id);
    }
  }

  lemma {:induction false} LastAssignedElsewhere(events: seq<Event>, id: Id)
    requires forall e :: e in events ==> e.taskId != id || !e.Assigned?
    ensures LastAssigned(events, id).None?
    decreases |events|
  {
    if events != [] {
      assert events[|events| - 1] in events;
      LastAssignedElsewhere(events[..|events| - 1], id);
    }
  }

  lemma CreateAnnounces(projects: Projects, s: State, op: Op, x: Id)
    requires op.Create? && CreateSpec(projects, s, op).1.Ok?
    ensures x == op.id && op.dto.assignee.Some? ==>
      LastAssigned(CreateSpec(projects, s, op).0.events, x) == ValueOf(op.dto.assignee)
    ensures x != op.id ==> LastAssigned(CreateSpec(projects, s, op).0.events, x) == LastAssigned(s.events, x)
  {
    LastAssignedAppend(s.events, CreateEvents(op), x);
    if x != op.id {
      LastAssignedElsewhere(CreateEvents(op), x);
    }
  }

  lemma UpdateAnnounces(projects: Projects, s: State, op: Op, x: Id)
    requires op.Update? && UpdateSpec(projects, s, op).1.Ok?
    ensures var (before, after) := (s.tasks[op.taskId], UpdateSpec(projects, s, op).0.tasks[op.taskId]);
      LastAssigned(UpdateSpec(projects, s, op).0.events, x) ==
        if x == op.taskId && AssignEvents(op, before) != [] then after.assignee
        else LastAssigned(s.events, x)
  {
    var before, after := s.tasks[op.taskId], UpdateSpec(projects, s, op).0.tasks[op.taskId];
    var told, changed := AssignEvents(op, before), StatusEvents(op, before, after);
    LastAssignedAppend(s.events, told, x);
    LastAssignedAppend(s.events + told, changed, x);
    LastAssignedElsewhere(changed, x);
    if x != op.taskId {
      LastAssignedElsewhere(told, x);
    }
  }

  /** After every run each assignee is the one named by the task's last assignment event. */
  lemma {:induction false} RunAssigneesAnnounced(projects: Projects, ops: seq<Op>)
    ensures AssigneesAnnounced(Run(projects, ops).state)
    decreases |ops|
  {
    if ops != [] {
      var s, op := Run(projects, ops[..|ops| - 1]).state, ops[|ops| - 1];
      var s' := Run(projects, ops).state;
      RunAssigneesAnnounced(projects, ops[..|ops| - 1]);
      forall x | x in s'.tasks && s'.tasks[x].assignee.Some?
        ensures LastAssigned(s'.events, x) == s'.tasks[x].assignee
      {
        if Allowed(s, op) && Apply(projects, s, op).1.Ok? {
          match op
          case Create(_, _, _, _, _, _) => CreateAnnounces(projects, s, op, x);
          case Update(_, _, _, _, _, _) => UpdateAnnounces(projects, s, op, x);
          case Remove(_, _, _) =>
          case Move(_, _, _, _) =>
        }
      }
    }
  }
}
