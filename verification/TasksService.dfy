/** Which tasks a list request asks for. */
module TaskListing {
  import opened Forest
  import opened Cte
  import opened Ordering
  import opened Pagination

  datatype ListQuery = ListQuery(
    status: Option<Status>,
    priority: Option<Priority>,
    assignee: Option<Id>,
    parent: Option<Id>,
    topLevel: bool,
    limit: Option<nat>,
    cursor: SentCursor)

  const DEFAULT_LIMIT: nat := 20

  /** The WHERE clauses; `topLevel` counts only when no parent is asked for. */
  predicate Matches(task: Task, projectId: Id, q: ListQuery) {
    && task.projectId == projectId
    && (q.status.Some? ==> task.status == q.status.value)
    && (q.priority.Some? ==> task.priority == q.priority.value)
    && (q.assignee.Some? ==> task.assignee == q.assignee)
    && (q.parent.Some? ==> task.parent == q.parent)
    && (q.parent.None? && q.topLevel ==> task.parent.None?)
  }

  function MatchingKeys(t: Table, scan: seq<Id>, projectId: Id, q: ListQuery): (keys: seq<Key>)
    ensures forall i :: 0 <= i < |keys| ==> keys[i].id in scan
    ensures Distinct(scan) ==> DistinctKeys(keys)
  {
    if scan == [] then []
    else
      (if scan[0] in t && Matches(t[scan[0]], projectId, q) then [Key(t[scan[0]].createdAt, scan[0])] else [])
      + MatchingKeys(t, scan[1..], projectId, q)
  }

  /** The tasks that sort keys belong to. */
  function RowsOf(t: Table, keys: seq<Key>): (rows: seq<Task>)
    requires forall k :: k in keys ==> k.id in t
    ensures |rows| == |keys| && forall i :: 0 <= i < |keys| ==> keys[i].id in t && rows[i] == t[keys[i].id]
  {
    if keys == [] then [] else
      assert keys[0] in keys;
      [t[keys[0].id]] + RowsOf(t, keys[1..])
  }

  ghost predicate IsMatch(t: Table, projectId: Id, q: ListQuery, k: Key) {
    k.id in t && k.createdAt == t[k.id].createdAt && Matches(t[k.id], projectId, q)
  }

  /**
   A task of the project with the status, priority, assignee and parent asked for, where one is, or at
   the top if that is asked.
   */
  ghost predicate Asked(task: Task, projectId: Id, q: ListQuery) {
    && task.projectId == projectId
    && (q.status == None || q.status == Some(task.status))
    && (q.priority == None || q.priority == Some(task.priority))
    && (q.assignee == None || q.assignee == task.assignee)
    && (if q.parent.Some? then task.parent == q.parent else q.topLevel ==> task.parent == None)
  }

  lemma MatchesAsked(t: Table, projectId: Id, q: ListQuery)
    ensures forall k :: IsMatch(t, projectId, q, k) <==> IsKey(t, projectId, q, k)
  {
  }

  /** The sort key of a task that is asked for. */
  ghost predicate IsKey(t: Table, projectId: Id, q: ListQuery, k: Key) {
    k.id in t && k.createdAt == t[k.id].createdAt && Asked(t[k.id], projectId, q)
  }

  /**
   It comes after the cursor that was sent, if that decodes: earlier than its millisecond, or on it
   with a smaller id.
   */
  ghost predicate AfterSent(q: ListQuery, k: Key) {
    q.cursor.Sent? ==>
      var ms := q.cursor.cursor.createdMs * 1000;
      k.createdAt < ms || (k.createdAt == ms && k.id < q.cursor.cursor.id)
  }

  ghost predicate IsNext(t: Table, projectId: Id, q: ListQuery, k: Key) {
    IsKey(t, projectId, q, k) && AfterSent(q, k)
  }

  /**
   The page holds the newest `limit` tasks that are asked for and come after the cursor, newest first,
   and names the last one's millisecond and id as next cursor exactly if others are left.
   */
  ghost predicate IsPage(t: Table, projectId: Id, q: ListQuery, limit: nat, p: Page<Key, Cursor>) {
    && |p.data| <= limit && p.count == |p.data| && p.limit == limit
    && (forall i, j :: 0 <= i < j < |p.data| ==>
          p.data[j].createdAt < p.data[i].createdAt ||
          (p.data[j].createdAt == p.data[i].createdAt && p.data[j].id < p.data[i].id))
    && (forall k :: k in p.data ==> IsNext(t, projectId, q, k))
    && (p.hasMore <==> p.nextCursor.Some?)
    && (p.hasMore <==> exists k :: IsNext(t, projectId, q, k) && k !in p.data)
    && (p.hasMore ==>
          && |p.data| == limit > 0
          && var last := p.data[limit - 1];
             && p.nextCursor == Some(Cursor(last.createdAt / 1000, last.id))
             && forall k :: IsNext(t, projectId, q, k) && k !in p.data ==>
                  k.createdAt < last.createdAt || (k.createdAt == last.createdAt && k.id < last.id))
  }

  lemma {:induction false} MatchingExact(t: Table, scan: seq<Id>, projectId: Id, q: ListQuery)
    ensures forall k :: k in MatchingKeys(t, scan, projectId, q) <==> k.id in scan && IsMatch(t, projectId, q, k)
  {
    if scan != [] {
      MatchingExact(t, scan[1..], projectId, q);
      assert scan == [scan[0]] + scan[1..];
    }
  }

  /** The listing of the matching tasks does not depend on the order the rows are read in. */
  lemma ListingIgnoresScan(t: Table, scan: seq<Id>, scan': seq<Id>, projectId: Id, q: ListQuery, c: Option<Cursor>)
    requires Enumerates(scan, t) && Enumerates(scan', t)
    ensures Listing(MatchingKeys(t, scan, projectId, q), c) == Listing(MatchingKeys(t, scan', projectId, q), c)
  {
    MatchingExact(t, scan, projectId, q);
    MatchingExact(t, scan', projectId, q);
    ListingExact(MatchingKeys(t, scan, projectId, q), c);
    ListingExact(MatchingKeys(t, scan', projectId, q), c);
    DescendingUnique(Listing(MatchingKeys(t, scan, projectId, q), c), Listing(MatchingKeys(t, scan', projectId, q), c));
  }

  lemma SentBelow(q: ListQuery, k: Key)
    ensures AfterSent(q, k) <==> Decode(q.cursor).Some? ==> Below(k, Decode(q.cursor).value)
  {
  }

  /** The head of a listing as a page: what is left lies below its last row. */
  lemma HeadOfListing(s: seq<Key>, limit: nat)
    requires StrictlyDescending(s) && 0 < limit < |s|
    ensures s[limit] in s && s[limit] !in s[..limit]
    ensures forall k :: k in s && k !in s[..limit] ==> Less(k, s[limit - 1])
  {
    assert forall i :: 0 <= i < limit ==> Less(s[limit], s[i]);
    assert s == s[..limit] + s[limit..];
    forall k | k in s[limit..] ensures Less(k, s[limit - 1]) {
      var i :| 0 <= i < |s[limit..]| && s[limit..][i] == k;
      assert s[limit + i] == k;
    }
  }

  /** What is fetched is the page asked for. */
  lemma FetchedIsPage(t: Table, scan: seq<Id>, projectId: Id, q: ListQuery, limit: nat)
    requires Enumerates(scan, t) && limit >= 1
    ensures IsPage(t, projectId, q, limit, FetchPage(MatchingKeys(t, scan, projectId, q), limit, Decode(q.cursor)))
  {
    var keys, c := MatchingKeys(t, scan, projectId, q), Decode(q.cursor);
    ListedAreNext(t, scan, projectId, q);
    ListingExact(keys, c);
    PageOfListing(keys, limit, c);
    ListedIsPage(t, projectId, q, limit, Listing(keys, c), FetchPage(keys, limit, c));
  }

  lemma ListedIsPage(t: Table, projectId: Id, q: ListQuery, limit: nat, s: seq<Key>, p: Page<Key, Cursor>)
    requires StrictlyDescending(s) && limit >= 1 && forall k :: k in s <==> IsNext(t, projectId, q, k)
    requires p.limit == limit && p.count == |p.data| && (p.hasMore <==> p.nextCursor.Some?)
    requires if |s| <= limit then p.data == s && p.nextCursor.None?
      else p.data == s[..limit] && p.nextCursor == Some(Encode(s[limit - 1]))
    ensures IsPage(t, projectId, q, limit, p)
  {
    if |s| > limit {
      HeadOfListing(s, limit);
      assert forall k :: k in s[..limit] ==> k in s;
    }
  }

  lemma ListedAreNext(t: Table, scan: seq<Id>, projectId: Id, q: ListQuery)
    requires Enumerates(scan, t)
    ensures forall k :: k in Listing(MatchingKeys(t, scan, projectId, q), Decode(q.cursor)) <==>
      IsNext(t, projectId, q, k)
  {
    var keys, c := MatchingKeys(t, scan, projectId, q), Decode(q.cursor);
    MatchingExact(t, scan, projectId, q);
    MatchesAsked(t, projectId, q);
    ListingExact(keys, c);
    forall k ensures k in Listing(keys, c) <==> IsNext(t, projectId, q, k) {
      SentBelow(q, k);
    }
  }

  /** Following cursors through the task list returns every matching task exactly when the page boundaries are clear. */
  lemma TaskWalkCompleteIff(t: Table, scan: seq<Id>, projectId: Id, q: ListQuery, limit: nat)
    requires Enumerates(scan, t) && limit >= 1
    ensures var rows := MatchingKeys(t, scan, projectId, q);
      (forall k :: IsMatch(t, projectId, q, k) <==> k in Walk(rows, limit, None)) <==>
        BoundariesClear(Listing(rows, None), limit)
  {
    var rows := MatchingKeys(t, scan, projectId, q);
    MatchingExact(t, scan, projectId, q);
    ListingExact(rows, None);
    WalkDescends(rows, limit, None);
    WalkCompleteIff(rows, limit);
    if forall k :: IsMatch(t, projectId, q, k) <==> k in Walk(rows, limit, None) {
      DescendingUnique(Walk(rows, limit, None), Listing(rows, None));
    }
  }
}

/** The task service over its table and event log, proved against the operations of `Tasks`. */
module TasksServiceModel {
  import opened Forest
  import opened Cte
  import opened Pagination
  import opened Subtree
  import opened TaskListing
  import opened Tasks

  class TasksService {
    const projects: Projects
    var tasks: Table
    var events: seq<Event>

    /** What every method keeps. That the table is a forest is kept too, but for the moves `MoveTask` singles out. */
    ghost predicate Valid()
      reads this
    {
      ParentsInProject(tasks)
    }

    ghost function Contents(): State
      reads this
    {
      State(tasks, events)
    }

    constructor (projects: Projects)
      ensures Valid() && IsForest(tasks)
      ensures this.projects == projects && Contents() == State(map[], [])
    {
      this.projects := projects;
      tasks, events := map[], [];
      EmptyIsForest();
    }

    method FindOneOrFail(workspaceId: Id, projectId: Id, taskId: Id) returns (r: Result)
      ensures FoundOrFails(projects, Contents(), Contents(), workspaceId, projectId, taskId, r)
      ensures r.Ok? ==> taskId in tasks && r.task == tasks[taskId] && r.task.projectId == projectId
      ensures r.Err? <==> FindFails(projects, tasks, workspaceId, projectId, taskId).Some?
      ensures r.Err? ==> Some(r.error) == FindFails(projects, tasks, workspaceId, projectId, taskId)
    {
      if projectId !in projects || projects[projectId] != workspaceId {
        return Err(ProjectNotFound);
      }
      if taskId !in tasks || tasks[taskId].projectId != projectId {
        return Err(TaskNotFound);
      }
      return Ok(tasks[taskId]);
    }

    method Create(workspaceId: Id, projectId: Id, createdBy: Id, dto: CreateDto, id: Id, now: int) returns (r: Result)
      requires Valid() && Fresh(Contents(), id)
      modifies this
      ensures Valid() && (old(IsForest(tasks)) ==> IsForest(tasks))
      ensures (Contents(), r) == Apply(projects, old(Contents()),
        Op.Create(workspaceId, projectId, createdBy, dto, id, now))
      ensures CreateResult(projects, old(Contents()), Contents(),
        Op.Create(workspaceId, projectId, createdBy, dto, id, now), r)
    {
      CreateGives(projects, Contents(), Op.Create(workspaceId, projectId, createdBy, dto, id, now));
      ApplyKeepsProjects(projects, Contents(), Op.Create(workspaceId, projectId, createdBy, dto, id, now));
      if IsForest(tasks) {
        ApplyForestIff(projects, Contents(), Op.Create(workspaceId, projectId, createdBy, dto, id, now));
      }
      if projectId !in projects || projects[projectId] != workspaceId {
        return Err(ProjectNotFound);
      }
      if dto.parent.Some? {
        if dto.parent.value !in tasks || tasks[dto.parent.value].projectId != projectId {
          return Err(ParentNotFound);
        }
      }
      var task := Task(projectId, dto.parent, dto.title, dto.description, TODO, dto.priority.GetOr(MEDIUM),
                       ValueOf(dto.assignee), createdBy, dto.dueDate, None, now);
      tasks := tasks[id := task];
      events := events + [Created(id, projectId, createdBy)];
      if task.assignee.Some? {
        events := events + [Assigned(id, dto.assignee.value, createdBy)];
      }
      assert events == old(events) + CreateEvents(Op.Create(workspaceId, projectId, createdBy, dto, id, now));
      r := Ok(task);
    }

    method Update(workspaceId: Id, projectId: Id, taskId: Id, actorId: Id, dto: UpdateDto, now: int) returns (r: Result)
      requires Valid()
      modifies this
      ensures Valid() && (old(IsForest(tasks)) ==> IsForest(tasks))
      ensures (Contents(), r) == Apply(projects, old(Contents()),
        Op.Update(workspaceId, projectId, taskId, actorId, dto, now))
      ensures UpdateResult(projects, old(Contents()), Contents(),
        Op.Update(workspaceId, projectId, taskId, actorId, dto, now), r)
    {
      UpdateGives(projects, Contents(), Op.Update(workspaceId, projectId, taskId, actorId, dto, now));
      ApplyKeepsProjects(projects, Contents(), Op.Update(workspaceId, projectId, taskId, actorId, dto, now));
      if IsForest(tasks) {
        ApplyForestIff(projects, Contents(), Op.Update(workspaceId, projectId, taskId, actorId, dto, now));
      }
      r := FindOneOrFail(workspaceId, projectId, taskId);
      if r.Err? {
        return;
      }
      var before := r.task;
      var task := AssignFields(before, dto, now);
      tasks := tasks[taskId := task];
      EmitUpdate(taskId, actorId, dto, before, task);
      UpdateEvents(old(events), Op.Update(workspaceId, projectId, taskId, actorId, dto, now), before);
      r := Ok(task);
    }

    /** Emits the events of an update, the row being saved. */
    method EmitUpdate(taskId: Id, actorId: Id, dto: UpdateDto, before: Task, task: Task)
      modifies this`events
      ensures events == old(events) + SavedEvents(taskId, actorId, dto, before, task)
    {
      if dto.assignee.Some? && dto.assignee.value != TextOf(before.assignee) && dto.assignee.value.Some? {
        events := events + [Assigned(taskId, dto.assignee.value.value, actorId)];
      }
      if dto.status.Some? && dto.status.value != before.status {
        events := events + [StatusChanged(taskId, before.status, task.status, actorId)];
        if task.status == DONE {
          events := events + [Completed(taskId, actorId, task.createdBy)];
        }
      }
    }

    /** Copies the given fields onto the loaded row; a status also sets or clears the completion time. */
    static method AssignFields(row: Task, dto: UpdateDto, now: int) returns (task: Task)
      ensures task == UpdatedRow(row, dto, now)
    {
      task := row;
      if dto.title.Some? { task := task.(title := dto.title.value); }
      if dto.description.Some? { task := task.(description := dto.description.value); }
      if dto.priority.Some? { task := task.(priority := dto.priority.value); }
      if dto.assignee.Some? { task := task.(assignee := ValueOf(dto.assignee.value)); }
      if dto.dueDate.Some? { task := task.(dueDate := dto.dueDate.value); }
      if dto.status.Some? {
        task := task.(status := dto.status.value,
                      completedAt := if dto.status.value == DONE then Some(now) else None);
      }
    }

    /** The row is deleted and the foreign key cascades to the rows below it. */
    method Remove(workspaceId: Id, projectId: Id, taskId: Id) returns (r: Result)
      requires Valid()
      modifies this
      ensures Valid() && (old(IsForest(tasks)) ==> IsForest(tasks))
      ensures (Contents(), r) == Apply(projects, old(Contents()), Op.Remove(workspaceId, projectId, taskId))
      ensures RemoveResult(projects, old(Contents()), Contents(), Op.Remove(workspaceId, projectId, taskId), r)
    {
      RemoveGives(projects, Contents(), Op.Remove(workspaceId, projectId, taskId));
      ApplyKeepsProjects(projects, Contents(), Op.Remove(workspaceId, projectId, taskId));
      if IsForest(tasks) {
        ApplyForestIff(projects, Contents(), Op.Remove(workspaceId, projectId, taskId));
      }
      r := FindOneOrFail(workspaceId, projectId, taskId);
      if r.Ok? {
        RemoveIsSubtree(tasks, taskId);
        tasks := CascadeDelete(tasks, {taskId});
      }
    }

    /**
     `scan` is the order in which the database reads the task rows. A forest stays one exactly
     unless the new parent is another task of the moved subtree, in a spelling the check for cycles
     does not recognise, and the depths allow it.
     */
    method MoveTask(workspaceId: Id, projectId: Id, taskId: IdText, newParent: Option<IdText>, scan: seq<Id>)
      returns (r: Result)
      requires Valid() && Enumerates(scan, tasks)
      modifies this
      ensures Valid()
      ensures (Contents(), r) == Apply(projects, old(Contents()), Op.Move(workspaceId, projectId, taskId, newParent))
      ensures old(IsForest(tasks)) ==>
        (IsForest(tasks) <==> !ClosesCycle(projects, old(tasks), Op.Move(workspaceId, projectId, taskId, newParent)))
      ensures MoveResult(old(Contents()), Contents(), Op.Move(workspaceId, projectId, taskId, newParent), r)
      ensures old(IsForest(tasks)) ==>
        (r.Ok? <==> MoveAllowed(projects, old(tasks), Op.Move(workspaceId, projectId, taskId, newParent)))
    {
      MoveGives(projects, Contents(), Op.Move(workspaceId, projectId, taskId, newParent));
      ApplyKeepsProjects(projects, Contents(), Op.Move(workspaceId, projectId, taskId, newParent));
      if IsForest(tasks) {
        ApplyForestIff(projects, Contents(), Op.Move(workspaceId, projectId, taskId, newParent));
        MoveAllowedIff(projects, Contents(), Op.Move(workspaceId, projectId, taskId, newParent));
      }
      r := FindOneOrFail(workspaceId, projectId, taskId.id);
      if r.Err? {
        return;
      }
      var task := r.task;
      if newParent.None? {
        task := task.(parent := None);
        tasks := tasks[taskId.id := task];
        return Ok(task);
      }
      var parentId := newParent.value;
      if parentId == taskId {
        return Err(OwnParent);
      }
      if parentId.id !in tasks || tasks[parentId.id].projectId != projectId {
        return Err(ParentNotFound);
      }
      var error := CheckParent(taskId, parentId, scan);
      if error.Some? {
        return Err(error.value);
      }
      task := task.(parent := Some(parentId.id));
      tasks := tasks[taskId.id := task];
      return Ok(task);
    }

    /** The two queries and what is concluded from them; the check constraint of the table speaks last. */
    method CheckParent(taskId: IdText, parentId: IdText, scan: seq<Id>) returns (error: Option<Error>)
      requires Valid() && Enumerates(scan, tasks) && taskId.id in tasks && parentId.id in tasks
      ensures error == ParentFails(tasks, taskId, parentId)
    {
      DownAnswersIff(tasks, scan, taskId.id);
      if !DownAnswers(tasks, scan, taskId.id) {
        return Some(QueryTimedOut);
      }
      var descendants := Descendants(tasks, scan, taskId.id);
      TextDecides(tasks, scan, taskId.id, parentId);
      if exists d :: d in descendants && Stored(d.id) == parentId {
        return Some(WouldCycle);
      }
      var subtreeHeight := MaxDepth(descendants);
      UpAnswersIff(tasks, scan, parentId.id);
      if !UpAnswers(tasks, scan, parentId.id) {
        return Some(QueryTimedOut);
      }
      var parentDepth := DepthOf(tasks, scan, parentId.id);
      HeightDecides(tasks, scan, taskId.id, parentId.id);
      if parentDepth + 1 + subtreeHeight > MAX_DEPTH {
        return Some(TooDeep);
      }
      return if parentId.id == taskId.id then Some(SelfParent) else None;
    }

    /**
     A task with everything below it as a nested tree. Nothing is returned, although the call
     succeeds, exactly if the id of the task is not written as the database prints it.
     */
    method GetSubtree(workspaceId: Id, projectId: Id, taskId: IdText, scan: seq<Id>)
      returns (error: Option<Error>, node: SubtreeNode?, ghost tree: Tree, ghost nodes: set<SubtreeNode>)
      requires Valid() && Enumerates(scan, tasks)
      ensures var found := FindFails(projects, tasks, workspaceId, projectId, taskId.id);
        error == if found.Some? then found else if OnCycle(tasks, taskId.id) then Some(QueryTimedOut) else None
      ensures error.None? <==>
        && InWorkspace(projects, workspaceId, projectId)
        && taskId.id in tasks && tasks[taskId.id].projectId == projectId && !OnCycle(tasks, taskId.id)
      ensures node != null <==> error.None? && taskId.AsStored()
      ensures node != null ==> tree.id == taskId.id && IsNested(tasks, tree, 0)
      ensures node != null ==> fresh(nodes) && Represents(tasks, node, tree, nodes) && HaveColumns(tasks, nodes)
      ensures node != null ==>
        !OnCycle(tasks, tree.id) && multiset(Flatten(tree)) == multiset(Descendants(tasks, scan, tree.id))
    {
      error, node, tree, nodes := None, null, Tree(taskId.id, 0, []), {};
      var r := FindOneOrFail(workspaceId, projectId, taskId.id);
      if r.Err? {
        error := Some(r.error);
        return;
      }
      DownAnswersIff(tasks, scan, taskId.id);
      if !DownAnswers(tasks, scan, taskId.id) {
        error := Some(QueryTimedOut);
        return;
      }
      node, tree, nodes := BuildSubtree(tasks, scan, taskId);
    }

    /**
     One page of the tasks that match: the newest `limit` of those below the cursor, newest
     first, with a cursor to go on from exactly when some are left. `None` for an unknown project.
     The page holds the sort keys, id included; `rows` are the tasks they belong to.
     */
    method List(workspaceId: Id, projectId: Id, query: ListQuery, scan: seq<Id>)
      returns (r: Option<Page<Key, Cursor>>, rows: seq<Task>)
      requires Enumerates(scan, tasks)
      requires query.limit.Some? ==> 1 <= query.limit.value <= 100
      ensures r.None? <==> !(projectId in projects && projects[projectId] == workspaceId)
      ensures r.Some? ==>
        r.value ==
        FetchPage(MatchingKeys(tasks, scan, projectId, query), query.limit.GetOr(DEFAULT_LIMIT), Decode(query.cursor))
      ensures r.Some? ==> var limit := if query.limit.Some? then query.limit.value else 20;
        IsPage(tasks, projectId, query, limit, r.value)
      ensures r.Some? ==> |rows| == |r.value.data|
      ensures r.Some? ==> forall i :: 0 <= i < |rows| ==>
        r.value.data[i].id in tasks && rows[i] == tasks[r.value.data[i].id]
    {
      if projectId !in projects || projects[projectId] != workspaceId {
        return None, [];
      }
      var limit := query.limit.GetOr(DEFAULT_LIMIT);
      var keys := MatchingKeys(tasks, scan, projectId, query);
      var page := FetchPage(keys, limit, Decode(query.cursor));
      FetchedIsPage(tasks, scan, projectId, query, limit);
      rows := RowsOf(tasks, page.data);
      return Some(page), rows;
    }
  }
}
