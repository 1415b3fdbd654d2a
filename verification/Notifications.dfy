/**
 The two ways an event becomes a notification: the in-process listener stores it at once, the
 queue listener adds a job whose id is derived from recipient, type and entity, and the queue
 ignores a job whose id it already has.
 */
module Notifications {
  import opened Forest
  import opened TextKeys

  datatype NotificationType =
    | TASK_ASSIGNED | TASK_DUE_SOON | TASK_OVERDUE | TASK_COMPLETED | COMMENT_ADDED | COMMENT_REPLY | WORKSPACE_INVITE

  datatype Input = Input(recipientId: string, kind: NotificationType, title: string, entityType: string,
      entityId: Option<string>)

  datatype Event =
    | TaskAssigned(taskId: string, assigneeId: Option<string>, actorId: string)
    | TaskCompleted(taskId: string, actorId: string, creatorId: Option<string>)
    | CommentCreated(commentId: string, taskId: string, authorId: string, taskAssigneeId: Option<string>)
    | CommentReplied(commentId: string, taskId: string, authorId: string, parentAuthorId: Option<string>)

  // ---------------------------------------------------------------------------
  // Mapping events to notifications

  /** Absent, null or empty. */
  predicate Missing(id: Option<string>) {
    id.None? || id.value == ""
  }

  /** Nobody is notified of their own action or when there is nobody to notify. */
  function Notify(to: Option<string>, actor: string, input: string -> Input): Option<Input> {
    if Missing(to) || to.value == actor then None else Some(input(to.value))
  }

  function MapEvent(e: Event): Option<Input> {
    match e
    case TaskAssigned(task, assignee, actor) =>
      Notify(assignee, actor, to => Input(to, TASK_ASSIGNED, "You were assigned a task", "task", Some(task)))
    case TaskCompleted(task, actor, creator) =>
      Notify(creator, actor, to => Input(to, TASK_COMPLETED, "A task you created was completed", "task", Some(task)))
    case CommentCreated(_, task, author, assignee) =>
      Notify(assignee, author, to => Input(to, COMMENT_ADDED, "New comment on your task", "task", Some(task)))
    case CommentReplied(comment, _, author, parentAuthor) =>
      Notify(parentAuthor, author,
        to => Input(to, COMMENT_REPLY, "Someone replied to your comment", "comment", Some(comment)))
  }

  /** Who an event is news for. */
  function Concerns(e: Event): Option<string> {
    match e
    case TaskAssigned(_, assignee, _) => assignee
    case TaskCompleted(_, _, creator) => creator
    case CommentCreated(_, _, _, assignee) => assignee
    case CommentReplied(_, _, _, parentAuthor) => parentAuthor
  }

  function Actor(e: Event): string {
    if e.TaskAssigned? || e.TaskCompleted? then e.actorId else e.authorId
  }

  /** An event notifies exactly the user it concerns, unless there is none or they caused it. */
  lemma NotifiesOthersOnly(e: Event)
    ensures MapEvent(e).Some? <==> !Missing(Concerns(e)) && Concerns(e) != Some(Actor(e))
    ensures MapEvent(e).Some? ==> Some(MapEvent(e).value.recipientId) == Concerns(e)
  {
  }

  /** The notification of an event: whom it reaches, of which type, with what title, and about what. */
  ghost predicate IsNews(e: Event, n: Input) {
    match e
    case TaskAssigned(task, assignee, _) =>
      n == Input(n.recipientId, TASK_ASSIGNED, "You were assigned a task", "task", Some(task)) &&
      assignee == Some(n.recipientId)
    case TaskCompleted(task, _, creator) =>
      n == Input(n.recipientId, TASK_COMPLETED, "A task you created was completed", "task", Some(task)) &&
      creator == Some(n.recipientId)
    case CommentCreated(_, task, _, assignee) =>
      n == Input(n.recipientId, COMMENT_ADDED, "New comment on your task", "task", Some(task)) &&
      assignee == Some(n.recipientId)
    case CommentReplied(comment, _, _, parentAuthor) =>
      n == Input(n.recipientId, COMMENT_REPLY, "Someone replied to your comment", "comment", Some(comment)) &&
      parentAuthor == Some(n.recipientId)
  }

  /**
   What the event maps to is its notification, and there is one exactly if the user concerned exists
   and did not act.
   */
  lemma MapsToNews(e: Event)
    ensures MapEvent(e).Some? ==> IsNews(e, MapEvent(e).value)
    ensures MapEvent(e).Some? <==> IsForOther(e)
  {
  }

  ghost predicate IsForOther(e: Event) {
    match e
    case TaskAssigned(_, to, actor) => to.Some? && to.value != "" && to.value != actor
    case TaskCompleted(_, actor, to) => to.Some? && to.value != "" && to.value != actor
    case CommentCreated(_, _, author, to) => to.Some? && to.value != "" && to.value != author
    case CommentReplied(_, _, author, to) => to.Some? && to.value != "" && to.value != author
  }

  // ---------------------------------------------------------------------------
  // Text keys

  function TypeName(t: NotificationType): string {
    match t
    case TASK_ASSIGNED => "TASK_ASSIGNED"
    case TASK_DUE_SOON => "TASK_DUE_SOON"
    case TASK_OVERDUE => "TASK_OVERDUE"
    case TASK_COMPLETED => "TASK_COMPLETED"
    case COMMENT_ADDED => "COMMENT_ADDED"
    case COMMENT_REPLY => "COMMENT_REPLY"
    case WORKSPACE_INVITE => "WORKSPACE_INVITE"
  }

  function EntityName(entityId: Option<string>): string {
    entityId.GetOr("none")
  }

  function NotificationJobId(input: Input): string {
    "notif_" + input.recipientId + "_" + TypeName(input.kind) + "_" + EntityName(input.entityId)
  }

  ghost predicate HasUuids(input: Input) {
    IsUuid(input.recipientId) && (input.entityId.Some? ==> IsUuid(input.entityId.value))
  }

  ghost predicate SameKey(a: Input, b: Input) {
    a.recipientId == b.recipientId && a.kind == b.kind && a.entityId == b.entityId
  }

  lemma TypeNameLength(t: NotificationType)
    ensures 12 <= |TypeName(t)| <= 16
  {
  }

  lemma TypeNameInjective(t: NotificationType, u: NotificationType)
    requires TypeName(t) == TypeName(u)
    ensures t == u
  {
    assert TypeName(t)[|TypeName(t)| - 3..] == TypeName(u)[|TypeName(u)| - 3..];
  }

  /** Type and entity can be told apart because the entity part has 4 or 36 characters. */
  lemma TailInjective(t: NotificationType, e: string, u: NotificationType, f: string)
    requires |e| in {4, 36} && |f| in {4, 36}
    requires (TypeName(t) + "_") + e == (TypeName(u) + "_") + f
    ensures t == u && e == f
  {
    TypeNameLength(t);
    TypeNameLength(u);
    assert |TypeName(t)| + 1 + |e| == |(TypeName(t) + "_") + e|;
    assert |TypeName(u)| + 1 + |f| == |(TypeName(u) + "_") + f|;
    SplitAt(TypeName(t) + "_", e, TypeName(u) + "_", f);
    SplitAt(TypeName(t), "_", TypeName(u), "_");
    TypeNameInjective(t, u);
  }

  /** For uuid ids, equal job ids mean equal recipient, type and entity. */
  lemma JobIdInjective(a: Input, b: Input)
    requires HasUuids(a) && HasUuids(b) && NotificationJobId(a) == NotificationJobId(b)
    ensures SameKey(a, b)
  {
    var ta := (TypeName(a.kind) + "_") + EntityName(a.entityId);
    var tb := (TypeName(b.kind) + "_") + EntityName(b.entityId);
    JobIdParts(a);
    JobIdParts(b);
    Unprefix("notif_", a.recipientId + ("_" + ta), b.recipientId + ("_" + tb));
    SplitAt(a.recipientId, "_" + ta, b.recipientId, "_" + tb);
    Unprefix("_", ta, tb);
    TailInjective(a.kind, EntityName(a.entityId), b.kind, EntityName(b.entityId));
  }

  lemma JobIdParts(a: Input)
    ensures NotificationJobId(a) ==
      "notif_" + (a.recipientId + ("_" + ((TypeName(a.kind) + "_") + EntityName(a.entityId))))
  {
    var r, t, e := a.recipientId, TypeName(a.kind), EntityName(a.entityId);
    assert "notif_" + r + "_" + t + "_" + e == "notif_" + (r + ("_" + ((t + "_") + e)));
  }

  /** Without uuids different notifications can share a job id: a whole family of pairs does. */
  lemma JobIdNeedsUuids(t: NotificationType, a: string, b: string, c: string)
    ensures var x := Input(a, t, "", "task", Some(b + "_" + TypeName(t) + "_" + c));
      var y := Input(a + "_" + TypeName(t) + "_" + b, t, "", "task", Some(c));
      NotificationJobId(x) == NotificationJobId(y) && !SameKey(x, y)
  {
    var n := TypeName(t);
    assert "notif_" + a + "_" + n + "_" + (b + "_" + n + "_" + c) ==
      "notif_" + (a + "_" + n + "_" + b) + "_" + n + "_" + c;
    assert |a + "_" + n + "_" + b| > |a|;
  }

  /** The queue forbids ':' in a job id. */
  lemma JobIdHasNoColon(input: Input)
    requires HasUuids(input)
    ensures ':' !in NotificationJobId(input)
  {
    assert ':' !in TypeName(input.kind);
    assert ':' !in EntityName(input.entityId);
  }

  // ---------------------------------------------------------------------------
  // The two delivery paths

  ghost predicate EventHasUuids(e: Event) {
    match e
    case TaskAssigned(task, to, _) => IsUuid(task) && (Missing(to) || IsUuid(to.value))
    case TaskCompleted(task, _, to) => IsUuid(task) && (Missing(to) || IsUuid(to.value))
    case CommentCreated(_, task, _, to) => IsUuid(task) && (Missing(to) || IsUuid(to.value))
    case CommentReplied(comment, _, _, to) => IsUuid(comment) && (Missing(to) || IsUuid(to.value))
  }

  /** What the in-process listener stores, in order. */
  function Delivered(events: seq<Event>): seq<Input>
    decreases |events|
  {
    if events == [] then []
    else
      var before := Delivered(events[..|events| - 1]);
      match MapEvent(events[|events| - 1])
      case None => before
      case Some(input) => before + [input]
  }

  function AddJob(jobs: map<string, Input>, id: string, input: Input): map<string, Input> {
    if id in jobs then jobs else jobs[id := input]
  }

  /** The jobs the queue listener leaves in the queue, by job id. */
  function Enqueued(events: seq<Event>): map<string, Input>
    decreases |events|
  {
    if events == [] then map[]
    else
      var before := Enqueued(events[..|events| - 1]);
      match MapEvent(events[|events| - 1])
      case None => before
      case Some(input) => AddJob(before, NotificationJobId(input), input)
  }

  /** The mappers derive title and entity type from the type, so the key determines the notification. */
  lemma KeyDeterminesInput(d: Event, e: Event)
    requires MapEvent(d).Some? && MapEvent(e).Some? && SameKey(MapEvent(d).value, MapEvent(e).value)
    ensures MapEvent(d) == MapEvent(e)
  {
  }

  lemma MappedHasUuids(e: Event)
    requires EventHasUuids(e) && MapEvent(e).Some?
    ensures HasUuids(MapEvent(e).value)
  {
  }

  /** Every job is filed under its own id, and stems from some event. */
  lemma {:induction false} JobsFiled(events: seq<Event>, id: string)
    requires id in Enqueued(events)
    ensures NotificationJobId(Enqueued(events)[id]) == id
    ensures exists e :: e in events && MapEvent(e) == Some(Enqueued(events)[id])
    decreases |events|
  {
    var m := |events| - 1;
    var before := Enqueued(events[..m]);
    if id in before {
      JobsFiled(events[..m], id);
      var e :| e in events[..m] && MapEvent(e) == Some(before[id]);
      assert e in events;
    } else {
      assert events[m] in events;
    }
  }

  /** A job id that is taken belongs to the very same notification. */
  lemma TakenIdIsSame(events: seq<Event>, last: Event)
    requires (forall e :: e in events ==> EventHasUuids(e)) && EventHasUuids(last) && MapEvent(last).Some?
    requires NotificationJobId(MapEvent(last).value) in Enqueued(events)
    ensures Enqueued(events)[NotificationJobId(MapEvent(last).value)] == MapEvent(last).value
  {
    var id := NotificationJobId(MapEvent(last).value);
    JobsFiled(events, id);
    var d :| d in events && MapEvent(d) == Some(Enqueued(events)[id]);
    MappedHasUuids(d);
    MappedHasUuids(last);
    JobIdInjective(Enqueued(events)[id], MapEvent(last).value);
    KeyDeterminesInput(d, last);
  }

  lemma SamePathsStep(stored: seq<Input>, jobs: map<string, Input>, nextId: string, next: Input, id: string,
      input: Input)
    requires input in stored <==> id in jobs && jobs[id] == input
    requires nextId in jobs ==> jobs[nextId] == next
    requires input == next ==> id == nextId
    ensures input in stored + [next] <==> id in AddJob(jobs, nextId, next) && AddJob(jobs, nextId, next)[id] == input
  {
  }

  /**
   For every sequence of events the queue holds a job for exactly the notifications that the
   in-process listener stores: dropping a job whose id is taken never loses a notification.
   */
  lemma {:induction false} SamePaths(events: seq<Event>, input: Input)
    requires forall e :: e in events ==> EventHasUuids(e)
    ensures input in Delivered(events) <==>
      NotificationJobId(input) in Enqueued(events) && Enqueued(events)[NotificationJobId(input)] == input
    decreases |events|
  {
    if events != [] {
      var m := |events| - 1;
      var last := events[m];
      assert last in events;
      assert forall e :: e in events[..m] ==> e in events;
      SamePaths(events[..m], input);
      var before := Enqueued(events[..m]);
      if MapEvent(last).Some? {
        var next := MapEvent(last).value;
        if NotificationJobId(next) in before {
          TakenIdIsSame(events[..m], last);
        }
        SamePathsStep(Delivered(events[..m]), before, NotificationJobId(next), next, NotificationJobId(input), input);
      }
    }
  }

  /** In particular both paths notify the same (recipient, type, entity) keys. */
  lemma SameKeysNotified(events: seq<Event>)
    requires forall e :: e in events ==> EventHasUuids(e)
    ensures (set i | i in Delivered(events) :: (i.recipientId, i.kind, i.entityId)) ==
      (set id | id in Enqueued(events) ::
        (Enqueued(events)[id].recipientId, Enqueued(events)[id].kind, Enqueued(events)[id].entityId))
  {
    var jobs := Enqueued(events);
    forall i | i in Delivered(events) ensures NotificationJobId(i) in jobs && jobs[NotificationJobId(i)] == i {
      SamePaths(events, i);
    }
    forall id | id in jobs ensures jobs[id] in Delivered(events) {
      JobsFiled(events, id);
      SamePaths(events, jobs[id]);
    }
  }

  class NotificationListener {
    var notifications: seq<Input>

    constructor ()
      ensures notifications == Delivered([])
    {
      notifications := [];
    }

    method On(e: Event, ghost past: seq<Event>)
      requires notifications == Delivered(past)
      modifies this
      ensures notifications == Delivered(past + [e])
      ensures if IsForOther(e) then exists n :: IsNews(e, n) && notifications == old(notifications) + [n]
        else notifications == old(notifications)
    {
      MapsToNews(e);
      assert (past + [e])[..|past + [e]| - 1] == past;
      var input := MapEvent(e);
      if input.Some? {
        notifications := notifications + [input.value];
      }
    }
  }

  /** The job is in the queue, newly unless its id was taken, and nothing else changed. */
  ghost predicate Queues(n: Input, before: map<string, Input>, after: map<string, Input>) {
    var id := NotificationJobId(n);
    id in after && after == if id in before then before else before[id := n]
  }

  class NotificationQueueListener {
    var jobs: map<string, Input>

    constructor ()
      ensures jobs == Enqueued([])
    {
      jobs := map[];
    }

    method On(e: Event, ghost past: seq<Event>)
      requires jobs == Enqueued(past)
      modifies this
      ensures jobs == Enqueued(past + [e])
      ensures if IsForOther(e) then exists n :: IsNews(e, n) && Queues(n, old(jobs), jobs) else jobs == old(jobs)
    {
      MapsToNews(e);
      assert (past + [e])[..|past + [e]| - 1] == past;
      var input := MapEvent(e);
      if input.Some? {
        var jobId := NotificationJobId(input.value);
        if jobId !in jobs {
          jobs := jobs[jobId := input.value];
        }
      }
    }
  }
}
