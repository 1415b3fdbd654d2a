/**
 The reminder scan: which tasks a scan reminds of, what one scan does to the reminder table, the
 queue and the notifications, and what a series of scans guarantees.
 */
module Reminders {
  import opened Forest
  import opened Cte
  import opened Ordering

  /** Look-ahead for "due soon", in milliseconds. */
  const DUE_SOON_WINDOW_MS: int := 24 * 60 * 60 * 1000

  datatype ReminderType = DUE_SOON | OVERDUE

  datatype ReminderStatus = PENDING | SENT | FAILED

  /** UNIQUE (task_id, type, scheduled_for) */
  datatype ReminderKey = ReminderKey(taskId: Id, kind: ReminderType, due: int)

  datatype Reminder = Reminder(key: ReminderKey, status: ReminderStatus, attempts: nat)

  datatype ScanResult = ScanResult(scannedDueSoon: nat, scannedOverdue: nat, created: nat, delivered: nat,
      enqueued: nat)

  datatype Notice = Notice(recipient: Id, kind: ReminderType, taskId: Id)

  predicate IsOpen(task: Task) {
    task.dueDate.Some? && task.status != DONE && task.status != CANCELLED
  }

  predicate InWindow(task: Task, kind: ReminderType, now: int) {
    IsOpen(task) && match kind
      case DUE_SOON => now < task.dueDate.value <= now + DUE_SOON_WINDOW_MS
      case OVERDUE => task.dueDate.value <= now
  }

  /** Each open task due by the end of the look-ahead is in exactly one of the two windows, no other in either. */
  lemma WindowsPartition(task: Task, now: int)
    ensures !(InWindow(task, DUE_SOON, now) && InWindow(task, OVERDUE, now))
    ensures InWindow(task, DUE_SOON, now) || InWindow(task, OVERDUE, now) <==>
      IsOpen(task) && task.dueDate.value <= now + DUE_SOON_WINDOW_MS
  {
  }

  function KeyFor(x: Id, task: Task, kind: ReminderType): ReminderKey
    requires task.dueDate.Some?
  {
    ReminderKey(x, kind, task.dueDate.value)
  }

  /** The reminders a scan at `now` asks for. */
  function Wanted(t: Table, now: int): set<ReminderKey> {
    WantedKind(t, DUE_SOON, now) + WantedKind(t, OVERDUE, now)
  }

  function WantedKind(t: Table, kind: ReminderType, now: int): set<ReminderKey> {
    set x | x in t && InWindow(t[x], kind, now) :: KeyFor(x, t[x], kind)
  }

  // ---------------------------------------------------------------------------
  // The scan itself

  function Keys(reminders: map<Id, Reminder>): set<ReminderKey> {
    set r | r in reminders :: reminders[r].key
  }

  /** No two reminders for one task, type and due date. */
  ghost predicate UniqueKeys(reminders: map<Id, Reminder>) {
    forall r, s :: r in reminders && s in reminders && reminders[r].key == reminders[s].key ==> r == s
  }

  /** The tasks in a window, in the order the database reads them. */
  function Due(t: Table, scan: seq<Id>, kind: ReminderType, now: int): seq<Id> {
    if scan == [] then []
    else (if scan[0] in t && InWindow(t[scan[0]], kind, now) then [scan[0]] else []) + Due(t, scan[1..], kind, now)
  }

  lemma {:induction false} DueMember(t: Table, scan: seq<Id>, kind: ReminderType, now: int, x: Id)
    ensures x in Due(t, scan, kind, now) <==> x in scan && x in t && InWindow(t[x], kind, now)
  {
    if scan != [] {
      DueMember(t, scan[1..], kind, now, x);
      assert scan == [scan[0]] + scan[1..];
    }
  }

  ghost function KeysFor(t: Table, ids: seq<Id>, kind: ReminderType): set<ReminderKey> {
    set x | x in ids && x in t && t[x].dueDate.Some? :: KeyFor(x, t[x], kind)
  }

  /** The reminder table with its next id, the queue and the notices sent. */
  datatype Store = Store(reminders: map<Id, Reminder>, nextId: Id, jobs: seq<Id>, notices: seq<Notice>)

  ghost predicate ValidStore(s: Store) {
    UniqueKeys(s.reminders) && forall r :: r in s.reminders ==> r < s.nextId
  }

  function NoticeFor(t: Table, x: Id, kind: ReminderType): seq<Notice>
    requires x in t
  {
    if t[x].assignee.Some? then [Notice(t[x].assignee.value, kind, x)] else []
  }

  /** Creates the reminder unless it exists and, if created, queues it or delivers it at once. */
  function DispatchOne(queued: bool, t: Table, x: Id, kind: ReminderType, s: Store): Store
    requires x in t && t[x].dueDate.Some?
  {
    var key := KeyFor(x, t[x], kind);
    if key in Keys(s.reminders) then s
    else if queued then
      Store(s.reminders[s.nextId := Reminder(key, PENDING, 0)], s.nextId + 1, s.jobs + [s.nextId], s.notices)
    else
      Store(s.reminders[s.nextId := Reminder(key, SENT, 0)], s.nextId + 1, s.jobs, s.notices + NoticeFor(t, x, kind))
  }

  ghost predicate AllDue(t: Table, ids: seq<Id>) {
    forall i :: 0 <= i < |ids| ==> ids[i] in t && t[ids[i]].dueDate.Some?
  }

  function DispatchList(queued: bool, t: Table, ids: seq<Id>, kind: ReminderType, s: Store): Store
    requires AllDue(t, ids)
    decreases |ids|
  {
    if ids == [] then s
    else DispatchOne(queued, t, ids[|ids| - 1], kind, DispatchList(queued, t, ids[..|ids| - 1], kind, s))
  }

  function ScanStore(queued: bool, t: Table, scan: seq<Id>, now: int, s: Store): Store
    requires Enumerates(scan, t)
  {
    DueExact(t, scan, DUE_SOON, now);
    DueExact(t, scan, OVERDUE, now);
    DispatchList(queued, t, Due(t, scan, OVERDUE, now), OVERDUE,
      DispatchList(queued, t, Due(t, scan, DUE_SOON, now), DUE_SOON, s))
  }

  function Range(lo: nat, hi: nat): seq<nat>
    requires lo <= hi
  {
    seq(hi - lo, i requires 0 <= i < hi - lo => lo + i)
  }

  /** Exactly the rows with the next ids were added, in their first status, and queued if there is a queue. */
  ghost predicate Grew(queued: bool, before: Store, after: Store) {
    && before.nextId <= after.nextId
    && (forall r :: r in before.reminders ==> r in after.reminders && after.reminders[r] == before.reminders[r])
    && (forall r :: r in after.reminders <==> r in before.reminders || before.nextId <= r < after.nextId)
    && (forall r :: before.nextId <= r < after.nextId ==>
          after.reminders[r].attempts == 0 && after.reminders[r].status == if queued then PENDING else SENT)
    && after.jobs == before.jobs + (if queued then Range(before.nextId, after.nextId) else [])
    && (queued ==> after.notices == before.notices)
  }

  lemma DispatchOneGrows(queued: bool, t: Table, x: Id, kind: ReminderType, s: Store)
    requires ValidStore(s) && x in t && t[x].dueDate.Some?
    ensures var s' := DispatchOne(queued, t, x, kind, s);
      ValidStore(s') && Grew(queued, s, s')
  {
  }

  lemma DispatchOneKeys(queued: bool, t: Table, x: Id, kind: ReminderType, s: Store)
    requires x in t && t[x].dueDate.Some? && s.nextId !in s.reminders
    ensures Keys(DispatchOne(queued, t, x, kind, s).reminders) == Keys(s.reminders) + {KeyFor(x, t[x], kind)}
  {
    var key := KeyFor(x, t[x], kind);
    if key in Keys(s.reminders) {
      assert Keys(s.reminders) + {key} == Keys(s.reminders);
    } else {
      KeysInsert(s.reminders, s.nextId, Reminder(key, if queued then PENDING else SENT, 0));
    }
  }

  lemma GrewTransitive(queued: bool, a: Store, b: Store, c: Store)
    requires Grew(queued, a, b) && Grew(queued, b, c)
    ensures Grew(queued, a, c)
  {
    assert Range(a.nextId, c.nextId) == Range(a.nextId, b.nextId) + Range(b.nextId, c.nextId);
  }

  lemma KeysForStep(t: Table, ids: seq<Id>, x: Id, kind: ReminderType)
    requires x in t && t[x].dueDate.Some?
    ensures KeysFor(t, ids + [x], kind) == KeysFor(t, ids, kind) + {KeyFor(x, t[x], kind)}
  {
    var more := KeysFor(t, ids + [x], kind);
    assert x in ids + [x];
    forall k ensures k in more <==> k in KeysFor(t, ids, kind) + {KeyFor(x, t[x], kind)} {
      if k in KeysFor(t, ids, kind) {
        var y :| y in ids && y in t && t[y].dueDate.Some? && KeyFor(y, t[y], kind) == k;
        assert y in ids + [x];
      }
    }
  }

  lemma {:induction false} DispatchListGrows(queued: bool, t: Table, ids: seq<Id>, kind: ReminderType, s: Store)
    requires ValidStore(s) && AllDue(t, ids)
    ensures ValidStore(DispatchList(queued, t, ids, kind, s)) && Grew(queued, s, DispatchList(queued, t, ids, kind, s))
    decreases |ids|
  {
    if ids != [] {
      var m := |ids| - 1;
      var before := DispatchList(queued, t, ids[..m], kind, s);
      DispatchListGrows(queued, t, ids[..m], kind, s);
      DispatchOneGrows(queued, t, ids[m], kind, before);
      GrewTransitive(queued, s, before, DispatchOne(queued, t, ids[m], kind, before));
    }
  }

  lemma {:induction false} DispatchListKeys(queued: bool, t: Table, ids: seq<Id>, kind: ReminderType, s: Store)
    requires ValidStore(s) && AllDue(t, ids)
    ensures Keys(DispatchList(queued, t, ids, kind, s).reminders) == Keys(s.reminders) + KeysFor(t, ids, kind)
    decreases |ids|
  {
    if ids == [] {
      assert KeysFor(t, ids, kind) == {};
    } else {
      var m := |ids| - 1;
      var before := DispatchList(queued, t, ids[..m], kind, s);
      assert ids == ids[..m] + [ids[m]];
      KeysForStep(t, ids[..m], ids[m], kind);
      DispatchListKeys(queued, t, ids[..m], kind, s);
      DispatchListGrows(queued, t, ids[..m], kind, s);
      DispatchOneKeys(queued, t, ids[m], kind, before);
    }
  }

  lemma DueExact(t: Table, scan: seq<Id>, kind: ReminderType, now: int)
    requires Enumerates(scan, t)
    ensures AllDue(t, Due(t, scan, kind, now))
    ensures KeysFor(t, Due(t, scan, kind, now), kind) == WantedKind(t, kind, now)
  {
    var due := Due(t, scan, kind, now);
    forall x ensures x in due <==> x in t && InWindow(t[x], kind, now) {
      DueMember(t, scan, kind, now, x);
    }
    assert forall i :: 0 <= i < |due| ==> due[i] in due;
  }

  /**
   After a scan every wanted reminder exists, the old rows are as they were, exactly the wanted
   ones that were missing are new, and the new ones are the jobs added to the queue, if any.
   */
  lemma ScanGrows(queued: bool, t: Table, scan: seq<Id>, now: int, s: Store)
    requires ValidStore(s) && Enumerates(scan, t)
    ensures var s' := ScanStore(queued, t, scan, now, s);
      && ValidStore(s') && Grew(queued, s, s')
      && Keys(s'.reminders) == Keys(s.reminders) + Wanted(t, now)
  {
    DueExact(t, scan, DUE_SOON, now);
    DueExact(t, scan, OVERDUE, now);
    var between := DispatchList(queued, t, Due(t, scan, DUE_SOON, now), DUE_SOON, s);
    DispatchListGrows(queued, t, Due(t, scan, DUE_SOON, now), DUE_SOON, s);
    DispatchListKeys(queued, t, Due(t, scan, DUE_SOON, now), DUE_SOON, s);
    DispatchListGrows(queued, t, Due(t, scan, OVERDUE, now), OVERDUE, between);
    DispatchListKeys(queued, t, Due(t, scan, OVERDUE, now), OVERDUE, between);
    GrewTransitive(queued, s, between, ScanStore(queued, t, scan, now, s));
  }

  lemma {:induction false} DispatchKnown(queued: bool, t: Table, ids: seq<Id>, kind: ReminderType, s: Store)
    requires AllDue(t, ids) && KeysFor(t, ids, kind) <= Keys(s.reminders)
    ensures DispatchList(queued, t, ids, kind, s) == s
    decreases |ids|
  {
    if ids != [] {
      var m := |ids| - 1;
      assert ids == ids[..m] + [ids[m]];
      KeysForStep(t, ids[..m], ids[m], kind);
      DispatchKnown(queued, t, ids[..m], kind, s);
    }
  }

  /** A scan whose reminders all exist changes nothing; so a second scan on unchanged data does nothing. */
  lemma ScanIdempotent(queued: bool, t: Table, scan: seq<Id>, now: int, s: Store)
    requires ValidStore(s) && Enumerates(scan, t)
    ensures Wanted(t, now) <= Keys(s.reminders) ==> ScanStore(queued, t, scan, now, s) == s
    ensures ScanStore(queued, t, scan, now, ScanStore(queued, t, scan, now, s)) == ScanStore(queued, t, scan, now, s)
  {
    DueExact(t, scan, DUE_SOON, now);
    DueExact(t, scan, OVERDUE, now);
    ScanGrows(queued, t, scan, now, s);
    var s' := ScanStore(queued, t, scan, now, s);
    if Wanted(t, now) <= Keys(s.reminders) {
      DispatchKnown(queued, t, Due(t, scan, DUE_SOON, now), DUE_SOON, s);
      DispatchKnown(queued, t, Due(t, scan, OVERDUE, now), OVERDUE, s);
    }
    DispatchKnown(queued, t, Due(t, scan, DUE_SOON, now), DUE_SOON, s');
    DispatchKnown(queued, t, Due(t, scan, OVERDUE, now), OVERDUE, s');
  }

  /** The notices for the listed tasks whose reminder is not in `keys`. */
  ghost function NewNotices(t: Table, ids: seq<Id>, kind: ReminderType, keys: set<ReminderKey>): seq<Notice>
    requires AllDue(t, ids)
    decreases |ids|
  {
    if ids == [] then []
    else
      var m := |ids| - 1;
      NewNotices(t, ids[..m], kind, keys) +
      (if KeyFor(ids[m], t[ids[m]], kind) in keys then [] else NoticeFor(t, ids[m], kind))
  }

  /** In-process, one notice goes to the assignee of each task that gets a new reminder, and no other. */
  lemma {:induction false} DispatchNotifies(t: Table, ids: seq<Id>, kind: ReminderType, s: Store)
    requires ValidStore(s) && AllDue(t, ids) && Distinct(ids)
    ensures DispatchList(false, t, ids, kind, s).notices == s.notices + NewNotices(t, ids, kind, Keys(s.reminders))
    decreases |ids|
  {
    if ids != [] {
      var m := |ids| - 1;
      var key := KeyFor(ids[m], t[ids[m]], kind);
      DispatchNotifies(t, ids[..m], kind, s);
      DispatchListKeys(false, t, ids[..m], kind, s);
      assert key !in KeysFor(t, ids[..m], kind);
    }
  }

  lemma {:induction false} DueDistinct(t: Table, scan: seq<Id>, kind: ReminderType, now: int)
    requires Distinct(scan)
    ensures Distinct(Due(t, scan, kind, now))
  {
    if scan != [] {
      DueDistinct(t, scan[1..], kind, now);
      forall x | x in Due(t, scan[1..], kind, now) ensures x != scan[0] {
        DueMember(t, scan[1..], kind, now, x);
      }
      var rest := Due(t, scan[1..], kind, now);
      assert forall i :: 0 <= i < |rest| ==> rest[i] in rest;
    }
  }

  lemma {:induction false} NewNoticesOtherKind(t: Table, ids: seq<Id>, kind: ReminderType, keys: set<ReminderKey>,
      others: set<ReminderKey>)
    requires AllDue(t, ids) && forall k :: k in others ==> k.kind != kind
    ensures NewNotices(t, ids, kind, keys + others) == NewNotices(t, ids, kind, keys)
    decreases |ids|
  {
    if ids != [] {
      NewNoticesOtherKind(t, ids[..|ids| - 1], kind, keys, others);
    }
  }

  /** An in-process scan sends one notice per new reminder whose task has an assignee, due soon first. */
  lemma ScanNotifies(t: Table, scan: seq<Id>, now: int, s: Store)
    requires ValidStore(s) && Enumerates(scan, t)
    ensures AllDue(t, Due(t, scan, DUE_SOON, now)) && AllDue(t, Due(t, scan, OVERDUE, now))
    ensures ScanStore(false, t, scan, now, s).notices == s.notices +
      NewNotices(t, Due(t, scan, DUE_SOON, now), DUE_SOON, Keys(s.reminders)) +
      NewNotices(t, Due(t, scan, OVERDUE, now), OVERDUE, Keys(s.reminders))
  {
    var dueSoon, overdue := Due(t, scan, DUE_SOON, now), Due(t, scan, OVERDUE, now);
    DueExact(t, scan, DUE_SOON, now);
    DueExact(t, scan, OVERDUE, now);
    DueDistinct(t, scan, DUE_SOON, now);
    DueDistinct(t, scan, OVERDUE, now);
    DispatchNotifies(t, dueSoon, DUE_SOON, s);
    DispatchListGrows(false, t, dueSoon, DUE_SOON, s);
    DispatchListKeys(false, t, dueSoon, DUE_SOON, s);
    DispatchNotifies(t, overdue, OVERDUE, DispatchList(false, t, dueSoon, DUE_SOON, s));
    NewNoticesOtherKind(t, overdue, OVERDUE, Keys(s.reminders), KeysFor(t, dueSoon, DUE_SOON));
  }

  // ---------------------------------------------------------------------------
  // What a scan gives its caller, said of the tasks

  /** The scan at `now` is to remind of task `x` with this type and due date. */
  ghost predicate Reminds(t: Table, now: int, key: ReminderKey) {
    && key.taskId in t && t[key.taskId].dueDate == Some(key.due)
    && t[key.taskId].status != DONE && t[key.taskId].status != CANCELLED
    && match key.kind
       case DUE_SOON => now < key.due <= now + 86_400_000
       case OVERDUE => key.due <= now
  }

  lemma WantedReminds(t: Table, now: int)
    ensures forall key :: key in Wanted(t, now) <==> Reminds(t, now, key)
  {
    forall key ensures key in Wanted(t, now) <==> Reminds(t, now, key) {
      if Reminds(t, now, key) {
        assert key == KeyFor(key.taskId, t[key.taskId], key.kind);
        assert key in WantedKind(t, key.kind, now);
      }
    }
  }

  /** `added` is one notice to the assignee for each new key whose task has one, of that task and type, and no other. */
  ghost predicate NoticesFor(t: Table, before: set<ReminderKey>, after: set<ReminderKey>, added: seq<Notice>) {
    forall n: Notice :: multiset(added)[n] == if Announces(t, before, after, n) then 1 else 0
  }

  ghost predicate Announces(t: Table, before: set<ReminderKey>, after: set<ReminderKey>, n: Notice) {
    && n.taskId in t && t[n.taskId].assignee == Some(n.recipient) && t[n.taskId].dueDate.Some?
    && var key := ReminderKey(n.taskId, n.kind, t[n.taskId].dueDate.value); key in after && key !in before
  }

  /** The notice goes to the assignee of `x`, whose reminder is not in `keys` yet. */
  ghost predicate IsNotice(t: Table, x: Id, kind: ReminderType, keys: set<ReminderKey>, n: Notice)
    requires x in t && t[x].dueDate.Some?
  {
    && n.taskId == x && n.kind == kind && t[x].assignee == Some(n.recipient)
    && ReminderKey(x, kind, t[x].dueDate.value) !in keys
  }

  ghost function NoticeIfNew(t: Table, x: Id, kind: ReminderType, keys: set<ReminderKey>): seq<Notice>
    requires x in t && t[x].dueDate.Some?
  {
    if KeyFor(x, t[x], kind) in keys then [] else NoticeFor(t, x, kind)
  }

  lemma OneNotice(t: Table, x: Id, kind: ReminderType, keys: set<ReminderKey>, n: Notice)
    requires x in t && t[x].dueDate.Some?
    ensures multiset(NoticeIfNew(t, x, kind, keys))[n] == if IsNotice(t, x, kind, keys, n) then 1 else 0
  {
  }

  lemma {:induction false} NewNoticesCount(t: Table, ids: seq<Id>, kind: ReminderType, keys: set<ReminderKey>,
      n: Notice)
    requires AllDue(t, ids) && Distinct(ids)
    ensures n.taskId in ids ==> n.taskId in t && t[n.taskId].dueDate.Some?
    ensures multiset(NewNotices(t, ids, kind, keys))[n] ==
      if n.taskId in ids && IsNotice(t, n.taskId, kind, keys, n) then 1 else 0
    decreases |ids|
  {
    if ids != [] {
      var m := |ids| - 1;
      var rest, x := ids[..m], ids[m];
      NewNoticesCount(t, rest, kind, keys, n);
      OneNotice(t, x, kind, keys, n);
      LastNotice(t, ids, kind, keys);
      assert ids == rest + [x];
      assert x !in rest;
      assert multiset(NewNotices(t, ids, kind, keys)) ==
        multiset(NewNotices(t, rest, kind, keys)) + multiset(NoticeIfNew(t, x, kind, keys));
    }
  }

  lemma LastNotice(t: Table, ids: seq<Id>, kind: ReminderType, keys: set<ReminderKey>)
    requires AllDue(t, ids) && ids != []
    ensures NewNotices(t, ids, kind, keys) ==
      NewNotices(t, ids[..|ids| - 1], kind, keys) + NoticeIfNew(t, ids[|ids| - 1], kind, keys)
  {
  }

  /** An in-process scan adds exactly those notices. */
  lemma ScanAnnounces(t: Table, scan: seq<Id>, now: int, s: Store)
    requires ValidStore(s) && Enumerates(scan, t)
    ensures var s' := ScanStore(false, t, scan, now, s);
      && |s.notices| <= |s'.notices| && s'.notices[..|s.notices|] == s.notices
      && NoticesFor(t, Keys(s.reminders), Keys(s'.reminders), s'.notices[|s.notices|..])
  {
    var s' := ScanStore(false, t, scan, now, s);
    ScanNotifies(t, scan, now, s);
    var first := NewNotices(t, Due(t, scan, DUE_SOON, now), DUE_SOON, Keys(s.reminders));
    var second := NewNotices(t, Due(t, scan, OVERDUE, now), OVERDUE, Keys(s.reminders));
    Appended(s.notices, first, second, s'.notices);
    forall n: Notice
      ensures multiset(first)[n] + multiset(second)[n] ==
        if Announces(t, Keys(s.reminders), Keys(s'.reminders), n) then 1 else 0
    {
      NoticeCount(t, scan, now, s, n);
    }
    NoticesConcat(t, Keys(s.reminders), Keys(s'.reminders), first, second);
  }

  lemma Appended(sent: seq<Notice>, first: seq<Notice>, second: seq<Notice>, all: seq<Notice>)
    requires all == sent + first + second
    ensures |sent| <= |all| && all[..|sent|] == sent && all[|sent|..] == first + second
  {
    assert all == sent + (first + second);
  }

  lemma NoticesConcat(t: Table, before: set<ReminderKey>, after: set<ReminderKey>, first: seq<Notice>,
      second: seq<Notice>)
    requires forall n: Notice ::
      multiset(first)[n] + multiset(second)[n] == if Announces(t, before, after, n) then 1 else 0
    ensures NoticesFor(t, before, after, first + second)
  {
    assert forall n: Notice :: multiset(first + second)[n] == multiset(first)[n] + multiset(second)[n];
  }

  lemma NoticeCount(t: Table, scan: seq<Id>, now: int, s: Store, n: Notice)
    requires ValidStore(s) && Enumerates(scan, t)
    requires AllDue(t, Due(t, scan, DUE_SOON, now)) && AllDue(t, Due(t, scan, OVERDUE, now))
    ensures multiset(NewNotices(t, Due(t, scan, DUE_SOON, now), DUE_SOON, Keys(s.reminders)))[n] +
      multiset(NewNotices(t, Due(t, scan, OVERDUE, now), OVERDUE, Keys(s.reminders)))[n] ==
      if Announces(t, Keys(s.reminders), Keys(ScanStore(false, t, scan, now, s).reminders), n) then 1 else 0
  {
    KindCount(t, scan, DUE_SOON, now, s, n);
    KindCount(t, scan, OVERDUE, now, s, n);
  }

  lemma KindCount(t: Table, scan: seq<Id>, kind: ReminderType, now: int, s: Store, n: Notice)
    requires ValidStore(s) && Enumerates(scan, t) && AllDue(t, Due(t, scan, kind, now))
    ensures multiset(NewNotices(t, Due(t, scan, kind, now), kind, Keys(s.reminders)))[n] ==
      if n.kind == kind && Announces(t, Keys(s.reminders), Keys(ScanStore(false, t, scan, now, s).reminders), n)
      then 1 else 0
  {
    DueDistinct(t, scan, kind, now);
    NewNoticesCount(t, Due(t, scan, kind, now), kind, Keys(s.reminders), n);
    if n.kind == kind {
      NewKeyIsDue(t, scan, now, s, n);
    }
  }

  /** A new key of a task is one whose task is in the window of its type. */
  lemma NewKeyIsDue(t: Table, scan: seq<Id>, now: int, s: Store, n: Notice)
    requires ValidStore(s) && Enumerates(scan, t)
    ensures Announces(t, Keys(s.reminders), Keys(ScanStore(false, t, scan, now, s).reminders), n) <==>
      && n.taskId in Due(t, scan, n.kind, now) && n.taskId in t && t[n.taskId].dueDate.Some?
      && t[n.taskId].assignee == Some(n.recipient)
      && ReminderKey(n.taskId, n.kind, t[n.taskId].dueDate.value) !in Keys(s.reminders)
  {
    ScanGrows(false, t, scan, now, s);
    WantedReminds(t, now);
    DueMember(t, scan, n.kind, now, n.taskId);
    if n.taskId in t && t[n.taskId].dueDate.Some? {
      var key := ReminderKey(n.taskId, n.kind, t[n.taskId].dueDate.value);
      assert Reminds(t, now, key) <==> InWindow(t[n.taskId], n.kind, now);
    }
  }

  function Members(s: seq<Id>): set<Id> {
    set x | x in s
  }

  lemma {:induction false} DistinctSize(s: seq<Id>)
    requires Distinct(s)
    ensures |Members(s)| == |s|
  {
    if s != [] {
      var rest := s[1..];
      DistinctSize(rest);
      MembersSplit(s);
      forall i | 0 <= i < |rest| ensures rest[i] != s[0] {
        assert rest[i] == s[i + 1];
      }
      assert s[0] !in Members(rest);
    }
  }

  lemma MembersSplit(s: seq<Id>)
    requires s != []
    ensures Members(s) == Members(s[1..]) + {s[0]}
  {
    assert s == [s[0]] + s[1..];
  }

  /** The tasks a scan finds in a window. */
  ghost function Found(t: Table, kind: ReminderType, now: int): set<Id> {
    set x | x in t && t[x].dueDate.Some? && Reminds(t, now, ReminderKey(x, kind, t[x].dueDate.value))
  }

  lemma DueCount(t: Table, scan: seq<Id>, kind: ReminderType, now: int)
    requires Enumerates(scan, t)
    ensures |Due(t, scan, kind, now)| == |Found(t, kind, now)|
  {
    var due := Due(t, scan, kind, now);
    DueDistinct(t, scan, kind, now);
    DistinctSize(due);
    forall x ensures x in due <==> x in Found(t, kind, now) {
      DueMember(t, scan, kind, now, x);
    }
    assert Members(due) == Found(t, kind, now);
  }

  // ---------------------------------------------------------------------------
  // A series of scans

  /** A scan at `now` that finds the task table `tasks` and reads it in the given order. */
  datatype ScanPoint = ScanPoint(now: int, tasks: Table, order: seq<Id>)

  ghost predicate ReadAll(scans: seq<ScanPoint>) {
    forall i :: 0 <= i < |scans| ==> Enumerates(scans[i].order, scans[i].tasks)
  }

  /** Reminders of deleted tasks go with them (ON DELETE CASCADE). */
  function Cascade(s: Store, t: Table): Store {
    s.(reminders := map r | r in s.reminders && s.reminders[r].key.taskId in t :: s.reminders[r])
  }

  /** The store after a series of completed scans. Between scans the task table may change in any way. */
  function StoreAfter(queued: bool, scans: seq<ScanPoint>): Store
    requires ReadAll(scans)
    decreases |scans|
  {
    if scans == [] then Store(map[], 0, [], [])
    else
      var last := scans[|scans| - 1];
      ScanStore(queued, last.tasks, last.order, last.now, Cascade(StoreAfter(queued, scans[..|scans| - 1]), last.tasks))
  }

  /** The reminders that exist after a series of scans. */
  function KeysStored(queued: bool, scans: seq<ScanPoint>): set<ReminderKey>
    requires ReadAll(scans)
  {
    Keys(StoreAfter(queued, scans).reminders)
  }

  lemma CascadeKeys(s: Store, t: Table)
    requires ValidStore(s)
    ensures ValidStore(Cascade(s, t))
    ensures Keys(Cascade(s, t).reminders) == set k | k in Keys(s.reminders) && k.taskId in t
  {
    var left := Cascade(s, t).reminders;
    forall k | k in Keys(s.reminders) && k.taskId in t ensures k in Keys(left) {
      var r :| r in s.reminders && s.reminders[r].key == k;
      assert r in left && left[r].key == k;
    }
  }

  lemma {:induction false} StoreAfterValid(queued: bool, scans: seq<ScanPoint>)
    requires ReadAll(scans)
    ensures ValidStore(StoreAfter(queued, scans))
    decreases |scans|
  {
    if scans != [] {
      var last, before := scans[|scans| - 1], StoreAfter(queued, scans[..|scans| - 1]);
      StoreAfterValid(queued, scans[..|scans| - 1]);
      CascadeKeys(before, last.tasks);
      ScanGrows(queued, last.tasks, last.order, last.now, Cascade(before, last.tasks));
    }
  }

  /**
   One more scan keeps the reminders of the tasks that are left and adds the wanted ones, on either
   path and in any order.
   */
  lemma StoredStep(queued: bool, scans: seq<ScanPoint>)
    requires ReadAll(scans) && scans != []
    ensures var last := scans[|scans| - 1];
      KeysStored(queued, scans) ==
        (set k | k in KeysStored(queued, scans[..|scans| - 1]) && k.taskId in last.tasks) + Wanted(last.tasks, last.now)
  {
    var last, before := scans[|scans| - 1], StoreAfter(queued, scans[..|scans| - 1]);
    StoreAfterValid(queued, scans[..|scans| - 1]);
    CascadeKeys(before, last.tasks);
    ScanGrows(queued, last.tasks, last.order, last.now, Cascade(before, last.tasks));
  }

  ghost predicate GapsAtMost(scans: seq<ScanPoint>, gap: int) {
    forall i :: 0 < i < |scans| ==> scans[i - 1].now <= scans[i].now <= scans[i - 1].now + gap
  }

  /** Scans no further apart than the look-ahead cannot jump over the day before a due date. */
  lemma {:induction false} ScanHitsWindow(scans: seq<ScanPoint>, due: int) returns (i: nat)
    requires GapsAtMost(scans, DUE_SOON_WINDOW_MS)
    requires scans != [] && scans[0].now < due && scans[|scans| - 1].now >= due - DUE_SOON_WINDOW_MS
    ensures i < |scans| && due - DUE_SOON_WINDOW_MS <= scans[i].now < due
    decreases |scans|
  {
    if scans[0].now >= due - DUE_SOON_WINDOW_MS {
      i := 0;
    } else {
      var j := ScanHitsWindow(scans[1..], due);
      i := j + 1;
    }
  }

  /** A reminder stays as long as its task does. */
  lemma {:induction false} KeysStay(queued: bool, scans: seq<ScanPoint>, i: nat, k: ReminderKey)
    requires ReadAll(scans) && i <= |scans| && k in KeysStored(queued, scans[..i])
    requires forall j :: i <= j < |scans| ==> k.taskId in scans[j].tasks
    ensures k in KeysStored(queued, scans)
    decreases |scans|
  {
    if i == |scans| {
      assert scans[..i] == scans;
    } else {
      assert scans[..|scans| - 1][..i] == scans[..i];
      KeysStay(queued, scans[..|scans| - 1], i, k);
      StoredStep(queued, scans);
    }
  }

  lemma ScanCovers(queued: bool, scans: seq<ScanPoint>, i: nat, x: Id, kind: ReminderType)
    requires ReadAll(scans) && i < |scans| && x in scans[i].tasks && InWindow(scans[i].tasks[x], kind, scans[i].now)
    ensures KeyFor(x, scans[i].tasks[x], kind) in KeysStored(queued, scans[..i + 1])
  {
    StoredStep(queued, scans[..i + 1]);
    assert scans[..i + 1][|scans[..i + 1]| - 1] == scans[i];
    assert KeyFor(x, scans[i].tasks[x], kind) in WantedKind(scans[i].tasks, kind, scans[i].now);
  }

  /**
   With scans at most 24 hours apart, a task that is open with due date `due` at every scan of
   the 24 hours before `due` has its DUE_SOON reminder from some scan before `due` on.
   */
  lemma DueSoonInTime(queued: bool, scans: seq<ScanPoint>, x: Id, due: int) returns (i: nat)
    requires ReadAll(scans) && GapsAtMost(scans, DUE_SOON_WINDOW_MS)
    requires scans != [] && scans[0].now < due && scans[|scans| - 1].now >= due - DUE_SOON_WINDOW_MS
    requires forall j :: 0 <= j < |scans| && due - DUE_SOON_WINDOW_MS <= scans[j].now < due ==>
      x in scans[j].tasks && IsOpen(scans[j].tasks[x]) && scans[j].tasks[x].dueDate == Some(due)
    ensures i < |scans| && scans[i].now < due
    ensures ReminderKey(x, DUE_SOON, due) in KeysStored(queued, scans[..i + 1])
    ensures (forall j :: i < j < |scans| ==> x in scans[j].tasks) ==>
      ReminderKey(x, DUE_SOON, due) in KeysStored(queued, scans)
  {
    i := ScanHitsWindow(scans, due);
    ScanCovers(queued, scans, i, x, DUE_SOON);
    if forall j :: i < j < |scans| ==> x in scans[j].tasks {
      KeysStay(queued, scans, i + 1, ReminderKey(x, DUE_SOON, due));
    }
  }

  /** A task still open at a scan at or after its due date has its OVERDUE reminder from that scan on. */
  lemma OverdueAfterDue(queued: bool, scans: seq<ScanPoint>, i: nat, x: Id, due: int)
    requires ReadAll(scans) && i < |scans| && scans[i].now >= due
    requires x in scans[i].tasks && IsOpen(scans[i].tasks[x]) && scans[i].tasks[x].dueDate == Some(due)
    ensures ReminderKey(x, OVERDUE, due) in KeysStored(queued, scans[..i + 1])
    ensures (forall j :: i < j < |scans| ==> x in scans[j].tasks) ==>
      ReminderKey(x, OVERDUE, due) in KeysStored(queued, scans)
  {
    ScanCovers(queued, scans, i, x, OVERDUE);
    if forall j :: i < j < |scans| ==> x in scans[j].tasks {
      KeysStay(queued, scans, i + 1, ReminderKey(x, OVERDUE, due));
    }
  }

  /** No reminder exists that no scan asked for. */
  lemma {:induction false} StoredWereWanted(queued: bool, scans: seq<ScanPoint>, k: ReminderKey)
    requires ReadAll(scans) && forall i :: 0 <= i < |scans| ==> k !in Wanted(scans[i].tasks, scans[i].now)
    ensures k !in KeysStored(queued, scans)
    decreases |scans|
  {
    if scans != [] {
      StoredWereWanted(queued, scans[..|scans| - 1], k);
      StoredStep(queued, scans);
    }
  }

  lemma OutsideWindow(x: Id, task: Task, now: int, due: int)
    requires !(now < due <= now + DUE_SOON_WINDOW_MS)
    ensures ReminderKey(x, DUE_SOON, due) !in Wanted(map[x := task], now)
  {
    WantedReminds(map[x := task], now);
  }

  /** The 24 hours are exact: any longer gap can miss the window of a task that is open all along. */
  lemma WiderGapMisses(queued: bool, gap: int, x: Id, task: Task)
    requires gap > DUE_SOON_WINDOW_MS && IsOpen(task)
    ensures var due := task.dueDate.value;
      var first := ScanPoint(due - DUE_SOON_WINDOW_MS - 1, map[x := task], [x]);
      var scans := [first, first.(now := first.now + gap)];
      first.now < due && ReadAll(scans) && ReminderKey(x, DUE_SOON, due) !in KeysStored(queued, scans)
  {
    var due := task.dueDate.value;
    var first := ScanPoint(due - DUE_SOON_WINDOW_MS - 1, map[x := task], [x]);
    OutsideWindow(x, task, first.now, due);
    OutsideWindow(x, task, first.now + gap, due);
    StoredWereWanted(queued, [first, first.(now := first.now + gap)], ReminderKey(x, DUE_SOON, due));
  }

  lemma CascadeNothing(s: Store, t: Table)
    requires forall k :: k in Keys(s.reminders) ==> k.taskId in t
    ensures Cascade(s, t) == s
  {
    assert forall r :: r in s.reminders ==> s.reminders[r].key in Keys(s.reminders);
    assert Cascade(s, t).reminders == s.reminders;
  }

  lemma StoreAfterNext(queued: bool, scans: seq<ScanPoint>, p: ScanPoint)
    requires ReadAll(scans) && Enumerates(p.order, p.tasks)
    ensures ReadAll(scans + [p])
    ensures StoreAfter(queued, scans + [p]) ==
      ScanStore(queued, p.tasks, p.order, p.now, Cascade(StoreAfter(queued, scans), p.tasks))
  {
    assert (scans + [p])[..|scans|] == scans;
  }

  /** Scanning again at the same time, with the tasks unchanged, changes nothing, whatever order they are read in. */
  lemma RescanChangesNothing(queued: bool, scans: seq<ScanPoint>, p: ScanPoint, order: seq<Id>)
    requires ReadAll(scans) && Enumerates(p.order, p.tasks) && Enumerates(order, p.tasks)
    ensures var once := scans + [p];
      var twice := once + [p.(order := order)];
      ReadAll(once) && ReadAll(twice) && StoreAfter(queued, twice) == StoreAfter(queued, once)
  {
    var once := scans + [p];
    StoreAfterNext(queued, scans, p);
    StoreAfterNext(queued, once, p.(order := order));
    StoreAfterValid(queued, once);
    StoredStep(queued, once);
    CascadeNothing(StoreAfter(queued, once), p.tasks);
    ScanIdempotent(queued, p.tasks, order, p.now, StoreAfter(queued, once));
  }

  // ---------------------------------------------------------------------------
  // The service

  class RemindersService {
    /** Whether a queue is configured; without one delivery is in-process. */
    const queued: bool
    var tasks: Table
    var reminders: map<Id, Reminder>
    var nextId: Id
    var jobs: seq<Id>
    var notices: seq<Notice>

    ghost function Contents(): Store
      reads this
    {
      Store(reminders, nextId, jobs, notices)
    }

    constructor (queued: bool, tasks: Table)
      ensures this.queued == queued && this.tasks == tasks
      ensures ValidStore(Contents()) && Contents() == Store(map[], 0, [], [])
    {
      this.queued, this.tasks := queued, tasks;
      reminders, nextId, jobs, notices := map[], 0, [], [];
    }

    /** INSERT ... ON CONFLICT DO NOTHING RETURNING id */
    method CreateReminder(key: ReminderKey) returns (id: Option<Id>)
      requires ValidStore(Contents())
      modifies this`reminders, this`nextId
      ensures ValidStore(Contents())
      ensures id.None? <==> key in Keys(old(reminders))
      ensures id.None? ==> Contents() == old(Contents())
      ensures id.Some? ==> id.value == old(nextId) && nextId == old(nextId) + 1
      ensures id.Some? ==> reminders == old(reminders)[id.value := Reminder(key, PENDING, 0)]
    {
      if exists r :: r in reminders && reminders[r].key == key {
        return None;
      }
      id := Some(nextId);
      reminders := reminders[nextId := Reminder(key, PENDING, 0)];
      nextId := nextId + 1;
    }

    method Dispatch(x: Id, kind: ReminderType) returns (created: bool, delivered: bool, enqueued: bool)
      requires ValidStore(Contents()) && x in tasks && tasks[x].dueDate.Some?
      modifies this`reminders, this`nextId, this`jobs, this`notices
      ensures ValidStore(Contents())
      ensures Contents() == DispatchOne(queued, tasks, x, kind, old(Contents()))
      ensures nextId == old(nextId) + if created then 1 else 0
      ensures delivered == (created && !queued) && enqueued == (created && queued)
      ensures created <==> ReminderKey(x, kind, tasks[x].dueDate.value) !in Keys(old(reminders))
      ensures notices == old(notices) +
        if delivered && tasks[x].assignee.Some? then [Notice(tasks[x].assignee.value, kind, x)] else []
    {
      DispatchOneGrows(queued, tasks, x, kind, Contents());
      var id := CreateReminder(KeyFor(x, tasks[x], kind));
      if id.None? {
        return false, false, false;
      }
      if queued {
        jobs := jobs + [id.value];
        return true, false, true;
      }
      if tasks[x].assignee.Some? {
        notices := notices + [Notice(tasks[x].assignee.value, kind, x)];
      }
      reminders := reminders[id.value := reminders[id.value].(status := SENT)];
      return true, true, false;
    }

    /** The loop over one list of due tasks, with its tallies. */
    method DispatchAll(ids: seq<Id>, kind: ReminderType) returns (created: nat, delivered: nat, enqueued: nat)
      requires ValidStore(Contents()) && AllDue(tasks, ids)
      modifies this`reminders, this`nextId, this`jobs, this`notices
      ensures ValidStore(Contents())
      ensures Contents() == DispatchList(queued, tasks, ids, kind, old(Contents()))
      ensures nextId == old(nextId) + created
      ensures delivered == (if queued then 0 else created) && enqueued == (if queued then created else 0)
    {
      created, delivered, enqueued := 0, 0, 0;
      ghost var start := Contents();
      for i := 0 to |ids|
        invariant ValidStore(Contents())
        invariant Contents() == DispatchList(queued, tasks, ids[..i], kind, start)
        invariant nextId == start.nextId + created
        invariant delivered == (if queued then 0 else created) && enqueued == (if queued then created else 0)
      {
        assert ids[..i + 1][..i] == ids[..i];
        var c, d, e := Dispatch(ids[i], kind);
        created := if c then created + 1 else created;
        delivered := if d then delivered + 1 else delivered;
        enqueued := if e then enqueued + 1 else enqueued;
      }
      assert ids[..|ids|] == ids;
    }

    /**
     One scan. Afterwards every reminder the tasks call for exists, and no other is new; in-process the
     assignees of their tasks are notified, each once per new reminder, and nobody else. As many rows
     are new as are reported created, each delivered or enqueued, and the tasks found are counted.
     */
    method Scan(now: int, scan: seq<Id>) returns (r: ScanResult)
      requires ValidStore(Contents()) && Enumerates(scan, tasks)
      modifies this`reminders, this`nextId, this`jobs, this`notices
      ensures ValidStore(Contents())
      ensures Contents() == ScanStore(queued, tasks, scan, now, old(Contents()))
      ensures forall key :: key in Keys(reminders) <==> key in Keys(old(reminders)) || Reminds(tasks, now, key)
      ensures |old(notices)| <= |notices| && notices[..|old(notices)|] == old(notices)
      ensures if queued then notices == old(notices)
        else NoticesFor(tasks, Keys(old(reminders)), Keys(reminders), notices[|old(notices)|..])
      ensures r.scannedDueSoon == |Found(tasks, DUE_SOON, now)| && r.scannedOverdue == |Found(tasks, OVERDUE, now)|
      ensures Grew(queued, old(Contents()), Contents()) && nextId == old(nextId) + r.created
      ensures r.created == r.delivered + r.enqueued && (if queued then r.delivered == 0 else r.enqueued == 0)
    {
      DueExact(tasks, scan, DUE_SOON, now);
      DueExact(tasks, scan, OVERDUE, now);
      ScanGrows(queued, tasks, scan, now, Contents());
      WantedReminds(tasks, now);
      if !queued {
        ScanAnnounces(tasks, scan, now, Contents());
      }
      DueCount(tasks, scan, DUE_SOON, now);
      DueCount(tasks, scan, OVERDUE, now);
      var dueSoon := Due(tasks, scan, DUE_SOON, now);
      var overdue := Due(tasks, scan, OVERDUE, now);
      var c1, d1, e1 := DispatchAll(dueSoon, DUE_SOON);
      var c2, d2, e2 := DispatchAll(overdue, OVERDUE);
      r := ScanResult(|dueSoon|, |overdue|, c1 + c2, d1 + d2, e1 + e2);
    }
  }

  lemma KeysInsert(reminders: map<Id, Reminder>, id: Id, row: Reminder)
    requires id !in reminders
    ensures Keys(reminders[id := row]) == Keys(reminders) + {row.key}
  {
    var after := reminders[id := row];
    forall k ensures k in Keys(after) <==> k in Keys(reminders) + {row.key} {
      if k in Keys(reminders) {
        var r :| r in reminders && reminders[r].key == k;
        assert r in after && after[r].key == k;
      }
      if k == row.key {
        assert id in after && after[id].key == k;
      }
    }
  }
}
