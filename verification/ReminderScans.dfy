/**
 Reminder scans that overlap, one step per database or queue call.

 Several scans run at once: the scheduler's, which never overlaps itself, and any others. Each
 works through its own list, read earlier and perhaps outdated: insert the reminder row (or find
 it exists), then queue it, or notify the assignee and mark the row sent. Any call may fail, which ends
 that scan. Meanwhile tasks are added and deleted, and a deleted task takes its reminders along.
 */
module ReminderScans {
  import opened Forest
  import opened Reminders

  /** A due task as the scan read it. */
  datatype Item = Item(key: ReminderKey, hasAssignee: bool)

  /** Where a scan is with the first item of its list. */
  datatype Phase = Ready | Inserted | Notified

  datatype Scan = Scan(todo: seq<Item>, phase: Phase, scheduled: bool, created: nat, delivered: nat, enqueued: nat)

  /**
   The reminder rows; the notifications stored in-process, the jobs queued and the keys marked sent,
   over all time; the scans; the scheduler's flag; the tasks. The last three fields are
   history: the keys ever inserted, those whose task had an assignee, and where a scan failed with a key in hand.
   */
  datatype State = State(
    rows: map<Id, ReminderKey>,
    sent: multiset<ReminderKey>,
    jobs: multiset<ReminderKey>,
    marked: set<ReminderKey>,
    scans: map<Id, Scan>,
    running: bool,
    live: set<Id>,
    dead: set<Id>,
    ever: set<ReminderKey>,
    assignedKeys: set<ReminderKey>,
    failed: map<ReminderKey, Phase>)

  datatype Step =
    | Fire(pid: Id, items: seq<Item>)
    | Start(pid: Id, items: seq<Item>)
    | Insert(pid: Id, rowId: Id)
    | Enqueue(pid: Id)
    | NotifyAssignee(pid: Id)
    | MarkSent(pid: Id)
    | Finish(pid: Id)
    | Fail(pid: Id)
    | AddTask(task: Id)
    | RemoveTask(task: Id)

  const INITIAL: State := State(map[], multiset{}, multiset{}, {}, map[], false, {}, {}, {}, {}, map[])

  predicate HasRow(s: State, k: ReminderKey) {
    exists r :: r in s.rows && s.rows[r] == k
  }

  /** The scan is at an item, in the given phase. */
  predicate At(s: State, pid: Id, phase: Phase) {
    pid in s.scans && s.scans[pid].phase == phase && s.scans[pid].todo != []
  }

  function Head(c: Scan): ReminderKey
    requires c.todo != []
  {
    c.todo[0].key
  }

  function Advance(c: Scan): Scan
    requires c.todo != []
  {
    c.(todo := c.todo[1..], phase := Ready)
  }

  /** The scan has inserted the key and is not yet through with it. */
  predicate Holds(c: Scan, k: ReminderKey) {
    c.phase != Ready && c.todo != [] && Head(c) == k
  }

  /** Ends a scan; the scheduler's `finally` clears its flag. A key it has in hand is recorded as failed. */
  function End(s: State, pid: Id): State
    requires pid in s.scans
  {
    var c := s.scans[pid];
    s.(scans := s.scans - {pid}, running := s.running && !c.scheduled,
       failed := if c.phase != Ready && c.todo != [] then s.failed[Head(c) := c.phase] else s.failed)
  }

  predicate Enabled(queued: bool, s: State, step: Step) {
    match step
    case Fire(pid, _) => pid !in s.scans && !s.running
    case Start(pid, _) => pid !in s.scans
    case Insert(pid, rowId) => At(s, pid, Ready) && rowId !in s.rows
    case Enqueue(pid) => queued && At(s, pid, Inserted)
    case NotifyAssignee(pid) => !queued && At(s, pid, Inserted)
    case MarkSent(pid) => !queued && At(s, pid, Notified)
    case Finish(pid) => pid in s.scans && s.scans[pid].todo == []
    case Fail(pid) => pid in s.scans
    case AddTask(x) => x !in s.live && x !in s.dead
    case RemoveTask(x) => x in s.live
  }

  /** INSERT ... ON CONFLICT DO NOTHING; the foreign key refuses a reminder of a deleted task. */
  function InsertRow(s: State, pid: Id, rowId: Id): State
    requires At(s, pid, Ready)
  {
    var c := s.scans[pid];
    var k := Head(c);
    if k.taskId !in s.live then End(s, pid)
    else if HasRow(s, k) then s.(scans := s.scans[pid := Advance(c)])
    else s.(rows := s.rows[rowId := k], ever := s.ever + {k},
            assignedKeys := if c.todo[0].hasAssignee then s.assignedKeys + {k} else s.assignedKeys,
            scans := s.scans[pid := c.(phase := Inserted, created := c.created + 1)])
  }

  /** The state after a step; a step that is not enabled changes nothing. */
  function Next(queued: bool, s: State, step: Step): State {
    if !Enabled(queued, s, step) then s
    else match step
      case Fire(pid, items) => s.(scans := s.scans[pid := Scan(items, Ready, true, 0, 0, 0)], running := true)
      case Start(pid, items) => s.(scans := s.scans[pid := Scan(items, Ready, false, 0, 0, 0)])
      case Insert(pid, rowId) => InsertRow(s, pid, rowId)
      case Enqueue(pid) =>
        var c := s.scans[pid];
        s.(jobs := s.jobs + multiset{Head(c)}, scans := s.scans[pid := Advance(c).(enqueued := c.enqueued + 1)])
      case NotifyAssignee(pid) =>
        var c := s.scans[pid];
        s.(sent := if c.todo[0].hasAssignee then s.sent + multiset{Head(c)} else s.sent,
           scans := s.scans[pid := c.(phase := Notified)])
      case MarkSent(pid) =>
        var c := s.scans[pid];
        s.(marked := s.marked + {Head(c)}, scans := s.scans[pid := Advance(c).(delivered := c.delivered + 1)])
      case Finish(pid) => End(s, pid)
      case Fail(pid) => End(s, pid)
      case AddTask(x) => s.(live := s.live + {x})
      case RemoveTask(x) =>
        s.(live := s.live - {x}, dead := s.dead + {x},
           rows := map r | r in s.rows && s.rows[r].taskId != x :: s.rows[r])
  }

  ghost function Run(queued: bool, steps: seq<Step>): State
    decreases |steps|
  {
    if steps == [] then INITIAL else Next(queued, Run(queued, steps[..|steps| - 1]), steps[|steps| - 1])
  }

  // ---------------------------------------------------------------------------
  // What every step keeps

  /** At most one row per task, type and due date. */
  ghost predicate UniqueRows(s: State) {
    forall q, r :: q in s.rows && r in s.rows && s.rows[q] == s.rows[r] ==> q == r
  }

  /** `ever` collects the keys that were inserted at some time; a key of a live task still has its row. */
  ghost predicate RowsRemembered(s: State) {
    && s.live !! s.dead
    && (forall r :: r in s.rows ==> s.rows[r] in s.ever && s.rows[r].taskId in s.live)
    && (forall k :: k in s.ever ==> k.taskId in s.live + s.dead)
    && LiveKeysHaveRows(s)
  }

  ghost predicate LiveKeysHaveRows(s: State) {
    forall k :: k in s.ever && k.taskId in s.live ==> HasRow(s, k)
  }

  /**
   A key in the hands of a scan was inserted, is in the hands of no other, and is not sent or queued
   before its step.
   */
  ghost predicate HeldOnce(s: State) {
    && (forall p, k :: p in s.scans && Holds(s.scans[p], k) ==> k in s.ever)
    && (forall p, q, k :: p in s.scans && q in s.scans && Holds(s.scans[p], k) && Holds(s.scans[q], k) ==> p == q)
    && (forall p, k :: p in s.scans && Holds(s.scans[p], k) ==>
      s.jobs[k] == 0 && (s.scans[p].phase == Inserted ==> s.sent[k] == 0))
  }

  ghost predicate SentOnce(s: State) {
    forall k :: s.sent[k] <= 1 && s.jobs[k] <= 1 && (s.sent[k] + s.jobs[k] > 0 ==> k in s.ever)
  }

  ghost predicate RowsFine(s: State) {
    UniqueRows(s) && RowsRemembered(s)
  }

  ghost predicate SameRows(s: State, s': State) {
    s'.rows == s.rows && s'.live == s.live && s'.dead == s.dead && s'.ever == s.ever
  }

  lemma SameRowsFine(s: State, s': State)
    requires RowsFine(s) && SameRows(s, s')
    ensures RowsFine(s')
  {
    forall k | k in s'.ever && k.taskId in s'.live ensures HasRow(s', k) {
      assert HasRow(s, k);
    }
  }

  lemma NewRowFine(s: State, s': State, rowId: Id, k: ReminderKey)
    requires RowsFine(s) && rowId !in s.rows && k.taskId in s.live && !HasRow(s, k)
    requires s'.rows == s.rows[rowId := k] && s'.ever == s.ever + {k} && s'.live == s.live && s'.dead == s.dead
    ensures RowsFine(s')
  {
    forall j | j in s'.ever && j.taskId in s'.live ensures HasRow(s', j) {
      if j == k {
        assert rowId in s'.rows;
      } else {
        var r :| r in s.rows && s.rows[r] == j;
        assert r in s'.rows && s'.rows[r] == j;
      }
    }
  }

  lemma AddTaskFine(queued: bool, s: State, x: Id)
    requires RowsFine(s)
    ensures RowsFine(Next(queued, s, AddTask(x)))
  {
    var s' := Next(queued, s, AddTask(x));
    forall k | k in s'.ever && k.taskId in s'.live ensures HasRow(s', k) {
      assert HasRow(s, k);
    }
  }

  lemma RemoveTaskFine(queued: bool, s: State, x: Id)
    requires RowsFine(s)
    ensures RowsFine(Next(queued, s, RemoveTask(x)))
  {
    var s' := Next(queued, s, RemoveTask(x));
    forall k | k in s'.ever && k.taskId in s'.live ensures HasRow(s', k) {
      var r :| r in s.rows && s.rows[r] == k;
      assert r in s'.rows && s'.rows[r] == k;
    }
  }

  lemma StepKeepsRows(queued: bool, s: State, step: Step)
    requires RowsFine(s)
    ensures RowsFine(Next(queued, s, step))
  {
    var s' := Next(queued, s, step);
    match step
    case AddTask(x) => AddTaskFine(queued, s, x);
    case RemoveTask(x) => RemoveTaskFine(queued, s, x);
    case Insert(pid, rowId) =>
      if Enabled(queued, s, step) && Head(s.scans[pid]).taskId in s.live && !HasRow(s, Head(s.scans[pid])) {
        NewRowFine(s, s', rowId, Head(s.scans[pid]));
      } else {
        SameRowsFine(s, s');
      }
    case _ => SameRowsFine(s, s');
  }

  // The scans in flight

  ghost predicate InFlightFine(s: State) {
    HeldOnce(s) && SentOnce(s)
  }

  /** A scan that newly takes hold of a key nobody ever inserted. */
  lemma TakeFine(s: State, s': State, pid: Id, k: ReminderKey)
    requires InFlightFine(s) && k !in s.ever && pid in s.scans && pid in s'.scans
    requires s'.ever == s.ever + {k} && s'.jobs == s.jobs && s'.sent == s.sent
    requires s'.scans == s.scans[pid := s'.scans[pid]] && Holds(s'.scans[pid], k)
    ensures InFlightFine(s')
  {
    assert s.sent[k] == 0 && s.jobs[k] == 0;
  }

  /** A scan that lets go of what it holds, or ends, or starts. */
  lemma ReleaseFine(s: State, s': State)
    requires InFlightFine(s) && s'.ever == s.ever && s'.jobs == s.jobs && s'.sent == s.sent
    requires forall p :: p in s'.scans && s'.scans[p].phase != Ready ==> p in s.scans && s.scans[p] == s'.scans[p]
    ensures InFlightFine(s')
  {
  }

  lemma EnqueueFine(queued: bool, s: State, pid: Id)
    requires InFlightFine(s)
    ensures InFlightFine(Next(queued, s, Enqueue(pid)))
  {
    if Enabled(queued, s, Enqueue(pid)) {
      var k := Head(s.scans[pid]);
      assert Holds(s.scans[pid], k);
      assert s.jobs[k] == 0;
    }
  }

  lemma NotifyFine(queued: bool, s: State, pid: Id)
    requires InFlightFine(s) && Enabled(queued, s, NotifyAssignee(pid))
    ensures InFlightFine(Next(queued, s, NotifyAssignee(pid)))
  {
    var key, s' := Head(s.scans[pid]), Next(queued, s, NotifyAssignee(pid));
    assert Holds(s.scans[pid], key);
    assert forall p, k :: p in s'.scans && Holds(s'.scans[p], k) ==> p in s.scans && Holds(s.scans[p], k);
    assert forall k :: k != key ==> s'.sent[k] == s.sent[k];
  }

  lemma InsertFine(s: State, pid: Id, rowId: Id)
    requires LiveKeysHaveRows(s) && InFlightFine(s) && At(s, pid, Ready)
    ensures InFlightFine(InsertRow(s, pid, rowId))
  {
    var k, s' := Head(s.scans[pid]), InsertRow(s, pid, rowId);
    if k.taskId in s.live && !HasRow(s, k) {
      assert k !in s.ever;
      TakeFine(s, s', pid, k);
    } else {
      ReleaseFine(s, s');
    }
  }

  lemma StepKeepsInFlight(queued: bool, s: State, step: Step)
    requires LiveKeysHaveRows(s) && InFlightFine(s)
    ensures InFlightFine(Next(queued, s, step))
  {
    var s' := Next(queued, s, step);
    match step
    case Enqueue(pid) => EnqueueFine(queued, s, pid);
    case NotifyAssignee(pid) =>
      if Enabled(queued, s, step) {
        NotifyFine(queued, s, pid);
      }
    case Insert(pid, rowId) =>
      if Enabled(queued, s, step) {
        InsertFine(s, pid, rowId);
      }
    case _ => ReleaseFine(s, s');
  }

  // Tallies and the scheduler's flag

  /** A scan has delivered or enqueued all it created, but for the one it is at. */
  ghost predicate TallyFine(c: Scan) {
    && c.created == c.delivered + c.enqueued + (if c.phase == Ready then 0 else 1)
    && (c.phase != Ready ==> c.todo != [])
  }

  ghost predicate TalliesFine(s: State) {
    forall p :: p in s.scans ==> TallyFine(s.scans[p])
  }

  lemma TallyStep(queued: bool, s: State, step: Step, p: Id)
    requires p in s.scans ==> TallyFine(s.scans[p])
    ensures p in Next(queued, s, step).scans ==> TallyFine(Next(queued, s, step).scans[p])
  {
  }

  lemma StepKeepsTallies(queued: bool, s: State, step: Step)
    requires TalliesFine(s)
    ensures TalliesFine(Next(queued, s, step))
  {
    forall p | p in Next(queued, s, step).scans ensures TallyFine(Next(queued, s, step).scans[p]) {
      TallyStep(queued, s, step, p);
    }
  }

  predicate IsScheduled(s: State, pid: Id) {
    pid in s.scans && s.scans[pid].scheduled
  }

  /** The flag is up exactly while a scheduled scan runs, and there is at most one. */
  ghost predicate SchedulerFine(s: State) {
    && (s.running <==> exists p :: IsScheduled(s, p))
    && (forall p, q :: IsScheduled(s, p) && IsScheduled(s, q) ==> p == q)
  }

  lemma SameScheduled(s: State, s': State)
    requires SchedulerFine(s) && s'.running == s.running && forall p :: IsScheduled(s', p) <==> IsScheduled(s, p)
    ensures SchedulerFine(s')
  {
  }

  lemma EndKeepsScheduler(s: State, pid: Id)
    requires SchedulerFine(s) && pid in s.scans
    ensures SchedulerFine(End(s, pid))
  {
    var s' := End(s, pid);
    assert forall p :: IsScheduled(s', p) <==> IsScheduled(s, p) && p != pid;
    if s'.running {
      var p :| IsScheduled(s, p);
      assert !IsScheduled(s, pid);
      assert IsScheduled(s', p);
    } else if s.running {
      assert IsScheduled(s, pid);
    }
  }

  lemma FireKeepsScheduler(queued: bool, s: State, step: Step)
    requires SchedulerFine(s) && step.Fire? && Enabled(queued, s, step)
    ensures SchedulerFine(Next(queued, s, step))
  {
    var s' := Next(queued, s, step);
    assert IsScheduled(s', step.pid);
    assert forall p :: IsScheduled(s', p) && p != step.pid ==> IsScheduled(s, p);
  }

  lemma StepKeepsScheduler(queued: bool, s: State, step: Step)
    requires SchedulerFine(s)
    ensures SchedulerFine(Next(queued, s, step))
  {
    var s' := Next(queued, s, step);
    if !Enabled(queued, s, step) {
    } else if step.Fire? {
      FireKeepsScheduler(queued, s, step);
    } else if step.Finish? || step.Fail? {
      EndKeepsScheduler(s, step.pid);
    } else if step.Insert? && Head(s.scans[step.pid]).taskId !in s.live {
      EndKeepsScheduler(s, step.pid);
    } else {
      SameScheduled(s, s');
    }
  }

  ghost predicate Fine(s: State) {
    RowsFine(s) && InFlightFine(s) && TalliesFine(s) && SchedulerFine(s)
  }

  /**
   Under every interleaving and with failures at any point: at most one reminder row per task,
   type and due date; over all time at most one in-process notification and at most one job per such
   key; every scan's tallies add up; and the scheduler never has two scans at once.
   */
  lemma {:induction false} RunFine(queued: bool, steps: seq<Step>)
    ensures Fine(Run(queued, steps))
    decreases |steps|
  {
    if steps != [] {
      var s, step := Run(queued, steps[..|steps| - 1]), steps[|steps| - 1];
      RunFine(queued, steps[..|steps| - 1]);
      StepKeepsRows(queued, s, step);
      StepKeepsInFlight(queued, s, step);
      StepKeepsTallies(queued, s, step);
      StepKeepsScheduler(queued, s, step);
    }
  }

  /** A scan that can finish has delivered or enqueued exactly what it created. */
  lemma FinishedTallies(queued: bool, steps: seq<Step>, pid: Id)
    requires Enabled(queued, Run(queued, steps), Finish(pid))
    ensures var c := Run(queued, steps).scans[pid]; c.created == c.delivered + c.enqueued
  {
    RunFine(queued, steps);
  }

  // ---------------------------------------------------------------------------
  // At least once, and when not

  ghost predicate Held(s: State, k: ReminderKey) {
    exists p :: p in s.scans && Holds(s.scans[p], k)
  }

  /** One for a task with an assignee. */
  function Notices(s: State, k: ReminderKey): nat {
    if k in s.assignedKeys then 1 else 0
  }

  /** What a key in hand stands at. */
  ghost predicate HandFine(queued: bool, s: State, c: Scan, k: ReminderKey)
    requires c.todo != []
  {
    && k !in s.failed && k !in s.marked && (c.todo[0].hasAssignee <==> k in s.assignedKeys)
    && s.jobs[k] == 0 && s.sent[k] == (if c.phase == Notified then Notices(s, k) else 0)
    && (c.phase == Notified ==> !queued)
  }

  /**
   What a key that was inserted and is in nobody's hand any more stands at: it went all the way, or up
   to a failure.
   */
  ghost predicate Settled(queued: bool, s: State, k: ReminderKey) {
    if k in s.failed then
      && s.jobs[k] == 0 && k !in s.marked && s.failed[k] != Ready && (s.failed[k] == Notified ==> !queued)
      && s.sent[k] == if s.failed[k] == Notified then Notices(s, k) else 0
    else if queued then s.jobs[k] == 1 && s.sent[k] == 0 && k !in s.marked
    else s.jobs[k] == 0 && s.sent[k] == Notices(s, k) && k in s.marked
  }

  ghost predicate HandsFine(queued: bool, s: State) {
    forall p, k :: p in s.scans && Holds(s.scans[p], k) ==> HandFine(queued, s, s.scans[p], k)
  }

  /** Nothing is on record for a key that was never inserted. */
  ghost predicate Blank(s: State, k: ReminderKey) {
    k !in s.failed && k !in s.marked && k !in s.assignedKeys && s.jobs[k] == 0 && s.sent[k] == 0
  }

  ghost predicate Accounted(queued: bool, s: State) {
    && (forall k :: k !in s.ever ==> Blank(s, k))
    && (forall k :: k in s.ever && !Held(s, k) ==> Settled(queued, s, k))
    && HandsFine(queued, s)
  }

  ghost predicate SameRecord(s: State, s': State, k: ReminderKey) {
    && (k in s'.failed <==> k in s.failed) && (k in s.failed ==> s'.failed[k] == s.failed[k])
    && (k in s'.marked <==> k in s.marked) && (k in s'.assignedKeys <==> k in s.assignedKeys)
    && s'.jobs[k] == s.jobs[k] && s'.sent[k] == s.sent[k]
  }

  ghost predicate SameScans(s: State, s': State, pid: Id) {
    forall p :: p != pid ==> (p in s'.scans <==> p in s.scans) && (p in s.scans ==> s'.scans[p] == s.scans[p])
  }

  /** Scan `pid` has this and only this key in hand. */
  ghost predicate HandOf(s: State, pid: Id, k: ReminderKey) {
    && pid in s.scans && Holds(s.scans[pid], k)
    && forall p :: p in s.scans && Holds(s.scans[p], k) ==> p == pid
  }

  predicate EmptyHand(s: State, pid: Id) {
    pid in s.scans ==> s.scans[pid].phase == Ready || s.scans[pid].todo == []
  }

  lemma OthersHeld(s: State, s': State, pid: Id, k: ReminderKey)
    requires SameScans(s, s', pid)
    requires pid in s.scans ==> !Holds(s.scans[pid], k)
    requires pid in s'.scans ==> !Holds(s'.scans[pid], k)
    ensures Held(s', k) <==> Held(s, k)
  {
    if Held(s, k) {
      var p :| p in s.scans && Holds(s.scans[p], k);
      assert p in s'.scans;
    }
    if Held(s', k) {
      var p :| p in s'.scans && Holds(s'.scans[p], k);
      assert p in s.scans;
    }
  }

  /** A step of a scan on the key it has in hand: it goes on to hold it, or the key is settled. */
  lemma HandStepAccounted(queued: bool, s: State, s': State, pid: Id, key: ReminderKey)
    requires Accounted(queued, s) && HandOf(s, pid, key) && key in s.ever && s'.ever == s.ever && SameScans(s, s', pid)
    requires forall k :: k != key ==> SameRecord(s, s', k)
    requires if EmptyHand(s', pid) then Settled(queued, s', key)
      else Holds(s'.scans[pid], key) && HandFine(queued, s', s'.scans[pid], key)
    ensures Accounted(queued, s')
  {
    forall k | k !in s'.ever ensures Blank(s', k) {
      assert SameRecord(s, s', k);
    }
    forall k | k in s'.ever && !Held(s', k) ensures Settled(queued, s', k) {
      if k != key {
        OthersHeld(s, s', pid, k);
        assert SameRecord(s, s', k);
      }
    }
    forall p, k | p in s'.scans && Holds(s'.scans[p], k) ensures HandFine(queued, s', s'.scans[p], k) {
      if p != pid {
        assert p in s.scans && Holds(s.scans[p], k);
        assert SameRecord(s, s', k);
      }
    }
  }

  /** A step of a scan that has nothing in hand before or after. */
  lemma EmptyStepAccounted(queued: bool, s: State, s': State, pid: Id)
    requires Accounted(queued, s) && EmptyHand(s, pid) && EmptyHand(s', pid) && s'.ever == s.ever &&
      SameScans(s, s', pid)
    requires forall k :: SameRecord(s, s', k)
    ensures Accounted(queued, s')
  {
    forall k | k !in s'.ever ensures Blank(s', k) {
      assert SameRecord(s, s', k);
    }
    forall k | k in s'.ever && !Held(s', k) ensures Settled(queued, s', k) {
      OthersHeld(s, s', pid, k);
      assert SameRecord(s, s', k);
    }
    forall p, k | p in s'.scans && Holds(s'.scans[p], k) ensures HandFine(queued, s', s'.scans[p], k) {
      assert p in s.scans && Holds(s.scans[p], k);
      assert SameRecord(s, s', k);
    }
  }

  /** An insert takes a blank key in hand. */
  lemma TakeAccounted(queued: bool, s: State, s': State, pid: Id, key: ReminderKey)
    requires Accounted(queued, s) && EmptyHand(s, pid) && key !in s.ever && s'.ever == s.ever + {key} &&
      SameScans(s, s', pid)
    requires forall k :: k != key ==> SameRecord(s, s', k)
    requires pid in s'.scans && Holds(s'.scans[pid], key) && HandFine(queued, s', s'.scans[pid], key)
    requires forall p, k :: p in s.scans && Holds(s.scans[p], k) ==> k in s.ever
    ensures Accounted(queued, s')
  {
    forall k | k !in s'.ever ensures Blank(s', k) {
      assert SameRecord(s, s', k);
    }
    forall k | k in s'.ever && !Held(s', k) ensures Settled(queued, s', k) {
      assert k != key;
      OthersHeld(s, s', pid, k);
      assert SameRecord(s, s', k);
    }
    forall p, k | p in s'.scans && Holds(s'.scans[p], k) ensures HandFine(queued, s', s'.scans[p], k) {
      if p != pid {
        assert p in s.scans && Holds(s.scans[p], k);
        assert SameRecord(s, s', k);
      }
    }
  }

  lemma TasksAccounted(queued: bool, s: State, s': State)
    requires Accounted(queued, s) && s' == s.(rows := s'.rows, live := s'.live, dead := s'.dead)
    ensures Accounted(queued, s')
  {
    assert forall k :: Held(s', k) <==> Held(s, k);
  }

  /** A new row is put on record under its key only, with the assignee the scan read. */
  lemma InsertRecord(queued: bool, s: State, pid: Id, rowId: Id)
    requires At(s, pid, Ready) && Blank(s, Head(s.scans[pid]))
    requires Head(s.scans[pid]).taskId in s.live && !HasRow(s, Head(s.scans[pid]))
    ensures var key, s' := Head(s.scans[pid]), InsertRow(s, pid, rowId);
      && s'.ever == s.ever + {key} && SameScans(s, s', pid) && (forall k :: k != key ==> SameRecord(s, s', k))
      && pid in s'.scans && Holds(s'.scans[pid], key) && HandFine(queued, s', s'.scans[pid], key)
  {
  }

  lemma InsertAccounted(queued: bool, s: State, pid: Id, rowId: Id)
    requires Accounted(queued, s) && HeldOnce(s) && LiveKeysHaveRows(s) && At(s, pid, Ready)
    ensures Accounted(queued, InsertRow(s, pid, rowId))
  {
    var key, s' := Head(s.scans[pid]), InsertRow(s, pid, rowId);
    if key.taskId in s.live && !HasRow(s, key) {
      assert key !in s.ever;
      InsertRecord(queued, s, pid, rowId);
      TakeAccounted(queued, s, s', pid, key);
    } else {
      EmptyStepAccounted(queued, s, s', pid);
    }
  }

  lemma EndAccounted(queued: bool, s: State, pid: Id)
    requires Accounted(queued, s) && HeldOnce(s) && pid in s.scans
    ensures Accounted(queued, End(s, pid))
  {
    var c, s' := s.scans[pid], End(s, pid);
    if EmptyHand(s, pid) {
      EmptyStepAccounted(queued, s, s', pid);
    } else {
      assert Holds(c, Head(c));
      assert HandFine(queued, s, c, Head(c));
      HandStepAccounted(queued, s, s', pid, Head(c));
    }
  }

  lemma EnqueueAccounted(queued: bool, s: State, pid: Id)
    requires Accounted(queued, s) && HeldOnce(s) && Enabled(queued, s, Enqueue(pid))
    ensures Accounted(queued, Next(queued, s, Enqueue(pid)))
  {
    var c := s.scans[pid];
    assert Holds(c, Head(c));
    assert HandFine(queued, s, c, Head(c));
    HandStepAccounted(queued, s, Next(queued, s, Enqueue(pid)), pid, Head(c));
  }

  lemma NotifyAccounted(queued: bool, s: State, pid: Id)
    requires Accounted(queued, s) && HeldOnce(s) && Enabled(queued, s, NotifyAssignee(pid))
    ensures Accounted(queued, Next(queued, s, NotifyAssignee(pid)))
  {
    var c := s.scans[pid];
    assert Holds(c, Head(c));
    assert HandFine(queued, s, c, Head(c));
    HandStepAccounted(queued, s, Next(queued, s, NotifyAssignee(pid)), pid, Head(c));
  }

  lemma MarkAccounted(queued: bool, s: State, pid: Id)
    requires Accounted(queued, s) && HeldOnce(s) && Enabled(queued, s, MarkSent(pid))
    ensures Accounted(queued, Next(queued, s, MarkSent(pid)))
  {
    var c := s.scans[pid];
    assert Holds(c, Head(c));
    assert HandFine(queued, s, c, Head(c));
    HandStepAccounted(queued, s, Next(queued, s, MarkSent(pid)), pid, Head(c));
  }

  lemma StepKeepsAccounted(queued: bool, s: State, step: Step)
    requires Accounted(queued, s) && HeldOnce(s) && LiveKeysHaveRows(s)
    ensures Accounted(queued, Next(queued, s, step))
  {
    var s' := Next(queued, s, step);
    if Enabled(queued, s, step) {
      match step
      case Fire(pid, _) => EmptyStepAccounted(queued, s, s', pid);
      case Start(pid, _) => EmptyStepAccounted(queued, s, s', pid);
      case Insert(pid, rowId) => InsertAccounted(queued, s, pid, rowId);
      case Enqueue(pid) => EnqueueAccounted(queued, s, pid);
      case NotifyAssignee(pid) => NotifyAccounted(queued, s, pid);
      case MarkSent(pid) => MarkAccounted(queued, s, pid);
      case Finish(pid) => EndAccounted(queued, s, pid);
      case Fail(pid) => EndAccounted(queued, s, pid);
      case AddTask(_) => TasksAccounted(queued, s, s');
      case RemoveTask(_) => TasksAccounted(queued, s, s');
    }
  }

  lemma {:induction false} RunAccounted(queued: bool, steps: seq<Step>)
    ensures Accounted(queued, Run(queued, steps))
    decreases |steps|
  {
    if steps != [] {
      var s := Run(queued, steps[..|steps| - 1]);
      RunAccounted(queued, steps[..|steps| - 1]);
      RunFine(queued, steps[..|steps| - 1]);
      StepKeepsAccounted(queued, s, steps[|steps| - 1]);
    }
  }

  /** The step is a failure of a scan that has the key in hand, in the given phase. */
  ghost predicate FailsWith(s: State, step: Step, k: ReminderKey, phase: Phase) {
    step.Fail? && step.pid in s.scans && Holds(s.scans[step.pid], k) && s.scans[step.pid].phase == phase
  }

  /** Some step of the run is such a failure. */
  ghost predicate FailedWith(queued: bool, steps: seq<Step>, k: ReminderKey, phase: Phase)
    decreases |steps|
  {
    steps != [] &&
    var init := steps[..|steps| - 1];
    FailedWith(queued, init, k, phase) || FailsWith(Run(queued, init), steps[|steps| - 1], k, phase)
  }

  lemma {:induction false} FailedAt(queued: bool, steps: seq<Step>, n: nat, k: ReminderKey, phase: Phase)
    requires n < |steps| && FailsWith(Run(queued, steps[..n]), steps[n], k, phase)
    ensures FailedWith(queued, steps, k, phase)
    decreases |steps|
  {
    if n < |steps| - 1 {
      var init := steps[..|steps| - 1];
      assert init[..n] == steps[..n] && init[n] == steps[n];
      FailedAt(queued, init, n, k, phase);
    }
  }

  /** What a step puts on record as failed; nothing is ever taken off or overwritten. */
  lemma StepFails(queued: bool, s: State, step: Step, k: ReminderKey)
    requires HandsFine(queued, s) && TalliesFine(s)
    ensures var failed := Next(queued, s, step).failed;
      if k in s.failed then k in failed && failed[k] == s.failed[k] && forall phase :: !FailsWith(s, step, k, phase)
      else forall phase :: k in failed && failed[k] == phase <==> FailsWith(s, step, k, phase)
  {
    if step.Fail? && step.pid in s.scans && s.scans[step.pid].phase != Ready {
      var c := s.scans[step.pid];
      assert TallyFine(c);
      assert Holds(c, Head(c));
      assert HandFine(queued, s, c, Head(c));
    }
  }

  /** The record says exactly which keys were in the hands of a scan that failed, and where. */
  lemma {:induction false} FailedIff(queued: bool, steps: seq<Step>, k: ReminderKey, phase: Phase)
    ensures var failed := Run(queued, steps).failed;
      k in failed && failed[k] == phase <==> FailedWith(queued, steps, k, phase)
    decreases |steps|
  {
    if steps != [] {
      var init := steps[..|steps| - 1];
      FailedIff(queued, init, k, phase);
      RunAccounted(queued, init);
      RunFine(queued, init);
      StepFails(queued, Run(queued, init), steps[|steps| - 1], k);
    }
  }

  /**
   When a reminder is delivered. Of a key that was inserted and is in no scan's hand any more:
   with a queue it has its one job, and in-process its one notification if the task had an
   assignee, if and only if no scan failed right after inserting it; and in-process it was marked
   sent if and only if no scan failed with it in hand at all.
   */
  lemma DeliveredIff(queued: bool, steps: seq<Step>, k: ReminderKey)
    requires k in Run(queued, steps).ever && !Held(Run(queued, steps), k)
    ensures var s := Run(queued, steps);
      && (queued ==> (s.jobs[k] == 1 <==> !FailedWith(queued, steps, k, Inserted)))
      && (!queued && k in s.assignedKeys ==> (s.sent[k] == 1 <==> !FailedWith(queued, steps, k, Inserted)))
      && (!queued ==> (k in s.marked <==>
            !FailedWith(queued, steps, k, Inserted) && !FailedWith(queued, steps, k, Notified)))
      && s.jobs[k] <= 1 && s.sent[k] <= 1 && (queued || k !in s.assignedKeys ==> s.sent[k] == 0)
  {
    var s := Run(queued, steps);
    RunAccounted(queued, steps);
    FailedIff(queued, steps, k, Inserted);
    FailedIff(queued, steps, k, Notified);
    assert Settled(queued, s, k);
  }

  /** The key was inserted, its scan failed right after that, and nothing was sent or queued for it. */
  ghost predicate Abandoned(s: State, k: ReminderKey) {
    && k in s.ever && k in s.failed && s.failed[k] == Inserted
    && s.sent[k] == 0 && s.jobs[k] == 0 && !Held(s, k)
  }

  /**
   No later scan makes up for such a failure: after any further steps nothing was sent or queued, and
   no scan has the key.
   */
  lemma AbandonedForever(queued: bool, steps: seq<Step>, n: nat, k: ReminderKey)
    requires n < |steps| && FailsWith(Run(queued, steps[..n]), steps[n], k, Inserted)
    ensures Abandoned(Run(queued, steps), k)
  {
    var s := Run(queued, steps);
    FailedAt(queued, steps, n, k, Inserted);
    FailedIff(queued, steps, k, Inserted);
    RunAccounted(queued, steps);
    assert k !in s.ever ==> Blank(s, k);
    assert Settled(queued, s, k);
  }
}
