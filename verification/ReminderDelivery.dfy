/**
 Delivery of one queued reminder: up to five attempts by the worker, and the failure mark.

 What the attempts will meet is given in advance: when the row is deleted, if ever, the assignee of
 the task at each attempt, and where an attempt fails, if it does.
 */
module ReminderDelivery {
  import opened Forest
  import opened Reminders

  const MAX_ATTEMPTS: nat := 5

  /**
   Where an attempt fails: reading the row, before the notification is stored, after that but
   before the status update takes effect, or after the update has been committed.
   */
  datatype Fault = NoFault | AtRead | BeforeNotify | AfterNotify | AfterUpdate

  /** `assignee` is `None` also when the task is gone. */
  datatype Attempt = Attempt(assignee: Option<Id>, fault: Fault)

  /**
   What a job will meet. The row is deleted after `goneAfter` attempts, if the job gets that far:
   `Gone(i)` says that it is missing at attempt `i`, counted from 0, and `Gone(|attempts|)` at the mark.
   */
  datatype Plan = Plan(attempts: seq<Attempt>, goneAfter: nat, markFails: bool) {
    predicate Gone(i: nat) {
      goneAfter <= i
    }
  }

  /** The reminder row, if it still exists, and the notifications sent for it. */
  datatype Job = Job(row: Option<Reminder>, sent: seq<Notice>) {
    predicate Has(status: ReminderStatus) {
      row.Some? && row.value.status == status
    }
  }

  /** The row unless it was deleted meanwhile. */
  function Remaining(row: Option<Reminder>, gone: bool): Option<Reminder> {
    if gone then None else row
  }

  /** The notification of the row's type about its task, if there is somebody to notify. */
  function NoticeTo(assignee: Option<Id>, key: ReminderKey): seq<Notice> {
    if assignee.Some? then [Notice(assignee.value, key.kind, key.taskId)] else []
  }

  function Updated(row: Reminder): Reminder {
    row.(status := SENT, attempts := row.attempts + 1)
  }

  /** One call of `deliverReminder`; the flag says whether it returned normally. */
  function Deliver(j: Job, gone: bool, a: Attempt): (Job, bool) {
    var row := Remaining(j.row, gone);
    if a.fault == AtRead then (Job(row, j.sent), false)
    else if row.None? || row.value.status == SENT then (Job(row, j.sent), true)
    else if a.fault == BeforeNotify then (Job(row, j.sent), false)
    else
      var sent := j.sent + NoticeTo(a.assignee, row.value.key);
      if a.fault == AfterNotify then (Job(row, sent), false)
      else (Job(Some(Updated(row.value)), sent), a.fault == NoFault)
  }

  /** `markFailed` updates the row whatever its status; the update may itself fail. */
  function MarkFailed(j: Job, attempts: nat, gone: bool, markFails: bool): Job {
    var row := Remaining(j.row, gone);
    Job(if markFails || row.None? then row else Some(row.value.(status := FAILED, attempts := attempts)), j.sent)
  }

  /**
   The states of the job after each of the attempts from `made` on: it ends with the first that
   succeeds; when none is left there is one more state, after the failure mark.
   */
  function Work(j: Job, plan: Plan, made: nat): (states: seq<Job>)
    requires made < |plan.attempts|
    ensures 0 < |states| <= |plan.attempts| - made + 1
    decreases |plan.attempts| - made
  {
    var n := |plan.attempts|;
    var (next, ok) := Deliver(j, plan.Gone(made), plan.attempts[made]);
    if ok then [next]
    else if made + 1 == n then [next, MarkFailed(next, n, plan.Gone(n), plan.markFails)]
    else [next] + Work(next, plan, made + 1)
  }

  /** How the job ends. */
  function Outcome(j: Job, plan: Plan): Job
    requires plan.attempts != []
  {
    var states := Work(j, plan, 0);
    states[|states| - 1]
  }

  // ---------------------------------------------------------------------------
  // What the attempts amount to

  /** Attempt `i`, if it is made on an unsent row, commits the status update and fails all the same. */
  predicate Commits(plan: Plan, i: nat)
    requires i < |plan.attempts|
  {
    !plan.Gone(i) && plan.attempts[i].fault == AfterUpdate
  }

  /**
   Attempt `i` of those from `made` on fails: at the read in any case, later only on a row that is
   there and unsent, neither `done` at first nor updated by an attempt before.
   */
  predicate Fails(plan: Plan, done: bool, made: nat, i: nat)
    requires made <= i < |plan.attempts|
  {
    || plan.attempts[i].fault == AtRead
    || (!plan.Gone(i) && plan.attempts[i].fault != NoFault && !done && forall k :: made <= k < i ==> !Commits(plan, k))
  }

  /** Attempt `i`, if it is made on an unsent row, stores a notification. */
  predicate Sends(plan: Plan, i: nat)
    requires i < |plan.attempts|
  {
    !plan.Gone(i) && plan.attempts[i].fault in {AfterNotify, AfterUpdate, NoFault} && plan.attempts[i].assignee.Some?
  }

  /** What attempt `i`, if it is made on an unsent row, sends. */
  function SentAt(key: ReminderKey, plan: Plan, i: nat): seq<Notice>
    requires i < |plan.attempts|
  {
    if Sends(plan, i) then [Notice(plan.attempts[i].assignee.value, key.kind, key.taskId)] else []
  }

  function SentBy(key: ReminderKey, plan: Plan, lo: nat, hi: nat): seq<Notice>
    requires lo <= hi <= |plan.attempts|
    decreases hi - lo
  {
    if lo == hi then [] else SentAt(key, plan, lo) + SentBy(key, plan, lo + 1, hi)
  }

  lemma FailsFrom(plan: Plan, done: bool, made: nat)
    requires made < |plan.attempts|
    ensures forall i :: made < i < |plan.attempts| ==>
      (Fails(plan, done, made, i) <==> Fails(plan, done || Commits(plan, made), made + 1, i))
  {
    forall i | made < i < |plan.attempts|
      ensures Fails(plan, done, made, i) <==> Fails(plan, done || Commits(plan, made), made + 1, i)
    {
      assert (forall k :: made <= k < i ==> !Commits(plan, k)) <==>
        !Commits(plan, made) && forall k :: made + 1 <= k < i ==> !Commits(plan, k);
    }
  }

  /** The first attempt from `made` on that does not fail, or the end of the plan. */
  function FirstSuccess(plan: Plan, done: bool, made: nat): (n: nat)
    requires made <= |plan.attempts|
    ensures made <= n <= |plan.attempts|
    ensures forall i :: made <= i < n ==> Fails(plan, done, made, i)
    ensures n < |plan.attempts| ==> !Fails(plan, done, made, n)
    decreases |plan.attempts| - made
  {
    if made == |plan.attempts| || !Fails(plan, done, made, made) then made
    else
      FailsFrom(plan, done, made);
      FirstSuccess(plan, done || Commits(plan, made), made + 1)
  }

  /** The first attempt of `made..n` that commits, or `n`: the one that makes the update, if one does. */
  function Updater(plan: Plan, made: nat, n: nat): (m: nat)
    requires made <= n <= |plan.attempts|
    ensures made <= m <= n
    ensures forall i :: made <= i < m ==> !Commits(plan, i)
    ensures m < n ==> Commits(plan, m)
    decreases n - made
  {
    if made == n || Commits(plan, made) then made else Updater(plan, made + 1, n)
  }

  /** The row with which a job on `row` ends, `n` being its first attempt that does not fail and `m` its updater. */
  function FinalRow(row: Reminder, plan: Plan, m: nat, n: nat): Option<Reminder> {
    var left := if row.status == SENT || m >= |plan.attempts| then row else Updated(row);
    if plan.Gone(n) then None
    else if n >= |plan.attempts| && !plan.markFails then Some(left.(status := FAILED, attempts := n))
    else Some(left)
  }

  /** The number of attempts up to and with attempt `n`, or all. */
  function Used(plan: Plan, n: nat): nat {
    if n < |plan.attempts| then n + 1 else n
  }

  lemma {:induction false} NothingFromGone(key: ReminderKey, plan: Plan, lo: nat, hi: nat)
    requires lo <= hi <= |plan.attempts| && plan.Gone(lo)
    ensures SentBy(key, plan, lo, hi) == []
    decreases hi - lo
  {
    if lo < hi {
      NothingFromGone(key, plan, lo + 1, hi);
    }
  }

  /** Once the row is gone nothing is sent and no row comes back. */
  lemma {:induction false} WorkGone(j: Job, plan: Plan, made: nat)
    requires made < |plan.attempts| && plan.Gone(made)
    ensures var states := Work(j, plan, made); states[|states| - 1] == Job(None, j.sent)
    ensures |Work(j, plan, made)| == FirstSuccess(plan, false, made) - made + 1
    ensures FirstSuccess(plan, true, made) == FirstSuccess(plan, false, made)
    decreases |plan.attempts| - made
  {
    var (next, ok) := Deliver(j, plan.Gone(made), plan.attempts[made]);
    if !ok && made + 1 < |plan.attempts| {
      WorkGone(next, plan, made + 1);
    } else if !ok {
      assert FirstSuccess(plan, true, made + 1) == FirstSuccess(plan, false, made + 1) == made + 1;
    }
  }

  /** What the attempts from `made` up to `m` send for the row, unless it was sent before. */
  ghost function SentUntil(j: Job, plan: Plan, made: nat, m: nat): seq<Notice>
    requires made <= m <= |plan.attempts| && j.row.Some?
  {
    if j.Has(SENT) then [] else SentBy(j.row.value.key, plan, made, Used(plan, m))
  }

  /**
   `states` has one state for each attempt up to `n`, the first that does not fail, and one more for
   the mark, and ends with `FinalRow`, `m` being the attempt that updates the row; unless the row was
   sent before, there is one notification for each attempt up to `m` that gets as far as notifying
   an assignee, failed or not.
   */
  ghost predicate IsOutcome(j: Job, plan: Plan, made: nat, states: seq<Job>)
    requires made < |plan.attempts| && j.row.Some?
  {
    var n := FirstSuccess(plan, j.Has(SENT), made);
    var m := Updater(plan, made, n);
    && |states| == n - made + 1
    && states[|states| - 1].row == FinalRow(j.row.value, plan, m, n)
    && states[|states| - 1].sent == j.sent + SentUntil(j, plan, made, m)
  }

  /** Exact outcome of a job, for every pattern of failures and deletions and whatever the status of its row. */
  lemma {:induction false} WorkExact(j: Job, plan: Plan, made: nat)
    requires made < |plan.attempts| && j.row.Some?
    ensures IsOutcome(j, plan, made, Work(j, plan, made))
    decreases |plan.attempts| - made
  {
    if plan.Gone(made) {
      WorkGone(j, plan, made);
      var n := FirstSuccess(plan, j.Has(SENT), made);
      NothingFromGone(j.row.value.key, plan, made, Used(plan, Updater(plan, made, n)));
    } else {
      WorkStep(j, plan, made);
      var (next, ok) := Deliver(j, false, plan.attempts[made]);
      if !ok && made + 1 < |plan.attempts| {
        WorkExact(next, plan, made + 1);
        WorkContinues(j, next, plan, made, Work(next, plan, made + 1));
      } else {
        WorkEnds(j, plan, made);
      }
    }
  }

  lemma WorkEnds(j: Job, plan: Plan, made: nat)
    requires made < |plan.attempts| && j.row.Some? && !plan.Gone(made)
    requires !Fails(plan, j.Has(SENT), made, made) || made + 1 == |plan.attempts|
    ensures IsOutcome(j, plan, made, Work(j, plan, made))
  {
    WorkStep(j, plan, made);
    assert SentBy(j.row.value.key, plan, made + 1, made + 1) == [];
    assert FirstSuccess(plan, j.Has(SENT), made) == if Fails(plan, j.Has(SENT), made, made) then made + 1 else made;
  }

  lemma WorkContinues(j: Job, next: Job, plan: Plan, made: nat, states: seq<Job>)
    requires made + 1 < |plan.attempts| && j.row.Some? && Fails(plan, j.Has(SENT), made, made)
    requires next.row == Some(if !j.Has(SENT) && Commits(plan, made) then Updated(j.row.value) else j.row.value)
    requires next.sent == j.sent + if j.Has(SENT) then [] else SentAt(j.row.value.key, plan, made)
    requires IsOutcome(next, plan, made + 1, states)
    ensures IsOutcome(j, plan, made, [next] + states)
  {
    var n := FirstSuccess(plan, j.Has(SENT), made);
    assert n == FirstSuccess(plan, next.Has(SENT), made + 1);
    RowContinues(j.row.value, next.row.value, plan, made, n);
    SentContinues(j, next, plan, made, n);
    assert ([next] + states)[|states|] == states[|states| - 1];
  }

  lemma SentContinues(j: Job, next: Job, plan: Plan, made: nat, n: nat)
    requires made < n <= |plan.attempts| && made + 1 < |plan.attempts| && j.row.Some?
    requires next.row == Some(if !j.Has(SENT) && Commits(plan, made) then Updated(j.row.value) else j.row.value)
    requires next.sent == j.sent + if j.Has(SENT) then [] else SentAt(j.row.value.key, plan, made)
    ensures next.sent + SentUntil(next, plan, made + 1, Updater(plan, made + 1, n)) ==
      j.sent + SentUntil(j, plan, made, Updater(plan, made, n))
  {
    if !j.Has(SENT) {
      var here := SentAt(j.row.value.key, plan, made);
      var later := SentBy(j.row.value.key, plan, made + 1, Used(plan, Updater(plan, made + 1, n)));
      assert (j.sent + here) + later == j.sent + (here + later);
      if Commits(plan, made) {
        assert SentBy(j.row.value.key, plan, made + 1, made + 1) == [];
        assert here + [] == here;
      }
    }
  }

  /** What one attempt on a row that is there does, and whether it fails. */
  lemma WorkStep(j: Job, plan: Plan, made: nat)
    requires made < |plan.attempts| && j.row.Some? && !plan.Gone(made)
    ensures var (next, ok) := Deliver(j, false, plan.attempts[made]);
      && (ok <==> !Fails(plan, j.Has(SENT), made, made)) && next.row.Some?
      && next.row.value == (if !j.Has(SENT) && (ok || Commits(plan, made)) then Updated(j.row.value) else j.row.value)
      && next.sent == j.sent + (if j.Has(SENT) then [] else SentAt(j.row.value.key, plan, made))
      && (next.Has(SENT) <==> j.Has(SENT) || ok || Commits(plan, made))
  {
  }

  /** An attempt that fails and the ones after it together. */
  lemma RowContinues(row: Reminder, next: Reminder, plan: Plan, made: nat, n: nat)
    requires made < n <= |plan.attempts| && made + 1 < |plan.attempts|
    requires next == if row.status != SENT && Commits(plan, made) then Updated(row) else row
    ensures FinalRow(row, plan, Updater(plan, made, n), n) == FinalRow(next, plan, Updater(plan, made + 1, n), n)
  {
  }

  /** Attempts of the plan send at most one notice each, to their assignees, of the task and type of the row. */
  lemma {:induction false} SentBounded(key: ReminderKey, plan: Plan, lo: nat, hi: nat)
    requires lo <= hi <= |plan.attempts|
    ensures |SentBy(key, plan, lo, hi)| <= hi - lo
    ensures SentBy(key, plan, lo, hi) == [] <==> (forall i :: lo <= i < hi ==> !Sends(plan, i))
    ensures forall n :: n in SentBy(key, plan, lo, hi) ==>
      n.kind == key.kind && n.taskId == key.taskId && exists i :: lo <= i < hi && NamesAssignee(plan, i, n)
    decreases hi - lo
  {
    if lo < hi {
      SentBounded(key, plan, lo + 1, hi);
      forall n | n in SentBy(key, plan, lo, hi) ensures exists i :: lo <= i < hi && NamesAssignee(plan, i, n) {
        if n in SentAt(key, plan, lo) {
          assert NamesAssignee(plan, lo, n);
        }
      }
    }
  }

  predicate NamesAssignee(plan: Plan, i: nat, n: Notice)
    requires i < |plan.attempts|
  {
    plan.attempts[i].assignee == Some(n.recipient)
  }

  lemma {:induction false} SentSplit(key: ReminderKey, plan: Plan, lo: nat, hi: nat)
    requires lo <= hi < |plan.attempts|
    ensures SentBy(key, plan, lo, hi + 1) == SentBy(key, plan, lo, hi) + SentAt(key, plan, hi)
    decreases hi - lo
  {
    if lo < hi {
      SentSplit(key, plan, lo + 1, hi);
    } else {
      assert SentBy(key, plan, hi + 1, hi + 1) == [];
    }
  }

  /**
   A queued reminder that is not deleted ends SENT, FAILED, or (only when the failure mark fails
   as well) still PENDING, within five attempts and with at most five notifications; it ends FAILED
   exactly if all five attempts fail and the mark does not.
   */
  lemma FiveAttempts(row: Reminder, plan: Plan)
    requires |plan.attempts| == MAX_ATTEMPTS && row.status == PENDING
    ensures var end := Outcome(Job(Some(row), []), plan);
      && Used(plan, FirstSuccess(plan, false, 0)) <= 5 && |end.sent| <= 5
      && (end.Has(PENDING) ==> plan.markFails)
      && (end.Has(FAILED) <==>
            && !plan.markFails && !plan.Gone(MAX_ATTEMPTS)
            && forall i :: 0 <= i < MAX_ATTEMPTS ==> Fails(plan, false, 0, i))
      && (end.row.None? <==> plan.Gone(FirstSuccess(plan, false, 0)))
  {
    var n := FirstSuccess(plan, false, 0);
    WorkExact(Job(Some(row), []), plan, 0);
    SentBounded(row.key, plan, 0, Used(plan, Updater(plan, 0, n)));
  }

  /** What is stored and sent: the row counts its attempts, and all notices are of its task and type, to assignees. */
  lemma WhatIsLeft(row: Reminder, plan: Plan)
    requires |plan.attempts| == MAX_ATTEMPTS && row.status == PENDING
    ensures var end := Outcome(Job(Some(row), []), plan);
      && (end.row.Some? ==> end.row.value.key == row.key)
      && (end.Has(SENT) ==> end.row.value.attempts == row.attempts + 1)
      && (end.Has(FAILED) ==> end.row.value.attempts == 5)
      && (end.Has(PENDING) ==> end.row.value == row)
      && forall n :: n in end.sent ==>
           n.kind == row.key.kind && n.taskId == row.key.taskId && exists i :: 0 <= i < 5 && NamesAssignee(plan, i, n)
  {
    var n := FirstSuccess(plan, false, 0);
    WorkExact(Job(Some(row), []), plan, 0);
    SentBounded(row.key, plan, 0, Used(plan, Updater(plan, 0, n)));
  }

  /**
   A reminder that ends SENT, the update being made by an attempt with an assignee, was notified
   exactly once, to that assignee, if and only if no attempt before that one notified and then failed.
   */
  lemma ExactlyOnceIff(row: Reminder, plan: Plan)
    requires |plan.attempts| == MAX_ATTEMPTS && row.status == PENDING
    ensures var end, m := Outcome(Job(Some(row), []), plan), Updater(plan, 0, FirstSuccess(plan, false, 0));
      end.Has(SENT) ==>
        && m < MAX_ATTEMPTS
        && (plan.attempts[m].assignee.Some? ==>
              && (|end.sent| == 1 <==> forall i :: 0 <= i < m ==> !Sends(plan, i))
              && end.sent != []
              && end.sent[|end.sent| - 1] == Notice(plan.attempts[m].assignee.value, row.key.kind, row.key.taskId))
  {
    var n := FirstSuccess(plan, false, 0);
    var m := Updater(plan, 0, n);
    WorkExact(Job(Some(row), []), plan, 0);
    if m < MAX_ATTEMPTS {
      SentSplit(row.key, plan, 0, m);
      SentBounded(row.key, plan, 0, m);
    }
  }

  // ---------------------------------------------------------------------------
  // When FAILED overwrites SENT

  /** Some state of the job before its last has the row SENT. */
  ghost predicate WasSent(states: seq<Job>) {
    exists i :: 0 <= i < |states| - 1 && states[i].Has(SENT)
  }

  lemma WasSentTail(first: Job, rest: seq<Job>)
    requires rest != [] && !first.Has(SENT)
    ensures WasSent([first] + rest) <==> WasSent(rest)
  {
    var states := [first] + rest;
    if WasSent(rest) {
      var i :| 0 <= i < |rest| - 1 && rest[i].Has(SENT);
      assert states[i + 1].Has(SENT);
    }
    if WasSent(states) {
      var i :| 0 <= i < |states| - 1 && states[i].Has(SENT);
      assert rest[i - 1].Has(SENT);
    }
  }

  /** A job that finds its row unsent goes on after SENT exactly if an attempt fails after its update. */
  lemma {:induction false} WasSentIff(j: Job, plan: Plan, made: nat)
    requires made < |plan.attempts| && j.row.Some? && !j.Has(SENT)
    ensures var n := FirstSuccess(plan, false, made); WasSent(Work(j, plan, made)) <==> Updater(plan, made, n) < n
    decreases |plan.attempts| - made
  {
    var states := Work(j, plan, made);
    if plan.Gone(made) {
      NeverSentWhenGone(j, plan, made);
      assert forall i :: made <= i < |plan.attempts| ==> !Commits(plan, i);
    } else {
      WorkStep(j, plan, made);
      var (next, ok) := Deliver(j, false, plan.attempts[made]);
      if !ok && Commits(plan, made) {
        assert states[0].Has(SENT) && |states| > 1;
      } else if !ok && made + 1 < |plan.attempts| {
        WasSentIff(next, plan, made + 1);
        WasSentTail(next, Work(next, plan, made + 1));
      }
    }
  }

  lemma {:induction false} NeverSentWhenGone(j: Job, plan: Plan, made: nat)
    requires made < |plan.attempts| && plan.Gone(made)
    ensures !WasSent(Work(j, plan, made))
    decreases |plan.attempts| - made
  {
    var (next, ok) := Deliver(j, true, plan.attempts[made]);
    if !ok && made + 1 < |plan.attempts| {
      NeverSentWhenGone(next, plan, made + 1);
      WasSentTail(next, Work(next, plan, made + 1));
    }
  }

  /**
   An attempt fails after committing its update, those before fail without, and those after it all fail
   at the read.
   */
  ghost predicate OverwrittenAfter(plan: Plan, m: nat) {
    && m < |plan.attempts| && plan.attempts[m].fault == AfterUpdate
    && (forall i :: 0 <= i < m ==> plan.attempts[i].fault !in {NoFault, AfterUpdate})
    && (forall i :: m < i < |plan.attempts| ==> plan.attempts[i].fault == AtRead)
  }

  /**
   A job that finds its row unsent overwrites SENT with FAILED exactly if an attempt fails after
   committing its update and all that follow fail at the read, the row stays and the mark does not fail.
   */
  lemma OverwritesSentIff(row: Reminder, sent: seq<Notice>, plan: Plan)
    requires plan.attempts != [] && row.status != SENT
    ensures var j := Job(Some(row), sent);
      WasSent(Work(j, plan, 0)) && Outcome(j, plan).Has(FAILED) <==>
        !plan.markFails && !plan.Gone(|plan.attempts|) && exists m :: OverwrittenAfter(plan, m)
  {
    var j, n := Job(Some(row), sent), FirstSuccess(plan, false, 0);
    var m := Updater(plan, 0, n);
    WorkExact(j, plan, 0);
    WasSentIff(j, plan, 0);
    if n == |plan.attempts| && m < n && !plan.Gone(n) {
      AllFailed(plan, m);
    }
    if !plan.Gone(|plan.attempts|) && exists k :: OverwrittenAfter(plan, k) {
      var k :| OverwrittenAfter(plan, k);
      OverwrittenFails(plan, k);
    }
  }

  lemma AllFailed(plan: Plan, m: nat)
    requires m < |plan.attempts| == FirstSuccess(plan, false, 0) && m == Updater(plan, 0, |plan.attempts|)
    requires !plan.Gone(|plan.attempts|)
    ensures OverwrittenAfter(plan, m)
  {
    forall i | 0 <= i < m ensures plan.attempts[i].fault !in {NoFault, AfterUpdate} {
      assert Fails(plan, false, 0, i) && !Commits(plan, i);
    }
    forall i | m < i < |plan.attempts| ensures plan.attempts[i].fault == AtRead {
      assert Fails(plan, false, 0, i) && Commits(plan, m);
    }
  }

  lemma OverwrittenFails(plan: Plan, m: nat)
    requires OverwrittenAfter(plan, m) && !plan.Gone(|plan.attempts|)
    ensures FirstSuccess(plan, false, 0) == |plan.attempts| && Updater(plan, 0, |plan.attempts|) == m
  {
    assert Commits(plan, m);
    assert forall i :: 0 <= i < |plan.attempts| ==> Fails(plan, false, 0, i);
  }

  /**
   A job on a row that is SENT already notifies nobody, but it too can overwrite the status: the row
   ends FAILED exactly if it is still there, every attempt fails at the read and the mark does not fail.
   */
  lemma SentOverwrittenIff(j: Job, plan: Plan)
    requires plan.attempts != [] && j.Has(SENT)
    ensures var end := Outcome(j, plan);
      && end.sent == j.sent
      && (end.Has(FAILED) <==>
            && !plan.markFails && !plan.Gone(|plan.attempts|)
            && forall i :: 0 <= i < |plan.attempts| ==> plan.attempts[i].fault == AtRead)
      && (end.Has(FAILED) || end.row == j.row || end.row.None?)
  {
    WorkExact(j, plan, 0);
    assert forall i :: 0 <= i < |plan.attempts| ==> (Fails(plan, true, 0, i) <==> plan.attempts[i].fault == AtRead);
  }

  /** One attempt that delivers but loses its answer, and then four failing reads. */
  const LOST_ANSWER: Plan :=
    Plan([Attempt(None, AfterUpdate), Attempt(None, AtRead), Attempt(None, AtRead), Attempt(None, AtRead),
      Attempt(None, AtRead)],
         MAX_ATTEMPTS + 1, false)

  lemma SentCanBeOverwritten(row: Reminder)
    requires row.status == PENDING
    ensures var j := Job(Some(row), []); WasSent(Work(j, LOST_ANSWER, 0)) && Outcome(j, LOST_ANSWER).Has(FAILED)
  {
    assert OverwrittenAfter(LOST_ANSWER, 0);
    OverwritesSentIff(row, [], LOST_ANSWER);
  }

  // ---------------------------------------------------------------------------
  // The worker

  ghost predicate EndsAs(states: seq<Job>, end: Job, size: int) {
    |states| == size && size > 0 && states[size - 1] == end
  }

  /** What is left of the states after one attempt. */
  lemma WorkUnfold(j: Job, plan: Plan, made: nat, next: Job, ok: bool, end: Job, size: int)
    requires made < |plan.attempts| && (next, ok) == Deliver(j, plan.Gone(made), plan.attempts[made])
    requires EndsAs(Work(j, plan, made), end, size)
    ensures ok ==> next == end && size == 1
    ensures !ok && made + 1 < |plan.attempts| ==> EndsAs(Work(next, plan, made + 1), end, size - 1)
    ensures !ok && made + 1 == |plan.attempts| ==>
      && MarkFailed(next, made + 1, plan.Gone(made + 1), plan.markFails) == end
      && size == 2
  {
  }

  class ReminderProcessor {
    var row: Option<Reminder>
    var sent: seq<Notice>

    ghost function Contents(): Job
      reads this
    {
      Job(row, sent)
    }

    constructor (row: Reminder)
      ensures Contents() == Job(Some(row), [])
    {
      this.row, sent := Some(row), [];
    }

    /** The deletion of the row by someone else. */
    method Vanish(gone: bool)
      modifies this`row
      ensures row == Remaining(old(row), gone)
    {
      if gone {
        row := None;
      }
    }

    /**
     Returns normally only with the row SENT or gone; otherwise the row is as it was, unless the
     failure came after the update. A SENT row is never notified again.
     */
    method DeliverReminder(gone: bool, a: Attempt) returns (ok: bool)
      modifies this
      ensures (Contents(), ok) == Deliver(old(Contents()), gone, a)
      ensures ok ==> row.None? || row.value.status == SENT
      ensures !ok ==> a.fault != NoFault && (row == Remaining(old(row), gone) || a.fault == AfterUpdate)
      ensures ok && !gone && old(row).Some? && old(row).value.status != SENT ==>
        && row == Some(old(row).value.(status := SENT, attempts := old(row).value.attempts + 1))
        && (a.assignee.Some? ==>
              sent == old(sent) + [Notice(a.assignee.value, old(row).value.key.kind, old(row).value.key.taskId)])
      ensures sent == old(sent) || (a.assignee.Some? && !gone && old(row).Some? && old(row).value.status != SENT
        && sent == old(sent) + [Notice(a.assignee.value, old(row).value.key.kind, old(row).value.key.taskId)])
    {
      Vanish(gone);
      if a.fault == AtRead {
        return false;
      }
      if row.None? || row.value.status == SENT {
        return true;
      }
      if a.fault == BeforeNotify {
        return false;
      }
      assert old(sent) + [] == old(sent);
      if a.assignee.Some? {
        sent := sent + [Notice(a.assignee.value, row.value.key.kind, row.value.key.taskId)];
      }
      if a.fault == AfterNotify {
        return false;
      }
      row := Some(Updated(row.value));
      return a.fault == NoFault;
    }

    /** The handler of the worker's `failed` event. */
    method OnFailed(attemptsMade: nat, maxAttempts: nat, gone: bool, markFails: bool)
      modifies this
      ensures Contents() ==
        if attemptsMade >= maxAttempts then MarkFailed(old(Contents()), attemptsMade, gone, markFails)
        else old(Contents())
    {
      if attemptsMade >= maxAttempts {
        Vanish(gone);
        if !markFails && row.Some? {
          row := Some(row.value.(status := FAILED, attempts := attemptsMade));
        }
      }
    }

    /** The queue's loop over the attempts of one job. */
    method Process(plan: Plan) returns (used: nat)
      requires |plan.attempts| == MAX_ATTEMPTS
      modifies this
      ensures Contents() == Outcome(old(Contents()), plan)
      ensures old(row).Some? ==> used == Used(plan, FirstSuccess(plan, old(Contents()).Has(SENT), 0)) <= MAX_ATTEMPTS
      ensures old(row).Some? ==>
        var n := FirstSuccess(plan, old(Contents()).Has(SENT), 0);
        row == FinalRow(old(row).value, plan, Updater(plan, 0, n), n)
    {
      used := 0;
      ghost var start, expected, total := Contents(), Outcome(Contents(), plan), |Work(Contents(), plan, 0)|;
      var ok := false;
      while !ok && used < MAX_ATTEMPTS
        invariant used <= MAX_ATTEMPTS
        invariant !ok && used < MAX_ATTEMPTS ==> EndsAs(Work(Contents(), plan, used), expected, total - used)
        invariant ok || used == MAX_ATTEMPTS ==> Contents() == expected
        invariant ok ==> used == total
        invariant !ok && used == MAX_ATTEMPTS ==> used + 1 == total
        decreases MAX_ATTEMPTS - used, !ok
      {
        ghost var was := Contents();
        ok := DeliverReminder(plan.Gone(used), plan.attempts[used]);
        WorkUnfold(was, plan, used, Contents(), ok, expected, total - used);
        used := used + 1;
        if !ok {
          OnFailed(used, MAX_ATTEMPTS, plan.Gone(used), plan.markFails);
        }
      }
      if start.row.Some? {
        WorkExact(start, plan, 0);
      }
    }
  }
}
