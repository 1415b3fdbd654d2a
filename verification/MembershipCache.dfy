/**
 The membership cache, one step per `await`.

 `getMembership` is three steps (cache get, table read, cache set) and a role change or removal
 is two (table write, cache delete). Any number of calls run at once, their steps interleave in
 any order, time passes between steps, calls may stop half-way and the cache may lose entries.
 */
module MembershipCache {
  import opened Forest
  import opened TextKeys

  const MEMBERSHIP_TTL_MS: int := 30_000

  datatype Role = ADMIN | MEMBER

  /** A membership, as the table has it: UNIQUE (workspace_id, user_id). */
  datatype Key = Key(workspaceId: Id, userId: Id)

  /** A membership as a request names it; the cache goes by these texts. */
  datatype TextKey = TextKey(workspaceId: IdText, userId: IdText) {
    function Value(): Key {
      Key(workspaceId.id, userId.id)
    }

    predicate AsStored() {
      workspaceId.AsStored() && userId.AsStored()
    }
  }

  /** The text under which a membership is cached, `text` being how ids are written. */
  function KeyText(text: IdText -> string, k: TextKey): string {
    "membership:" + text(k.workspaceId) + ":" + text(k.userId)
  }

  /** The ids in use are written as uuids, different ids and different spellings differently. */
  ghost predicate WritesUuids(text: IdText -> string, ids: set<IdText>) {
    && (forall x :: x in ids ==> IsUuid(text(x)))
    && (forall x, y :: x in ids && y in ids && text(x) == text(y) ==> x == y)
  }

  /** So the cache has one place for each way to write a membership, and is a map from those. */
  lemma KeyTextInjective(text: IdText -> string, ids: set<IdText>, j: TextKey, k: TextKey)
    requires WritesUuids(text, ids) && {j.workspaceId, j.userId, k.workspaceId, k.userId} <= ids
    requires KeyText(text, j) == KeyText(text, k)
    ensures j == k
  {
    var w, u, w', u' := text(j.workspaceId), text(j.userId), text(k.workspaceId), text(k.userId);
    assert KeyText(text, j) == "membership:" + (w + (":" + u));
    assert KeyText(text, k) == "membership:" + (w' + (":" + u'));
    Unprefix("membership:", w + (":" + u), w' + (":" + u'));
    SplitAt(w, ":" + u, w', ":" + u');
    Unprefix(":", u, u');
  }

  /** A cached row is served while `now <= expiresAt`. */
  datatype Entry = Entry(role: Role, expiresAt: int)

  /** A `getMembership` call that missed the cache, or that has read the table and not yet set the cache. */
  datatype Reader = Missed(key: TextKey) | Found(key: TextKey, role: Role, readAt: int)

  datatype State = State(
    now: int,
    table: map<Key, Role>,
    cache: map<TextKey, Entry>,
    readers: map<Id, Reader>,
    writers: map<Id, TextKey>,
    maxDelay: int)

  datatype Step =
    | Tick(ms: nat)
    | Get(pid: Id, key: TextKey)
    | Find(pid: Id)
    | Set(pid: Id)
    | Save(pid: Id, key: TextKey, role: Option<Role>)
    | Del(pid: Id)
    | Join(member: Key, granted: Role)
    | Stop(pid: Id)
    | Evict(key: TextKey)

  function Lookup<K, V>(m: map<K, V>, k: K): Option<V> {
    if k in m then Some(m[k]) else None
  }

  const INITIAL: State := State(0, map[], map[], map[], map[], 0)

  predicate Served(s: State, key: TextKey) {
    key in s.cache && s.now <= s.cache[key].expiresAt
  }

  predicate Idle(s: State, pid: Id) {
    pid !in s.readers && pid !in s.writers
  }

  predicate Enabled(s: State, step: Step) {
    match step
    case Tick(_) => true
    case Get(pid, _) => Idle(s, pid)
    case Find(pid) => pid in s.readers && s.readers[pid].Missed?
    case Set(pid) => pid in s.readers && s.readers[pid].Found?
    case Save(pid, _, _) => Idle(s, pid)
    case Del(pid) => pid in s.writers
    case Join(member, _) => member !in s.table
    case Stop(_) => true
    case Evict(_) => true
  }

  /** The state after a step; a step that is not enabled changes nothing. */
  function Next(s: State, step: Step): State {
    if !Enabled(s, step) then s
    else match step
      case Tick(ms) => s.(now := s.now + ms)
      case Get(pid, key) => if Served(s, key) then s else s.(readers := s.readers[pid := Missed(key)])
      case Find(pid) =>
        var key := s.readers[pid].key;
        s.(readers := if key.Value() in s.table then s.readers[pid := Found(key, s.table[key.Value()], s.now)]
                      else s.readers - {pid})
      case Set(pid) =>
        var r := s.readers[pid];
        s.(cache := s.cache[r.key := Entry(r.role, s.now + MEMBERSHIP_TTL_MS)],
           readers := s.readers - {pid},
           maxDelay := if s.now - r.readAt > s.maxDelay then s.now - r.readAt else s.maxDelay)
      case Save(pid, key, role) =>
        s.(table := if role.Some? then s.table[key.Value() := role.value] else s.table - {key.Value()},
           writers := s.writers[pid := key])
      case Del(pid) => s.(cache := s.cache - {s.writers[pid]}, writers := s.writers - {pid})
      case Join(member, role) => s.(table := s.table[member := role])
      case Stop(pid) => s.(readers := s.readers - {pid}, writers := s.writers - {pid})
      case Evict(key) => s.(cache := s.cache - {key})
  }

  /** The membership a call returns at this step, if it returns one. */
  function Answer(s: State, step: Step): Option<(TextKey, Role)> {
    if !Enabled(s, step) then None
    else match step
      case Get(_, key) => if Served(s, key) then Some((key, s.cache[key].role)) else None
      case Set(pid) => Some((s.readers[pid].key, s.readers[pid].role))
      case _ => None
  }

  function Run(steps: seq<Step>): State
    decreases |steps|
  {
    if steps == [] then INITIAL else Next(Run(steps[..|steps| - 1]), steps[|steps| - 1])
  }

  // ---------------------------------------------------------------------------
  // Bounded staleness

  /** At some moment of the run not before `since` the table held this role for the key. */
  ghost predicate Held(steps: seq<Step>, key: Key, role: Role, since: int) {
    exists i :: 0 <= i <= |steps| && Lookup(Run(steps[..i]).table, key) == Some(role) && Run(steps[..i]).now >= since
  }

  lemma HeldLater(steps: seq<Step>, step: Step, key: Key, role: Role, since: int, since': int)
    requires Held(steps, key, role, since) && since' <= since
    ensures Held(steps + [step], key, role, since')
  {
    var i :| 0 <= i <= |steps| && Lookup(Run(steps[..i]).table, key) == Some(role) && Run(steps[..i]).now >= since;
    assert (steps + [step])[..i] == steps[..i];
  }

  lemma HeldNow(steps: seq<Step>, key: Key, role: Role)
    requires Lookup(Run(steps).table, key) == Some(role)
    ensures Held(steps, key, role, Run(steps).now)
  {
    assert steps[..|steps|] == steps;
  }

  /** What a reader has in hand, and what the cache holds, were true when read. */
  ghost predicate ReadersTruthful(steps: seq<Step>, s: State) {
    forall p :: p in s.readers && s.readers[p].Found? ==>
      s.readers[p].readAt <= s.now && Held(steps, s.readers[p].key.Value(), s.readers[p].role, s.readers[p].readAt)
  }

  ghost predicate EntriesTruthful(steps: seq<Step>, s: State) {
    forall k :: k in s.cache ==>
      Held(steps, k.Value(), s.cache[k].role, s.cache[k].expiresAt - MEMBERSHIP_TTL_MS - s.maxDelay)
  }

  lemma NextReadersTruthful(steps: seq<Step>, step: Step)
    requires ReadersTruthful(steps, Run(steps))
    ensures ReadersTruthful(steps + [step], Next(Run(steps), step))
  {
    var s, s' := Run(steps), Next(Run(steps), step);
    forall p | p in s'.readers && s'.readers[p].Found?
      ensures s'.readers[p].readAt <= s'.now
      ensures Held(steps + [step], s'.readers[p].key.Value(), s'.readers[p].role, s'.readers[p].readAt)
    {
      var r := s'.readers[p];
      if !(p in s.readers && s.readers[p] == r) {
        HeldNow(steps, r.key.Value(), r.role);
      }
      HeldLater(steps, step, r.key.Value(), r.role, r.readAt, r.readAt);
    }
  }

  lemma NextEntriesTruthful(steps: seq<Step>, step: Step)
    requires ReadersTruthful(steps, Run(steps)) && EntriesTruthful(steps, Run(steps))
    ensures EntriesTruthful(steps + [step], Next(Run(steps), step))
  {
    var s, s' := Run(steps), Next(Run(steps), step);
    forall k | k in s'.cache
      ensures Held(steps + [step], k.Value(), s'.cache[k].role, s'.cache[k].expiresAt - MEMBERSHIP_TTL_MS - s'.maxDelay)
    {
      var e := s'.cache[k];
      var since := e.expiresAt - MEMBERSHIP_TTL_MS - s'.maxDelay;
      if k in s.cache && s.cache[k] == e {
        HeldLater(steps, step, k.Value(), e.role, e.expiresAt - MEMBERSHIP_TTL_MS - s.maxDelay, since);
      } else {
        HeldLater(steps, step, k.Value(), e.role, s.readers[step.pid].readAt, since);
      }
    }
  }

  lemma {:induction false} RunTruthful(steps: seq<Step>)
    ensures ReadersTruthful(steps, Run(steps)) && EntriesTruthful(steps, Run(steps))
    decreases |steps|
  {
    if steps != [] {
      var init, last := steps[..|steps| - 1], steps[|steps| - 1];
      RunTruthful(init);
      assert steps == init + [last];
      NextReadersTruthful(init, last);
      NextEntriesTruthful(init, last);
    }
  }

  /**
   Under every interleaving, a membership that a call returns was the table's at some moment no
   older than the cache lifetime plus the longest delay so far between reading the table and
   setting the cache.
   */
  lemma StalenessBound(steps: seq<Step>, step: Step)
    requires Answer(Run(steps), step).Some?
    ensures var s := Run(steps);
      var (key, role) := Answer(s, step).value;
      Held(steps, key.Value(), role, s.now - MEMBERSHIP_TTL_MS - Next(s, step).maxDelay)
  {
    RunTruthful(steps);
    var s := Run(steps);
    var (key, role) := Answer(s, step).value;
    var since := s.now - MEMBERSHIP_TTL_MS - Next(s, step).maxDelay;
    RunDelay(steps);
    var at := if step.Get? then s.cache[key].expiresAt - MEMBERSHIP_TTL_MS - s.maxDelay else s.readers[step.pid].readAt;
    var i :| 0 <= i <= |steps| && Lookup(Run(steps[..i]).table, key.Value()) == Some(role) && Run(steps[..i]).now >= at;
    assert Run(steps[..i]).now >= since;
  }

  lemma {:induction false} RunDelay(steps: seq<Step>)
    ensures Run(steps).maxDelay >= 0
    decreases |steps|
  {
    if steps != [] {
      RunDelay(steps[..|steps| - 1]);
    }
  }

  /** An entry just set is served for exactly its lifetime, as long as nothing else happens. */
  lemma ServedForLifetime(s: State, pid: Id, other: Id, ms: nat)
    requires Enabled(s, Set(pid)) && Idle(s, other) && other != pid
    ensures var r, later := s.readers[pid], Next(Next(s, Set(pid)), Tick(ms));
      Answer(later, Get(other, r.key)) == if ms <= 30_000 then Some((r.key, r.role)) else None
  {
  }

  // ---------------------------------------------------------------------------
  // When the cache may disagree with the table

  ghost predicate StaleEntry(s: State, k: TextKey) {
    k in s.cache && Lookup(s.table, k.Value()) != Some(s.cache[k].role)
  }

  /** The reader has found a role for this text that the table no longer has. */
  predicate ReadsStale(s: State, p: Id, k: TextKey) {
    && p in s.readers && s.readers[p].Found? && s.readers[p].key == k
    && Lookup(s.table, k.Value()) != Some(s.readers[p].role)
  }

  ghost predicate StaleRead(s: State, k: TextKey) {
    exists p :: ReadsStale(s, p, k)
  }

  /** Some writer still has to delete the entry for this text. */
  ghost predicate Pending(s: State, k: TextKey) {
    exists w :: w in s.writers && s.writers[w] == k
  }

  /** The step lets go of the last writer of a text. */
  ghost predicate LastWriter(s: State, step: Step) {
    && (step.Del? || step.Stop?) && step.pid in s.writers
    && forall w :: w in s.writers && s.writers[w] == s.writers[step.pid] ==> w == step.pid
  }

  /** The step saves a role under one text of a membership that has another with no writer to delete its entry. */
  ghost predicate MissesText(s: State, step: Step, k: TextKey) {
    && step.Save? && Enabled(s, step)
    && k != step.key && k.Value() == step.key.Value() && !Pending(s, k)
  }

  /** A writer that is not the one the step lets go is still there after it. */
  lemma PendingStays(s: State, step: Step, k: TextKey)
    requires Pending(s, k) && (LastWriter(s, step) ==> s.writers[step.pid] != k)
    ensures Pending(Next(s, step), k)
  {
    var w :| w in s.writers && s.writers[w] == k && !((step.Del? || step.Stop?) && w == step.pid);
    assert w in Next(s, step).writers && Next(s, step).writers[w] == k;
  }

  lemma PendingGone(s: State, step: Step)
    requires LastWriter(s, step)
    ensures !Pending(Next(s, step), s.writers[step.pid])
  {
  }

  // Entries and roles in hand together

  /** Disagreement, cached or about to be cached, only while some writer still has to delete the entry. */
  ghost predicate Guarded(s: State) {
    forall k :: StaleEntry(s, k) || StaleRead(s, k) ==> Pending(s, k)
  }

  /**
   The last writer of a text leaves while an outdated role is in hand, or stops before deleting an
   outdated entry; or a role is saved under one text while it differs from what is cached or in
   hand under another that no writer deletes.
   */
  ghost predicate Unguards(s: State, step: Step) {
    || (LastWriter(s, step)
        && (StaleRead(s, s.writers[step.pid]) || (step.Stop? && StaleEntry(s, s.writers[step.pid]))))
    || (exists k :: MissesText(s, step, k) && (StaleEntry(Next(s, step), k) || StaleRead(Next(s, step), k)))
  }

  lemma StaleOnlyFrom(s: State, step: Step, k: TextKey)
    requires step.Save? ==> step.key.Value() != k.Value()
    ensures StaleEntry(Next(s, step), k) ==> StaleEntry(s, k) || StaleRead(s, k)
    ensures StaleRead(Next(s, step), k) ==> StaleRead(s, k)
  {
    var s' := Next(s, step);
    if StaleRead(s', k) {
      var p :| ReadsStale(s', p, k);
      assert ReadsStale(s, p, k);
    }
    if StaleEntry(s', k) && !StaleEntry(s, k) {
      assert ReadsStale(s, step.pid, k);
    }
  }

  /** No call reads and writes at once. */
  ghost predicate OneRole(s: State) {
    s.readers.Keys !! s.writers.Keys
  }

  lemma UnguardingBreaks(s: State, step: Step)
    requires Unguards(s, step) && OneRole(s)
    ensures !Guarded(Next(s, step))
  {
    var s' := Next(s, step);
    if LastWriter(s, step)
      && (StaleRead(s, s.writers[step.pid]) || (step.Stop? && StaleEntry(s, s.writers[step.pid])))
    {
      var k := s.writers[step.pid];
      PendingGone(s, step);
      if p :| ReadsStale(s, p, k) {
        assert ReadsStale(s', p, k);
      }
      assert StaleRead(s', k) || StaleEntry(s', k);
    } else {
      var k :| MissesText(s, step, k) && (StaleEntry(s', k) || StaleRead(s', k));
      assert forall w :: w in s'.writers && w != step.pid ==> w in s.writers && s'.writers[w] == s.writers[w];
      assert !Pending(s', k);
    }
  }

  lemma StaleStaysGuarded(s: State, step: Step, k: TextKey)
    requires Guarded(s) && OneRole(s) && !Unguards(s, step)
    requires StaleEntry(Next(s, step), k) || StaleRead(Next(s, step), k)
    ensures Pending(Next(s, step), k)
  {
    var s' := Next(s, step);
    if step.Save? && Enabled(s, step) && step.key.Value() == k.Value() {
      if step.key == k {
        assert step.pid in s'.writers;
      } else {
        assert !MissesText(s, step, k);
        PendingStays(s, step, k);
      }
    } else {
      if !(step.Save? && step.key.Value() == k.Value()) {
        StaleOnlyFrom(s, step, k);
      }
      PendingStays(s, step, k);
    }
  }

  /** Every step keeps the guard except exactly the ones that `Unguards` describes. */
  lemma StepKeepsGuardedIff(s: State, step: Step)
    requires Guarded(s) && OneRole(s)
    ensures Guarded(Next(s, step)) <==> !Unguards(s, step)
    ensures OneRole(Next(s, step))
  {
    if Unguards(s, step) {
      UnguardingBreaks(s, step);
    } else {
      forall k | StaleEntry(Next(s, step), k) || StaleRead(Next(s, step), k) ensures Pending(Next(s, step), k) {
        StaleStaysGuarded(s, step, k);
      }
    }
  }

  /** The predicate holds in all states of the run. */
  ghost predicate Always(steps: seq<Step>, good: State -> bool)
    decreases |steps|
  {
    good(Run(steps)) && (steps == [] || Always(steps[..|steps| - 1], good))
  }

  /** No step of the run is taken in a state where it is bad. */
  ghost predicate Never(steps: seq<Step>, bad: (State, Step) -> bool)
    decreases |steps|
  {
    steps == [] || (Never(steps[..|steps| - 1], bad) && !bad(Run(steps[..|steps| - 1]), steps[|steps| - 1]))
  }

  /** What holds at first and is lost by exactly the bad steps holds throughout exactly the runs without one. */
  lemma {:induction false} RunIff(steps: seq<Step>, good: State -> bool, bad: (State, Step) -> bool)
    requires good(INITIAL) && forall s, step :: good(s) ==> (good(Next(s, step)) <==> !bad(s, step))
    ensures Always(steps, good) <==> Never(steps, bad)
    decreases |steps|
  {
    if steps != [] {
      RunIff(steps[..|steps| - 1], good, bad);
    }
  }

  /** Guarded, and no call reads and writes at once, which holds in every run. */
  ghost predicate GuardedCalls(s: State) {
    Guarded(s) && OneRole(s)
  }

  /** All states of a run are guarded exactly when no step of it is one that `Unguards` describes. */
  lemma RunGuardedIff(steps: seq<Step>)
    ensures Always(steps, GuardedCalls) <==> Never(steps, Unguards)
  {
    forall s, step | GuardedCalls(s) ensures GuardedCalls(Next(s, step)) <==> !Unguards(s, step) {
      StepKeepsGuardedIff(s, step);
    }
    RunIff(steps, GuardedCalls, Unguards);
  }

  // Entries alone

  /** Cached roles are outdated only while some writer still has to delete the entry. */
  ghost predicate EntriesGuarded(s: State) {
    forall k :: StaleEntry(s, k) ==> Pending(s, k)
  }

  /**
   A reader caches an outdated role with no writer left to delete it; the last writer of a text
   stops before deleting its outdated entry; or a role is saved under one text while another entry
   of the same membership has a different one and no writer to delete it.
   */
  ghost predicate LeavesStale(s: State, step: Step) {
    || (step.Set? && Enabled(s, step)
        && Lookup(s.table, s.readers[step.pid].key.Value()) != Some(s.readers[step.pid].role)
        && !Pending(s, s.readers[step.pid].key))
    || (step.Stop? && LastWriter(s, step) && StaleEntry(s, s.writers[step.pid]))
    || (exists k :: MissesText(s, step, k) && k in s.cache && step.role != Some(s.cache[k].role))
  }

  lemma EntryStaysGuarded(s: State, step: Step, k: TextKey)
    requires EntriesGuarded(s) && !LeavesStale(s, step) && StaleEntry(Next(s, step), k)
    ensures Pending(Next(s, step), k)
  {
    var s' := Next(s, step);
    if Enabled(s, step) && step.Save? && step.key.Value() == k.Value() {
      if step.key == k {
        assert step.pid in s'.writers;
      } else {
        assert !MissesText(s, step, k);
        PendingStays(s, step, k);
      }
    } else if Enabled(s, step) {
      assert (step.Set? && s.readers[step.pid].key == k) || StaleEntry(s, k);
      PendingStays(s, step, k);
    }
  }

  lemma LeavingStaleUnguards(s: State, step: Step)
    requires LeavesStale(s, step)
    ensures !EntriesGuarded(Next(s, step))
  {
    var s' := Next(s, step);
    if step.Set? {
      assert StaleEntry(s', s.readers[step.pid].key);
    } else if step.Stop? {
      PendingGone(s, step);
      assert StaleEntry(s', s.writers[step.pid]);
    } else {
      var k :| MissesText(s, step, k) && k in s.cache && step.role != Some(s.cache[k].role);
      assert forall w :: w in s'.writers && w != step.pid ==> w in s.writers && s'.writers[w] == s.writers[w];
      assert StaleEntry(s', k) && !Pending(s', k);
    }
  }

  /** Outdated entries stay guarded by a pending delete except after exactly the steps `LeavesStale` describes. */
  lemma StepKeepsEntriesIff(s: State, step: Step)
    requires EntriesGuarded(s)
    ensures EntriesGuarded(Next(s, step)) <==> !LeavesStale(s, step)
  {
    if LeavesStale(s, step) {
      LeavingStaleUnguards(s, step);
    } else {
      forall k | StaleEntry(Next(s, step), k) ensures Pending(Next(s, step), k) {
        EntryStaysGuarded(s, step, k);
      }
    }
  }

  /** Throughout a run no outdated entry is left without a pending delete exactly when the run has no such step. */
  lemma RunEntriesIff(steps: seq<Step>)
    ensures Always(steps, EntriesGuarded) <==> Never(steps, LeavesStale)
  {
    forall s, step | EntriesGuarded(s) ensures EntriesGuarded(Next(s, step)) <==> !LeavesStale(s, step) {
      StepKeepsEntriesIff(s, step);
    }
    RunIff(steps, EntriesGuarded, LeavesStale);
  }

  // What callers can do about it

  /**
   A membership is named in another way than stored, or saved while a reader of it is between its
   find and its set, or a writer stops before its delete.
   */
  ghost predicate Disorderly(s: State, step: Step) {
    match step
    case Get(_, key) => !key.AsStored()
    case Save(_, key, _) =>
      !key.AsStored() || exists p :: p in s.readers && s.readers[p].Found? && s.readers[p].key.Value() == key.Value()
    case Stop(pid) => pid in s.writers
    case _ => false
  }

  ghost predicate TextsAsStored(s: State) {
    && (forall k :: k in s.cache ==> k.AsStored())
    && (forall p :: p in s.readers ==> s.readers[p].key.AsStored())
  }

  ghost predicate Orderly(s: State) {
    TextsAsStored(s) && EntriesGuarded(s) && forall p, k :: !ReadsStale(s, p, k)
  }

  lemma ReadsStayTrue(s: State, step: Step, p: Id, k: TextKey)
    requires Orderly(s) && !Disorderly(s, step)
    ensures !ReadsStale(Next(s, step), p, k)
  {
    assert !ReadsStale(s, p, k);
  }

  lemma StepKeepsOrderly(s: State, step: Step)
    requires Orderly(s) && !Disorderly(s, step)
    ensures Orderly(Next(s, step)) && !LeavesStale(s, step)
  {
    if step.Set? && Enabled(s, step) {
      assert !ReadsStale(s, step.pid, s.readers[step.pid].key);
    }
    assert !LeavesStale(s, step);
    StepKeepsEntriesIff(s, step);
    forall p, k ensures !ReadsStale(Next(s, step), p, k) {
      ReadsStayTrue(s, step, p, k);
    }
  }

  /** In a run without such a step an outdated entry is always about to be deleted. */
  lemma {:induction false} OrderlyRunsStayGuarded(steps: seq<Step>)
    requires Never(steps, Disorderly)
    ensures Always(steps, EntriesGuarded) && Orderly(Run(steps))
    decreases |steps|
  {
    if steps != [] {
      OrderlyRunsStayGuarded(steps[..|steps| - 1]);
      StepKeepsOrderly(Run(steps[..|steps| - 1]), steps[|steps| - 1]);
    }
  }

  // Two instances

  /**
   An interleaving after which the cache serves a role the table no longer has, although the
   writer has saved and then deleted the entry: the reader read before the save and set after the
   delete. The staleness bound is all that limits this.
   */
  function StaleAfterDelete(k: TextKey): seq<Step> {
    [Join(k.Value(), ADMIN), Get(1, k), Find(1), Save(2, k, Some(MEMBER)), Del(2), Set(1)]
  }

  lemma DeleteCanBeTooEarly(k: TextKey)
    ensures var s := Run(StaleAfterDelete(k));
      && Lookup(s.table, k.Value()) == Some(MEMBER) && s.readers == map[] && s.writers == map[]
      && Answer(s, Get(3, k)) == Some((k, ADMIN))
  {
    var all := StaleAfterDelete(k);
    var s1 := Next(INITIAL, all[0]);
    var s3 := Next(Next(s1, all[1]), all[2]);
    var s5 := Next(Next(s3, all[3]), all[4]);
    RunSix(all);
    assert s3.readers == map[1 := Found(k, ADMIN, 0)];
    assert s5.writers == map[] && s5.readers == map[1 := Found(k, ADMIN, 0)];
  }

  /** Calls that do not even overlap: the role is read under one text and changed under another. */
  function ChangedUnderOtherText(j: TextKey, k: TextKey): seq<Step> {
    [Join(j.Value(), ADMIN), Get(1, j), Find(1), Set(1), Save(2, k, Some(MEMBER)), Del(2)]
  }

  lemma DeleteCanMissText(j: TextKey, k: TextKey)
    requires j != k && j.Value() == k.Value()
    ensures var s := Run(ChangedUnderOtherText(j, k));
      && Lookup(s.table, j.Value()) == Some(MEMBER) && s.readers == map[] && s.writers == map[]
      && Answer(s, Get(3, j)) == Some((j, ADMIN))
  {
    var all := ChangedUnderOtherText(j, k);
    var s1 := Next(INITIAL, all[0]);
    var s3 := Next(Next(s1, all[1]), all[2]);
    var s4 := Next(s3, all[3]);
    RunSix(all);
    assert s3.readers == map[1 := Found(j, ADMIN, 0)];
    assert s4.cache == map[j := Entry(ADMIN, MEMBERSHIP_TTL_MS)] && s4.readers == map[];
  }

  lemma RunSix(steps: seq<Step>)
    requires |steps| == 6
    ensures var s3 := Next(Next(Next(INITIAL, steps[0]), steps[1]), steps[2]);
      Run(steps) == Next(Next(Next(s3, steps[3]), steps[4]), steps[5])
  {
    RunUnfold(steps, 0); RunUnfold(steps, 1); RunUnfold(steps, 2);
    RunUnfold(steps, 3); RunUnfold(steps, 4); RunUnfold(steps, 5);
    assert steps[..6] == steps;
  }

  lemma RunUnfold(steps: seq<Step>, i: nat)
    requires i < |steps|
    ensures Run(steps[..i + 1]) == Next(Run(steps[..i]), steps[i])
    ensures i == 0 ==> Run(steps[..i]) == INITIAL
  {
    assert steps[..i + 1][..i] == steps[..i];
  }
}
