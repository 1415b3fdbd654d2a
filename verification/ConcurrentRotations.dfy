/**
 Rotations that overlap. `rotate` finds the token, saves it as revoked and mints the next one, or
 revokes the family, as separate statements without a transaction. Here each is a step; any
 number of rotations run at once, sessions start and log out meanwhile, and a call may stop
 half-way.
 */
module ConcurrentRotations {
  import opened Forest
  import opened RefreshTokens

  /** A rotation that found its token valid, has saved it as revoked, or found it revoked already. */
  datatype Rotation =
    | Valid(raw: Id, userId: Id, familyId: Id)
    | Minting(userId: Id, familyId: Id)
    | Reused(familyId: Id)

  datatype State = State(tokens: Tokens, calls: map<Id, Rotation>)

  datatype Step =
    | Start(userId: Id, raw: Id, familyId: Id, expiresAt: int)
    | Logout(raw: Id, now: int)
    | Find(pid: Id, raw: Id, now: int)
    | Save(pid: Id, now: int)
    | Mint(pid: Id, next: Id, expiresAt: int)
    | RevokeAll(pid: Id, now: int)
    | Stop(pid: Id)

  const INITIAL: State := State(map[], map[])

  predicate Is(s: State, pid: Id, valid: bool) {
    pid in s.calls && if valid then s.calls[pid].Valid? else s.calls[pid].Minting?
  }

  /** Token values and family ids are random: new ones were never seen. */
  ghost predicate Enabled(s: State, step: Step) {
    match step
    case Start(_, raw, f, _) =>
      && raw !in s.tokens && (forall x :: x in s.tokens ==> s.tokens[x].familyId != f)
      && forall p :: p in s.calls ==> s.calls[p].familyId != f
    case Logout(_, _) => true
    case Find(pid, _, _) => pid !in s.calls
    case Save(pid, _) => Is(s, pid, true)
    case Mint(pid, next, _) => Is(s, pid, false) && next !in s.tokens
    case RevokeAll(pid, _) => pid in s.calls && s.calls[pid].Reused?
    case Stop(_) => true
  }

  function Revoked(tokens: Tokens, raw: Id, now: int): Tokens
    requires raw in tokens
  {
    tokens[raw := tokens[raw].(revokedAt := Some(now))]
  }

  /** What a rotation goes on with after reading the token, if it goes on. */
  function Found(tokens: Tokens, raw: Id, now: int): Option<Rotation> {
    if raw !in tokens then None
    else if tokens[raw].revokedAt.Some? then Some(Reused(tokens[raw].familyId))
    else if tokens[raw].expiresAt < now then None
    else Some(Valid(raw, tokens[raw].userId, tokens[raw].familyId))
  }

  /** The state after a step; a step that is not enabled changes nothing. */
  ghost function Next(s: State, step: Step): State {
    if !Enabled(s, step) then s
    else match step
      case Start(u, raw, f, expiresAt) => s.(tokens := s.tokens[raw := Token(u, f, expiresAt, None)])
      case Logout(raw, now) => s.(tokens := if Live(s.tokens, raw) then Revoked(s.tokens, raw, now) else s.tokens)
      case Find(pid, raw, now) =>
        var found := Found(s.tokens, raw, now);
        s.(calls := if found.Some? then s.calls[pid := found.value] else s.calls)
      case Save(pid, now) =>
        var c := s.calls[pid];
        State(if c.raw in s.tokens then Revoked(s.tokens, c.raw, now) else s.tokens,
          s.calls[pid := Minting(c.userId, c.familyId)])
      case Mint(pid, next, expiresAt) =>
        var c := s.calls[pid];
        State(s.tokens[next := Token(c.userId, c.familyId, expiresAt, None)], s.calls - {pid})
      case RevokeAll(pid, now) => State(RevokedFamily(s.tokens, s.calls[pid].familyId, now), s.calls - {pid})
      case Stop(pid) => s.(calls := s.calls - {pid})
  }

  /** The state after steps taken from `s`. */
  ghost function After(s: State, steps: seq<Step>): State
    decreases |steps|
  {
    if steps == [] then s else Next(After(s, steps[..|steps| - 1]), steps[|steps| - 1])
  }

  /** The steps of one rotation with no other step in between. */
  ghost function Alone(ttl: nat, s: State, op: Op, pid: Id): State
    requires op.Rotate?
  {
    var found := Next(s, Find(pid, op.raw, op.now));
    if pid !in found.calls then found
    else if found.calls[pid].Reused? then Next(found, RevokeAll(pid, op.now))
    else
      var saved := Next(found, Save(pid, op.now));
      Next(saved, if op.mintFails then Stop(pid) else Mint(pid, op.next, op.now + ttl))
  }

  lemma AloneValid(ttl: nat, s: State, op: Op, pid: Id)
    requires op.Rotate? && Fresh(s.tokens, op) && pid !in s.calls
    requires Live(s.tokens, op.raw) && op.now <= s.tokens[op.raw].expiresAt
    ensures Alone(ttl, s, op, pid) == State(Apply(ttl, s.tokens, op).0, s.calls)
  {
    var c := Valid(op.raw, s.tokens[op.raw].userId, s.tokens[op.raw].familyId);
    var m := Minting(c.userId, c.familyId);
    var found := Next(s, Find(pid, op.raw, op.now));
    assert found == State(s.tokens, s.calls[pid := c]);
    var saved := Next(found, Save(pid, op.now));
    assert saved == State(Revoked(s.tokens, op.raw, op.now), s.calls[pid := m]);
    assert s.calls[pid := m] - {pid} == s.calls;
  }

  /** Taken alone they amount to the atomic call. */
  lemma AloneIsRotate(ttl: nat, s: State, op: Op, pid: Id)
    requires op.Rotate? && Fresh(s.tokens, op) && pid !in s.calls
    ensures Alone(ttl, s, op, pid) == State(Apply(ttl, s.tokens, op).0, s.calls)
  {
    if Live(s.tokens, op.raw) && op.now <= s.tokens[op.raw].expiresAt {
      AloneValid(ttl, s, op, pid);
    } else if op.raw in s.tokens && !Live(s.tokens, op.raw) {
      var c := Reused(s.tokens[op.raw].familyId);
      assert Next(s, Find(pid, op.raw, op.now)) == State(s.tokens, s.calls[pid := c]);
      assert s.calls[pid := c] - {pid} == s.calls;
    }
  }

  // ---------------------------------------------------------------------------
  // What every step keeps

  /** The calls in flight are about tokens and families that exist, and of the same user. */
  ghost predicate CallFine(tokens: Tokens, c: Rotation) {
    && (c.Valid? ==> c.raw in tokens && tokens[c.raw].familyId == c.familyId && tokens[c.raw].userId == c.userId)
    && (exists x :: x in tokens && tokens[x].familyId == c.familyId)
    && (!c.Reused? ==> forall x :: x in tokens && tokens[x].familyId == c.familyId ==> tokens[x].userId == c.userId)
  }

  ghost predicate Fine(s: State) {
    OneUserPerFamily(s.tokens) && forall p :: p in s.calls ==> CallFine(s.tokens, s.calls[p])
  }

  /** All tokens stay, with their user and family. */
  ghost predicate Grows(before: Tokens, after: Tokens) {
    forall x :: x in before ==>
      x in after && after[x].userId == before[x].userId && after[x].familyId == before[x].familyId
  }

  lemma TokensGrow(s: State, step: Step)
    requires Fine(s)
    ensures Grows(s.tokens, Next(s, step).tokens)
  {
  }

  lemma CallStaysFine(s: State, step: Step, c: Rotation)
    requires Fine(s) && Enabled(s, step) && CallFine(s.tokens, c) && (step.Start? ==> step.familyId != c.familyId)
    ensures CallFine(Next(s, step).tokens, c)
  {
    var x :| x in s.tokens && s.tokens[x].familyId == c.familyId;
    TokensGrow(s, step);
    assert x in Next(s, step).tokens && Next(s, step).tokens[x].familyId == c.familyId;
    if step.Mint? {
      assert CallFine(s.tokens, s.calls[step.pid]);
    }
  }

  lemma StepKeepsFine(s: State, step: Step)
    requires Fine(s)
    ensures Fine(Next(s, step))
  {
    var s' := Next(s, step);
    if Enabled(s, step) {
      forall p | p in s'.calls ensures CallFine(s'.tokens, s'.calls[p]) {
        if p in s.calls {
          assert CallFine(s.tokens, s.calls[p]);
          CallStaysFine(s, step, s.calls[p]);
        }
      }
      if step.Mint? {
        assert CallFine(s.tokens, s.calls[step.pid]);
      }
    }
  }

  // ---------------------------------------------------------------------------
  // At most one live token per family

  /** The step mints a token of a family that has a live one. */
  ghost predicate MintsSecond(s: State, step: Step) {
    && step.Mint? && Enabled(s, step)
    && exists x :: Live(s.tokens, x) && s.tokens[x].familyId == s.calls[step.pid].familyId
  }

  lemma StepOneLiveIff(s: State, step: Step)
    requires OneLivePerFamily(s.tokens)
    ensures OneLivePerFamily(Next(s, step).tokens) <==> !MintsSecond(s, step)
  {
    var s' := Next(s, step);
    if MintsSecond(s, step) {
      var x :| Live(s.tokens, x) && s.tokens[x].familyId == s.calls[step.pid].familyId;
      assert Live(s'.tokens, x) && Live(s'.tokens, step.next) && x != step.next;
    } else {
      assert forall x :: Live(s'.tokens, x) ==>
        Live(s.tokens, x) || (step.Mint? && x == step.next) || (step.Start? && x == step.raw);
    }
  }

  ghost predicate AlwaysOneLive(steps: seq<Step>)
    decreases |steps|
  {
    OneLivePerFamily(After(INITIAL, steps).tokens) && (steps == [] || AlwaysOneLive(steps[..|steps| - 1]))
  }

  ghost predicate NeverMintsSecond(steps: seq<Step>)
    decreases |steps|
  {
    steps == [] ||
    var init := steps[..|steps| - 1];
    NeverMintsSecond(init) && !MintsSecond(After(INITIAL, init), steps[|steps| - 1])
  }

  /** Every state of a run has at most one live token per family exactly if no step mints one beside a live one. */
  lemma {:induction false} RunOneLiveIff(steps: seq<Step>)
    ensures AlwaysOneLive(steps) <==> NeverMintsSecond(steps)
    decreases |steps|
  {
    if steps != [] {
      RunOneLiveIff(steps[..|steps| - 1]);
      if AlwaysOneLive(steps[..|steps| - 1]) {
        StepOneLiveIff(After(INITIAL, steps[..|steps| - 1]), steps[|steps| - 1]);
      }
    }
  }

  /** A token is found valid while another rotation that found it valid has not saved it yet. */
  ghost predicate Overlaps(s: State, step: Step) {
    step.Find? && exists p :: p in s.calls && s.calls[p].Valid? && s.calls[p].raw == step.raw
  }

  /** Where the next token of a family can come from: a token that is live or held by a call, or a call that mints. */
  datatype Source = OfToken(raw: Id) | OfCall(pid: Id)

  ghost predicate IsSource(s: State, f: Id, src: Source) {
    match src
    case OfToken(x) =>
      || (Live(s.tokens, x) && s.tokens[x].familyId == f)
      || exists p :: p in s.calls && s.calls[p].Valid? && s.calls[p].raw == x && s.calls[p].familyId == f
    case OfCall(p) => Is(s, p, false) && s.calls[p].familyId == f
  }

  ghost predicate OneHolder(s: State) {
    forall p, q :: p in s.calls && q in s.calls && s.calls[p].Valid? && s.calls[q].Valid? ==>
      s.calls[p].raw == s.calls[q].raw ==> p == q
  }

  ghost predicate OneSource(s: State) {
    OneHolder(s) && forall f, a, b :: IsSource(s, f, a) && IsSource(s, f, b) ==> a == b
  }

  /** Sources after a step that were none before. */
  lemma NewSource(s: State, step: Step, f: Id, src: Source)
    requires Fine(s) && OneHolder(s) && IsSource(Next(s, step), f, src) && !IsSource(s, f, src)
    ensures Enabled(s, step)
    ensures match step
      case Start(_, raw, f', _) => src == OfToken(raw) && f == f'
      case Save(pid, _) =>
        && src == OfCall(pid) && f == s.calls[pid].familyId
        && IsSource(s, f, OfToken(s.calls[pid].raw)) && !IsSource(Next(s, step), f, OfToken(s.calls[pid].raw))
      case Mint(pid, next, _) =>
        && src == OfToken(next) && f == s.calls[pid].familyId
        && IsSource(s, f, OfCall(pid)) && !IsSource(Next(s, step), f, OfCall(pid))
      case _ => false
  {
    assert forall p :: p in s.calls ==> CallFine(s.tokens, s.calls[p]);
  }

  lemma NoSourceOfNew(s: State, f: Id, src: Source)
    requires Fine(s) && (forall x :: x in s.tokens ==> s.tokens[x].familyId != f)
    ensures !IsSource(s, f, src)
  {
    forall p | p in s.calls ensures s.calls[p].familyId != f {
      assert CallFine(s.tokens, s.calls[p]);
    }
  }

  lemma StepKeepsOneHolder(s: State, step: Step)
    requires OneHolder(s) && !Overlaps(s, step)
    ensures OneHolder(Next(s, step))
  {
  }

  lemma StepKeepsOneSource(s: State, step: Step)
    requires Fine(s) && OneSource(s) && !Overlaps(s, step)
    ensures OneSource(Next(s, step))
  {
    var s' := Next(s, step);
    StepKeepsOneHolder(s, step);
    forall f, a, b | IsSource(s', f, a) && IsSource(s', f, b) ensures a == b {
      SourcesEqual(s, step, f, a, b);
    }
  }

  lemma SourcesEqual(s: State, step: Step, f: Id, a: Source, b: Source)
    requires Fine(s) && OneSource(s)
    requires IsSource(Next(s, step), f, a) && IsSource(Next(s, step), f, b)
    ensures a == b
  {
    if !IsSource(s, f, a) {
      NewSource(s, step, f, a);
    }
    if !IsSource(s, f, b) {
      NewSource(s, step, f, b);
    }
    if step.Start? && Enabled(s, step) && f == step.familyId {
      NoSourceOfNew(s, f, a);
      NoSourceOfNew(s, f, b);
    }
  }

  lemma OneSourceOneLive(s: State)
    requires OneSource(s)
    ensures OneLivePerFamily(s.tokens)
  {
    forall x, y | Live(s.tokens, x) && Live(s.tokens, y) && s.tokens[x].familyId == s.tokens[y].familyId
      ensures x == y
    {
      var f := s.tokens[x].familyId;
      assert IsSource(s, f, OfToken(x)) && IsSource(s, f, OfToken(y));
    }
  }

  ghost predicate NeverOverlaps(steps: seq<Step>)
    decreases |steps|
  {
    steps == [] ||
    var init := steps[..|steps| - 1];
    NeverOverlaps(init) && !Overlaps(After(INITIAL, init), steps[|steps| - 1])
  }

  /** If no token is found while another rotation holds it, the live token of each family stays the only one. */
  lemma {:induction false} SingleRotationsKeepOneLive(steps: seq<Step>)
    requires NeverOverlaps(steps)
    ensures AlwaysOneLive(steps) && Fine(After(INITIAL, steps)) && OneSource(After(INITIAL, steps))
    decreases |steps|
  {
    if steps != [] {
      var s := After(INITIAL, steps[..|steps| - 1]);
      SingleRotationsKeepOneLive(steps[..|steps| - 1]);
      StepKeepsFine(s, steps[|steps| - 1]);
      StepKeepsOneSource(s, steps[|steps| - 1]);
    }
    OneSourceOneLive(After(INITIAL, steps));
  }

  ghost function FindBothThenMintBoth(s: State, raw: Id, a: Id, b: Id, now: int, expiresAt: int): State {
    var found := Next(Next(s, Find(1, raw, now)), Find(2, raw, now));
    var saved := Next(Next(found, Save(1, now)), Save(2, now));
    Next(Next(saved, Mint(1, a, expiresAt)), Mint(2, b, expiresAt))
  }

  /** Two rotations of one live token, each found before either is saved, leave two live tokens of its family. */
  lemma TwoRotationsMintTwo(s: State, raw: Id, a: Id, b: Id, now: int, expiresAt: int)
    requires s.calls == map[] && Live(s.tokens, raw) && now <= s.tokens[raw].expiresAt
    requires a !in s.tokens && b !in s.tokens && a != b
    ensures var tokens := FindBothThenMintBoth(s, raw, a, b, now, expiresAt).tokens;
      && Live(tokens, a) && Live(tokens, b)
      && tokens[a].familyId == tokens[b].familyId == s.tokens[raw].familyId && !OneLivePerFamily(tokens)
  {
    var c := Valid(raw, s.tokens[raw].userId, s.tokens[raw].familyId);
    var m := Minting(c.userId, c.familyId);
    var found := Next(Next(s, Find(1, raw, now)), Find(2, raw, now));
    assert found == State(s.tokens, map[1 := c, 2 := c]);
    var saved := Next(Next(found, Save(1, now)), Save(2, now));
    assert saved == State(Revoked(s.tokens, raw, now), map[1 := m, 2 := m]);
    var one := Next(saved, Mint(1, a, expiresAt));
    assert one.calls == map[2 := m] && Live(one.tokens, a) && b !in one.tokens;
  }

  // ---------------------------------------------------------------------------
  // When a dead family stays dead

  /** The family is dead and no rotation is under way that could mint for it. */
  ghost predicate Quiet(s: State, f: Id) {
    Dead(s.tokens, f) && forall p :: p in s.calls && s.calls[p].familyId == f ==> s.calls[p].Reused?
  }

  lemma StepKeepsQuiet(s: State, step: Step, f: Id)
    requires Fine(s) && Quiet(s, f)
    ensures Quiet(Next(s, step), f)
  {
    var x :| x in s.tokens && s.tokens[x].familyId == f;
    TokensGrow(s, step);
    assert x in Next(s, step).tokens && Next(s, step).tokens[x].familyId == f;
  }

  lemma {:induction false} QuietStaysQuiet(s: State, steps: seq<Step>, f: Id)
    requires Fine(s) && Quiet(s, f)
    ensures Fine(After(s, steps)) && Quiet(After(s, steps), f)
    decreases |steps|
  {
    if steps != [] {
      QuietStaysQuiet(s, steps[..|steps| - 1], f);
      StepKeepsFine(After(s, steps[..|steps| - 1]), steps[|steps| - 1]);
      StepKeepsQuiet(After(s, steps[..|steps| - 1]), steps[|steps| - 1], f);
    }
  }

  lemma {:induction false} NewValue(tokens: set<Id>) returns (x: Id)
    ensures forall y :: y in tokens ==> y < x
    decreases |tokens|
  {
    x := 0;
    if tokens != {} {
      var t :| t in tokens;
      var z := NewValue(tokens - {t});
      x := if z > t then z else t + 1;
      assert forall y :: y in tokens ==> y == t || y in tokens - {t};
    }
  }

  lemma AfterTwo(s: State, a: Step, b: Step)
    ensures After(s, [a, b]) == Next(Next(s, a), b)
  {
    assert [a, b][..1] == [a] && [a][..0] == [];
    assert After(s, [a]) == Next(After(s, []), a);
  }

  /** A rotation under way can still mint for a dead family. */
  lemma RotationRevives(s: State, p: Id, f: Id) returns (steps: seq<Step>)
    requires Fine(s) && p in s.calls && s.calls[p].familyId == f && !s.calls[p].Reused?
    ensures !Dead(After(s, steps).tokens, f)
  {
    var next := NewValue(s.tokens.Keys);
    assert next !in s.tokens;
    var mint := Mint(p, next, 0);
    if s.calls[p].Minting? {
      steps := [mint];
      assert [mint][..0] == [];
      assert Live(Next(s, mint).tokens, next);
    } else {
      assert CallFine(s.tokens, s.calls[p]);
      steps := [Save(p, 0), mint];
      var saved := Next(s, Save(p, 0));
      AfterTwo(s, Save(p, 0), mint);
      assert Live(Next(saved, mint).tokens, next);
    }
  }

  /** A dead family is dead for good, whatever comes, exactly if no rotation of it is under way past its checks. */
  lemma DeadForeverIff(s: State, f: Id)
    requires Fine(s) && Dead(s.tokens, f)
    ensures (forall steps :: Dead(After(s, steps).tokens, f)) <==> Quiet(s, f)
  {
    if Quiet(s, f) {
      forall steps ensures Dead(After(s, steps).tokens, f) {
        QuietStaysQuiet(s, steps, f);
      }
    } else {
      var p :| p in s.calls && s.calls[p].familyId == f && !s.calls[p].Reused?;
      var steps := RotationRevives(s, p, f);
      assert !Dead(After(s, steps).tokens, f);
    }
  }
}
