/**
 Refresh-token families: a session starts a family, each refresh revokes the presented token
 and mints the next one of the family, and presenting a revoked token revokes the whole family.

 Rows are keyed by token digest (SHA-256 is taken to be injective, so the digest stands for the
 raw token). Calls are serial, but a rotation may fail after revoking and before minting.
 */
module RefreshTokens {
  import opened Forest

  datatype Token = Token(userId: Id, familyId: Id, expiresAt: int, revokedAt: Option<int>)

  type Tokens = map<Id, Token>

  datatype Op =
    | Issue(userId: Id, raw: Id, familyId: Id, now: int)
    | Rotate(raw: Id, next: Id, now: int, mintFails: bool)
    | Revoke(raw: Id, now: int)

  datatype Outcome =
    | Issued(raw: Id) | Rotated(userId: Id, raw: Id) | Invalid | ReuseDetected | Expired | MintFailed | Done

  predicate Live(tokens: Tokens, x: Id) {
    x in tokens && tokens[x].revokedAt.None?
  }

  /** UPDATE ... SET revoked_at WHERE family_id = f AND revoked_at IS NULL */
  function RevokedFamily(tokens: Tokens, f: Id, now: int): Tokens {
    map x | x in tokens ::
      if tokens[x].familyId == f && tokens[x].revokedAt.None? then tokens[x].(revokedAt := Some(now)) else tokens[x]
  }

  function RotateSpec(ttl: nat, tokens: Tokens, op: Op): (Tokens, Outcome)
    requires op.Rotate?
  {
    if op.raw !in tokens then (tokens, Invalid)
    else
      var current := tokens[op.raw];
      if current.revokedAt.Some? then (RevokedFamily(tokens, current.familyId, op.now), ReuseDetected)
      else if current.expiresAt < op.now then (tokens, Expired)
      else
        var revoked := tokens[op.raw := current.(revokedAt := Some(op.now))];
        if op.mintFails then (revoked, MintFailed)
        else (revoked[op.next := Token(current.userId, current.familyId, op.now + ttl, None)],
              Rotated(current.userId, op.next))
  }

  function Apply(ttl: nat, tokens: Tokens, op: Op): (Tokens, Outcome) {
    match op
    case Issue(u, raw, f, now) => (tokens[raw := Token(u, f, now + ttl, None)], Issued(raw))
    case Rotate(_, _, _, _) => RotateSpec(ttl, tokens, op)
    case Revoke(raw, now) =>
      (if Live(tokens, raw) then tokens[raw := tokens[raw].(revokedAt := Some(now))] else tokens, Done)
  }

  /** Random values: a new token or family id is one never seen before. */
  ghost predicate Fresh(tokens: Tokens, op: Op) {
    match op
    case Issue(_, raw, f, _) => raw !in tokens && forall x :: x in tokens ==> tokens[x].familyId != f
    case Rotate(_, next, _, _) => next !in tokens
    case Revoke(_, _) => true
  }

  /** Ops that happen in order from an empty table; each brings fresh values. */
  ghost predicate IsRun(ttl: nat, ops: seq<Op>)
    decreases |ops|
  {
    ops == [] || (IsRun(ttl, ops[..|ops| - 1]) && Fresh(Run(ttl, ops[..|ops| - 1]), ops[|ops| - 1]))
  }

  ghost function Run(ttl: nat, ops: seq<Op>): Tokens
    decreases |ops|
  {
    if ops == [] then map[] else Apply(ttl, Run(ttl, ops[..|ops| - 1]), ops[|ops| - 1]).0
  }

  // ---------------------------------------------------------------------------
  // What every step keeps

  ghost predicate OneUserPerFamily(tokens: Tokens) {
    forall x, y :: x in tokens && y in tokens && tokens[x].familyId == tokens[y].familyId ==>
      tokens[x].userId == tokens[y].userId
  }

  ghost predicate OneLivePerFamily(tokens: Tokens) {
    forall x, y :: Live(tokens, x) && Live(tokens, y) && tokens[x].familyId == tokens[y].familyId ==> x == y
  }

  /** The family exists and none of its tokens can be rotated any more. */
  ghost predicate Dead(tokens: Tokens, f: Id) {
    && (exists x :: x in tokens && tokens[x].familyId == f)
    && (forall x :: Live(tokens, x) ==> tokens[x].familyId != f)
  }

  /** Rows are never removed, keep their owner, family and expiry, and once revoked keep that stamp. */
  ghost predicate OnlyRevokes(before: Tokens, after: Tokens) {
    forall x :: x in before ==>
      && x in after && after[x].userId == before[x].userId && after[x].familyId == before[x].familyId
      && after[x].expiresAt == before[x].expiresAt
      && (before[x].revokedAt.Some? ==> after[x].revokedAt == before[x].revokedAt)
  }

  lemma RevokingKeeps(before: Tokens, after: Tokens)
    requires OneUserPerFamily(before) && OneLivePerFamily(before)
    requires OnlyRevokes(before, after) && after.Keys == before.Keys && forall x :: Live(after, x) ==> Live(before, x)
    ensures OneUserPerFamily(after) && OneLivePerFamily(after)
  {
  }

  /** Minting is safe in a family that has no unrevoked token. */
  lemma MintingKeeps(tokens: Tokens, raw: Id, row: Token)
    requires OneUserPerFamily(tokens) && OneLivePerFamily(tokens) && raw !in tokens
    requires forall x :: x in tokens && tokens[x].familyId == row.familyId ==>
      tokens[x].userId == row.userId && !Live(tokens, x)
    ensures OneUserPerFamily(tokens[raw := row]) && OneLivePerFamily(tokens[raw := row])
  {
  }

  /** Revoking the live token of a family leaves the family without one, so the next may be minted. */
  lemma SuccessionKeeps(tokens: Tokens, raw: Id, next: Id, now: int, expiresAt: int)
    requires OneUserPerFamily(tokens) && OneLivePerFamily(tokens) && Live(tokens, raw) && next !in tokens
    ensures var revoked := tokens[raw := tokens[raw].(revokedAt := Some(now))];
      var minted := revoked[next := Token(tokens[raw].userId, tokens[raw].familyId, expiresAt, None)];
      && OneUserPerFamily(revoked) && OneLivePerFamily(revoked) && OnlyRevokes(tokens, revoked)
      && OneUserPerFamily(minted) && OneLivePerFamily(minted) && OnlyRevokes(tokens, minted)
  {
    var revoked := tokens[raw := tokens[raw].(revokedAt := Some(now))];
    RevokingKeeps(tokens, revoked);
    forall x | x in revoked && revoked[x].familyId == tokens[raw].familyId
      ensures revoked[x].userId == tokens[raw].userId && !Live(revoked, x)
    {
      assert Live(revoked, x) ==> Live(tokens, x);
    }
    MintingKeeps(revoked, next, Token(tokens[raw].userId, tokens[raw].familyId, expiresAt, None));
  }

  lemma ReuseKeeps(tokens: Tokens, f: Id, now: int)
    requires OneUserPerFamily(tokens) && OneLivePerFamily(tokens)
    ensures var after := RevokedFamily(tokens, f, now);
      OneUserPerFamily(after) && OneLivePerFamily(after) && OnlyRevokes(tokens, after)
  {
    RevokingKeeps(tokens, RevokedFamily(tokens, f, now));
  }

  lemma LogoutKeeps(tokens: Tokens, raw: Id, now: int)
    requires OneUserPerFamily(tokens) && OneLivePerFamily(tokens) && Live(tokens, raw)
    ensures var after := tokens[raw := tokens[raw].(revokedAt := Some(now))];
      OneUserPerFamily(after) && OneLivePerFamily(after) && OnlyRevokes(tokens, after)
  {
    RevokingKeeps(tokens, tokens[raw := tokens[raw].(revokedAt := Some(now))]);
  }

  lemma StepKeeps(ttl: nat, tokens: Tokens, op: Op)
    requires OneUserPerFamily(tokens) && OneLivePerFamily(tokens) && Fresh(tokens, op)
    ensures var tokens' := Apply(ttl, tokens, op).0;
      OneUserPerFamily(tokens') && OneLivePerFamily(tokens') && OnlyRevokes(tokens, tokens')
  {
    match op
    case Issue(u, raw, f, now) =>
      MintingKeeps(tokens, raw, Token(u, f, now + ttl, None));
    case Rotate(raw, next, now, _) =>
      if Live(tokens, raw) {
        SuccessionKeeps(tokens, raw, next, now, now + ttl);
      } else if raw in tokens {
        ReuseKeeps(tokens, tokens[raw].familyId, now);
      }
    case Revoke(raw, now) =>
      if Live(tokens, raw) {
        LogoutKeeps(tokens, raw, now);
      }
  }

  lemma StepKeepsDead(ttl: nat, tokens: Tokens, op: Op, f: Id)
    requires Fresh(tokens, op) && Dead(tokens, f)
    ensures Dead(Apply(ttl, tokens, op).0, f)
  {
    var tokens' := Apply(ttl, tokens, op).0;
    var x :| x in tokens && tokens[x].familyId == f;
    assert x in tokens' && tokens'[x].familyId == f;
  }

  /** In every reachable table each family has one user and at most one unrevoked token. */
  lemma {:induction false} RunFamilies(ttl: nat, ops: seq<Op>)
    requires IsRun(ttl, ops)
    ensures OneUserPerFamily(Run(ttl, ops)) && OneLivePerFamily(Run(ttl, ops))
    decreases |ops|
  {
    if ops != [] {
      RunFamilies(ttl, ops[..|ops| - 1]);
      StepKeeps(ttl, Run(ttl, ops[..|ops| - 1]), ops[|ops| - 1]);
    }
  }

  lemma {:induction false} RunPrefix(ttl: nat, ops: seq<Op>, i: nat)
    requires IsRun(ttl, ops) && i <= |ops|
    ensures IsRun(ttl, ops[..i])
    decreases |ops|
  {
    if i < |ops| {
      RunPrefix(ttl, ops[..|ops| - 1], i);
      assert ops[..|ops| - 1][..i] == ops[..i];
    } else {
      assert ops[..i] == ops;
    }
  }

  lemma {:induction false} RunOnlyRevokes(ttl: nat, ops: seq<Op>, i: nat)
    requires IsRun(ttl, ops) && i <= |ops|
    ensures OnlyRevokes(Run(ttl, ops[..i]), Run(ttl, ops))
    decreases |ops|
  {
    if i < |ops| {
      var init := ops[..|ops| - 1];
      RunOnlyRevokes(ttl, init, i);
      assert init[..i] == ops[..i];
      RunFamilies(ttl, init);
      StepKeeps(ttl, Run(ttl, init), ops[|ops| - 1]);
    } else {
      assert ops[..i] == ops;
    }
  }

  /** A family without an unrevoked token never gains one again. */
  lemma {:induction false} DeadStaysDead(ttl: nat, ops: seq<Op>, i: nat, f: Id)
    requires IsRun(ttl, ops) && i <= |ops| && Dead(Run(ttl, ops[..i]), f)
    ensures Dead(Run(ttl, ops), f)
    decreases |ops|
  {
    if i < |ops| {
      var init := ops[..|ops| - 1];
      assert init[..i] == ops[..i];
      DeadStaysDead(ttl, init, i, f);
      StepKeepsDead(ttl, Run(ttl, init), ops[|ops| - 1], f);
    } else {
      assert ops[..i] == ops;
    }
  }

  /** What happened at step `i` of a run. */
  ghost function OutcomeAt(ttl: nat, ops: seq<Op>, i: nat): Outcome
    requires i < |ops|
  {
    Apply(ttl, Run(ttl, ops[..i]), ops[i]).1
  }

  lemma RunStep(ttl: nat, ops: seq<Op>, i: nat)
    requires i < |ops|
    ensures Run(ttl, ops[..i + 1]) == Apply(ttl, Run(ttl, ops[..i]), ops[i]).0
  {
    assert ops[..i + 1][..i] == ops[..i];
  }

  /**
   Once a token has been presented for rotation and got past the expiry check, or been revoked
   by logout, presenting it again is detected as reuse, and from then on its family is dead.
   */
  lemma ReplayKillsFamily(ttl: nat, ops: seq<Op>, i: nat, j: nat, n: nat)
    requires IsRun(ttl, ops) && i < j < n <= |ops|
    requires ops[j].Rotate? && ops[j].raw in Run(ttl, ops[..i + 1]) && !Live(Run(ttl, ops[..i + 1]), ops[j].raw)
    ensures OutcomeAt(ttl, ops, j) == ReuseDetected
    ensures var x := ops[j].raw; x in Run(ttl, ops[..j]) && Dead(Run(ttl, ops[..n]), Run(ttl, ops[..j])[x].familyId)
  {
    var x := ops[j].raw;
    RunPrefix(ttl, ops, j);
    RunOnlyRevokes(ttl, ops[..j], i + 1);
    assert ops[..j][..i + 1] == ops[..i + 1];
    var before := Run(ttl, ops[..j]);
    RunStep(ttl, ops, j);
    var after := Run(ttl, ops[..j + 1]);
    assert x in after && after[x].familyId == before[x].familyId;
    RunPrefix(ttl, ops, n);
    assert ops[..n][..j + 1] == ops[..j + 1];
    DeadStaysDead(ttl, ops[..n], j + 1, before[x].familyId);
  }

  /** No token is rotated successfully twice. */
  lemma RotatesOnce(ttl: nat, ops: seq<Op>, i: nat, j: nat)
    requires IsRun(ttl, ops) && i < j < |ops|
    requires ops[i].Rotate? && ops[j].Rotate? && ops[i].raw == ops[j].raw
    requires OutcomeAt(ttl, ops, i).Rotated?
    ensures OutcomeAt(ttl, ops, j) == ReuseDetected
  {
    RunStep(ttl, ops, i);
    RunPrefix(ttl, ops, i + 1);
    assert ops[..i + 1][..i] == ops[..i] && ops[..i + 1][i] == ops[i];
    ReplayKillsFamily(ttl, ops, i, j, j + 1);
  }

  /** Logging out of the live token of a family ends the family. */
  lemma LogoutEndsFamily(ttl: nat, ops: seq<Op>, i: nat)
    requires IsRun(ttl, ops) && i < |ops| && ops[i].Revoke? && Live(Run(ttl, ops[..i]), ops[i].raw)
    ensures Dead(Run(ttl, ops), Run(ttl, ops[..i])[ops[i].raw].familyId)
  {
    var x := ops[i].raw;
    var before := Run(ttl, ops[..i]);
    RunPrefix(ttl, ops, i);
    RunFamilies(ttl, ops[..i]);
    RunStep(ttl, ops, i);
    assert x in Run(ttl, ops[..i + 1]);
    DeadStaysDead(ttl, ops, i + 1, before[x].familyId);
  }

  // ---------------------------------------------------------------------------
  // How long a token lives

  /** The call revokes `x`: by logout, by rotating it in time, or because a revoked token of its family is presented. */
  ghost predicate Ends(tokens: Tokens, op: Op, x: Id)
    requires x in tokens
  {
    match op
    case Issue(_, _, _, _) => false
    case Rotate(raw, _, now, _) =>
      if raw == x then now <= tokens[x].expiresAt
      else raw in tokens && tokens[raw].revokedAt.Some? && tokens[raw].familyId == tokens[x].familyId
    case Revoke(raw, _) => raw == x
  }

  lemma StepEndsIff(ttl: nat, tokens: Tokens, op: Op, x: Id)
    requires Fresh(tokens, op) && Live(tokens, x)
    ensures x in Apply(ttl, tokens, op).0 && (Live(Apply(ttl, tokens, op).0, x) <==> !Ends(tokens, op, x))
  {
  }

  /** None of the calls from `i` to before `j` revokes `x`. */
  ghost predicate NeverEnds(ttl: nat, ops: seq<Op>, i: nat, j: nat, x: Id)
    requires i <= j <= |ops|
    decreases j
  {
    i < j ==>
      var before := Run(ttl, ops[..j - 1]);
      NeverEnds(ttl, ops, i, j - 1, x) && x in before && !Ends(before, ops[j - 1], x)
  }

  /** A token that is live stays so exactly as long as no call revokes it. */
  lemma {:induction false} LiveIff(ttl: nat, ops: seq<Op>, i: nat, j: nat, x: Id)
    requires IsRun(ttl, ops) && i <= j <= |ops| && Live(Run(ttl, ops[..i]), x)
    ensures Live(Run(ttl, ops[..j]), x) <==> NeverEnds(ttl, ops, i, j, x)
    decreases j
  {
    if i < j {
      var m := j - 1;
      LiveIff(ttl, ops, i, m, x);
      RunStep(ttl, ops, m);
      RunStepIsFresh(ttl, ops, m);
      RunPrefix(ttl, ops, m);
      if Live(Run(ttl, ops[..m]), x) {
        StepEndsIff(ttl, Run(ttl, ops[..m]), ops[m], x);
      } else {
        DeadTokenStays(ttl, ops, i, m, j, x);
      }
    }
  }

  lemma RunStepIsFresh(ttl: nat, ops: seq<Op>, i: nat)
    requires IsRun(ttl, ops) && i < |ops|
    ensures Fresh(Run(ttl, ops[..i]), ops[i])
  {
    RunPrefix(ttl, ops, i + 1);
    assert ops[..i + 1][..i] == ops[..i];
  }

  lemma DeadTokenStays(ttl: nat, ops: seq<Op>, i: nat, m: nat, j: nat, x: Id)
    requires IsRun(ttl, ops) && i <= m <= j <= |ops|
    requires x in Run(ttl, ops[..i]) && !Live(Run(ttl, ops[..m]), x)
    ensures !Live(Run(ttl, ops[..j]), x)
  {
    RunPrefix(ttl, ops, j);
    RunPrefix(ttl, ops, m);
    RunOnlyRevokes(ttl, ops[..m], i);
    RunOnlyRevokes(ttl, ops[..j], m);
    assert ops[..m][..i] == ops[..i] && ops[..j][..m] == ops[..m];
  }

  /** Call `i` hands out the token `x`. */
  ghost predicate HandsOut(ttl: nat, ops: seq<Op>, i: nat, x: Id)
    requires i < |ops|
  {
    OutcomeAt(ttl, ops, i) == Issued(x) || exists u :: OutcomeAt(ttl, ops, i) == Rotated(u, x)
  }

  /** A token that is handed out is live and lives for `ttl`. */
  lemma HandedOutLives(ttl: nat, ops: seq<Op>, i: nat, x: Id)
    requires IsRun(ttl, ops) && i < |ops| && HandsOut(ttl, ops, i, x)
    ensures Live(Run(ttl, ops[..i + 1]), x) && Run(ttl, ops[..i + 1])[x].expiresAt == ops[i].now + ttl
  {
    RunStep(ttl, ops, i);
  }

  /**
   A token handed out at some time rotates, as long as no call has revoked it, exactly until `ttl`
   later (but for a mint that fails), and is answered as expired from then on.
   */
  lemma RotatesExactlyInTime(ttl: nat, ops: seq<Op>, i: nat, j: nat, x: Id)
    requires IsRun(ttl, ops) && i < j < |ops| && HandsOut(ttl, ops, i, x) && NeverEnds(ttl, ops, i + 1, j, x)
    requires ops[j].Rotate? && ops[j].raw == x
    ensures x in Run(ttl, ops[..j])
    ensures ops[j].now <= ops[i].now + ttl <==>
      OutcomeAt(ttl, ops, j) ==
        if ops[j].mintFails then MintFailed else Rotated(Run(ttl, ops[..j])[x].userId, ops[j].next)
    ensures ops[j].now > ops[i].now + ttl <==> OutcomeAt(ttl, ops, j) == Expired
  {
    HandedOutLives(ttl, ops, i, x);
    LiveIff(ttl, ops, i + 1, j, x);
    RunPrefix(ttl, ops, j);
    RunOnlyRevokes(ttl, ops[..j], i + 1);
    assert ops[..j][..i + 1] == ops[..i + 1];
  }

  // ---------------------------------------------------------------------------
  // What a call gives its caller

  /** `x` is live and the only live token of its family. */
  ghost predicate SoleLive(tokens: Tokens, x: Id) {
    && Live(tokens, x)
    && forall y :: Live(tokens, y) && tokens[y].familyId == tokens[x].familyId ==> y == x
  }

  /** Only tokens of this family may differ. */
  ghost predicate OthersStay(before: Tokens, after: Tokens, f: Id) {
    forall x :: x in before && before[x].familyId != f ==> x in after && after[x] == before[x]
  }

  /**
   The next token stands in for the presented one: same user and family, only the next is live,
   and it expires at the given time; the presented one is stamped.
   */
  ghost predicate Succeeds(before: Tokens, after: Tokens, raw: Id, next: Id, now: int, expiresAt: int)
    requires raw in before
  {
    && SoleLive(after, next) && !Live(after, raw) && Stamped(before, after, raw, now)
    && after[next].userId == before[raw].userId && after[next].familyId == before[raw].familyId
    && after[next].expiresAt == expiresAt
  }

  /** The token was revoked at `now` and is the same otherwise. */
  ghost predicate Stamped(before: Tokens, after: Tokens, x: Id, now: int)
    requires x in before
  {
    && x in after && after[x].revokedAt == Some(now)
    && after[x].userId == before[x].userId && after[x].familyId == before[x].familyId
    && after[x].expiresAt == before[x].expiresAt
  }

  /** Every live token of the family was revoked at `now`, and no other token changed. */
  ghost predicate FamilyStamped(before: Tokens, after: Tokens, f: Id, now: int) {
    && after.Keys == before.Keys
    && forall x :: x in before ==>
         if before[x].familyId == f && before[x].revokedAt == None then Stamped(before, after, x, now)
         else after[x] == before[x]
  }

  lemma RevokedIsDead(tokens: Tokens, raw: Id, now: int)
    requires OneLivePerFamily(tokens) && Live(tokens, raw)
    ensures Dead(tokens[raw := tokens[raw].(revokedAt := Some(now))], tokens[raw].familyId)
  {
    var after := tokens[raw := tokens[raw].(revokedAt := Some(now))];
    assert raw in after && after[raw].familyId == tokens[raw].familyId;
    assert forall x :: Live(after, x) ==> Live(tokens, x);
  }

  lemma MintedSucceeds(tokens: Tokens, raw: Id, next: Id, now: int, row: Token)
    requires OneLivePerFamily(tokens) && Live(tokens, raw) && next !in tokens
    requires row.revokedAt.None? && row.userId == tokens[raw].userId && row.familyId == tokens[raw].familyId
    ensures Succeeds(tokens, tokens[raw := tokens[raw].(revokedAt := Some(now))][next := row], raw, next, now,
      row.expiresAt)
  {
    var revoked := tokens[raw := tokens[raw].(revokedAt := Some(now))];
    RevokedIsDead(tokens, raw, now);
    assert forall x :: Live(revoked[next := row], x) && x != next ==> Live(revoked, x);
  }

  lemma ReusedIsDead(tokens: Tokens, raw: Id, now: int)
    requires raw in tokens
    ensures Dead(RevokedFamily(tokens, tokens[raw].familyId, now), tokens[raw].familyId)
  {
    var after := RevokedFamily(tokens, tokens[raw].familyId, now);
    assert raw in after && after[raw].familyId == tokens[raw].familyId;
  }

  /**
   What a rotation gives: a successor that lives for `ttl` exactly for a live token that is not expired
   (unless the mint fails), reuse detected exactly for a revoked one, and in every other case but
   an unknown or expired token a dead family. Other families are never touched.
   */
  ghost predicate RotateResult(ttl: nat, tokens: Tokens, after: Tokens, op: Op, r: Outcome)
    requires op.Rotate?
  {
    var inTime := Live(tokens, op.raw) && op.now <= tokens[op.raw].expiresAt;
    && (r.Rotated? <==> inTime && !op.mintFails)
    && (r == MintFailed <==> inTime && op.mintFails)
    && (r == Expired <==> Live(tokens, op.raw) && op.now > tokens[op.raw].expiresAt)
    && (r == ReuseDetected <==> op.raw in tokens && !Live(tokens, op.raw))
    && (r == Invalid <==> op.raw !in tokens)
    && (r.Rotated? ==>
          && r == Rotated(tokens[op.raw].userId, op.next)
          && Succeeds(tokens, after, op.raw, op.next, op.now, op.now + ttl))
    && (r == MintFailed ==> Stamped(tokens, after, op.raw, op.now) && Dead(after, tokens[op.raw].familyId))
    && (r == ReuseDetected ==>
          && FamilyStamped(tokens, after, tokens[op.raw].familyId, op.now)
          && Dead(after, tokens[op.raw].familyId))
    && (r == Invalid || r == Expired ==> after == tokens)
    && (op.raw in tokens ==> OthersStay(tokens, after, tokens[op.raw].familyId))
  }

  lemma RotateGives(ttl: nat, tokens: Tokens, op: Op)
    requires OneLivePerFamily(tokens) && op.Rotate? && Fresh(tokens, op)
    ensures var (after, r) := Apply(ttl, tokens, op); RotateResult(ttl, tokens, after, op, r)
  {
    if Live(tokens, op.raw) {
      var row := Token(tokens[op.raw].userId, tokens[op.raw].familyId, op.now + ttl, None);
      RevokedIsDead(tokens, op.raw, op.now);
      MintedSucceeds(tokens, op.raw, op.next, op.now, row);
    } else if op.raw in tokens {
      ReusedIsDead(tokens, op.raw, op.now);
    }
  }

  // ---------------------------------------------------------------------------
  // The service

  class RefreshTokenService {
    const ttl: nat
    var tokens: Tokens

    /** Every method keeps what `RunFamilies` promises. */
    ghost predicate Valid()
      reads this
    {
      OneUserPerFamily(tokens) && OneLivePerFamily(tokens)
    }

    constructor (ttl: nat)
      ensures Valid() && this.ttl == ttl && tokens == map[]
    {
      this.ttl := ttl;
      tokens := map[];
    }

    /** The new token is the only one of its family; no other token changes. */
    method IssueForNewSession(userId: Id, raw: Id, familyId: Id, now: int) returns (r: Outcome)
      requires Valid() && Fresh(tokens, Issue(userId, raw, familyId, now))
      modifies this
      ensures Valid() && (tokens, r) == Apply(ttl, old(tokens), Issue(userId, raw, familyId, now))
      ensures r == Issued(raw) && SoleLive(tokens, raw)
      ensures tokens[raw].userId == userId && tokens[raw].familyId == familyId && tokens[raw].expiresAt == now + ttl
      ensures OnlyRevokes(old(tokens), tokens) && OthersStay(old(tokens), tokens, familyId)
    {
      StepKeeps(ttl, tokens, Issue(userId, raw, familyId, now));
      CreateToken(userId, raw, familyId, now);
      r := Issued(raw);
    }

    /** See `RotateResult`; rows keep their user, family and revocation stamp. */
    method Rotate(raw: Id, next: Id, now: int, mintFails: bool) returns (r: Outcome)
      requires Valid() && Fresh(tokens, Op.Rotate(raw, next, now, mintFails))
      modifies this
      ensures Valid() && (tokens, r) == Apply(ttl, old(tokens), Op.Rotate(raw, next, now, mintFails))
      ensures OnlyRevokes(old(tokens), tokens)
      ensures RotateResult(ttl, old(tokens), tokens, Op.Rotate(raw, next, now, mintFails), r)
    {
      StepKeeps(ttl, tokens, Op.Rotate(raw, next, now, mintFails));
      RotateGives(ttl, tokens, Op.Rotate(raw, next, now, mintFails));
      if raw !in tokens {
        return Invalid;
      }
      var current := tokens[raw];
      if current.revokedAt.Some? {
        RevokeFamily(current.familyId, now);
        return ReuseDetected;
      }
      if current.expiresAt < now {
        return Expired;
      }
      current := current.(revokedAt := Some(now));
      tokens := tokens[raw := current];
      if mintFails {
        return MintFailed;
      }
      CreateToken(current.userId, next, current.familyId, now);
      return Rotated(current.userId, next);
    }

    /** The token is not live afterwards, and if it was, its family is dead; no other token changes. */
    method Revoke(raw: Id, now: int)
      requires Valid()
      modifies this
      ensures Valid() && tokens == Apply(ttl, old(tokens), Op.Revoke(raw, now)).0
      ensures !Live(tokens, raw) && OnlyRevokes(old(tokens), tokens)
      ensures Live(old(tokens), raw) ==>
        Dead(tokens, old(tokens)[raw].familyId) && Stamped(old(tokens), tokens, raw, now)
      ensures !Live(old(tokens), raw) ==> tokens == old(tokens)
      ensures forall x :: x in old(tokens) && x != raw ==> x in tokens && tokens[x] == old(tokens)[x]
    {
      StepKeeps(ttl, tokens, Op.Revoke(raw, now));
      if raw in tokens && tokens[raw].revokedAt.None? {
        RevokedIsDead(tokens, raw, now);
        tokens := tokens[raw := tokens[raw].(revokedAt := Some(now))];
      }
    }

    method RevokeFamily(familyId: Id, now: int)
      modifies this
      ensures tokens == RevokedFamily(old(tokens), familyId, now)
      ensures FamilyStamped(old(tokens), tokens, familyId, now)
      ensures forall x :: Live(tokens, x) ==> tokens[x].familyId != familyId
    {
      var before, left := tokens, tokens.Keys;
      while left != {}
        invariant left <= before.Keys && tokens.Keys == before.Keys
        invariant forall x :: x in left ==> tokens[x] == before[x]
        invariant forall x :: x in before && x !in left ==> tokens[x] == RevokedFamily(before, familyId, now)[x]
      {
        var x :| x in left;
        if tokens[x].familyId == familyId && tokens[x].revokedAt.None? {
          tokens := tokens[x := tokens[x].(revokedAt := Some(now))];
        }
        left := left - {x};
      }
    }

    method CreateToken(userId: Id, raw: Id, familyId: Id, now: int)
      requires raw !in tokens
      modifies this
      ensures tokens == old(tokens)[raw := Token(userId, familyId, now + ttl, None)]
    {
      tokens := tokens[raw := Token(userId, familyId, now + ttl, None)];
    }
  }
}
