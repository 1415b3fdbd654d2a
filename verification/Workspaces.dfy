/**
 Workspaces, memberships and invitations over their tables and the membership cache, with each
 service call one atomic step. (`MembershipCache` treats the cache step by step.)

 UNIQUE (workspace_id, user_id) makes that pair the key of a membership. The member calls take the
 texts of the two ids: the tables go by their values, the cache and the test for the owner by text. An invitation row is
 keyed by its token, which is as unique as its id.
 */
module Workspaces {
  import opened Forest
  import opened MembershipCache
  import opened Slugs

  const INVITE_TTL_MS: int := 7 * 24 * 60 * 60 * 1000

  datatype Workspace = Workspace(name: string, slug: string, ownerId: Id)

  datatype InvitationStatus = PENDING | ACCEPTED | EXPIRED | REVOKED

  datatype Invitation = Invitation(
    workspaceId: Id,
    email: string,
    role: Role,
    status: InvitationStatus,
    invitedBy: Id,
    expiresAt: int)

  datatype Db = Db(
    workspaces: map<Id, Workspace>,
    members: map<Key, Role>,
    invitations: map<Id, Invitation>,
    cache: map<TextKey, Entry>,
    users: map<Id, string>)

  datatype Error =
    | SlugTaken | WorkspaceNotFound | OwnerFixed | MemberNotFound | AlreadyMember | AlreadyInvited
    | InvitationNotFound | InvitationExpired | WrongEmail | NotPending | EmailTaken

  datatype Outcome = Done | Membership(role: Option<Role>) | Fail(error: Error)

  datatype Op =
    | CreateWorkspace(ownerId: Id, name: string, slug: Option<string>, id: Id)
    | SignUp(user: Id, address: string)
    | GetMembership(key: TextKey, now: int)
    | UpdateMemberRole(key: TextKey, role: Role)
    | RemoveMember(key: TextKey)
    | Invite(workspaceId: Id, inviterId: Id, email: string, asked: Option<Role>, token: Id, now: int)
    | Accept(userId: Id, userEmail: string, token: Id, now: int)
    | RevokeInvitation(workspaceId: Id, token: Id)

  /** How text is compared: `toLowerCase` of the runtime, and the folding under which `citext` columns are equal. */
  datatype Text = Text(lower: string -> string, fold: string -> string)

  predicate IsPendingFor(text: Text, inv: Invitation, workspaceId: Id, email: string) {
    inv.workspaceId == workspaceId && text.fold(inv.email) == text.fold(email) && inv.status == PENDING
  }

  predicate NonePending(text: Text, invitations: map<Id, Invitation>, workspaceId: Id, email: string) {
    forall i :: i in invitations ==> !IsPendingFor(text, invitations[i], workspaceId, email)
  }

  predicate SlugInUse(workspaces: map<Id, Workspace>, slug: string) {
    exists w :: w in workspaces && workspaces[w].slug == slug
  }

  /** Pending, not expired, and to this address. */
  predicate Acceptable(text: Text, inv: Invitation, userEmail: string, now: int) {
    inv.status == PENDING && now <= inv.expiresAt && text.lower(inv.email) == text.lower(userEmail)
  }

  // ---------------------------------------------------------------------------
  // What each call does

  /** The check that updating and removing a member share. The owner is recognised by the text of the id. */
  function MemberFails(db: Db, key: TextKey): Option<Error> {
    if key.workspaceId.id !in db.workspaces then Some(WorkspaceNotFound)
    else if Stored(db.workspaces[key.workspaceId.id].ownerId) == key.userId then Some(OwnerFixed)
    else if key.Value() !in db.members then Some(MemberNotFound)
    else None
  }

  /** The user, of whom there is at most one. */
  predicate HasAddress(text: Text, users: map<Id, string>, u: Id, email: string) {
    u in users && text.fold(users[u]) == text.fold(email)
  }

  predicate AddressOfMember(text: Text, db: Db, workspaceId: Id, email: string) {
    exists u :: u in db.users && HasAddress(text, db.users, u, email) && Key(workspaceId, u) in db.members
  }

  function InviteFails(text: Text, db: Db, op: Op): Option<Error>
    requires op.Invite?
  {
    if op.workspaceId !in db.workspaces then Some(WorkspaceNotFound)
    else if AddressOfMember(text, db, op.workspaceId, op.email) then Some(AlreadyMember)
    else if !NonePending(text, db.invitations, op.workspaceId, op.email) then Some(AlreadyInvited)
    else None
  }

  function AcceptSpec(text: Text, db: Db, op: Op): (Db, Outcome)
    requires op.Accept?
  {
    if op.token !in db.invitations || db.invitations[op.token].status != PENDING then (db, Fail(InvitationNotFound))
    else
      var inv := db.invitations[op.token];
      if inv.expiresAt < op.now then
        (db.(invitations := db.invitations[op.token := inv.(status := EXPIRED)]), Fail(InvitationExpired))
      else if text.lower(inv.email) != text.lower(op.userEmail) then (db, Fail(WrongEmail))
      else
        var key := Key(inv.workspaceId, op.userId);
        var members := if key in db.members then db.members else db.members[key := inv.role];
        (db.(members := members, invitations := db.invitations[op.token := inv.(status := ACCEPTED)]),
         Membership(Some(members[key])))
  }

  function Apply(text: Text, db: Db, op: Op): (Db, Outcome) {
    match op
    case CreateWorkspace(ownerId, name, slug, id) =>
      var s := Slugify(text.lower, slug.GetOr(name));
      if SlugInUse(db.workspaces, s) then (db, Fail(SlugTaken))
      else (db.(workspaces := db.workspaces[id := Workspace(name, s, ownerId)],
                members := db.members[Key(id, ownerId) := ADMIN]), Done)
    case SignUp(user, address) =>
      if exists u :: u in db.users && HasAddress(text, db.users, u, address) then (db, Fail(EmailTaken))
      else (db.(users := db.users[user := address]), Done)
    case GetMembership(key, now) =>
      if key in db.cache && now <= db.cache[key].expiresAt then (db, Membership(Some(db.cache[key].role)))
      else if key.Value() in db.members then
        (db.(cache := db.cache[key := Entry(db.members[key.Value()], now + MEMBERSHIP_TTL_MS)]),
         Membership(Some(db.members[key.Value()])))
      else (db, Membership(None))
    case UpdateMemberRole(key, role) =>
      (match MemberFails(db, key)
       case Some(e) => (db, Fail(e))
       case None => (db.(members := db.members[key.Value() := role], cache := db.cache - {key}),
         Membership(Some(role))))
    case RemoveMember(key) =>
      (match MemberFails(db, key)
       case Some(e) => (db, Fail(e))
       case None => (db.(members := db.members - {key.Value()}, cache := db.cache - {key}), Done))
    case Invite(ws, inviter, email, asked, token, now) =>
      (match InviteFails(text, db, op)
       case Some(e) => (db, Fail(e))
       case None =>
         (db.(invitations := db.invitations[token :=
            Invitation(ws, email, asked.GetOr(MEMBER), PENDING, inviter, now + INVITE_TTL_MS)]), Done))
    case Accept(_, _, _, _) => AcceptSpec(text, db, op)
    case RevokeInvitation(ws, token) =>
      if token !in db.invitations || db.invitations[token].workspaceId != ws then (db, Fail(InvitationNotFound))
      else if db.invitations[token].status != PENDING then (db, Fail(NotPending))
      else (db.(invitations := db.invitations[token := db.invitations[token].(status := REVOKED)]), Done)
  }

  /** New ids and tokens are random: never one in use. */
  predicate Fresh(db: Db, op: Op) {
    match op
    case CreateWorkspace(_, _, _, id) => id !in db.workspaces
    case Invite(_, _, _, _, token, _) => token !in db.invitations
    case SignUp(user, _) => user !in db.users
    case _ => true
  }

  // ---------------------------------------------------------------------------
  // What every call keeps

  /** Rows refer to workspaces that exist (foreign keys). */
  ghost predicate References(db: Db) {
    && (forall k :: k in db.members ==> k.workspaceId in db.workspaces)
    && (forall i :: i in db.invitations ==> db.invitations[i].workspaceId in db.workspaces)
  }

  ghost predicate OwnersAreAdmins(db: Db) {
    forall w :: w in db.workspaces ==> Lookup(db.members, Key(w, db.workspaces[w].ownerId)) == Some(ADMIN)
  }

  /** Both pending, for the same workspace and folded address. */
  ghost predicate Clash(text: Text, a: Invitation, b: Invitation) {
    a.status == PENDING && IsPendingFor(text, b, a.workspaceId, a.email)
  }

  ghost predicate OnePending(text: Text, db: Db) {
    forall i, j :: i in db.invitations && j in db.invitations ==>
      Clash(text, db.invitations[i], db.invitations[j]) ==> i == j
  }

  /** Every cached role is the role in the table, expired entries included. */
  ghost predicate CacheAgrees(db: Db) {
    forall k :: k in db.cache ==> Lookup(db.members, k.Value()) == Some(db.cache[k].role)
  }

  ghost predicate SlugsCanonical(workspaces: map<Id, Workspace>) {
    && (forall w :: w in workspaces ==> IsSlug(workspaces[w].slug))
    && (forall v, w :: v in workspaces && w in workspaces && workspaces[v].slug == workspaces[w].slug ==> v == w)
  }

  /** No two users share a folded address. */
  ghost predicate AddressesUnique(text: Text, users: map<Id, string>) {
    forall u, v :: u in users && v in users && text.fold(users[u]) == text.fold(users[v]) ==> u == v
  }

  lemma NewSlugCanonical(workspaces: map<Id, Workspace>, id: Id, row: Workspace)
    requires SlugsCanonical(workspaces) && IsSlug(row.slug)
    requires forall w :: w in workspaces ==> workspaces[w].slug != row.slug
    ensures SlugsCanonical(workspaces[id := row])
  {
  }

  lemma ApplyKeepsReferences(text: Text, db: Db, op: Op)
    requires References(db)
    ensures References(Apply(text, db, op).0)
  {
  }

  lemma ApplyKeepsAddresses(text: Text, db: Db, op: Op)
    requires AddressesUnique(text, db.users) && Fresh(db, op)
    ensures AddressesUnique(text, Apply(text, db, op).0.users)
  {
    if op.SignUp? {
      assert forall u :: u in db.users && text.fold(db.users[u]) == text.fold(op.address) ==>
        HasAddress(text, db.users, u, op.address);
    }
  }

  /** A pending invitation is the only one for its workspace and address. */
  lemma OnlyPending(text: Text, db: Db, token: Id)
    requires OnePending(text, db) && token in db.invitations && db.invitations[token].status == PENDING
    ensures var inv := db.invitations[token];
      forall i :: i in db.invitations && IsPendingFor(text, db.invitations[i], inv.workspaceId, inv.email) ==>
        i == token
  {
    var inv := db.invitations[token];
    forall i | i in db.invitations && IsPendingFor(text, db.invitations[i], inv.workspaceId, inv.email)
      ensures i == token
    {
      assert Clash(text, inv, db.invitations[i]);
    }
  }

  lemma ApplyKeepsPending(text: Text, db: Db, op: Op)
    requires OnePending(text, db) && Fresh(db, op)
    ensures OnePending(text, Apply(text, db, op).0)
  {
    var db' := Apply(text, db, op).0;
    if op.Invite? && InviteFails(text, db, op).None? {
      var inv := db'.invitations[op.token];
      forall j | j in db.invitations
        ensures !Clash(text, db.invitations[j], inv) && !Clash(text, inv, db.invitations[j])
      {
        assert !IsPendingFor(text, db.invitations[j], op.workspaceId, op.email);
      }
    }
  }

  lemma ApplyKeepsSlugs(text: Text, db: Db, op: Op)
    requires SlugsCanonical(db.workspaces)
    ensures SlugsCanonical(Apply(text, db, op).0.workspaces)
  {
    if op.CreateWorkspace? {
      var s := Slugify(text.lower, op.slug.GetOr(op.name));
      SlugifyIsSlug(text.lower, op.slug.GetOr(op.name));
      if forall w :: w in db.workspaces ==> db.workspaces[w].slug != s {
        NewSlugCanonical(db.workspaces, op.id, Workspace(op.name, s, op.ownerId));
      }
    }
  }

  /** What the tables satisfy between calls. */
  ghost predicate Consistent(text: Text, db: Db) {
    References(db) && OnePending(text, db) && SlugsCanonical(db.workspaces) && AddressesUnique(text, db.users)
  }

  lemma ApplyKeepsConsistent(text: Text, db: Db, op: Op)
    requires Consistent(text, db) && Fresh(db, op)
    ensures Consistent(text, Apply(text, db, op).0)
  {
    ApplyKeepsReferences(text, db, op);
    ApplyKeepsPending(text, db, op);
    ApplyKeepsSlugs(text, db, op);
    ApplyKeepsAddresses(text, db, op);
  }

  // ---------------------------------------------------------------------------
  // When owners stay ADMIN members and cached roles agree with the table

  predicate IsOwner(db: Db, k: Key) {
    k.workspaceId in db.workspaces && db.workspaces[k.workspaceId].ownerId == k.userId
  }

  /** Removes the owner or takes the ADMIN role away: the text of the user id is not that of the stored one. */
  ghost predicate DemotesOwner(db: Db, op: Op) {
    && (op.RemoveMember? || (op.UpdateMemberRole? && op.role != ADMIN))
    && IsOwner(db, op.key.Value()) && !op.key.userId.AsStored()
  }

  /** Changes a membership that is also cached under another text, with another role than the new one. */
  ghost predicate MissesEntry(db: Db, op: Op) {
    && (op.RemoveMember? || op.UpdateMemberRole?) && MemberFails(db, op.key).None?
    && exists k :: k in db.cache && OtherText(k, op.key) && (op.UpdateMemberRole? ==> db.cache[k].role != op.role)
  }

  predicate OtherText(j: TextKey, k: TextKey) {
    j != k && j.Value() == k.Value()
  }

  lemma OwnerStays(text: Text, db: Db, op: Op, w: Id)
    requires OwnersAreAdmins(db) && Fresh(db, op) && !DemotesOwner(db, op) && w in db.workspaces
    ensures var db' := Apply(text, db, op).0;
      && w in db'.workspaces && db'.workspaces[w] == db.workspaces[w]
      && Lookup(db'.members, Key(w, db.workspaces[w].ownerId)) == Some(ADMIN)
  {
    assert Lookup(db.members, Key(w, db.workspaces[w].ownerId)) == Some(ADMIN);
  }

  /** A call takes an owner's ADMIN membership away exactly if it demotes the owner under another text. */
  lemma StepOwnersIff(text: Text, db: Db, op: Op)
    requires OwnersAreAdmins(db) && Fresh(db, op)
    ensures OwnersAreAdmins(Apply(text, db, op).0) <==> !DemotesOwner(db, op)
  {
    var db' := Apply(text, db, op).0;
    if DemotesOwner(db, op) {
      var w := op.key.workspaceId.id;
      assert Lookup(db.members, Key(w, db.workspaces[w].ownerId)) == Some(ADMIN);
      assert w in db'.workspaces && Lookup(db'.members, Key(w, db'.workspaces[w].ownerId)) != Some(ADMIN);
    } else {
      forall w | w in db'.workspaces ensures Lookup(db'.members, Key(w, db'.workspaces[w].ownerId)) == Some(ADMIN) {
        if w in db.workspaces {
          OwnerStays(text, db, op, w);
        }
      }
    }
  }

  lemma EntryStays(text: Text, db: Db, op: Op, k: TextKey)
    requires CacheAgrees(db) && References(db) && Fresh(db, op) && !MissesEntry(db, op)
    requires k in Apply(text, db, op).0.cache
    ensures var db' := Apply(text, db, op).0; Lookup(db'.members, k.Value()) == Some(db'.cache[k].role)
  {
    assert k in db.cache ==> Lookup(db.members, k.Value()) == Some(db.cache[k].role);
    assert (op.RemoveMember? || op.UpdateMemberRole?) && k in db.cache && k != op.key && k.Value() == op.key.Value() ==>
      OtherText(k, op.key);
  }

  /**
   A call leaves a cached role that is not the table's exactly if the membership it changes is cached
   under another text.
   */
  lemma StepCacheIff(text: Text, db: Db, op: Op)
    requires CacheAgrees(db) && References(db) && Fresh(db, op)
    ensures CacheAgrees(Apply(text, db, op).0) <==> !MissesEntry(db, op)
  {
    var db' := Apply(text, db, op).0;
    if MissesEntry(db, op) {
      var k :| k in db.cache && OtherText(k, op.key) && (op.UpdateMemberRole? ==> db.cache[k].role != op.role);
      assert k in db'.cache && Lookup(db'.members, k.Value()) != Some(db'.cache[k].role);
    } else {
      forall k | k in db'.cache ensures Lookup(db'.members, k.Value()) == Some(db'.cache[k].role) {
        EntryStays(text, db, op, k);
      }
    }
  }

  /** Both conditions, as a call from `before` to `after` meets them. */
  ghost predicate KeepsOwnersAndCache(before: Db, after: Db, op: Op) {
    && (OwnersAreAdmins(before) ==> (OwnersAreAdmins(after) <==> !DemotesOwner(before, op)))
    && (CacheAgrees(before) ==> (CacheAgrees(after) <==> !MissesEntry(before, op)))
  }

  lemma ApplyKeepsOwnersAndCache(text: Text, db: Db, op: Op)
    requires References(db) && Fresh(db, op)
    ensures KeepsOwnersAndCache(db, Apply(text, db, op).0, op)
  {
    if OwnersAreAdmins(db) {
      StepOwnersIff(text, db, op);
    }
    if CacheAgrees(db) {
      StepCacheIff(text, db, op);
    }
  }

  /** A live entry with a role the table does not have. */
  predicate ServesStale(db: Db, key: TextKey, now: int) {
    key in db.cache && now <= db.cache[key].expiresAt && Lookup(db.members, key.Value()) != Some(db.cache[key].role)
  }

  /** A lookup answers what the table says exactly unless it is served such an entry. */
  lemma LookupExactIff(text: Text, db: Db, key: TextKey, now: int)
    ensures Apply(text, db, GetMembership(key, now)).1 == Membership(Lookup(db.members, key.Value())) <==>
      !ServesStale(db, key, now)
    ensures CacheAgrees(db) ==> !ServesStale(db, key, now)
  {
  }

  /** The lookup as steps of `MembershipCache` with no other step in between. */
  function LookupSteps(s: State, pid: Id, key: TextKey): State {
    MembershipCache.Next(MembershipCache.Next(MembershipCache.Next(s, Get(pid, key)), Find(pid)), Set(pid))
  }

  /** A change of role, or a removal, as steps. */
  function ChangeSteps(s: State, pid: Id, key: TextKey, role: Option<Role>): State {
    MembershipCache.Next(MembershipCache.Next(s, Save(pid, key, role)), Del(pid))
  }

  /** Taken alone the steps of a lookup amount to the atomic call. */
  lemma AloneIsLookup(text: Text, db: Db, s: State, pid: Id, key: TextKey)
    requires s.table == db.members && s.cache == db.cache && Idle(s, pid)
    ensures LookupSteps(s, pid, key).cache == Apply(text, db, GetMembership(key, s.now)).0.cache
    ensures LookupSteps(s, pid, key).table == db.members
  {
    if !Served(s, key) {
      var missed := MembershipCache.Next(s, Get(pid, key));
      assert missed == s.(readers := s.readers[pid := Missed(key)]);
    }
  }

  /** And so do those of a change of role or a removal. */
  lemma AloneIsChange(text: Text, db: Db, s: State, pid: Id, key: TextKey, role: Option<Role>)
    requires s.table == db.members && s.cache == db.cache && Idle(s, pid) && MemberFails(db, key).None?
    ensures var op := if role.Some? then UpdateMemberRole(key, role.value) else RemoveMember(key);
      var db', s' := Apply(text, db, op).0, ChangeSteps(s, pid, key, role);
      s'.table == db'.members && s'.cache == db'.cache
  {
    var saved := MembershipCache.Next(s, Save(pid, key, role));
    assert saved.writers == s.writers[pid := key];
  }

  /** An owner named in another spelling is removed like any other member. */
  lemma OwnerCanBeRemoved(text: Text, db: Db, key: TextKey)
    requires OwnersAreAdmins(db) && IsOwner(db, key.Value()) && !key.userId.AsStored()
    ensures var (db', r) := Apply(text, db, RemoveMember(key)); r == Done && key.Value() !in db'.members
  {
    assert Lookup(db.members, Key(key.workspaceId.id, db.workspaces[key.workspaceId.id].ownerId)) == Some(ADMIN);
  }

  /**
   A role looked up under one text and then changed under another is served on under the first until
   the entry expires.
   */
  lemma ChangeCanMissEntry(text: Text, db: Db, j: TextKey, k: TextKey, role: Role, now: int, later: int)
    requires OtherText(j, k) && MemberFails(db, k).None? && j !in db.cache && db.members[k.Value()] != role
    requires now <= later <= now + MEMBERSHIP_TTL_MS
    ensures var seen := Apply(text, db, GetMembership(j, now)).0;
      var changed := Apply(text, seen, UpdateMemberRole(k, role)).0;
      && Lookup(changed.members, j.Value()) == Some(role)
      && Apply(text, changed, GetMembership(j, later)).1 == Membership(Some(db.members[j.Value()]))
  {
    var seen := Apply(text, db, GetMembership(j, now)).0;
    assert seen == db.(cache := db.cache[j := Entry(db.members[j.Value()], now + MEMBERSHIP_TTL_MS)]);
    assert MemberFails(seen, k).None?;
    var changed := Apply(text, seen, UpdateMemberRole(k, role)).0;
    assert j in changed.cache && changed.cache[j] == seen.cache[j];
  }

  // ---------------------------------------------------------------------------
  // What a call gives its caller

  /**
   A workspace with the name, slug and owner given, the owner as only member, and a slug no other
   has; the other workspaces and members are as before.
   */
  ghost predicate NewWorkspace(before: Db, after: Db, id: Id, name: string, slug: string, ownerId: Id) {
    && after == before.(workspaces := after.workspaces, members := after.members)
    && after.workspaces.Keys == before.workspaces.Keys + {id}
    && after.workspaces[id] == Workspace(name, slug, ownerId) && IsSlug(slug)
    && (forall w :: w in before.workspaces ==>
          after.workspaces[w] == before.workspaces[w] && after.workspaces[w].slug != slug)
    && (forall u :: Lookup(after.members, Key(id, u)) == if u == ownerId then Some(ADMIN) else None)
    && (forall k: Key :: k.workspaceId != id ==> Lookup(after.members, k) == Lookup(before.members, k))
  }

  /** The slug is made from the one asked for, or from the name. */
  ghost function SlugFor(text: Text, op: Op): string
    requires op.CreateWorkspace?
  {
    if op.slug.Some? then Slugify(text.lower, op.slug.value) else Slugify(text.lower, op.name)
  }

  /** What a creation gives: such a workspace exactly if its slug is not taken, else a failure without effect. */
  ghost predicate CreateResult(text: Text, before: Db, after: Db, op: Op, r: Outcome)
    requires op.CreateWorkspace?
  {
    && (r == Done <==> forall w :: w in before.workspaces ==> before.workspaces[w].slug != SlugFor(text, op))
    && (r == Done || r == Fail(SlugTaken))
    && if r == Done then NewWorkspace(before, after, op.id, op.name, SlugFor(text, op), op.ownerId) else after == before
  }

  lemma CreateGives(text: Text, db: Db, op: Op)
    requires References(db) && op.CreateWorkspace? && Fresh(db, op)
    ensures var (db', r) := Apply(text, db, op); CreateResult(text, db, db', op, r)
  {
    SlugifyIsSlug(text.lower, op.slug.GetOr(op.name));
    SlugIsFree(db.workspaces, SlugFor(text, op));
    OwnerIsOnlyMember(db, op.id, op.ownerId);
  }

  lemma SlugIsFree(workspaces: map<Id, Workspace>, slug: string)
    ensures !SlugInUse(workspaces, slug) <==> forall w :: w in workspaces ==> workspaces[w].slug != slug
  {
  }

  lemma OwnerIsOnlyMember(db: Db, id: Id, ownerId: Id)
    requires References(db) && id !in db.workspaces
    ensures var members := db.members[Key(id, ownerId) := ADMIN];
      && (forall u :: Lookup(members, Key(id, u)) == if u == ownerId then Some(ADMIN) else None)
      && (forall k: Key :: k.workspaceId != id ==> Lookup(members, k) == Lookup(db.members, k))
  {
  }

  /** Nothing but this invitation may differ. */
  ghost predicate OthersStay(before: map<Id, Invitation>, after: map<Id, Invitation>, token: Id) {
    forall i :: i != token ==> Lookup(after, i) == Lookup(before, i)
  }

  /** A pending invitation of the workspace to this address, whatever its case. */
  ghost predicate Waits(text: Text, inv: Invitation, workspaceId: Id, email: string) {
    inv.status == PENDING && inv.workspaceId == workspaceId && text.fold(inv.email) == text.fold(email)
  }

  /** Some member of the workspace is a user with this address, whatever its case. */
  ghost predicate MemberHasAddress(text: Text, db: Db, workspaceId: Id, email: string) {
    exists u :: Key(workspaceId, u) in db.members && u in db.users && text.fold(db.users[u]) == text.fold(email)
  }

  /**
   The row an invite stores: for the address and by the inviter given, with the role asked for or
   MEMBER, for seven days.
   */
  ghost predicate StoresInvitation(inv: Invitation, op: Op)
    requires op.Invite?
  {
    && inv.workspaceId == op.workspaceId && inv.email == op.email && inv.invitedBy == op.inviterId
    && inv.role == (if op.asked.Some? then op.asked.value else MEMBER)
    && inv.status == PENDING && inv.expiresAt == op.now + 604_800_000
  }

  /**
   What an invite gives: success exactly if the workspace exists, the address is not that of a
   member and nothing is pending for it, then the new row as the only pending one for the address;
   a failure says why and has no effect.
   */
  ghost predicate InviteResult(text: Text, before: Db, after: Db, op: Op, r: Outcome)
    requires op.Invite?
  {
    var member := MemberHasAddress(text, before, op.workspaceId, op.email);
    var waiting := exists i :: i in before.invitations && Waits(text, before.invitations[i], op.workspaceId, op.email);
    && (r == Fail(WorkspaceNotFound) <==> op.workspaceId !in before.workspaces)
    && (r == Fail(AlreadyMember) <==> op.workspaceId in before.workspaces && member)
    && (r == Fail(AlreadyInvited) <==> op.workspaceId in before.workspaces && !member && waiting)
    && (r == Done <==> op.workspaceId in before.workspaces && !member && !waiting)
    && after == before.(invitations := after.invitations)
    && OthersStay(before.invitations, after.invitations, op.token)
    && (r != Done ==> after == before)
    && (r == Done ==>
          && op.token in after.invitations && StoresInvitation(after.invitations[op.token], op)
          && forall i :: i in after.invitations ==>
               (Waits(text, after.invitations[i], op.workspaceId, op.email) <==> i == op.token))
  }

  lemma SameAddress(text: Text, db: Db, workspaceId: Id, email: string)
    ensures AddressOfMember(text, db, workspaceId, email) <==> MemberHasAddress(text, db, workspaceId, email)
  {
    if u :| u in db.users && HasAddress(text, db.users, u, email) && Key(workspaceId, u) in db.members {
      assert Key(workspaceId, u) in db.members;
    }
    if u :| Key(workspaceId, u) in db.members && u in db.users && text.fold(db.users[u]) == text.fold(email) {
      assert HasAddress(text, db.users, u, email);
    }
  }

  lemma InviteGives(text: Text, db: Db, op: Op)
    requires op.Invite? && Fresh(db, op)
    ensures var (db', r) := Apply(text, db, op); InviteResult(text, db, db', op, r)
  {
    assert forall i :: i in db.invitations ==>
      (IsPendingFor(text, db.invitations[i], op.workspaceId, op.email) <==>
       Waits(text, db.invitations[i], op.workspaceId, op.email));
    SameAddress(text, db, op.workspaceId, op.email);
  }

  /**
   The caller is a member, with an earlier role if there was one, else with the one of the invitation;
   other members stay.
   */
  ghost predicate Admitted(before: map<Key, Role>, after: map<Key, Role>, key: Key, role: Role) {
    && key in after && after[key] == (if key in before then before[key] else role)
    && forall k :: k != key ==> Lookup(after, k) == Lookup(before, k)
  }

  /** The invitation gets this status and is otherwise as it was, as are the others. */
  ghost predicate GetsStatus(before: map<Id, Invitation>, after: map<Id, Invitation>, token: Id,
      status: InvitationStatus)
  {
    && OthersStay(before, after, token) && token in before && token in after
    && after[token].status == status && after[token].(status := before[token].status) == before[token]
  }

  /**
   What an acceptance gives: a membership exactly for a pending invitation that is not expired, to
   the caller's address; the invitation is then ACCEPTED, and none is pending for its workspace and
   address. An expired one becomes EXPIRED; any other failure changes nothing.
   */
  ghost predicate AcceptResult(text: Text, before: Db, after: Db, op: Op, r: Outcome)
    requires op.Accept?
  {
    var pending := op.token in before.invitations && before.invitations[op.token].status == PENDING;
    && after == before.(members := after.members, invitations := after.invitations)
    && (r == Fail(InvitationNotFound) <==> !pending)
    && (r == Fail(InvitationExpired) <==> pending && before.invitations[op.token].expiresAt < op.now)
    && (r == Fail(WrongEmail) <==>
          && pending && op.now <= before.invitations[op.token].expiresAt
          && text.lower(before.invitations[op.token].email) != text.lower(op.userEmail))
    && (r.Membership? <==>
          && pending && op.now <= before.invitations[op.token].expiresAt
          && text.lower(before.invitations[op.token].email) == text.lower(op.userEmail))
    && (r == Fail(InvitationNotFound) || r == Fail(WrongEmail) ==> after == before)
    && (r == Fail(InvitationExpired) ==>
          after.members == before.members && GetsStatus(before.invitations, after.invitations, op.token, EXPIRED))
    && (r.Membership? ==>
          var inv := before.invitations[op.token];
          && GetsStatus(before.invitations, after.invitations, op.token, ACCEPTED)
          && Admitted(before.members, after.members, Key(inv.workspaceId, op.userId), inv.role)
          && r == Membership(Some(after.members[Key(inv.workspaceId, op.userId)]))
          && forall i :: i in after.invitations ==> !Waits(text, after.invitations[i], inv.workspaceId, inv.email))
  }

  lemma AcceptGives(text: Text, db: Db, op: Op)
    requires op.Accept? && OnePending(text, db)
    ensures var (db', r) := Apply(text, db, op); AcceptResult(text, db, db', op, r)
  {
    if op.token in db.invitations && db.invitations[op.token].status == PENDING {
      OnlyWaiting(text, db, op.token);
    }
  }

  lemma OnlyWaiting(text: Text, db: Db, token: Id)
    requires OnePending(text, db) && token in db.invitations && db.invitations[token].status == PENDING
    ensures var inv := db.invitations[token];
      forall i :: i in db.invitations && i != token ==> !Waits(text, db.invitations[i], inv.workspaceId, inv.email)
  {
    OnlyPending(text, db, token);
    var inv := db.invitations[token];
    forall i | i in db.invitations && Waits(text, db.invitations[i], inv.workspaceId, inv.email) ensures i == token {
      assert IsPendingFor(text, db.invitations[i], inv.workspaceId, inv.email);
    }
  }

  /**
   What a revocation gives: REVOKED exactly for a pending invitation of the workspace, none then
   pending for its address.
   */
  ghost predicate RevokeResult(text: Text, before: Db, after: Db, op: Op, r: Outcome)
    requires op.RevokeInvitation?
  {
    var found := op.token in before.invitations && before.invitations[op.token].workspaceId == op.workspaceId;
    && after == before.(invitations := after.invitations)
    && (r == Fail(InvitationNotFound) <==> !found)
    && (r == Fail(NotPending) <==> found && before.invitations[op.token].status != PENDING)
    && (r == Done <==> found && before.invitations[op.token].status == PENDING)
    && (r != Done ==> after == before)
    && (r == Done ==>
          && GetsStatus(before.invitations, after.invitations, op.token, REVOKED)
          && forall i :: i in after.invitations ==>
               !Waits(text, after.invitations[i], op.workspaceId, before.invitations[op.token].email))
  }

  lemma RevokeGives(text: Text, db: Db, op: Op)
    requires op.RevokeInvitation? && OnePending(text, db)
    ensures var (db', r) := Apply(text, db, op); RevokeResult(text, db, db', op, r)
  {
    if op.token in db.invitations && db.invitations[op.token].status == PENDING {
      OnlyWaiting(text, db, op.token);
    }
  }

  /**
   What changing or removing a member gives: it is refused exactly in these cases, and otherwise only
   this member changes.
   */
  ghost predicate MemberResult(before: Db, after: Db, key: TextKey, role: Option<Role>, r: Outcome) {
    var found := key.workspaceId.id in before.workspaces;
    var owner := found && key.userId == Stored(before.workspaces[key.workspaceId.id].ownerId);
    && (r == Fail(WorkspaceNotFound) <==> !found)
    && (r == Fail(OwnerFixed) <==> owner)
    && (r == Fail(MemberNotFound) <==> found && !owner && key.Value() !in before.members)
    && (!r.Fail? <==> found && !owner && key.Value() in before.members)
    && (r.Fail? ==> after == before)
    && (!r.Fail? ==>
          && after == before.(members := after.members, cache := after.cache)
          && r == (if role.Some? then Membership(role) else Done)
          && Lookup(after.members, key.Value()) == role
          && (forall k :: k != key.Value() ==> Lookup(after.members, k) == Lookup(before.members, k))
          && key !in after.cache && (forall k :: k != key ==> Lookup(after.cache, k) == Lookup(before.cache, k)))
  }

  lemma MemberGives(text: Text, db: Db, op: Op)
    requires op.UpdateMemberRole? || op.RemoveMember?
    ensures var (db', r) := Apply(text, db, op);
      MemberResult(db, db', op.key, if op.UpdateMemberRole? then Some(op.role) else None, r)
  {
  }

  /**
   What a lookup gives: a live entry's role, else the table's, which it caches for 30 seconds; absence
   is not cached.
   */
  ghost predicate LookupResult(before: Db, after: Db, key: TextKey, now: int, r: Outcome) {
    var served := key in before.cache && now <= before.cache[key].expiresAt;
    && after == before.(cache := after.cache)
    && (served ==> r == Membership(Some(before.cache[key].role)) && after == before)
    && (!served ==> r == Membership(Lookup(before.members, key.Value())))
    && (!served && key.Value() !in before.members ==> after == before)
    && (!served && key.Value() in before.members ==>
          && Lookup(after.cache, key) == Some(Entry(before.members[key.Value()], now + 30_000))
          && forall k :: k != key ==> Lookup(after.cache, k) == Lookup(before.cache, k))
  }

  lemma LookupGives(text: Text, db: Db, key: TextKey, now: int)
    ensures var (db', r) := Apply(text, db, GetMembership(key, now)); LookupResult(db, db', key, now, r)
  {
  }

  /** Invitations are never removed; one that is no longer PENDING never changes again. */
  ghost predicate InvitationsAdvance(before: Db, after: Db) {
    forall i :: i in before.invitations ==>
      && i in after.invitations
      && after.invitations[i].(status := before.invitations[i].status) == before.invitations[i]
      && (before.invitations[i].status != PENDING ==> after.invitations[i] == before.invitations[i])
  }

  lemma InvitationStays(text: Text, db: Db, op: Op, i: Id)
    requires Fresh(db, op) && i in db.invitations
    ensures var after := Apply(text, db, op).0.invitations;
      && i in after && after[i].(status := db.invitations[i].status) == db.invitations[i]
      && (db.invitations[i].status != PENDING ==> after[i] == db.invitations[i])
  {
    var after := Apply(text, db, op).0.invitations;
    if !op.Invite? && !op.Accept? && !op.RevokeInvitation? {
      assert after == db.invitations;
    } else {
      assert i != op.token ==> after[i] == db.invitations[i];
    }
  }

  lemma ApplyAdvances(text: Text, db: Db, op: Op)
    requires Fresh(db, op)
    ensures InvitationsAdvance(db, Apply(text, db, op).0)
  {
    forall i | i in db.invitations {
      InvitationStays(text, db, op, i);
    }
  }

  // ---------------------------------------------------------------------------
  // Where memberships come from

  /** The invitation whose acceptance created a membership, and the address it was accepted under. */
  datatype Origin = Origin(token: Id, email: string)

  datatype History = History(db: Db, origins: map<Key, Origin>)

  predicate Creates(text: Text, db: Db, op: Op) {
    && op.Accept? && AcceptSpec(text, db, op).1.Membership?
    && Key(db.invitations[op.token].workspaceId, op.userId) !in db.members
  }

  function Next(text: Text, h: History, op: Op): History {
    if !Fresh(h.db, op) then h
    else History(Apply(text, h.db, op).0,
      if Creates(text, h.db, op) then
        h.origins[Key(h.db.invitations[op.token].workspaceId, op.userId) := Origin(op.token, op.userEmail)]
      else h.origins)
  }

  /** The membership `k` stems from an accepted invitation to that workspace and that address. */
  ghost predicate FromInvitation(text: Text, h: History, k: Key) {
    && k in h.origins && h.origins[k].token in h.db.invitations
    && var inv := h.db.invitations[h.origins[k].token];
       inv.status == ACCEPTED && inv.workspaceId == k.workspaceId &&
         text.lower(inv.email) == text.lower(h.origins[k].email)
  }

  ghost predicate MembersInvited(text: Text, h: History) {
    && (forall k :: k in h.origins ==> FromInvitation(text, h, k))
    && (forall k :: k in h.db.members && !IsOwner(h.db, k) ==> k in h.origins)
    && (forall j, k :: j in h.origins && k in h.origins && h.origins[j].token == h.origins[k].token ==> j == k)
  }

  /** Later calls leave the invitation a membership came from accepted. */
  lemma OriginStays(text: Text, h: History, op: Op, k: Key)
    requires Fresh(h.db, op) && FromInvitation(text, h, k)
    ensures h.origins[k].token in Apply(text, h.db, op).0.invitations
    ensures Apply(text, h.db, op).0.invitations[h.origins[k].token] == h.db.invitations[h.origins[k].token]
  {
    InvitationStays(text, h.db, op, h.origins[k].token);
  }

  lemma OnlyAcceptAdds(text: Text, db: Db, op: Op, k: Key)
    requires References(db) && Fresh(db, op) && !Creates(text, db, op)
    requires k in Apply(text, db, op).0.members && !IsOwner(Apply(text, db, op).0, k)
    ensures k in db.members && !IsOwner(db, k)
  {
  }

  lemma CreationInvited(text: Text, h: History, op: Op)
    requires MembersInvited(text, h) && Creates(text, h.db, op)
    ensures MembersInvited(text, Next(text, h, op))
  {
    var h' := Next(text, h, op);
    forall k | k in h.origins
      ensures h.origins[k].token != op.token
      ensures h'.db.invitations[h.origins[k].token] == h.db.invitations[h.origins[k].token]
    {
      assert FromInvitation(text, h, k);
    }
  }

  lemma NextKeepsInvited(text: Text, h: History, op: Op)
    requires MembersInvited(text, h) && References(h.db)
    ensures MembersInvited(text, Next(text, h, op))
  {
    var h' := Next(text, h, op);
    if Creates(text, h.db, op) {
      CreationInvited(text, h, op);
    } else if Fresh(h.db, op) {
      forall k | k in h'.origins ensures FromInvitation(text, h', k) {
        OriginStays(text, h, op, k);
      }
      forall k | k in h'.db.members && !IsOwner(h'.db, k) ensures k in h'.origins {
        OnlyAcceptAdds(text, h.db, op, k);
      }
    }
  }

  // ---------------------------------------------------------------------------
  // Runs

  ghost predicate Good(text: Text, h: History) {
    Consistent(text, h.db) && MembersInvited(text, h)
  }

  function Run(text: Text, ops: seq<Op>): History
    decreases |ops|
  {
    if ops == [] then History(Db(map[], map[], map[], map[], map[]), map[])
    else Next(text, Run(text, ops[..|ops| - 1]), ops[|ops| - 1])
  }

  /**
   After every sequence of calls: rows refer to existing workspaces, at most one invitation is
   PENDING per workspace and folded address, slugs are canonical and unique, addresses of users
   are unique, and every membership of a non-owner was created by an accepted invitation for that
   workspace and address, a different one for each membership.
   */
  lemma {:induction false} RunGood(text: Text, ops: seq<Op>)
    ensures Good(text, Run(text, ops))
    decreases |ops|
  {
    if ops != [] {
      var h, op := Run(text, ops[..|ops| - 1]), ops[|ops| - 1];
      RunGood(text, ops[..|ops| - 1]);
      NextKeepsInvited(text, h, op);
      if Fresh(h.db, op) {
        ApplyKeepsConsistent(text, h.db, op);
      }
    }
  }

  /** The predicate holds in all states of the run. */
  ghost predicate Always(text: Text, ops: seq<Op>, good: Db -> bool)
    decreases |ops|
  {
    good(Run(text, ops).db) && (ops == [] || Always(text, ops[..|ops| - 1], good))
  }

  /** No call of the run is made in a state where it is bad. */
  ghost predicate Never(text: Text, ops: seq<Op>, bad: (Db, Op) -> bool)
    decreases |ops|
  {
    ops == [] || (Never(text, ops[..|ops| - 1], bad) && !bad(Run(text, ops[..|ops| - 1]).db, ops[|ops| - 1]))
  }

  /** What holds at first and is lost by exactly the bad calls holds throughout exactly the runs without one. */
  lemma {:induction false} RunIff(text: Text, ops: seq<Op>, good: Db -> bool, bad: (Db, Op) -> bool)
    requires good(Run(text, []).db)
    requires forall db, op :: References(db) && good(db) && Fresh(db, op) ==>
      (good(Apply(text, db, op).0) <==> !bad(db, op))
    requires forall db, op :: bad(db, op) ==> Fresh(db, op)
    ensures Always(text, ops, good) <==> Never(text, ops, bad)
    decreases |ops|
  {
    if ops != [] {
      RunIff(text, ops[..|ops| - 1], good, bad);
      RunGood(text, ops[..|ops| - 1]);
    }
  }

  /** Owners are ADMIN members throughout a run exactly if no call of it demotes one under another text. */
  lemma {:induction false} RunOwnersIff(text: Text, ops: seq<Op>)
    ensures Always(text, ops, OwnersAreAdmins) <==> Never(text, ops, DemotesOwner)
  {
    forall db, op | OwnersAreAdmins(db) && Fresh(db, op)
      ensures OwnersAreAdmins(Apply(text, db, op).0) <==> !DemotesOwner(db, op)
    {
      StepOwnersIff(text, db, op);
    }
    RunIff(text, ops, OwnersAreAdmins, DemotesOwner);
  }

  /** Cached roles agree with the table throughout a run exactly if no call of it misses an entry under another text. */
  lemma {:induction false} RunCacheIff(text: Text, ops: seq<Op>)
    ensures Always(text, ops, CacheAgrees) <==> Never(text, ops, MissesEntry)
  {
    forall db, op | CacheAgrees(db) && References(db) && Fresh(db, op)
      ensures CacheAgrees(Apply(text, db, op).0) <==> !MissesEntry(db, op)
    {
      StepCacheIff(text, db, op);
    }
    RunIff(text, ops, CacheAgrees, MissesEntry);
  }

  predicate NamesAsStored(op: Op) {
    op.GetMembership? || op.UpdateMemberRole? || op.RemoveMember? ==> op.key.AsStored()
  }

  ghost predicate CachedAsStored(db: Db) {
    forall k :: k in db.cache ==> k.AsStored()
  }

  /** With ids written as the database prints them both hold after every sequence of calls. */
  lemma {:induction false} StoredTextsKeepOwnersAndCache(text: Text, ops: seq<Op>)
    requires forall op :: op in ops ==> NamesAsStored(op)
    ensures var db := Run(text, ops).db; OwnersAreAdmins(db) && CacheAgrees(db) && CachedAsStored(db)
    decreases |ops|
  {
    if ops != [] {
      var db, op := Run(text, ops[..|ops| - 1]).db, ops[|ops| - 1];
      StoredTextsKeepOwnersAndCache(text, ops[..|ops| - 1]);
      assert op in ops;
      RunGood(text, ops[..|ops| - 1]);
      if Fresh(db, op) {
        StoredTextStep(text, db, op);
      }
    }
  }

  lemma StoredTextStep(text: Text, db: Db, op: Op)
    requires References(db) && Fresh(db, op) && NamesAsStored(op)
    requires OwnersAreAdmins(db) && CacheAgrees(db) && CachedAsStored(db)
    ensures var db' := Apply(text, db, op).0; OwnersAreAdmins(db') && CacheAgrees(db') && CachedAsStored(db')
  {
    StepOwnersIff(text, db, op);
    NoOtherText(db, op);
    StepCacheIff(text, db, op);
    CachedTextsStay(text, db, op);
  }

  lemma NoOtherText(db: Db, op: Op)
    requires NamesAsStored(op) && CachedAsStored(db)
    ensures !MissesEntry(db, op)
  {
  }

  lemma CachedTextsStay(text: Text, db: Db, op: Op)
    requires NamesAsStored(op) && CachedAsStored(db)
    ensures CachedAsStored(Apply(text, db, op).0)
  {
  }

  /** ACCEPTED, EXPIRED and REVOKED are final: over a run such an invitation keeps its whole row. */
  lemma {:induction false} RunAdvances(text: Text, ops: seq<Op>, n: nat)
    requires n <= |ops|
    ensures InvitationsAdvance(Run(text, ops[..n]).db, Run(text, ops).db)
    decreases |ops|
  {
    if n == |ops| {
      assert ops[..n] == ops;
    } else {
      var init := ops[..|ops| - 1];
      RunAdvances(text, init, n);
      assert init[..n] == ops[..n];
      var h := Run(text, init);
      if Fresh(h.db, ops[|ops| - 1]) {
        ApplyAdvances(text, h.db, ops[|ops| - 1]);
      }
    }
  }

  /** Every member who is not the owner has the role of the invitation that brought them in. */
  ghost predicate RolesAsInvited(h: History) {
    forall k :: k in h.db.members && !IsOwner(h.db, k) ==>
      && k in h.origins && h.origins[k].token in h.db.invitations
      && h.db.members[k] == h.db.invitations[h.origins[k].token].role
  }

  lemma RoleStays(text: Text, db: Db, op: Op, k: Key)
    requires References(db) && Fresh(db, op) && !Creates(text, db, op) && !op.UpdateMemberRole?
    requires k in Apply(text, db, op).0.members && !IsOwner(Apply(text, db, op).0, k)
    ensures k in db.members && Apply(text, db, op).0.members[k] == db.members[k]
  {
    OnlyAcceptAdds(text, db, op, k);
  }

  lemma CreationGivesRole(text: Text, h: History, op: Op, k: Key)
    requires RolesAsInvited(h) && Creates(text, h.db, op)
    requires k in Next(text, h, op).db.members && !IsOwner(h.db, k)
    ensures var h' := Next(text, h, op);
      && k in h'.origins && h'.origins[k].token in h'.db.invitations
      && h'.db.members[k] == h'.db.invitations[h'.origins[k].token].role
  {
  }

  lemma NextKeepsRoles(text: Text, h: History, op: Op)
    requires References(h.db) && RolesAsInvited(h) && !op.UpdateMemberRole?
    ensures RolesAsInvited(Next(text, h, op))
  {
    var h' := Next(text, h, op);
    if Fresh(h.db, op) {
      forall k | k in h'.db.members && !IsOwner(h'.db, k)
        ensures k in h'.origins && h'.origins[k].token in h'.db.invitations
        ensures h'.db.members[k] == h'.db.invitations[h'.origins[k].token].role
      {
        if Creates(text, h.db, op) {
          CreationGivesRole(text, h, op, k);
        } else {
          OnlyAcceptAdds(text, h.db, op, k);
          RoleStays(text, h.db, op, k);
          InvitationStays(text, h.db, op, h.origins[k].token);
        }
      }
    }
  }

  /** As long as no role is changed explicitly, invitations alone decide who has which role. */
  lemma {:induction false} RunRolesAsInvited(text: Text, ops: seq<Op>)
    requires forall op :: op in ops ==> !op.UpdateMemberRole?
    ensures RolesAsInvited(Run(text, ops))
    decreases |ops|
  {
    if ops != [] {
      RunRolesAsInvited(text, ops[..|ops| - 1]);
      RunGood(text, ops[..|ops| - 1]);
      assert ops[|ops| - 1] in ops;
      NextKeepsRoles(text, Run(text, ops[..|ops| - 1]), ops[|ops| - 1]);
    }
  }

  // ---------------------------------------------------------------------------
  // Roles as asked for

  /** Call `i` of the run asked for this invitation. */
  ghost predicate AskedBy(ops: seq<Op>, i: nat, token: Id, inv: Invitation)
    requires i < |ops|
  {
    && ops[i].Invite? && ops[i].token == token && ops[i].workspaceId == inv.workspaceId && ops[i].email == inv.email
    && inv.role == if ops[i].asked.Some? then ops[i].asked.value else MEMBER
  }

  ghost predicate InvitationsAsked(ops: seq<Op>, db: Db) {
    forall t :: t in db.invitations ==> exists i :: 0 <= i < |ops| && AskedBy(ops, i, t, db.invitations[t])
  }

  lemma AskedLater(ops: seq<Op>, op: Op, token: Id, inv: Invitation, later: Invitation)
    requires exists i :: 0 <= i < |ops| && AskedBy(ops, i, token, inv)
    requires later.(status := inv.status) == inv
    ensures exists i :: 0 <= i < |ops + [op]| && AskedBy(ops + [op], i, token, later)
  {
    var i :| 0 <= i < |ops| && AskedBy(ops, i, token, inv);
    assert AskedBy(ops + [op], i, token, later);
  }

  lemma NewInvitationIsInvite(text: Text, db: Db, op: Op, token: Id)
    requires Fresh(db, op) && token in Apply(text, db, op).0.invitations && token !in db.invitations
    ensures op.Invite? && op.token == token && StoresInvitation(Apply(text, db, op).0.invitations[token], op)
  {
  }

  /** Every invitation was asked for by an invite of the run, with that role or, if none was given, MEMBER. */
  lemma {:induction false} RunInvitationsAsked(text: Text, ops: seq<Op>)
    ensures InvitationsAsked(ops, Run(text, ops).db)
    decreases |ops|
  {
    if ops != [] {
      var init, op := ops[..|ops| - 1], ops[|ops| - 1];
      var db, db' := Run(text, init).db, Run(text, ops).db;
      RunInvitationsAsked(text, init);
      assert ops == init + [op];
      forall t | t in db'.invitations ensures exists i :: 0 <= i < |ops| && AskedBy(ops, i, t, db'.invitations[t]) {
        if t in db.invitations {
          if Fresh(db, op) {
            InvitationStays(text, db, op, t);
          }
          AskedLater(init, op, t, db.invitations[t], db'.invitations[t]);
        } else {
          NewInvitationIsInvite(text, db, op, t);
          assert AskedBy(ops, |ops| - 1, t, db'.invitations[t]);
        }
      }
    }
  }

  /** The role of `k` is the one that call `i` of the run asked for, or MEMBER if it asked for none. */
  ghost predicate HasRoleAsked(ops: seq<Op>, i: nat, k: Key, role: Role)
    requires i < |ops|
  {
    && ops[i].Invite? && ops[i].workspaceId == k.workspaceId
    && role == if ops[i].asked.Some? then ops[i].asked.value else MEMBER
  }

  /**
   As long as no role is changed explicitly, every non-owner has the role some inviter of the workspace
   asked for, else MEMBER.
   */
  lemma RunRolesAsAsked(text: Text, ops: seq<Op>, k: Key)
    requires forall op :: op in ops ==> !op.UpdateMemberRole?
    requires k in Run(text, ops).db.members && !IsOwner(Run(text, ops).db, k)
    ensures var h := Run(text, ops);
      && k in h.origins
      && exists i :: 0 <= i < |ops| && HasRoleAsked(ops, i, k, h.db.members[k]) && ops[i].token == h.origins[k].token
           && text.lower(ops[i].email) == text.lower(h.origins[k].email)
  {
    var h := Run(text, ops);
    RunGood(text, ops);
    RunRolesAsInvited(text, ops);
    RunInvitationsAsked(text, ops);
    assert FromInvitation(text, h, k);
    var t := h.origins[k].token;
    var i :| 0 <= i < |ops| && AskedBy(ops, i, t, h.db.invitations[t]);
    assert HasRoleAsked(ops, i, k, h.db.members[k]);
  }
}
