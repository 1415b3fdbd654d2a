/** The workspace and invitation services over the tables they share, proved against `Workspaces`. */
module WorkspacesServiceModel {
  import opened Forest
  import opened MembershipCache
  import opened Slugs
  import opened Workspaces

  class WorkspacesService {
    const text: Text
    var workspaces: map<Id, Workspace>
    var members: map<Key, Role>
    var invitations: map<Id, Invitation>
    var cache: map<TextKey, Entry>
    var users: map<Id, string>

    ghost function Contents(): Db
      reads this
    {
      Db(workspaces, members, invitations, cache, users)
    }

    /** What every method keeps. Owners and cache are kept too, but for the calls `KeepsOwnersAndCache` singles out. */
    ghost predicate Valid()
      reads this
    {
      Consistent(text, Contents())
    }

    constructor (text: Text)
      ensures this.text == text && Contents() == Workspaces.Run(text, []).db
      ensures Valid() && OwnersAreAdmins(Contents()) && CacheAgrees(Contents())
    {
      this.text := text;
      workspaces, members, invitations, cache, users := map[], map[], map[], map[], map[];
    }

    lemma Recall(op: Op)
      requires Valid() && Fresh(Contents(), op)
      ensures Consistent(text, Apply(text, Contents(), op).0)
      ensures KeepsOwnersAndCache(Contents(), Apply(text, Contents(), op).0, op)
    {
      ApplyKeepsConsistent(text, Contents(), op);
      ApplyKeepsOwnersAndCache(text, Contents(), op);
    }

    /** Registers a user; of the sign-up only the address matters here. */
    method SignUp(user: Id, address: string) returns (r: Outcome)
      requires Valid() && Fresh(Contents(), Op.SignUp(user, address))
      modifies this`users
      ensures (Contents(), r) == Apply(text, old(Contents()), Op.SignUp(user, address))
      ensures Valid() && KeepsOwnersAndCache(old(Contents()), Contents(), Op.SignUp(user, address))
      ensures r == Done || r == Fail(EmailTaken)
      ensures r == Done <==> forall u :: u in old(users) ==> text.fold(old(users)[u]) != text.fold(address)
      ensures users == if r == Done then old(users)[user := address] else old(users)
    {
      Recall(Op.SignUp(user, address));
      if exists u :: u in users && HasAddress(text, users, u, address) {
        return Fail(EmailTaken);
      }
      users := users[user := address];
      return Done;
    }

    /** The one user of an address, if there is one. */
    method FindByEmail(email: string) returns (u: Option<Id>)
      ensures u.Some? ==> HasAddress(text, users, u.value, email)
      ensures u.None? ==> forall v :: v in users ==> !HasAddress(text, users, v, email)
    {
      if v :| v in users && HasAddress(text, users, v, email) {
        return Some(v);
      }
      return None;
    }

    /** See `CreateResult`. */
    method Create(ownerId: Id, name: string, slug: Option<string>, id: Id) returns (r: Outcome)
      requires Valid() && Fresh(Contents(), CreateWorkspace(ownerId, name, slug, id))
      modifies this`workspaces, this`members
      ensures (Contents(), r) == Apply(text, old(Contents()), CreateWorkspace(ownerId, name, slug, id))
      ensures Valid() && KeepsOwnersAndCache(old(Contents()), Contents(), CreateWorkspace(ownerId, name, slug, id))
      ensures CreateResult(text, old(Contents()), Contents(), CreateWorkspace(ownerId, name, slug, id), r)
    {
      Recall(CreateWorkspace(ownerId, name, slug, id));
      CreateGives(text, Contents(), CreateWorkspace(ownerId, name, slug, id));
      var s := Slugify(text.lower, slug.GetOr(name));
      if SlugInUse(workspaces, s) {
        return Fail(SlugTaken);
      }
      workspaces := workspaces[id := Workspace(name, s, ownerId)];
      members := members[Key(id, ownerId) := ADMIN];
      return Done;
    }

    /** Changes no table, and answers what the table says exactly unless a live entry says something else. */
    method GetMembership(key: TextKey, now: int) returns (r: Outcome)
      requires Valid()
      modifies this`cache
      ensures (Contents(), r) == Apply(text, old(Contents()), Op.GetMembership(key, now))
      ensures Valid() && KeepsOwnersAndCache(old(Contents()), Contents(), Op.GetMembership(key, now))
      ensures LookupResult(old(Contents()), Contents(), key, now, r)
      ensures r == Membership(Lookup(members, key.Value())) <==> !ServesStale(old(Contents()), key, now)
      ensures old(CacheAgrees(Contents())) ==> r == Membership(Lookup(members, key.Value()))
    {
      Recall(Op.GetMembership(key, now));
      LookupExactIff(text, Contents(), key, now);
      LookupGives(text, Contents(), key, now);
      if key in cache && now <= cache[key].expiresAt {
        return Membership(Some(cache[key].role));
      }
      if key.Value() in members {
        cache := cache[key := Entry(members[key.Value()], now + MEMBERSHIP_TTL_MS)];
        return Membership(Some(members[key.Value()]));
      }
      return Membership(None);
    }

    /**
     Succeeds exactly for members whose id is not written as that of the owner is stored. The table
     then has the new role and the entry of this text is gone; no other member changes.
     */
    method UpdateMemberRole(key: TextKey, role: Role) returns (r: Outcome)
      requires Valid()
      modifies this`members, this`cache
      ensures (Contents(), r) == Apply(text, old(Contents()), Op.UpdateMemberRole(key, role))
      ensures Valid() && KeepsOwnersAndCache(old(Contents()), Contents(), Op.UpdateMemberRole(key, role))
      ensures MemberResult(old(Contents()), Contents(), key, Some(role), r)
    {
      Recall(Op.UpdateMemberRole(key, role));
      MemberGives(text, Contents(), Op.UpdateMemberRole(key, role));
      if key.workspaceId.id !in workspaces {
        return Fail(WorkspaceNotFound);
      }
      if Stored(workspaces[key.workspaceId.id].ownerId) == key.userId {
        return Fail(OwnerFixed);
      }
      if key.Value() !in members {
        return Fail(MemberNotFound);
      }
      members := members[key.Value() := role];
      InvalidateMembership(key);
      return Membership(Some(role));
    }

    /**
     Succeeds for the same members; the member and the entry of this text are then gone, and no other
     member changes.
     */
    method RemoveMember(key: TextKey) returns (r: Outcome)
      requires Valid()
      modifies this`members, this`cache
      ensures (Contents(), r) == Apply(text, old(Contents()), Op.RemoveMember(key))
      ensures Valid() && KeepsOwnersAndCache(old(Contents()), Contents(), Op.RemoveMember(key))
      ensures MemberResult(old(Contents()), Contents(), key, None, r)
    {
      Recall(Op.RemoveMember(key));
      MemberGives(text, Contents(), Op.RemoveMember(key));
      if key.workspaceId.id !in workspaces {
        return Fail(WorkspaceNotFound);
      }
      if Stored(workspaces[key.workspaceId.id].ownerId) == key.userId {
        return Fail(OwnerFixed);
      }
      if key.Value() !in members {
        return Fail(MemberNotFound);
      }
      members := members - {key.Value()};
      InvalidateMembership(key);
      return Done;
    }

    method InvalidateMembership(key: TextKey)
      modifies this`cache
      ensures cache == old(cache) - {key}
    {
      cache := cache - {key};
    }

    /** See `InviteResult`. */
    method Invite(workspaceId: Id, inviterId: Id, email: string, role: Option<Role>, token: Id, now: int)
      returns (r: Outcome)
      requires Valid() && Fresh(Contents(), Op.Invite(workspaceId, inviterId, email, role, token, now))
      modifies this`invitations
      ensures (Contents(), r) == Apply(text, old(Contents()),
        Op.Invite(workspaceId, inviterId, email, role, token, now))
      ensures Valid() && KeepsOwnersAndCache(old(Contents()), Contents(),
        Op.Invite(workspaceId, inviterId, email, role, token, now))
      ensures InviteResult(text, old(Contents()), Contents(),
        Op.Invite(workspaceId, inviterId, email, role, token, now), r)
    {
      Recall(Op.Invite(workspaceId, inviterId, email, role, token, now));
      InviteGives(text, Contents(), Op.Invite(workspaceId, inviterId, email, role, token, now));
      if workspaceId !in workspaces {
        return Fail(WorkspaceNotFound);
      }
      var member := IsMemberAddress(workspaceId, email);
      if member {
        return Fail(AlreadyMember);
      }
      if !NonePending(text, invitations, workspaceId, email) {
        return Fail(AlreadyInvited);
      }
      var invitation := Invitation(workspaceId, email, role.GetOr(MEMBER), PENDING, inviterId, now + INVITE_TTL_MS);
      invitations := invitations[token := invitation];
      return Done;
    }

    /** Looks up the user of the address and then the membership. */
    method IsMemberAddress(workspaceId: Id, email: string) returns (b: bool)
      requires AddressesUnique(text, users)
      ensures b <==> AddressOfMember(text, Contents(), workspaceId, email)
    {
      var existingUser := FindByEmail(email);
      b := existingUser.Some? && Key(workspaceId, existingUser.value) in members;
    }

    /** See `AcceptResult`. */
    method Accept(userId: Id, userEmail: string, token: Id, now: int) returns (r: Outcome)
      requires Valid()
      modifies this`members, this`invitations
      ensures (Contents(), r) == Apply(text, old(Contents()), Op.Accept(userId, userEmail, token, now))
      ensures Valid() && KeepsOwnersAndCache(old(Contents()), Contents(), Op.Accept(userId, userEmail, token, now))
      ensures AcceptResult(text, old(Contents()), Contents(), Op.Accept(userId, userEmail, token, now), r)
    {
      Recall(Op.Accept(userId, userEmail, token, now));
      AcceptGives(text, Contents(), Op.Accept(userId, userEmail, token, now));
      if token !in invitations || invitations[token].status != PENDING {
        return Fail(InvitationNotFound);
      }
      var invitation := invitations[token];
      if invitation.expiresAt < now {
        invitation := invitation.(status := EXPIRED);
        invitations := invitations[token := invitation];
        return Fail(InvitationExpired);
      }
      if text.lower(invitation.email) != text.lower(userEmail) {
        return Fail(WrongEmail);
      }
      r := Admit(userId, userEmail, token, now);
    }

    /** The transaction that accepts: adds the member unless there is one, and marks the invitation. */
    method Admit(userId: Id, userEmail: string, token: Id, now: int) returns (r: Outcome)
      requires token in invitations && Acceptable(text, invitations[token], userEmail, now)
      modifies this`members, this`invitations
      ensures (Contents(), r) == AcceptSpec(text, old(Contents()), Op.Accept(userId, userEmail, token, now))
    {
      var invitation := invitations[token];
      var key := Key(invitation.workspaceId, userId);
      if key !in members {
        members := members[key := invitation.role];
      }
      invitation := invitation.(status := ACCEPTED);
      invitations := invitations[token := invitation];
      return Membership(Some(members[key]));
    }

    /** Succeeds exactly for a pending invitation of the workspace; its address can then be invited again. */
    method Revoke(workspaceId: Id, token: Id) returns (r: Outcome)
      requires Valid()
      modifies this`invitations
      ensures (Contents(), r) == Apply(text, old(Contents()), RevokeInvitation(workspaceId, token))
      ensures Valid() && KeepsOwnersAndCache(old(Contents()), Contents(), RevokeInvitation(workspaceId, token))
      ensures RevokeResult(text, old(Contents()), Contents(), RevokeInvitation(workspaceId, token), r)
    {
      Recall(RevokeInvitation(workspaceId, token));
      RevokeGives(text, Contents(), RevokeInvitation(workspaceId, token));
      if token !in invitations || invitations[token].workspaceId != workspaceId {
        return Fail(InvitationNotFound);
      }
      var invitation := invitations[token];
      if invitation.status != PENDING {
        return Fail(NotPending);
      }
      invitation := invitation.(status := REVOKED);
      invitations := invitations[token := invitation];
      return Done;
    }
  }
}
