/** Invite-group selection (src/groups/user.ts, getUserInviteGroups): the
    ordered list of groups a user may be shown as invitation targets, by the
    tiered rule administrator > global moderator > group owner > everyone. */
module InviteGroups {
  import opened Sequences

  /** The fields of a group record the selection reads. The flags are
      compared with `=== 0` and `=== 1`, so they are integers: a value that is
      neither 0 nor 1 puts a group in no class. */
  datatype Group = Group(name: string, displayName: string, hidden: int, system: int, private: int)

  /** An element of the result: one of the two `{name, displayName}` role
      stubs, or a full group record. */
  datatype InviteEntry = Stub(name: string, displayName: string) | Full(group: Group)

  /** The collaborators the selection calls: the non-privilege group catalog
      (`Groups.getNonPrivilegeGroups(key, 0, -1)`, the full range), the
      configured ephemeral group names, the ownership test and the two role
      tests of the user module. */
  datatype Env = Env(
    getNonPrivilegeGroups: string -> seq<Group>,
    ephemeralGroups: seq<string>,
    isOwner: (string, string) -> bool,
    isAdministrator: string -> bool,
    isGlobalModerator: string -> bool)

  /** The catalog key the selection reads: all groups by creation time. */
  const CreateTime := "groups:createtime"

  /** The two role stubs, administrators first. */
  const AdminModGroups: seq<InviteEntry> :=
    [Stub("administrators", "administrators"), Stub("Global Moderators", "Global Moderators")]

  predicate IsPublic(g: Group) {
    g.hidden == 0 && g.system == 0 && g.private == 0
  }

  /** Private but not hidden. */
  predicate IsPrivateVisible(g: Group) {
    g.hidden == 0 && g.system == 0 && g.private == 1
  }

  function NotEphemeral(env: Env): Group -> bool {
    (g: Group) => g.name !in env.ephemeralGroups
  }

  function OwnedBy(env: Env, uid: string): Group -> bool {
    (g: Group) => env.isOwner(uid, g.name)
  }

  /** The non-privilege catalog without the ephemeral groups. */
  function AllGroups(env: Env): seq<Group> {
    Filter(NotEphemeral(env), env.getNonPrivilegeGroups(CreateTime))
  }

  function PublicGroups(env: Env): seq<Group> {
    Filter(IsPublic, AllGroups(env))
  }

  function PrivateGroups(env: Env): seq<Group> {
    Filter(IsPrivateVisible, AllGroups(env))
  }

  /** The private groups `uid` owns: the private groups filtered by the
      ownership vector `Flags(OwnedBy(env, uid), privateGroups)`. */
  function OwnGroups(env: Env, uid: string): seq<Group> {
    var privateGroups := PrivateGroups(env);
    Select(privateGroups, Flags(OwnedBy(env, uid), privateGroups))
  }

  function AsEntries(gs: seq<Group>): seq<InviteEntry> {
    seq(|gs|, k requires 0 <= k < |gs| => Full(gs[k]))
  }

  /** The invite groups of `uid`. Every group listed comes from the catalog,
      is not ephemeral, is neither hidden nor system, and is public or
      private; the role stubs are listed only for an administrator, and then
      first. */
  function GetUserInviteGroups(env: Env, uid: string): (r: seq<InviteEntry>)
    ensures forall e :: e in r && e.Full? ==>
      && e.group in env.getNonPrivilegeGroups(CreateTime)
      && e.group.name !in env.ephemeralGroups
      && e.group.hidden == 0 && e.group.system == 0
      && (e.group.private == 0 || e.group.private == 1)
    ensures (exists e :: e in r && e.Stub?) <==> env.isAdministrator(uid)
    ensures env.isAdministrator(uid) ==> |r| >= 2 && r[..2] == AdminModGroups
  {
    CatalogSegments(env, uid);
    var inviteGroups :=
      if env.isAdministrator(uid) then AdminModGroups + AsEntries(PrivateGroups(env))
      else if env.isGlobalModerator(uid) then AsEntries(PrivateGroups(env))
      else AsEntries(OwnGroups(env, uid));
    assert env.isAdministrator(uid) ==> inviteGroups[0] in inviteGroups + AsEntries(PublicGroups(env));
    inviteGroups + AsEntries(PublicGroups(env))
  }

  lemma AsEntriesMembership(gs: seq<Group>)
    ensures forall e :: e in AsEntries(gs) <==> e.Full? && e.group in gs
  {
    var r := AsEntries(gs);
    forall e ensures e in r <==> e.Full? && e.group in gs {
      if e.Full? && e.group in gs {
        var k :| 0 <= k < |gs| && gs[k] == e.group;
        assert r[k] == e;
      }
    }
  }

  /** Which groups each segment of the result holds: the catalog groups that
      are not ephemeral and fall in the segment's class. */
  lemma CatalogSegments(env: Env, uid: string)
    ensures forall g :: g in AllGroups(env) <==>
      g in env.getNonPrivilegeGroups(CreateTime) && g.name !in env.ephemeralGroups
    ensures forall g :: g in PublicGroups(env) <==> g in AllGroups(env) && IsPublic(g)
    ensures forall g :: g in PrivateGroups(env) <==> g in AllGroups(env) && IsPrivateVisible(g)
    ensures forall g :: g in OwnGroups(env, uid) <==> g in PrivateGroups(env) && env.isOwner(uid, g.name)
    ensures forall e :: e in AsEntries(PublicGroups(env)) <==> e.Full? && e.group in PublicGroups(env)
    ensures forall e :: e in AsEntries(PrivateGroups(env)) <==> e.Full? && e.group in PrivateGroups(env)
    ensures forall e :: e in AsEntries(OwnGroups(env, uid)) <==> e.Full? && e.group in OwnGroups(env, uid)
  {
    FilterMembership(NotEphemeral(env), env.getNonPrivilegeGroups(CreateTime));
    FilterMembership(IsPublic, AllGroups(env));
    FilterMembership(IsPrivateVisible, AllGroups(env));
    FilterMembership(OwnedBy(env, uid), PrivateGroups(env));
    AsEntriesMembership(PublicGroups(env));
    AsEntriesMembership(PrivateGroups(env));
    AsEntriesMembership(OwnGroups(env, uid));
  }

  /** A catalog group is listed exactly when it is not ephemeral and is
      public, or private-visible and the user is an administrator, a global
      moderator or its owner. */
  lemma InviteMembership(env: Env, uid: string, g: Group)
    ensures Full(g) in GetUserInviteGroups(env, uid) <==>
      && g in env.getNonPrivilegeGroups(CreateTime)
      && g.name !in env.ephemeralGroups
      && (|| IsPublic(g)
          || (IsPrivateVisible(g)
              && (env.isAdministrator(uid) || env.isGlobalModerator(uid) || env.isOwner(uid, g.name))))
  {
    CatalogSegments(env, uid);
    assert Full(g) !in AdminModGroups;
  }

  /** The layout of the result by role: for an administrator the two stubs,
      then every private-visible group, then the public groups; for a global
      moderator every private-visible group, then the public groups; for
      anyone else the private-visible groups they own, then the public
      groups. */
  lemma InviteSegmentsByRole(env: Env, uid: string)
    ensures var r := GetUserInviteGroups(env, uid);
      var tail := AsEntries(PublicGroups(env));
      && |r| >= |tail|
      && r[|r| - |tail|..] == tail
      && r[..|r| - |tail|] ==
         if env.isAdministrator(uid) then AdminModGroups + AsEntries(PrivateGroups(env))
         else if env.isGlobalModerator(uid) then AsEntries(PrivateGroups(env))
         else AsEntries(OwnGroups(env, uid))
  {
  }

  /** An administrator's result depends neither on the moderator role nor on
      ownership. */
  lemma AdministratorIgnoresModeratorAndOwnership(env1: Env, env2: Env, uid: string)
    requires env1.getNonPrivilegeGroups(CreateTime) == env2.getNonPrivilegeGroups(CreateTime)
    requires env1.ephemeralGroups == env2.ephemeralGroups
    requires env1.isAdministrator(uid) && env2.isAdministrator(uid)
    ensures GetUserInviteGroups(env1, uid) == GetUserInviteGroups(env2, uid)
  {
  }

  /** A global moderator's result (not an administrator) does not depend on
      ownership. */
  lemma ModeratorIgnoresOwnership(env1: Env, env2: Env, uid: string)
    requires env1.getNonPrivilegeGroups(CreateTime) == env2.getNonPrivilegeGroups(CreateTime)
    requires env1.ephemeralGroups == env2.ephemeralGroups
    requires !env1.isAdministrator(uid) && !env2.isAdministrator(uid)
    requires env1.isGlobalModerator(uid) && env2.isGlobalModerator(uid)
    ensures GetUserInviteGroups(env1, uid) == GetUserInviteGroups(env2, uid)
  {
  }

  /** Every segment keeps the catalog order: the public, private-visible and
      owned groups are subsequences of the catalog, and the owned groups of
      the private-visible ones. */
  lemma SegmentsFollowCatalogOrder(env: Env, uid: string)
    ensures var catalog := env.getNonPrivilegeGroups(CreateTime);
      && IsSubsequence(PublicGroups(env), catalog)
      && IsSubsequence(PrivateGroups(env), catalog)
      && IsSubsequence(OwnGroups(env, uid), PrivateGroups(env))
      && IsSubsequence(OwnGroups(env, uid), catalog)
  {
    var catalog := env.getNonPrivilegeGroups(CreateTime);
    FilterIsSubsequence(NotEphemeral(env), catalog);
    FilterIsSubsequence(IsPublic, AllGroups(env));
    FilterIsSubsequence(IsPrivateVisible, AllGroups(env));
    FilterIsSubsequence(OwnedBy(env, uid), PrivateGroups(env));
    SubsequenceTransitive(PublicGroups(env), AllGroups(env), catalog);
    SubsequenceTransitive(PrivateGroups(env), AllGroups(env), catalog);
    SubsequenceTransitive(OwnGroups(env, uid), PrivateGroups(env), catalog);
  }

  lemma AsEntriesDistinct(gs: seq<Group>)
    requires Distinct(gs)
    ensures Distinct(AsEntries(gs))
  {
  }

  /** No group is listed twice when the catalog lists none twice: the
      segments are drawn from disjoint classes, and the stubs are not groups. */
  lemma InviteGroupsDistinct(env: Env, uid: string)
    requires Distinct(env.getNonPrivilegeGroups(CreateTime))
    ensures Distinct(GetUserInviteGroups(env, uid))
  {
    var catalog := env.getNonPrivilegeGroups(CreateTime);
    SegmentsFollowCatalogOrder(env, uid);
    CatalogSegments(env, uid);
    SubsequenceOfDistinct(PublicGroups(env), catalog);
    SubsequenceOfDistinct(PrivateGroups(env), catalog);
    SubsequenceOfDistinct(OwnGroups(env, uid), catalog);
    AsEntriesDistinct(PublicGroups(env));
    AsEntriesDistinct(PrivateGroups(env));
    AsEntriesDistinct(OwnGroups(env, uid));
    var tail := AsEntries(PublicGroups(env));
    var head :=
      if env.isAdministrator(uid) then AdminModGroups + AsEntries(PrivateGroups(env))
      else if env.isGlobalModerator(uid) then AsEntries(PrivateGroups(env))
      else AsEntries(OwnGroups(env, uid));
    if env.isAdministrator(uid) {
      DistinctConcat(AdminModGroups, AsEntries(PrivateGroups(env)));
    }
    assert forall e :: e in head ==> e.Stub? || IsPrivateVisible(e.group);
    DistinctConcat(head, tail);
  }

  /** The catalog `[pub1, priv1, hid1]` (public, private, hidden) with no
      ephemeral groups: an administrator gets the stubs, priv1 and pub1, and a
      global moderator priv1 and pub1, whatever they own; anyone else who
      does not own priv1 gets pub1 only. */
  lemma ThreeGroupScenario(env: Env, uid: string)
    requires env.getNonPrivilegeGroups(CreateTime) == [
      Group("pub1", "pub1", 0, 0, 0), Group("priv1", "priv1", 0, 0, 1), Group("hid1", "hid1", 1, 0, 0)]
    requires env.ephemeralGroups == []
    requires !env.isAdministrator(uid) && !env.isGlobalModerator(uid) ==> !env.isOwner(uid, "priv1")
    ensures var pub1, priv1 := Group("pub1", "pub1", 0, 0, 0), Group("priv1", "priv1", 0, 0, 1);
      GetUserInviteGroups(env, uid) ==
        if env.isAdministrator(uid) then AdminModGroups + [Full(priv1), Full(pub1)]
        else if env.isGlobalModerator(uid) then [Full(priv1), Full(pub1)]
        else [Full(pub1)]
  {
    var pub1, priv1, hid1 := Group("pub1", "pub1", 0, 0, 0), Group("priv1", "priv1", 0, 0, 1), Group("hid1", "hid1", 1, 0, 0);
    var catalog := [pub1, priv1, hid1];
    FilterAll(NotEphemeral(env), catalog);
    ThreeGroupClasses(pub1, priv1, hid1);
    assert PublicGroups(env) == [pub1];
    assert PrivateGroups(env) == [priv1];
    if !env.isAdministrator(uid) && !env.isGlobalModerator(uid) {
      assert Flags(OwnedBy(env, uid), [priv1]) == [false];
      SelectSnoc([], priv1, [false]);
      assert [] + [priv1] == [priv1];
      assert OwnGroups(env, uid) == Select([priv1], [false]) == [];
    }
  }

  lemma ThreeGroupClasses(pub1: Group, priv1: Group, hid1: Group)
    requires IsPublic(pub1) && IsPrivateVisible(priv1) && hid1.hidden == 1
    ensures Filter(IsPublic, [pub1, priv1, hid1]) == [pub1]
    ensures Filter(IsPrivateVisible, [pub1, priv1, hid1]) == [priv1]
  {
    var catalog := [pub1, priv1, hid1];
    var isPublic, isPrivate := [true, false, false], [false, true, false];
    assert Flags(IsPublic, catalog) == isPublic by {
      assert !IsPublic(priv1) && !IsPublic(hid1);
    }
    assert Flags(IsPrivateVisible, catalog) == isPrivate by {
      assert !IsPrivateVisible(pub1) && !IsPrivateVisible(hid1);
    }
    assert [] + [pub1] == [pub1] && [pub1] + [priv1] == [pub1, priv1] && [pub1, priv1] + [hid1] == catalog;
    SelectSnoc([], pub1, isPublic);
    SelectSnoc([pub1], priv1, isPublic);
    SelectSnoc([pub1, priv1], hid1, isPublic);
    SelectSnoc([], pub1, isPrivate);
    SelectSnoc([pub1], priv1, isPrivate);
    SelectSnoc([pub1, priv1], hid1, isPrivate);
  }
}
