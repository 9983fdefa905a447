/**
 * Who may see, mention or message a group: the `visible_groups`,
 * `mentionable` and `messageable` scopes and `alias_levels`, written as
 * predicates over one group record, the `group_users` rows and the viewer.
 */
module GroupPolicy {
  import opened Wrappers
  import opened GroupTables
  import AutoGroups

  /** A signed-in viewer; an anonymous viewer is `None`. */
  datatype Viewer = Viewer(id: int, admin: bool, moderator: bool)
  {
    predicate IsStaff()
    {
      admin || moderator
    }
  }

  /** `Group.alias_levels(user)`. */
  function AliasLevels(viewer: Option<Viewer>): (levels: seq<AliasLevel>)
  {
    if viewer.Some? && viewer.value.admin then
      [EveryoneLevel, OnlyAdmins, ModsAndAdmins, MembersModsAndAdmins]
    else if viewer.Some? && viewer.value.moderator then
      [EveryoneLevel, ModsAndAdmins, MembersModsAndAdmins]
    else
      [EveryoneLevel]
  }

  /**
   * The levels open to each kind of viewer: everyone's level to all, the
   * staff levels by role, and `nobody` to no one.
   */
  lemma AliasLevelsByRole(viewer: Option<Viewer>, l: AliasLevel)
    ensures l in AliasLevels(viewer) <==>
      || l == EveryoneLevel
      || (viewer.Some? && viewer.value.admin && (l == OnlyAdmins || l == ModsAndAdmins || l == MembersModsAndAdmins))
      || (viewer.Some? && !viewer.value.admin && viewer.value.moderator && (l == ModsAndAdmins || l == MembersModsAndAdmins))
    ensures Nobody !in AliasLevels(viewer)
  {
  }

  /** The condition of the `mentionable`/`messageable` scopes for a group at `level`. */
  predicate AliasAllows(level: AliasLevel, groupId: int, rows: Rows, viewer: Option<Viewer>)
  {
    || level in AliasLevels(viewer)
    || (level == MembersModsAndAdmins && viewer.Some? && IsMember(rows, groupId, viewer.value.id))
  }

  /** `Group.mentionable(user)`: the ids of the groups the viewer may mention. */
  function Mentionable(groups: map<int, Group>, rows: Rows, viewer: Option<Viewer>): (ids: set<int>)
    ensures forall id :: id in ids <==> id in groups && AliasAllows(groups[id].mentionable, id, rows, viewer)
  {
    set id | id in groups && AliasAllows(groups[id].mentionable, id, rows, viewer)
  }

  /** `Group.messageable(user)`: the ids of the groups the viewer may message. */
  function Messageable(groups: map<int, Group>, rows: Rows, viewer: Option<Viewer>): (ids: set<int>)
    ensures forall id :: id in ids <==> id in groups && AliasAllows(groups[id].messageable, id, rows, viewer)
  {
    set id | id in groups && AliasAllows(groups[id].messageable, id, rows, viewer)
  }

  /**
   * The `visible_groups` condition for one group: the four `UNION ALL`
   * branches, skipped entirely for an admin, and never group 0.
   */
  predicate CanView(id: int, g: Group, rows: Rows, viewer: Option<Viewer>)
  {
    id > 0 &&
    if viewer.Some? && viewer.value.admin then true
    else
      match g.visibility
      case PublicLevel => true
      case MembersLevel => viewer.Some? && IsMember(rows, id, viewer.value.id)
      case StaffLevel => viewer.Some? && (IsOwner(rows, id, viewer.value.id) || viewer.value.IsStaff())
      case OwnersLevel => viewer.Some? && IsOwner(rows, id, viewer.value.id)
  }

  /** `Group.visible_groups(user)`, as a set of ids (the ordering by name is left out). */
  function VisibleGroups(groups: map<int, Group>, rows: Rows, viewer: Option<Viewer>): (ids: set<int>)
    ensures forall id :: id in ids <==> id in groups && CanView(id, groups[id], rows, viewer)
  {
    set id | id in groups && CanView(id, groups[id], rows, viewer)
  }

  /** What each viewer sees, level by level. */
  lemma VisibilityRules(id: int, g: Group, rows: Rows, viewer: Option<Viewer>)
    ensures id <= 0 ==> !CanView(id, g, rows, viewer)
    ensures id > 0 && viewer.Some? && viewer.value.admin ==> CanView(id, g, rows, viewer)
    ensures id > 0 && g.visibility == PublicLevel ==> CanView(id, g, rows, viewer)
    ensures viewer.None? ==> (CanView(id, g, rows, viewer) <==> id > 0 && g.visibility == PublicLevel)
    ensures viewer.Some? && !viewer.value.admin && g.visibility == OwnersLevel ==>
      (CanView(id, g, rows, viewer) <==> id > 0 && IsOwner(rows, id, viewer.value.id))
  {
  }

  /** `Group#staff?`: the group is one of the three staff groups. */
  predicate IsStaffGroup(name: string)
  {
    name == "admins" || name == "moderators" || name == "staff"
  }

  /** `STAFF_GROUPS`: a group is a staff group iff its name is that of the admins, moderators or staff automatic group. */
  lemma StaffGroupsAreAutomatic(name: string)
    ensures IsStaffGroup(name) <==>
      AutoGroups.ByName(name) in {Some(AutoGroups.Admins), Some(AutoGroups.Moderators), Some(AutoGroups.Staff)}
  {
    if IsStaffGroup(name) {
      assert name == AutoGroups.Name(AutoGroups.Admins) || name == AutoGroups.Name(AutoGroups.Moderators)
        || name == AutoGroups.Name(AutoGroups.Staff);
    }
  }

  /**
   * The visibility table of the group specification: one member, one owner,
   * a moderator, an admin and an anonymous viewer, under each of the four
   * levels.
   */
  lemma VisibilityTruthTable(id: int, g: Group, rows: Rows, member: int, owner: int, modId: int, adminId: int, km: int, ko: int)
    requires id > 0 && km != ko
    requires rows == map[km := GroupUser(id, member, false), ko := GroupUser(id, owner, true)]
    requires member != owner && member != modId && owner != modId
    ensures var admin, own, mod, mem := Some(Viewer(adminId, true, false)), Some(Viewer(owner, false, false)),
                                        Some(Viewer(modId, false, true)), Some(Viewer(member, false, false));
      && (g.visibility == OwnersLevel ==>
            CanView(id, g, rows, admin) && CanView(id, g, rows, own) && !CanView(id, g, rows, mod)
            && !CanView(id, g, rows, mem) && !CanView(id, g, rows, None))
      && (g.visibility == StaffLevel ==>
            CanView(id, g, rows, admin) && CanView(id, g, rows, own) && CanView(id, g, rows, mod)
            && !CanView(id, g, rows, mem) && !CanView(id, g, rows, None))
      && (g.visibility == MembersLevel ==>
            CanView(id, g, rows, admin) && CanView(id, g, rows, own) && !CanView(id, g, rows, mod)
            && CanView(id, g, rows, mem) && !CanView(id, g, rows, None))
      && (g.visibility == PublicLevel ==>
            CanView(id, g, rows, admin) && CanView(id, g, rows, own) && CanView(id, g, rows, mod)
            && CanView(id, g, rows, mem) && CanView(id, g, rows, None))
  {
    assert rows[ko] == GroupUser(id, owner, true) && rows[km] == GroupUser(id, member, false);
    assert IsOwner(rows, id, owner);
    assert IsMember(rows, id, owner) && IsMember(rows, id, member);
    assert !IsOwner(rows, id, member) && !IsOwner(rows, id, modId) by {
      assert forall k :: k in rows ==> k == km || k == ko;
    }
    assert !IsMember(rows, id, modId) by {
      assert forall k :: k in rows ==> k == km || k == ko;
    }
  }
}
