/**
 * The tables the group engine reads and writes, as plain values: a user
 * record, a `group_users` row, a `groups` record, and the functions that read
 * membership off the `group_users` table (a map from row id to row).
 */
module GroupTables {
  import opened Wrappers
  import Text

  /** The `users` columns the group engine reads or writes. */
  datatype User = User(
    username: string,
    admin: bool,
    moderator: bool,
    trustLevel: int,
    primaryGroupId: Option<int>,
    title: Option<string>)
  {
    /** `User#staff?`: an admin or a moderator. */
    predicate IsStaff()
    {
      admin || moderator
    }
  }

  /** One `group_users` row. */
  datatype GroupUser = GroupUser(groupId: int, userId: int, owner: bool)

  /** `Group.visibility_levels`. */
  datatype Visibility = PublicLevel | MembersLevel | StaffLevel | OwnersLevel

  function VisibilityCode(v: Visibility): (code: int)
  {
    match v
    case PublicLevel => 0
    case MembersLevel => 1
    case StaffLevel => 2
    case OwnersLevel => 3
  }

  /** `ALIAS_LEVELS`, the values `mentionable_level` and `messageable_level` may take. */
  datatype AliasLevel = Nobody | OnlyAdmins | ModsAndAdmins | MembersModsAndAdmins | EveryoneLevel

  function AliasCode(l: AliasLevel): (code: int)
  {
    match l
    case Nobody => 0
    case OnlyAdmins => 1
    case ModsAndAdmins => 2
    case MembersModsAndAdmins => 3
    case EveryoneLevel => 99
  }

  /** The `groups` columns the engine reads or writes (bio, flair and full name are left out). */
  datatype Group = Group(
    name: string,
    automatic: bool,
    visibility: Visibility,
    mentionable: AliasLevel,
    messageable: AliasLevel,
    primaryGroup: bool,
    title: Option<string>,
    grantTrustLevel: Option<int>,
    userCount: int,
    hasMessages: bool,
    incomingEmail: Option<string>,
    emailDomains: Option<string>,
    membershipRetroactive: bool,
    allowMembershipRequests: bool,
    defaultNotificationLevel: int)

  /** A fresh `Group.new(name:, automatic:)`: every other column at its schema default. */
  function NewGroup(name: string, automatic: bool): (g: Group)
    ensures g.name == name && g.automatic == automatic
    ensures g.visibility == PublicLevel && g.userCount == 0 && !g.hasMessages
    ensures g.mentionable == Nobody && g.messageable == Nobody
    ensures g.defaultNotificationLevel == 3
  {
    Group(name, automatic, PublicLevel, Nobody, Nobody, false, None, None, 0, false,
          None, None, false, false, 3)
  }

  /** Rails `present?` on a nullable string column: not NULL and not blank. */
  predicate Present(s: Option<string>)
  {
    s.Some? && !Text.IsBlank(s.value)
  }

  /** The `group_users` table, keyed by row id. */
  type Rows = map<int, GroupUser>

  /** Some row links user `u` to group `g`. */
  predicate IsMember(rows: Rows, g: int, u: int)
  {
    exists k :: k in rows && rows[k].groupId == g && rows[k].userId == u
  }

  /** Some row links user `u` to group `g` as an owner. */
  predicate IsOwner(rows: Rows, g: int, u: int)
  {
    exists k :: k in rows && rows[k] == GroupUser(g, u, true)
  }

  /** The ids of the rows that link user `u` to group `g`. */
  function KeysFor(rows: Rows, g: int, u: int): (ks: set<int>)
    ensures ks <= rows.Keys
  {
    set k | k in rows && rows[k].groupId == g && rows[k].userId == u
  }

  lemma KeysForEmpty(rows: Rows, g: int, u: int)
    ensures KeysFor(rows, g, u) == {} <==> !IsMember(rows, g, u)
  {
    if IsMember(rows, g, u) {
      var k :| k in rows && rows[k].groupId == g && rows[k].userId == u;
      assert k in KeysFor(rows, g, u);
    } else {
      assert forall k :: k in KeysFor(rows, g, u) ==> IsMember(rows, g, u);
    }
  }

  /** The ids of the rows of group `g`. */
  function GroupKeys(rows: Rows, g: int): (ks: set<int>)
    ensures ks <= rows.Keys
  {
    set k | k in rows && rows[k].groupId == g
  }

  /** `COUNT(user_id) ... GROUP BY group_id`: the number of rows of group `g`. */
  function RowCount(rows: Rows, g: int): nat
  {
    |GroupKeys(rows, g)|
  }

  /** The users that have a row in group `g`. */
  function MemberIds(rows: Rows, g: int): (us: set<int>)
    ensures forall u :: u in us <==> IsMember(rows, g, u)
  {
    set k | k in rows && rows[k].groupId == g :: rows[k].userId
  }

  /** The rows of group `g` alone. */
  function RowsOf(rows: Rows, g: int): (r: Rows)
    ensures forall k :: k in r <==> k in rows && rows[k].groupId == g
    ensures forall k :: k in r ==> r[k] == rows[k]
  {
    map k | k in rows && rows[k].groupId == g :: rows[k]
  }

  /** Whatever is said about one group's membership depends on that group's rows alone. */
  lemma RowsOfDetermine(a: Rows, b: Rows, g: int)
    requires RowsOf(a, g) == RowsOf(b, g)
    ensures forall u :: IsMember(a, g, u) == IsMember(b, g, u)
    ensures forall u :: IsOwner(a, g, u) == IsOwner(b, g, u)
    ensures forall u :: KeysFor(a, g, u) == KeysFor(b, g, u)
    ensures GroupKeys(a, g) == GroupKeys(b, g) && RowCount(a, g) == RowCount(b, g)
    ensures MemberIds(a, g) == MemberIds(b, g)
  {
    forall u ensures IsMember(a, g, u) == IsMember(b, g, u) {
      if IsMember(a, g, u) {
        var k :| k in a && a[k].groupId == g && a[k].userId == u;
        assert k in RowsOf(a, g);
      }
      if IsMember(b, g, u) {
        var k :| k in b && b[k].groupId == g && b[k].userId == u;
        assert k in RowsOf(b, g);
      }
    }
    forall u ensures IsOwner(a, g, u) == IsOwner(b, g, u) {
      if IsOwner(a, g, u) {
        var k :| k in a && a[k] == GroupUser(g, u, true);
        assert k in RowsOf(a, g);
      }
      if IsOwner(b, g, u) {
        var k :| k in b && b[k] == GroupUser(g, u, true);
        assert k in RowsOf(b, g);
      }
    }
    forall u ensures KeysFor(a, g, u) == KeysFor(b, g, u) {
      assert forall k :: k in KeysFor(a, g, u) ==> k in RowsOf(a, g);
      assert forall k :: k in KeysFor(b, g, u) ==> k in RowsOf(b, g);
    }
    assert forall k :: k in GroupKeys(a, g) ==> k in RowsOf(a, g);
    assert forall k :: k in GroupKeys(b, g) ==> k in RowsOf(b, g);
  }

  /** Every row id is below `next`, so `next` is a fresh id. */
  predicate KeysBelow(rows: Rows, next: int)
  {
    forall k :: k in rows ==> k < next
  }
}
