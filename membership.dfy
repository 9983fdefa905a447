/**
 * The membership mutations of a persisted group: `add`, `remove`,
 * `add_owner` and `bulk_add`, and the `usernames` reader.
 */
module Membership {
  import opened Wrappers
  import opened Text
  import opened GroupTables
  import opened GroupStore

  /** `PUBLISH_CATEGORIES_LIMIT`. */
  const PublishCategoriesLimit := 10

  /** What `add` tells the added user's clients. */
  datatype AddNotice =
    | PublishCategories(userId: int)   // `MessageBus.publish('/categories', ...)`
    | RequestRefresh(userId: int)      // `Discourse.request_refresh!`

  /** The notice `add` sends, chosen by the number of the group's categories. */
  function NoticeFor(categoryCount: nat, userId: int): (n: AddNotice)
    ensures n.userId == userId
    ensures n.PublishCategories? <==> categoryCount < PublishCategoriesLimit
  {
    if categoryCount < PublishCategoriesLimit then PublishCategories(userId) else RequestRefresh(userId)
  }

  /**
   * `add(user)`: a row `(g, u)` is created unless the user is already a member;
   * existing rows are never duplicated.
   */
  method Add(db: Store, g: int, u: int, categoryCount: nat) returns (notice: AddNotice)
    requires db.Valid()
    modifies db
    ensures db.Valid() && db.users == old(db.users) && db.groups == old(db.groups)
    ensures IsMember(old(db.groupUsers), g, u) ==>
      db.groupUsers == old(db.groupUsers) && db.nextRowId == old(db.nextRowId)
    ensures !IsMember(old(db.groupUsers), g, u) ==>
      && db.groupUsers == old(db.groupUsers)[old(db.nextRowId) := GroupUser(g, u, false)]
      && db.nextRowId == old(db.nextRowId) + 1
    ensures IsMember(db.groupUsers, g, u)
    ensures !IsMember(old(db.groupUsers), g, u) ==> |KeysFor(db.groupUsers, g, u)| == 1
    ensures forall h, v :: h != g || v != u ==> KeysFor(db.groupUsers, h, v) == KeysFor(old(db.groupUsers), h, v)
    ensures notice == NoticeFor(categoryCount, u)
  {
    InsertOneEffect(db.groupUsers, db.nextRowId, g, u, false);
    KeysForEmpty(db.groupUsers, g, u);
    if !IsMember(db.groupUsers, g, u) {
      db.groupUsers := db.groupUsers[db.nextRowId := GroupUser(g, u, false)];
      db.nextRowId := db.nextRowId + 1;
    }
    notice := NoticeFor(categoryCount, u);
  }

  /** The user record after `remove`: the primary group pointer is cleared only if it pointed at `g`. */
  function AfterRemove(user: User, g: int): (r: User)
    ensures r.primaryGroupId == (if user.primaryGroupId == Some(g) then None else user.primaryGroupId)
    ensures r.(primaryGroupId := user.primaryGroupId) == user
  {
    if user.primaryGroupId == Some(g) then user.(primaryGroupId := None) else user
  }

  /** `remove(user)`: every row of `u` in `g` is destroyed. */
  method Remove(db: Store, g: int, u: int)
    requires db.Valid() && u in db.users
    modifies db
    ensures db.Valid() && db.groups == old(db.groups) && db.nextRowId == old(db.nextRowId)
    ensures db.groupUsers == DeleteRows(old(db.groupUsers), g, {u})
    ensures db.users == old(db.users)[u := AfterRemove(old(db.users)[u], g)]
    ensures !IsMember(db.groupUsers, g, u)
    ensures forall h, v :: h != g || v != u ==> KeysFor(db.groupUsers, h, v) == KeysFor(old(db.groupUsers), h, v)
  {
    DeleteKeepsBound(db.groupUsers, g, {u}, db.nextRowId);
    db.groupUsers := DeleteRows(db.groupUsers, g, {u});
    db.users := db.users[u := AfterRemove(db.users[u], g)];
  }

  /**
   * `add_owner(user)`: the first row found for `u` in `g` becomes an owner
   * row; without one, an owner row is created.
   */
  method AddOwner(db: Store, g: int, u: int) returns (key: int)
    requires db.Valid()
    modifies db
    ensures db.Valid() && db.users == old(db.users) && db.groups == old(db.groups)
    ensures IsMember(old(db.groupUsers), g, u) ==>
      && key in KeysFor(old(db.groupUsers), g, u)
      && db.groupUsers == old(db.groupUsers)[key := GroupUser(g, u, true)]
      && db.nextRowId == old(db.nextRowId)
    ensures !IsMember(old(db.groupUsers), g, u) ==>
      && key == old(db.nextRowId)
      && db.groupUsers == old(db.groupUsers)[key := GroupUser(g, u, true)]
      && db.nextRowId == old(db.nextRowId) + 1
    ensures IsOwner(db.groupUsers, g, u)
    ensures KeysFor(db.groupUsers, g, u) == KeysFor(old(db.groupUsers), g, u) + {key}
    ensures |KeysFor(old(db.groupUsers), g, u)| <= 1 ==> |KeysFor(db.groupUsers, g, u)| == 1
    ensures forall h, v :: h != g || v != u ==> KeysFor(db.groupUsers, h, v) == KeysFor(old(db.groupUsers), h, v)
  {
    var rows := db.groupUsers;
    KeysForEmpty(rows, g, u);
    if IsMember(rows, g, u) {
      var found := Pick(KeysFor(rows, g, u));
      key := found;
      if !rows[found].owner {
        db.groupUsers := rows[found := GroupUser(g, u, true)];
      }
      OwnerFlagEffect(rows, found, g, u);
    } else {
      key := db.nextRowId;
      InsertOneEffect(rows, key, g, u, true);
      db.groupUsers := rows[key := GroupUser(g, u, true)];
      db.nextRowId := db.nextRowId + 1;
    }
  }

  /** Setting the owner flag on one of `u`'s rows changes no row set. */
  lemma OwnerFlagEffect(rows: Rows, key: int, g: int, u: int)
    requires key in KeysFor(rows, g, u)
    ensures var r := rows[key := GroupUser(g, u, true)];
      && IsOwner(r, g, u)
      && (forall h, v :: KeysFor(r, h, v) == KeysFor(rows, h, v))
      && (!rows[key].owner || r == rows)
  {
    var r := rows[key := GroupUser(g, u, true)];
    assert r[key] == GroupUser(g, u, true);
    if rows[key].owner {
      assert rows[key] == GroupUser(g, u, true);
      assert r == rows;
    }
  }

  /** `Jobs.enqueue(:bulk_grant_trust_level, ...)`. */
  datatype GrantJob = GrantJob(userIds: seq<int>, trustLevel: int)

  /**
   * `User.where(id: ids).update_all(...)` of `bulk_add`: the primary group
   * pointer when the group is a primary group, the title when it is present.
   */
  function BulkUserUpdate(users: map<int, User>, ids: set<int>, g: int, group: Group): (r: map<int, User>)
    ensures r.Keys == users.Keys
    ensures forall u :: u in users && u !in ids ==> r[u] == users[u]
    ensures forall u :: u in users && u in ids ==>
      && r[u].primaryGroupId == (if group.primaryGroup then Some(g) else users[u].primaryGroupId)
      && r[u].title == (if Present(group.title) then group.title else users[u].title)
      && r[u].(primaryGroupId := users[u].primaryGroupId, title := users[u].title) == users[u]
  {
    map u | u in users ::
      if u !in ids then users[u]
      else
        var withGroup := if group.primaryGroup then users[u].(primaryGroupId := Some(g)) else users[u];
        if Present(group.title) then withGroup.(title := group.title) else withGroup
  }

  /** The ids a list names. */
  function ListedIds(ids: seq<int>): (s: set<int>)
    ensures forall u :: u in s <==> u in ids
  {
    set u | u in ids
  }

  /** The users `bulk_add` inserts: listed, existing, and not yet members. */
  function BulkNewMembers(users: map<int, User>, rows: Rows, g: int, ids: seq<int>): (us: set<int>)
    ensures forall u :: u in us <==> u in ids && u in users && !IsMember(rows, g, u)
  {
    set u | u in ids && u in users && !IsMember(rows, g, u)
  }

  /**
   * `bulk_add(user_ids)` on the persisted group `g`: nothing for an empty
   * list; otherwise the missing rows, the user updates and, when the group
   * grants a trust level, the grant job.
   */
  method BulkAdd(db: Store, g: int, userIds: seq<int>)
    returns (done: bool, job: Option<GrantJob>, ghost added: seq<int>)
    requires db.Valid() && g in db.groups
    modifies db
    ensures db.Valid() && db.groups == old(db.groups)
    ensures userIds == [] ==>
      && !done && job.None? && added == []
      && db.groupUsers == old(db.groupUsers) && db.users == old(db.users) && db.nextRowId == old(db.nextRowId)
    ensures userIds != [] ==>
      && done
      && Distinct(added) && |added| == |BulkNewMembers(old(db.users), old(db.groupUsers), g, userIds)|
      && (forall u :: u in added <==> u in BulkNewMembers(old(db.users), old(db.groupUsers), g, userIds))
      && db.groupUsers == AppendRows(old(db.groupUsers), old(db.nextRowId), g, added, false)
      && db.users == BulkUserUpdate(old(db.users), ListedIds(userIds), g, db.groups[g])
      && job == (if db.groups[g].grantTrustLevel.Some? then Some(GrantJob(userIds, db.groups[g].grantTrustLevel.value)) else None)
  {
    if userIds == [] {
      return false, None, [];
    }
    var group := db.groups[g];
    added := InsertRows(db, g, BulkNewMembers(db.users, db.groupUsers, g, userIds), false);
    if group.primaryGroup || Present(group.title) {
      db.users := BulkUserUpdate(db.users, ListedIds(userIds), g, group);
    }
    job := if group.grantTrustLevel.Some? then Some(GrantJob(userIds, group.grantTrustLevel.value)) else None;
    done := true;
  }

  /** After `bulk_add` every listed user that exists is a member, with one row if it was not one before. */
  lemma BulkAddMembership(users: map<int, User>, rows: Rows, next: int, g: int, userIds: seq<int>, added: seq<int>)
    requires KeysBelow(rows, next)
    requires Distinct(added)
    requires forall u :: u in added <==> u in BulkNewMembers(users, rows, g, userIds)
    ensures var after := AppendRows(rows, next, g, added, false);
      && (forall u :: u in userIds && u in users ==> IsMember(after, g, u))
      && (forall u :: u in BulkNewMembers(users, rows, g, userIds) ==> |KeysFor(after, g, u)| == 1)
      && (forall u :: IsMember(rows, g, u) ==> KeysFor(after, g, u) == KeysFor(rows, g, u))
      && (forall h :: h != g ==> RowsOf(after, h) == RowsOf(rows, h))
  {
    var after := AppendRows(rows, next, g, added, false);
    forall u | u in userIds && u in users ensures IsMember(after, g, u) {
      if !IsMember(rows, g, u) {
        assert u in BulkNewMembers(users, rows, g, userIds);
        var i := IndexOf(added, u);
        assert after[next + i] == GroupUser(g, u, false);
      } else {
        var key :| key in rows && rows[key].groupId == g && rows[key].userId == u;
        assert after[key] == rows[key];
      }
    }
    forall u | u in BulkNewMembers(users, rows, g, userIds) ensures |KeysFor(after, g, u)| == 1 {
      var i := IndexOf(added, u);
      assert forall key :: key in KeysFor(after, g, u) ==> key == next + i;
      assert next + i in KeysFor(after, g, u);
      assert KeysFor(after, g, u) == {next + i};
    }
    forall u | IsMember(rows, g, u) ensures KeysFor(after, g, u) == KeysFor(rows, g, u) {
      assert u !in added;
      assert forall key :: key in KeysFor(after, g, u) ==> key in KeysFor(rows, g, u);
    }
    forall h | h != g ensures RowsOf(after, h) == RowsOf(rows, h) {
      AppendKeepsOtherGroups(rows, next, g, added, false, h);
    }
  }
}
