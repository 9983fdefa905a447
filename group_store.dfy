/**
 * The database the group engine works on, as one object whose fields are the
 * `users`, `group_users` and `groups` tables, plus the row algebra that the
 * engine's SQL statements perform on `group_users`.
 */
module GroupStore {
  import opened Wrappers
  import opened GroupTables

  class Store {
    var users: map<int, User>
    var groupUsers: Rows
    var groups: map<int, Group>
    /** The id the next inserted `group_users` row receives. */
    var nextRowId: int

    ghost predicate Valid()
      reads this
    {
      KeysBelow(groupUsers, nextRowId)
    }

    constructor (users: map<int, User>, groups: map<int, Group>)
      ensures Valid()
      ensures this.users == users && this.groups == groups && groupUsers == map[]
    {
      this.users := users;
      this.groups := groups;
      groupUsers := map[];
      nextRowId := 0;
    }
  }

  /** `DELETE FROM group_users WHERE group_id = g AND user_id IN userIds`. */
  function DeleteRows(rows: Rows, g: int, userIds: set<int>): (r: Rows)
    ensures forall k :: k in r <==> k in rows && !(rows[k].groupId == g && rows[k].userId in userIds)
    ensures forall k :: k in r ==> r[k] == rows[k]
  {
    map k | k in rows && !(rows[k].groupId == g && rows[k].userId in userIds) :: rows[k]
  }

  /**
   * `rows` with the rows `(g, userIds[i], owner)` inserted under the fresh ids
   * `base + i`.
   */
  function AppendRows(rows: Rows, base: int, g: int, userIds: seq<int>, owner: bool): (r: Rows)
    ensures forall k :: k in r <==> k in rows || base <= k < base + |userIds|
    ensures forall k :: base <= k < base + |userIds| ==> r[k] == GroupUser(g, userIds[k - base], owner)
    ensures forall k :: k in rows && !(base <= k < base + |userIds|) ==> r[k] == rows[k]
    decreases |userIds|
  {
    if userIds == [] then rows
    else
      var n := |userIds| - 1;
      AppendRows(rows, base, g, userIds[..n], owner)[base + n := GroupUser(g, userIds[n], owner)]
  }

  /** The position of an element of a sequence. */
  lemma {:induction false} IndexOf(s: seq<int>, x: int) returns (i: int)
    requires x in s
    ensures 0 <= i < |s| && s[i] == x
  {
    if s[0] == x {
      i := 0;
    } else {
      assert s == [s[0]] + s[1..];
      i := IndexOf(s[1..], x);
      i := i + 1;
    }
  }

  predicate Distinct<T(==)>(s: seq<T>)
  {
    forall i, j :: 0 <= i < j < |s| ==> s[i] != s[j]
  }

  /** Inserting one more row extends the inserted block by one fresh id. */
  lemma AppendRowsSnoc(rows: Rows, base: int, g: int, s: seq<int>, u: int, owner: bool)
    ensures AppendRows(rows, base, g, s + [u], owner)
         == AppendRows(rows, base, g, s, owner)[base + |s| := GroupUser(g, u, owner)]
  {
    assert (s + [u])[..|s|] == s;
  }

  /** `GroupUser.where(group_id: groupIds, user_id: u).delete_all`. */
  function DeleteUserRows(rows: Rows, groupIds: set<int>, u: int): (r: Rows)
    ensures forall k :: k in r <==> k in rows && !(rows[k].groupId in groupIds && rows[k].userId == u)
    ensures forall k :: k in r ==> r[k] == rows[k]
  {
    map k | k in rows && !(rows[k].groupId in groupIds && rows[k].userId == u) :: rows[k]
  }

  /** Deleting user `u`'s rows in `groupIds` ends those memberships and keeps every other row. */
  lemma DeleteUserRowsEffect(rows: Rows, groupIds: set<int>, u: int, next: int)
    requires KeysBelow(rows, next)
    ensures var r := DeleteUserRows(rows, groupIds, u);
      && KeysBelow(r, next)
      && (forall h :: h in groupIds ==> !IsMember(r, h, u))
      && (forall h, v :: v != u || h !in groupIds ==> KeysFor(r, h, v) == KeysFor(rows, h, v))
  {
  }

  /** Deleting user rows in `groupIds` leaves the rows of every group outside them. */
  lemma DeleteUserRowsKeepsOtherGroups(rows: Rows, groupIds: set<int>, u: int, h: int)
    requires h !in groupIds
    ensures RowsOf(DeleteUserRows(rows, groupIds, u), h) == RowsOf(rows, h)
  {
  }

  /** Inserting the row `(g, u)` under a fresh id adds that membership and no other. */
  lemma InsertOneEffect(rows: Rows, next: int, g: int, u: int, owner: bool)
    requires KeysBelow(rows, next)
    ensures var r := rows[next := GroupUser(g, u, owner)];
      && KeysBelow(r, next + 1)
      && IsMember(r, g, u)
      && KeysFor(r, g, u) == KeysFor(rows, g, u) + {next}
      && (forall h, v :: h != g || v != u ==> KeysFor(r, h, v) == KeysFor(rows, h, v))
      && (forall h :: h != g ==> RowsOf(r, h) == RowsOf(rows, h))
  {
    var r := rows[next := GroupUser(g, u, owner)];
    assert r[next].groupId == g && r[next].userId == u;
  }

  /** Deleting rows of group `g` leaves the rows of every other group. */
  lemma DeleteKeepsOtherGroups(rows: Rows, g: int, userIds: set<int>, h: int)
    requires h != g
    ensures RowsOf(DeleteRows(rows, g, userIds), h) == RowsOf(rows, h)
  {
  }

  /** Appending rows of group `g` under fresh ids leaves the rows of every other group. */
  lemma AppendKeepsOtherGroups(rows: Rows, base: int, g: int, userIds: seq<int>, owner: bool, h: int)
    requires KeysBelow(rows, base) && h != g
    ensures RowsOf(AppendRows(rows, base, g, userIds, owner), h) == RowsOf(rows, h)
  {
    var after := AppendRows(rows, base, g, userIds, owner);
    assert forall key :: key in RowsOf(rows, h) ==> key < base;
    assert forall key :: key in after && after[key].groupId == h ==> key in rows;
  }

  /** A user appended once, with no row before, has exactly the one appended row. */
  lemma AppendedOnce(rows: Rows, base: int, g: int, userIds: seq<int>, owner: bool, i: int)
    requires KeysBelow(rows, base) && Distinct(userIds)
    requires 0 <= i < |userIds| && !IsMember(rows, g, userIds[i])
    ensures KeysFor(AppendRows(rows, base, g, userIds, owner), g, userIds[i]) == {base + i}
  {
    var after := AppendRows(rows, base, g, userIds, owner);
    var u := userIds[i];
    forall key | key in KeysFor(after, g, u) ensures key == base + i {
      if key !in rows {
        assert after[key] == GroupUser(g, userIds[key - base], owner);
      }
    }
    assert after[base + i] == GroupUser(g, u, owner);
  }

  /** After appending, a user is a member of `g` exactly when it was one before or was appended. */
  lemma AppendMembership(rows: Rows, base: int, g: int, userIds: seq<int>, owner: bool, u: int)
    requires KeysBelow(rows, base)
    ensures IsMember(AppendRows(rows, base, g, userIds, owner), g, u) <==> IsMember(rows, g, u) || u in userIds
  {
    var after := AppendRows(rows, base, g, userIds, owner);
    if IsMember(rows, g, u) {
      var key :| key in rows && rows[key].groupId == g && rows[key].userId == u;
      assert after[key] == rows[key];
    } else if u in userIds {
      var i :| 0 <= i < |userIds| && userIds[i] == u;
      assert after[base + i] == GroupUser(g, u, owner);
    } else {
      forall key | key in after ensures !(after[key].groupId == g && after[key].userId == u) {
        if base <= key < base + |userIds| {
          assert userIds[key - base] in userIds;
        }
      }
    }
  }

  /** A user neither deleted nor appended keeps exactly the rows it had. */
  lemma DeleteAppendKeepsUser(rows: Rows, g: int, userIds: set<int>, base: int, added: seq<int>, owner: bool, u: int)
    requires KeysBelow(rows, base) && u !in userIds && u !in added
    ensures KeysFor(AppendRows(DeleteRows(rows, g, userIds), base, g, added, owner), g, u) == KeysFor(rows, g, u)
  {
    var kept := DeleteRows(rows, g, userIds);
    var after := AppendRows(kept, base, g, added, owner);
    assert forall i :: 0 <= i < |added| ==> added[i] != u;
    forall key | key in KeysFor(after, g, u) ensures key in KeysFor(rows, g, u) {
      assert key in kept;
    }
    forall key | key in KeysFor(rows, g, u) ensures key in KeysFor(after, g, u) {
      assert key in kept && key < base;
    }
  }

  /** Deleting rows never lowers the fresh-id bound. */
  lemma DeleteKeepsBound(rows: Rows, g: int, userIds: set<int>, next: int)
    requires KeysBelow(rows, next)
    ensures KeysBelow(DeleteRows(rows, g, userIds), next)
  {
  }
  /**
   * Inserts one row `(g, u, owner)` for every user of `us`, in some order,
   * each under a fresh row id; `added` records the order chosen.
   */
  method InsertRows(db: Store, g: int, us: set<int>, owner: bool) returns (ghost added: seq<int>)
    requires db.Valid()
    modifies db
    ensures db.Valid()
    ensures db.groupUsers == AppendRows(old(db.groupUsers), old(db.nextRowId), g, added, owner)
    ensures db.nextRowId == old(db.nextRowId) + |added|
    ensures Distinct(added) && |added| == |us| && forall u :: u in added <==> u in us
    ensures db.users == old(db.users) && db.groups == old(db.groups)
  {
    ghost var rows0, next0 := db.groupUsers, db.nextRowId;
    var todo := us;
    added := [];
    while todo != {}
      invariant db.groupUsers == AppendRows(rows0, next0, g, added, owner)
      invariant db.nextRowId == next0 + |added|
      invariant Distinct(added) && |added| + |todo| == |us|
      invariant forall u :: u in added || u in todo <==> u in us
      invariant forall u :: u in added ==> u !in todo
      invariant db.users == old(db.users) && db.groups == old(db.groups)
      decreases todo
    {
      var u := Pick(todo);
      AppendRowsSnoc(rows0, next0, g, added, u, owner);
      db.groupUsers := db.groupUsers[db.nextRowId := GroupUser(g, u, owner)];
      db.nextRowId := db.nextRowId + 1;
      added := added + [u];
      todo := todo - {u};
    }
  }
}
