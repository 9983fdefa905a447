/**
 * The consistency sweep: `reset_all_counters!`, `refresh_has_messages!` and
 * `ensure_consistency!`, which runs them around `refresh_automatic_groups!`.
 */
module Sweep {
  import opened GroupTables
  import opened AutoGroups
  import opened GroupStore
  import opened Wrappers
  import opened Reconciler
  import GroupRecords

  /**
   * The `groups` table after `reset_all_counters!`: the counts are grouped by
   * the rows themselves, so a group without rows is not joined and keeps its
   * count, and only counts that differ are written; no other column changes.
   */
  function ResetCounters(groups: map<int, Group>, rows: Rows): (r: map<int, Group>)
    ensures r.Keys == groups.Keys
    ensures forall id :: id in groups && RowCount(rows, id) >= 1 ==> r[id].userCount == RowCount(rows, id)
    ensures forall id :: id in groups && RowCount(rows, id) == 0 ==> r[id] == groups[id]
    ensures forall id :: id in groups && groups[id].userCount == RowCount(rows, id) ==> r[id] == groups[id]
    ensures forall id :: id in groups ==> r[id].(userCount := groups[id].userCount) == groups[id]
  {
    map id | id in groups :: ResetCount(groups[id], RowCount(rows, id))
  }

  /** One group's record under the sweep, given its number of rows. */
  function ResetCount(g: Group, count: nat): (r: Group)
    ensures count >= 1 ==> r.userCount == count
    ensures count == 0 || g.userCount == count ==> r == g
    ensures r.(userCount := g.userCount) == g
  {
    if count >= 1 && g.userCount != count then g.(userCount := count) else g
  }

  /** A second sweep changes nothing. */
  lemma ResetCountersIdempotent(groups: map<int, Group>, rows: Rows)
    ensures ResetCounters(ResetCounters(groups, rows), rows) == ResetCounters(groups, rows)
  {
    var once := ResetCounters(groups, rows);
    assert forall id :: id in once ==> ResetCounters(once, rows)[id] == once[id];
  }

  /** `reset_all_counters!`. */
  method ResetAllCounters(db: Store)
    requires db.Valid()
    modifies db
    ensures db.Valid()
    ensures db.groups == ResetCounters(old(db.groups), old(db.groupUsers))
    ensures db.users == old(db.users) && db.groupUsers == old(db.groupUsers) && db.nextRowId == old(db.nextRowId)
  {
    db.groups := ResetCounters(db.groups, db.groupUsers);
  }

  /**
   * The `groups` table after `refresh_has_messages!`, given the groups that
   * are allowed on some topic that is not deleted (a query over the topic
   * tables, which are not part of this model). The flag is only ever
   * cleared: a group keeps it iff it had it and still has a live topic.
   */
  function RefreshHasMessagesMap(groups: map<int, Group>, messaged: set<int>): (r: map<int, Group>)
    ensures r.Keys == groups.Keys
    ensures forall id :: id in groups ==> r[id].hasMessages == (groups[id].hasMessages && id in messaged)
    ensures forall id :: id in groups && !groups[id].hasMessages ==> !r[id].hasMessages
    ensures forall id :: id in groups ==> r[id].(hasMessages := groups[id].hasMessages) == groups[id]
  {
    map id | id in groups ::
      if groups[id].hasMessages && id !in messaged then groups[id].(hasMessages := false) else groups[id]
  }

  /** `refresh_has_messages!`. */
  method RefreshHasMessages(db: Store, messaged: set<int>)
    requires db.Valid()
    modifies db
    ensures db.Valid()
    ensures db.groups == RefreshHasMessagesMap(old(db.groups), messaged)
    ensures db.users == old(db.users) && db.groupUsers == old(db.groupUsers) && db.nextRowId == old(db.nextRowId)
  {
    db.groups := RefreshHasMessagesMap(db.groups, messaged);
  }

  /** Refreshing the message flags keeps every settled automatic group settled. */
  lemma HasMessagesKeepsSettled(groups: map<int, Group>, rows: Rows, users: map<int, User>, messaged: set<int>)
    requires forall k :: Settled(groups, rows, users, k)
    ensures forall k :: Settled(RefreshHasMessagesMap(groups, messaged), rows, users, k)
  {
    forall k ensures Settled(RefreshHasMessagesMap(groups, messaged), rows, users, k) {
      assert Settled(groups, rows, users, k);
    }
  }

  /** The flag refresh of a group depends on that group's record alone. */
  lemma HasMessagesPointwise(a: map<int, Group>, b: map<int, Group>, messaged: set<int>, h: int)
    requires h in a && h in b && a[h] == b[h]
    ensures RefreshHasMessagesMap(a, messaged)[h] == RefreshHasMessagesMap(b, messaged)[h]
  {
  }

  /**
   * `ensure_consistency!`: when no refresh raises, every automatic group
   * exists and is settled and no group keeps a stale message flag; a
   * `RecordInvalid` from a refresh ends it before `refresh_has_messages!`.
   * Every other group only has its counter reset and, when it runs, its flag
   * refreshed, and keeps its rows.
   */
  method EnsureConsistency(db: Store, messaged: set<int>, c: Collaborators)
    returns (jobs: seq<GroupRecords.SaveJob>, raised: Option<seq<GroupRecords.SaveError>>)
    requires db.Valid()
    modifies db
    ensures db.Valid() && db.users == old(db.users)
    ensures raised.None? ==> forall k :: Settled(db.groups, db.groupUsers, db.users, k)
    ensures raised.None? ==> forall id :: id in db.groups && id !in messaged ==> !db.groups[id].hasMessages
    ensures raised.Some? ==> raised.value != []
    ensures forall x :: x in jobs ==> ById(x.groupId).Some?
    ensures forall h :: h in db.groups ==> h in old(db.groups) || ById(h).Some?
    ensures forall h :: h in old(db.groups) && ById(h).None? ==>
      && h in db.groups
      && db.groups[h] == (if raised.None?
                          then RefreshHasMessagesMap(ResetCounters(old(db.groups), old(db.groupUsers)), messaged)[h]
                          else ResetCounters(old(db.groups), old(db.groupUsers))[h])
    ensures forall h :: ById(h).None? ==> RowsOf(db.groupUsers, h) == RowsOf(old(db.groupUsers), h)
  {
    ResetAllCounters(db);
    ghost var reset, rows := db.groups, db.groupUsers;
    ghost var done;
    jobs, raised, done := RefreshAutomaticGroups(db, [], c);
    OnlyTouchesAutomatic(reset, rows, db.groups, db.groupUsers, TouchedIds(AutoGroupKeys()));
    if raised.None? {
      ghost var refreshed := db.groups;
      RefreshHasMessages(db, messaged);
      HasMessagesKeepsSettled(refreshed, db.groupUsers, db.users, messaged);
      forall h | h in reset && ById(h).None?
        ensures db.groups[h] == RefreshHasMessagesMap(reset, messaged)[h]
      {
        HasMessagesPointwise(refreshed, reset, messaged, h);
      }
    }
  }
}
