/**
 * The automatic-group reconciler: `refresh_automatic_group!` and the
 * operations built on it (`refresh_automatic_groups!`,
 * `ensure_automatic_groups!`, `lookup_group`, `Group[]`) and the trust-tier
 * hook `user_trust_level_change!`.
 */
module Reconciler {
  import opened Wrappers
  import opened Text
  import opened GroupTables
  import opened AutoGroups
  import opened GroupStore
  import GroupRecords
  import GroupValidators

  // ---------------------------------------------------------------------------
  // The reconciliation as set algebra

  /** The rows left by the reconciler's DELETE. */
  function Kept(rows: Rows, k: AutoGroup, users: map<int, User>): (r: Rows)
    requires k != Everyone
  {
    DeleteRows(rows, Id(k), RemoveSubquery(k, users))
  }

  /** The users the reconciler's INSERT gives a row: selected, and without one after the DELETE. */
  function Missing(rows: Rows, k: AutoGroup, users: map<int, User>): (us: set<int>)
    requires k != Everyone
  {
    InsertSubquery(k, users) - MemberIds(Kept(rows, k, users), Id(k))
  }

  /** The two queries select disjoint users (only the rule of trust_level_0 and a negative trust level break this). */
  predicate QueriesDisjoint(k: AutoGroup, users: map<int, User>)
    requires k != Everyone
  {
    RemoveSubquery(k, users) !! InsertSubquery(k, users)
  }

  lemma QueriesDisjointUnlessNegative(k: AutoGroup, users: map<int, User>)
    requires k != Everyone
    requires k == TrustLevel0 ==> forall u :: u in users ==> users[u].trustLevel >= 0
    ensures QueriesDisjoint(k, users)
  {
    forall u | u in RemoveSubquery(k, users) ensures u !in InsertSubquery(k, users) {
    }
  }

  /** Membership of group `Id(k)` matches the group's rule for every known user. */
  predicate MembershipMatchesRule(rows: Rows, k: AutoGroup, users: map<int, User>)
    requires k != Everyone
  {
    forall u :: u in users ==> (IsMember(rows, Id(k), u) <==> Qualifies(k, users[u]))
  }

  /** The rows after the DELETE and the INSERT of one row per user of `added` from id `base` on. */
  function Reconciled(rows: Rows, k: AutoGroup, users: map<int, User>, base: int, added: seq<int>): Rows
    requires k != Everyone
  {
    AppendRows(Kept(rows, k, users), base, Id(k), added, false)
  }

  /** The conditions under which `added` is a valid order of the INSERT's users. */
  ghost predicate InsertOrder(rows: Rows, k: AutoGroup, users: map<int, User>, base: int, added: seq<int>)
    requires k != Everyone
  {
    && KeysBelow(rows, base)
    && Distinct(added)
    && |added| == |Missing(rows, k, users)|
    && forall u :: u in added <==> u in Missing(rows, k, users)
  }

  /** After the reconciliation a known user has a row exactly when the group's rule holds. */
  lemma ReconcileFollowsRule(rows: Rows, k: AutoGroup, users: map<int, User>, base: int, added: seq<int>)
    requires k != Everyone
    requires InsertOrder(rows, k, users, base, added)
    ensures MembershipMatchesRule(Reconciled(rows, k, users, base, added), k, users)
  {
    var g := Id(k);
    var kept := Kept(rows, k, users);
    var after := Reconciled(rows, k, users, base, added);
    SubqueriesMatchRule(k, users);
    DeleteKeepsBound(rows, g, RemoveSubquery(k, users), base);
    forall u | u in users ensures IsMember(after, g, u) <==> Qualifies(k, users[u]) {
      AppendMembership(kept, base, g, added, false, u);
      if Qualifies(k, users[u]) {
        assert u in InsertSubquery(k, users);
      } else {
        assert u in RemoveSubquery(k, users);
        assert !IsMember(kept, g, u);
      }
    }
  }

  /** The reconciliation keeps the rows that link users it does not know to the group. */
  lemma ReconcileKeepsUnknownUsers(rows: Rows, k: AutoGroup, users: map<int, User>, base: int, added: seq<int>)
    requires k != Everyone
    requires InsertOrder(rows, k, users, base, added)
    ensures forall u :: u !in users ==>
      KeysFor(Reconciled(rows, k, users, base, added), Id(k), u) == KeysFor(rows, Id(k), u)
  {
    var g := Id(k);
    var kept := Kept(rows, k, users);
    var after := Reconciled(rows, k, users, base, added);
    forall u | u !in users ensures KeysFor(after, g, u) == KeysFor(rows, g, u) {
      assert u !in added;
      DeleteAppendKeepsUser(rows, g, RemoveSubquery(k, users), base, added, false, u);
    }
  }

  /** The reconciliation leaves the rows of every other group as they were. */
  lemma ReconcileKeepsOtherGroups(rows: Rows, k: AutoGroup, users: map<int, User>, base: int, added: seq<int>)
    requires k != Everyone
    requires InsertOrder(rows, k, users, base, added)
    ensures forall h :: h != Id(k) ==> RowsOf(Reconciled(rows, k, users, base, added), h) == RowsOf(rows, h)
  {
    var g := Id(k);
    var kept := Kept(rows, k, users);
    var after := Reconciled(rows, k, users, base, added);
    forall h | h != g ensures RowsOf(after, h) == RowsOf(rows, h) {
      DeleteKeepsOtherGroups(rows, g, RemoveSubquery(k, users), h);
      DeleteKeepsBound(rows, g, RemoveSubquery(k, users), base);
      AppendKeepsOtherGroups(kept, base, g, added, false, h);
    }
  }

  /** Every user the INSERT adds ends up with exactly one row. */
  lemma ReconcileAddsOneRowEach(rows: Rows, k: AutoGroup, users: map<int, User>, base: int, added: seq<int>)
    requires k != Everyone
    requires InsertOrder(rows, k, users, base, added)
    ensures forall u :: u in Missing(rows, k, users) ==>
      |KeysFor(Reconciled(rows, k, users, base, added), Id(k), u)| == 1
  {
    var g := Id(k);
    var kept := Kept(rows, k, users);
    var after := Reconciled(rows, k, users, base, added);
    forall u | u in Missing(rows, k, users) ensures |KeysFor(after, g, u)| == 1 {
      var i :| 0 <= i < |added| && added[i] == u;
      assert u !in MemberIds(kept, g);
      DeleteKeepsBound(rows, g, RemoveSubquery(k, users), base);
      AppendedOnce(kept, base, g, added, false, i);
    }
  }

  /** On a group whose membership already matches its rule, the DELETE and the INSERT do nothing. */
  lemma ReconcileIdempotent(rows: Rows, k: AutoGroup, users: map<int, User>)
    requires k != Everyone
    requires QueriesDisjoint(k, users)
    requires MembershipMatchesRule(rows, k, users)
    ensures Kept(rows, k, users) == rows
    ensures Missing(rows, k, users) == {}
  {
    var g := Id(k);
    SubqueriesMatchRule(k, users);
    forall key | key in rows ensures key in Kept(rows, k, users) {
      var r := rows[key];
      if r.groupId == g && r.userId in RemoveSubquery(k, users) {
        assert false;
      }
    }
    forall u | u in InsertSubquery(k, users) ensures u in MemberIds(Kept(rows, k, users), g) {
      assert IsMember(rows, g, u);
    }
  }

  // ---------------------------------------------------------------------------
  // The group record

  /**
   * The collaborators of a refresh: the I18n lookup of the default names,
   * `UsernameValidator#valid_format?` for the rename, and what the
   * validations of `save!` consult (`UsernameValidator.perform_validation`,
   * `Email.is_valid?`, and the searches for another group or a category
   * that uses an incoming address).
   */
  datatype Collaborators = Collaborators(
    defaultName: string -> string,
    formatOk: string -> bool,
    nameOk: string -> bool,
    isValid: string -> bool,
    otherGroup: string -> Option<string>,
    category: string -> Option<string>)

  /** `Group.new(name: name.to_s, automatic: true)`, moderators notified at level 2. */
  function NewAutoGroup(k: AutoGroup): (g: Group)
    ensures g.name == Name(k) && g.automatic
    ensures g.defaultNotificationLevel == (if k == Moderators then 2 else 3)
    ensures g.title.None? && !g.primaryGroup && !g.membershipRetroactive
  {
    var g := NewGroup(Name(k), true);
    if k == Moderators then g.(defaultNotificationLevel := 2) else g
  }

  /**
   * The attributes `save!` writes once its validations pass: the name as
   * `name_format_validator` strips it, the domain list as its validator
   * rewrites it, and the incoming address downcased; no other column changes.
   */
  function Stored(a: Group): (g: Group)
    ensures g.name == Strip(a.name)
    ensures g.automatic == a.automatic && g.visibility == a.visibility && g.userCount == a.userCount
    ensures g.title == a.title && g.primaryGroup == a.primaryGroup && g.membershipRetroactive == a.membershipRetroactive
  {
    GroupRecords.DowncasedAttrs(a.(name := Strip(a.name), emailDomains := GroupValidators.DomainsAfter(a.emailDomains)))
  }

  /** The errors the validations of `save!` report for the attributes `a` of group `id`, which has no built rows. */
  function SaveErrors(groups: map<int, Group>, rows: Rows, id: int, persisted: bool, a: Group, c: Collaborators)
    : seq<GroupRecords.SaveError>
  {
    GroupRecords.Validate(a, id, persisted, groups, rows, [], c.nameOk, c.isValid, c.otherGroup, c.category).errors
  }

  /**
   * `group.save!` inside the refresh, on a record with no built or staged
   * rows. When the validations pass, row `id` gets the stored attributes,
   * the propagation callbacks run and the after-save jobs are returned;
   * otherwise `RecordInvalid` is raised, here its `errors`, and nothing is
   * written.
   */
  method SaveRecord(db: Store, id: int, persisted: bool, a: Group, before: Group, c: Collaborators)
    returns (errors: seq<GroupRecords.SaveError>, jobs: seq<GroupRecords.SaveJob>)
    requires db.Valid()
    modifies db
    ensures db.Valid() && db.groupUsers == old(db.groupUsers) && db.nextRowId == old(db.nextRowId)
    ensures errors == SaveErrors(old(db.groups), old(db.groupUsers), id, persisted, a, c)
    ensures errors != [] ==> db.groups == old(db.groups) && db.users == old(db.users) && jobs == []
    ensures errors == [] ==>
      && db.groups == old(db.groups)[id := Stored(a)]
      && db.users == GroupRecords.Propagated(old(db.users), old(db.groupUsers), id, Stored(a), before)
      && jobs == GroupRecords.SaveJobs(id, persisted, Stored(a), before)
  {
    var v := GroupRecords.Validate(a, id, persisted, db.groups, db.groupUsers, [],
                                   c.nameOk, c.isValid, c.otherGroup, c.category);
    errors := v.errors;
    if errors != [] {
      return errors, [];
    }
    var saved := GroupRecords.DowncasedAttrs(v.attrs);
    db.groups := db.groups[id := saved];
    GroupRecords.Propagate(db, id, saved, before);
    jobs := GroupRecords.SaveJobs(id, persisted, saved, before);
  }

  /**
   * The save leaves a new automatic group as it was built: its name has no
   * surrounding white space and it has no domains and no incoming address.
   */
  lemma NewAutoGroupStored(k: AutoGroup)
    ensures Stored(NewAutoGroup(k)) == NewAutoGroup(k)
  {
    var name := Name(k);
    assert name != [] && !IsStripSpace(name[0]) && !IsStripSpace(name[|name| - 1]);
    GroupValidators.StripOfStripped(name);
  }

  /**
   * The groups table once the missing automatic group has been created by a
   * save that passed, which stores the record as built.
   */
  function WithAutoGroup(groups: map<int, Group>, k: AutoGroup): (r: map<int, Group>)
    ensures r.Keys == groups.Keys + {Id(k)}
    ensures forall h :: h in groups ==> r[h] == groups[h]
    ensures Id(k) !in groups ==> r[Id(k)] == NewAutoGroup(k)
  {
    if Id(k) in groups then groups else groups[Id(k) := NewAutoGroup(k)]
  }

  /** The errors of the create's `save!`; none when the group exists and nothing is created. */
  function CreateErrors(groups: map<int, Group>, rows: Rows, k: AutoGroup, c: Collaborators): seq<GroupRecords.SaveError>
  {
    if Id(k) in groups then [] else SaveErrors(groups, rows, Id(k), false, NewAutoGroup(k), c)
  }

  /** The jobs the create's save enqueues; none when nothing is created. */
  function CreateJobs(groups: map<int, Group>, k: AutoGroup): seq<GroupRecords.SaveJob>
  {
    if Id(k) in groups then []
    else GroupRecords.SaveJobs(Id(k), false, NewAutoGroup(k), GroupRecords.SchemaDefaults())
  }

  /** `Group.where("LOWER(name) = ?", name).exists?`. */
  predicate NameTaken(groups: map<int, Group>, name: string)
  {
    exists id :: id in groups && ToLower(groups[id].name) == name
  }

  /**
   * The record after the conditional rename: the localized name is taken only
   * if no group already uses it and it passes the name-format check.
   */
  function Renamed(groups: map<int, Group>, k: AutoGroup, localized: string, formatOk: bool): (g: Group)
  {
    var created := WithAutoGroup(groups, k);
    var base := created[Id(k)];
    if !NameTaken(created, localized) && formatOk then base.(name := localized) else base
  }

  /** The record the refresh hands to its last `save!`: renamed, and visible to owners only for `everyone`. */
  function RefreshRecord(groups: map<int, Group>, k: AutoGroup, c: Collaborators): (g: Group)
  {
    var localized := ToLower(c.defaultName(Name(k)));
    var renamed := Renamed(groups, k, localized, c.formatOk(localized));
    if k == Everyone then renamed.(visibility := OwnersLevel) else renamed
  }

  /** The create does not change the record the rename computes. */
  lemma RefreshRecordAfterCreate(groups: map<int, Group>, k: AutoGroup, c: Collaborators)
    ensures RefreshRecord(WithAutoGroup(groups, k), k, c) == RefreshRecord(groups, k, c)
  {
    var created := WithAutoGroup(groups, k);
    assert Id(k) in created;
    assert WithAutoGroup(created, k) == created;
    var localized := ToLower(c.defaultName(Name(k)));
    assert Renamed(created, k, localized, c.formatOk(localized)) == Renamed(groups, k, localized, c.formatOk(localized));
  }

  /**
   * The rename never fires twice: once the record holds the outcome of one
   * rename attempt, a second attempt with the same name leaves it alone.
   */
  lemma RenameSettles(groups: map<int, Group>, k: AutoGroup, name: string, formatOk: bool, after: Group)
    requires after.name == Renamed(groups, k, ToLower(name), formatOk).name
    ensures Renamed(groups[Id(k) := after], k, ToLower(name), formatOk) == after
  {
    var localized := ToLower(name);
    var created := WithAutoGroup(groups, k);
    var groups' := groups[Id(k) := after];
    ToLowerIdempotent(name);
    if !NameTaken(created, localized) && formatOk {
      assert ToLower(groups'[Id(k)].name) == localized;
    } else if formatOk {
      var other :| other in created && ToLower(created[other].name) == localized;
      assert other in groups' && ToLower(groups'[other].name) == localized;
    }
  }

  /** The state `refresh_automatic_group!` leaves, with the same collaborators. */
  predicate Refreshed(groups: map<int, Group>, rows: Rows, users: map<int, User>, k: AutoGroup,
                      localized: string, formatOk: bool)
  {
    && Id(k) in groups
    && Renamed(groups, k, localized, formatOk) == groups[Id(k)]
    && (k == Everyone ==> groups[Id(k)].visibility == OwnersLevel)
    && (k != Everyone ==> MembershipMatchesRule(rows, k, users) && QueriesDisjoint(k, users)
                          && groups[Id(k)].userCount == RowCount(rows, Id(k)))
  }
  /**
   * What a refresh of `k` guarantees whatever the queries select: the group
   * exists, `everyone` is visible to owners only, and any other group's
   * membership follows its rule and its user count matches its rows.
   */
  predicate Settled(groups: map<int, Group>, rows: Rows, users: map<int, User>, k: AutoGroup)
  {
    && Id(k) in groups
    && (k == Everyone ==> groups[Id(k)].visibility == OwnersLevel)
    && (k != Everyone ==> MembershipMatchesRule(rows, k, users) && groups[Id(k)].userCount == RowCount(rows, Id(k)))
  }

  /** A settled group stays settled while its record and its rows are left alone. */
  lemma SettledFrame(groups: map<int, Group>, rows: Rows, groups': map<int, Group>, rows': Rows,
                     users: map<int, User>, k: AutoGroup)
    requires Settled(groups, rows, users, k)
    requires Id(k) in groups' && groups'[Id(k)] == groups[Id(k)]
    requires RowsOf(rows', Id(k)) == RowsOf(rows, Id(k))
    ensures Settled(groups', rows', users, k)
  {
    RowsOfDetermine(rows, rows', Id(k));
  }

  // ---------------------------------------------------------------------------
  // The operations

  /**
   * The outcome of `refresh_automatic_group!` for an automatic group: its id
   * and the jobs its saves enqueued, or the errors of the `RecordInvalid`
   * that one of its saves raised.
   */
  datatype Refresh = Saved(id: int, jobs: seq<GroupRecords.SaveJob>) | Refused(errors: seq<GroupRecords.SaveError>)

  /**
   * The frame of a refresh: only the groups `ids` may be created, and no
   * other group's record or rows change.
   */
  ghost predicate OnlyTouches(groups: map<int, Group>, rows: Rows, groups': map<int, Group>, rows': Rows, ids: set<int>)
  {
    && groups.Keys <= groups'.Keys <= groups.Keys + ids
    && (forall h :: h in groups && h !in ids ==> groups'[h] == groups[h])
    && (forall h :: h !in ids ==> RowsOf(rows', h) == RowsOf(rows, h))
  }

  /** A frame over automatic group ids leaves every other group alone. */
  lemma OnlyTouchesAutomatic(groups: map<int, Group>, rows: Rows, groups': map<int, Group>, rows': Rows, ids: set<int>)
    requires OnlyTouches(groups, rows, groups', rows', ids)
    requires forall h :: h in ids ==> ById(h).Some?
    ensures forall h :: h in groups' ==> h in groups || ById(h).Some?
    ensures forall h :: h in groups && ById(h).None? ==> h in groups' && groups'[h] == groups[h]
    ensures forall h :: ById(h).None? ==> RowsOf(rows', h) == RowsOf(rows, h)
  {
  }

  /**
   * `refresh_automatic_group!` for a known automatic group `k`: the group is
   * created by a first `save!` when it is missing, renamed, reconciled
   * (except `everyone`) and saved again, and its count is reset. A save that
   * fails raises, so whatever came before it stays written.
   */
  method RefreshAutoGroup(db: Store, k: AutoGroup, c: Collaborators) returns (r: Refresh, ghost added: seq<int>)
    requires db.Valid()
    modifies db
    ensures db.Valid() && db.users == old(db.users)
    ensures OnlyTouches(old(db.groups), old(db.groupUsers), db.groups, db.groupUsers, {Id(k)})
    ensures r.Saved? ==> r.id == Id(k) && Settled(db.groups, db.groupUsers, db.users, k)
    ensures r.Refused? ==> r.errors != []
    ensures CreateErrors(old(db.groups), old(db.groupUsers), k, c) != [] ==>
      && r == Refused(CreateErrors(old(db.groups), old(db.groupUsers), k, c))
      && db.groups == old(db.groups) && db.groupUsers == old(db.groupUsers) && db.nextRowId == old(db.nextRowId)
    ensures CreateErrors(old(db.groups), old(db.groupUsers), k, c) == [] ==>
      var created := WithAutoGroup(old(db.groups), k);
      var record := RefreshRecord(old(db.groups), k, c);
      var errors := SaveErrors(created, db.groupUsers, Id(k), true, record, c);
      && (if k == Everyone then db.groupUsers == old(db.groupUsers) && db.nextRowId == old(db.nextRowId)
          else
            && InsertOrder(old(db.groupUsers), k, old(db.users), old(db.nextRowId), added)
            && db.groupUsers == Reconciled(old(db.groupUsers), k, old(db.users), old(db.nextRowId), added)
            && db.nextRowId == old(db.nextRowId) + |added|)
      && (errors != [] ==> r == Refused(errors) && db.groups == created)
      && (errors == [] ==>
            && r == Saved(Id(k), CreateJobs(old(db.groups), k)
                                  + GroupRecords.SaveJobs(Id(k), true, Stored(record), created[Id(k)]))
            && db.groups == created[Id(k) := if k == Everyone then Stored(record)
                                              else Stored(record).(userCount := RowCount(db.groupUsers, Id(k)))])
  {
    var createErrors, createJobs := CreateIfMissing(db, k, c);
    added := [];
    if createErrors != [] {
      return Refused(createErrors), [];
    }
    RefreshRecordAfterCreate(old(db.groups), k, c);
    var errors, jobs;
    errors, jobs, added := RefreshCreated(db, k, c);
    r := if errors == [] then Saved(Id(k), createJobs + jobs) else Refused(errors);
  }

  /** The rest of `refresh_automatic_group!` once the group exists: rename, reconcile unless `everyone`, `save!`. */
  method RefreshCreated(db: Store, k: AutoGroup, c: Collaborators)
    returns (errors: seq<GroupRecords.SaveError>, jobs: seq<GroupRecords.SaveJob>, ghost added: seq<int>)
    requires db.Valid() && Id(k) in db.groups
    modifies db
    ensures db.Valid() && db.users == old(db.users)
    ensures forall h :: h != Id(k) ==> RowsOf(db.groupUsers, h) == RowsOf(old(db.groupUsers), h)
    ensures if k == Everyone then db.groupUsers == old(db.groupUsers) && db.nextRowId == old(db.nextRowId)
      else
        && InsertOrder(old(db.groupUsers), k, old(db.users), old(db.nextRowId), added)
        && db.groupUsers == Reconciled(old(db.groupUsers), k, old(db.users), old(db.nextRowId), added)
        && db.nextRowId == old(db.nextRowId) + |added|
    ensures var record := RefreshRecord(old(db.groups), k, c);
      && errors == SaveErrors(old(db.groups), db.groupUsers, Id(k), true, record, c)
      && (errors != [] ==> db.groups == old(db.groups))
      && (errors == [] ==>
            && db.groups == old(db.groups)[Id(k) := if k == Everyone then Stored(record)
                                                    else Stored(record).(userCount := RowCount(db.groupUsers, Id(k)))]
            && jobs == GroupRecords.SaveJobs(Id(k), true, Stored(record), old(db.groups)[Id(k)]))
    ensures errors == [] ==> Settled(db.groups, db.groupUsers, db.users, k)
  {
    added := [];
    if k == Everyone {
      errors, jobs := RefreshEveryone(db, c);
    } else {
      errors, jobs, added := RefreshRuleGroup(db, k, c);
    }
  }

  /**
   * The create of `refresh_automatic_group!`: `Group.new` with the fixed id
   * and `save!` when the group is missing; nothing when it exists.
   */
  method CreateIfMissing(db: Store, k: AutoGroup, c: Collaborators)
    returns (errors: seq<GroupRecords.SaveError>, jobs: seq<GroupRecords.SaveJob>)
    requires db.Valid()
    modifies db
    ensures db.Valid() && db.users == old(db.users)
    ensures db.groupUsers == old(db.groupUsers) && db.nextRowId == old(db.nextRowId)
    ensures errors == CreateErrors(old(db.groups), old(db.groupUsers), k, c)
    ensures errors != [] ==> db.groups == old(db.groups)
    ensures errors == [] ==> db.groups == WithAutoGroup(old(db.groups), k) && jobs == CreateJobs(old(db.groups), k)
  {
    var id := Id(k);
    errors, jobs := [], [];
    if id !in db.groups {
      // group = Group.new(...); group.id = id; group.save!
      NewAutoGroupStored(k);
      errors, jobs := SaveRecord(db, id, false, NewAutoGroup(k), GroupRecords.SchemaDefaults(), c);
      if errors == [] {
        assert db.users == old(db.users);
      }
    }
  }

  /** `refresh_automatic_group!(:everyone)` once the group exists: the rename and the visibility, then `save!`. */
  method RefreshEveryone(db: Store, c: Collaborators) returns (errors: seq<GroupRecords.SaveError>, jobs: seq<GroupRecords.SaveJob>)
    requires db.Valid() && Id(Everyone) in db.groups
    modifies db
    ensures db.Valid() && db.users == old(db.users)
    ensures db.groupUsers == old(db.groupUsers) && db.nextRowId == old(db.nextRowId)
    ensures var record := RefreshRecord(old(db.groups), Everyone, c);
      && errors == SaveErrors(old(db.groups), old(db.groupUsers), Id(Everyone), true, record, c)
      && (errors != [] ==> db.groups == old(db.groups) && jobs == [])
      && (errors == [] ==>
            && db.groups == old(db.groups)[Id(Everyone) := Stored(record)]
            && jobs == GroupRecords.SaveJobs(Id(Everyone), true, Stored(record), old(db.groups)[Id(Everyone)]))
    ensures errors == [] ==> Settled(db.groups, db.groupUsers, db.users, Everyone)
  {
    var id := Id(Everyone);
    var before := db.groups[id];
    // the localized rename, and owners-only visibility for `everyone`
    var record := RefreshRecord(db.groups, Everyone, c);
    errors, jobs := SaveRecord(db, id, true, record, before, c);
  }

  /** `refresh_automatic_group!` for a group with a membership rule, once it exists: rename, reconcile, `save!`, recount. */
  method RefreshRuleGroup(db: Store, k: AutoGroup, c: Collaborators)
    returns (errors: seq<GroupRecords.SaveError>, jobs: seq<GroupRecords.SaveJob>, ghost added: seq<int>)
    requires db.Valid() && k != Everyone && Id(k) in db.groups
    modifies db
    ensures db.Valid() && db.users == old(db.users)
    ensures InsertOrder(old(db.groupUsers), k, old(db.users), old(db.nextRowId), added)
    ensures db.groupUsers == Reconciled(old(db.groupUsers), k, old(db.users), old(db.nextRowId), added)
    ensures db.nextRowId == old(db.nextRowId) + |added|
    ensures forall h :: h != Id(k) ==> RowsOf(db.groupUsers, h) == RowsOf(old(db.groupUsers), h)
    ensures var record := RefreshRecord(old(db.groups), k, c);
      && errors == SaveErrors(old(db.groups), db.groupUsers, Id(k), true, record, c)
      && (errors != [] ==> db.groups == old(db.groups) && jobs == [])
      && (errors == [] ==>
            && db.groups == old(db.groups)[Id(k) := Stored(record).(userCount := RowCount(db.groupUsers, Id(k)))]
            && jobs == GroupRecords.SaveJobs(Id(k), true, Stored(record), old(db.groups)[Id(k)]))
    ensures errors == [] ==> Settled(db.groups, db.groupUsers, db.users, k)
  {
    var users, rows := db.users, db.groupUsers;
    added := ReconcileRows(db, k);
    ReconcileFollowsRule(rows, k, users, old(db.nextRowId), added);
    ReconcileKeepsOtherGroups(rows, k, users, old(db.nextRowId), added);
    errors, jobs := SaveCounted(db, k, c);
  }

  /** The `save!` of a rule group's refreshed record, then its recount from the rows. */
  method SaveCounted(db: Store, k: AutoGroup, c: Collaborators)
    returns (errors: seq<GroupRecords.SaveError>, jobs: seq<GroupRecords.SaveJob>)
    requires db.Valid() && Id(k) in db.groups
    modifies db
    ensures db.Valid() && db.users == old(db.users)
    ensures db.groupUsers == old(db.groupUsers) && db.nextRowId == old(db.nextRowId)
    ensures var record := RefreshRecord(old(db.groups), k, c);
      && errors == SaveErrors(old(db.groups), old(db.groupUsers), Id(k), true, record, c)
      && (errors != [] ==> db.groups == old(db.groups) && jobs == [])
      && (errors == [] ==>
            && db.groups == old(db.groups)[Id(k) := Stored(record).(userCount := RowCount(db.groupUsers, Id(k)))]
            && jobs == GroupRecords.SaveJobs(Id(k), true, Stored(record), old(db.groups)[Id(k)]))
  {
    var id := Id(k);
    var record := RefreshRecord(db.groups, k, c);
    errors, jobs := SaveRecord(db, id, true, record, db.groups[id], c);
    if errors == [] {
      db.groups := db.groups[id := db.groups[id].(userCount := RowCount(db.groupUsers, id))];
    }
  }

  /** The DELETE and the INSERT of `refresh_automatic_group!` on the rows of `k`'s group. */
  method ReconcileRows(db: Store, k: AutoGroup) returns (ghost added: seq<int>)
    requires db.Valid() && k != Everyone
    modifies db
    ensures db.Valid() && db.users == old(db.users) && db.groups == old(db.groups)
    ensures InsertOrder(old(db.groupUsers), k, old(db.users), old(db.nextRowId), added)
    ensures db.groupUsers == Reconciled(old(db.groupUsers), k, old(db.users), old(db.nextRowId), added)
    ensures db.nextRowId == old(db.nextRowId) + |added|
  {
    var id := Id(k);
    var rows := db.groupUsers;
    // the DELETE of the rows the rule no longer admits
    var kept := DeleteRows(rows, id, RemoveSubquery(k, db.users));
    DeleteKeepsBound(rows, id, RemoveSubquery(k, db.users), db.nextRowId);
    db.groupUsers := kept;
    // the INSERT of the admitted users without a row
    added := InsertRows(db, id, InsertSubquery(k, db.users) - MemberIds(kept, id), false);
  }

  /** What one refresh promises about the group it reconciles. */
  lemma RefreshEstablishes(groups: map<int, Group>, rows: Rows, users: map<int, User>, next: int,
                           k: AutoGroup, name: string, formatOk: bool, added: seq<int>)
    requires k != Everyone
    requires InsertOrder(rows, k, users, next, added)
    ensures var after := Reconciled(rows, k, users, next, added);
      var localized := ToLower(name);
      var groups' := groups[Id(k) := Renamed(groups, k, localized, formatOk).(userCount := RowCount(after, Id(k)))];
      && Settled(groups', after, users, k)
      && (forall u :: u in Missing(rows, k, users) ==> |KeysFor(after, Id(k), u)| == 1)
      && (forall u :: u !in users ==> KeysFor(after, Id(k), u) == KeysFor(rows, Id(k), u))
      && (forall h :: h != Id(k) ==> RowsOf(after, h) == RowsOf(rows, h))
      && (QueriesDisjoint(k, users) ==> Refreshed(groups', after, users, k, localized, formatOk))
      && (Refreshed(groups, rows, users, k, localized, formatOk) ==> groups' == groups && after == rows && added == [])
  {
    var after := Reconciled(rows, k, users, next, added);
    var localized := ToLower(name);
    var groups' := groups[Id(k) := Renamed(groups, k, localized, formatOk).(userCount := RowCount(after, Id(k)))];
    ReconcileFollowsRule(rows, k, users, next, added);
    ReconcileAddsOneRowEach(rows, k, users, next, added);
    ReconcileKeepsUnknownUsers(rows, k, users, next, added);
    ReconcileKeepsOtherGroups(rows, k, users, next, added);
    RenameSettles(groups, k, name, formatOk, groups'[Id(k)]);
    if Refreshed(groups, rows, users, k, localized, formatOk) {
      ReconcileIdempotent(rows, k, users);
      assert |added| == 0;
      assert after == Kept(rows, k, users);
    }
  }

  /** The same for `everyone`, whose refresh only sets the visibility and the name. */
  lemma RefreshEveryoneEstablishes(groups: map<int, Group>, rows: Rows, users: map<int, User>,
                                   name: string, formatOk: bool)
    ensures var localized := ToLower(name);
      var groups' := groups[Id(Everyone) := Renamed(groups, Everyone, localized, formatOk).(visibility := OwnersLevel)];
      && Settled(groups', rows, users, Everyone)
      && Refreshed(groups', rows, users, Everyone, localized, formatOk)
      && (Refreshed(groups, rows, users, Everyone, localized, formatOk) ==> groups' == groups)
  {
    var localized := ToLower(name);
    var groups' := groups[Id(Everyone) := Renamed(groups, Everyone, localized, formatOk).(visibility := OwnersLevel)];
    RenameSettles(groups, Everyone, name, formatOk, groups'[Id(Everyone)]);
  }

  /**
   * The outcome of `lookup_group`: the group's id, no such automatic group
   * yet (`nil`), or the `ArgumentError` "unknown group".
   */
  datatype Lookup = Found(id: int) | NotFound | UnknownGroup

  /**
   * `lookup_group(name)`: a symbol of `AUTO_GROUPS` is looked up by its fixed
   * id, any other key by its exact text as a name.
   */
  method LookupGroup(db: Store, key: GroupKey) returns (r: Lookup)
    ensures AutoOf(key).Some? ==>
      r == (if Id(AutoOf(key).value) in db.groups then Found(Id(AutoOf(key).value)) else NotFound)
    ensures AutoOf(key).None? ==> r != NotFound
    ensures r.Found? && AutoOf(key).None? ==> r.id in db.groups && db.groups[r.id].name == key.name
    ensures r == UnknownGroup <==> AutoOf(key).None? && forall id :: id in db.groups ==> db.groups[id].name != key.name
  {
    var auto := AutoOf(key);
    if auto.Some? {
      var id := Id(auto.value);
      return if id in db.groups then Found(id) else NotFound;
    }
    if forall id :: id in db.groups ==> db.groups[id].name != key.name {
      return UnknownGroup;
    }
    var id :| id in db.groups && db.groups[id].name == key.name;
    return Found(id);
  }

  /**
   * The find by name and the uniqueness validation agree: a name the lookup
   * finds is one a new group's `save!` refuses, and a name no group has
   * case-insensitively is one the lookup answers with "unknown group".
   */
  lemma LookupAgreesWithUniqueness(groups: map<int, Group>, name: string, selfId: int)
    ensures (exists id :: id in groups && groups[id].name == name) ==> GroupRecords.NameClash(groups, selfId, false, name)
    ensures !GroupRecords.NameClash(groups, selfId, false, name) ==> forall id :: id in groups ==> groups[id].name != name
  {
    if exists id :: id in groups && groups[id].name == name {
      var id :| id in groups && groups[id].name == name;
      assert ToLower(groups[id].name) == ToLower(name);
    }
  }

  /** `refresh_automatic_group!(name)`: a key outside `AUTO_GROUPS`, a string among them, does nothing. */
  method RefreshAutomaticGroup(db: Store, key: GroupKey, c: Collaborators) returns (r: Option<Refresh>)
    requires db.Valid()
    modifies db
    ensures db.Valid() && db.users == old(db.users)
    ensures AutoOf(key).None? ==>
      r.None? && db.groups == old(db.groups) && db.groupUsers == old(db.groupUsers) && db.nextRowId == old(db.nextRowId)
    ensures AutoOf(key).Some? ==>
      && r.Some?
      && OnlyTouches(old(db.groups), old(db.groupUsers), db.groups, db.groupUsers, {Id(AutoOf(key).value)})
      && (r.value.Saved? ==> r.value.id == Id(AutoOf(key).value)
                             && Settled(db.groups, db.groupUsers, db.users, AutoOf(key).value)
                             && forall x :: x in r.value.jobs ==> x.groupId == r.value.id)
      && (r.value.Refused? ==> r.value.errors != [])
  {
    var auto := AutoOf(key);
    if auto.None? {
      return None;
    }
    var outcome, added := RefreshAutoGroup(db, auto.value, c);
    return Some(outcome);
  }

  /** The ids of the automatic groups the keys `list` name. */
  function TouchedIds(list: seq<GroupKey>): (ids: set<int>)
    ensures forall h :: h in ids <==> exists j :: 0 <= j < |list| && AutoOf(list[j]).Some? && Id(AutoOf(list[j]).value) == h
    ensures forall h :: h in ids ==> ById(h).Some?
  {
    if list == [] then {}
    else
      var n := |list| - 1;
      assert forall j :: 0 <= j < n ==> list[..n][j] == list[j];
      TouchedIds(list[..n]) + (if AutoOf(list[n]).Some? then {Id(AutoOf(list[n]).value)} else {})
  }

  /** The earlier keys name no more groups than the whole list. */
  lemma TouchedPrefix(list: seq<GroupKey>, i: nat)
    requires i <= |list|
    ensures TouchedIds(list[..i]) <= TouchedIds(list)
  {
    forall h | h in TouchedIds(list[..i]) ensures h in TouchedIds(list) {
      var j :| 0 <= j < i && AutoOf(list[..i][j]).Some? && Id(AutoOf(list[..i][j]).value) == h;
      assert list[..i][j] == list[j];
    }
  }

  /**
   * `refresh_automatic_groups!(*names)`: every named automatic group, or all
   * of them when none is named, in order, until a save raises; `done` is
   * the position of the key whose refresh raised, or the length of the list.
   */
  method RefreshAutomaticGroups(db: Store, keys: seq<GroupKey>, c: Collaborators)
    returns (jobs: seq<GroupRecords.SaveJob>, raised: Option<seq<GroupRecords.SaveError>>, ghost done: nat)
    requires db.Valid()
    modifies db
    ensures db.Valid() && db.users == old(db.users)
    ensures var list := if keys == [] then AutoGroupKeys() else keys;
      && done <= |list|
      && (raised.None? <==> done == |list|)
      && (raised.Some? ==> raised.value != [])
      && OnlyTouches(old(db.groups), old(db.groupUsers), db.groups, db.groupUsers, TouchedIds(list))
      && (forall j :: 0 <= j < done && AutoOf(list[j]).Some? ==>
            Settled(db.groups, db.groupUsers, db.users, AutoOf(list[j]).value) || (raised.Some? && AutoOf(list[j]) == AutoOf(list[done])))
      && (forall x :: x in jobs ==> x.groupId in TouchedIds(list))
    ensures keys == [] && raised.None? ==> forall k :: Settled(db.groups, db.groupUsers, db.users, k)
  {
    var list := if keys == [] then AutoGroupKeys() else keys;
    jobs, raised, done := RefreshKeys(db, list, c);
    if keys == [] && raised.None? {
      forall k ensures Settled(db.groups, db.groupUsers, db.users, k) {
        AutoGroupKeysComplete(k);
      }
    }
  }

  /** The loop of `refresh_automatic_groups!` over the keys `list`, until a save raises. */
  method RefreshKeys(db: Store, list: seq<GroupKey>, c: Collaborators)
    returns (jobs: seq<GroupRecords.SaveJob>, raised: Option<seq<GroupRecords.SaveError>>, ghost done: nat)
    requires db.Valid()
    modifies db
    ensures db.Valid() && db.users == old(db.users)
    ensures done <= |list|
    ensures raised.None? <==> done == |list|
    ensures raised.Some? ==> raised.value != []
    ensures OnlyTouches(old(db.groups), old(db.groupUsers), db.groups, db.groupUsers, TouchedIds(list))
    ensures forall j :: 0 <= j < done && AutoOf(list[j]).Some? ==>
      Settled(db.groups, db.groupUsers, db.users, AutoOf(list[j]).value) || (raised.Some? && AutoOf(list[j]) == AutoOf(list[done]))
    ensures forall x :: x in jobs ==> x.groupId in TouchedIds(list)
  {
    jobs, raised := [], None;
    var i := 0;
    while i < |list| && raised.None?
      invariant db.Valid() && db.users == old(db.users)
      invariant KeysProgress(old(db.groups), old(db.groupUsers), db.groups, db.groupUsers, db.users, list, i, raised, jobs)
    {
      jobs, raised := RefreshKey(db, list, i, c, jobs, old(db.groups), old(db.groupUsers));
      i := i + 1;
    }
    done := if raised.Some? then i - 1 else i;
    assert list[..|list|] == list;
    TouchedPrefix(list, i);
  }

  /**
   * The state of `refresh_automatic_groups!` after the first `i` keys: only
   * their groups were touched, each is settled unless the last refresh
   * raised for it, and the jobs belong to them.
   */
  ghost predicate KeysProgress(groupsS: map<int, Group>, rowsS: Rows, groups: map<int, Group>, rows: Rows,
                               users: map<int, User>, list: seq<GroupKey>, i: int,
                               raised: Option<seq<GroupRecords.SaveError>>, jobs: seq<GroupRecords.SaveJob>)
  {
    && 0 <= i <= |list|
    && (raised.Some? ==> 0 < i && raised.value != [])
    && OnlyTouches(groupsS, rowsS, groups, rows, TouchedIds(list[..i]))
    && (forall j :: 0 <= j < i && AutoOf(list[j]).Some? ==>
          Settled(groups, rows, users, AutoOf(list[j]).value) || (raised.Some? && AutoOf(list[j]) == AutoOf(list[i - 1])))
    && (forall x :: x in jobs ==> x.groupId in TouchedIds(list[..i]))
  }

  /** One iteration of `refresh_automatic_groups!`: the refresh of the key at `i`. */
  method RefreshKey(db: Store, list: seq<GroupKey>, i: nat, c: Collaborators, jobs: seq<GroupRecords.SaveJob>,
                    ghost groupsS: map<int, Group>, ghost rowsS: Rows)
    returns (jobs': seq<GroupRecords.SaveJob>, raised: Option<seq<GroupRecords.SaveError>>)
    requires db.Valid() && i < |list|
    requires KeysProgress(groupsS, rowsS, db.groups, db.groupUsers, db.users, list, i, None, jobs)
    modifies db
    ensures db.Valid() && db.users == old(db.users)
    ensures KeysProgress(groupsS, rowsS, db.groups, db.groupUsers, db.users, list, i + 1, raised, jobs')
  {
    ghost var groups0, rows0 := db.groups, db.groupUsers;
    var r := RefreshAutomaticGroup(db, list[i], c);
    RefreshKeysStep(groupsS, rowsS, groups0, rows0, db.groups, db.groupUsers, list, i, r, jobs);
    jobs', raised := jobs, None;
    if r.Some? {
      match r.value
      case Saved(_, js) => jobs' := jobs + js;
      case Refused(errors) => raised := Some(errors);
    }
    RefreshKeepsSettled(groups0, rows0, db.groups, db.groupUsers, db.users, list, i, r, raised);
  }

  /** One refresh of the loop touches at most the group its key names, and its jobs belong to that group. */
  lemma RefreshKeysStep(groupsS: map<int, Group>, rowsS: Rows, groups0: map<int, Group>, rows0: Rows,
                        groups: map<int, Group>, rows: Rows, list: seq<GroupKey>, i: nat, r: Option<Refresh>,
                        jobs: seq<GroupRecords.SaveJob>)
    requires i < |list|
    requires OnlyTouches(groupsS, rowsS, groups0, rows0, TouchedIds(list[..i]))
    requires forall x :: x in jobs ==> x.groupId in TouchedIds(list[..i])
    requires AutoOf(list[i]).None? ==> r.None? && groups == groups0 && rows == rows0
    requires AutoOf(list[i]).Some? ==>
      && r.Some?
      && OnlyTouches(groups0, rows0, groups, rows, {Id(AutoOf(list[i]).value)})
      && (r.value.Saved? ==> r.value.id == Id(AutoOf(list[i]).value) && forall x :: x in r.value.jobs ==> x.groupId == r.value.id)
    ensures OnlyTouches(groupsS, rowsS, groups, rows, TouchedIds(list[..i + 1]))
    ensures r.Some? && r.value.Saved? ==> forall x :: x in jobs + r.value.jobs ==> x.groupId in TouchedIds(list[..i + 1])
    ensures forall x :: x in jobs ==> x.groupId in TouchedIds(list[..i + 1])
  {
    assert list[..i + 1][..i] == list[..i];
    assert list[..i + 1][i] == list[i];
    var step := if AutoOf(list[i]).Some? then {Id(AutoOf(list[i]).value)} else {};
    assert TouchedIds(list[..i + 1]) == TouchedIds(list[..i]) + step;
  }

  /** One refresh of the loop keeps every earlier group settled unless it raised for that same group. */
  lemma RefreshKeepsSettled(groups0: map<int, Group>, rows0: Rows, groups: map<int, Group>, rows: Rows,
                            users: map<int, User>, list: seq<GroupKey>, i: nat, r: Option<Refresh>,
                            raised: Option<seq<GroupRecords.SaveError>>)
    requires i < |list|
    requires raised.Some? <==> r.Some? && r.value.Refused?
    requires forall j :: 0 <= j < i && AutoOf(list[j]).Some? ==> Settled(groups0, rows0, users, AutoOf(list[j]).value)
    requires AutoOf(list[i]).None? ==> r.None? && groups == groups0 && rows == rows0
    requires AutoOf(list[i]).Some? ==>
      && r.Some?
      && OnlyTouches(groups0, rows0, groups, rows, {Id(AutoOf(list[i]).value)})
      && (r.value.Saved? ==> Settled(groups, rows, users, AutoOf(list[i]).value))
    ensures forall j :: 0 <= j <= i && AutoOf(list[j]).Some? ==>
      Settled(groups, rows, users, AutoOf(list[j]).value) || (raised.Some? && AutoOf(list[j]) == AutoOf(list[i]))
  {
    forall j | 0 <= j <= i && AutoOf(list[j]).Some? && !(raised.Some? && AutoOf(list[j]) == AutoOf(list[i]))
      ensures Settled(groups, rows, users, AutoOf(list[j]).value)
    {
      var k := AutoOf(list[j]).value;
      if AutoOf(list[i]) != Some(k) {
        if AutoOf(list[i]).Some? && Id(AutoOf(list[i]).value) == Id(k) {
          IdInjective(AutoOf(list[i]).value, k);
        }
        SettledFrame(groups0, rows0, groups, rows, users, k);
      }
    }
  }

  /** One step of `ensure_automatic_groups!`: refresh `k` unless `lookup_group` finds it. */
  method EnsureAutomaticGroup(db: Store, k: AutoGroup, c: Collaborators) returns (r: Option<Refresh>)
    requires db.Valid()
    modifies db
    ensures db.Valid() && db.users == old(db.users)
    ensures Id(k) in old(db.groups) ==> r.None? && db.groups == old(db.groups) && db.groupUsers == old(db.groupUsers)
    ensures Id(k) !in old(db.groups) ==>
      && r.Some?
      && OnlyTouches(old(db.groups), old(db.groupUsers), db.groups, db.groupUsers, {Id(k)})
      && (r.value.Saved? ==> Settled(db.groups, db.groupUsers, db.users, k)
                             && forall x :: x in r.value.jobs ==> x.groupId == Id(k))
      && (r.value.Refused? ==> r.value.errors != [])
  {
    var found := LookupGroup(db, Sym(Name(k)));
    r := None;
    if found == NotFound {
      r := RefreshAutomaticGroup(db, Sym(Name(k)), c);
    }
  }

  /**
   * The frame of `ensure_automatic_groups!` after its first `n` steps: only
   * their groups may be created, and the groups that existed keep their
   * record and rows.
   */
  ghost predicate EnsureFrame(groups0: map<int, Group>, rows0: Rows, groups: map<int, Group>, rows: Rows, n: nat)
    requires n <= |AllAutoGroups|
  {
    && groups.Keys <= groups0.Keys + FirstIds(n)
    && (forall h :: h in groups0 ==> h in groups && groups[h] == groups0[h])
    && (forall h :: h in groups0 ==> RowsOf(rows, h) == RowsOf(rows0, h))
  }

  /** The first `n` automatic groups exist, and the ones that were missing are settled. */
  ghost predicate EnsuredFirst(groups0: map<int, Group>, groups: map<int, Group>, rows: Rows, users: map<int, User>, n: nat)
    requires n <= |AllAutoGroups|
  {
    && (forall j :: 0 <= j < n ==> Id(AllAutoGroups[j]) in groups)
    && (forall j :: 0 <= j < n && Id(AllAutoGroups[j]) !in groups0 ==> Settled(groups, rows, users, AllAutoGroups[j]))
  }

  /**
   * The state after `ensure_automatic_groups!` has handled the first `i`
   * automatic groups, starting from `groups0` and `rows0`.
   */
  ghost predicate EnsuredUpTo(groups0: map<int, Group>, rows0: Rows, groups: map<int, Group>, rows: Rows,
                              users: map<int, User>, i: nat)
    requires i <= |AllAutoGroups|
  {
    EnsureFrame(groups0, rows0, groups, rows, i) && EnsuredFirst(groups0, groups, rows, users, i)
  }

  lemma EnsuredStep(groups0: map<int, Group>, rows0: Rows, groups: map<int, Group>, rows: Rows,
                    groups': map<int, Group>, rows': Rows, users: map<int, User>, i: nat)
    requires i < |AllAutoGroups|
    requires EnsuredUpTo(groups0, rows0, groups, rows, users, i)
    requires var k := AllAutoGroups[i];
      && (Id(k) in groups ==> groups' == groups && rows' == rows)
      && (Id(k) !in groups ==> Settled(groups', rows', users, k) && OnlyTouches(groups, rows, groups', rows', {Id(k)}))
    ensures EnsuredUpTo(groups0, rows0, groups', rows', users, i + 1)
  {
    LaterIdIsNew(i);
    FirstIdsSnoc(i);
    if Id(AllAutoGroups[i]) !in groups {
      EnsuredStepTouched(groups0, rows0, groups, rows, groups', rows', users, i);
    }
  }

  /**
   * A step that refreshes the missing group `k` keeps the frame and the
   * earlier groups, whether its saves pass or not.
   */
  lemma EnsuredStepTouched(groups0: map<int, Group>, rows0: Rows, groups: map<int, Group>, rows: Rows,
                           groups': map<int, Group>, rows': Rows, users: map<int, User>, i: nat)
    requires i < |AllAutoGroups|
    requires EnsuredUpTo(groups0, rows0, groups, rows, users, i)
    requires Id(AllAutoGroups[i]) !in groups
    requires OnlyTouches(groups, rows, groups', rows', {Id(AllAutoGroups[i])})
    ensures EnsureFrame(groups0, rows0, groups', rows', i + 1)
    ensures EnsuredFirst(groups0, groups', rows', users, i)
  {
    LaterIdIsNew(i);
    FirstIdsSnoc(i);
    forall j | 0 <= j < i && Id(AllAutoGroups[j]) !in groups0
      ensures Settled(groups', rows', users, AllAutoGroups[j])
    {
      SettledFrame(groups, rows, groups', rows', users, AllAutoGroups[j]);
    }
  }

  /**
   * `ensure_automatic_groups!`: creates (by refreshing) every automatic group
   * that is missing, until a save raises; groups that exist are left alone.
   * `done` counts the groups handled before the one whose refresh raised.
   */
  method EnsureAutomaticGroups(db: Store, c: Collaborators)
    returns (jobs: seq<GroupRecords.SaveJob>, raised: Option<seq<GroupRecords.SaveError>>, ghost done: nat)
    requires db.Valid()
    modifies db
    ensures db.Valid() && db.users == old(db.users)
    ensures done <= |AllAutoGroups| && (raised.None? <==> done == |AllAutoGroups|)
    ensures raised.None? ==> EnsuredUpTo(old(db.groups), old(db.groupUsers), db.groups, db.groupUsers, db.users, done)
    ensures raised.Some? ==>
      && raised.value != []
      && EnsureFrame(old(db.groups), old(db.groupUsers), db.groups, db.groupUsers, done + 1)
      && EnsuredFirst(old(db.groups), db.groups, db.groupUsers, db.users, done)
    ensures raised.None? ==> forall k :: Id(k) in db.groups
    ensures raised.None? ==> forall k :: Id(k) !in old(db.groups) ==> Settled(db.groups, db.groupUsers, db.users, k)
    ensures forall x :: x in jobs ==> ById(x.groupId).Some?
  {
    jobs, raised := [], None;
    var i := 0;
    while i < |AllAutoGroups| && raised.None?
      invariant 0 <= i <= |AllAutoGroups|
      invariant db.Valid() && db.users == old(db.users)
      invariant raised.None? ==> EnsuredUpTo(old(db.groups), old(db.groupUsers), db.groups, db.groupUsers, db.users, i)
      invariant raised.Some? ==>
        && 0 < i && raised.value != []
        && EnsureFrame(old(db.groups), old(db.groupUsers), db.groups, db.groupUsers, i)
        && EnsuredFirst(old(db.groups), db.groups, db.groupUsers, db.users, i - 1)
      invariant forall x :: x in jobs ==> ById(x.groupId).Some?
    {
      ghost var groups1, rows1 := db.groups, db.groupUsers;
      var k := AllAutoGroups[i];
      var r := EnsureAutomaticGroup(db, k, c);
      if r.Some? && r.value.Refused? {
        raised := Some(r.value.errors);
        EnsuredStepTouched(old(db.groups), old(db.groupUsers), groups1, rows1, db.groups, db.groupUsers, db.users, i);
      } else {
        if r.Some? {
          jobs := jobs + r.value.jobs;
        }
        EnsuredStep(old(db.groups), old(db.groupUsers), groups1, rows1, db.groups, db.groupUsers, db.users, i);
      }
      i := i + 1;
    }
    done := if raised.Some? then i - 1 else i;
    if raised.None? {
      EnsuredAll(old(db.groups), old(db.groupUsers), db.groups, db.groupUsers, db.users);
    }
  }

  /** After all steps every automatic group exists, and the ones that were missing are settled. */
  lemma EnsuredAll(groups0: map<int, Group>, rows0: Rows, groups: map<int, Group>, rows: Rows, users: map<int, User>)
    requires EnsuredUpTo(groups0, rows0, groups, rows, users, |AllAutoGroups|)
    ensures forall k :: Id(k) in groups
    ensures forall k :: Id(k) !in groups0 ==> Settled(groups, rows, users, k)
  {
    forall k ensures Id(k) in groups && (Id(k) !in groups0 ==> Settled(groups, rows, users, k)) {
      var j := match k
        case Everyone => 0 case Admins => 1 case Moderators => 2 case Staff => 3
        case TrustLevel0 => 4 case TrustLevel1 => 5 case TrustLevel2 => 6
        case TrustLevel3 => 7 case TrustLevel4 => 8;
      assert AllAutoGroups[j] == k;
    }
  }

  /**
   * The outcome of `Group[name]`: the group and the jobs of the refresh that
   * produced it, the `ArgumentError` of `lookup_group`, or the
   * `RecordInvalid` of the refresh.
   */
  datatype Fetch =
    | Fetched(id: int, jobs: seq<GroupRecords.SaveJob>)
    | UnknownGroupRaised
    | RecordInvalidRaised(errors: seq<GroupRecords.SaveError>)

  /** `Group[name]`: the group found by `lookup_group`, or else the result of refreshing it. */
  method Index(db: Store, key: GroupKey, c: Collaborators) returns (r: Fetch)
    requires db.Valid()
    modifies db
    ensures db.Valid() && db.users == old(db.users)
    ensures r.Fetched? ==> r.id in db.groups
    ensures AutoOf(key).Some? && Id(AutoOf(key).value) in old(db.groups) ==>
      r == Fetched(Id(AutoOf(key).value), []) && db.groups == old(db.groups) && db.groupUsers == old(db.groupUsers)
    ensures AutoOf(key).Some? && Id(AutoOf(key).value) !in old(db.groups) ==>
      && !r.UnknownGroupRaised?
      && OnlyTouches(old(db.groups), old(db.groupUsers), db.groups, db.groupUsers, {Id(AutoOf(key).value)})
      && (r.Fetched? ==> r.id == Id(AutoOf(key).value) && Settled(db.groups, db.groupUsers, db.users, AutoOf(key).value))
      && (r.RecordInvalidRaised? ==> r.errors != [])
    ensures AutoOf(key).None? ==>
      && db.groups == old(db.groups) && db.groupUsers == old(db.groupUsers)
      && !r.RecordInvalidRaised?
      && (r.Fetched? ==> db.groups[r.id].name == key.name && r.jobs == [])
    ensures r == UnknownGroupRaised <==>
      AutoOf(key).None? && forall id :: id in db.groups ==> db.groups[id].name != key.name
  {
    var found := LookupGroup(db, key);
    match found
    case Found(id) =>
      r := Fetched(id, []);
    case UnknownGroup =>
      r := UnknownGroupRaised;
    case NotFound =>
      // `lookup_group` gives nil only for a key of `AUTO_GROUPS`, whose refresh answers
      var refreshed := RefreshAutomaticGroup(db, key, c);
      r := match refreshed.value
        case Saved(id, jobs) => Fetched(id, jobs)
        case Refused(errors) => RecordInvalidRaised(errors);
  }

  // ---------------------------------------------------------------------------
  // Trust tiers

  /**
   * The progress of `user_trust_level_change!` after the first `i` desired
   * tiers, from the rows `rows0` left by its DELETE and the groups `groups0`.
   * The group refreshed for a missing tier is `AUTO_GROUP_IDS[trust_level]`,
   * whose id is the trust level itself, so `tl` is excluded throughout.
   */
  ghost predicate TierProgress(rows0: Rows, groups0: map<int, Group>, rows: Rows, groups: map<int, Group>,
                               userId: int, tl: int, desired: seq<int>, i: nat)
    requires i <= |desired|
  {
    && (forall h :: h in TrustGroupIds && h !in desired && h != tl ==> !IsMember(rows, h, userId))
    && (forall j :: 0 <= j < i && desired[j] in groups0 && desired[j] != tl ==>
          && IsMember(rows, desired[j], userId)
          && (IsMember(rows0, desired[j], userId) ==> KeysFor(rows, desired[j], userId) == KeysFor(rows0, desired[j], userId))
          && (!IsMember(rows0, desired[j], userId) ==> |KeysFor(rows, desired[j], userId)| == 1))
    && (forall h, u :: 10 <= h <= 19 && h != tl && (u != userId || h !in desired[..i]) ==>
          KeysFor(rows, h, u) == KeysFor(rows0, h, u))
    && (forall h :: !(10 <= h <= 19) && h != tl ==> RowsOf(rows, h) == RowsOf(rows0, h))
    && (forall h :: h != tl ==> (h in groups <==> h in groups0) && (h in groups0 ==> groups[h] == groups0[h]))
  }


  /** A tier step that gives the user a row in an existing desired group keeps the progress. */
  lemma TierInsertStep(rows0: Rows, groups0: map<int, Group>, rows: Rows, groups: map<int, Group>,
                       userId: int, tl: int, desired: seq<int>, i: nat, next: int)
    requires Increasing(desired) && forall j :: 0 <= j < |desired| ==> 10 <= desired[j] <= 19
    requires i < |desired| && desired[i] in groups
    requires KeysBelow(rows, next)
    requires TierProgress(rows0, groups0, rows, groups, userId, tl, desired, i)
    ensures var rows' := if IsMember(rows, desired[i], userId) then rows
                         else rows[next := GroupUser(desired[i], userId, false)];
      TierProgress(rows0, groups0, rows', groups, userId, tl, desired, i + 1)
  {
    var g := desired[i];
    assert desired[..i + 1] == desired[..i] + [g];
    assert g !in desired[..i] by {
      forall j | 0 <= j < i ensures desired[..i][j] != g {
        assert desired[j] < g;
      }
    }
    KeysForEmpty(rows, g, userId);
    KeysForEmpty(rows0, g, userId);
    if g != tl {
      assert KeysFor(rows, g, userId) == KeysFor(rows0, g, userId);
    }
    InsertOneEffect(rows, next, g, userId, false);
    var r := rows[next := GroupUser(g, userId, false)];
    if !IsMember(rows, g, userId) {
      forall h | h in TrustGroupIds && h !in desired && h != tl ensures !IsMember(r, h, userId) {
        KeysForEmpty(rows, h, userId);
        KeysForEmpty(r, h, userId);
      }
      forall j | 0 <= j < i && desired[j] in groups0 && desired[j] != tl
        ensures IsMember(r, desired[j], userId) && KeysFor(r, desired[j], userId) == KeysFor(rows, desired[j], userId)
      {
        assert desired[j] < g;
        var key :| key in rows && rows[key].groupId == desired[j] && rows[key].userId == userId;
        assert key in r && r[key] == rows[key];
      }
    }
  }

  /**
   * A tier step that refreshes `AUTO_GROUP_IDS[tl]` keeps the progress,
   * whether that refresh's saves pass or not.
   */
  lemma TierRefreshStep(rows0: Rows, groups0: map<int, Group>, rows: Rows, groups: map<int, Group>,
                        rows': Rows, groups': map<int, Group>, userId: int, tl: int, desired: seq<int>, i: nat)
    requires i < |desired| && desired[i] !in groups
    requires TierProgress(rows0, groups0, rows, groups, userId, tl, desired, i)
    requires OnlyTouches(groups, rows, groups', rows', {tl})
    ensures TierProgress(rows0, groups0, rows', groups', userId, tl, desired, i + 1)
  {
    forall h, u | h != tl
      ensures IsMember(rows', h, u) == IsMember(rows, h, u) && KeysFor(rows', h, u) == KeysFor(rows, h, u)
    {
      RowsOfDetermine(rows, rows', h);
    }
  }

  /** The DELETE of `user_trust_level_change!` starts the progress and touches only the undesired tiers. */
  lemma TierStart(rows: Rows, groups: map<int, Group>, userId: int, tl: int, next: int)
    requires KeysBelow(rows, next)
    ensures var desired := DesiredTrustLevelGroups(tl);
      var rows0 := DeleteUserRows(rows, UndesiredTiers(tl), userId);
      && KeysBelow(rows0, next)
      && TierProgress(rows0, groups, rows0, groups, userId, tl, desired, 0)
      && (forall h, u :: u != userId ==> KeysFor(rows0, h, u) == KeysFor(rows, h, u))
      && (forall h :: !(10 <= h <= 19) ==> RowsOf(rows0, h) == RowsOf(rows, h))
  {
    var desired := DesiredTrustLevelGroups(tl);
    DeleteUserRowsEffect(rows, UndesiredTiers(tl), userId, next);
    forall h | !(10 <= h <= 19) ensures RowsOf(DeleteUserRows(rows, UndesiredTiers(tl), userId), h) == RowsOf(rows, h) {
      DeleteUserRowsKeepsOtherGroups(rows, UndesiredTiers(tl), userId, h);
    }
  }

  /**
   * `refresh_automatic_group!(AUTO_GROUP_IDS[id])`: `AUTO_GROUP_IDS` holds
   * the group's symbol, and an id outside the table gives nil, which does
   * nothing.
   */
  method RefreshById(db: Store, id: int, c: Collaborators) returns (r: Option<Refresh>)
    requires db.Valid()
    modifies db
    ensures db.Valid() && db.users == old(db.users)
    ensures ById(id).None? ==> r.None? && db.groups == old(db.groups) && db.groupUsers == old(db.groupUsers)
    ensures ById(id).Some? ==>
      && r.Some?
      && OnlyTouches(old(db.groups), old(db.groupUsers), db.groups, db.groupUsers, {id})
      && (r.value.Saved? ==> Settled(db.groups, db.groupUsers, db.users, ById(id).value)
                             && r.value.id == id && forall x :: x in r.value.jobs ==> x.groupId == id)
      && (r.value.Refused? ==> r.value.errors != [])
  {
    var auto := ById(id);
    r := None;
    if auto.Some? {
      r := RefreshAutomaticGroup(db, Sym(Name(auto.value)), c);
    }
  }

  /**
   * `user_trust_level_change!(user_id, trust_level)`: the user's rows in the
   * undesired tiers are deleted; for each desired tier whose group exists the
   * user gets a row unless one exists; for a desired tier whose group is
   * missing, the group refreshed is `AUTO_GROUP_IDS[trust_level]`, an id
   * from the table of automatic group ids looked up with the trust level.
   * A refresh that raises ends the loop: `done` counts the desired tiers
   * handled, the one that raised included.
   */
  method UserTrustLevelChange(db: Store, userId: int, trustLevel: int, c: Collaborators)
    returns (jobs: seq<GroupRecords.SaveJob>, raised: Option<seq<GroupRecords.SaveError>>, ghost done: nat)
    requires db.Valid()
    modifies db
    ensures db.Valid() && db.users == old(db.users)
    ensures var desired := DesiredTrustLevelGroups(trustLevel);
      && done <= |desired|
      && (raised.None? ==> done == |desired|)
      && (raised.Some? ==> 0 < done && raised.value != [] && ById(trustLevel).Some?)
      && TierProgress(DeleteUserRows(old(db.groupUsers), UndesiredTiers(trustLevel), userId), old(db.groups),
                      db.groupUsers, db.groups, userId, trustLevel, desired, done)
      && (forall h :: h in desired[..done] && h in old(db.groups) && h != trustLevel ==>
            && IsMember(db.groupUsers, h, userId)
            && (IsMember(old(db.groupUsers), h, userId) ==> KeysFor(db.groupUsers, h, userId) == KeysFor(old(db.groupUsers), h, userId))
            && (!IsMember(old(db.groupUsers), h, userId) ==> |KeysFor(db.groupUsers, h, userId)| == 1))
    ensures forall h :: h in UndesiredTiers(trustLevel) && h != trustLevel ==> !IsMember(db.groupUsers, h, userId)
    ensures raised.None? ==> forall h :: h in DesiredTrustLevelGroups(trustLevel) && h in old(db.groups) && h != trustLevel ==>
      && IsMember(db.groupUsers, h, userId)
      && (IsMember(old(db.groupUsers), h, userId) ==> KeysFor(db.groupUsers, h, userId) == KeysFor(old(db.groupUsers), h, userId))
      && (!IsMember(old(db.groupUsers), h, userId) ==> |KeysFor(db.groupUsers, h, userId)| == 1)
    ensures forall h, u :: 10 <= h <= 19 && h != trustLevel && u != userId ==>
      KeysFor(db.groupUsers, h, u) == KeysFor(old(db.groupUsers), h, u)
    ensures forall h :: !(10 <= h <= 19) && h != trustLevel ==> RowsOf(db.groupUsers, h) == RowsOf(old(db.groupUsers), h)
    ensures forall h :: h != trustLevel ==>
      (h in db.groups <==> h in old(db.groups)) && (h in old(db.groups) ==> db.groups[h] == old(db.groups)[h])
    ensures ById(trustLevel).None? ==> db.groups == old(db.groups) && jobs == []
    ensures forall x :: x in jobs ==> x.groupId == trustLevel
  {
    var undesired := UndesiredTiers(trustLevel);
    TierStart(db.groupUsers, db.groups, userId, trustLevel, db.nextRowId);
    db.groupUsers := DeleteUserRows(db.groupUsers, undesired, userId);
    ghost var rows0, groups0 := db.groupUsers, db.groups;
    jobs, raised, done := AddDesiredTiers(db, userId, trustLevel, c);
    TierOutcome(old(db.groupUsers), rows0, groups0, db.groupUsers, db.groups, userId, trustLevel, done);
  }

  /** `group.group_users.create!(user_id:)` unless the user already has a row in the group. */
  method JoinUnlessMember(db: Store, g: int, userId: int)
    requires db.Valid()
    modifies db
    ensures db.Valid() && db.users == old(db.users) && db.groups == old(db.groups)
    ensures db.groupUsers == if IsMember(old(db.groupUsers), g, userId) then old(db.groupUsers)
                             else old(db.groupUsers)[old(db.nextRowId) := GroupUser(g, userId, false)]
    ensures IsMember(db.groupUsers, g, userId)
  {
    if !IsMember(db.groupUsers, g, userId) {
      InsertOneEffect(db.groupUsers, db.nextRowId, g, userId, false);
      db.groupUsers := db.groupUsers[db.nextRowId := GroupUser(g, userId, false)];
      db.nextRowId := db.nextRowId + 1;
    }
  }

  /**
   * The loop of `user_trust_level_change!` over the desired tiers, after its
   * DELETE: each existing tier group gets a row for the user unless one
   * exists, and each missing one triggers the refresh of
   * `AUTO_GROUP_IDS[trust_level]`, until such a refresh raises.
   */
  method AddDesiredTiers(db: Store, userId: int, trustLevel: int, c: Collaborators)
    returns (jobs: seq<GroupRecords.SaveJob>, raised: Option<seq<GroupRecords.SaveError>>, ghost done: nat)
    requires db.Valid()
    requires TierProgress(db.groupUsers, db.groups, db.groupUsers, db.groups, userId, trustLevel,
                          DesiredTrustLevelGroups(trustLevel), 0)
    modifies db
    ensures db.Valid() && db.users == old(db.users)
    ensures var desired := DesiredTrustLevelGroups(trustLevel);
      && done <= |desired|
      && (raised.None? ==> done == |desired|)
      && (raised.Some? ==> 0 < done && raised.value != [] && ById(trustLevel).Some?)
      && TierProgress(old(db.groupUsers), old(db.groups), db.groupUsers, db.groups, userId, trustLevel, desired, done)
    ensures ById(trustLevel).None? ==> db.groups == old(db.groups) && jobs == []
    ensures forall x :: x in jobs ==> x.groupId == trustLevel
  {
    var desired := DesiredTrustLevelGroups(trustLevel);
    ghost var rows0, groups0 := db.groupUsers, db.groups;
    raised, jobs := None, [];
    var i := 0;
    while i < |desired| && raised.None?
      invariant 0 <= i <= |desired|
      invariant db.Valid() && db.users == old(db.users)
      invariant raised.Some? ==> 0 < i && raised.value != [] && ById(trustLevel).Some?
      invariant TierProgress(rows0, groups0, db.groupUsers, db.groups, userId, trustLevel, desired, i)
      invariant ById(trustLevel).None? ==> db.groups == groups0 && jobs == []
      invariant forall x :: x in jobs ==> x.groupId == trustLevel
    {
      var more;
      raised, more := DesiredTier(db, userId, trustLevel, c, rows0, groups0, desired, i);
      jobs := jobs + more;
      i := i + 1;
    }
    done := i;
  }

  /**
   * One desired tier: join its group if it exists, otherwise refresh
   * `AUTO_GROUP_IDS[trust_level]`, which may raise `RecordInvalid`.
   */
  method DesiredTier(db: Store, userId: int, trustLevel: int, c: Collaborators,
                     ghost rows0: Rows, ghost groups0: map<int, Group>, desired: seq<int>, i: nat)
    returns (raised: Option<seq<GroupRecords.SaveError>>, jobs: seq<GroupRecords.SaveJob>)
    requires db.Valid()
    requires desired == DesiredTrustLevelGroups(trustLevel) && i < |desired|
    requires TierProgress(rows0, groups0, db.groupUsers, db.groups, userId, trustLevel, desired, i)
    modifies db
    ensures db.Valid() && db.users == old(db.users)
    ensures TierProgress(rows0, groups0, db.groupUsers, db.groups, userId, trustLevel, desired, i + 1)
    ensures ById(trustLevel).None? ==> db.groups == old(db.groups) && raised.None?
    ensures raised.Some? ==> raised.value != [] && desired[i] !in old(db.groups)
    ensures desired[i] in old(db.groups) ==> raised.None? && jobs == []
    ensures ById(trustLevel).None? ==> jobs == []
    ensures forall x :: x in jobs ==> x.groupId == trustLevel
  {
    var id := desired[i];
    raised, jobs := None, [];
    if id in db.groups {
      TierInsertStep(rows0, groups0, db.groupUsers, db.groups, userId, trustLevel, desired, i, db.nextRowId);
      JoinUnlessMember(db, id, userId);
    } else {
      ghost var rows1, groups1 := db.groupUsers, db.groups;
      var r := RefreshById(db, trustLevel, c);
      if r.Some? {
        TierRefreshStep(rows0, groups0, rows1, groups1, db.groupUsers, db.groups, userId, trustLevel, desired, i);
        if r.value.Refused? {
          raised := Some(r.value.errors);
        } else {
          jobs := r.value.jobs;
        }
      }
    }
  }

  /** What the progress means once the first `done` desired tiers have been handled. */
  lemma TierOutcome(rows: Rows, rows0: Rows, groups0: map<int, Group>, rows': Rows, groups': map<int, Group>,
                    userId: int, tl: int, done: nat)
    requires done <= |DesiredTrustLevelGroups(tl)|
    requires rows0 == DeleteUserRows(rows, UndesiredTiers(tl), userId)
    requires TierProgress(rows0, groups0, rows', groups', userId, tl, DesiredTrustLevelGroups(tl), done)
    ensures forall h :: h in UndesiredTiers(tl) && h != tl ==> !IsMember(rows', h, userId)
    ensures forall h :: h in DesiredTrustLevelGroups(tl)[..done] && h in groups0 && h != tl ==>
      && IsMember(rows', h, userId)
      && (IsMember(rows, h, userId) ==> KeysFor(rows', h, userId) == KeysFor(rows, h, userId))
      && (!IsMember(rows, h, userId) ==> |KeysFor(rows', h, userId)| == 1)
    ensures forall h, u :: 10 <= h <= 19 && h != tl && u != userId ==> KeysFor(rows', h, u) == KeysFor(rows, h, u)
  {
    var desired := DesiredTrustLevelGroups(tl);
    forall h | h in desired[..done] && h in groups0 && h != tl
      ensures && IsMember(rows', h, userId)
              && (IsMember(rows, h, userId) ==> KeysFor(rows', h, userId) == KeysFor(rows, h, userId))
              && (!IsMember(rows, h, userId) ==> |KeysFor(rows', h, userId)| == 1)
    {
      var j :| 0 <= j < done && desired[..done][j] == h;
      assert desired[j] == h;
      assert KeysFor(rows0, h, userId) == KeysFor(rows, h, userId);
      KeysForEmpty(rows0, h, userId);
      KeysForEmpty(rows, h, userId);
    }
    forall h, u | 10 <= h <= 19 && h != tl && u != userId ensures KeysFor(rows', h, u) == KeysFor(rows, h, u) {
      assert KeysFor(rows0, h, u) == KeysFor(rows, h, u);
    }
  }
}
