/**
 * A group as an ActiveRecord object: its attributes in memory, the
 * `group_users` rows built on it but not yet saved, and the deletions staged
 * by `usernames=`. Nothing reaches the tables until `save`, which runs the
 * validations, writes the row, saves the built rows, applies the staged
 * deletions (`destroy_deletions`) and propagates title and primary group to
 * the members (`update_primary_group`, `update_title`).
 */
module GroupRecords {
  import opened Wrappers
  import opened Text
  import opened GroupTables
  import opened GroupStore
  import opened GroupValidators
  import opened Propagation

  /**
   * A `group_users` row built with `group_users.build` and not yet saved; its
   * user id is nil when it was built for a name no user has.
   */
  datatype PendingRow = PendingRow(userId: Option<int>, owner: bool)

  /** The built row is for one of the users `ids`. */
  predicate UserIn(p: PendingRow, ids: set<int>)
  {
    p.userId.Some? && p.userId.value in ids
  }

  /** Every built row names a user: the rows a save can write. */
  predicate AllHaveUsers(pending: seq<PendingRow>)
  {
    forall j :: 0 <= j < |pending| ==> pending[j].userId.Some?
  }

  /**
   * An entry of `@deletions`: a row read from the table, or the `i`-th built
   * row, which is saved (and so has a row id) by the time the deletions run.
   */
  datatype Staged = Stored(key: int, row: GroupUser) | Built(index: nat)

  /** A row `destroy_deletions` destroys, with the values it clears the pointer by. */
  datatype Deletion = Deletion(key: int, row: GroupUser)

  datatype SaveError =
    | NameFormat                    // `UsernameValidator`
    | NameBlank                     // `validates :name, presence: true`
    | NameTaken                     // `uniqueness: { case_sensitive: false }`
    | InvalidDomain(domain: string)
    | BadIncomingEmail(error: EmailError)
    | MembershipRequestsNeedOwner
    | MemberWithoutUser             // a built `group_users` row whose `user_id` is nil

  /** The jobs a save enqueues. */
  datatype SaveJob =
    | AutomaticGroupMembership(groupId: int)
    | UpdateGroupMentions(previousName: string, groupId: int)

  /** The column values of a record that has never been saved. */
  function SchemaDefaults(): (g: Group)
    ensures g.title.None? && !g.primaryGroup
  {
    NewGroup("", false)
  }

  class GroupRecord {
    /** The row id; meaningful once `persisted`. */
    var id: int
    var persisted: bool
    /** The attributes as they are in memory. */
    var attrs: Group
    /** The attributes as last read from or written to the table. */
    var loaded: Group
    var built: seq<PendingRow>
    var deletions: Option<seq<Staged>>

    /** Every staged built row is one of the built rows. */
    ghost predicate Valid()
      reads this
    {
      deletions.Some? ==> forall x :: x in deletions.value && x.Built? ==> x.index < |built|
    }

    /** `Group.new(...)`. */
    constructor Build(attrs: Group)
      ensures Valid()
      ensures !persisted && this.attrs == attrs && loaded == SchemaDefaults()
      ensures built == [] && deletions.None?
    {
      id := 0;
      persisted := false;
      this.attrs := attrs;
      loaded := SchemaDefaults();
      built := [];
      deletions := None;
    }

    /** The record once written: persisted under `id`, in sync with the table, nothing staged. */
    method MarkSaved(id: int, saved: Group)
      modifies this
      ensures Valid()
      ensures this.id == id && persisted && attrs == saved && loaded == saved
      ensures built == [] && deletions.None?
    {
      this.id, persisted, attrs, loaded := id, true, saved, saved;
      built, deletions := [], None;
    }

    /** `Group.find(id)`. */
    constructor Load(db: Store, id: int)
      requires id in db.groups
      ensures Valid()
      ensures persisted && this.id == id && attrs == db.groups[id] && loaded == db.groups[id]
      ensures built == [] && deletions.None?
    {
      this.id := id;
      persisted := true;
      attrs := db.groups[id];
      loaded := db.groups[id];
      built := [];
      deletions := None;
    }

    /** `group_users.build(user_id:, owner:)`. */
    method BuildRow(userId: Option<int>, owner: bool)
      requires Valid()
      modifies this
      ensures Valid()
      ensures built == old(built) + [PendingRow(userId, owner)]
      ensures id == old(id) && persisted == old(persisted) && attrs == old(attrs)
      ensures loaded == old(loaded) && deletions == old(deletions)
    {
      built := built + [PendingRow(userId, owner)];
    }
  }

  // ---------------------------------------------------------------------------
  // `usernames`

  /** The rows of `g` whose user exists: the rows `users.pluck(:username)` joins. */
  function JoinedRows(rows: Rows, users: map<int, User>, g: int): (ks: set<int>)
    ensures forall k :: k in ks <==> k in rows && rows[k].groupId == g && rows[k].userId in users
  {
    set k | k in rows && rows[k].groupId == g && rows[k].userId in users
  }

  /** The usernames of the rows `keys`, in that order. */
  function UsernamesOf(rows: Rows, users: map<int, User>, keys: seq<int>): (names: seq<string>)
    requires forall i :: 0 <= i < |keys| ==> keys[i] in rows && rows[keys[i]].userId in users
    ensures |names| == |keys|
    ensures forall i :: 0 <= i < |keys| ==> names[i] == users[rows[keys[i]].userId].username
  {
    seq(|keys|, i requires 0 <= i < |keys| => users[rows[keys[i]].userId].username)
  }

  /** `keys` lists every joined row of `g` once, in some order, and `names` their usernames. */
  ghost predicate Listing(rows: Rows, users: map<int, User>, g: int, keys: seq<int>, names: seq<string>)
  {
    && Distinct(keys)
    && (forall k :: k in keys <==> k in JoinedRows(rows, users, g))
    && (forall i :: 0 <= i < |keys| ==> keys[i] in rows && rows[keys[i]].userId in users)
    && names == UsernamesOf(rows, users, keys)
  }

  /** `usernames`: the members' usernames joined with `,`, in the order the query returns them. */
  method Usernames(db: Store, g: int) returns (s: string, ghost keys: seq<int>, ghost names: seq<string>)
    ensures Listing(db.groupUsers, db.users, g, keys, names)
    ensures s == Join(names, ",")
  {
    var rows, users := db.groupUsers, db.users;
    var todo := JoinedRows(rows, users, g);
    var list: seq<string> := [];
    keys := [];
    while todo != {}
      invariant Distinct(keys) && forall k :: k in keys ==> k !in todo
      invariant forall k :: k in keys || k in todo <==> k in JoinedRows(rows, users, g)
      invariant forall i :: 0 <= i < |keys| ==> keys[i] in rows && rows[keys[i]].userId in users
      invariant list == UsernamesOf(rows, users, keys)
      decreases todo
    {
      var k := Pick(todo);
      list := list + [users[rows[k].userId].username];
      keys := keys + [k];
      todo := todo - {k};
    }
    names := list;
    s := Join(list, ",");
  }

  // ---------------------------------------------------------------------------
  // `usernames=`

  /** `User.where(username: name)`: some user with that name, or none when nobody has it. */
  method FindUserId(users: map<int, User>, name: string) returns (r: Option<int>)
    ensures r.Some? ==> r.value in users && users[r.value].username == name
    ensures r.None? <==> NobodyNamed(users, name)
  {
    if NobodyNamed(users, name) {
      return None;
    }
    var u :| u in users && users[u].username == name;
    return Some(u);
  }

  /** No user has the username `name`. */
  predicate NobodyNamed(users: map<int, User>, name: string)
  {
    forall u :: u in users ==> users[u].username != name
  }

  /**
   * `ids` holds, for every name of `names` that some user has, one user with
   * that name, and nothing else.
   */
  ghost predicate Resolves(users: map<int, User>, names: seq<string>, ids: set<int>)
  {
    && (forall u :: u in ids ==> u in users && users[u].username in names)
    && (forall i, u :: 0 <= i < |names| && u in users && users[u].username == names[i] ==>
          names[i] in NamesOf(users, ids))
  }

  /** The usernames of the users `ids`. */
  function NamesOf(users: map<int, User>, ids: set<int>): (r: set<string>)
  {
    set v | v in ids && v in users :: users[v].username
  }

  /** The usernames of the users the rows `pending` are built for. */
  function PendingNames(users: map<int, User>, pending: seq<PendingRow>): (r: set<string>)
  {
    set j | 0 <= j < |pending| && pending[j].userId.Some? && pending[j].userId.value in users ::
      users[pending[j].userId.value].username
  }

  /** The ids `map[d]` gives for the removed names. */
  method ResolveNames(users: map<int, User>, names: seq<string>) returns (ids: set<int>)
    ensures Resolves(users, names, ids)
  {
    ids := {};
    var i := 0;
    while i < |names|
      invariant 0 <= i <= |names|
      invariant Resolves(users, names[..i], ids)
    {
      var r := FindUserId(users, names[i]);
      if r.Some? {
        assert NamesOf(users, ids + {r.value}) == NamesOf(users, ids) + {names[i]} by {
          assert forall n :: n in NamesOf(users, ids + {r.value}) ==> n in NamesOf(users, ids) + {names[i]};
          var v := r.value;
          assert v in ids + {v} && v in users && users[v].username == names[i];
        }
        ids := ids + {r.value};
      }
      assert forall j :: 0 <= j < i ==> names[..i + 1][j] == names[..i][j];
      i := i + 1;
    }
    assert names[..i] == names;
  }

  /**
   * The rows built for the added names, one per name and in order: for the
   * user who has the name, or with a nil user id when nobody has it.
   */
  method PendingFor(users: map<int, User>, names: seq<string>) returns (pending: seq<PendingRow>)
    ensures BuiltFor(users, pending, names)
  {
    pending := [];
    var i := 0;
    while i < |names|
      invariant 0 <= i <= |names|
      invariant BuiltFor(users, pending, names[..i])
    {
      var r := FindUserId(users, names[i]);
      pending := pending + [PendingRow(r, false)];
      i := i + 1;
    }
    assert names[..i] == names;
  }

  /**
   * `@deletions` as `usernames=` fills it: every row of the association
   * (the table's rows of a persisted group, then the built rows) whose user
   * is among the removed ones, and nothing else.
   */
  ghost predicate StagedFor(staged: seq<Staged>, rows: Rows, g: int, persisted: bool,
                            built: seq<PendingRow>, ids: set<int>)
  {
    && (forall x :: x in staged && x.Stored? ==>
          persisted && x.key in rows && x.row == rows[x.key] && x.row.groupId == g && x.row.userId in ids)
    && (forall x :: x in staged && x.Built? ==> x.index < |built| && UserIn(built[x.index], ids))
    && (persisted ==> forall k :: k in rows && rows[k].groupId == g && rows[k].userId in ids ==>
          Stored(k, rows[k]) in staged)
    && (forall j :: 0 <= j < |built| && UserIn(built[j], ids) ==> Built(j) in staged)
  }

  /** The loop over `group_users` that fills `@deletions`. */
  method StageDeletions(rows: Rows, g: int, persisted: bool, built: seq<PendingRow>, ids: set<int>)
    returns (staged: seq<Staged>)
    ensures StagedFor(staged, rows, g, persisted, built, ids)
  {
    staged := [];
    if persisted {
      var todo := set k | k in rows && rows[k].groupId == g;
      ghost var all := todo;
      while todo != {}
        invariant todo <= all
        invariant forall k :: k in all <==> k in rows && rows[k].groupId == g
        invariant forall x :: x in staged ==>
          x.Stored? && x.key in all && x.key !in todo && x.row == rows[x.key] && x.row.userId in ids
        invariant forall k :: k in all && k !in todo && rows[k].userId in ids ==> Stored(k, rows[k]) in staged
        decreases todo
      {
        var k := Pick(todo);
        if rows[k].userId in ids {
          staged := staged + [Stored(k, rows[k])];
        }
        todo := todo - {k};
      }
    }
    ghost var fromTable := staged;
    var j := 0;
    while j < |built|
      invariant 0 <= j <= |built|
      invariant forall x :: x in staged && x.Stored? ==> x in fromTable
      invariant forall x :: x in fromTable ==> x in staged
      invariant forall x :: x in staged && x.Built? ==> x.index < j && UserIn(built[x.index], ids)
      invariant forall j' :: 0 <= j' < j && UserIn(built[j'], ids) ==> Built(j') in staged
    {
      if UserIn(built[j], ids) {
        staged := staged + [Built(j)];
      }
      j := j + 1;
    }
  }

  /**
   * `pending` holds one row per name of `names`, in order, none of them an
   * owner: for a user with that name, or with a nil user id when nobody has it.
   */
  ghost predicate BuiltFor(users: map<int, User>, pending: seq<PendingRow>, names: seq<string>)
  {
    && |pending| == |names|
    && (forall j :: 0 <= j < |pending| ==> !pending[j].owner)
    && (forall j :: 0 <= j < |pending| && pending[j].userId.Some? ==>
          pending[j].userId.value in users && users[pending[j].userId.value].username == names[j])
    && (forall j :: 0 <= j < |pending| ==> (pending[j].userId.None? <==> NobodyNamed(users, names[j])))
  }

  /**
   * `usernames=(val)`: compares the wanted names with the current ones,
   * stages the rows of the removed users for deletion and builds rows for
   * the added users. The tables are only read.
   */
  method SetUsernames(g: GroupRecord, db: Store, val: string)
    returns (ghost keys: seq<int>, ghost listed: seq<string>, removedIds: set<int>)
    modifies g
    ensures g.Valid()
    ensures g.id == old(g.id) && g.persisted == old(g.persisted)
    ensures g.attrs == old(g.attrs) && g.loaded == old(g.loaded)
    ensures g.persisted ==> Listing(db.groupUsers, db.users, g.id, keys, listed)
    ensures !g.persisted ==> listed == []
    ensures var current := Split(Join(listed, ","), ',');
      var expected := Split(val, ',');
      && Resolves(db.users, Difference(current, expected), removedIds)
      && g.deletions.Some?
      && StagedFor(g.deletions.value, db.groupUsers, g.id, g.persisted, old(g.built), removedIds)
      && |old(g.built)| <= |g.built| && g.built[..|old(g.built)|] == old(g.built)
      && BuiltFor(db.users, g.built[|old(g.built)|..], Difference(expected, current))
  {
    var names := "";
    keys, listed := [], [];
    if g.persisted {
      names, keys, listed := Usernames(db, g.id);
    }
    var current := Split(names, ',');
    var expected := Split(val, ',');
    var additions := Difference(expected, current);
    var removals := Difference(current, expected);
    removedIds := ResolveNames(db.users, removals);
    var staged := StageDeletions(db.groupUsers, g.id, g.persisted, g.built, removedIds);
    var pending := PendingFor(db.users, additions);
    g.deletions := Some(staged);
    g.built := g.built + pending;
    assert g.built[|old(g.built)|..] == pending;
  }

  // ---------------------------------------------------------------------------
  // `save`

  /** The built rows, saved under consecutive fresh ids from `base`. */
  function AppendPending(rows: Rows, base: int, g: int, pending: seq<PendingRow>): (r: Rows)
    requires AllHaveUsers(pending)
    ensures forall k :: k in r <==> k in rows || base <= k < base + |pending|
    ensures forall k :: base <= k < base + |pending| ==>
      r[k] == GroupUser(g, pending[k - base].userId.value, pending[k - base].owner)
    ensures forall k :: k in rows && !(base <= k < base + |pending|) ==> r[k] == rows[k]
  {
    if |pending| == 0 then rows
    else
      var n := |pending| - 1;
      AppendPending(rows, base, g, pending[..n])[base + n := GroupUser(g, pending[n].userId.value, pending[n].owner)]
  }

  lemma AppendPendingSnoc(rows: Rows, base: int, g: int, pending: seq<PendingRow>, p: PendingRow)
    requires AllHaveUsers(pending) && p.userId.Some?
    ensures AllHaveUsers(pending + [p])
    ensures AppendPending(rows, base, g, pending + [p])
         == AppendPending(rows, base, g, pending)[base + |pending| := GroupUser(g, p.userId.value, p.owner)]
  {
    assert (pending + [p])[..|pending|] == pending;
  }

  /** The table without the rows `keys`. */
  function RemoveKeys(rows: Rows, keys: set<int>): (r: Rows)
    ensures forall k :: k in r <==> k in rows && k !in keys
    ensures forall k :: k in r ==> r[k] == rows[k]
  {
    map k | k in rows && k !in keys :: rows[k]
  }

  function DeletionKeys(dels: seq<Deletion>): (ks: set<int>)
    ensures forall i :: 0 <= i < |dels| ==> dels[i].key in ks
    ensures forall k :: k in ks ==> exists i :: 0 <= i < |dels| && dels[i].key == k
  {
    if |dels| == 0 then {}
    else
      var n := |dels| - 1;
      assert forall i :: 0 <= i < n ==> dels[..n][i] == dels[i];
      DeletionKeys(dels[..n]) + {dels[n].key}
  }

  /** `u`'s primary group is the group of one of the destroyed rows of `u`. */
  predicate PointsToDeleted(user: User, u: int, dels: seq<Deletion>)
  {
    user.primaryGroupId.Some?
    && exists i :: 0 <= i < |dels| && dels[i].row.userId == u && dels[i].row.groupId == user.primaryGroupId.value
  }

  /**
   * The `users` table after clearing, for each destroyed row, the pointer
   * of its user when it names the row's group. Clearing happens at most
   * once per user, so the order of the rows does not matter.
   */
  function ClearPointers(users: map<int, User>, dels: seq<Deletion>): (r: map<int, User>)
    ensures r.Keys == users.Keys
    ensures forall u :: u in users ==> r[u].(primaryGroupId := users[u].primaryGroupId) == users[u]
    ensures forall u :: u in users ==>
      r[u].primaryGroupId == (if PointsToDeleted(users[u], u, dels) then None else users[u].primaryGroupId)
  {
    if |dels| == 0 then users
    else
      var n := |dels| - 1;
      var prev := ClearPointers(users, dels[..n]);
      var d := dels[n];
      var r := if d.row.userId in prev && prev[d.row.userId].primaryGroupId == Some(d.row.groupId)
               then prev[d.row.userId := prev[d.row.userId].(primaryGroupId := None)]
               else prev;
      ClearPointersStep(users, dels, prev, r);
      r
  }

  /** One more destroyed row clears its user's pointer if it still names the row's group. */
  lemma ClearPointersStep(users: map<int, User>, dels: seq<Deletion>, prev: map<int, User>, r: map<int, User>)
    requires |dels| >= 1
    requires prev.Keys == users.Keys
    requires forall u :: u in users ==> prev[u].(primaryGroupId := users[u].primaryGroupId) == users[u]
    requires forall u :: u in users ==>
      prev[u].primaryGroupId == (if PointsToDeleted(users[u], u, dels[..|dels| - 1]) then None else users[u].primaryGroupId)
    requires var d := dels[|dels| - 1];
      r == if d.row.userId in prev && prev[d.row.userId].primaryGroupId == Some(d.row.groupId)
           then prev[d.row.userId := prev[d.row.userId].(primaryGroupId := None)]
           else prev
    ensures r.Keys == users.Keys
    ensures forall u :: u in users ==> r[u].(primaryGroupId := users[u].primaryGroupId) == users[u]
    ensures forall u :: u in users ==>
      r[u].primaryGroupId == (if PointsToDeleted(users[u], u, dels) then None else users[u].primaryGroupId)
  {
    var n := |dels| - 1;
    forall u | u in users
      ensures r[u].primaryGroupId == (if PointsToDeleted(users[u], u, dels) then None else users[u].primaryGroupId)
    {
      PointsToDeletedSnoc(users[u], u, dels);
    }
  }

  lemma PointsToDeletedSnoc(user: User, u: int, dels: seq<Deletion>)
    requires |dels| >= 1
    ensures var d := dels[|dels| - 1];
      PointsToDeleted(user, u, dels) <==>
        PointsToDeleted(user, u, dels[..|dels| - 1]) || (d.row.userId == u && user.primaryGroupId == Some(d.row.groupId))
  {
    var n := |dels| - 1;
    assert forall i :: 0 <= i < n ==> dels[..n][i] == dels[i];
  }

  /** The row a staged entry destroys: a built row has the id it was saved under. */
  function ResolveOne(x: Staged, base: int, g: int, built: seq<PendingRow>): (d: Deletion)
    requires AllHaveUsers(built)
    requires x.Built? ==> x.index < |built|
  {
    match x
    case Stored(k, row) => Deletion(k, row)
    case Built(i) => Deletion(base + i, GroupUser(g, built[i].userId.value, built[i].owner))
  }

  /** Every staged entry resolved, in order. */
  function Resolved(staged: seq<Staged>, base: int, g: int, built: seq<PendingRow>): (dels: seq<Deletion>)
    requires AllHaveUsers(built)
    requires forall x :: x in staged && x.Built? ==> x.index < |built|
    ensures |dels| == |staged|
    ensures forall i :: 0 <= i < |staged| ==> dels[i] == ResolveOne(staged[i], base, g, built)
  {
    seq(|staged|, i requires 0 <= i < |staged| => ResolveOne(staged[i], base, g, built))
  }

  /** Saves the built rows, in order, for the group `g`. */
  method InsertPending(db: Store, g: int, pending: seq<PendingRow>)
    requires db.Valid() && AllHaveUsers(pending)
    modifies db
    ensures db.Valid()
    ensures db.groupUsers == AppendPending(old(db.groupUsers), old(db.nextRowId), g, pending)
    ensures db.nextRowId == old(db.nextRowId) + |pending|
    ensures db.users == old(db.users) && db.groups == old(db.groups)
  {
    ghost var rows0, next0 := db.groupUsers, db.nextRowId;
    var i := 0;
    while i < |pending|
      invariant 0 <= i <= |pending|
      invariant db.groupUsers == AppendPending(rows0, next0, g, pending[..i])
      invariant db.nextRowId == next0 + i
      invariant db.users == old(db.users) && db.groups == old(db.groups)
    {
      AppendPendingSnoc(rows0, next0, g, pending[..i], pending[i]);
      assert pending[..i + 1] == pending[..i] + [pending[i]];
      db.groupUsers := db.groupUsers[db.nextRowId := GroupUser(g, pending[i].userId.value, pending[i].owner)];
      db.nextRowId := db.nextRowId + 1;
      i := i + 1;
    }
    assert pending[..i] == pending;
  }

  lemma ClearPointersSnoc(users: map<int, User>, dels: seq<Deletion>, d: Deletion)
    ensures var prev := ClearPointers(users, dels);
      ClearPointers(users, dels + [d]) ==
        if d.row.userId in prev && prev[d.row.userId].primaryGroupId == Some(d.row.groupId)
        then prev[d.row.userId := prev[d.row.userId].(primaryGroupId := None)]
        else prev
  {
    assert (dels + [d])[..|dels|] == dels;
  }

  /** One iteration of `destroy_deletions`, on the tables as values. */
  lemma DestroyStep(rows0: Rows, users0: map<int, User>, dels: seq<Deletion>, i: nat)
    requires i < |dels|
    ensures RemoveKeys(rows0, DeletionKeys(dels[..i + 1])) == RemoveKeys(rows0, DeletionKeys(dels[..i])) - {dels[i].key}
    ensures var prev := ClearPointers(users0, dels[..i]);
      var d := dels[i];
      ClearPointers(users0, dels[..i + 1]) ==
        if d.row.userId in prev && prev[d.row.userId].primaryGroupId == Some(d.row.groupId)
        then prev[d.row.userId := prev[d.row.userId].(primaryGroupId := None)]
        else prev
  {
    assert dels[..i + 1] == dels[..i] + [dels[i]];
    assert (dels[..i] + [dels[i]])[..i] == dels[..i];
    ClearPointersSnoc(users0, dels[..i], dels[i]);
  }

  /** `destroy_deletions`: destroys each staged row and clears the pointer of its user to its group. */
  method DestroyDeletions(db: Store, dels: seq<Deletion>)
    requires db.Valid()
    modifies db
    ensures db.Valid()
    ensures db.groupUsers == RemoveKeys(old(db.groupUsers), DeletionKeys(dels))
    ensures db.users == ClearPointers(old(db.users), dels)
    ensures db.groups == old(db.groups) && db.nextRowId == old(db.nextRowId)
  {
    ghost var rows0, users0 := db.groupUsers, db.users;
    assert KeysBelow(rows0, db.nextRowId);
    var rows, users := db.groupUsers, db.users;
    var i := 0;
    while i < |dels|
      invariant 0 <= i <= |dels|
      invariant rows == RemoveKeys(rows0, DeletionKeys(dels[..i]))
      invariant users == ClearPointers(users0, dels[..i])
      invariant unchanged(db)
    {
      var d := dels[i];
      DestroyStep(rows0, users0, dels, i);
      rows := rows - {d.key};
      var u := d.row.userId;
      if u in users && users[u].primaryGroupId == Some(d.row.groupId) {
        users := users[u := users[u].(primaryGroupId := None)];
      }
      i := i + 1;
    }
    assert dels[..i] == dels;
    assert KeysBelow(rows, db.nextRowId) by {
      assert forall k :: k in rows ==> k in rows0;
    }
    db.groupUsers := rows;
    db.users := users;
  }

  // ---------------------------------------------------------------------------
  // The validations

  /** Another group has the name, compared case-insensitively. */
  predicate NameClash(groups: map<int, Group>, selfId: int, persisted: bool, name: string)
  {
    exists gid :: gid in groups && (!persisted || gid != selfId) && ToLower(groups[gid].name) == ToLower(name)
  }

  /**
   * `can_allow_membership_requests`: a saved group needs an owner row in the
   * table, a new one an owner among its built rows.
   */
  predicate HasOwner(persisted: bool, rows: Rows, selfId: int, built: seq<PendingRow>)
  {
    if persisted then exists k :: k in rows && rows[k].groupId == selfId && rows[k].owner
    else exists j :: 0 <= j < |built| && built[j].owner
  }

  /** The attributes after the validations and the errors they report. */
  datatype Checked = Checked(attrs: Group, errors: seq<SaveError>)

  /** The errors about the (stripped) name. */
  function NameErrors(name: string, formatOk: bool, clash: bool): (r: seq<SaveError>)
    ensures r == [] <==> formatOk && !IsBlank(name) && !clash
    ensures NameBlank in r <==> IsBlank(name)
    ensures NameTaken in r <==> clash
  {
    (if formatOk then [] else [NameFormat])
    + (if IsBlank(name) then [NameBlank] else [])
    + (if clash then [NameTaken] else [])
  }

  /** One error for each entry the domain validator refuses. */
  function DomainErrorList(domains: seq<string>): (r: seq<SaveError>)
    ensures |r| == |domains|
    ensures forall i :: 0 <= i < |r| ==> r[i] == InvalidDomain(domains[i])
  {
    seq(|domains|, i requires 0 <= i < |domains| => InvalidDomain(domains[i]))
  }

  function EmailErrorList(emails: seq<EmailError>): (r: seq<SaveError>)
    ensures |r| == |emails|
    ensures forall i :: 0 <= i < |r| ==> r[i] == BadIncomingEmail(emails[i])
  {
    seq(|emails|, i requires 0 <= i < |emails| => BadIncomingEmail(emails[i]))
  }

  lemma NoErrorsInAny(a: seq<SaveError>, b: seq<SaveError>, c: seq<SaveError>, d: seq<SaveError>, e: seq<SaveError>)
    ensures a + b + c + d + e == [] <==> a == [] && b == [] && c == [] && d == [] && e == []
  {
    assert |a + b + c + d + e| == |a| + |b| + |c| + |d| + |e|;
  }

  lemma InAny(x: SaveError, a: seq<SaveError>, b: seq<SaveError>, c: seq<SaveError>, d: seq<SaveError>, e: seq<SaveError>)
    ensures x in a + b + c + d + e <==> x in a || x in b || x in c || x in d || x in e
  {
  }

  /**
   * The validations, in declaration order: first the built rows the
   * `group_users` association saves with the group (a row without a user
   * is refused), then the group's own. `name_format_validator` strips
   * the name in place and the domain validator rewrites its column, so the
   * attributes change even when some validation fails. The username format
   * check, `Email.is_valid?` and the searches for another group or a
   * category owning an address are collaborators.
   */
  function Validate(a: Group, selfId: int, persisted: bool, groups: map<int, Group>, rows: Rows,
                    built: seq<PendingRow>, nameOk: string -> bool, isValid: string -> bool,
                    otherGroup: string -> Option<string>, category: string -> Option<string>): (v: Checked)
    ensures v.attrs == a.(name := Strip(a.name), emailDomains := DomainsAfter(a.emailDomains))
    ensures MemberWithoutUser in v.errors <==> !AllHaveUsers(built)
    ensures v.errors == [] <==>
      && AllHaveUsers(built)
      && nameOk(Strip(a.name)) && !IsBlank(Strip(a.name))
      && !NameClash(groups, selfId, persisted, Strip(a.name))
      && DomainErrors(a.emailDomains) == []
      && IncomingEmailErrors(a.automatic, a.incomingEmail, isValid, otherGroup, category) == []
      && (a.allowMembershipRequests ==> HasOwner(persisted, rows, selfId, built))
  {
    var memberErrors := if AllHaveUsers(built) then [] else [MemberWithoutUser];
    var name := Strip(a.name);
    var nameErrors := NameErrors(name, nameOk(name), NameClash(groups, selfId, persisted, name));
    var domainErrors := DomainErrorList(DomainErrors(a.emailDomains));
    var emailErrors := EmailErrorList(IncomingEmailErrors(a.automatic, a.incomingEmail, isValid, otherGroup, category));
    var owners := if a.allowMembershipRequests && !HasOwner(persisted, rows, selfId, built)
                  then [MembershipRequestsNeedOwner] else [];
    NoErrorsInAny(memberErrors, nameErrors, domainErrors, emailErrors, owners);
    InAny(MemberWithoutUser, memberErrors, nameErrors, domainErrors, emailErrors, owners);
    assert MemberWithoutUser !in domainErrors && MemberWithoutUser !in emailErrors;
    Checked(a.(name := name, emailDomains := DomainsAfter(a.emailDomains)),
            memberErrors + nameErrors + domainErrors + emailErrors + owners)
  }

  // ---------------------------------------------------------------------------
  // The save

  /** `update_primary_group` then `update_title`, each only when its column changed. */
  function Propagated(users: map<int, User>, rows: Rows, g: int, saved: Group, before: Group): (r: map<int, User>)
  {
    var members := MemberIds(rows, g);
    var repointed :=
      if saved.primaryGroup != before.primaryGroup then PrimaryGroupUpdate(users, members, g, saved.primaryGroup)
      else users;
    if saved.title != before.title then TitleUpdate(repointed, members, saved.title, before.title) else repointed
  }

  /** The `users` table after the after-save callbacks, given the rows they see. */
  function SavedUsers(users: map<int, User>, rows: Rows, g: int, dels: seq<Deletion>, saved: Group, before: Group)
    : (r: map<int, User>)
  {
    Propagated(ClearPointers(users, dels), rows, g, saved, before)
  }

  /** The two propagation callbacks. */
  method Propagate(db: Store, id: int, saved: Group, before: Group)
    modifies db
    ensures db.users == Propagated(old(db.users), db.groupUsers, id, saved, before)
    ensures db.groupUsers == old(db.groupUsers) && db.groups == old(db.groups) && db.nextRowId == old(db.nextRowId)
  {
    var members := MemberIds(db.groupUsers, id);
    if saved.primaryGroup != before.primaryGroup {
      db.users := PrimaryGroupUpdate(db.users, members, id, saved.primaryGroup);
    }
    if saved.title != before.title {
      db.users := TitleUpdate(db.users, members, saved.title, before.title);
    }
  }

  /** The attributes after `before_save :downcase_incoming_email`. */
  function DowncasedAttrs(a: Group): (r: Group)
    ensures r.incomingEmail == DowncaseIncomingEmail(a.incomingEmail)
    ensures r.(incomingEmail := a.incomingEmail) == a
  {
    a.(incomingEmail := DowncaseIncomingEmail(a.incomingEmail))
  }

  /** The jobs the after-save callbacks enqueue, in order. */
  function SaveJobs(g: int, wasPersisted: bool, saved: Group, before: Group): (jobs: seq<SaveJob>)
    ensures AutomaticGroupMembership(g) in jobs <==> saved.membershipRetroactive
    ensures (exists n :: UpdateGroupMentions(n, g) in jobs) <==> wasPersisted && saved.name != before.name
    ensures forall x :: x in jobs ==> x.groupId == g
  {
    (if saved.membershipRetroactive then [AutomaticGroupMembership(g)] else [])
    + (if wasPersisted && saved.name != before.name then [UpdateGroupMentions(before.name, g)] else [])
  }

  /** What a successful save leaves in the tables, as a relation between the old and the new state. */
  ghost predicate SavedState(rows0: Rows, next0: int, users0: map<int, User>, groups0: map<int, Group>,
                             wasPersisted: bool, id: int, saved: Group, before: Group,
                             built: seq<PendingRow>, staged: seq<Staged>,
                             rows: Rows, next: int, users: map<int, User>, groups: map<int, Group>)
    requires AllHaveUsers(built)
    requires forall x :: x in staged && x.Built? ==> x.index < |built|
  {
    var dels := Resolved(staged, next0, id, built);
    && groups == (if wasPersisted && id !in groups0 then groups0 else groups0[id := saved])
    && rows == RemoveKeys(AppendPending(rows0, next0, id, built), DeletionKeys(dels))
    && next == next0 + |built|
    && users == SavedUsers(users0, rows, id, dels, saved, before)
  }

  /** The writes of a save whose validations passed. */
  method Persist(db: Store, wasPersisted: bool, id: int, saved: Group, before: Group,
                 built: seq<PendingRow>, staged: seq<Staged>)
    requires db.Valid() && AllHaveUsers(built)
    requires forall x :: x in staged && x.Built? ==> x.index < |built|
    modifies db
    ensures db.Valid()
    ensures SavedState(old(db.groupUsers), old(db.nextRowId), old(db.users), old(db.groups),
                       wasPersisted, id, saved, before, built, staged,
                       db.groupUsers, db.nextRowId, db.users, db.groups)
  {
    var next0 := db.nextRowId;
    if !wasPersisted || id in db.groups {
      db.groups := db.groups[id := saved];
    }
    InsertPending(db, id, built);
    var dels := Resolved(staged, next0, id, built);
    DestroyDeletions(db, dels);
    Propagate(db, id, saved, before);
  }

  /**
   * What a save whose validations passed leaves: the record is persisted
   * under its id (the fresh one for a new group) with the downcased
   * attributes and nothing staged, the tables are in `SavedState`, and the
   * after-save jobs are enqueued.
   */
  twostate predicate Committed(g: GroupRecord, db: Store, checked: Group, freshId: int, jobs: seq<SaveJob>)
    reads g, db
  {
    var saved := DowncasedAttrs(checked);
    var id := if old(g.persisted) then old(g.id) else freshId;
    && g.id == id && g.persisted && g.attrs == saved && g.loaded == saved
    && g.built == [] && g.deletions.None?
    && (forall x :: x in old(g.deletions).GetOr([]) && x.Built? ==> x.index < |old(g.built)|)
    && AllHaveUsers(old(g.built))
    && SavedState(old(db.groupUsers), old(db.nextRowId), old(db.users), old(db.groups),
                  old(g.persisted), id, saved, old(g.loaded), old(g.built), old(g.deletions).GetOr([]),
                  db.groupUsers, db.nextRowId, db.users, db.groups)
    && jobs == SaveJobs(id, old(g.persisted), saved, old(g.loaded))
  }

  /** The part of `save` after the validations passed, with `checked` the validated attributes. */
  method Commit(g: GroupRecord, db: Store, checked: Group, freshId: int) returns (jobs: seq<SaveJob>)
    requires db.Valid() && g.Valid() && AllHaveUsers(g.built)
    requires !g.persisted ==> freshId !in db.groups
    modifies g, db
    ensures db.Valid() && g.Valid()
    ensures Committed(g, db, checked, freshId, jobs)
  {
    var saved := DowncasedAttrs(checked);
    var wasPersisted := g.persisted;
    var id := if wasPersisted then g.id else freshId;
    var before := g.loaded;
    var built, staged := g.built, g.deletions.GetOr([]);
    g.MarkSaved(id, saved);
    Persist(db, wasPersisted, id, saved, before, built, staged);
    jobs := SaveJobs(id, wasPersisted, saved, before);
  }

  /**
   * `save`. A failed validation changes no table (the in-memory attributes
   * keep what the validators rewrote). Otherwise the row is written with
   * the address normalised, the built rows are saved, the staged rows are
   * destroyed, and the members' titles and primary groups are propagated.
   * `freshId` is the id the table assigns to a new group.
   */
  method Save(g: GroupRecord, db: Store, freshId: int, nameOk: string -> bool, isValid: string -> bool,
              otherGroup: string -> Option<string>, category: string -> Option<string>)
    returns (ok: bool, errors: seq<SaveError>, jobs: seq<SaveJob>)
    requires db.Valid() && g.Valid()
    requires !g.persisted ==> freshId !in db.groups
    modifies g, db
    ensures db.Valid() && g.Valid()
    ensures var v := Validate(old(g.attrs), old(g.id), old(g.persisted), old(db.groups), old(db.groupUsers),
                              old(g.built), nameOk, isValid, otherGroup, category);
      && errors == v.errors
      && ok == (v.errors == [])
      && (!ok ==>
            && g.attrs == v.attrs && jobs == []
            && g.id == old(g.id) && g.persisted == old(g.persisted) && g.loaded == old(g.loaded)
            && g.built == old(g.built) && g.deletions == old(g.deletions)
            && unchanged(db))
      && (ok ==> Committed(g, db, v.attrs, freshId, jobs))
  {
    var v := Validate(g.attrs, g.id, g.persisted, db.groups, db.groupUsers, g.built,
                      nameOk, isValid, otherGroup, category);
    if v.errors != [] {
      g.attrs := v.attrs;
      return false, v.errors, [];
    }
    jobs := Commit(g, db, v.attrs, freshId);
    ok, errors := true, [];
  }

  // ---------------------------------------------------------------------------
  // `usernames=` followed by `save`

  /** No two users share a username (the unique index on `users.username`). */
  ghost predicate UniqueUsernames(users: map<int, User>)
  {
    forall u, v :: u in users && v in users && users[u].username == users[v].username ==> u == v
  }

  /** Usernames are non-empty and have no comma, so a comma-joined list splits back into them. */
  ghost predicate ListableUsernames(users: map<int, User>)
  {
    forall u :: u in users ==> users[u].username != "" && ',' !in users[u].username
  }

  /** The rows a save keeps and adds: the built rows appended, the staged ones destroyed. */
  function EditedRows(rows0: Rows, next0: int, g: int, pending: seq<PendingRow>, staged: seq<Staged>): (r: Rows)
    requires AllHaveUsers(pending)
    requires forall x :: x in staged && x.Built? ==> x.index < |pending|
  {
    RemoveKeys(AppendPending(rows0, next0, g, pending), DeletionKeys(Resolved(staged, next0, g, pending)))
  }

  /** The list `usernames` produced splits back into the member names. */
  lemma ListedSplitsBack(rows: Rows, users: map<int, User>, g: int, keys: seq<int>, listed: seq<string>)
    requires ListableUsernames(users)
    requires Listing(rows, users, g, keys, listed)
    ensures Split(Join(listed, ","), ',') == listed
  {
    assert "," == [','];
    SplitJoin(listed, ',');
  }

  /** With unique usernames, a user's name is listed iff the user is a member. */
  lemma ListedIffMember(rows: Rows, users: map<int, User>, g: int, keys: seq<int>, listed: seq<string>, u: int)
    requires UniqueUsernames(users)
    requires Listing(rows, users, g, keys, listed)
    requires u in users
    ensures users[u].username in listed <==> IsMember(rows, g, u)
  {
    if users[u].username in listed {
      var i :| 0 <= i < |listed| && listed[i] == users[u].username;
      var k := keys[i];
      assert k in keys;
      assert k in JoinedRows(rows, users, g);
      assert listed[i] == users[rows[k].userId].username;
      assert rows[k].userId == u;
    }
    if IsMember(rows, g, u) {
      var k :| k in rows && rows[k].groupId == g && rows[k].userId == u;
      assert k in JoinedRows(rows, users, g);
      var i := IndexOf(keys, k);
      assert listed[i] == users[u].username;
    }
  }

  /** With unique usernames, the resolved ids are exactly the users whose names are listed. */
  lemma ResolvedIff(users: map<int, User>, names: seq<string>, ids: set<int>, u: int)
    requires UniqueUsernames(users)
    requires Resolves(users, names, ids)
    requires u in users
    ensures u in ids <==> users[u].username in names
  {
    if users[u].username in names {
      var i :| 0 <= i < |names| && names[i] == users[u].username;
      assert names[i] in NamesOf(users, ids);
      var v :| v in ids && v in users && users[v].username == names[i];
    }
  }

  /** With unique usernames, some built row is for `u` iff `u`'s name is among the added names. */
  lemma BuiltIff(users: map<int, User>, pending: seq<PendingRow>, names: seq<string>, u: int)
    requires UniqueUsernames(users)
    requires BuiltFor(users, pending, names)
    requires u in users
    ensures (exists j :: 0 <= j < |pending| && pending[j].userId == Some(u)) <==> users[u].username in names
  {
    if users[u].username in names {
      var j :| 0 <= j < |names| && names[j] == users[u].username;
      assert pending[j].userId.Some?;
      var v := pending[j].userId.value;
      assert users[v].username == users[u].username;
    }
  }

  /** A name no user has gets a row without a user, and the save that follows is refused. */
  lemma UnknownNameRefused(users: map<int, User>, pending: seq<PendingRow>, names: seq<string>, i: nat,
                           a: Group, selfId: int, persisted: bool, groups: map<int, Group>, rows: Rows,
                           before: seq<PendingRow>, nameOk: string -> bool, isValid: string -> bool,
                           otherGroup: string -> Option<string>, category: string -> Option<string>)
    requires BuiltFor(users, pending, names)
    requires i < |names|
    requires NobodyNamed(users, names[i])
    ensures pending[i].userId.None?
    ensures MemberWithoutUser in Validate(a, selfId, persisted, groups, rows, before + pending,
                                          nameOk, isValid, otherGroup, category).errors
  {
    assert (before + pending)[|before| + i] == pending[i];
  }

  /** The rows a save destroys after `usernames=` on a loaded group: the group's rows of the removed users. */
  lemma DestroyedRows(rows0: Rows, g: int, pending: seq<PendingRow>, staged: seq<Staged>, ids: set<int>,
                      next0: int, k: int)
    requires AllHaveUsers(pending)
    requires StagedFor(staged, rows0, g, true, [], ids)
    ensures k in DeletionKeys(Resolved(staged, next0, g, pending)) <==>
      k in rows0 && rows0[k].groupId == g && rows0[k].userId in ids
  {
    var dels := Resolved(staged, next0, g, pending);
    if k in DeletionKeys(dels) {
      var i :| 0 <= i < |dels| && dels[i].key == k;
      assert staged[i] in staged;
      assert staged[i].Stored? && dels[i] == Deletion(staged[i].key, staged[i].row);
    }
    if k in rows0 && rows0[k].groupId == g && rows0[k].userId in ids {
      assert Stored(k, rows0[k]) in staged;
      var i :| 0 <= i < |staged| && staged[i] == Stored(k, rows0[k]);
      assert dels[i].key == k;
    }
  }

  /** Membership after the save, split into the kept old rows and the saved built rows. */
  lemma EditedMembership(rows0: Rows, next0: int, g: int, pending: seq<PendingRow>, staged: seq<Staged>,
                         ids: set<int>, u: int)
    requires KeysBelow(rows0, next0) && AllHaveUsers(pending)
    requires StagedFor(staged, rows0, g, true, [], ids)
    ensures IsMember(EditedRows(rows0, next0, g, pending, staged), g, u) <==>
      (IsMember(rows0, g, u) && u !in ids) || (exists j :: 0 <= j < |pending| && pending[j].userId == Some(u))
  {
    DestroyedRows(rows0, g, pending, staged, ids, next0, 0);
    var dels := Resolved(staged, next0, g, pending);
    var after := EditedRows(rows0, next0, g, pending, staged);
    var appended := AppendPending(rows0, next0, g, pending);
    if IsMember(after, g, u) {
      var k :| k in after && after[k].groupId == g && after[k].userId == u;
      DestroyedRows(rows0, g, pending, staged, ids, next0, k);
      if next0 <= k {
        assert pending[k - next0].userId == Some(u);
      } else {
        assert k in rows0 && rows0[k] == after[k];
      }
    }
    if IsMember(rows0, g, u) && u !in ids {
      var k :| k in rows0 && rows0[k].groupId == g && rows0[k].userId == u;
      DestroyedRows(rows0, g, pending, staged, ids, next0, k);
      assert k in after && after[k] == rows0[k];
    }
    if exists j :: 0 <= j < |pending| && pending[j].userId == Some(u) {
      var j :| 0 <= j < |pending| && pending[j].userId == Some(u);
      var k := next0 + j;
      DestroyedRows(rows0, g, pending, staged, ids, next0, k);
      assert k !in rows0;
      assert k in after && after[k].groupId == g && after[k].userId == u;
    }
  }

  /**
   * The two-phase edit: on a group loaded from the tables, `usernames =
   * val` followed by a successful save leaves exactly the users whose
   * names `val` lists as members; added names gain a row, removed names
   * lose theirs, everyone else keeps what they had.
   */
  lemma UsernamesEditMembership(rows0: Rows, next0: int, users: map<int, User>, g: int,
                                keys: seq<int>, listed: seq<string>, val: string,
                                removedIds: set<int>, staged: seq<Staged>, pending: seq<PendingRow>, u: int)
    requires KeysBelow(rows0, next0) && AllHaveUsers(pending)
    requires UniqueUsernames(users) && ListableUsernames(users)
    requires Listing(rows0, users, g, keys, listed)
    requires var current := Split(Join(listed, ","), ',');
      var expected := Split(val, ',');
      && Resolves(users, Difference(current, expected), removedIds)
      && StagedFor(staged, rows0, g, true, [], removedIds)
      && BuiltFor(users, pending, Difference(expected, current))
    requires u in users
    ensures IsMember(EditedRows(rows0, next0, g, pending, staged), g, u) <==> users[u].username in Split(val, ',')
  {
    var expected := Split(val, ',');
    ListedSplitsBack(rows0, users, g, keys, listed);
    var name := users[u].username;
    ListedIffMember(rows0, users, g, keys, listed, u);
    ResolvedIff(users, Difference(listed, expected), removedIds, u);
    DifferenceMembers(listed, expected, name);
    BuiltIff(users, pending, Difference(expected, listed), u);
    DifferenceMembers(expected, listed, name);
    EditedMembership(rows0, next0, g, pending, staged, removedIds, u);
  }

  /**
   * The pointers the save clears after `usernames=`: a removed member's
   * primary group is cleared exactly when it was this group; nobody else's
   * pointer changes.
   */
  lemma UsernamesEditPointers(rows0: Rows, next0: int, users: map<int, User>, g: int, pending: seq<PendingRow>,
                              staged: seq<Staged>, removedIds: set<int>, u: int)
    requires AllHaveUsers(pending)
    requires StagedFor(staged, rows0, g, true, [], removedIds)
    requires u in users
    ensures ClearPointers(users, Resolved(staged, next0, g, pending))[u].primaryGroupId ==
      if u in removedIds && IsMember(rows0, g, u) && users[u].primaryGroupId == Some(g) then None
      else users[u].primaryGroupId
  {
    var dels := Resolved(staged, next0, g, pending);
    DestroyedRows(rows0, g, pending, staged, removedIds, next0, 0);
    if PointsToDeleted(users[u], u, dels) {
      var i :| 0 <= i < |dels| && dels[i].row.userId == u && dels[i].row.groupId == users[u].primaryGroupId.value;
      assert staged[i] in staged;
      assert staged[i].key in rows0 && rows0[staged[i].key] == dels[i].row;
    }
    if u in removedIds && IsMember(rows0, g, u) && users[u].primaryGroupId == Some(g) {
      var k :| k in rows0 && rows0[k].groupId == g && rows0[k].userId == u;
      assert Stored(k, rows0[k]) in staged;
      var i :| 0 <= i < |staged| && staged[i] == Stored(k, rows0[k]);
      assert dels[i].row == rows0[k];
    }
  }
}
