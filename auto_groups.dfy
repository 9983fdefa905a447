/**
 * The fixed table of automatic groups (`AUTO_GROUPS`, `AUTO_GROUP_IDS`), the
 * membership rule of each, and the trust-level tier arithmetic.
 */
module AutoGroups {
  import opened Wrappers
  import opened GroupTables

  /** The well-known automatic groups, a closed enumeration. */
  datatype AutoGroup =
    | Everyone | Admins | Moderators | Staff
    | TrustLevel0 | TrustLevel1 | TrustLevel2 | TrustLevel3 | TrustLevel4

  /** The keys of `AUTO_GROUPS`, in declaration order. */
  const AllAutoGroups: seq<AutoGroup> :=
    [Everyone, Admins, Moderators, Staff,
     TrustLevel0, TrustLevel1, TrustLevel2, TrustLevel3, TrustLevel4]

  /** `AUTO_GROUPS.keys`: the symbols of the table, in declaration order. */
  function AutoGroupKeys(): (keys: seq<GroupKey>)
    ensures |keys| == |AllAutoGroups|
    ensures forall i :: 0 <= i < |keys| ==> AutoOf(keys[i]) == Some(AllAutoGroups[i])
  {
    seq(|AllAutoGroups|, i requires 0 <= i < |AllAutoGroups| => Sym(Name(AllAutoGroups[i])))
  }

  /** The fixed group id of each automatic group. */
  function Id(k: AutoGroup): (id: int)
    ensures 0 <= id <= 3 || 10 <= id <= 14
  {
    match k
    case Everyone => 0
    case Admins => 1
    case Moderators => 2
    case Staff => 3
    case TrustLevel0 => 10
    case TrustLevel1 => 11
    case TrustLevel2 => 12
    case TrustLevel3 => 13
    case TrustLevel4 => 14
  }

  /** The canonical (symbol) name of each automatic group. */
  function Name(k: AutoGroup): string
  {
    match k
    case Everyone => "everyone"
    case Admins => "admins"
    case Moderators => "moderators"
    case Staff => "staff"
    case TrustLevel0 => "trust_level_0"
    case TrustLevel1 => "trust_level_1"
    case TrustLevel2 => "trust_level_2"
    case TrustLevel3 => "trust_level_3"
    case TrustLevel4 => "trust_level_4"
  }

  /** Every automatic group is listed, and each key resolves back to its group. */
  lemma AutoGroupKeysComplete(k: AutoGroup)
    ensures exists i :: 0 <= i < |AutoGroupKeys()| && AutoOf(AutoGroupKeys()[i]) == Some(k)
    ensures forall i :: 0 <= i < |AutoGroupKeys()| ==> AutoOf(AutoGroupKeys()[i]).Some?
  {
    var i := match k
      case Everyone => 0 case Admins => 1 case Moderators => 2 case Staff => 3
      case TrustLevel0 => 4 case TrustLevel1 => 5 case TrustLevel2 => 6
      case TrustLevel3 => 7 case TrustLevel4 => 8;
    assert AllAutoGroups[i] == k;
    assert AutoOf(AutoGroupKeys()[i]) == Some(k);
  }

  /** Distinct automatic groups have distinct ids. */
  lemma IdInjective(k: AutoGroup, k': AutoGroup)
    requires Id(k) == Id(k')
    ensures k == k'
  {
    assert ById(Id(k)) == Some(k) && ById(Id(k')) == Some(k');
  }

  /** The ids of the first `n` automatic groups. */
  function FirstIds(n: nat): (ids: set<int>)
    requires n <= |AllAutoGroups|
    ensures forall j :: 0 <= j < n ==> Id(AllAutoGroups[j]) in ids
  {
    set j | 0 <= j < n :: Id(AllAutoGroups[j])
  }

  lemma FirstIdsSnoc(n: nat)
    requires n < |AllAutoGroups|
    ensures FirstIds(n + 1) == FirstIds(n) + {Id(AllAutoGroups[n])}
  {
  }

  /** A later automatic group's id is none of the earlier ones. */
  lemma LaterIdIsNew(i: nat)
    requires i < |AllAutoGroups|
    ensures Id(AllAutoGroups[i]) !in FirstIds(i)
  {
    assert forall j :: 0 <= j < i ==> Id(AllAutoGroups[j]) < Id(AllAutoGroups[i]);
  }

  predicate IsTrustTier(k: AutoGroup)
  {
    k.TrustLevel0? || k.TrustLevel1? || k.TrustLevel2? || k.TrustLevel3? || k.TrustLevel4?
  }

  /** The automatic group whose symbol is spelled `name`. */
  function ByName(name: string): (r: Option<AutoGroup>)
    ensures r.Some? ==> Name(r.value) == name
    ensures forall k :: Name(k) == name ==> r == Some(k)
  {
    if name == "everyone" then Some(Everyone)
    else if name == "admins" then Some(Admins)
    else if name == "moderators" then Some(Moderators)
    else if name == "staff" then Some(Staff)
    else if name == "trust_level_0" then Some(TrustLevel0)
    else if name == "trust_level_1" then Some(TrustLevel1)
    else if name == "trust_level_2" then Some(TrustLevel2)
    else if name == "trust_level_3" then Some(TrustLevel3)
    else if name == "trust_level_4" then Some(TrustLevel4)
    else None
  }

  /**
   * A key passed to the lookups: a Ruby symbol or a string. The keys of
   * `AUTO_GROUPS` are symbols, so a string never finds an automatic group,
   * while `find_by(name:)` compares either by its text.
   */
  datatype GroupKey = Sym(name: string) | Str(name: string)

  /** `AUTO_GROUPS[key]`: only a symbol that names an automatic group finds it. */
  function AutoOf(key: GroupKey): (r: Option<AutoGroup>)
    ensures r.Some? <==> key.Sym? && exists k :: Name(k) == key.name
    ensures r.Some? ==> key == Sym(Name(r.value))
  {
    if key.Sym? then ByName(key.name) else None
  }

  /** `AUTO_GROUP_IDS[id]`, the inverse table from id to name. */
  function ById(id: int): (r: Option<AutoGroup>)
    ensures r.Some? ==> Id(r.value) == id
    ensures forall k :: Id(k) == id ==> r == Some(k)
  {
    if id == 0 then Some(Everyone)
    else if id == 1 then Some(Admins)
    else if id == 2 then Some(Moderators)
    else if id == 3 then Some(Staff)
    else if id == 10 then Some(TrustLevel0)
    else if id == 11 then Some(TrustLevel1)
    else if id == 12 then Some(TrustLevel2)
    else if id == 13 then Some(TrustLevel3)
    else if id == 14 then Some(TrustLevel4)
    else None
  }

  /** The membership rule of each automatic group other than `everyone`. */
  predicate Qualifies(k: AutoGroup, u: User)
    requires k != Everyone
  {
    match k
    case Admins => u.admin
    case Moderators => u.moderator
    case Staff => u.admin || u.moderator
    case TrustLevel0 => true
    case TrustLevel1 | TrustLevel2 | TrustLevel3 | TrustLevel4 => u.trustLevel >= Id(k) - 10
  }

  /** `remove_subquery`: the users whose rows the reconciler deletes. */
  function RemoveSubquery(k: AutoGroup, users: map<int, User>): (ids: set<int>)
    requires k != Everyone
    ensures ids <= users.Keys
  {
    match k
    case Admins => set u | u in users && !users[u].admin
    case Moderators => set u | u in users && !users[u].moderator
    case Staff => set u | u in users && !users[u].admin && !users[u].moderator
    case TrustLevel0 | TrustLevel1 | TrustLevel2 | TrustLevel3 | TrustLevel4 =>
      set u | u in users && users[u].trustLevel < Id(k) - 10
  }

  /** `insert_subquery`: the users the reconciler makes sure have a row. */
  function InsertSubquery(k: AutoGroup, users: map<int, User>): (ids: set<int>)
    requires k != Everyone
    ensures ids <= users.Keys
  {
    match k
    case Admins => set u | u in users && users[u].admin
    case Moderators => set u | u in users && users[u].moderator
    case Staff => set u | u in users && (users[u].moderator || users[u].admin)
    case TrustLevel0 => users.Keys
    case TrustLevel1 | TrustLevel2 | TrustLevel3 | TrustLevel4 =>
      set u | u in users && users[u].trustLevel >= Id(k) - 10
  }

  /**
   * The insert query selects exactly the users that satisfy the group's rule,
   * and every user outside it is selected by the delete query.
   */
  lemma SubqueriesMatchRule(k: AutoGroup, users: map<int, User>)
    requires k != Everyone
    ensures forall u :: u in InsertSubquery(k, users) <==> u in users && Qualifies(k, users[u])
    ensures users.Keys - InsertSubquery(k, users) <= RemoveSubquery(k, users)
  {
  }

  /** `trust_group_ids`: the ids 10 to 19 reserved for trust tiers. */
  const TrustGroupIds: seq<int> := [10, 11, 12, 13, 14, 15, 16, 17, 18, 19]

  predicate Increasing(s: seq<int>)
  {
    forall i, j :: 0 <= i < j < |s| ==> s[i] < s[j]
  }

  /** The `keep_if` filter of `desired_trust_level_groups`. */
  function KeepDesired(ids: seq<int>, trustLevel: int): (r: seq<int>)
    ensures forall id :: id in r <==> id in ids && (id == 10 || trustLevel + 10 >= id)
    ensures |r| <= |ids|
    ensures Increasing(ids) ==> Increasing(r)
  {
    if ids == [] then []
    else if ids[0] == 10 || trustLevel + 10 >= ids[0] then
      var rest := KeepDesired(ids[1..], trustLevel);
      assert Increasing(ids) ==> forall x :: x in ids[1..] ==> ids[0] < x by {
        if Increasing(ids) {
          forall x | x in ids[1..] ensures ids[0] < x {
            var j :| 0 <= j < |ids[1..]| && ids[1..][j] == x;
            assert ids[j + 1] == x;
          }
        }
      }
      assert Increasing(ids) ==> Increasing(ids[1..]);
      assert Increasing(ids) ==> Increasing([ids[0]] + rest) by {
        if Increasing(ids) {
          forall i, j | 0 <= i < j < |[ids[0]] + rest| ensures ([ids[0]] + rest)[i] < ([ids[0]] + rest)[j] {
            if i == 0 {
              assert ([ids[0]] + rest)[j] == rest[j - 1];
              assert rest[j - 1] in rest;
            }
          }
        }
      }
      [ids[0]] + rest
    else KeepDesired(ids[1..], trustLevel)
  }

  /** `desired_trust_level_groups(trust_level)`. */
  function DesiredTrustLevelGroups(trustLevel: int): (r: seq<int>)
    ensures Increasing(r)
    ensures forall j :: 0 <= j < |r| ==> 10 <= r[j] <= 19
  {
    assert Increasing(TrustGroupIds);
    var r := KeepDesired(TrustGroupIds, trustLevel);
    assert forall j :: 0 <= j < |r| ==> r[j] in r;
    r
  }

  /**
   * The group `user_trust_level_change!` refreshes for a missing tier is
   * `AUTO_GROUP_IDS[trust_level]`: for the trust levels 0 to 4 that is
   * everyone, admins, moderators, staff or nothing, never a trust tier.
   */
  lemma MissingTierRefreshTarget(tl: int)
    requires 0 <= tl <= 4
    ensures ById(tl) == [Some(Everyone), Some(Admins), Some(Moderators), Some(Staff), None][tl]
    ensures ById(tl).Some? ==> !IsTrustTier(ById(tl).value) && Id(ById(tl).value) !in TrustGroupIds
  {
  }

  /** `trust_group_ids - desired`: the tier groups the user must leave. */
  function UndesiredTiers(trustLevel: int): (ids: set<int>)
    ensures forall h :: h in ids <==> h in TrustGroupIds && h !in DesiredTrustLevelGroups(trustLevel)
  {
    set h | h in TrustGroupIds && h !in DesiredTrustLevelGroups(trustLevel)
  }

  /** The desired tier groups are `trust_level_0` and every tier id up to the level. */
  lemma DesiredTiers(trustLevel: int)
    ensures forall id :: id in DesiredTrustLevelGroups(trustLevel)
              <==> 10 <= id <= 19 && (id == 10 || id <= trustLevel + 10)
    ensures 10 in DesiredTrustLevelGroups(trustLevel)
  {
  }

  lemma {:induction false} KeepNoneAbove(ids: seq<int>, trustLevel: int)
    requires forall i :: 0 <= i < |ids| ==> ids[i] != 10 && ids[i] > trustLevel + 10
    ensures KeepDesired(ids, trustLevel) == []
  {
    if ids != [] {
      KeepNoneAbove(ids[1..], trustLevel);
    }
  }

  /** A kept head stays at the front of the filtered sequence. */
  lemma KeepHead(ids: seq<int>, trustLevel: int)
    requires ids != [] && (ids[0] == 10 || trustLevel + 10 >= ids[0])
    ensures KeepDesired(ids, trustLevel) == [ids[0]] + KeepDesired(ids[1..], trustLevel)
  {
  }

  /** `desired_trust_level_groups(2)` is `[10, 11, 12]`. */
  lemma DesiredTiersAtTwo()
    ensures DesiredTrustLevelGroups(2) == [10, 11, 12]
  {
    var ids := TrustGroupIds;
    var above := [13, 14, 15, 16, 17, 18, 19];
    assert ids[1..] == [11, 12] + above;
    assert ids[1..][1..] == [12] + above;
    assert ids[1..][1..][1..] == above;
    KeepNoneAbove(above, 2);
    KeepHead(ids[1..][1..], 2);
    KeepHead(ids[1..], 2);
    KeepHead(ids, 2);
  }
}
