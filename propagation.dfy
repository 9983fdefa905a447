/**
 * What saving a group writes into its members' user records: the title
 * (`update_title`) and the primary group pointer (`update_primary_group`).
 * Both are single `UPDATE users ... WHERE id IN (members)` statements and
 * are modelled as functions from the old `users` table to the new one.
 */
module Propagation {
  import opened Wrappers

  import opened GroupTables

  /** SQL `COALESCE(title, '')`. */
  function Coalesce(t: Option<string>): string
  {
    t.GetOr("")
  }

  /**
   * `title = :title_was OR title = '' OR title IS NULL`. In SQL a NULL
   * `title_was` equals nothing, so the first disjunct needs both present.
   */
  predicate FollowsGroupTitle(title: Option<string>, titleWas: Option<string>)
  {
    (title.Some? && titleWas.Some? && title == titleWas) || title == Some("") || title.None?
  }

  /** The member's title after `update_title`. */
  function RetitledUser(user: User, title: Option<string>, titleWas: Option<string>): (r: User)
  {
    if FollowsGroupTitle(user.title, titleWas) && Coalesce(user.title) != Coalesce(title)
    then user.(title := title) else user
  }

  /**
   * The `users` table after `update_title`. Only members change, and only
   * their title; a member whose title followed the group (the old title or
   * none) ends with the new one, any other title is kept.
   */
  function TitleUpdate(users: map<int, User>, members: set<int>, title: Option<string>, titleWas: Option<string>)
    : (r: map<int, User>)
    ensures r.Keys == users.Keys
    ensures forall u :: u in users && u !in members ==> r[u] == users[u]
    ensures forall u :: u in users ==> r[u].(title := users[u].title) == users[u]
    ensures forall u :: u in users && u in members && FollowsGroupTitle(users[u].title, titleWas) ==>
      Coalesce(r[u].title) == Coalesce(title)
    ensures forall u :: u in users && !FollowsGroupTitle(users[u].title, titleWas) ==> r[u] == users[u]
  {
    map u | u in users :: if u in members then RetitledUser(users[u], title, titleWas) else users[u]
  }

  /** Running the same update again changes nothing. */
  lemma {:induction false} TitleUpdateIdempotent(users: map<int, User>, members: set<int>, title: Option<string>,
                                                 titleWas: Option<string>)
    ensures var once := TitleUpdate(users, members, title, titleWas);
      TitleUpdate(once, members, title, titleWas) == once
  {
    var once := TitleUpdate(users, members, title, titleWas);
    forall u | u in once ensures TitleUpdate(once, members, title, titleWas)[u] == once[u] {
      if u in members && FollowsGroupTitle(users[u].title, titleWas) && Coalesce(users[u].title) != Coalesce(title) {
        assert once[u].title == title;
      }
    }
  }

  /** The member's pointer after `update_primary_group`. */
  function RepointedUser(user: User, g: int, primary: bool): (r: User)
  {
    if primary then user.(primaryGroupId := Some(g))
    else if user.primaryGroupId == Some(g) then user.(primaryGroupId := None)
    else user
  }

  /**
   * The `users` table after `update_primary_group`: a primary group becomes
   * every member's primary group; otherwise only the pointers to it are
   * cleared.
   */
  function PrimaryGroupUpdate(users: map<int, User>, members: set<int>, g: int, primary: bool): (r: map<int, User>)
    ensures r.Keys == users.Keys
    ensures forall u :: u in users && u !in members ==> r[u] == users[u]
    ensures forall u :: u in users ==> r[u].(primaryGroupId := users[u].primaryGroupId) == users[u]
    ensures primary ==> forall u :: u in users && u in members ==> r[u].primaryGroupId == Some(g)
    ensures !primary ==> forall u :: u in users && u in members ==>
      r[u].primaryGroupId == (if users[u].primaryGroupId == Some(g) then None else users[u].primaryGroupId)
  {
    map u | u in users :: if u in members then RepointedUser(users[u], g, primary) else users[u]
  }

  /** After clearing, no member points here while pointers elsewhere are kept; running it again changes nothing. */
  lemma PrimaryGroupUpdateSettles(users: map<int, User>, members: set<int>, g: int, primary: bool)
    ensures var r := PrimaryGroupUpdate(users, members, g, primary);
      && (!primary ==> forall u :: u in members && u in users ==> r[u].primaryGroupId != Some(g))
      && PrimaryGroupUpdate(r, members, g, primary) == r
  {
    var r := PrimaryGroupUpdate(users, members, g, primary);
    assert forall u :: u in r ==> PrimaryGroupUpdate(r, members, g, primary)[u] == r[u];
  }
}
