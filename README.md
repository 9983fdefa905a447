# Discourse groups, translation overrides, watched words and file helpers in Dafny

This project models the group membership engine of Discourse's `Group`
model. It also models three smaller pieces: the `TranslationOverride` table,
the `WordWatcher` pattern builder with its cache, and the pure parts of
`FileHelper`. It proves what those pieces promise about the tables they
change.

The database is plain state, a class `GroupStore.Store` with three maps:

- `users`: id to the user columns the engine reads or writes (admin,
  moderator, trust level, primary group, title, username);
- `groups`: id to the group record;
- `groupUsers`: row id to a `(group_id, user_id, owner)` row.

Row ids are kept so that the staged deletions of `usernames=` destroy
exactly the rows they name. Each SQL statement becomes a function on these
maps (`DeleteRows`, `AppendRows`, `ResetCounters`, ...). The methods that
run the statements modify the store, and each method's postcondition ties
the new tables to those functions.

- **Automatic groups** (`AutoGroups`, `Reconciler`)
  - `AUTO_GROUPS` is the datatype `AutoGroup`, with its ids, names and
    membership rules.
  - `refresh_automatic_group!` is a method. Its state is stated as a
    delete-then-insert reconciliation (`Reconciled`) plus the conditional
    localized rename (`Renamed`).
  - Lemmas prove that membership then follows the group's rule, that counts
    match rows, that other groups are untouched, and that a second refresh
    changes nothing.
  - `user_trust_level_change!` keeps the source's refresh of
    `AUTO_GROUP_IDS[trust_level]` for a missing tier, as written.
- **Policy** (`GroupPolicy`): `alias_levels`, `mentionable`, `messageable`,
  `visible_groups` and `staff?` are pure predicates over a group, the rows
  and the viewer. A truth-table lemma covers one member, one owner, a
  moderator, an admin and an anonymous viewer.
- **Membership** (`Membership`, `GroupRecords`)
  - `add`, `remove`, `add_owner` and `bulk_add` change the store.
  - On the in-memory record (class `GroupRecord`), `usernames=` stages
    deletions and builds rows. `save` validates, writes the record, saves
    the built rows, runs `destroy_deletions` and propagates title and
    primary group.
- **Propagation** (`Propagation`): `update_title` and `update_primary_group`
  are functions from the old `users` table to the new one.
- **Sweep** (`Sweep`): `reset_all_counters!`, `refresh_has_messages!` and
  `ensure_consistency!`.
- **Validators** (`GroupValidators`, `GroupRecords.Validate`)
  - The domain list validator, with Ruby's line anchors written out.
  - `downcase_incoming_email`, the incoming e-mail validator, the name check
    and `can_allow_membership_requests`.
- **Translation overrides** (`TranslationOverrides`)
  - A class over the override table with `find_or_initialize_by`, `upsert!`
    and `revert!`.
  - The uniqueness and presence validations, and the interpolation-key check
    with its error message.
- **Watched words** (`WordWatchers`)
  - The word list with its limit, and `Regexp.escape` after Ruby's quoting
    table.
  - The `*` to `\S*` rewrite, the pattern string, the cache key, and a cache
    class with `word_matcher_regexp` and `clear_cache!`.
  - A watcher class whose three predicates consult their own action.
- **File helper** (`FileHelpers`): `is_image?` with `$` as a line anchor, the
  protocol-relative rewrite and protocol check at the head of `download`,
  and the content-type extension fallback.

Calls into code outside these files are parameters of the members that use
them:

- the I18n lookup;
- `UsernameValidator`, `Email.is_valid?` and the searches for the group or
  category owning an address;
- `I18nInterpolationKeysFinder`, `JsLocaleHelper` and `MiniMime`;
- the regex engine.

Jobs and MessageBus messages are returned as values: the refreshes of the
automatic groups, `Group[]`, `ensure_consistency!` and
`user_trust_level_change!` return the jobs their saves enqueue, and a
`save!` that raises `RecordInvalid` becomes a returned error list that stops
the calling loop. The i18n flush of `upsert!` is returned as a boolean.

Keys of `AUTO_GROUPS` are Ruby symbols. A key is `GroupKey`, either a symbol
(`Sym`) or a string (`Str`); only a symbol spelled like an automatic group's
name finds it, so a string key such as `"staff"` goes to the lookup by name.

## Model

| member | source | states |
|---|---|---|
| AutoGroups.AutoGroupKeys | app/models/group.rb:49-59 | the symbol keys of `AUTO_GROUPS`, one per automatic group, each resolving to that group, in declaration order |
| AutoGroups.AutoGroupKeysComplete | app/models/group.rb:49-59 | every automatic group has its key in the list and every listed key resolves to an automatic group |
| AutoGroups.Id | app/models/group.rb:49-59 | the fixed ids lie in 0..3 or 10..14 |
| AutoGroups.IdInjective | app/models/group.rb:49-59 | distinct automatic groups have distinct ids |
| AutoGroups.ByName | app/models/group.rb:49-59 | the automatic group whose symbol is spelled `name`, and some group whenever one is spelled so |
| AutoGroups.ById | app/models/group.rb:61 | `AUTO_GROUP_IDS[id]` is the group with that id, the inverse of the id table |
| AutoGroups.AutoOf | app/models/group.rb:362-364 | a key names an automatic group iff it is a symbol spelled like one; a string key never does |
| AutoGroups.FirstIds | app/models/group.rb:347 | the ids of the groups `ensure_automatic_groups!` has handled so far include each of them |
| AutoGroups.LaterIdIsNew | app/models/group.rb:347-349 | a later automatic group's id is none of the earlier ones |
| AutoGroups.RemoveSubquery | app/models/group.rb:257-267 | the users the DELETE removes are users of the table |
| AutoGroups.InsertSubquery | app/models/group.rb:277-289 | the users the INSERT selects are users of the table |
| AutoGroups.SubqueriesMatchRule | app/models/group.rb:257-289 | the insert query selects exactly the users the group's rule admits; every other user is in the remove query |
| AutoGroups.KeepDesired | app/models/group.rb:389-391 | an id survives the `keep_if` iff it is 10 or at most trust level + 10; order is kept |
| AutoGroups.DesiredTrustLevelGroups | app/models/group.rb:388-392 | the desired tiers are increasing ids within 10..19 |
| AutoGroups.DesiredTiers | app/models/group.rb:388-392 | an id is desired iff it is 10, or lies in 10..19 and is at most trust level + 10; 10 is always desired |
| AutoGroups.DesiredTiersAtTwo | spec/models/group_spec.rb:421-434 | trust level 2 gives `[10, 11, 12]` |
| AutoGroups.MissingTierRefreshTarget | app/models/group.rb:406-407 | for trust levels 0 to 4, `AUTO_GROUP_IDS[trust_level]` is everyone, admins, moderators, staff or nil, never a trust tier |
| GroupTables.NewGroup | app/models/group.rb:234 | a new group has the given name and automatic flag and every other column at its schema default |
| GroupTables.KeysFor | app/models/group.rb:402 | the rows linking a user to a group are rows of the table |
| GroupTables.KeysForEmpty | app/models/group.rb:402 | a user has no row in a group iff they are not a member |
| GroupTables.GroupKeys | app/models/group.rb:317-319 | the rows of one group are rows of the table |
| GroupTables.MemberIds | app/models/group.rb:574 | the member ids of a group are exactly the users with a row in it |
| GroupTables.RowsOf | app/models/group.rb:272 | the rows of one group, and only those, with their values |
| GroupTables.RowsOfDetermine | app/models/group.rb:272 | membership, ownership, row sets and counts of a group depend on that group's rows alone |
| GroupStore.Store.constructor | app/models/group.rb:637-665 | a store over the given users and groups with no rows |
| GroupStore.DeleteRows | app/models/group.rb:269-274 | the DELETE removes exactly the group's rows of the named users and keeps every other row unchanged |
| GroupStore.AppendRows | app/models/group.rb:291-297 | the INSERT adds one row per listed user under consecutive fresh ids and keeps the old rows |
| GroupStore.AppendRowsSnoc | app/models/group.rb:291-297 | inserting one more user extends the inserted block by one id |
| GroupStore.DeleteUserRows | app/models/group.rb:398 | deleting a user's rows in some groups removes exactly those rows |
| GroupStore.DeleteUserRowsEffect | app/models/group.rb:398 | afterwards the user is in none of those groups; every other membership and row set is kept |
| GroupStore.InsertOneEffect | app/models/group.rb:403 | creating one row under a fresh id adds that membership and no other |
| GroupStore.DeleteKeepsOtherGroups | app/models/group.rb:269-274 | the DELETE leaves every other group's rows as they were |
| GroupStore.AppendKeepsOtherGroups | app/models/group.rb:291-297 | the INSERT leaves every other group's rows as they were |
| GroupStore.DeleteKeepsBound | app/models/group.rb:269-274 | deleting rows keeps every row id below the fresh-id bound |
| GroupStore.AppendedOnce | app/models/group.rb:291-297 | a user who had no row gets exactly one appended row, under the id the insert order gives it |
| GroupStore.AppendMembership | app/models/group.rb:291-297 | after the insert a user is a member exactly when they were before or they were inserted |
| GroupStore.DeleteAppendKeepsUser | app/models/group.rb:269-297 | a user neither deleted nor inserted keeps exactly the same rows |
| GroupStore.InsertRows | app/models/group.rb:291-297 | inserts one row for each user of the set, each once, and leaves users and groups unchanged |
| Reconciler.QueriesDisjointUnlessNegative | app/models/group.rb:257-289 | the remove and insert queries select disjoint users unless a negative trust level meets `trust_level_0` |
| Reconciler.ReconcileFollowsRule | app/models/group.rb:256-297 | after DELETE and INSERT, a known user has a row in the group iff the group's rule holds |
| Reconciler.ReconcileKeepsUnknownUsers | app/models/group.rb:269-274 | rows of users absent from `users` are kept |
| Reconciler.ReconcileKeepsOtherGroups | app/models/group.rb:269-297 | no other group's rows change |
| Reconciler.ReconcileAddsOneRowEach | app/models/group.rb:291-297 | each user the INSERT adds ends with exactly one row |
| Reconciler.ReconcileIdempotent | app/models/group.rb:269-297 | on a group whose membership matches its rule, the DELETE and the INSERT do nothing |
| Reconciler.NewAutoGroup | app/models/group.rb:234-236 | the created group is automatic, keeps the symbol name, has notification level 2 for moderators and 3 otherwise, and has no title, no primary flag and no retroactive membership |
| Reconciler.Stored | app/models/group.rb:531-532 | the saved record has the stripped name and keeps the automatic flag, visibility, count, title, primary flag and retroactive flag |
| Reconciler.NewAutoGroupStored | app/models/group.rb:233-237 | the record built for a missing automatic group is stored unchanged by its `save!` |
| Reconciler.SaveRecord | app/models/group.rb:24-33 | `save!` raises its validation errors and changes nothing, or stores the normalised record, propagates title and primary group, and returns its jobs |
| Reconciler.CreateIfMissing | app/models/group.rb:233-238 | a missing automatic group is built and saved: refused with its errors and nothing changed, or added as built with its creation jobs; rows are untouched |
| Reconciler.WithAutoGroup | app/models/group.rb:233-238 | the missing automatic group exists afterwards as built, and every other group is kept |
| Reconciler.RenameSettles | app/models/group.rb:241-246 | a second rename attempt with the same localized name leaves the record alone |
| Reconciler.RefreshRecordAfterCreate | app/models/group.rb:233-246 | creating the record first does not change the renamed record the refresh saves |
| Reconciler.SettledFrame | app/models/group.rb:230-305 | a settled group stays settled while its record and rows are untouched |
| Reconciler.RefreshAutoGroup | app/models/group.rb:225-305 | a refused creation raises its errors and changes nothing; otherwise `everyone` keeps its rows and any other group gets the reconciled rows, and the second `save!` either raises its errors with the created record kept, or stores the renamed record (with the row count for a rule group) and returns the creation and save jobs; only this group and its rows change |
| Reconciler.RefreshEveryone | app/models/group.rb:240-254 | `everyone` is renamed and gets owners-only visibility; no membership row and no other group changes; the save raises its errors or stores the record and returns its jobs, and the group is then settled |
| Reconciler.RefreshRuleGroup | app/models/group.rb:240-302 | a rule group is renamed and its rows become the reconciled rows; the save raises its errors with the record kept, or stores the record with its row count and returns its jobs; only that group and its rows change |
| Reconciler.SaveCounted | app/models/group.rb:299-302 | the `save!` of the refreshed record raises its errors and changes nothing, or stores it with its count set to the group's row count and returns its jobs; rows and users are untouched |
| Reconciler.RefreshCreated | app/models/group.rb:240-302 | an existing automatic group gets the refresh: rows for `everyone` kept, otherwise reconciled; the `save!` raises its errors with the record kept or stores the renamed record and returns its jobs; other groups' rows are kept and the saved group is settled |
| Reconciler.OnlyTouchesAutomatic | app/models/group.rb:225-305 | refreshes that touch only automatic ids keep every other group's record and rows and add no other group |
| Reconciler.ReconcileRows | app/models/group.rb:256-297 | the delete of rows that break the rule followed by the insert of the missing members, with fresh row ids in insert order; the groups table is untouched |
| Reconciler.RefreshEstablishes | app/models/group.rb:256-302 | after one refresh the group is settled, new members have one row, unknown users and other groups are untouched, and a refresh of a refreshed group changes nothing |
| Reconciler.RefreshEveryoneEstablishes | app/models/group.rb:250-254 | the refresh of `everyone` sets owners visibility and a second one changes nothing |
| Reconciler.LookupGroup | app/models/group.rb:362-371 | an automatic symbol is looked up by its id (`nil` when missing); a string, or a symbol outside `AUTO_GROUPS`, by exact name, or "unknown group" |
| Reconciler.LookupAgreesWithUniqueness | app/models/group.rb:362-371 | a name the find by name succeeds on is refused by the case-insensitive uniqueness validation of a new group, and a name free in that validation makes the lookup raise "unknown group" |
| Reconciler.RefreshAutomaticGroup | app/models/group.rb:225-231 | a key that is not an `AUTO_GROUPS` symbol (strings included) changes nothing; an automatic symbol is refreshed, touching only its group, settled when saved and raising when refused |
| Reconciler.RefreshAutomaticGroups | app/models/group.rb:329-332 | the named keys, or every automatic symbol when none is named, are refreshed in order until one raises; the groups handled before are settled, only automatic groups are touched, and the jobs belong to them |
| Reconciler.RefreshKeys | app/models/group.rb:329-332 | the keys are refreshed in order until one raises; only their groups are touched, the groups handled before are settled, and the jobs belong to them |
| Reconciler.RefreshKey | app/models/group.rb:331 | one refresh extends the loop's progress by one key |
| Reconciler.RefreshKeysStep | app/models/group.rb:331 | one refresh touches at most the group its key names, and its jobs belong to that group |
| Reconciler.TouchedIds | app/models/group.rb:329-332 | the ids of the automatic groups a key list names, and only those |
| Reconciler.RefreshKeepsSettled | app/models/group.rb:329-332 | one more refresh in the loop keeps the earlier groups settled, except one that shares the group that raised |
| Reconciler.EnsureAutomaticGroup | app/models/group.rb:348 | a group that exists is left alone; a missing one is refreshed, touching only that group: settled when saved, raising when refused |
| Reconciler.EnsuredStep | app/models/group.rb:347-349 | one more step of `ensure_automatic_groups!` keeps its progress |
| Reconciler.EnsuredStepTouched | app/models/group.rb:347-349 | a refresh of a missing group that touches only its id keeps the later groups untouched and the earlier ones ensured |
| Reconciler.EnsureAutomaticGroups | app/models/group.rb:346-350 | without a raise every automatic group exists and the ones that were missing are settled; a raise stops the loop with the groups before it ensured and later ones untouched |
| Reconciler.EnsuredAll | app/models/group.rb:346-350 | after every step all automatic groups exist and the missing ones are settled |
| Reconciler.Index | app/models/group.rb:352-354 | `Group[key]` finds an existing automatic group by id, refreshes a missing one (which may raise `RecordInvalid`), finds any other key by name, and raises "unknown group" exactly for a non-automatic key no group has as its name |
| Reconciler.TierInsertStep | app/models/group.rb:401-404 | giving the user a row in an existing desired tier keeps the progress and never duplicates a row |
| Reconciler.JoinUnlessMember | app/models/group.rb:402-404 | the user afterwards has a row in the group; a new row is added under the next free id only when there was none |
| Reconciler.DesiredTier | app/models/group.rb:401-408 | handling one desired tier extends the progress by one tier; an existing tier never raises and enqueues nothing; a refresh may raise; jobs belong to the refreshed group; when the trust level names no automatic group the groups table is untouched |
| Reconciler.AddDesiredTiers | app/models/group.rb:400-409 | the loop handles the desired tiers in order until a refresh raises, every handled tier counted in the progress; the jobs belong to the refreshed group; when the trust level names no automatic group the groups table is untouched |
| Reconciler.TierRefreshStep | app/models/group.rb:405-407 | refreshing `AUTO_GROUP_IDS[trust_level]`, which touches only that id, keeps the progress |
| Reconciler.TierStart | app/models/group.rb:395-398 | the DELETE of the undesired tiers starts the progress and keeps other users' rows and every group outside 10..19 |
| Reconciler.RefreshById | app/models/group.rb:406-407 | an id outside the id table changes nothing; otherwise that automatic group is refreshed, touching only that id, and its jobs belong to it |
| Reconciler.UserTrustLevelChange | app/models/group.rb:394-410 | the user ends in no undesired tier and in each handled desired tier that existed, with its old row or exactly one new one (every desired tier unless a refresh raised); other users' tier rows, groups outside the tiers and every group record except `AUTO_GROUP_IDS[trust_level]` are unchanged; the jobs are that refresh's |
| Reconciler.TierOutcome | app/models/group.rb:394-410 | the progress after the first handled tiers means no undesired tier, one row in each handled existing desired tier, and other users untouched |
| GroupPolicy.AliasLevelsByRole | app/models/group.rb:146-161 | everyone's level for all; admins add only-admins, mods-and-admins and members-mods-and-admins; moderators add the last two; `nobody` never |
| GroupPolicy.Mentionable | app/models/group.rb:128-135 | a group is mentionable iff its level is open to the viewer, or it is members-mods-and-admins and the viewer has a row |
| GroupPolicy.Messageable | app/models/group.rb:137-144 | the same for the messageable level |
| GroupPolicy.VisibleGroups | app/models/group.rb:84-126 | the visible ids are exactly the groups the viewer may see |
| GroupPolicy.VisibilityRules | app/models/group.rb:84-126 | id 0 is never visible; admins see every other group; public groups are seen by all; anonymous viewers see only public groups; owners-level groups are seen only by owners |
| GroupPolicy.VisibilityTruthTable | spec/models/group_spec.rb:484-525 | the visibility of each level for admin, owner, moderator, member and anonymous viewers |
| GroupPolicy.StaffGroupsAreAutomatic | app/models/group.rb:525-527 | `staff?` holds iff the name is that of the admins, moderators or staff automatic group |
| Membership.NoticeFor | app/models/group.rb:449-455 | below ten categories the added user gets the category list, otherwise a refresh request |
| Membership.Add | app/models/group.rb:446-458 | the user is a member afterwards; a member keeps their rows, a newcomer gets exactly one row; no other membership changes |
| Membership.AfterRemove | app/models/group.rb:462 | the primary group is cleared only when it was this group; nothing else of the user changes |
| Membership.Remove | app/models/group.rb:460-463 | every row of the user in this group is destroyed, only their pointer to this group is cleared, and no other membership changes |
| Membership.AddOwner | app/models/group.rb:465-471 | the user is an owner afterwards, through the found row or a new one; a user with at most one row ends with exactly one; nothing else changes |
| Membership.OwnerFlagEffect | app/models/group.rb:467 | setting the owner flag changes no row set and makes the user an owner |
| Membership.BulkUserUpdate | app/models/group.rb:500-512 | listed users get the primary group when it is one and the title when it is present; other users are unchanged |
| Membership.BulkNewMembers | app/models/group.rb:489-495 | the inserted users are listed, existing, and not yet members |
| Membership.BulkAdd | app/models/group.rb:477-523 | an empty list changes nothing; otherwise one row per new member, the user updates, and a grant job only when a trust level is granted |
| Membership.BulkAddMembership | spec/models/group_spec.rb:573-579 | every listed existing user is a member afterwards, new ones with one row, and no old row or other group changes |
| Propagation.TitleUpdate | app/models/group.rb:565-579 | only members whose title was the old title or blank take the new title; all other users are unchanged |
| Propagation.TitleUpdateIdempotent | app/models/group.rb:568-577 | running the title update twice changes nothing more |
| Propagation.PrimaryGroupUpdate | app/models/group.rb:581-608 | a primary group becomes every member's primary group; otherwise only members' pointers to it are cleared |
| Propagation.PrimaryGroupUpdateSettles | app/models/group.rb:599-604 | after clearing no member points here, and a second update changes nothing |
| Sweep.ResetCounters | app/models/group.rb:313-327 | groups with rows get their row count; groups without rows and groups already right are untouched; no other column changes |
| Sweep.ResetCount | app/models/group.rb:318-325 | a group with rows gets their number as its count; a group with none, or already right, is returned unchanged; only the count can differ |
| Sweep.ResetCountersIdempotent | app/models/group.rb:313-327 | a second sweep changes nothing |
| Sweep.ResetAllCounters | app/models/group.rb:313-327 | the groups table becomes `ResetCounters` of itself; rows and users are unchanged |
| Sweep.RefreshHasMessagesMap | app/models/group.rb:334-344 | a group keeps `has_messages` iff it had it and has a live topic; the flag is never set |
| Sweep.RefreshHasMessages | app/models/group.rb:334-344 | the groups table becomes `RefreshHasMessagesMap` of itself; nothing else changes |
| Sweep.HasMessagesKeepsSettled | app/models/group.rb:307-311 | clearing `has_messages` keeps every automatic group settled |
| Sweep.EnsureConsistency | app/models/group.rb:307-311 | the counters are reset and the automatic groups refreshed; without a raise every automatic group is settled and no group without a live topic has messages; a raise skips `refresh_has_messages!`; a non-automatic group keeps its rows and gets exactly the reset (and, without a raise, the has-messages) update |
| GroupValidators.IndexFrom | app/models/group.rb:542 | the first position of a character at or after a start, or the end |
| GroupValidators.SchemeLength | app/models/group.rb:541 | a scheme prefix is `http://` or `https://`, or absent |
| GroupValidators.SchemeFrom | app/models/group.rb:541 | the leftmost line start carrying a scheme |
| GroupValidators.StripScheme | app/models/group.rb:541 | the first scheme at a line start is removed, and nothing is added |
| GroupValidators.StripPath | app/models/group.rb:542 | the first `/` and the rest of its line are removed; an entry without `/` is unchanged |
| GroupValidators.NormalizeDomain | app/models/group.rb:541-542 | both substitutions only remove characters |
| GroupValidators.PlainDomainMatches | app/models/group.rb:543 | a plain `name.tld` entry matches the domain pattern |
| GroupValidators.BadFirstCharacterRefused | app/models/group.rb:543 | an entry not starting with a letter or digit never matches |
| GroupValidators.NoDomainLine | app/models/group.rb:543 | a line not starting with a letter or digit is not a domain line |
| GroupValidators.NoHostPort | app/models/group.rb:543 | text not starting with a letter or digit is not a host with optional port |
| GroupValidators.NoHost | app/models/group.rb:543 | text not starting with a letter or digit is not a host |
| GroupValidators.DomainPatternNewlines | app/models/group.rb:543 | a match holds no newline except a final one |
| GroupValidators.StripPathMatchHasNoSlash | app/models/group.rb:542-543 | an entry that matches after the path is stripped holds no `/` |
| GroupValidators.NormalizeFixed | app/models/group.rb:541-543 | an entry that normalises to a match is left alone by a second normalisation |
| GroupValidators.NormalizeKeepsOut | app/models/group.rb:541-542 | normalisation only removes characters, so a character absent from an entry is absent from its normal form |
| GroupValidators.EntryFixed | app/models/group.rb:541-545 | an accepted `\|`-free entry normalises to a non-empty `\|`-free string that a second normalisation leaves unchanged |
| GroupValidators.NormalizeAll | app/models/group.rb:539-542 | every entry normalised, in order |
| GroupValidators.Rejected | app/models/group.rb:543 | only entries that fail the pattern are reported, none is invented, and nothing is reported exactly when every entry matches |
| GroupValidators.RejectedSnoc | app/models/group.rb:543 | an entry added at the end is reported after the earlier reports exactly when it fails the pattern |
| GroupValidators.ValidateDomains | app/models/group.rb:536-546 | a blank column is left alone; otherwise the column is rewritten to the normalised entries and every non-matching entry is reported |
| GroupValidators.RejoinedFixed | app/models/group.rb:545 | joined with `\|` and split again, accepted entries give themselves back, and they stay put |
| GroupValidators.ValidateDomainsIdempotent | app/models/group.rb:536-546 | a list the validator accepts is accepted again, unchanged, by a second validation |
| GroupValidators.DowncaseIncomingEmailNormal | app/models/group.rb:163-165 | the stored address is nil or a non-blank, lower-case, stripped string, and normalising twice changes nothing |
| GroupValidators.AddressError | app/models/group.rb:176-185 | one address gets no error iff it is valid and no other group or category uses it |
| GroupValidators.AddressErrors | app/models/group.rb:176-185 | at most one error per address, and none at all iff every address passes |
| GroupValidators.IncomingEmailErrors | app/models/group.rb:173-186 | no errors for an automatic group or a blank column; otherwise at most one per `\|`-separated address |
| GroupRecords.SchemaDefaults | app/models/group.rb:649-650 | an unsaved record has no title and is not a primary group |
| GroupRecords.GroupRecord.Build | app/models/group.rb:234 | a new unsaved record with the given attributes, no built rows and no deletions |
| GroupRecords.GroupRecord.Load | app/models/group.rb:401 | a persisted record holding the stored attributes |
| GroupRecords.GroupRecord.BuildRow | app/models/group.rb:435 | one more built row; nothing else of the record changes |
| GroupRecords.JoinedRows | app/models/group.rb:441 | the rows `users.pluck` joins are the group's rows whose user exists |
| GroupRecords.UsernamesOf | app/models/group.rb:441 | the usernames of the given rows, in order |
| GroupRecords.Usernames | app/models/group.rb:440-442 | the members' usernames, one per joined row, joined with `,` |
| GroupRecords.FindUserId | app/models/group.rb:423-425 | a user with that name, and none exactly when nobody has it |
| GroupRecords.ResolveNames | app/models/group.rb:423-427 | one user id for every removed name some user has, and nothing else |
| GroupRecords.PendingFor | app/models/group.rb:434-436 | one non-owner built row per added name, in order, naming a user with that name, or no user exactly when nobody has it |
| GroupRecords.UnknownNameRefused | app/models/group.rb:423-436 | an added name nobody has builds a row with no user, which the save refuses |
| GroupRecords.StageDeletions | app/models/group.rb:429-432 | `@deletions` holds every row of the association whose user is removed, and nothing else |
| GroupRecords.SetUsernames | app/models/group.rb:416-438 | compares wanted and current names, stages the removed users' rows and builds rows for the added users; no table changes |
| GroupRecords.AppendPending | app/models/group.rb:13 | the built rows of the association are saved under consecutive fresh ids |
| GroupRecords.AppendPendingSnoc | app/models/group.rb:13 | saving one more built row extends the block by one id |
| GroupRecords.RemoveKeys | app/models/group.rb:552 | the table without the destroyed rows |
| GroupRecords.DeletionKeys | app/models/group.rb:551-552 | the ids of the destroyed rows, exactly |
| GroupRecords.ClearPointers | app/models/group.rb:553 | a user's pointer is cleared iff it names the group of one of their destroyed rows; nothing else changes |
| GroupRecords.Resolved | app/models/group.rb:549-557 | each staged entry resolved to the row it destroys, in order |
| GroupRecords.InsertPending | app/models/group.rb:13 | the table gains the built rows and nothing else changes |
| GroupRecords.ClearPointersSnoc | app/models/group.rb:551-554 | clearing for one more destroyed row extends the previous clearing |
| GroupRecords.DestroyStep | app/models/group.rb:551-554 | one iteration destroys one row and clears one pointer |
| GroupRecords.DestroyDeletions | app/models/group.rb:549-557 | destroys exactly the staged rows and clears exactly their users' pointers to their groups |
| GroupRecords.NameErrors | app/models/group.rb:42-43 | the name has no error iff its format is valid, it is not blank and no other group has it case-insensitively |
| GroupRecords.DomainErrorList | app/models/group.rb:543 | one error per refused domain |
| GroupRecords.EmailErrorList | app/models/group.rb:179-183 | one error per refused address |
| GroupRecords.Validate | app/models/group.rb:42-46 | the name is stripped and the domains rewritten; a built row without a user is refused; there are no errors iff every validation, the owner check for membership requests included, passes |
| GroupRecords.Propagate | app/models/group.rb:29-30 | the primary group and title updates run, each only when its column changed |
| GroupRecords.DowncasedAttrs | app/models/group.rb:24 | only the incoming e-mail is normalised before the write |
| GroupRecords.SaveJobs | app/models/group.rb:28-33 | the membership job iff retroactive, the mention job iff a persisted group was renamed |
| GroupRecords.Persist | app/models/group.rb:27-30 | the writes of a save leave the tables in `SavedState` |
| GroupRecords.GroupRecord.MarkSaved | app/models/group.rb:24-33 | after a save the record carries its id, is persisted, its loaded copy equals the saved attributes, and nothing is staged |
| GroupRecords.Commit | app/models/group.rb:24-33 | the record is written and persisted, built and staged rows are gone, and the jobs are `SaveJobs` |
| GroupRecords.Save | app/models/group.rb:24-47 | a failed validation, a built row for an unknown username included, changes no table; a passing one writes the record, saves built rows, destroys staged rows and propagates |
| GroupRecords.ListedSplitsBack | app/models/group.rb:417 | the list `usernames` produced splits back into the member names |
| GroupRecords.ListedIffMember | app/models/group.rb:440-442 | with unique usernames, a user's name is listed iff the user is a member |
| GroupRecords.ResolvedIff | app/models/group.rb:423-427 | with unique usernames, a user is resolved iff their name is among the names |
| GroupRecords.BuiltIff | app/models/group.rb:434-436 | with unique usernames, a row is built for a user iff their name was added |
| GroupRecords.DestroyedRows | app/models/group.rb:429-432 | on a loaded group, the destroyed rows are exactly the group's rows of the removed users |
| GroupRecords.EditedMembership | app/models/group.rb:416-438 | membership after the save is the kept old rows plus the saved built rows |
| GroupRecords.UsernamesEditMembership | app/models/group.rb:416-438 | after `usernames = val` and a save, a user is a member iff `val` lists their name |
| GroupRecords.UsernamesEditPointers | app/models/group.rb:549-557 | a removed member's primary group is cleared exactly when it was this group; no other pointer changes |
| Text.SplitJoin | app/models/group.rb:417-418 | parts without the separator and with a non-empty last one survive a join and a split |
| Text.DifferenceMembers | app/models/group.rb:420-421 | an element is in `a - b` iff it is in `a` and not in `b` |
| TranslationOverrides.CompiledJs | app/models/translation_override.rb:13-15 | a `_MF` key gets its value compiled; any other key keeps its compiled column |
| TranslationOverrides.InterpolationErrors | app/models/translation_override.rb:36-55 | there is an error iff the original text exists and lacks none of its keys in the new value; it lists the missing keys joined with ", " |
| TranslationOverrides.MissingKeysMessage | spec/controllers/admin/site_texts_controller_spec.rb:49-66 | two missing keys read "first, second" |
| TranslationOverrides.BlankErrors | app/models/translation_override.rb:6 | one error for each blank column among locale, key and value |
| TranslationOverrides.OverrideErrors | app/models/translation_override.rb:5-8 | no errors iff unique, present and interpolation-complete |
| TranslationOverrides.Reverted | app/models/translation_override.rb:25 | the DELETE removes exactly the locale's rows of the listed keys |
| TranslationOverrides.OverrideTable.constructor | app/models/translation_override.rb:59-74 | an empty table |
| TranslationOverrides.OverrideTable.Find | app/models/translation_override.rb:18 | the id of the stored override of (locale, key), or none when there is none |
| TranslationOverrides.OverrideTable.Upsert | app/models/translation_override.rb:10-22 | on success the found or new row holds the value and the flush fires; on failure nothing is stored and no flush fires |
| TranslationOverrides.OverrideTable.Revert | app/models/translation_override.rb:24-27 | the table becomes `Reverted` of itself |
| TranslationOverrides.FoundIn | app/models/translation_override.rb:18 | under the unique index, the id holding (locale, key), or none |
| TranslationOverrides.FoundInUnique | app/models/translation_override.rb:18 | the id `Find` returns is the one `FoundIn` names |
| TranslationOverrides.UpsertKeepsUnique | app/models/translation_override.rb:5 | writing the found-or-new row keeps at most one override per (locale, key) |
| TranslationOverrides.UpsertNeverTaken | app/models/translation_override.rb:5 | the uniqueness validation never fires in `upsert!` |
| TranslationOverrides.UpsertEffect | spec/models/translation_override_spec.rb:25-31 | after the write the key's only value is the new one, and every other key keeps its values |
| TranslationOverrides.RevertEffect | app/models/translation_override.rb:24-27 | no reverted key keeps a value in that locale; every other entry is kept |
| WordWatchers.WordsOf | app/services/word_watcher.rb:8 | the words of the action's rows, in table order |
| WordWatchers.WordsForAction | app/services/word_watcher.rb:7-9 | a prefix of the action's words of at most 1000, all of them when fewer |
| WordWatchers.WordsExistIffListed | app/services/word_watcher.rb:11-13 | words exist for the action iff the word list is non-empty |
| WordWatchers.QuoteChar | app/services/word_watcher.rb:18 | one escaped character is one or two characters and never begins with `*` |
| WordWatchers.Quote | app/services/word_watcher.rb:18 | an escaped word never begins with `*` |
| WordWatchers.QuoteIsLiteral | app/services/word_watcher.rb:18 | the escaped word stands for exactly the word |
| WordWatchers.WildcardOfPlainWord | app/services/word_watcher.rb:18 | a word without `*` is just escaped |
| WordWatchers.ReplacePlainHead | app/services/word_watcher.rb:18 | `gsub` passes a leading character that is not a backslash through |
| WordWatchers.ReplaceBackslashHead | app/services/word_watcher.rb:18 | `gsub` passes a leading backslash not followed by `*` through |
| WordWatchers.QuoteCharLiteral | app/services/word_watcher.rb:18 | the escape of one character stands for that character, followed by whatever the rest stands for |
| WordWatchers.StarReplace | app/services/word_watcher.rb:18 | an escaped `*` at the head becomes `\S*` |
| WordWatchers.EscapedReplace | app/services/word_watcher.rb:18 | an escaped character other than `*` at the head is kept as it is |
| WordWatchers.QuoteCharReplace | app/services/word_watcher.rb:18 | replacing after the escape of one character gives that character's wildcard form, then the replacement of the rest |
| WordWatchers.EscapeThenReplace | app/services/word_watcher.rb:18 | escaping then replacing `\*` gives `\S*` for each `*` and the escape of every other character |
| WordWatchers.PatternFor | app/services/word_watcher.rb:17-18 | no pattern iff no words; otherwise `\b(` + the word pieces joined by `\|` + `)\b` |
| WordWatchers.WildcardsOf | app/services/word_watcher.rb:18 | one pattern piece per word |
| WordWatchers.PipelineIsWildcards | app/services/word_watcher.rb:18 | the escape-then-replace of each word gives its wildcard piece |
| WordWatchers.MatcherOf | app/services/word_watcher.rb:21 | a present pattern gives a case-insensitive matcher; otherwise nil |
| WordWatchers.MatcherIffWords | app/services/word_watcher.rb:15-22 | there is a matcher exactly when the action has words |
| WordWatchers.CacheKey | app/services/word_watcher.rb:24-26 | the key is `watched-words-regexp:` followed by the action |
| WordWatchers.CacheKeyInjective | app/services/word_watcher.rb:24-26 | distinct actions have distinct keys |
| WordWatchers.PatternCache.constructor | app/services/word_watcher.rb:16 | an empty cache |
| WordWatchers.PatternCache.WordMatcherRegexp | app/services/word_watcher.rb:15-22 | a hit returns the cached pattern's matcher; a miss stores the current pattern; a coherent cache stays coherent and answers with the table's pattern |
| WordWatchers.PatternCache.ClearCache | app/services/word_watcher.rb:28-32 | every listed action's key is removed, and only those |
| WordWatchers.KeysOf | app/services/word_watcher.rb:29-31 | the keys of the listed actions, exactly |
| WordWatchers.KeysOfSnoc | app/services/word_watcher.rb:29-31 | one more action adds its key |
| WordWatchers.ClearedIsCoherent | app/services/word_watcher.rb:28-32 | after `clear_cache!` the cache agrees with any table |
| WordWatchers.WordWatcher.constructor | app/services/word_watcher.rb:3-5 | the watcher keeps the raw text |
| WordWatchers.WordWatcher.WordMatchesForAction | app/services/word_watcher.rb:46-49 | with a coherent cache, the answer is whether the action's current words match the text; false with no words |
| WordWatchers.WordWatcher.RequiresApproval | app/services/word_watcher.rb:34-36 | consults the `require_approval` action |
| WordWatchers.WordWatcher.ShouldFlag | app/services/word_watcher.rb:38-40 | consults the `flag` action |
| WordWatchers.WordWatcher.ShouldBlock | app/services/word_watcher.rb:42-44 | consults the `block` action |
| WordWatchers.Matched | app/services/word_watcher.rb:46-49 | no words never match |
| WordWatchers.MatchedOnlyOwnAction | app/services/word_watcher.rb:34-49 | a word of another action does not change a predicate's answer |
| WordWatchers.WordsOfSnoc | app/services/word_watcher.rb:8 | a new row adds its word only to its own action's list |
| FileHelpers.ImageIffExtension | lib/file_helper.rb:7-9 | a one-line name is an image iff, lower-cased, it ends with a dot and an image extension |
| FileHelpers.MatchEndsName | lib/file_helper.rb:76 | on a one-line name a match ends the name |
| FileHelpers.EndingMatches | lib/file_helper.rb:76 | a name ending with a dot and an image extension matches there |
| FileHelpers.NoDotNoImage | lib/file_helper.rb:76 | a name without a dot is never an image |
| FileHelpers.BareExtensionIsNotImage | lib/file_helper.rb:76 | a bare "png" is not an image |
| FileHelpers.ImageIgnoresCase | lib/file_helper.rb:76 | a name and its lower-cased form are images alike |
| FileHelpers.ImageOnFirstLine | lib/file_helper.rb:76 | with the line-end anchor, an image extension ending the first line is enough |
| FileHelpers.ToLowerLowercase | lib/file_helper.rb:72 | the image extensions are lower case |
| FileHelpers.ProtocolCheckOnOneLine | lib/file_helper.rb:19 | on a one-line URL the check as written and the intended check agree |
| FileHelpers.ProtocolCheckLetsOtherSchemesThrough | lib/file_helper.rb:19 | the check as written accepts a `file:` URL whose second line is a web address |
| FileHelpers.LaterLinePasses | lib/file_helper.rb:19 | the check as written accepts any URL with a later line starting with `http://` |
| FileHelpers.ProtocolRelative | lib/file_helper.rb:18 | a URL starting with `//` gets `https:` in front; any other URL is unchanged |
| FileHelpers.DownloadUrl | lib/file_helper.rb:18-19 | the URL is accepted iff, after the rewrite, it starts with `http://` or `https://` |
| FileHelpers.ProtocolRelativeIsHttps | lib/file_helper.rb:18 | a protocol-relative URL is fetched over https |
| FileHelpers.OtherSchemesRefused | lib/file_helper.rb:19 | a URL starting with neither scheme nor `//` is refused |
| FileHelpers.NotWebByFirstChar | lib/file_helper.rb:19 | the intended check refuses a URL whose first character is not `h` |
| FileHelpers.DownloadExtension | lib/file_helper.rb:30-36 | the path's own extension when present; otherwise the content type's extension with a dot, "jpe" read as "jpg"; otherwise the blank one |
| FileHelpers.FallbackIsDotted | lib/file_helper.rb:32-36 | a fallback extension is dotted and never ".jpe" |

## Left out

- The tables are maps. They are not transactional, and concurrent writers
  and isolation are not modelled. A statement's partial failure is not
  modelled either.
- Job enqueues and MessageBus messages are returned as values, but the
  message bodies are not modelled: the serialised category list and the
  flush payload. A job carries the group id and, for the mention job, the
  name before the save.
- The `cook_bio` and `expire_cache` callbacks are not modelled. Neither are
  the `flair_url` validation, custom fields and the bio, flair and full-name
  columns.
- The `mentionable_level`/`messageable_level` inclusion validation holds by
  construction, since the levels are a datatype.
- Not modelled: `posts_for`, `messages_for`, `mentioned_posts_for`,
  `search_group`, `lookup_groups`, `find_by_email` and `builtin`. They are
  query builders and database-specific lookups.
- `refresh_has_messages!`: the topic tables are not part of this model. The
  set of groups with a live topic is a parameter.
- `visible_groups`: the ordering by name is left out, and the result is a
  set of ids.
- The trust-level grant, title and primary-group effects of `add` live in
  GroupUser callbacks, which are not part of this model.
- GroupUser's `user_count` counter cache is not modelled. In the source,
  each row created through ActiveRecord (the GroupUser model) raises its
  group's count; the raw SQL of `bulk_add` and of the automatic-group
  refresh does not.
  The lines below name the members that keep `groups` unchanged where the
  source bumps it.
- Membership.Add: the `users.push` of a newcomer runs GroupUser's create
  callbacks (title, primary group, trust-level grant) and bumps
  `user_count`; the model keeps `users` and `groups` unchanged.
- Membership.AddOwner: the `group_users.create!` branch runs the same
  create callbacks and counter cache, which the model leaves out.
- Reconciler.JoinUnlessMember: the `group.group_users.create!` of
  `user_trust_level_change!` runs the same create callbacks and counter
  cache, which the model leaves out.
- Reconciler.UserTrustLevelChange: inherits that gap for every tier row
  it creates; the tier records may differ from the source in
  `user_count`, and the user's columns in what the create callbacks
  write.
- GroupRecords.InsertPending: the autosave of the built rows runs the
  same create callbacks and counter cache, which the model leaves out.
- GroupRecords.Save: inherits that gap through the rows it autosaves.
- Membership.Remove: destroying a row runs GroupUser's own callbacks,
  which are not part of this model. One of them clears the user's title, as
  spec/models/group_spec.rb:187-191 expects after `remove`. The model keeps
  every user column except the `primary_group_id` that `remove` clears
  itself.
- GroupRecords.DestroyDeletions: the same GroupUser destroy callbacks run
  for each staged row and are not modelled; only the `primary_group_id`
  clearing of `destroy_deletions` is.
- Outside collaborators are parameters and are not implemented:
  - the I18n lookup and `UsernameValidator`;
  - `Email.is_valid?`, the group and category searches by address, and
    `Rack::Utils.escape_html`;
  - `I18nInterpolationKeysFinder`, `JsLocaleHelper` and `MiniMime`;
  - `File.extname` and the regex engine that matches watched words.
- Letter case is folded for ASCII letters only; Unicode case folding is not
  modelled.
- `Regexp.escape` is written after Ruby's quoting table. That table is not
  part of the repository.
- `word_matcher_regexp`: the one-day cache expiry is not modelled.
- `clear_cache!`: its summed return value is not modelled. The list of
  actions is a parameter.
- `FileHelper.download`: not modelled are `FinalDestination`, the network
  fetch, the capped write loop, the `Tempfile` name, the `close` and
  `optimize_image!`.
- TranslationOverrides.OverrideTable.Upsert: `params.merge!` affects nothing
  the model keeps. The I18n reload and the MessageBus flush are a boolean.
- TranslationOverrides.OverrideTable.Revert: the flush that always follows
  is not returned.
- GroupRecords.UsernamesEditMembership assumes three things:
  - usernames are unique, non-empty and free of commas (the unique index on
    `users.username` and the username format);
  - the group was loaded from the tables;
  - it had no built rows before.
  Without these assumptions `split(",")` and the name lookup do not give
  back the member list.
- GroupRecords.ResolveNames: when several users share a name, the source
  keeps whichever user the query returns last. The model keeps one of them,
  unspecified.
- Reconciler.UserTrustLevelChange: the properties hold for tier ids other
  than the trust level itself. When a refresh raises, the membership
  outcome is stated for the tiers handled up to that one, and only the
  frames are stated for the later ones. The group the missing-tier branch refreshes
  is `AUTO_GROUP_IDS[trust_level]`, whose id equals the trust level.
- Reconciler.RefreshEstablishes and Reconciler.RefreshEveryoneEstablishes
  state the second refresh's stability for the record as the refresh builds
  it. The name stripping of the save is stated separately, by
  Reconciler.Stored and Reconciler.NewAutoGroupStored.
- GroupRecords.StageDeletions stages the group's table rows and the built
  rows whose user is removed. A built row with no user is never staged, and
  the save refuses it (GroupRecords.UnknownNameRefused).
- Reconciler.ReconcileIdempotent needs the two queries to select disjoint
  users. With a negative trust level, `trust_level_0` deletes and recreates
  a user's row under a new id.

## Findings

| source | as written | input that shows it | evidently intended | confidence | as-written member | corrected member |
|---|---|---|---|---|---|---|
| lib/file_helper.rb:19 | `url =~ /^https?:\/\//` anchors at any line start, so a URL with an http line anywhere passes | `"file:///etc/passwd\nhttp://example.com/"` | the URL itself starts with `http://` or `https://` | not executed | FileHelpers.ProtocolCheckAsWritten | FileHelpers.ProtocolCheck |

The discrepancy is exhibited by FileHelpers.ProtocolCheckLetsOtherSchemesThrough.
FileHelpers.ProtocolCheckOnOneLine shows that the two checks agree on one-line
URLs. FileHelpers.DownloadUrl uses the corrected check, and
FileHelpers.OtherSchemesRefused and FileHelpers.ProtocolRelativeIsHttps state
the intended behaviour of that check.
