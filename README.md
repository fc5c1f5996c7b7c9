# sto_fc: fleet contribution model

A Dafny model of the in-memory core of `sto_fc.py`. The script reads
Star Trek Online fleet data and reports how much fleet credit (FC) each
player account has contributed. The model covers these parts of it:

- **Entities.** A `Character` has a per-holding contribution dictionary
  (`fc_dict`), a rank and a last logout. An `Account` has an ordered list of
  characters plus a name index into them.
  - They are value datatypes (`Entities`).
  - Python shares one character object between the list and the index; the
    model keeps the indexed value equal to the listed one (`Synced`).
- **Account aggregates.**
  - `total_fc` and `fc`, and `fc_by_holding` (`Holdings`, `Entities`).
  - `last_logged_out`, modelled twice: once as written and once corrected
    (see Findings).
  - `rank` (`AccountRank`).
- **Fleet.** A `class` with the fields `name`, `accounts` and `accountIndex`
  (`FleetModel.Fleet`). Its methods update them in place:
  - the two loaders, `load_from_holding_dict` and `load_from_members_array`;
  - the sorts, `sort` and `sort_by_last_login`;
  - `get_accounts_within_n_days`;
  - `num_characters`.

  `sort_by_last_login` and `get_accounts_within_n_days` also return `ok`,
  which is false exactly where Python 2 raises once `last_logged_out` is
  corrected (see Findings): an account without characters (IndexError) or
  a comparison of `None` with a datetime (TypeError). The source as written
  raises in the same cases unless the 1999 stand-in hides a logout
  (`FleetModel.SortableAgreesAfterSentinel`).
- **Specifications.** Each method is proved equal to a fold over its input
  records (`Roster`) or to a stable descending sort (`Sorting`). The
  properties the source promises are proved about those functions.
- **Grand fleet.** The merge in `GrandFleet.__init__` is a named constructor,
  `Fleet.Grand`, proved against `GrandFleetMerge.MergeAll`:
  - accounts are united by name, in first-seen order;
  - an account keeps each character name the first time it is seen;
  - a colliding character is filed only in the index, under `name|fleet`.
- **Diff report.** `SnapshotDiff.Diff` models the report of
  `output_lfc_diff_using_csv`: the accounts whose total grew between two
  snapshots, largest gain first.

Representation choices:

- `fc_dict`, a `defaultdict(int)`, is an association list `seq<(string, int)>`
  in first-insertion order; a missing key reads as 0.
- Timestamps are whole seconds since 0001-01-01 00:00:00 UTC (`datetime.min`).
  A missing logout is `None`.
- Python integers are unbounded, and so are Dafny's; nothing wraps around.

## Model

| member | source | states |
|---|---|---|
| Names.Strip | sto_fc.py:106 | the stripped name has no whitespace at either end and is no longer than the input |
| Names.StripRemovesOnlyWhitespace | sto_fc.py:106 | stripping keeps one infix of the string; everything removed before and after it is whitespace |
| Names.StripIdempotent | sto_fc.py:106 | stripping an already stripped name changes nothing |
| Names.Split | sto_fc.py:106 | `split("@")` gives at least one part, no part contains '@', and rejoining the parts with '@' gives back the input |
| Names.SplitJoin | sto_fc.py:106 | splitting the join of '@'-free parts gives back those parts (round trip) |
| Names.ParseName | sto_fc.py:105-109 | if the stripped name contains '@', the result is its first two '@'-free parts; they sit at the front of the name, followed by its end or another '@'; otherwise the result is ("", "") |
| Names.ParseNamePadded | sto_fc.py:105-108 | " Kirk@Enterprise " parses to ("Kirk", "Enterprise") |
| Names.ParseNameWithoutAt | sto_fc.py:107-109 | the example "NoAtSign", which has no '@', parses to ("", ""); ParseName states the general case |
| Holdings.Add | sto_fc.py:54 | `fc_dict[holding] += amount` raises that holding by the amount and leaves every other holding as it was; a new key goes at the end |
| Holdings.TotalAdd | sto_fc.py:54 | after `+=`, `total_fc` (the sum of the values) grows by exactly the amount |
| Holdings.GetAbsent | sto_fc.py:87 | a holding the dictionary lacks reads as 0, as `defaultdict(int)` does |
| Holdings.TotalAddAll | sto_fc.py:120-124 | adding one dictionary into another adds their totals |
| Holdings.GetAddAll | sto_fc.py:120-124 | adding a dictionary into another adds the two amounts for every holding |
| Holdings.Get | sto_fc.py:54 | reading `fc_dict[holding]`: the value of the first pair with that key, or 0; its behaviour under `+=` is stated by Holdings.Add and Holdings.GetAbsent |
| Holdings.Total | sto_fc.py:93 | `sum(fc_dict.values())`; how `+=` and merging change it is stated by Holdings.TotalAdd and Holdings.TotalAddAll |
| Holdings.AddAll | sto_fc.py:120-123 | the inner loop of `fc_by_holding`, one `+=` per key; Holdings.GetAddAll and Holdings.TotalAddAll state that it adds per holding and in total |
| Entities.GetOrCreate | sto_fc.py:48-53 | get-or-create of a character: an unknown name is appended as a fresh character and indexed, a known one is returned unchanged; the account stays synchronised |
| Entities.Put | sto_fc.py:54 | writing a changed character back replaces exactly that character and keeps the list and index in step |
| Entities.FcByHoldingIsPerHoldingSum | sto_fc.py:118-124 | each holding of `fc_by_holding` is the sum of that holding over the account's characters |
| Entities.FcByHoldingAddsUpToFc | sto_fc.py:112-113 | the per-holding totals add up to `Account.fc` |
| Entities.LastLoggedOut | sto_fc.py:126-130 | the corrected `last_logged_out` is one of the characters' logouts; it is at least as recent as every one of them; it is None exactly when no character has a logout |
| Entities.LastLoggedOutAsWritten | sto_fc.py:127-130 | the source's result: the logout of the first character with the greatest key once a missing logout is read as 1999-01-01 01:01:01 UTC, which is what the stable descending sort puts at `[0]` |
| Entities.AsWrittenAgreesAfterSentinel | sto_fc.py:129 | the two agree when every logout is known, and when every known logout is later than the stand-in |
| Entities.StandInHarmless | sto_fc.py:129 | the 1999 stand-in hides no logout: every logout is known, or every known one is later than the stand-in; Entities.AsWrittenAgreesAfterSentinel and FleetModel.SortableAgreesAfterSentinel assume it |
| Entities.SentinelHidesEarlyLogout | sto_fc.py:129-130 | for a character out since 1998-07-09 and one never logged out, the source says None but the most recent logout is 1998-07-09 |
| Entities.Find | sto_fc.py:48-53 | the `character_name_index` lookup: found exactly when the name is listed, and then a listed character of that name |
| Entities.MostRecent | sto_fc.py:126-130 | the intended most recent logout of a list: one of its logouts, at least as recent as every one, a missing logout counting as oldest |
| Entities.SortKey | sto_fc.py:129 | the key lambda: a missing logout becomes 1999-01-01 01:01:01 UTC; Entities.FirstMaxKey and Entities.LastLoggedOutAsWritten sort by it |
| Entities.FirstMaxKey | sto_fc.py:129-130 | what the stable descending sort puts at `[0]`: a position with the greatest key, and no earlier position has that key |
| Entities.NewCharacter | sto_fc.py:84-89 | a new character: empty `fc_dict`, no logout, empty rank; Totals.GetOrCreateFc states that creating one leaves `fc` as it was |
| Entities.TotalFc | sto_fc.py:92-93 | `total_fc` is the sum of the character's holding amounts; Holdings.TotalAdd states how a donation changes it |
| Entities.NewAccount | sto_fc.py:96-99 | a new account: no characters and an empty index; Roster.GrownSpec states that it is appended under its name |
| Entities.Fc | sto_fc.py:112-113 | `fc` is the sum of the characters' `total_fc`; Entities.FcByHoldingAddsUpToFc and the Totals lemmas state its properties |
| Entities.FcByHolding | sto_fc.py:119-124 | the per-holding sums over the characters; Entities.FcByHoldingIsPerHoldingSum and Entities.FcByHoldingAddsUpToFc state what they hold |
| Entities.Rank | sto_fc.py:132-134 | `rank` is the first character's rank; defined only for an account with a character; AccountRank.RankIsFirstProfile, AccountRank.DonorsKeepRank and AccountRank.MembersSetRank state its properties |
| Roster.FindAccount | sto_fc.py:42-47 | the index lookup finds an account exactly when the name is listed, and the found account has that name |
| Roster.GrownSpec | sto_fc.py:42-47 | get-or-create of an account appends a fresh account only for an unknown name and changes no other lookup |
| Roster.TouchSpec | sto_fc.py:42-53 | get-or-create of account and character keeps the roster invariant; it appends the account name and character name only if new |
| Roster.TouchCharacterAt | sto_fc.py:48-51 | after get-or-create, an absent character exists as a fresh one; every other character is unchanged |
| Roster.DonateStructure | sto_fc.py:38-54 | one donor record keeps the invariant; it adds the parsed account name and character name in first-seen order |
| Roster.DonateCharacterAt | sto_fc.py:38-54 | one donor record changes only its own character: that character's `fc_dict` gets `+= contribution`, whether the character is old or new |
| Roster.LoadDonorsAccounts | sto_fc.py:35-47 | after a holding, the account names are the old ones followed by the donors' new account names in first-seen order, and the invariant holds |
| Roster.LoadDonorsCharacters | sto_fc.py:35-53 | each account's character names are its old ones followed by its donors' new character names in first-seen order |
| Roster.LoadDonorsAdds | sto_fc.py:35-54 | a character's amount for the loaded holding grows by the sum of its donor records; every other holding is unchanged |
| Roster.LoadDonorsKeepsProfile | sto_fc.py:35-54 | donor records never change rank or last logout; a character they create has rank "" and no logout |
| Roster.LoadHoldingTwice | sto_fc.py:35-54 | loading the same holding twice adds its contributions twice; the account list does not change after the first load |
| Roster.ApplyMemberStructure | sto_fc.py:57-71 | one member record keeps the invariant; it adds its account name (the `publicaccountname` without its first character) and its character name in first-seen order |
| Roster.ApplyMemberCharacterAt | sto_fc.py:57-76 | one member record changes only its own character: that character's rank and last logout are replaced and its contributions kept |
| Roster.LastMember | sto_fc.py:57-76 | the last member record naming that account and character: a found record names them and no later record does (Roster.LastMemberLatest); None means no record names them (Roster.LastMemberNone) |
| Roster.LastMemberLatest | sto_fc.py:57-76 | a found record is in the list, and no record after it names the same account and character, so it is the one whose update is applied last |
| Roster.LastMemberNone | sto_fc.py:57-76 | when no record is found, no member record names that account and character |
| Roster.LoadMembersAccounts | sto_fc.py:56-67 | after member records, the account names are the old ones followed by the members' new account names in first-seen order |
| Roster.LoadMembersCharacters | sto_fc.py:56-71 | each account's character names are its old ones followed by its members' new character names in first-seen order |
| Roster.LoadMembersLastWins | sto_fc.py:56-76 | each character's rank and last logout come from the last member record naming it; with no such record they are unchanged |
| Roster.LoadMembersKeepsContributions | sto_fc.py:56-76 | member records never change any contribution |
| Roster.LoadMembersTwice | sto_fc.py:56-76 | loading the same members twice is the same as loading them once: names, characters, profiles and contributions |
| Roster.CharacterCountIsPairs | sto_fc.py:15-19 | `num_characters` is the number of (account, character) pairs of the roster |
| Roster.PairsAreCharacters | sto_fc.py:15-19 | a pair is on that list exactly when that account has that character |
| Roster.PairsDistinct | sto_fc.py:15-19 | no pair is counted twice |
| Roster.Grown | sto_fc.py:42-47 | get-or-create of the account; Roster.GrownSpec states that only an unknown name appends a fresh account |
| Roster.Touch | sto_fc.py:42-53 | get-or-create of account and character; Roster.TouchSpec and Roster.TouchCharacterAt state its effect |
| Roster.PutCharacter | sto_fc.py:54 | writes a changed character back into its account; Roster.PutCharacterSpec and Roster.PutCharacterAt state that exactly that character changes |
| Roster.Donate | sto_fc.py:38-54 | one iteration of the donor loop; Roster.DonateStructure, Roster.DonateCharacterAt and Totals.DonateFleetFc state what it does |
| Roster.LoadDonors | sto_fc.py:35-54 | the donor loop as a fold of Donate over the records; Roster.LoadDonorsAccounts, Roster.LoadDonorsCharacters, Roster.LoadDonorsAdds, Roster.LoadDonorsKeepsProfile and Totals.LoadDonorsFleetFc state its result |
| Roster.LoadHolding | sto_fc.py:35-37 | a holding's `typename` and `donationstats` fed to LoadDonors; Roster.LoadHoldingTwice states loading it twice |
| Roster.MemberAccountName | sto_fc.py:59 | `publicaccountname[1:]`, with an empty name staying empty; used by ApplyMember and Fleet.ApplyMemberRecord |
| Roster.ApplyMember | sto_fc.py:57-76 | one iteration of the member loop; Roster.ApplyMemberStructure, Roster.ApplyMemberCharacterAt and Totals.ApplyMemberFleetFc state what it does |
| Roster.LoadMembers | sto_fc.py:56-76 | the member loop as a fold of ApplyMember; Roster.LoadMembersAccounts, Roster.LoadMembersCharacters, Roster.LoadMembersLastWins, Roster.LoadMembersKeepsContributions, Roster.LoadMembersTwice and AccountRank.MembersSetRank state its result |
| Roster.CharacterCount | sto_fc.py:15-19 | the sum of the characters' counts; Roster.CharacterCountIsPairs ties it to the (account, character) pairs and Fleet.NumCharacters computes it |
| Totals.DonateFleetFc | sto_fc.py:38-54 | one donor record raises the summed `fc` of all accounts by exactly its contribution |
| Totals.LoadDonorsFleetFc | sto_fc.py:35-54 | loading a holding raises the summed `fc` of all accounts by the sum of its donor records |
| Totals.ApplyMemberFleetFc | sto_fc.py:57-76 | one member record leaves the summed `fc` unchanged |
| Totals.LoadMembersFleetFc | sto_fc.py:56-76 | member records leave the summed `fc` unchanged |
| AccountRank.RankIsFirstProfile | sto_fc.py:132-134 | an account's `rank` is the rank of its first listed character |
| AccountRank.DonorsKeepRank | sto_fc.py:35-54 | donor records never change an account's `rank` |
| AccountRank.MembersSetRank | sto_fc.py:56-76 | after member records, an account's `rank` is the rank of the last record naming its first character, or its old rank if there is no such record |
| Sorting.SortDesc | sto_fc.py:22 | the sort is a permutation of its input and is in non-increasing key order |
| Sorting.SortDescStable | sto_fc.py:22 | elements of equal key keep their original relative order (Python's sort is stable, also with `reverse=True`) |
| Sorting.SortDescSorted | sto_fc.py:22 | a list already in order is left as it is; so sorting twice changes nothing |
| Sorting.SortDescUnique | sto_fc.py:22 | sorting keeps names distinct |
| GrandFleetMerge.CollisionKey | sto_fc.py:152 | the collision key starts with the character name and contains a bar |
| GrandFleetMerge.MergeCharacter | sto_fc.py:147-152 | a character whose name the target indexes is filed only in the index, under its name, a bar and the fleet name; any other is appended to the list and indexed under its own name, nothing else changing; `fc` grows by the appended character's total |
| GrandFleetMerge.MergeCharactersKeepsFirst | sto_fc.py:147-152 | on a clean target and with bar-free incoming character names, the merge keeps the first character of each name, in order, and the target stays clean |
| GrandFleetMerge.MergeAccountNames | sto_fc.py:143-158 | one source account adds its name only if it is new; names stay distinct |
| GrandFleetMerge.MergeEntriesNames | sto_fc.py:142-158 | merged account names are the source names, each once, in first-seen order |
| GrandFleetMerge.MergeEntriesCharacters | sto_fc.py:142-152 | for clean sources (no bar character in a character name, index and list in step), each merged account lists the first character of each name over all source accounts of its name |
| GrandFleetMerge.MergeAllNames | sto_fc.py:139-158 | the grand fleet has one account per source account name, in first-seen order over fleets and then accounts |
| GrandFleetMerge.MergeAllSpec | sto_fc.py:139-158 | for clean sources, the grand fleet's accounts are clean (each index maps every listed name to its character); each lists exactly the first-seen characters of its source accounts |
| GrandFleetMerge.MergeKeepsFcWithoutCollisions | sto_fc.py:139-158 | for clean sources, if no character name repeats across an account's sources, its grand-fleet `fc` is the sum of the source accounts' `fc` |
| GrandFleetMerge.MergeCharacters | sto_fc.py:147-152 | the loop over a source account's characters; keeps the target's name; GrandFleetMerge.MergeCharacter and GrandFleetMerge.MergeCharactersKeepsFirst state the rest |
| GrandFleetMerge.MergeAccount | sto_fc.py:143-158 | one source account: merged into the indexed account of its name, else appended as a copy; GrandFleetMerge.MergeAccountNames states its effect on the names |
| GrandFleetMerge.MergeEntries | sto_fc.py:142-158 | the two loops as a fold over (fleet name, account) entries; GrandFleetMerge.MergeEntriesNames and GrandFleetMerge.MergeEntriesCharacters state its result |
| GrandFleetMerge.MergeAll | sto_fc.py:139-158 | the grand fleet's accounts; GrandFleetMerge.MergeAllNames, GrandFleetMerge.MergeAllSpec and GrandFleetMerge.MergeKeepsFcWithoutCollisions state them |
| SnapshotDiff.Diff | sto_fc.py:258-266 | every later account with a positive gain gets one row, and no other account does; the gain is the later total minus the earlier one, or the whole later total for a new account; rows are sorted by gain, largest first |
| SnapshotDiff.GainsOfSameSnapshot | sto_fc.py:258-264 | a snapshot compared with itself has no gains |
| SnapshotDiff.SingleGain | sto_fc.py:258-266 | if one account rose by k, the report is exactly that one row |
| SnapshotDiff.DiffExample | sto_fc.py:258-266 | {A:10, B:5} to {A:12, B:5, C:7} reports exactly [(C, 7), (A, 2)] |
| SnapshotDiff.Delta | sto_fc.py:258-264 | an account's gain: the later total minus the earlier one, or the whole later total for a new account; SnapshotDiff.Diff reports it |
| SnapshotDiff.Gains | sto_fc.py:258-264 | the accounts with a positive gain, with their gains; SnapshotDiff.Diff and SnapshotDiff.GainsOfSameSnapshot state its properties |
| SnapshotDiff.CollectGains | sto_fc.py:258-264 | the loop over the later snapshot's accounts builds exactly the map of positive gains that SnapshotDiff.Gains defines |
| SnapshotDiff.GainRows | sto_fc.py:265 | the `items()` list: one (name, gain) row per entry of the map and no other, each name once |
| FleetModel.PermutationKeepsIndexed | sto_fc.py:21-25 | reordering the account list keeps the account index correct |
| FleetModel.RecentMembers | sto_fc.py:30-32 | the filter keeps exactly the accounts logged out at or after the given time; an account without a logout is not kept (where the source raises, Fleet.AccountsWithin reports failure) |
| FleetModel.RecentIsPrefix | sto_fc.py:27-33 | on a list sorted by last logout, the kept accounts are a prefix of it |
| FleetModel.HasLogout | sto_fc.py:30-31 | the account has a character and a (corrected) logout: the case where neither the key nor `>= d` raises; FleetModel.FilterSince and Fleet.AccountsWithin fail exactly without it |
| FleetModel.LoginSortable | sto_fc.py:24-25 | every account has a character and the (corrected) keys are all logouts or all missing; Fleet.SortByLastLogin succeeds exactly then |
| FleetModel.HasLogoutAsWritten | sto_fc.py:30-31 | the account has a character and the source's own `last_logged_out` is a logout; FleetModel.SortableAgreesAfterSentinel and FleetModel.SentinelBreaksSort compare it with FleetModel.HasLogout |
| FleetModel.LoginSortableAsWritten | sto_fc.py:24-25 | every account has a character and the source's own keys are all logouts or all missing: the case where the source's sort does not raise |
| FleetModel.SortableAgreesAfterSentinel | sto_fc.py:24-33 | when the 1999 stand-in hides no logout of any account, the corrected and the as-written `last_logged_out` make the sort and the filter raise in the same cases |
| FleetModel.SentinelBreaksSort | sto_fc.py:24-25 | an account out since 1998-07-09 with a never-logged-out character, next to one out since 2014: the corrected keys sort, but the as-written keys are None and a datetime, so the source's sort raises |
| FleetModel.LoginKey | sto_fc.py:25 | the sort key: the corrected last logout; -1 stands in only on lists where every key is missing, so Python 2's None-to-None ordering is kept; FleetModel.AllMissingKeepsOrder states it |
| FleetModel.AllMissingKeepsOrder | sto_fc.py:25 | when no account has a logout, all keys are None and the stable sort leaves the list unchanged |
| FleetModel.Recent | sto_fc.py:30-32 | the accounts kept by the filter loop, in list order; no more than the input; FleetModel.RecentMembers and FleetModel.RecentIsPrefix state which they are |
| FleetModel.FilterSince | sto_fc.py:30-33 | the filter loop succeeds exactly when every account has a (corrected) logout (`None >= d` raises TypeError otherwise), and then returns Recent |
| FleetModel.MergeCharactersInto | sto_fc.py:147-152 | the character loop computes MergeCharacters |
| FleetModel.MergeAccountInto | sto_fc.py:144-158 | one account step computes MergeAccount and keeps the account index correct |
| FleetModel.MergeFleetInto | sto_fc.py:143-158 | the loop over one fleet's accounts merges them in order and keeps the index correct |
| FleetModel.Fleet.constructor | sto_fc.py:9-12 | a new fleet has its name, no accounts and an empty index |
| FleetModel.Fleet.Grand | sto_fc.py:139-158 | the grand fleet holds MergeAll of the source fleets, with a correct account index |
| FleetModel.Fleet.NumCharacters | sto_fc.py:15-19 | the loop returns the total number of characters over all accounts |
| FleetModel.Fleet.Sort | sto_fc.py:21-22 | the accounts become their stable sort by `fc`, largest first; the index and the roster invariant are kept |
| FleetModel.Fleet.SortByLastLogin | sto_fc.py:24-25 | `ok` is false exactly when an account has no characters (IndexError at line 130) or known and missing (corrected) logouts are mixed (TypeError); otherwise the accounts become their stable sort by last logout, most recent first; the index, the roster invariant and the multiset of accounts are kept in both cases |
| FleetModel.Fleet.AccountsWithin | sto_fc.py:27-33 | `ok` is true exactly when every account has a (corrected) logout, the only case in which neither the sort nor the comparison raises once `last_logged_out` is corrected; then the accounts are re-sorted by last logout and the result is exactly the accounts logged out at or after `since`, a prefix of the new order |
| FleetModel.Fleet.AccountFor | sto_fc.py:42-47 | get-or-create of an account through the index |
| FleetModel.Fleet.Store | sto_fc.py:54 | writing a changed account back updates both the list and the index |
| FleetModel.Fleet.TouchCharacter | sto_fc.py:42-53 | get-or-create of account and character, written back to the fleet |
| FleetModel.Fleet.AddDonation | sto_fc.py:38-54 | the loop body for one donor record computes Donate |
| FleetModel.Fleet.LoadFromHoldingDict | sto_fc.py:35-54 | the accounts become the fold of the donor records over the old accounts |
| FleetModel.Fleet.ApplyMemberRecord | sto_fc.py:58-76 | the loop body for one member record computes ApplyMember |
| FleetModel.Fleet.LoadFromMembersArray | sto_fc.py:56-76 | the accounts become the fold of the member records over the old accounts |

## Left out

- File, HAR and JSON reading (`load_holdings_data_from_json`, `load_holdings_from_json`, `load_fleet_members_from_guild_data`, `load_fleet_from_guild_data`, lines 161-216): this is I/O. The model starts from already decoded `Holding`, `Donor` and `Member` records.
- Donor and member records with missing JSON fields: `.get` would hand `None` to the code (lines 36-39). Every record field is present in the model.
- CSV output of `output_lfc` and `output_promotion_list` (lines 218-242): I/O. Their in-memory steps are the loaders, `Fleet.Sort` and `Fleet.Grand`.
- The CSV input and output of `output_lfc_diff_using_csv` (lines 248-257 and 267-270): I/O. `Diff` takes the two snapshots as maps, so the cell `strip()` and `long()` are not modelled.
- `dateutil.parser.parse` (line 61): `Member.logoutTime` is a timestamp that is already parsed. The TypeError Python raises when comparing timezone-naive with timezone-aware datetimes is not modelled.
- `copy.deepcopy` (line 156) and object identity in general: accounts are values. That source fleets share character objects with the grand fleet cannot be seen in this model.
- `Account.__repr__` (lines 101-102), the `__main__` block (lines 282-288) and the commented-out `output_lfc_by_holding` (lines 274-280): presentation and command-line handling only.
- `Fleet.get_account_by_name` (lines 79-81): it is a classmethod that looks up the literal key "name" on the class, so it can never work; it is not modelled.
- `Account.fc_for_holding` (lines 115-116): it refers to an undefined `account` and raises NameError; it is not modelled. Per-holding amounts are covered by `FcByHolding` and `HoldingSum`.
- Python 2 `cmp`-based sorting: both sorts are modelled as the stable descending sort on an integer key.
- Dictionary iteration order (lines 258 and 265): Python 2 leaves it arbitrary. `Diff` visits the names in an order it does not specify, so rows of equal gain may come in any order.
- FleetModel.Fleet.LoadFromHoldingDict: requires the roster invariant `Roster.Valid` (every account synchronised and non-empty). A merged grand fleet need not meet it because of its index-only `name|fleet` keys, so loading into a grand fleet is not modelled. The source never does that.
- FleetModel.Fleet.LoadFromMembersArray: requires `Roster.Valid`, for the same reason.
- FleetModel.Fleet.SortByLastLogin: sorts by the corrected `Entities.LastLoggedOut`, not the as-written one (see Findings), so an account whose first-sorted character has no logout is keyed by its latest real logout.
- FleetModel.Fleet.SortByLastLogin: when `ok` is false the source has raised part-way through its sort; the model states only that the accounts are some permutation of the old ones, not which one.
- FleetModel.Fleet.AccountsWithin: when `ok` is false the model states only that the accounts are a permutation of the old ones and returns no list; the source raises instead of returning.
- FleetModel.RecentMembers: the filter treats an account without a logout as not kept, while the source raises TypeError at `None >= d`. That case is reported by FleetModel.FilterSince and Fleet.AccountsWithin through `ok`, so on every run where the source returns, the filter sees only accounts with a logout.
- FleetModel.LoginKey: -1 for a missing logout is not Python 2's ordering of None against a datetime (that comparison raises TypeError); it is used only on lists whose keys are all missing, where any constant gives the same stable order.
- FleetModel.Fleet.AccountsWithin: `ok`, the sort and the filter use the corrected `Entities.LastLoggedOut`. Where the 1999 stand-in hides a logout at or before 1999-01-01 01:01:01 UTC of an account, `ok` can be true where the source raises (FleetModel.SentinelBreaksSort); elsewhere the two agree (FleetModel.SortableAgreesAfterSentinel).
- FleetModel.FilterSince: tests the corrected logout, so on an account whose as-written `last_logged_out` is None but which has a logout at or before 1999-01-01 01:01:01 UTC it keeps or drops the account where line 31 raises.
- FleetModel.LoginKey: is the corrected last logout, not the as-written one line 25 sorts by; the orders differ only on accounts with a logout at or before the 1999-01-01 01:01:01 UTC stand-in.
- Entities.LastLoggedOut: requires a character; the source raises IndexError at line 130 instead. That case is modelled as `ok = false` in Fleet.SortByLastLogin and Fleet.AccountsWithin.
- Entities.LastLoggedOutAsWritten: requires a character, for the same reason as Entities.LastLoggedOut.
- Entities.Rank: no contract of its own; it requires a non-empty account, where the source raises IndexError. Its properties are the `AccountRank` lemmas.
- GrandFleetMerge.MergeEntriesCharacters: stated only for clean sources (`Mergeable`: no '|' in any character name, index and list in step). With a '|' in a name, a collision key could shadow a real name, so the first-seen description need not hold; that case is not described.
- GrandFleetMerge.MergeCharactersKeepsFirst: stated only for a clean target and incoming character names without a '|'. An incoming name such as "Spock|F" that equals a collision key already in the target's index is filed as a collision and not listed, so the first-seen description does not hold for it; that case is not described.
- GrandFleetMerge.MergeAllSpec: describes the characters only when every source account is clean (no '|' in any listed character name, index and list in step). With a '|' in a name, a collision key could shadow a real name; that case is not described.
- GrandFleetMerge.MergeKeepsFcWithoutCollisions: the `fc` sum is stated only for clean sources (as for GrandFleetMerge.MergeAllSpec) and only when no character name repeats across an account's sources. A repeated name's later copies are dropped from the list, so their contributions are not counted.

## Findings

| source | as written | input that shows it | evidently intended | confidence | as-written member | corrected member |
|---|---|---|---|---|---|---|
| sto_fc.py:127-130 | `last_logged_out` sorts a character without a logout as if it had logged out at 1999-01-01 01:01:01 UTC and returns the first character's logout | an account with one character logged out on 1998-07-09 16:00 UTC and one never logged out: the result is None | the most recent real logout (1998-07-09), with a missing logout older than every real one | not executed; only logouts at or before 1999-01-01 01:01:01 UTC show it, which the game's data is unlikely to hold | Entities.LastLoggedOutAsWritten (shown by Entities.SentinelHidesEarlyLogout and FleetModel.SentinelBreaksSort) | Entities.LastLoggedOut |
