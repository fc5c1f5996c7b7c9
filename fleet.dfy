/**
 * The Fleet object: a name, the ordered account list and the account index,
 * updated in place by the loaders, the sorts and the grand-fleet
 * constructor. Each method is proved against the value-level functions of
 * Roster, GrandFleetMerge and Sorting.
 */
module FleetModel {
  import opened Wrappers
  import opened FirstSeen
  import opened Holdings
  import opened Names
  import opened Entities
  import opened Roster
  import opened Sorting
  import opened GrandFleetMerge

  /** The account index names exactly the listed accounts and maps each name to its account. */
  ghost predicate Indexed(accs: seq<Account>, index: map<string, Account>) {
    && Distinct(AccountNames(accs))
    && (forall x :: x in index <==> x in AccountNames(accs))
    && (forall x :: x in index ==> FindAccount(accs, x) == Some(index[x]))
  }

  function NameOf(a: Account): string {
    a.name
  }

  /** Distinct account names, stated on the accounts themselves. */
  lemma DistinctNamesUnique(accs: seq<Account>)
    ensures Distinct(AccountNames(accs)) <==> Unique(accs, NameOf)
  {
    if Unique(accs, NameOf) {
      forall i, j | 0 <= i < j < |accs| ensures AccountNames(accs)[i] != AccountNames(accs)[j] {
        assert NameOf(accs[i]) != NameOf(accs[j]);
      }
    }
    if Distinct(AccountNames(accs)) {
      forall i, j | 0 <= i < j < |accs| ensures NameOf(accs[i]) != NameOf(accs[j]) {
        assert AccountNames(accs)[i] != AccountNames(accs)[j];
      }
    }
  }

  /** Any reordering of the accounts keeps the index and the roster invariant. */
  lemma PermutationKeepsIndexed(accs: seq<Account>, index: map<string, Account>, r: seq<Account>)
    requires Indexed(accs, index)
    requires multiset(r) == multiset(accs) && Unique(r, NameOf)
    ensures Indexed(r, index)
    ensures Roster.Valid(accs) ==> Roster.Valid(r)
  {
    DistinctNamesUnique(r);
    forall x ensures x in AccountNames(r) <==> x in AccountNames(accs) {
      if x in AccountNames(r) {
        var i :| 0 <= i < |r| && AccountNames(r)[i] == x;
        assert r[i] in multiset(accs);
        var j :| 0 <= j < |accs| && accs[j] == r[i];
        assert AccountNames(accs)[j] == x;
      }
      if x in AccountNames(accs) {
        var j :| 0 <= j < |accs| && AccountNames(accs)[j] == x;
        assert accs[j] in multiset(r);
        var i :| 0 <= i < |r| && r[i] == accs[j];
        assert AccountNames(r)[i] == x;
      }
    }
    forall x | x in index ensures FindAccount(r, x) == Some(index[x]) {
      var a := index[x];
      assert a in multiset(r);
      var i :| 0 <= i < |r| && r[i] == a;
      FindAccountListed(r, i);
    }
    if Roster.Valid(accs) {
      forall i | 0 <= i < |r| ensures Synced(r[i]) && |r[i].characters| > 0 {
        assert r[i] in multiset(accs);
      }
    }
  }

  /**
   * The account has a character (so `last_logged_out` does not raise
   * IndexError) and one of its characters has a logout. This uses the
   * corrected `last_logged_out`; HasLogoutAsWritten is the source's.
   */
  predicate HasLogout(a: Account) {
    a.characters != [] && LastLoggedOut(a).Some?
  }

  /**
   * `sort_by_last_login`, with `last_logged_out` corrected, completes: every
   * key can be computed, and the keys are all datetimes or all None. Python 2 orders None against None, but
   * comparing a datetime with None raises TypeError.
   */
  predicate LoginSortable(accs: seq<Account>) {
    && (forall i :: 0 <= i < |accs| ==> accs[i].characters != [])
    && ((forall i :: 0 <= i < |accs| ==> HasLogout(accs[i])) ||
        (forall i :: 0 <= i < |accs| ==> !HasLogout(accs[i])))
  }

  /** HasLogout on the source's as-written `last_logged_out`. */
  predicate HasLogoutAsWritten(a: Account) {
    a.characters != [] && LastLoggedOutAsWritten(a).Some?
  }

  /** LoginSortable on the source's as-written `last_logged_out`: when the source's sort completes. */
  predicate LoginSortableAsWritten(accs: seq<Account>) {
    && (forall i :: 0 <= i < |accs| ==> accs[i].characters != [])
    && ((forall i :: 0 <= i < |accs| ==> HasLogoutAsWritten(accs[i])) ||
        (forall i :: 0 <= i < |accs| ==> !HasLogoutAsWritten(accs[i])))
  }

  /**
   * Where the 1999 stand-in hides no logout, the corrected and the as-written
   * `last_logged_out` raise in the same cases, in the sort and in the filter.
   */
  lemma SortableAgreesAfterSentinel(accs: seq<Account>)
    requires forall i :: 0 <= i < |accs| ==> StandInHarmless(accs[i])
    ensures LoginSortable(accs) <==> LoginSortableAsWritten(accs)
    ensures (forall i :: 0 <= i < |accs| ==> HasLogout(accs[i])) <==>
            (forall i :: 0 <= i < |accs| ==> HasLogoutAsWritten(accs[i]))
  {
    forall i | 0 <= i < |accs| && accs[i].characters != []
      ensures HasLogout(accs[i]) == HasLogoutAsWritten(accs[i])
    {
      AsWrittenAgreesAfterSentinel(accs[i]);
    }
  }

  /**
   * An account out since 1998-07-09 16:00 UTC with a second character never
   * logged out, next to one out since 2014-01-01: the corrected key sorts
   * them, while the source's keys are None and a datetime, and its sort
   * raises TypeError.
   */
  lemma SentinelBreaksSort(a: Account, b: Account)
    requires a.characters == [Character("Kirk", a.name, [], Some(63035596800), ""),
                              Character("Spock", a.name, [], None, "")]
    requires b.characters == [Character("Sulu", b.name, [], Some(63524131200), "")]
    ensures LoginSortable([a, b]) && !LoginSortableAsWritten([a, b])
  {
    SentinelHidesEarlyLogout(a);
    assert LogoutTimes(b.characters) == [Some(63524131200)];
    var accs := [a, b];
    assert !HasLogoutAsWritten(accs[0]) && HasLogoutAsWritten(accs[1]);
  }

  /**
   * The sort key of `sort_by_last_login` on a list that `LoginSortable`
   * admits: the last logout. Such a list has keys that are either all
   * logouts or all missing; a missing one is -1, so all-missing keys are
   * equal and the stable sort keeps their order.
   */
  function LoginKey(a: Account): int {
    if a.characters == [] then -1
    else match LastLoggedOut(a)
      case None => -1
      case Some(t) => t
  }

  /** `account.last_logged_out >= since`, for an account that has a logout. */
  predicate LoggedOutSince(a: Account, since: Timestamp) {
    LoginKey(a) >= since
  }

  /** If no account has a logout, sorting by last login leaves the order as it was. */
  lemma {:induction false} AllMissingKeepsOrder(accs: seq<Account>)
    requires forall i :: 0 <= i < |accs| ==> !HasLogout(accs[i])
    ensures SortDesc(accs, LoginKey) == accs
  {
    assert Descending(accs, LoginKey) by {
      forall i, j | 0 <= i < j < |accs| ensures LoginKey(accs[i]) >= LoginKey(accs[j]) {
        assert LoginKey(accs[i]) == -1 && LoginKey(accs[j]) == -1;
      }
    }
    SortDescSorted(accs, LoginKey);
  }

  /** The accounts of the list that logged out at or after `since`, in list order. */
  function Recent(accs: seq<Account>, since: Timestamp): (r: seq<Account>)
    ensures |r| <= |accs|
    decreases |accs|
  {
    if accs == [] then []
    else Recent(accs[..|accs| - 1], since) + if LoggedOutSince(accs[|accs| - 1], since) then [accs[|accs| - 1]] else []
  }

  /** Filtering keeps exactly the accounts that qualify. */
  lemma {:induction false} RecentMembers(accs: seq<Account>, since: Timestamp, a: Account)
    ensures a in Recent(accs, since) <==> a in accs && LoggedOutSince(a, since)
    decreases |accs|
  {
    if accs != [] {
      RecentMembers(accs[..|accs| - 1], since, a);
      assert accs == accs[..|accs| - 1] + [accs[|accs| - 1]];
    }
  }

  /** On a list sorted by login key, the recent accounts are a prefix. */
  lemma {:induction false} RecentIsPrefix(accs: seq<Account>, since: Timestamp)
    requires Descending(accs, LoginKey)
    ensures Recent(accs, since) == accs[..|Recent(accs, since)|]
    decreases |accs|
  {
    if accs != [] {
      var init := accs[..|accs| - 1];
      var last := accs[|accs| - 1];
      if LoggedOutSince(last, since) {
        forall i | 0 <= i < |accs| ensures LoggedOutSince(accs[i], since) {
          if i < |accs| - 1 {
            assert LoginKey(accs[i]) >= LoginKey(last);
          }
        }
        RecentAll(accs, since);
      } else {
        DescendingPrefix(accs, LoginKey, |accs| - 1);
        RecentIsPrefix(init, since);
        var k := |Recent(init, since)|;
        assert Recent(accs, since) == Recent(init, since);
        assert init[..k] == accs[..k];
      }
    }
  }

  /** A list whose every account qualifies is kept whole. */
  lemma {:induction false} RecentAll(accs: seq<Account>, since: Timestamp)
    requires forall i :: 0 <= i < |accs| ==> LoggedOutSince(accs[i], since)
    ensures Recent(accs, since) == accs
    decreases |accs|
  {
    if accs != [] {
      var init := accs[..|accs| - 1];
      forall i | 0 <= i < |init| ensures LoggedOutSince(init[i], since) {
        assert init[i] == accs[i];
      }
      RecentAll(init, since);
      assert accs == init + [accs[|accs| - 1]];
    }
  }

  /** One more donor record is one more Donate. */
  lemma LoadDonorsStep(accs: seq<Account>, holding: string, ds: seq<Donor>, i: nat)
    requires i < |ds|
    ensures LoadDonors(accs, holding, ds[..i + 1]) == Donate(LoadDonors(accs, holding, ds[..i]), holding, ds[i])
  {
    assert ds[..i + 1][..i] == ds[..i];
  }

  /** One more member record is one more ApplyMember. */
  lemma LoadMembersStep(accs: seq<Account>, ms: seq<Member>, i: nat)
    requires i < |ms|
    ensures LoadMembers(accs, ms[..i + 1]) == ApplyMember(LoadMembers(accs, ms[..i]), ms[i])
  {
    assert ms[..i + 1][..i] == ms[..i];
  }

  /** The source fleets as the merge sees them. */
  function Views(fs: seq<Fleet>): (vs: seq<FleetView>)
    reads set f | f in fs
    ensures |vs| == |fs|
    ensures forall i :: 0 <= i < |fs| ==> vs[i] == FleetView(fs[i].name, fs[i].accounts)
    decreases |fs|
  {
    if fs == [] then [] else Views(fs[..|fs| - 1]) + [FleetView(fs[|fs| - 1].name, fs[|fs| - 1].accounts)]
  }

  /** The account loop of the merge: every account of one source fleet, in order. */
  method MergeFleetInto(accs: seq<Account>, index: map<string, Account>, f: FleetView)
    returns (accs': seq<Account>, index': map<string, Account>)
    requires Indexed(accs, index)
    ensures Indexed(accs', index')
    ensures accs' == MergeEntries(accs, Tagged(f))
  {
    accs', index' := accs, index;
    var j := 0;
    while j < |f.accounts|
      invariant 0 <= j <= |f.accounts|
      invariant Indexed(accs', index')
      invariant accs' == MergeEntries(accs, Tagged(f)[..j])
    {
      ghost var done := Tagged(f)[..j + 1];
      assert done[..j] == Tagged(f)[..j] && done[j] == (f.name, f.accounts[j]);
      accs', index' := MergeAccountInto(accs', index', f.name, f.accounts[j]);
      j := j + 1;
    }
    assert Tagged(f)[..j] == Tagged(f);
  }

  /** The character loop of the merge: each character of a source account into the target. */
  method MergeCharactersInto(target: Account, cs: seq<Character>, fleetName: string) returns (r: Account)
    ensures r == MergeCharacters(target, cs, fleetName)
  {
    r := target;
    var k := 0;
    while k < |cs|
      invariant 0 <= k <= |cs|
      invariant r == MergeCharacters(target, cs[..k], fleetName)
    {
      var character := cs[k];
      if character.name !in r.characterIndex {
        r := r.(characters := r.characters + [character], characterIndex := r.characterIndex[character.name := character]);
      } else {
        r := r.(characterIndex := r.characterIndex[CollisionKey(character.name, fleetName) := character]);
      }
      assert cs[..k + 1][..k] == cs[..k];
      k := k + 1;
    }
    assert cs[..k] == cs;
  }

  /**
   * The account step of the merge: a source account merges into the indexed
   * account of its name, or a copy is appended and indexed.
   */
  method MergeAccountInto(accs: seq<Account>, index: map<string, Account>, fleetName: string, account: Account)
    returns (accs': seq<Account>, index': map<string, Account>)
    requires Indexed(accs, index)
    ensures Indexed(accs', index')
    ensures accs' == MergeAccount(accs, (fleetName, account))
  {
    MergeAccountNames(accs, (fleetName, account));
    if account.name in index {
      var target := MergeCharactersInto(index[account.name], account.characters, fleetName);
      accs' := ReplaceAccount(accs, target);
      index' := index[account.name := target];
    } else {
      accs' := accs + [account];
      index' := index[account.name := account];
      forall x | x in index' ensures FindAccount(accs', x) == Some(index'[x]) {
        FindAccountAppend(accs, account, x);
      }
    }
  }

  /** Reordering a list changes nothing about whether every account has a logout. */
  lemma AllHaveLogoutPermuted(xs: seq<Account>, ys: seq<Account>)
    requires multiset(xs) == multiset(ys)
    ensures (forall i :: 0 <= i < |xs| ==> HasLogout(xs[i])) <==> (forall i :: 0 <= i < |ys| ==> HasLogout(ys[i]))
  {
    forall i | 0 <= i < |xs| ensures xs[i] in ys {
      assert xs[i] in multiset(ys);
    }
    forall i | 0 <= i < |ys| ensures ys[i] in xs {
      assert ys[i] in multiset(xs);
    }
  }

  /**
   * The loop of `get_accounts_within_n_days`: keeps the accounts whose last
   * logout is at or after `since`. `ok` is false exactly when some account
   * has no (corrected) logout, where `None >= since` raises TypeError in
   * Python 2.
   */
  method FilterSince(accs: seq<Account>, since: Timestamp) returns (ok: bool, result: seq<Account>)
    ensures ok <==> forall i :: 0 <= i < |accs| ==> HasLogout(accs[i])
    ensures ok ==> result == Recent(accs, since)
  {
    result := [];
    var i := 0;
    while i < |accs|
      invariant 0 <= i <= |accs|
      invariant forall j :: 0 <= j < i ==> HasLogout(accs[j])
      invariant result == Recent(accs[..i], since)
    {
      if !HasLogout(accs[i]) {
        return false, [];
      }
      assert accs[..i + 1][..i] == accs[..i];
      if LastLoggedOut(accs[i]).value >= since {
        result := result + [accs[i]];
      }
      i := i + 1;
    }
    assert accs[..i] == accs;
    ok := true;
  }

  class Fleet {
    var name: string
    var accounts: seq<Account>
    var accountIndex: map<string, Account>

    ghost predicate Valid()
      reads this
    {
      Indexed(accounts, accountIndex)
    }

    /** `Fleet(name)`: no accounts. */
    constructor (name: string)
      ensures this.name == name && accounts == [] && accountIndex == map[]
      ensures Valid()
    {
      this.name := name;
      accounts := [];
      accountIndex := map[];
    }

    /**
     * `GrandFleet(name, fleets)`: the accounts of all fleets merged by name,
     * with the index built alongside.
     */
    constructor Grand(name: string, fleets: seq<Fleet>)
      ensures this.name == name
      ensures accounts == MergeAll(Views(fleets))
      ensures Valid()
    {
      ghost var views := Views(fleets);
      var accs: seq<Account> := [];
      var index: map<string, Account> := map[];
      var i := 0;
      while i < |fleets|
        invariant 0 <= i <= |fleets|
        invariant Indexed(accs, index)
        invariant accs == MergeEntries([], Entries(views[..i]))
      {
        ghost var next := views[..i + 1];
        assert next[..i] == views[..i] && next[i] == views[i];
        assert Entries(next) == Entries(views[..i]) + Tagged(views[i]);
        MergeEntriesConcat([], Entries(views[..i]), Tagged(views[i]));
        assert views[i] == FleetView(fleets[i].name, fleets[i].accounts);
        accs, index := MergeFleetInto(accs, index, FleetView(fleets[i].name, fleets[i].accounts));
        i := i + 1;
      }
      assert views[..i] == views;
      this.name := name;
      accounts := accs;
      accountIndex := index;
      new;
      assert Views(fleets) == views;
    }

    /** `Fleet.num_characters`: the characters of all accounts, counted. */
    method NumCharacters() returns (n: nat)
      ensures n == CharacterCount(accounts)
    {
      n := 0;
      var i := 0;
      while i < |accounts|
        invariant 0 <= i <= |accounts|
        invariant n == CharacterCount(accounts[..i])
      {
        assert accounts[..i + 1][..i] == accounts[..i];
        n := n + |accounts[i].characters|;
        i := i + 1;
      }
      assert accounts[..i] == accounts;
    }

    /** `Fleet.sort`: a stable sort by contribution, largest first. */
    method Sort()
      requires Valid()
      modifies this
      ensures Valid() && name == old(name) && accountIndex == old(accountIndex)
      ensures accounts == SortDesc(old(accounts), Fc)
      ensures Roster.Valid(old(accounts)) ==> Roster.Valid(accounts)
    {
      var sorted := SortDesc(accounts, Fc);
      DistinctNamesUnique(accounts);
      SortDescUnique(accounts, Fc, NameOf);
      PermutationKeepsIndexed(accounts, accountIndex, sorted);
      accounts := sorted;
    }

    /**
     * `Fleet.sort_by_last_login`: a stable sort by last logout, most recent
     * first. `ok` is false exactly when the source, with `last_logged_out`
     * corrected, raises: an account without characters (IndexError), or a
     * mix of missing and known logouts (TypeError). SortableAgreesAfterSentinel
     * says when the source as written raises in the same cases. A failed sort leaves some permutation of the accounts.
     */
    method SortByLastLogin() returns (ok: bool)
      requires Valid()
      modifies this
      ensures ok <==> LoginSortable(old(accounts))
      ensures Valid() && name == old(name) && accountIndex == old(accountIndex)
      ensures multiset(accounts) == multiset(old(accounts))
      ensures ok ==> accounts == SortDesc(old(accounts), LoginKey)
      ensures Roster.Valid(old(accounts)) ==> Roster.Valid(accounts)
    {
      ok := LoginSortable(accounts);
      if ok {
        var sorted := SortDesc(accounts, LoginKey);
        DistinctNamesUnique(accounts);
        SortDescUnique(accounts, LoginKey, NameOf);
        PermutationKeepsIndexed(accounts, accountIndex, sorted);
        accounts := sorted;
      }
    }

    /**
     * `Fleet.get_accounts_within_n_days`: sorts by last logout, then keeps the
     * accounts that logged out at or after `since` - a prefix of the new order.
     * `ok` is false exactly when the source, with `last_logged_out`
     * corrected, raises: in the sort, or at `None >= since` for an account
     * without a logout.
     */
    method AccountsWithin(since: Timestamp) returns (ok: bool, result: seq<Account>)
      requires Valid()
      modifies this
      ensures ok <==> forall i :: 0 <= i < |old(accounts)| ==> HasLogout(old(accounts)[i])
      ensures Valid() && name == old(name) && accountIndex == old(accountIndex)
      ensures multiset(accounts) == multiset(old(accounts))
      ensures ok ==> accounts == SortDesc(old(accounts), LoginKey)
      ensures ok ==> result == Recent(accounts, since) && result == accounts[..|result|]
      ensures ok ==> forall a :: a in result <==> a in old(accounts) && LoggedOutSince(a, since)
    {
      ok := SortByLastLogin();
      if !ok {
        result := [];
        AllHaveLogoutPermuted(old(accounts), accounts);
        return;
      }
      ok, result := FilterSince(accounts, since);
      AllHaveLogoutPermuted(old(accounts), accounts);
      if ok {
        RecentIsPrefix(accounts, since);
        forall a ensures a in result <==> a in old(accounts) && LoggedOutSince(a, since) {
          RecentMembers(accounts, since, a);
          assert a in accounts <==> a in multiset(accounts);
          assert a in old(accounts) <==> a in multiset(old(accounts));
        }
      }
    }

    /** Get-or-create of an account by name, through the index (the account half of both loaders). */
    method AccountFor(accountName: string) returns (account: Account)
      requires Valid()
      modifies this
      ensures Valid() && name == old(name)
      ensures accounts == Grown(old(accounts), accountName)
      ensures FindAccount(accounts, accountName) == Some(account)
    {
      if accountName !in accountIndex {
        ghost var prev := accounts;
        account := NewAccount(accountName);
        accounts := accounts + [account];
        accountIndex := accountIndex[accountName := account];
        assert AccountNames(accounts) == AccountNames(prev) + [accountName];
        AppendNewDistinct(AccountNames(prev), [accountName]);
        forall x | x in accountIndex ensures FindAccount(accounts, x) == Some(accountIndex[x]) {
          FindAccountAppend(prev, account, x);
        }
      } else {
        account := accountIndex[accountName];
      }
    }

    /** Writes an updated account back to the list and the index; Python mutates the one shared object. */
    method Store(account: Account)
      requires Valid() && account.name in accountIndex
      modifies this
      ensures Valid() && name == old(name)
      ensures accounts == ReplaceAccount(old(accounts), account)
      ensures accountIndex == old(accountIndex)[account.name := account]
    {
      accounts := ReplaceAccount(accounts, account);
      accountIndex := accountIndex[account.name := account];
    }

    /** Get-or-create of the account, then of its character, written back: Touch. */
    method TouchCharacter(accountName: string, characterName: string) returns (account: Account, character: Character)
      requires Valid() && Roster.Valid(accounts)
      modifies this
      ensures Valid() && Roster.Valid(accounts) && name == old(name)
      ensures accounts == Touch(old(accounts), accountName, characterName)
      ensures FindAccount(accounts, accountName) == Some(account)
      ensures CharacterAt(accounts, accountName, characterName) == Some(character)
    {
      ghost var prev := accounts;
      GrownSpec(prev, accountName);
      TouchSpec(prev, accountName, characterName);
      account := AccountFor(accountName);
      account := GetOrCreate(account, characterName);
      Store(account);
      assert characterName in CharacterNames(account.characters);
      character := account.characterIndex[characterName];
      SyncedFind(account, characterName);
    }

    /** The body of `load_from_holding_dict` for one donor record. */
    method AddDonation(holdingName: string, d: Donor)
      requires Valid() && Roster.Valid(accounts)
      modifies this
      ensures Valid() && Roster.Valid(accounts) && name == old(name)
      ensures accounts == Donate(old(accounts), holdingName, d)
    {
      ghost var prev := accounts;
      var (characterName, accountName) := ParseName(d.displayName);
      var contribution := d.contribution;
      var account, character := TouchCharacter(accountName, characterName);
      ghost var touched := accounts;
      character := character.(fcDict := Add(character.fcDict, holdingName, contribution));
      Store(Put(account, character));
      assert accounts == PutCharacter(touched, accountName, character);
      DonateStructure(prev, holdingName, d);
    }

    /** `Fleet.load_from_holding_dict`: every donor record adds its contribution. */
    method LoadFromHoldingDict(holding: Holding)
      requires Valid() && Roster.Valid(accounts)
      modifies this
      ensures Valid() && Roster.Valid(accounts) && name == old(name)
      ensures accounts == LoadHolding(old(accounts), holding)
    {
      var holdingName := holding.typeName;
      var ds := holding.donationStats;
      var i := 0;
      while i < |ds|
        invariant 0 <= i <= |ds|
        invariant Valid() && Roster.Valid(accounts) && name == old(name)
        invariant accounts == LoadDonors(old(accounts), holdingName, ds[..i])
      {
        LoadDonorsStep(old(accounts), holdingName, ds, i);
        AddDonation(holdingName, ds[i]);
        i := i + 1;
      }
      assert ds[..i] == ds;
    }

    /** The body of `load_from_members_array` for one member record. */
    method ApplyMemberRecord(member: Member)
      requires Valid() && Roster.Valid(accounts)
      modifies this
      ensures Valid() && Roster.Valid(accounts) && name == old(name)
      ensures accounts == ApplyMember(old(accounts), member)
    {
      ghost var prev := accounts;
      var characterName := member.name;
      var accountName := MemberAccountName(member);
      var account, character := TouchCharacter(accountName, characterName);
      ghost var touched := accounts;
      character := character.(rank := member.officerRank, lastLoggedOut := Some(member.logoutTime));
      Store(Put(account, character));
      assert accounts == PutCharacter(touched, accountName, character);
      ApplyMemberStructure(prev, member);
    }

    /** `Fleet.load_from_members_array`: every member record replaces rank and last logout. */
    method LoadFromMembersArray(members: seq<Member>)
      requires Valid() && Roster.Valid(accounts)
      modifies this
      ensures Valid() && Roster.Valid(accounts) && name == old(name)
      ensures accounts == LoadMembers(old(accounts), members)
    {
      var i := 0;
      while i < |members|
        invariant 0 <= i <= |members|
        invariant Valid() && Roster.Valid(accounts) && name == old(name)
        invariant accounts == LoadMembers(old(accounts), members[..i])
      {
        LoadMembersStep(old(accounts), members, i);
        ApplyMemberRecord(members[i]);
        i := i + 1;
      }
      assert members[..i] == members;
    }
  }
}
