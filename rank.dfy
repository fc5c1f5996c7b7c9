/**
 * `Account.rank` under the two loaders: donor records never change it, and
 * after the member records it is the rank of the last record naming the
 * account's first character.
 */
module AccountRank {
  import opened Wrappers
  import opened FirstSeen
  import opened Entities
  import opened Roster

  /** A listed account's rank is the rank in the profile of its first character. */
  lemma RankIsFirstProfile(accs: seq<Account>, accountName: string)
    requires Valid(accs) && accountName in AccountNames(accs)
    ensures var a := FindAccount(accs, accountName).value;
      && |a.characters| > 0
      && CharacterNamesAt(accs, accountName)[0] == a.characters[0].name
      && Profile(accs, accountName, a.characters[0].name) == Some((Rank(a), a.characters[0].lastLoggedOut))
  {
    var a := FindAccount(accs, accountName).value;
    var i :| 0 <= i < |accs| && accs[i] == a;
    assert Synced(accs[i]) && |accs[i].characters| > 0;
    assert CharacterNames(a.characters)[0] == a.characters[0].name;
    FindListed(a.characters, 0);
  }

  /** Contributions never change an account's rank. */
  lemma DonorsKeepRank(accs: seq<Account>, holding: string, ds: seq<Donor>, accountName: string)
    requires Valid(accs) && accountName in AccountNames(accs)
    ensures var r := LoadDonors(accs, holding, ds);
      && accountName in AccountNames(r)
      && |FindAccount(accs, accountName).value.characters| > 0
      && |FindAccount(r, accountName).value.characters| > 0
      && Rank(FindAccount(r, accountName).value) == Rank(FindAccount(accs, accountName).value)
  {
    var r := LoadDonors(accs, holding, ds);
    LoadDonorsAccounts(accs, holding, ds);
    AppendNewGrows(AccountNames(accs), DonorAccounts(ds));
    assert Valid(r) && accountName in AccountNames(r);
    var xs := CharacterNamesAt(accs, accountName);
    LoadDonorsCharacters(accs, holding, ds, accountName);
    AppendNewGrows(xs, DonorCharacters(ds, accountName));
    RankIsFirstProfile(accs, accountName);
    RankIsFirstProfile(r, accountName);
    var a := FindAccount(accs, accountName).value;
    var b := FindAccount(r, accountName).value;
    var y := a.characters[0].name;
    assert xs <= CharacterNamesAt(r, accountName) && |xs| > 0;
    assert b.characters[0].name == y;
    LoadDonorsKeepsProfile(accs, holding, ds, accountName, y);
    assert Profile(r, accountName, y) == Profile(accs, accountName, y);
  }

  /**
   * After the member records, an account's rank is the rank of the last
   * record naming its first character; without such a record it is the rank
   * the account had before.
   */
  lemma MembersSetRank(accs: seq<Account>, ms: seq<Member>, accountName: string)
    requires Valid(accs) && accountName in AccountNames(LoadMembers(accs, ms))
    ensures var a := FindAccount(LoadMembers(accs, ms), accountName).value;
      && |a.characters| > 0
      && var last := LastMember(ms, accountName, a.characters[0].name);
      && (last.Some? ==> Rank(a) == last.value.officerRank)
      && (last.None? && accountName in AccountNames(accs) ==>
            Rank(a) == Rank(FindAccount(accs, accountName).value))
  {
    var r := LoadMembers(accs, ms);
    LoadMembersAccounts(accs, ms);
    RankIsFirstProfile(r, accountName);
    var a := FindAccount(r, accountName).value;
    var y := a.characters[0].name;
    LoadMembersLastWins(accs, ms, accountName, y);
    if accountName in AccountNames(accs) {
      LoadMembersCharacters(accs, ms, accountName);
      AppendNewGrows(CharacterNamesAt(accs, accountName), MemberCharacters(ms, accountName));
      RankIsFirstProfile(accs, accountName);
      assert CharacterNamesAt(r, accountName)[0] == CharacterNamesAt(accs, accountName)[0];
    }
  }
}
