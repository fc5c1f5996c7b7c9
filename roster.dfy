/**
 * A fleet's roster as a value: the ordered list of accounts. The loaders of
 * the fleet are specified here as folds over their input records; their
 * properties (first-seen order, additive contributions, replaced rank and
 * logout) are lemmas about these folds.
 */
module Roster {
  import opened Wrappers
  import opened FirstSeen
  import opened Holdings
  import opened Names
  import opened Entities

  /** One entry of a holding's `donationstats`. */
  datatype Donor = Donor(displayName: string, contribution: int)

  /** One holding state: its `typename` and its donor records, in order. */
  datatype Holding = Holding(typeName: string, donationStats: seq<Donor>)

  /** One entry of the guild's `members` array; `logouttime` already parsed. */
  datatype Member = Member(name: string, publicAccountName: string, officerRank: string, logoutTime: Timestamp)

  function AccountNames(accs: seq<Account>): seq<string> {
    seq(|accs|, i requires 0 <= i < |accs| => accs[i].name)
  }

  /** The first listed account with this name. */
  function FindAccount(accs: seq<Account>, name: string): (r: Option<Account>)
    ensures r.None? <==> name !in AccountNames(accs)
    ensures r.Some? ==> r.value in accs && r.value.name == name
  {
    if accs == [] then None
    else if accs[0].name == name then
      assert AccountNames(accs)[0] == name;
      Some(accs[0])
    else
      assert AccountNames(accs) == [accs[0].name] + AccountNames(accs[1..]);
      FindAccount(accs[1..], name)
  }

  /** With distinct names, a listed account is what its name finds. */
  lemma {:induction false} FindAccountListed(accs: seq<Account>, i: nat)
    requires i < |accs| && Distinct(AccountNames(accs))
    ensures FindAccount(accs, accs[i].name) == Some(accs[i])
    decreases i
  {
    if i > 0 {
      assert accs[0].name == AccountNames(accs)[0] != AccountNames(accs)[i];
      assert AccountNames(accs[1..]) == AccountNames(accs)[1..];
      FindAccountListed(accs[1..], i - 1);
    }
  }

  /** Finding in a list with one more account at the end. */
  lemma {:induction false} FindAccountAppend(accs: seq<Account>, a: Account, x: string)
    ensures FindAccount(accs + [a], x) ==
      if FindAccount(accs, x).Some? then FindAccount(accs, x) else if a.name == x then Some(a) else None
    decreases |accs|
  {
    if accs != [] {
      assert (accs + [a])[1..] == accs[1..] + [a];
      FindAccountAppend(accs[1..], a, x);
    }
  }

  /**
   * The roster invariant: account names are distinct, and every account is
   * Synced and owns at least one character (the loaders never create an
   * account without one).
   */
  ghost predicate Valid(accs: seq<Account>) {
    && Distinct(AccountNames(accs))
    && forall i :: 0 <= i < |accs| ==> Synced(accs[i]) && |accs[i].characters| > 0
  }

  /** The character `characterName` of account `accountName`, if both exist. */
  function CharacterAt(accs: seq<Account>, accountName: string, characterName: string): Option<Character> {
    match FindAccount(accs, accountName)
    case None => None
    case Some(a) => Find(a.characters, characterName)
  }

  /** The character names of account `accountName`, in list order ([] for an unknown account). */
  function CharacterNamesAt(accs: seq<Account>, accountName: string): seq<string> {
    match FindAccount(accs, accountName)
    case None => []
    case Some(a) => CharacterNames(a.characters)
  }

  /** `fc_dict[holding]` of a character, 0 when the character does not exist. */
  function FcAt(accs: seq<Account>, accountName: string, characterName: string, holding: string): int {
    match CharacterAt(accs, accountName, characterName)
    case None => 0
    case Some(c) => Get(c.fcDict, holding)
  }

  /** Replaces the listed account named like `a` by `a` (the write-back of a mutated account). */
  function ReplaceAccount(accs: seq<Account>, a: Account): (r: seq<Account>)
    ensures |r| == |accs| && AccountNames(r) == AccountNames(accs)
    ensures forall i :: 0 <= i < |accs| ==> r[i] == if accs[i].name == a.name then a else accs[i]
    ensures FindAccount(r, a.name) == if a.name in AccountNames(accs) then Some(a) else None
    ensures forall x :: x != a.name ==> FindAccount(r, x) == FindAccount(accs, x)
  {
    FindReplaced(accs, a);
    Replaced(accs, a)
  }

  function Replaced(accs: seq<Account>, a: Account): seq<Account> {
    seq(|accs|, i requires 0 <= i < |accs| => if accs[i].name == a.name then a else accs[i])
  }

  /** Lookups after the replacement: `a` under its own name, unchanged under every other. */
  lemma {:induction false} FindReplaced(accs: seq<Account>, a: Account)
    ensures AccountNames(Replaced(accs, a)) == AccountNames(accs)
    ensures FindAccount(Replaced(accs, a), a.name) == if a.name in AccountNames(accs) then Some(a) else None
    ensures forall x :: x != a.name ==> FindAccount(Replaced(accs, a), x) == FindAccount(accs, x)
    decreases |accs|
  {
    var r := Replaced(accs, a);
    assert AccountNames(r) == AccountNames(accs);
    if accs != [] {
      assert r[1..] == Replaced(accs[1..], a);
      FindReplaced(accs[1..], a);
      assert AccountNames(accs) == [accs[0].name] + AccountNames(accs[1..]);
      assert r[0].name == accs[0].name;
    }
  }


  /** Get-or-create of the account: appended when its name is new. */
  function Grown(accs: seq<Account>, accountName: string): seq<Account> {
    if accountName in AccountNames(accs) then accs else accs + [NewAccount(accountName)]
  }

  /** Get-or-create of the account, then of its character. */
  function Touch(accs: seq<Account>, accountName: string, characterName: string): seq<Account> {
    var grown := Grown(accs, accountName);
    match FindAccount(grown, accountName)
    case None => grown
    case Some(a) => ReplaceAccount(grown, GetOrCreate(a, characterName))
  }

  /** Writes an updated character back into its account. */
  function PutCharacter(accs: seq<Account>, accountName: string, c: Character): seq<Account> {
    match FindAccount(accs, accountName)
    case None => accs
    case Some(a) => ReplaceAccount(accs, Put(a, c))
  }

  /** The account half of get-or-create: only an unknown name appends, and the new account is empty. */
  lemma GrownSpec(accs: seq<Account>, accountName: string)
    requires Valid(accs)
    ensures var grown := Grown(accs, accountName);
      && AccountNames(grown) == AddNew(AccountNames(accs), accountName)
      && Distinct(AccountNames(grown))
      && (forall x :: FindAccount(grown, x) ==
            if x == accountName && accountName !in AccountNames(accs) then Some(NewAccount(accountName))
            else FindAccount(accs, x))
      && (forall i :: 0 <= i < |grown| ==>
            Synced(grown[i]) && (|grown[i].characters| > 0 || grown[i].name == accountName))
      && FindAccount(grown, accountName).Some? && Synced(FindAccount(grown, accountName).value)
  {
    var known := accountName in AccountNames(accs);
    var grown := Grown(accs, accountName);
    assert AccountNames(grown) == AddNew(AccountNames(accs), accountName);
    AppendNewDistinct(AccountNames(accs), [accountName]);
    forall x ensures FindAccount(grown, x) == if x == accountName && !known then Some(NewAccount(accountName)) else FindAccount(accs, x) {
      if !known { FindAccountAppend(accs, NewAccount(accountName), x); }
    }
    if known {
      var i :| 0 <= i < |accs| && AccountNames(accs)[i] == accountName;
      FindAccountListed(accs, i);
    }
  }

  /** Get-or-create keeps the roster invariant and appends names in first-seen order. */
  lemma TouchSpec(accs: seq<Account>, accountName: string, characterName: string)
    requires Valid(accs)
    ensures var r := Touch(accs, accountName, characterName);
      && Valid(r)
      && AccountNames(r) == AddNew(AccountNames(accs), accountName)
      && (forall x :: CharacterNamesAt(r, x) ==
            if x == accountName then AddNew(CharacterNamesAt(accs, x), characterName) else CharacterNamesAt(accs, x))
  {
    GrownSpec(accs, accountName);
    var grown := Grown(accs, accountName);
    var a := FindAccount(grown, accountName).value;
    var g := GetOrCreate(a, characterName);
    var r := ReplaceAccount(grown, g);
    assert |g.characters| > 0 by {
      assert CharacterNames(g.characters) == AddNew(CharacterNames(a.characters), characterName);
    }
    forall i | 0 <= i < |r| ensures Synced(r[i]) && |r[i].characters| > 0 {
      if grown[i].name != accountName {
        assert r[i] == grown[i];
      }
    }
  }

  /** Get-or-create creates the character if it is missing and changes no other. */
  lemma TouchCharacterAt(accs: seq<Account>, accountName: string, characterName: string, x: string, y: string)
    requires Valid(accs)
    ensures CharacterAt(Touch(accs, accountName, characterName), x, y) ==
      if x == accountName && y == characterName && CharacterAt(accs, x, y).None?
      then Some(NewCharacter(characterName, accountName))
      else CharacterAt(accs, x, y)
  {
    GrownSpec(accs, accountName);
  }

  /** Writing back a character of an existing account keeps the invariant and all names. */
  lemma PutCharacterSpec(accs: seq<Account>, accountName: string, c: Character)
    requires Valid(accs)
    requires CharacterAt(accs, accountName, c.name).Some?
    requires c.accountName == accountName && Distinct(Keys(c.fcDict))
    ensures var r := PutCharacter(accs, accountName, c);
      && Valid(r)
      && AccountNames(r) == AccountNames(accs)
      && (forall x :: CharacterNamesAt(r, x) == CharacterNamesAt(accs, x))
  {
    var a := FindAccount(accs, accountName).value;
    var p := Put(a, c);
    var r := ReplaceAccount(accs, p);
    assert r == PutCharacter(accs, accountName, c);
    PutAccountValid(accs, a, c);
    forall x ensures CharacterNamesAt(r, x) == CharacterNamesAt(accs, x) {
      if x != accountName {
        assert FindAccount(r, x) == FindAccount(accs, x);
      } else {
        assert FindAccount(r, x) == Some(p);
      }
    }
  }

  /** The invariant part of the write-back, for a listed account and a character that fits it. */
  lemma PutAccountValid(accs: seq<Account>, a: Account, c: Character)
    requires Valid(accs) && a in accs && Fits(a, c)
    ensures Valid(ReplaceAccount(accs, Put(a, c)))
  {
    var i :| 0 <= i < |accs| && accs[i] == a;
    assert AccountNames(accs)[i] == a.name;
    FindAccountListed(accs, i);
    var p := Put(a, c);
    assert Synced(p);
    var r := ReplaceAccount(accs, p);
    assert |p.characters| == |a.characters| by {
      assert |CharacterNames(p.characters)| == |CharacterNames(a.characters)|;
    }
    forall j | 0 <= j < |r| ensures Synced(r[j]) && |r[j].characters| > 0 {
      if accs[j].name == a.name {
        assert r[j] == p;
      } else {
        assert r[j] == accs[j];
      }
    }
  }

  /** Writing back a character changes that character and no other. */
  lemma PutCharacterAt(accs: seq<Account>, accountName: string, c: Character, x: string, y: string)
    requires CharacterAt(accs, accountName, c.name).Some?
    ensures CharacterAt(PutCharacter(accs, accountName, c), x, y) ==
      if x == accountName && y == c.name then Some(c) else CharacterAt(accs, x, y)
  {
  }

  /** One donor record: `fc_dict[holding] += contribution` on its (possibly new) character. */
  function Donate(accs: seq<Account>, holding: string, d: Donor): seq<Account> {
    var (characterName, accountName) := ParseName(d.displayName);
    var touched := Touch(accs, accountName, characterName);
    match CharacterAt(touched, accountName, characterName)
    case None => touched
    case Some(c) => PutCharacter(touched, accountName, c.(fcDict := Add(c.fcDict, holding, d.contribution)))
  }

  /** `Fleet.load_from_holding_dict` on a list of donor records, folded left to right. */
  function LoadDonors(accs: seq<Account>, holding: string, ds: seq<Donor>): seq<Account>
    decreases |ds|
  {
    if ds == [] then accs else Donate(LoadDonors(accs, holding, ds[..|ds| - 1]), holding, ds[|ds| - 1])
  }

  /** `Fleet.load_from_holding_dict`. */
  function LoadHolding(accs: seq<Account>, h: Holding): seq<Account> {
    LoadDonors(accs, h.typeName, h.donationStats)
  }

  /** The member's account: `publicaccountname[1:]`, dropping the sigil in front. */
  function MemberAccountName(m: Member): string {
    if m.publicAccountName == [] then [] else m.publicAccountName[1..]
  }

  /** One member record: rank and last logout of its (possibly new) character are replaced. */
  function ApplyMember(accs: seq<Account>, m: Member): seq<Account> {
    var accountName := MemberAccountName(m);
    var touched := Touch(accs, accountName, m.name);
    match CharacterAt(touched, accountName, m.name)
    case None => touched
    case Some(c) => PutCharacter(touched, accountName, c.(rank := m.officerRank, lastLoggedOut := Some(m.logoutTime)))
  }

  /** `Fleet.load_from_members_array`, folded left to right. */
  function LoadMembers(accs: seq<Account>, ms: seq<Member>): seq<Account>
    decreases |ms|
  {
    if ms == [] then accs else ApplyMember(LoadMembers(accs, ms[..|ms| - 1]), ms[|ms| - 1])
  }

  /** Rank and last logout of a character, if it exists. */
  function Profile(accs: seq<Account>, accountName: string, characterName: string): Option<(string, Option<Timestamp>)> {
    match CharacterAt(accs, accountName, characterName)
    case None => None
    case Some(c) => Some((c.rank, c.lastLoggedOut))
  }

  /** The character a donor record updates exists after get-or-create and fits its account. */
  lemma TouchedFits(accs: seq<Account>, accountName: string, characterName: string)
    requires Valid(accs)
    ensures var touched := Touch(accs, accountName, characterName);
      && Valid(touched)
      && CharacterAt(touched, accountName, characterName).Some?
      && CharacterAt(touched, accountName, characterName).value.accountName == accountName
      && Distinct(Keys(CharacterAt(touched, accountName, characterName).value.fcDict))
  {
    var touched := Touch(accs, accountName, characterName);
    TouchSpec(accs, accountName, characterName);
    TouchCharacterAt(accs, accountName, characterName, accountName, characterName);
    var a := FindAccount(touched, accountName).value;
    var c := CharacterAt(touched, accountName, characterName).value;
    var i :| 0 <= i < |a.characters| && CharacterNames(a.characters)[i] == characterName;
    FindListed(a.characters, i);
    var j :| 0 <= j < |touched| && AccountNames(touched)[j] == accountName;
    FindAccountListed(touched, j);
  }

  /** A donor record keeps the invariant and appends its names in first-seen order. */
  lemma DonateStructure(accs: seq<Account>, holding: string, d: Donor)
    requires Valid(accs)
    ensures var (characterName, accountName) := ParseName(d.displayName);
      var r := Donate(accs, holding, d);
      && Valid(r)
      && AccountNames(r) == AddNew(AccountNames(accs), accountName)
      && (forall x :: CharacterNamesAt(r, x) ==
            if x == accountName then AddNew(CharacterNamesAt(accs, x), characterName) else CharacterNamesAt(accs, x))
  {
    var (characterName, accountName) := ParseName(d.displayName);
    var touched := Touch(accs, accountName, characterName);
    TouchSpec(accs, accountName, characterName);
    TouchedFits(accs, accountName, characterName);
    var c := CharacterAt(touched, accountName, characterName).value;
    AppendNewDistinct(Keys(c.fcDict), [holding]);
    assert AppendNew(Keys(c.fcDict), [holding]) == AddNew(Keys(c.fcDict), holding) by {
      assert [holding][..0] == [];
    }
    var updated := c.(fcDict := Add(c.fcDict, holding, d.contribution));
    assert Keys(updated.fcDict) == AddNew(Keys(c.fcDict), holding);
    PutCharacterSpec(touched, accountName, updated);
    assert Donate(accs, holding, d) == PutCharacter(touched, accountName, updated);
  }

  /** What a donor record does to one character: its updated value written back. */
  lemma DonateCharacterAt(accs: seq<Account>, holding: string, d: Donor, x: string, y: string)
    requires Valid(accs)
    ensures var (characterName, accountName) := ParseName(d.displayName);
      CharacterAt(Donate(accs, holding, d), x, y) ==
        if x == accountName && y == characterName then
          var c := if CharacterAt(accs, x, y).Some? then CharacterAt(accs, x, y).value else NewCharacter(y, x);
          Some(c.(fcDict := Add(c.fcDict, holding, d.contribution)))
        else CharacterAt(accs, x, y)
  {
    var (characterName, accountName) := ParseName(d.displayName);
    var touched := Touch(accs, accountName, characterName);
    TouchCharacterAt(accs, accountName, characterName, x, y);
    TouchCharacterAt(accs, accountName, characterName, accountName, characterName);
    TouchedFits(accs, accountName, characterName);
    var c := CharacterAt(touched, accountName, characterName).value;
    var c' := c.(fcDict := Add(c.fcDict, holding, d.contribution));
    assert Donate(accs, holding, d) == PutCharacter(touched, accountName, c');
    PutCharacterAt(touched, accountName, c', x, y);
  }

  /** The account names of the donor records, in order. */
  function DonorAccounts(ds: seq<Donor>): seq<string>
    decreases |ds|
  {
    if ds == [] then [] else DonorAccounts(ds[..|ds| - 1]) + [ParseName(ds[|ds| - 1].displayName).1]
  }

  /** The character names of the donor records that belong to one account, in order. */
  function DonorCharacters(ds: seq<Donor>, accountName: string): seq<string>
    decreases |ds|
  {
    if ds == [] then []
    else
      var (c, a) := ParseName(ds[|ds| - 1].displayName);
      DonorCharacters(ds[..|ds| - 1], accountName) + if a == accountName then [c] else []
  }

  /** The sum of a character's contributions over the donor records. */
  function Contributed(ds: seq<Donor>, accountName: string, characterName: string): int
    decreases |ds|
  {
    if ds == [] then 0
    else
      var d := ds[|ds| - 1];
      Contributed(ds[..|ds| - 1], accountName, characterName)
        + if ParseName(d.displayName) == (characterName, accountName) then d.contribution else 0
  }

  /**
   * After loading a holding: the invariant holds, existing accounts keep their
   * places and new ones follow in first-seen order.
   */
  lemma {:induction false} LoadDonorsAccounts(accs: seq<Account>, holding: string, ds: seq<Donor>)
    requires Valid(accs)
    ensures Valid(LoadDonors(accs, holding, ds))
    ensures AccountNames(LoadDonors(accs, holding, ds)) == AppendNew(AccountNames(accs), DonorAccounts(ds))
    decreases |ds|
  {
    if ds != [] {
      var init := ds[..|ds| - 1];
      LoadDonorsAccounts(accs, holding, init);
      var prev := LoadDonors(accs, holding, init);
      DonateStructure(prev, holding, ds[|ds| - 1]);
      assert LoadDonors(accs, holding, ds) == Donate(prev, holding, ds[|ds| - 1]);
      var ys := DonorAccounts(ds);
      assert ys == DonorAccounts(init) + [ParseName(ds[|ds| - 1].displayName).1];
      assert ys[..|ys| - 1] == DonorAccounts(init);
    }
  }

  /** Within each account, existing characters keep their places and new ones follow in first-seen order. */
  lemma {:induction false} LoadDonorsCharacters(accs: seq<Account>, holding: string, ds: seq<Donor>, accountName: string)
    requires Valid(accs)
    ensures CharacterNamesAt(LoadDonors(accs, holding, ds), accountName) ==
      AppendNew(CharacterNamesAt(accs, accountName), DonorCharacters(ds, accountName))
    decreases |ds|
  {
    if ds != [] {
      var init := ds[..|ds| - 1];
      LoadDonorsCharacters(accs, holding, init, accountName);
      LoadDonorsAccounts(accs, holding, init);
      var prev := LoadDonors(accs, holding, init);
      DonateStructure(prev, holding, ds[|ds| - 1]);
      assert LoadDonors(accs, holding, ds) == Donate(prev, holding, ds[|ds| - 1]);
      var (c, a) := ParseName(ds[|ds| - 1].displayName);
      var ys := DonorCharacters(ds, accountName);
      if a == accountName {
        assert ys == DonorCharacters(init, accountName) + [c];
        assert ys[..|ys| - 1] == DonorCharacters(init, accountName);
      } else {
        assert ys == DonorCharacters(init, accountName);
      }
    }
  }

  /**
   * Contributions add up: each holding amount of each character grows by that
   * character's contributions to this holding, and nothing else changes.
   */
  lemma {:induction false} LoadDonorsAdds(accs: seq<Account>, holding: string, ds: seq<Donor>,
                                          accountName: string, characterName: string, k: string)
    requires Valid(accs)
    ensures FcAt(LoadDonors(accs, holding, ds), accountName, characterName, k) ==
      FcAt(accs, accountName, characterName, k) + if k == holding then Contributed(ds, accountName, characterName) else 0
    decreases |ds|
  {
    if ds != [] {
      var init := ds[..|ds| - 1];
      LoadDonorsAdds(accs, holding, init, accountName, characterName, k);
      LoadDonorsAccounts(accs, holding, init);
      var prev := LoadDonors(accs, holding, init);
      DonateCharacterAt(prev, holding, ds[|ds| - 1], accountName, characterName);
      assert LoadDonors(accs, holding, ds) == Donate(prev, holding, ds[|ds| - 1]);
    }
  }

  /** Loading contributions never touches rank or last logout; a character it creates has neither. */
  lemma {:induction false} LoadDonorsKeepsProfile(accs: seq<Account>, holding: string, ds: seq<Donor>,
                                                  accountName: string, characterName: string)
    requires Valid(accs)
    ensures var r := LoadDonors(accs, holding, ds);
      && (Profile(accs, accountName, characterName).Some? ==>
            Profile(r, accountName, characterName) == Profile(accs, accountName, characterName))
      && (Profile(accs, accountName, characterName).None? && Profile(r, accountName, characterName).Some? ==>
            Profile(r, accountName, characterName) == Some(("", None)))
    decreases |ds|
  {
    if ds != [] {
      var init := ds[..|ds| - 1];
      LoadDonorsKeepsProfile(accs, holding, init, accountName, characterName);
      LoadDonorsAccounts(accs, holding, init);
      var prev := LoadDonors(accs, holding, init);
      DonateCharacterAt(prev, holding, ds[|ds| - 1], accountName, characterName);
      assert LoadDonors(accs, holding, ds) == Donate(prev, holding, ds[|ds| - 1]);
    }
  }

  /**
   * Loading the same holding twice adds its contributions twice (additive,
   * not idempotent), while the account list settles after the first load.
   */
  lemma LoadHoldingTwice(accs: seq<Account>, h: Holding, accountName: string, characterName: string, k: string)
    requires Valid(accs)
    ensures var once := LoadHolding(accs, h);
      var twice := LoadHolding(once, h);
      && FcAt(twice, accountName, characterName, k) - FcAt(once, accountName, characterName, k)
           == FcAt(once, accountName, characterName, k) - FcAt(accs, accountName, characterName, k)
      && AccountNames(twice) == AccountNames(once)
  {
    var once := LoadHolding(accs, h);
    LoadDonorsAccounts(accs, h.typeName, h.donationStats);
    LoadDonorsAccounts(once, h.typeName, h.donationStats);
    LoadDonorsAdds(accs, h.typeName, h.donationStats, accountName, characterName, k);
    LoadDonorsAdds(once, h.typeName, h.donationStats, accountName, characterName, k);
    AppendNewIdempotent(AccountNames(accs), DonorAccounts(h.donationStats));
  }

  /** A member record keeps the invariant and appends its names in first-seen order. */
  lemma ApplyMemberStructure(accs: seq<Account>, m: Member)
    requires Valid(accs)
    ensures var accountName := MemberAccountName(m);
      var r := ApplyMember(accs, m);
      && Valid(r)
      && AccountNames(r) == AddNew(AccountNames(accs), accountName)
      && (forall x :: CharacterNamesAt(r, x) ==
            if x == accountName then AddNew(CharacterNamesAt(accs, x), m.name) else CharacterNamesAt(accs, x))
  {
    var accountName := MemberAccountName(m);
    var touched := Touch(accs, accountName, m.name);
    TouchSpec(accs, accountName, m.name);
    TouchedFits(accs, accountName, m.name);
    var c := CharacterAt(touched, accountName, m.name).value;
    PutCharacterSpec(touched, accountName, c.(rank := m.officerRank, lastLoggedOut := Some(m.logoutTime)));
  }

  /** What a member record does to one character: rank and logout replaced, contributions kept. */
  lemma ApplyMemberCharacterAt(accs: seq<Account>, m: Member, x: string, y: string)
    requires Valid(accs)
    ensures CharacterAt(ApplyMember(accs, m), x, y) ==
      if x == MemberAccountName(m) && y == m.name then
        var c := if CharacterAt(accs, x, y).Some? then CharacterAt(accs, x, y).value else NewCharacter(y, x);
        Some(c.(rank := m.officerRank, lastLoggedOut := Some(m.logoutTime)))
      else CharacterAt(accs, x, y)
  {
    var accountName := MemberAccountName(m);
    var touched := Touch(accs, accountName, m.name);
    TouchCharacterAt(accs, accountName, m.name, x, y);
    TouchCharacterAt(accs, accountName, m.name, accountName, m.name);
    TouchedFits(accs, accountName, m.name);
    var c := CharacterAt(touched, accountName, m.name).value;
    var c' := c.(rank := m.officerRank, lastLoggedOut := Some(m.logoutTime));
    assert ApplyMember(accs, m) == PutCharacter(touched, accountName, c');
    PutCharacterAt(touched, accountName, c', x, y);
  }

  /** The account names of the member records, in order. */
  function MemberAccounts(ms: seq<Member>): seq<string>
    decreases |ms|
  {
    if ms == [] then [] else MemberAccounts(ms[..|ms| - 1]) + [MemberAccountName(ms[|ms| - 1])]
  }

  /** The character names of the member records that belong to one account, in order. */
  function MemberCharacters(ms: seq<Member>, accountName: string): seq<string>
    decreases |ms|
  {
    if ms == [] then []
    else
      var m := ms[|ms| - 1];
      MemberCharacters(ms[..|ms| - 1], accountName) + if MemberAccountName(m) == accountName then [m.name] else []
  }

  /** The member record is about this account and character. */
  predicate MemberNames(m: Member, accountName: string, characterName: string) {
    MemberAccountName(m) == accountName && m.name == characterName
  }

  /** The last member record of a character, if there is one. */
  function LastMember(ms: seq<Member>, accountName: string, characterName: string): (r: Option<Member>)
    ensures r.Some? ==> r.value in ms && MemberAccountName(r.value) == accountName && r.value.name == characterName
    decreases |ms|
  {
    if ms == [] then None
    else
      var m := ms[|ms| - 1];
      if MemberNames(m, accountName, characterName) then Some(m)
      else LastMember(ms[..|ms| - 1], accountName, characterName)
  }

  /** LastMember finds nothing only when no record names the account and character. */
  lemma {:induction false} LastMemberNone(ms: seq<Member>, accountName: string, characterName: string)
    requires LastMember(ms, accountName, characterName).None?
    ensures forall i :: 0 <= i < |ms| ==> !MemberNames(ms[i], accountName, characterName)
    decreases |ms|
  {
    if ms != [] {
      var init := ms[..|ms| - 1];
      assert !MemberNames(ms[|ms| - 1], accountName, characterName);
      LastMemberNone(init, accountName, characterName);
      forall i | 0 <= i < |ms| ensures !MemberNames(ms[i], accountName, characterName) {
        if i < |init| {
          assert ms[i] == init[i];
        }
      }
    }
  }

  /** The record LastMember finds is the last one: no later record names the account and character. */
  lemma {:induction false} LastMemberLatest(ms: seq<Member>, accountName: string, characterName: string)
    requires LastMember(ms, accountName, characterName).Some?
    ensures exists k :: 0 <= k < |ms| && ms[k] == LastMember(ms, accountName, characterName).value &&
                        (forall i :: k < i < |ms| ==> !MemberNames(ms[i], accountName, characterName))
    decreases |ms|
  {
    var n := |ms| - 1;
    var r := LastMember(ms, accountName, characterName).value;
    if MemberNames(ms[n], accountName, characterName) {
      assert ms[n] == r;
    } else {
      var init := ms[..n];
      assert LastMember(ms, accountName, characterName) == LastMember(init, accountName, characterName);
      LastMemberLatest(init, accountName, characterName);
      var k :| 0 <= k < |init| && init[k] == r &&
               (forall i :: k < i < |init| ==> !MemberNames(init[i], accountName, characterName));
      assert ms[k] == r;
      assert forall i :: k < i < |ms| ==> !MemberNames(ms[i], accountName, characterName) by {
        forall i | k < i < |ms| ensures !MemberNames(ms[i], accountName, characterName) {
          if i < n {
            assert ms[i] == init[i];
          }
        }
      }
    }
  }

  /** After loading members: the invariant holds and new accounts follow in first-seen order. */
  lemma {:induction false} LoadMembersAccounts(accs: seq<Account>, ms: seq<Member>)
    requires Valid(accs)
    ensures Valid(LoadMembers(accs, ms))
    ensures AccountNames(LoadMembers(accs, ms)) == AppendNew(AccountNames(accs), MemberAccounts(ms))
    decreases |ms|
  {
    if ms != [] {
      var init := ms[..|ms| - 1];
      LoadMembersAccounts(accs, init);
      var prev := LoadMembers(accs, init);
      ApplyMemberStructure(prev, ms[|ms| - 1]);
      assert LoadMembers(accs, ms) == ApplyMember(prev, ms[|ms| - 1]);
      var ys := MemberAccounts(ms);
      assert ys == MemberAccounts(init) + [MemberAccountName(ms[|ms| - 1])];
      assert ys[..|ys| - 1] == MemberAccounts(init);
    }
  }

  /** Within each account, new characters follow in first-seen order. */
  lemma {:induction false} LoadMembersCharacters(accs: seq<Account>, ms: seq<Member>, accountName: string)
    requires Valid(accs)
    ensures CharacterNamesAt(LoadMembers(accs, ms), accountName) ==
      AppendNew(CharacterNamesAt(accs, accountName), MemberCharacters(ms, accountName))
    decreases |ms|
  {
    if ms != [] {
      var init := ms[..|ms| - 1];
      LoadMembersCharacters(accs, init, accountName);
      LoadMembersAccounts(accs, init);
      var prev := LoadMembers(accs, init);
      var m := ms[|ms| - 1];
      ApplyMemberStructure(prev, m);
      assert LoadMembers(accs, ms) == ApplyMember(prev, m);
      var ys := MemberCharacters(ms, accountName);
      if MemberAccountName(m) == accountName {
        assert ys == MemberCharacters(init, accountName) + [m.name];
        assert ys[..|ys| - 1] == MemberCharacters(init, accountName);
      } else {
        assert ys == MemberCharacters(init, accountName);
      }
    }
  }

  /**
   * The last record wins: a character listed in the records carries the rank
   * and logout of its last record; any other character keeps its own.
   */
  lemma {:induction false} LoadMembersLastWins(accs: seq<Account>, ms: seq<Member>, accountName: string, characterName: string)
    requires Valid(accs)
    ensures Profile(LoadMembers(accs, ms), accountName, characterName) ==
      match LastMember(ms, accountName, characterName)
      case Some(m) => Some((m.officerRank, Some(m.logoutTime)))
      case None => Profile(accs, accountName, characterName)
    decreases |ms|
  {
    if ms != [] {
      var init := ms[..|ms| - 1];
      LoadMembersLastWins(accs, init, accountName, characterName);
      LoadMembersAccounts(accs, init);
      var prev := LoadMembers(accs, init);
      ApplyMemberCharacterAt(prev, ms[|ms| - 1], accountName, characterName);
      assert LoadMembers(accs, ms) == ApplyMember(prev, ms[|ms| - 1]);
    }
  }

  /** Member records never touch contributions; a character they create has none. */
  lemma {:induction false} LoadMembersKeepsContributions(accs: seq<Account>, ms: seq<Member>,
                                                         accountName: string, characterName: string, k: string)
    requires Valid(accs)
    ensures FcAt(LoadMembers(accs, ms), accountName, characterName, k) == FcAt(accs, accountName, characterName, k)
    decreases |ms|
  {
    if ms != [] {
      var init := ms[..|ms| - 1];
      LoadMembersKeepsContributions(accs, init, accountName, characterName, k);
      LoadMembersAccounts(accs, init);
      var prev := LoadMembers(accs, init);
      ApplyMemberCharacterAt(prev, ms[|ms| - 1], accountName, characterName);
      assert LoadMembers(accs, ms) == ApplyMember(prev, ms[|ms| - 1]);
    }
  }

  /**
   * Loading the same members twice is the same as loading them once, as far
   * as names, ranks, logouts and contributions go.
   */
  lemma LoadMembersTwice(accs: seq<Account>, ms: seq<Member>, accountName: string, characterName: string, k: string)
    requires Valid(accs)
    ensures var once := LoadMembers(accs, ms);
      var twice := LoadMembers(once, ms);
      && AccountNames(twice) == AccountNames(once)
      && CharacterNamesAt(twice, accountName) == CharacterNamesAt(once, accountName)
      && Profile(twice, accountName, characterName) == Profile(once, accountName, characterName)
      && FcAt(twice, accountName, characterName, k) == FcAt(once, accountName, characterName, k)
  {
    var once := LoadMembers(accs, ms);
    LoadMembersAccounts(accs, ms);
    LoadMembersAccounts(once, ms);
    AppendNewIdempotent(AccountNames(accs), MemberAccounts(ms));
    LoadMembersCharacters(accs, ms, accountName);
    LoadMembersCharacters(once, ms, accountName);
    AppendNewIdempotent(CharacterNamesAt(accs, accountName), MemberCharacters(ms, accountName));
    LoadMembersLastWins(accs, ms, accountName, characterName);
    LoadMembersLastWins(once, ms, accountName, characterName);
    LoadMembersKeepsContributions(once, ms, accountName, characterName, k);
  }

  /** `Fleet.num_characters` as a function: the list lengths of all accounts, added up. */
  function CharacterCount(accs: seq<Account>): nat
    decreases |accs|
  {
    if accs == [] then 0 else CharacterCount(accs[..|accs| - 1]) + |accs[|accs| - 1].characters|
  }

  /** The (account, character) name pairs of one account, in list order. */
  function AccountPairs(a: Account): seq<(string, string)> {
    seq(|a.characters|, j requires 0 <= j < |a.characters| => (a.name, a.characters[j].name))
  }

  /** The (account, character) name pairs of the roster, in list order. */
  function Pairs(accs: seq<Account>): seq<(string, string)>
    decreases |accs|
  {
    if accs == [] then [] else Pairs(accs[..|accs| - 1]) + AccountPairs(accs[|accs| - 1])
  }

  ghost predicate DistinctPairs(ps: seq<(string, string)>) {
    forall i, j :: 0 <= i < j < |ps| ==> ps[i] != ps[j]
  }

  /** A prefix of a valid roster is valid. */
  lemma ValidPrefix(accs: seq<Account>, n: nat)
    requires Valid(accs) && n <= |accs|
    ensures Valid(accs[..n])
  {
    var p := accs[..n];
    forall i, j | 0 <= i < j < |p| ensures AccountNames(p)[i] != AccountNames(p)[j] {
      assert AccountNames(p)[i] == AccountNames(accs)[i] && AccountNames(p)[j] == AccountNames(accs)[j];
    }
  }

  /** `num_characters` counts one per listed (account, character) pair. */
  lemma {:induction false} CharacterCountIsPairs(accs: seq<Account>)
    ensures CharacterCount(accs) == |Pairs(accs)|
    decreases |accs|
  {
    if accs != [] {
      CharacterCountIsPairs(accs[..|accs| - 1]);
    }
  }

  /** The last account of a valid roster is named differently from all before it. */
  lemma LastNameNew(accs: seq<Account>)
    requires Valid(accs) && accs != []
    ensures accs[|accs| - 1].name !in AccountNames(accs[..|accs| - 1])
  {
    var init := accs[..|accs| - 1];
    forall k | 0 <= k < |init| ensures AccountNames(init)[k] != accs[|accs| - 1].name {
      assert AccountNames(init)[k] == AccountNames(accs)[k];
      assert accs[|accs| - 1].name == AccountNames(accs)[|accs| - 1];
    }
  }

  lemma AccountPairsMember(a: Account, x: string, y: string)
    ensures (x, y) in AccountPairs(a) <==> x == a.name && y in CharacterNames(a.characters)
  {
    var qs := AccountPairs(a);
    if (x, y) in qs {
      var j :| 0 <= j < |qs| && qs[j] == (x, y);
      assert CharacterNames(a.characters)[j] == y;
    }
    if x == a.name && y in CharacterNames(a.characters) {
      var j :| 0 <= j < |a.characters| && CharacterNames(a.characters)[j] == y;
      assert qs[j] == (x, y);
    }
  }

  /** The pairs of a valid roster are exactly the characters CharacterAt finds. */
  lemma {:induction false} PairsAreCharacters(accs: seq<Account>, x: string, y: string)
    requires Valid(accs)
    ensures (x, y) in Pairs(accs) <==> CharacterAt(accs, x, y).Some?
    decreases |accs|
  {
    if accs != [] {
      var init := accs[..|accs| - 1];
      var a := accs[|accs| - 1];
      ValidPrefix(accs, |accs| - 1);
      PairsAreCharacters(init, x, y);
      LastNameNew(accs);
      assert accs == init + [a];
      FindAccountAppend(init, a, x);
      AccountPairsMember(a, x, y);
    }
  }

  /** `num_characters` counts every character of a valid roster once: the pairs are distinct. */
  lemma {:induction false} PairsDistinct(accs: seq<Account>)
    requires Valid(accs)
    ensures DistinctPairs(Pairs(accs))
    decreases |accs|
  {
    if accs != [] {
      var init := accs[..|accs| - 1];
      var a := accs[|accs| - 1];
      ValidPrefix(accs, |accs| - 1);
      PairsDistinct(init);
      LastNameNew(accs);
      assert Synced(a);
      var ps := Pairs(init);
      var qs := AccountPairs(a);
      forall i, j | 0 <= i < j < |ps + qs| ensures (ps + qs)[i] != (ps + qs)[j] {
        if j < |ps| {
          assert (ps + qs)[i] == ps[i] && (ps + qs)[j] == ps[j];
        } else if i >= |ps| {
          assert CharacterNames(a.characters)[i - |ps|] == qs[i - |ps|].1;
          assert CharacterNames(a.characters)[j - |ps|] == qs[j - |ps|].1;
        } else {
          var (x, y) := ps[i];
          PairsAreCharacters(init, x, y);
          assert x in AccountNames(init);
          assert (ps + qs)[j] == qs[j - |ps|];
        }
      }
    }
  }
}
