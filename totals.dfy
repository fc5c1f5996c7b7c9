/**
 * Fleet-wide totals: the contributions in the report add up to the
 * contributions in the records. Loading a holding raises the sum of the
 * accounts' `fc` by exactly the sum of its donor records, and member records
 * leave it unchanged.
 */
module Totals {
  import opened Wrappers
  import opened FirstSeen
  import opened Holdings
  import opened Names
  import opened Entities
  import opened Roster

  /** The sum of `Account.fc` over the roster. */
  function FleetFc(accs: seq<Account>): int
    decreases |accs|
  {
    if accs == [] then 0 else Fc(accs[0]) + FleetFc(accs[1..])
  }

  /** The sum of the donor records' contributions. */
  function Donated(ds: seq<Donor>): int
    decreases |ds|
  {
    if ds == [] then 0 else Donated(ds[..|ds| - 1]) + ds[|ds| - 1].contribution
  }

  lemma {:induction false} SumFcCons(c: Character, cs: seq<Character>)
    ensures SumFc([c] + cs) == TotalFc(c) + SumFc(cs)
    decreases |cs|
  {
    if cs != [] {
      var init := cs[..|cs| - 1];
      SumFcCons(c, init);
      assert ([c] + cs)[..|cs|] == [c] + init;
    }
  }

  lemma {:induction false} FleetFcAppend(accs: seq<Account>, a: Account)
    ensures FleetFc(accs + [a]) == FleetFc(accs) + Fc(a)
    decreases |accs|
  {
    if accs != [] {
      assert (accs + [a])[1..] == accs[1..] + [a];
      FleetFcAppend(accs[1..], a);
    }
  }

  /** Replacing a character of a name not listed changes nothing. */
  lemma {:induction false} ReplaceAbsent(cs: seq<Character>, c: Character)
    requires c.name !in CharacterNames(cs)
    ensures Replace(cs, c) == cs
    decreases |cs|
  {
    if cs != [] {
      assert CharacterNames(cs) == [cs[0].name] + CharacterNames(cs[1..]);
      ReplaceAbsent(cs[1..], c);
    }
  }

  /** Replacing a listed character changes the sum by the difference of the two totals. */
  lemma {:induction false} ReplaceSumFc(cs: seq<Character>, c: Character)
    requires Distinct(CharacterNames(cs)) && c.name in CharacterNames(cs)
    ensures SumFc(Replace(cs, c)) == SumFc(cs) - TotalFc(Find(cs, c.name).value) + TotalFc(c)
    decreases |cs|
  {
    var ns := CharacterNames(cs);
    assert ns == [cs[0].name] + CharacterNames(cs[1..]);
    assert cs == [cs[0]] + cs[1..];
    SumFcCons(cs[0], cs[1..]);
    if cs[0].name == c.name {
      assert c.name !in CharacterNames(cs[1..]) by {
        assert ns[0] == c.name;
        forall k | 0 <= k < |cs| - 1 ensures CharacterNames(cs[1..])[k] != c.name {
          assert CharacterNames(cs[1..])[k] == ns[k + 1] != ns[0];
        }
      }
      ReplaceAbsent(cs[1..], c);
      SumFcCons(c, cs[1..]);
    } else {
      assert Distinct(CharacterNames(cs[1..])) by {
        forall i, j | 0 <= i < j < |cs| - 1 ensures CharacterNames(cs[1..])[i] != CharacterNames(cs[1..])[j] {
          assert CharacterNames(cs[1..])[i] == ns[i + 1] && CharacterNames(cs[1..])[j] == ns[j + 1];
        }
      }
      ReplaceSumFc(cs[1..], c);
      SumFcCons(cs[0], Replace(cs[1..], c));
    }
  }

  /** Replacing an account of a name not listed changes nothing. */
  lemma {:induction false} ReplaceAccountAbsent(accs: seq<Account>, a: Account)
    requires a.name !in AccountNames(accs)
    ensures ReplaceAccount(accs, a) == accs
    decreases |accs|
  {
    if accs != [] {
      assert AccountNames(accs) == [accs[0].name] + AccountNames(accs[1..]);
      ReplaceAccountAbsent(accs[1..], a);
    }
  }

  /** Replacing a listed account changes the fleet sum by the difference of the two `fc`. */
  lemma {:induction false} ReplaceAccountFleetFc(accs: seq<Account>, a: Account)
    requires Distinct(AccountNames(accs)) && a.name in AccountNames(accs)
    ensures FleetFc(ReplaceAccount(accs, a)) == FleetFc(accs) - Fc(FindAccount(accs, a.name).value) + Fc(a)
    decreases |accs|
  {
    var ns := AccountNames(accs);
    var tail := AccountNames(accs[1..]);
    assert ns == [accs[0].name] + tail;
    var r := ReplaceAccount(accs, a);
    assert r[1..] == ReplaceAccount(accs[1..], a);
    if accs[0].name == a.name {
      assert r[0] == a;
      assert a.name !in tail by {
        forall k | 0 <= k < |tail| ensures tail[k] != a.name {
          assert tail[k] == ns[k + 1] != ns[0];
        }
      }
      ReplaceAccountAbsent(accs[1..], a);
      assert FindAccount(accs, a.name) == Some(accs[0]);
    } else {
      assert r[0] == accs[0];
      assert Distinct(tail) by {
        forall i, j | 0 <= i < j < |tail| ensures tail[i] != tail[j] {
          assert tail[i] == ns[i + 1] && tail[j] == ns[j + 1];
        }
      }
      ReplaceAccountFleetFc(accs[1..], a);
      assert FindAccount(accs, a.name) == FindAccount(accs[1..], a.name);
    }
  }


  /** A new character starts with an empty `fc_dict`, so get-or-create keeps `Account.fc`. */
  lemma GetOrCreateFc(a: Account, characterName: string)
    ensures Fc(GetOrCreate(a, characterName)) == Fc(a)
  {
    var g := GetOrCreate(a, characterName);
    if characterName !in a.characterIndex {
      assert g.characters == a.characters + [NewCharacter(characterName, a.name)];
      assert g.characters[..|a.characters|] == a.characters;
    }
  }

  /** Get-or-create adds nothing to the fleet sum: new accounts and characters start at 0. */
  lemma TouchFleetFc(accs: seq<Account>, accountName: string, characterName: string)
    requires Valid(accs)
    ensures FleetFc(Touch(accs, accountName, characterName)) == FleetFc(accs)
  {
    GrownSpec(accs, accountName);
    var grown := Grown(accs, accountName);
    assert FleetFc(grown) == FleetFc(accs) by {
      if accountName !in AccountNames(accs) {
        FleetFcAppend(accs, NewAccount(accountName));
      }
    }
    var a := FindAccount(grown, accountName).value;
    var g := GetOrCreate(a, characterName);
    assert Touch(accs, accountName, characterName) == ReplaceAccount(grown, g);
    GetOrCreateFc(a, characterName);
    ReplaceAccountFleetFc(grown, g);
  }

  /** Writing back a character changes the fleet sum by the change of that character's total. */
  lemma PutCharacterFleetFc(accs: seq<Account>, accountName: string, c: Character)
    requires Valid(accs) && CharacterAt(accs, accountName, c.name).Some?
    ensures FleetFc(PutCharacter(accs, accountName, c)) ==
      FleetFc(accs) - TotalFc(CharacterAt(accs, accountName, c.name).value) + TotalFc(c)
  {
    var a := FindAccount(accs, accountName).value;
    var i :| 0 <= i < |accs| && AccountNames(accs)[i] == accountName;
    FindAccountListed(accs, i);
    assert Synced(a);
    ReplaceSumFc(a.characters, c);
    ReplaceAccountFleetFc(accs, Put(a, c));
  }

  /** A donor record adds exactly its contribution to the fleet sum. */
  lemma DonateFleetFc(accs: seq<Account>, holding: string, d: Donor)
    requires Valid(accs)
    ensures FleetFc(Donate(accs, holding, d)) == FleetFc(accs) + d.contribution
  {
    var (characterName, accountName) := ParseName(d.displayName);
    var touched := Touch(accs, accountName, characterName);
    TouchFleetFc(accs, accountName, characterName);
    TouchedFits(accs, accountName, characterName);
    var c := CharacterAt(touched, accountName, characterName).value;
    TotalAdd(c.fcDict, holding, d.contribution);
    PutCharacterFleetFc(touched, accountName, c.(fcDict := Add(c.fcDict, holding, d.contribution)));
  }

  /** Loading a holding adds the sum of its contributions to the fleet sum. */
  lemma {:induction false} LoadDonorsFleetFc(accs: seq<Account>, holding: string, ds: seq<Donor>)
    requires Valid(accs)
    ensures FleetFc(LoadDonors(accs, holding, ds)) == FleetFc(accs) + Donated(ds)
    decreases |ds|
  {
    if ds != [] {
      var init := ds[..|ds| - 1];
      LoadDonorsFleetFc(accs, holding, init);
      LoadDonorsAccounts(accs, holding, init);
      var prev := LoadDonors(accs, holding, init);
      DonateFleetFc(prev, holding, ds[|ds| - 1]);
      assert LoadDonors(accs, holding, ds) == Donate(prev, holding, ds[|ds| - 1]);
    }
  }

  /** A member record leaves the fleet sum unchanged. */
  lemma ApplyMemberFleetFc(accs: seq<Account>, m: Member)
    requires Valid(accs)
    ensures FleetFc(ApplyMember(accs, m)) == FleetFc(accs)
  {
    var accountName := MemberAccountName(m);
    var touched := Touch(accs, accountName, m.name);
    TouchFleetFc(accs, accountName, m.name);
    TouchedFits(accs, accountName, m.name);
    var c := CharacterAt(touched, accountName, m.name).value;
    PutCharacterFleetFc(touched, accountName, c.(rank := m.officerRank, lastLoggedOut := Some(m.logoutTime)));
  }

  /** Loading members leaves the fleet sum unchanged. */
  lemma {:induction false} LoadMembersFleetFc(accs: seq<Account>, ms: seq<Member>)
    requires Valid(accs)
    ensures FleetFc(LoadMembers(accs, ms)) == FleetFc(accs)
    decreases |ms|
  {
    if ms != [] {
      var init := ms[..|ms| - 1];
      LoadMembersFleetFc(accs, init);
      LoadMembersAccounts(accs, init);
      var prev := LoadMembers(accs, init);
      ApplyMemberFleetFc(prev, ms[|ms| - 1]);
      assert LoadMembers(accs, ms) == ApplyMember(prev, ms[|ms| - 1]);
    }
  }
}
