/**
 * The entity model below the fleet: a Character with its per-holding
 * contributions, rank and last logout, and an Account that owns an ordered
 * list of characters plus a name index into them. Both are values; the
 * object sharing between an account's list and its index is modelled by
 * keeping the indexed value equal to the listed one (Synced).
 */
module Entities {
  import opened Wrappers
  import opened FirstSeen
  import opened Holdings

  /**
   * An instant, in whole seconds since 0001-01-01 00:00:00 UTC, the earliest
   * instant a Python datetime can hold; text parsing is not modelled.
   */
  type Timestamp = nat

  /** 1999-01-01 01:01:01 UTC: the stand-in that `Account.last_logged_out` sorts a missing logout by. */
  const Sentinel: Timestamp := 63050749261

  datatype Character = Character(
    name: string,
    accountName: string,            // back-reference by name only
    fcDict: FcDict,
    lastLoggedOut: Option<Timestamp>,
    rank: string)

  /** A character as first created: no contributions, never logged out, empty rank. */
  function NewCharacter(name: string, accountName: string): Character {
    Character(name, accountName, [], None, "")
  }

  /** `Character.total_fc`. */
  function TotalFc(c: Character): int {
    Total(c.fcDict)
  }

  datatype Account = Account(
    name: string,
    characters: seq<Character>,
    characterIndex: map<string, Character>)

  function NewAccount(name: string): Account {
    Account(name, [], map[])
  }

  function CharacterNames(cs: seq<Character>): seq<string> {
    seq(|cs|, i requires 0 <= i < |cs| => cs[i].name)
  }

  /** The first listed character with this name. */
  function Find(cs: seq<Character>, name: string): (r: Option<Character>)
    ensures r.None? <==> name !in CharacterNames(cs)
    ensures r.Some? ==> r.value in cs && r.value.name == name
  {
    if cs == [] then None
    else if cs[0].name == name then
      assert CharacterNames(cs)[0] == name;
      Some(cs[0])
    else
      assert CharacterNames(cs) == [cs[0].name] + CharacterNames(cs[1..]);
      Find(cs[1..], name)
  }

  /** With distinct names, a listed character is what its name finds. */
  lemma {:induction false} FindListed(cs: seq<Character>, i: nat)
    requires i < |cs| && Distinct(CharacterNames(cs))
    ensures Find(cs, cs[i].name) == Some(cs[i])
    decreases i
  {
    if i > 0 {
      assert cs[0].name == CharacterNames(cs)[0] != CharacterNames(cs)[i];
      assert CharacterNames(cs[1..]) == CharacterNames(cs)[1..];
      FindListed(cs[1..], i - 1);
    }
  }

  /**
   * The account's list and index name the same characters, each once, the
   * index maps each name to the listed character, and every character points
   * back to this account and has distinct holding keys.
   */
  ghost predicate Synced(a: Account) {
    && Distinct(CharacterNames(a.characters))
    && (forall k :: k in a.characterIndex <==> k in CharacterNames(a.characters))
    && (forall i :: 0 <= i < |a.characters| ==>
          && a.characters[i].name in a.characterIndex
          && a.characterIndex[a.characters[i].name] == a.characters[i])
    && (forall i :: 0 <= i < |a.characters| ==>
          a.characters[i].accountName == a.name && Distinct(Keys(a.characters[i].fcDict)))
  }

  /** Appending and indexing a character of a new name keeps the account Synced. */
  lemma SyncedAppend(a: Account, c: Character)
    requires Synced(a) && c.name !in a.characterIndex
    requires c.accountName == a.name && Distinct(Keys(c.fcDict))
    ensures Synced(a.(characters := a.characters + [c], characterIndex := a.characterIndex[c.name := c]))
  {
    var r := a.(characters := a.characters + [c], characterIndex := a.characterIndex[c.name := c]);
    var names := CharacterNames(a.characters);
    assert CharacterNames(r.characters) == names + [c.name];
    assert Distinct(names + [c.name]) by {
      AppendNewDistinct(names, [c.name]);
      assert [c.name][..0] == [];
    }
    forall i | 0 <= i < |a.characters| ensures r.characters[i] == a.characters[i] && a.characters[i].name != c.name {
      assert names[i] == a.characters[i].name;
    }
  }

  /**
   * The character half of both loaders: look the name up in the index and,
   * when it is missing, append a new character to the list and index it.
   */
  function GetOrCreate(a: Account, characterName: string): (r: Account)
    ensures r.name == a.name
    ensures Synced(a) ==> Synced(r)
    ensures Synced(a) ==> CharacterNames(r.characters) == AddNew(CharacterNames(a.characters), characterName)
    ensures Synced(a) ==>
      Find(r.characters, characterName) ==
        if characterName in CharacterNames(a.characters) then Find(a.characters, characterName)
        else Some(NewCharacter(characterName, a.name))
    ensures Synced(a) ==> forall x :: x != characterName ==> Find(r.characters, x) == Find(a.characters, x)
  {
    if characterName in a.characterIndex then a
    else
      var c := NewCharacter(characterName, a.name);
      var r := a.(characters := a.characters + [c], characterIndex := a.characterIndex[characterName := c]);
      assert CharacterNames(r.characters) == CharacterNames(a.characters) + [characterName];
      assert Synced(a) ==> Synced(r) by {
        if Synced(a) {
          SyncedAppend(a, c);
        }
      }
      assert Synced(a) ==> Find(r.characters, characterName) == Some(c) by {
        if Synced(a) {
          AppendNewDistinct(CharacterNames(a.characters), [characterName]);
          FindListed(r.characters, |a.characters|);
        }
      }
      assert Synced(a) ==> forall x :: x != characterName ==> Find(r.characters, x) == Find(a.characters, x) by {
        if Synced(a) {
          forall x | x != characterName ensures Find(r.characters, x) == Find(a.characters, x) {
            FindAppend(a.characters, c, x);
          }
        }
      }
      r
  }

  /** Finding in a list with one more character at the end. */
  lemma {:induction false} FindAppend(cs: seq<Character>, c: Character, x: string)
    ensures Find(cs + [c], x) == if Find(cs, x).Some? then Find(cs, x) else if c.name == x then Some(c) else None
    decreases |cs|
  {
    if cs != [] {
      assert (cs + [c])[1..] == cs[1..] + [c];
      FindAppend(cs[1..], c, x);
    }
  }

  /** Replaces every listed character named like `c` by `c`. */
  function Replace(cs: seq<Character>, c: Character): (r: seq<Character>)
    ensures |r| == |cs| && CharacterNames(r) == CharacterNames(cs)
    ensures Find(r, c.name) == if c.name in CharacterNames(cs) then Some(c) else None
    ensures forall x :: x != c.name ==> Find(r, x) == Find(cs, x)
  {
    if cs == [] then []
    else
      var rest := Replace(cs[1..], c);
      var r := [if cs[0].name == c.name then c else cs[0]] + rest;
      assert CharacterNames(r) == [cs[0].name] + CharacterNames(rest);
      assert CharacterNames(cs) == [cs[0].name] + CharacterNames(cs[1..]);
      assert r[1..] == rest;
      r
  }

  /** `c` may replace the listed character of its name: same account, distinct holding keys. */
  predicate Fits(a: Account, c: Character) {
    c.name in CharacterNames(a.characters) && c.accountName == a.name && Distinct(Keys(c.fcDict))
  }

  /**
   * Writing an updated character back: Python mutates the one object that
   * both the list and the index hold; here both get the new value.
   */
  function Put(a: Account, c: Character): (r: Account)
    ensures r.name == a.name
    ensures CharacterNames(r.characters) == CharacterNames(a.characters)
    ensures Find(r.characters, c.name) == if c.name in CharacterNames(a.characters) then Some(c) else None
    ensures forall x :: x != c.name ==> Find(r.characters, x) == Find(a.characters, x)
    ensures Synced(a) && Fits(a, c) ==> Synced(r)
  {
    var r := a.(characters := Replace(a.characters, c), characterIndex := a.characterIndex[c.name := c]);
    assert Synced(a) && Fits(a, c) ==> Synced(r) by {
      if Synced(a) && Fits(a, c) {
        forall i | 0 <= i < |r.characters|
          ensures r.characters[i].name in r.characterIndex && r.characterIndex[r.characters[i].name] == r.characters[i]
          ensures r.characters[i].accountName == r.name && Distinct(Keys(r.characters[i].fcDict))
        {
          assert r.characters[i].name == CharacterNames(r.characters)[i];
          FindListed(r.characters, i);
          FindListed(a.characters, i);
          assert a.characters[i].name == CharacterNames(a.characters)[i];
        }
      }
    }
    r
  }

  /** If the index maps a listed name to the character, so does the list. */
  lemma SyncedFind(a: Account, name: string)
    requires Synced(a) && name in a.characterIndex
    ensures Find(a.characters, name) == Some(a.characterIndex[name])
  {
    var cs := a.characters;
    var i :| 0 <= i < |cs| && CharacterNames(cs)[i] == name;
    FindListed(cs, i);
  }

  /** Sum of the characters' totals, in list order. */
  function SumFc(cs: seq<Character>): int
    decreases |cs|
  {
    if cs == [] then 0 else SumFc(cs[..|cs| - 1]) + TotalFc(cs[|cs| - 1])
  }

  /** `Account.fc`. */
  function Fc(a: Account): int {
    SumFc(a.characters)
  }

  /** The per-holding amounts of all characters, accumulated in list order. */
  function ByHolding(cs: seq<Character>): FcDict
    decreases |cs|
  {
    if cs == [] then [] else AddAll(ByHolding(cs[..|cs| - 1]), cs[|cs| - 1].fcDict)
  }

  /** `Account.fc_by_holding`. */
  function FcByHolding(a: Account): FcDict {
    ByHolding(a.characters)
  }

  /** The characters' amounts for one holding, summed. */
  function HoldingSum(cs: seq<Character>, holding: string): int
    decreases |cs|
  {
    if cs == [] then 0 else HoldingSum(cs[..|cs| - 1], holding) + Get(cs[|cs| - 1].fcDict, holding)
  }

  /** Each holding of `fc_by_holding` is the sum of that holding over the characters. */
  lemma {:induction false} FcByHoldingIsPerHoldingSum(cs: seq<Character>, holding: string)
    requires forall i :: 0 <= i < |cs| ==> Distinct(Keys(cs[i].fcDict))
    ensures Get(ByHolding(cs), holding) == HoldingSum(cs, holding)
    decreases |cs|
  {
    if cs != [] {
      var init := cs[..|cs| - 1];
      FcByHoldingIsPerHoldingSum(init, holding);
      GetAddAll(ByHolding(init), cs[|cs| - 1].fcDict, holding);
    }
  }

  /** The per-holding totals add up to the account's contribution. */
  lemma {:induction false} FcByHoldingAddsUpToFc(cs: seq<Character>)
    ensures Total(ByHolding(cs)) == SumFc(cs)
    decreases |cs|
  {
    if cs != [] {
      var init := cs[..|cs| - 1];
      FcByHoldingAddsUpToFc(init);
      TotalAddAll(ByHolding(init), cs[|cs| - 1].fcDict);
    }
  }

  /** `Account.rank`: the policy is the rank of the first character in list order. */
  function Rank(a: Account): string
    requires |a.characters| > 0
  {
    a.characters[0].rank
  }

  /** `x` is at least as recent as `y`; a missing timestamp is older than every real one. */
  predicate NotOlder(x: Option<Timestamp>, y: Option<Timestamp>) {
    y.None? || (x.Some? && x.value >= y.value)
  }

  function LogoutTimes(cs: seq<Character>): seq<Option<Timestamp>> {
    seq(|cs|, i requires 0 <= i < |cs| => cs[i].lastLoggedOut)
  }

  /** The most recent logout of the list, None only if no character has one. */
  function MostRecent(cs: seq<Character>): (r: Option<Timestamp>)
    requires |cs| > 0
    ensures r in LogoutTimes(cs)
    ensures forall i :: 0 <= i < |cs| ==> NotOlder(r, cs[i].lastLoggedOut)
    decreases |cs|
  {
    if |cs| == 1 then
      assert LogoutTimes(cs)[0] == cs[0].lastLoggedOut;
      cs[0].lastLoggedOut
    else
      var init := cs[..|cs| - 1];
      var m := MostRecent(init);
      var t := cs[|cs| - 1].lastLoggedOut;
      assert forall i :: 0 <= i < |init| ==> LogoutTimes(init)[i] == LogoutTimes(cs)[i];
      assert LogoutTimes(cs)[|cs| - 1] == t;
      if NotOlder(m, t) then m else t
  }

  /**
   * `Account.last_logged_out` as intended: the most recent logout of any
   * character, a missing one counting as older than any real time. The
   * source's code differs for logouts before the 1999 stand-in; see
   * LastLoggedOutAsWritten.
   */
  function LastLoggedOut(a: Account): (r: Option<Timestamp>)
    requires |a.characters| > 0
    ensures r in LogoutTimes(a.characters)
    ensures forall i :: 0 <= i < |a.characters| ==> NotOlder(r, a.characters[i].lastLoggedOut)
    ensures r.None? <==> forall i :: 0 <= i < |a.characters| ==> a.characters[i].lastLoggedOut.None?
  {
    MostRecent(a.characters)
  }

  /** The key the source sorts characters by: a missing logout becomes the 1999 stand-in. */
  function SortKey(t: Option<Timestamp>): Timestamp {
    if t.Some? then t.value else Sentinel
  }

  /** The position of the first character with the greatest key (what a stable descending sort puts first). */
  function FirstMaxKey(cs: seq<Character>): (k: nat)
    requires |cs| > 0
    ensures k < |cs|
    ensures forall i :: 0 <= i < |cs| ==> SortKey(cs[i].lastLoggedOut) <= SortKey(cs[k].lastLoggedOut)
    ensures forall i :: 0 <= i < k ==> SortKey(cs[i].lastLoggedOut) < SortKey(cs[k].lastLoggedOut)
    decreases |cs|
  {
    if |cs| == 1 then 0
    else
      var j := 1 + FirstMaxKey(cs[1..]);
      if SortKey(cs[0].lastLoggedOut) >= SortKey(cs[j].lastLoggedOut) then 0 else j
  }

  /**
   * `Account.last_logged_out` as the source computes it: the logout of the
   * first character after a stable descending sort by SortKey.
   */
  function LastLoggedOutAsWritten(a: Account): (r: Option<Timestamp>)
    requires |a.characters| > 0
    ensures r in LogoutTimes(a.characters)
    ensures forall i :: 0 <= i < |a.characters| ==> SortKey(a.characters[i].lastLoggedOut) <= SortKey(r)
    ensures exists k :: 0 <= k < |a.characters| && a.characters[k].lastLoggedOut == r &&
               (forall i :: 0 <= i < k ==> SortKey(a.characters[i].lastLoggedOut) < SortKey(r))
  {
    var k := FirstMaxKey(a.characters);
    assert LogoutTimes(a.characters)[k] == a.characters[k].lastLoggedOut;
    a.characters[k].lastLoggedOut
  }

  /** The 1999 stand-in hides no logout: all are known, or every known one is later. */
  predicate StandInHarmless(a: Account) {
    || (forall i :: 0 <= i < |a.characters| ==> a.characters[i].lastLoggedOut.Some?)
    || (forall i :: 0 <= i < |a.characters| && a.characters[i].lastLoggedOut.Some? ==>
          a.characters[i].lastLoggedOut.value > Sentinel)
  }

  /** The two agree whenever the stand-in hides no logout. */
  lemma AsWrittenAgreesAfterSentinel(a: Account)
    requires |a.characters| > 0 && StandInHarmless(a)
    ensures LastLoggedOutAsWritten(a) == LastLoggedOut(a)
  {
    var cs := a.characters;
    var w, r := LastLoggedOutAsWritten(a), LastLoggedOut(a);
    var j :| 0 <= j < |cs| && LogoutTimes(cs)[j] == r;
    var k :| 0 <= k < |cs| && LogoutTimes(cs)[k] == w;
    assert NotOlder(r, w) by { assert cs[k].lastLoggedOut == w; }
    assert NotOlder(w, r) by {
      assert cs[j].lastLoggedOut == r;
      assert cs[k].lastLoggedOut == w;
      assert SortKey(r) <= SortKey(w);
    }
  }

  /**
   * A character that logged out on 1998-07-09 16:00 UTC loses to one that never logged out:
   * the source reports no logout at all for the account.
   */
  lemma SentinelHidesEarlyLogout(a: Account)
    requires a.characters == [Character("Kirk", a.name, [], Some(63035596800), ""),
                              Character("Spock", a.name, [], None, "")]
    ensures LastLoggedOutAsWritten(a) == None
    ensures LastLoggedOut(a) == Some(63035596800)
  {
    assert FirstMaxKey(a.characters[1..]) == 0;
  }
}
