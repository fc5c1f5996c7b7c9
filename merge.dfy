/**
 * The grand-fleet merge: accounts of several fleets united by name, in the
 * order fleets and then accounts come. A character whose name the target
 * account already indexes is filed in the index only, under
 * "name|fleet", and never listed; any other character is listed and indexed.
 */
module GrandFleetMerge {
  import opened Wrappers
  import opened FirstSeen
  import opened Entities
  import opened Roster

  /** What the merge reads of a source fleet: its name and its accounts. */
  datatype FleetView = FleetView(name: string, accounts: seq<Account>)

  /** The index key a colliding character is filed under: `name + "|" + fleet`. */
  function CollisionKey(characterName: string, fleetName: string): (k: string)
    ensures '|' in k && characterName <= k
  {
    var k := characterName + "|" + fleetName;
    assert k[|characterName|] == '|';
    assert k[..|characterName|] == characterName;
    k
  }

  /**
   * The account's index agrees with its list on every key without a bar,
   * maps each listed name to its character, listed names are distinct, and
   * no listed name has a bar. Accounts
   * loaded from records with bar-free names are Clean, and so are merged
   * ones; the only extra keys are collision keys.
   */
  ghost predicate Clean(a: Account) {
    && Distinct(CharacterNames(a.characters))
    && (forall k :: '|' !in k ==> (k in a.characterIndex <==> k in CharacterNames(a.characters)))
    && (forall i :: 0 <= i < |a.characters| ==>
          && '|' !in a.characters[i].name
          && a.characters[i].name in a.characterIndex
          && a.characterIndex[a.characters[i].name] == a.characters[i])
  }

  /** List-level view of one merge step: a character is kept unless its name is listed. */
  function AddNewCharacter(cs: seq<Character>, c: Character): (r: seq<Character>)
    ensures CharacterNames(r) == AddNew(CharacterNames(cs), c.name)
  {
    if c.name in CharacterNames(cs) then cs
    else
      assert CharacterNames(cs + [c]) == CharacterNames(cs) + [c.name];
      cs + [c]
  }

  /** `cs` after `xs`, keeping only the first character of each name, in order. */
  function KeepNew(xs: seq<Character>, cs: seq<Character>): (r: seq<Character>)
    ensures xs <= r
    ensures forall c :: c in r ==> c in xs || c in cs
    decreases |cs|
  {
    if cs == [] then xs else AddNewCharacter(KeepNew(xs, cs[..|cs| - 1]), cs[|cs| - 1])
  }

  /** The names KeepNew keeps are the first-seen names. */
  lemma {:induction false} KeepNewNames(xs: seq<Character>, cs: seq<Character>)
    ensures CharacterNames(KeepNew(xs, cs)) == AppendNew(CharacterNames(xs), CharacterNames(cs))
    decreases |cs|
  {
    if cs != [] {
      var init := cs[..|cs| - 1];
      KeepNewNames(xs, init);
      var ns := CharacterNames(cs);
      assert ns[..|ns| - 1] == CharacterNames(init);
    }
  }

  /** Keeping new characters over two lists in a row is keeping them over the concatenation. */
  lemma {:induction false} KeepNewConcat(xs: seq<Character>, ys: seq<Character>, zs: seq<Character>)
    ensures KeepNew(xs, ys + zs) == KeepNew(KeepNew(xs, ys), zs)
    decreases |zs|
  {
    if zs == [] {
      assert ys + zs == ys;
    } else {
      var init := zs[..|zs| - 1];
      KeepNewConcat(xs, ys, init);
      assert (ys + zs)[..|ys + zs| - 1] == ys + init;
      assert (ys + zs)[|ys + zs| - 1] == zs[|zs| - 1];
    }
  }

  /** A list whose names are already distinct is kept whole. */
  lemma {:induction false} KeepNewOfDistinct(cs: seq<Character>)
    requires Distinct(CharacterNames(cs))
    ensures KeepNew([], cs) == cs
    decreases |cs|
  {
    if cs != [] {
      var init := cs[..|cs| - 1];
      var ns := CharacterNames(cs);
      assert CharacterNames(init) == ns[..|ns| - 1];
      KeepNewOfDistinct(init);
      assert cs[|cs| - 1].name == ns[|ns| - 1];
      assert cs == init + [cs[|cs| - 1]];
    }
  }

  /**
   * One character of a source account into the target account. Only the
   * index is consulted: a name it holds is a collision, filed under the
   * collision key without touching the list.
   */
  function MergeCharacter(target: Account, c: Character, fleetName: string): (r: Account)
    ensures r.name == target.name
    ensures target.characters <= r.characters
    ensures c.name in r.characterIndex && r.characterIndex.Keys >= target.characterIndex.Keys
    ensures c.name in target.characterIndex ==>
      r.characters == target.characters && r.characterIndex == target.characterIndex[CollisionKey(c.name, fleetName) := c]
    ensures c.name !in target.characterIndex ==>
      r.characters == target.characters + [c] && r.characterIndex == target.characterIndex[c.name := c]
    ensures Fc(r) == Fc(target) + if c.name in target.characterIndex then 0 else TotalFc(c)
    ensures Clean(target) && '|' !in c.name ==> Clean(r) && r.characters == AddNewCharacter(target.characters, c)
  {
    MergeCharacterSpec(target, c, fleetName);
    Merged(target, c, fleetName)
  }

  /** The merge step itself, without its contract. */
  function Merged(target: Account, c: Character, fleetName: string): Account {
    if c.name in target.characterIndex then
      target.(characterIndex := target.characterIndex[CollisionKey(c.name, fleetName) := c])
    else
      target.(characters := target.characters + [c], characterIndex := target.characterIndex[c.name := c])
  }

  /** The contract of MergeCharacter, one branch at a time. */
  lemma MergeCharacterSpec(target: Account, c: Character, fleetName: string)
    ensures var r := Merged(target, c, fleetName);
      && r.name == target.name
      && target.characters <= r.characters
      && c.name in r.characterIndex && r.characterIndex.Keys >= target.characterIndex.Keys
      && (c.name in target.characterIndex ==>
            r.characters == target.characters && r.characterIndex == target.characterIndex[CollisionKey(c.name, fleetName) := c])
      && (c.name !in target.characterIndex ==>
            r.characters == target.characters + [c] && r.characterIndex == target.characterIndex[c.name := c])
      && Fc(r) == Fc(target) + (if c.name in target.characterIndex then 0 else TotalFc(c))
      && (Clean(target) && '|' !in c.name ==> Clean(r) && r.characters == AddNewCharacter(target.characters, c))
  {
    var r := Merged(target, c, fleetName);
    if c.name in target.characterIndex {
      if Clean(target) {
        CollisionKeepsClean(target, c, fleetName);
      }
    } else {
      assert r.characters[..|target.characters|] == target.characters;
      if Clean(target) && '|' !in c.name {
        AppendKeepsClean(target, c);
      }
    }
  }

  /** Filing a character under a collision key keeps a Clean account Clean. */
  lemma CollisionKeepsClean(target: Account, c: Character, fleetName: string)
    requires Clean(target)
    ensures Clean(target.(characterIndex := target.characterIndex[CollisionKey(c.name, fleetName) := c]))
  {
    var k := CollisionKey(c.name, fleetName);
    forall i | 0 <= i < |target.characters| ensures target.characters[i].name != k {
      assert '|' in k && '|' !in target.characters[i].name;
    }
  }

  /** Listing and indexing a character of a new, bar-free name keeps a Clean account Clean. */
  lemma AppendKeepsClean(target: Account, c: Character)
    requires Clean(target) && c.name !in target.characterIndex && '|' !in c.name
    ensures Clean(target.(characters := target.characters + [c], characterIndex := target.characterIndex[c.name := c]))
    ensures target.characters + [c] == AddNewCharacter(target.characters, c)
  {
    var r := target.(characters := target.characters + [c], characterIndex := target.characterIndex[c.name := c]);
    var names := CharacterNames(target.characters);
    assert CharacterNames(r.characters) == names + [c.name];
    assert c.name !in names;
    AppendNewDistinct(names, [c.name]);
    assert [c.name][..0] == [];
    forall i | 0 <= i < |target.characters| ensures r.characters[i] == target.characters[i] && target.characters[i].name != c.name {
      assert names[i] == target.characters[i].name;
    }
  }

  /** All characters of one source account into the target, in list order. */
  function MergeCharacters(target: Account, cs: seq<Character>, fleetName: string): (r: Account)
    ensures r.name == target.name
    decreases |cs|
  {
    if cs == [] then target else MergeCharacter(MergeCharacters(target, cs[..|cs| - 1], fleetName), cs[|cs| - 1], fleetName)
  }

  /** On a Clean target with bar-free names the index test is the list test: the first of each name is kept. */
  lemma {:induction false} MergeCharactersKeepsFirst(target: Account, cs: seq<Character>, fleetName: string)
    requires Clean(target)
    requires forall i :: 0 <= i < |cs| ==> '|' !in cs[i].name
    ensures Clean(MergeCharacters(target, cs, fleetName))
    ensures MergeCharacters(target, cs, fleetName).characters == KeepNew(target.characters, cs)
    decreases |cs|
  {
    if cs != [] {
      MergeCharactersKeepsFirst(target, cs[..|cs| - 1], fleetName);
    }
  }

  /** A source account together with the name of its fleet. */
  type Entry = (string, Account)

  /** The accounts of one fleet, tagged with the fleet's name. */
  function Tagged(f: FleetView): (es: seq<Entry>)
    ensures |es| == |f.accounts|
    ensures forall j :: 0 <= j < |es| ==> es[j] == (f.name, f.accounts[j])
  {
    seq(|f.accounts|, j requires 0 <= j < |f.accounts| => (f.name, f.accounts[j]))
  }

  /** The accounts of all fleets, fleets then accounts in order. */
  function Entries(fs: seq<FleetView>): seq<Entry>
    decreases |fs|
  {
    if fs == [] then [] else Entries(fs[..|fs| - 1]) + Tagged(fs[|fs| - 1])
  }

  /** One source account into the merged list: merged into the account of its name, or appended as a copy. */
  function MergeAccount(accs: seq<Account>, e: Entry): seq<Account> {
    var (fleetName, a) := e;
    match FindAccount(accs, a.name)
    case Some(target) => ReplaceAccount(accs, MergeCharacters(target, a.characters, fleetName))
    case None => accs + [a]
  }

  /** Merging source accounts one after the other. */
  function MergeEntries(accs: seq<Account>, es: seq<Entry>): seq<Account>
    decreases |es|
  {
    if es == [] then accs else MergeAccount(MergeEntries(accs, es[..|es| - 1]), es[|es| - 1])
  }

  /** Merging two runs of source accounts one after the other. */
  lemma {:induction false} MergeEntriesConcat(accs: seq<Account>, es: seq<Entry>, more: seq<Entry>)
    ensures MergeEntries(accs, es + more) == MergeEntries(MergeEntries(accs, es), more)
    decreases |more|
  {
    if more == [] {
      assert es + more == es;
    } else {
      var init := more[..|more| - 1];
      MergeEntriesConcat(accs, es, init);
      assert (es + more)[..|es + more| - 1] == es + init;
    }
  }

  /** The accounts of `GrandFleet(name, fleets)`. */
  function MergeAll(fs: seq<FleetView>): seq<Account> {
    MergeEntries([], Entries(fs))
  }

  /** The account names of the source accounts, in order. */
  function EntryNames(es: seq<Entry>): seq<string>
    decreases |es|
  {
    if es == [] then [] else EntryNames(es[..|es| - 1]) + [es[|es| - 1].1.name]
  }

  /** The characters of all source accounts named `accountName`, in order. */
  function Sources(es: seq<Entry>, accountName: string): seq<Character>
    decreases |es|
  {
    if es == [] then []
    else Sources(es[..|es| - 1], accountName) + if es[|es| - 1].1.name == accountName then es[|es| - 1].1.characters else []
  }

  /** The summed contributions of all source accounts named `accountName`. */
  function SourcesFc(es: seq<Entry>, accountName: string): int
    decreases |es|
  {
    if es == [] then 0
    else SourcesFc(es[..|es| - 1], accountName) + if es[|es| - 1].1.name == accountName then Fc(es[|es| - 1].1) else 0
  }

  /** The listed characters of the account with this name ([] for none). */
  function CharactersOf(accs: seq<Account>, accountName: string): seq<Character> {
    match FindAccount(accs, accountName)
    case None => []
    case Some(a) => a.characters
  }

  /** Every source account is Clean. */
  ghost predicate Mergeable(es: seq<Entry>) {
    forall i :: 0 <= i < |es| ==> Clean(es[i].1)
  }

  /** Distinct account names, every account Clean. */
  ghost predicate MergedValid(accs: seq<Account>) {
    Distinct(AccountNames(accs)) && forall i :: 0 <= i < |accs| ==> Clean(accs[i])
  }

  /** One source account adds its name if it is new; names stay distinct. */
  lemma MergeAccountNames(accs: seq<Account>, e: Entry)
    requires Distinct(AccountNames(accs))
    ensures Distinct(AccountNames(MergeAccount(accs, e)))
    ensures AccountNames(MergeAccount(accs, e)) == AddNew(AccountNames(accs), e.1.name)
  {
    var r := MergeAccount(accs, e);
    if e.1.name !in AccountNames(accs) {
      assert AccountNames(r) == AccountNames(accs) + [e.1.name];
      AppendNewDistinct(AccountNames(accs), [e.1.name]);
    }
  }

  /** One Clean source account keeps every merged account Clean. */
  lemma MergeAccountStructure(accs: seq<Account>, e: Entry)
    requires MergedValid(accs) && Clean(e.1)
    ensures MergedValid(MergeAccount(accs, e))
  {
    var (fleetName, a) := e;
    var r := MergeAccount(accs, e);
    MergeAccountNames(accs, e);
    if a.name in AccountNames(accs) {
      var target := FindAccount(accs, a.name).value;
      MergeCharactersKeepsFirst(target, a.characters, fleetName);
      var m := MergeCharacters(target, a.characters, fleetName);
      forall i | 0 <= i < |r| ensures Clean(r[i]) {
        if accs[i].name != a.name {
          assert r[i] == accs[i];
        } else {
          assert r[i] == m;
        }
      }
    } else {
      assert r == accs + [a];
    }
  }

  /** What one source account does to the characters of each merged account. */
  lemma MergeAccountCharacters(accs: seq<Account>, e: Entry, x: string)
    requires MergedValid(accs) && Clean(e.1)
    ensures CharactersOf(MergeAccount(accs, e), x) ==
      if x == e.1.name then KeepNew(CharactersOf(accs, x), e.1.characters) else CharactersOf(accs, x)
  {
    var (fleetName, a) := e;
    if a.name in AccountNames(accs) {
      var target := FindAccount(accs, a.name).value;
      MergeCharactersKeepsFirst(target, a.characters, fleetName);
    } else {
      FindAccountAppend(accs, a, x);
      if x == a.name {
        KeepNewOfDistinct(a.characters);
      }
    }
  }

  /**
   * The merged account names are the source account names, each once, in
   * first-seen order over fleets and then accounts.
   */
  lemma {:induction false} MergeEntriesNames(accs: seq<Account>, es: seq<Entry>)
    requires Distinct(AccountNames(accs))
    ensures Distinct(AccountNames(MergeEntries(accs, es)))
    ensures AccountNames(MergeEntries(accs, es)) == AppendNew(AccountNames(accs), EntryNames(es))
    decreases |es|
  {
    if es != [] {
      var init := es[..|es| - 1];
      MergeEntriesNames(accs, init);
      MergeAccountNames(MergeEntries(accs, init), es[|es| - 1]);
      var ns := EntryNames(es);
      assert ns[..|ns| - 1] == EntryNames(init);
    }
  }

  /** Merging Clean source accounts keeps every merged account Clean. */
  lemma {:induction false} MergeEntriesValid(accs: seq<Account>, es: seq<Entry>)
    requires MergedValid(accs) && Mergeable(es)
    ensures MergedValid(MergeEntries(accs, es))
    decreases |es|
  {
    if es != [] {
      var init := es[..|es| - 1];
      assert Mergeable(init) by {
        forall i | 0 <= i < |init| ensures Clean(init[i].1) {
          assert init[i] == es[i];
        }
      }
      MergeEntriesValid(accs, init);
      MergeAccountStructure(MergeEntries(accs, init), es[|es| - 1]);
    }
  }

  /**
   * Each merged account lists the first character of every name over all
   * source accounts of its name, in order; no other character.
   */
  lemma {:induction false} MergeEntriesCharacters(accs: seq<Account>, es: seq<Entry>, x: string)
    requires MergedValid(accs) && Mergeable(es)
    ensures CharactersOf(MergeEntries(accs, es), x) == KeepNew(CharactersOf(accs, x), Sources(es, x))
    decreases |es|
  {
    if es != [] {
      var init := es[..|es| - 1];
      var e := es[|es| - 1];
      assert Mergeable(init) by {
        forall i | 0 <= i < |init| ensures Clean(init[i].1) {
          assert init[i] == es[i];
        }
      }
      MergeEntriesCharacters(accs, init, x);
      MergeEntriesValid(accs, init);
      var prev := MergeEntries(accs, init);
      assert MergeEntries(accs, es) == MergeAccount(prev, e);
      MergeAccountCharacters(prev, e, x);
      if e.1.name == x {
        assert Sources(es, x) == Sources(init, x) + e.1.characters;
        KeepNewConcat(CharactersOf(accs, x), Sources(init, x), e.1.characters);
      } else {
        assert Sources(es, x) == Sources(init, x) + [];
        assert Sources(init, x) + [] == Sources(init, x);
      }
    }
  }

  /**
   * Whatever the source fleets hold, the grand fleet has one account per
   * source account name, in first-seen order over fleets and then accounts.
   */
  lemma MergeAllNames(fs: seq<FleetView>)
    ensures Distinct(AccountNames(MergeAll(fs)))
    ensures AccountNames(MergeAll(fs)) == AppendNew([], EntryNames(Entries(fs)))
  {
    assert AccountNames([]) == [];
    MergeEntriesNames([], Entries(fs));
  }

  /** The grand fleet's account names and characters, as functions of the source fleets. */
  lemma MergeAllSpec(fs: seq<FleetView>, x: string)
    requires Mergeable(Entries(fs))
    ensures MergedValid(MergeAll(fs))
    ensures AccountNames(MergeAll(fs)) == AppendNew([], EntryNames(Entries(fs)))
    ensures CharactersOf(MergeAll(fs), x) == KeepNew([], Sources(Entries(fs), x))
    ensures CharacterNames(CharactersOf(MergeAll(fs), x)) == AppendNew([], CharacterNames(Sources(Entries(fs), x)))
  {
    MergeAllNames(fs);
    MergeEntriesValid([], Entries(fs));
    MergeEntriesCharacters([], Entries(fs), x);
    assert CharactersOf([], x) == [];
    assert CharacterNames([]) == [];
    KeepNewNames([], Sources(Entries(fs), x));
  }

  /** Sum of contributions over a concatenation. */
  lemma {:induction false} SumFcConcat(xs: seq<Character>, ys: seq<Character>)
    ensures SumFc(xs + ys) == SumFc(xs) + SumFc(ys)
    decreases |ys|
  {
    if ys == [] {
      assert xs + ys == xs;
    } else {
      var init := ys[..|ys| - 1];
      SumFcConcat(xs, init);
      assert (xs + ys)[..|xs + ys| - 1] == xs + init;
    }
  }

  /** The source characters' contributions are the source accounts' contributions. */
  lemma {:induction false} SourcesSumFc(es: seq<Entry>, x: string)
    ensures SumFc(Sources(es, x)) == SourcesFc(es, x)
    decreases |es|
  {
    if es != [] {
      var init := es[..|es| - 1];
      var e := es[|es| - 1];
      SourcesSumFc(init, x);
      SumFcConcat(Sources(init, x), if e.1.name == x then e.1.characters else []);
    }
  }

  /**
   * Without a colliding character name, a grand-fleet account's contribution
   * is the sum of its source accounts' contributions.
   */
  lemma MergeKeepsFcWithoutCollisions(fs: seq<FleetView>, x: string)
    requires Mergeable(Entries(fs))
    requires Distinct(CharacterNames(Sources(Entries(fs), x)))
    ensures SumFc(CharactersOf(MergeAll(fs), x)) == SourcesFc(Entries(fs), x)
  {
    MergeAllSpec(fs, x);
    KeepNewOfDistinct(Sources(Entries(fs), x));
    SourcesSumFc(Entries(fs), x);
  }
}
