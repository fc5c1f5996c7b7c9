/**
 * A character's per-holding contributions: a `defaultdict(int)` keyed by
 * holding name, kept as an insertion-ordered list of (holding, amount) pairs
 * so that its sum is computable. A holding never seen reads as 0.
 */
module Holdings {
  import opened FirstSeen

  type FcDict = seq<(string, int)>

  function Keys(d: FcDict): seq<string> {
    seq(|d|, i requires 0 <= i < |d| => d[i].0)
  }

  /** `fc_dict[holding]`: the recorded amount, or 0 for a holding never seen. */
  function Get(d: FcDict, holding: string): int {
    if d == [] then 0 else if d[0].0 == holding then d[0].1 else Get(d[1..], holding)
  }

  /**
   * `fc_dict[holding] += amount`: adds to the holding's amount, creating the
   * key (at the end) when it is new; no other holding changes.
   */
  function Add(d: FcDict, holding: string, amount: int): (r: FcDict)
    ensures Get(r, holding) == Get(d, holding) + amount
    ensures forall h :: h != holding ==> Get(r, h) == Get(d, h)
    ensures Keys(r) == AddNew(Keys(d), holding)
  {
    AddedKeys(d, holding, amount);
    AddedGet(d, holding, amount, holding);
    assert forall h :: h != holding ==> Get(Added(d, holding, amount), h) == Get(d, h) by {
      forall h | h != holding ensures Get(Added(d, holding, amount), h) == Get(d, h) {
        AddedGet(d, holding, amount, h);
      }
    }
    Added(d, holding, amount)
  }

  /** The association-list update behind Add. */
  function Added(d: FcDict, holding: string, amount: int): FcDict
    decreases |d|
  {
    if d == [] then [(holding, amount)]
    else if d[0].0 == holding then [(holding, d[0].1 + amount)] + d[1..]
    else [d[0]] + Added(d[1..], holding, amount)
  }

  lemma {:induction false} AddedKeys(d: FcDict, holding: string, amount: int)
    ensures Keys(Added(d, holding, amount)) == AddNew(Keys(d), holding)
    decreases |d|
  {
    if d != [] {
      var r := Added(d, holding, amount);
      assert Keys(d) == [d[0].0] + Keys(d[1..]);
      if d[0].0 == holding {
        assert Keys(r) == Keys(d);
        assert Keys(d)[0] == holding;
      } else {
        var rest := Added(d[1..], holding, amount);
        AddedKeys(d[1..], holding, amount);
        assert Keys(r) == [d[0].0] + Keys(rest);
        assert holding in Keys(d) <==> holding in Keys(d[1..]);
      }
    }
  }

  lemma {:induction false} AddedGet(d: FcDict, holding: string, amount: int, h: string)
    ensures Get(Added(d, holding, amount), h) == Get(d, h) + if h == holding then amount else 0
    decreases |d|
  {
    if d != [] && d[0].0 != holding {
      assert Added(d, holding, amount)[1..] == Added(d[1..], holding, amount);
      AddedGet(d[1..], holding, amount, h);
    }
  }



  /** `sum(fc_dict.values())`. */
  function Total(d: FcDict): int {
    if d == [] then 0 else d[0].1 + Total(d[1..])
  }

  /** Adding an amount to one holding adds exactly that amount to the total. */
  lemma {:induction false} TotalAdd(d: FcDict, holding: string, amount: int)
    ensures Total(Add(d, holding, amount)) == Total(d) + amount
    decreases |d|
  {
    if d != [] && d[0].0 != holding {
      TotalAdd(d[1..], holding, amount);
      assert Added(d, holding, amount)[1..] == Added(d[1..], holding, amount);
    }
  }

  /** Adding every entry of `d` into `acc`, one `+=` at a time (the loop over `fc_dict.keys()`). */
  function AddAll(acc: FcDict, d: FcDict): FcDict
    decreases |d|
  {
    if d == [] then acc else AddAll(Add(acc, d[0].0, d[0].1), d[1..])
  }

  /** The accumulated dictionary's total is the sum of both totals. */
  lemma {:induction false} TotalAddAll(acc: FcDict, d: FcDict)
    ensures Total(AddAll(acc, d)) == Total(acc) + Total(d)
    decreases |d|
  {
    if d != [] {
      TotalAdd(acc, d[0].0, d[0].1);
      TotalAddAll(Add(acc, d[0].0, d[0].1), d[1..]);
    }
  }

  /** With distinct keys in `d`, each holding of the accumulated dictionary is the sum of both. */
  lemma {:induction false} GetAddAll(acc: FcDict, d: FcDict, holding: string)
    requires Distinct(Keys(d))
    ensures Get(AddAll(acc, d), holding) == Get(acc, holding) + Get(d, holding)
    decreases |d|
  {
    if d != [] {
      var rest := d[1..];
      assert Keys(rest) == Keys(d)[1..];
      assert d[0].0 == holding ==> Get(rest, holding) == 0 by {
        if d[0].0 == holding {
          assert Keys(d)[0] == holding;
          assert forall j :: 0 <= j < |Keys(rest)| ==> Keys(rest)[j] == Keys(d)[j + 1];
          GetAbsent(rest, holding);
        }
      }
      assert Distinct(Keys(rest));
      GetAddAll(Add(acc, d[0].0, d[0].1), rest, holding);
    }
  }

  /** A holding that is not a key reads as 0. */
  lemma {:induction false} GetAbsent(d: FcDict, holding: string)
    requires holding !in Keys(d)
    ensures Get(d, holding) == 0
    decreases |d|
  {
    if d != [] {
      assert Keys(d[1..]) == Keys(d)[1..];
      assert Keys(d)[0] == d[0].0;
      GetAbsent(d[1..], holding);
    }
  }
}
