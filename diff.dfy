/**
 * The contribution report diff: from two snapshots of the per-account
 * totals, the accounts whose total grew, by how much, largest gain first.
 */
module SnapshotDiff {
  import opened Sorting

  /** One report as read back: account name to total contribution. */
  type Snapshot = map<string, int>

  /** One output row: an account and its gain. */
  type Row = (string, int)

  function Amount(r: Row): int {
    r.1
  }

  function RowName(r: Row): string {
    r.0
  }

  /** The change of a later account; an account missing from the earlier report counts in full. */
  function Delta(earlier: Snapshot, later: Snapshot, name: string): int
    requires name in later
  {
    if name in earlier then later[name] - earlier[name] else later[name]
  }

  /** The accounts of the later report that gained, with their gains. */
  function Gains(earlier: Snapshot, later: Snapshot): map<string, int> {
    map name | name in later && Delta(earlier, later, name) > 0 :: Delta(earlier, later, name)
  }

  /**
   * A valid report: one row per gaining account and no other, each with its
   * gain, and gains never increase down the report.
   */
  ghost predicate Report(rows: seq<Row>, earlier: Snapshot, later: Snapshot) {
    && (forall name, gain :: (name, gain) in rows <==>
          name in later && gain == Delta(earlier, later, name) && gain > 0)
    && Unique(rows, RowName)
    && |rows| == |Gains(earlier, later)|
    && Descending(rows, Amount)
  }

  /**
   * The report of two snapshots. The later snapshot's names are visited in
   * an unspecified order (dictionary order), so rows of equal gain may come
   * in any order.
   */
  method Diff(earlier: Snapshot, later: Snapshot) returns (rows: seq<Row>)
    ensures Report(rows, earlier, later)
  {
    var gains := CollectGains(earlier, later);
    var items := GainRows(gains);
    rows := SortDesc(items, Amount);
    SortDescUnique(items, Amount, RowName);
    assert forall p :: p in rows <==> p in items by {
      forall p ensures p in rows <==> p in items {
        assert p in rows <==> p in multiset(rows);
      }
    }
    assert |rows| == |multiset(rows)| == |multiset(items)| == |items|;
  }

  /** The loop over the later snapshot's names that fills `fleet_diff`. */
  method CollectGains(earlier: Snapshot, later: Snapshot) returns (gains: map<string, int>)
    ensures gains == Gains(earlier, later)
  {
    var pending := later.Keys;
    gains := map[];
    while pending != {}
      invariant pending <= later.Keys
      invariant forall name :: name in gains <==> name in later && name !in pending && Delta(earlier, later, name) > 0
      invariant forall name :: name in gains ==> gains[name] == Delta(earlier, later, name)
      decreases pending
    {
      var name :| name in pending;
      var gain := if name in earlier then later[name] - earlier[name] else later[name];
      if gain > 0 {
        gains := gains[name := gain];
      }
      pending := pending - {name};
    }
  }

  /** `fleet_diff.items()`: one row per entry, in an unspecified order. */
  method GainRows(gains: map<string, int>) returns (items: seq<Row>)
    ensures forall name, gain :: (name, gain) in items <==> name in gains && gain == gains[name]
    ensures Unique(items, RowName)
    ensures |items| == |gains|
  {
    items := [];
    var left := gains.Keys;
    while left != {}
      invariant left <= gains.Keys
      invariant forall name, gain :: (name, gain) in items <==> name in gains && name !in left && gain == gains[name]
      invariant forall i :: 0 <= i < |items| ==> items[i].0 !in left
      invariant Unique(items, RowName)
      invariant |items| + |left| == |gains|
      decreases left
    {
      var name :| name in left;
      items := items + [(name, gains[name])];
      left := left - {name};
    }
  }


  /** A report against itself is empty: no account gains. */
  lemma GainsOfSameSnapshot(s: Snapshot)
    ensures Gains(s, s) == map[]
  {
    forall name | name in s ensures Delta(s, s, name) == 0 {
    }
  }

  /** Only one account moved, upwards by `k`: the report is that single row. */
  lemma SingleGain(rows: seq<Row>, earlier: Snapshot, name: string, k: int)
    requires name in earlier && k > 0
    requires Report(rows, earlier, earlier[name := earlier[name] + k])
    ensures rows == [(name, k)]
  {
    var later := earlier[name := earlier[name] + k];
    assert Gains(earlier, later) == map[name := k] by {
      forall n | n in later ensures (Delta(earlier, later, n) > 0) == (n == name) {
      }
    }
    assert |rows| == 1;
    assert (rows[0].0, rows[0].1) in rows;
  }

  /** The report of the worked example: a new account and a grown one, largest gain first. */
  lemma DiffExample(rows: seq<Row>, earlier: Snapshot, later: Snapshot)
    requires earlier == map["A" := 10, "B" := 5]
    requires later == map["A" := 12, "B" := 5, "C" := 7]
    requires Report(rows, earlier, later)
    ensures rows == [("C", 7), ("A", 2)]
  {
    assert Delta(earlier, later, "A") == 2;
    assert Delta(earlier, later, "B") == 0;
    assert Delta(earlier, later, "C") == 7;
    assert Gains(earlier, later) == map["A" := 2, "C" := 7] by {
      forall n | n in later ensures (Delta(earlier, later, n) > 0) == (n == "A" || n == "C") {
      }
    }
    assert ("A", 2) in rows && ("C", 7) in rows;
    assert |rows| == 2;
    assert (rows[0].0, rows[0].1) in rows && (rows[1].0, rows[1].1) in rows;
  }
}
