/**
 * Insertion-ordered collections of names. Every list the roster keeps grows by
 * "append the name unless it is already there"; AppendNew folds that step over
 * a sequence of incoming names, in order.
 */
module FirstSeen {

  /** No name occurs twice. */
  predicate Distinct(xs: seq<string>) {
    forall i, j :: 0 <= i < j < |xs| ==> xs[i] != xs[j]
  }

  /** One get-or-create step: a name already present changes nothing. */
  function AddNew(xs: seq<string>, y: string): seq<string> {
    if y in xs then xs else xs + [y]
  }

  /** The names of `xs`, then every name of `ys` not seen before, in first-seen order. */
  function AppendNew(xs: seq<string>, ys: seq<string>): seq<string>
    decreases |ys|
  {
    if ys == [] then xs else AddNew(AppendNew(xs, ys[..|ys| - 1]), ys[|ys| - 1])
  }

  /** Existing names are never removed or reordered; the set of names is the union. */
  lemma {:induction false} AppendNewGrows(xs: seq<string>, ys: seq<string>)
    ensures xs <= AppendNew(xs, ys)
    ensures forall z :: z in AppendNew(xs, ys) <==> z in xs || z in ys
    decreases |ys|
  {
    if ys != [] {
      var init := ys[..|ys| - 1];
      AppendNewGrows(xs, init);
      assert ys == init + [ys[|ys| - 1]];
    }
  }

  /** Each name appears once if the existing names were distinct. */
  lemma {:induction false} AppendNewDistinct(xs: seq<string>, ys: seq<string>)
    requires Distinct(xs)
    ensures Distinct(AppendNew(xs, ys))
    decreases |ys|
  {
    if ys != [] {
      AppendNewDistinct(xs, ys[..|ys| - 1]);
    }
  }

  /** Incoming names that are all known already change nothing. */
  lemma {:induction false} AppendNewKnown(xs: seq<string>, ys: seq<string>)
    requires forall y :: y in ys ==> y in xs
    ensures AppendNew(xs, ys) == xs
    decreases |ys|
  {
    if ys != [] {
      var init := ys[..|ys| - 1];
      assert forall y :: y in init ==> y in ys;
      AppendNewKnown(xs, init);
      assert ys[|ys| - 1] in ys;
    }
  }

  /** Get-or-create is idempotent: replaying the same names changes nothing. */
  lemma AppendNewIdempotent(xs: seq<string>, ys: seq<string>)
    ensures AppendNew(AppendNew(xs, ys), ys) == AppendNew(xs, ys)
  {
    AppendNewGrows(xs, ys);
    AppendNewKnown(AppendNew(xs, ys), ys);
  }

  /** Starting from nothing, distinct names come out as they went in. */
  lemma {:induction false} AppendNewOfDistinct(ys: seq<string>)
    requires Distinct(ys)
    ensures AppendNew([], ys) == ys
    decreases |ys|
  {
    if ys != [] {
      var init := ys[..|ys| - 1];
      AppendNewOfDistinct(init);
      assert ys[|ys| - 1] !in init;
      assert init + [ys[|ys| - 1]] == ys;
    }
  }
}
