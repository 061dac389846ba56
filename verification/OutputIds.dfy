/** The table of transaction ids that an address holds outputs of. */
module OutputIds {
  import opened Bytes
  import opened UtHash
  import opened Balances

  const TX_ID_BYTES: nat := 32

  type TxId = i: seq<byte> | |i| == TX_ID_BYTES witness Zeros(TX_ID_BYTES)

  // inclusion_state_t
  datatype InclusionState = InclusionState(
    solid: bool, confirmed: bool, rejected: bool, liked: bool, conflicting: bool, finalized: bool, preferred: bool)

  datatype Output = Output(balances: Holding, st: InclusionState)

  // output_ids_t
  type Ids = Table<TxId, Output>

  ghost predicate UniqueIds(t: Ids) {
    Unique(t) && forall i :: 0 <= i < |t| ==> Unique(t[i].val.balances)
  }

  // What one output contributes: nothing until it is confirmed.
  function Worth(o: Output, f: Filter): int {
    if o.st.confirmed then Sum(o.balances, f) else 0
  }

  function Confirmed(t: Ids, f: Filter): int {
    if t == [] then 0 else Confirmed(t[..|t| - 1], f) + Worth(t[|t| - 1].val, f)
  }

  lemma {:induction false} ConfirmedNext(t: Ids, f: Filter, i: nat)
    requires i < |t|
    ensures Confirmed(t[..i + 1], f) == Confirmed(t[..i], f) + Worth(t[i].val, f)
  {
    assert t[..i + 1][..i] == t[..i];
  }

  lemma {:induction false} ConfirmedConcat(a: Ids, b: Ids, f: Filter)
    ensures Confirmed(a + b, f) == Confirmed(a, f) + Confirmed(b, f)
  {
    if b == [] {
      assert a + b == a;
    } else {
      ConfirmedConcat(a, b[..|b| - 1], f);
      assert (a + b)[..|a + b| - 1] == a + b[..|b| - 1];
    }
  }

  class OutputTable {
    var entries: Ids

    constructor (initial: Ids)
      ensures entries == initial
    {
      entries := initial;
    }

    // The first output under an id stays; its balances are copied.
    method Add(id: TxId, balances: Holding, st: InclusionState) returns (ret: int)
      requires Unique(balances)
      modifies this
      ensures entries == Insert(old(entries), id, Output(balances, st))
      ensures ret == 0
    {
      if Has(entries, id) {
        return 0;
      }
      var copy := Clone(balances);
      entries := entries + [Entry(id, Output(copy.entries, st))];
      ret := 0;
    }

    method AddAll(ids: Ids)
      requires UniqueIds(ids)
      modifies this
      ensures entries == InsertAll(old(entries), ids)
    {
      for i := 0 to |ids|
        invariant entries == InsertAll(old(entries), ids[..i])
      {
        InsertNext(old(entries), ids, i);
        var _ := Add(ids[i].key, ids[i].val.balances, ids[i].val.st);
      }
      assert ids[..|ids|] == ids;
    }
  }

  method IdsBalance(t: Ids) returns (sum: uint64)
    ensures sum == Wrap(Confirmed(t, All))
  {
    sum := 0;
    for i := 0 to |t|
      invariant sum == Wrap(Confirmed(t[..i], All))
    {
      ConfirmedNext(t, All, i);
      var e := t[i].val;
      if e.st.confirmed {
        var s := SumAll(e.balances);
        WrapSum(Confirmed(t[..i], All), Sum(e.balances, All));
        sum := Wrap(sum + s);
      }
    }
    assert t[..|t|] == t;
  }

  method IdsBalanceWithColor(t: Ids, color: Color) returns (sum: uint64)
    ensures sum == Wrap(Confirmed(t, Only(color)))
  {
    sum := 0;
    for i := 0 to |t|
      invariant sum == Wrap(Confirmed(t[..i], Only(color)))
    {
      ConfirmedNext(t, Only(color), i);
      var e := t[i].val;
      if e.st.confirmed {
        var s := SumWithColor(e.balances, color);
        WrapSum(Confirmed(t[..i], Only(color)), Sum(e.balances, Only(color)));
        sum := Wrap(sum + s);
      }
    }
    assert t[..|t|] == t;
  }

  method CloneIds(t: Ids) returns (dst: OutputTable)
    requires UniqueIds(t)
    ensures fresh(dst) && dst.entries == t
  {
    dst := new OutputTable([]);
    dst.AddAll(t);
    InsertIntoEmpty(t);
  }

  // ---------- decomposition by colour ----------

  function ConfirmedEach(t: Ids, cs: seq<Color>): int {
    if cs == [] then 0 else ConfirmedEach(t, cs[..|cs| - 1]) + Confirmed(t, Only(cs[|cs| - 1]))
  }

  function WorthEach(o: Output, cs: seq<Color>): int {
    if o.st.confirmed then SumEach(o.balances, cs) else 0
  }

  lemma {:induction false} ConfirmedEachEntry(t: Ids, cs: seq<Color>)
    requires t != []
    ensures ConfirmedEach(t, cs) == ConfirmedEach(t[..|t| - 1], cs) + WorthEach(t[|t| - 1].val, cs)
  {
    if cs != [] {
      ConfirmedEachEntry(t, cs[..|cs| - 1]);
    }
  }

  lemma {:induction false} ConfirmedEachOfNothing(cs: seq<Color>)
    ensures ConfirmedEach([], cs) == 0
  {
    if cs != [] {
      ConfirmedEachOfNothing(cs[..|cs| - 1]);
    }
  }

  ghost predicate Covers(cs: seq<Color>, t: Ids) {
    forall i, j :: 0 <= i < |t| && 0 <= j < |t[i].val.balances| ==> t[i].val.balances[j].key in cs
  }

  lemma {:induction false} ConfirmedByColor(t: Ids, cs: seq<Color>)
    requires Distinct(cs) && Covers(cs, t)
    ensures Confirmed(t, All) == ConfirmedEach(t, cs)
  {
    if t == [] {
      ConfirmedEachOfNothing(cs);
    } else {
      var s := t[..|t| - 1];
      assert forall i :: 0 <= i < |s| ==> s[i] == t[i];
      ConfirmedByColor(s, cs);
      ConfirmedEachEntry(t, cs);
      SumByColor(t[|t| - 1].val.balances, cs);
    }
  }
}
