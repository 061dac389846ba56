/** The algebra of the ledger tables: what selection, marking, appending and
    cloning do to balances, and how a balance splits by colour. */
module LedgerLaws {
  import opened Bytes
  import opened UtHash
  import opened Address
  import opened Balances
  import opened OutputIds
  import opened UnspentOutputs

  // ---------- totals ----------

  lemma {:induction false} TotalConcat(a: Accounts, b: Accounts, f: Filter)
    ensures Total(a + b, f) == Total(a, f) + Total(b, f)
  {
    if b == [] {
      assert a + b == a;
    } else {
      TotalConcat(a, b[..|b| - 1], f);
      assert (a + b)[..|a + b| - 1] == a + b[..|b| - 1];
    }
  }

  lemma {:induction false} TotalUpdate(t: Accounts, i: nat, e: Entry<Addr, Account>, f: Filter)
    requires i < |t|
    ensures Total(t[i := e], f) == Total(t, f) - Share(t[i].val, f) + Share(e.val, f)
  {
    var u := t[i := e];
    assert t == t[..i + 1] + t[i + 1..] && u == u[..i + 1] + t[i + 1..];
    TotalConcat(t[..i + 1], t[i + 1..], f);
    TotalConcat(u[..i + 1], t[i + 1..], f);
    TotalNext(t, f, i);
    TotalNext(u, f, i);
    assert t[..i] == u[..i];
  }

  lemma {:induction false} TotalOfEligible(t: Accounts, f: Filter)
    ensures Total(Eligible(t), f) == Total(t, f)
  {
    if t != [] {
      var r, e := Eligible(t[..|t| - 1]), t[|t| - 1];
      TotalOfEligible(t[..|t| - 1], f);
      assert r + [] == r;
      assert (r + [e])[..|r|] == r;
    }
  }

  // What counts: a table with one coin is worth its value exactly when the
  // address is unspent, the output confirmed and the colour asked for.
  lemma {:induction false} OneCoinCounts(a: Addr, index: uint64, spent: bool, id: TxId, st: InclusionState,
                                         c: Color, v: int64, color: Color)
    ensures
      var t := [Entry(a, Account(index, spent, [Entry(id, Output([Entry(c, v)], st))]))];
      && Total(t, All) == (if !spent && st.confirmed then v else 0)
      && Total(t, Only(color)) == (if !spent && st.confirmed && c == color then v else 0)
  {
    var coins: Holding := [Entry(c, v)];
    var ids: Ids := [Entry(id, Output(coins, st))];
    var t: Accounts := [Entry(a, Account(index, spent, ids))];
    assert coins[..|coins| - 1] == [] && ids[..|ids| - 1] == [] && t[..|t| - 1] == [];
    OneOf(t, ids, coins, All);
    OneOf(t, ids, coins, Only(color));
  }

  lemma {:induction false} OneOf(t: Accounts, ids: Ids, coins: Holding, f: Filter)
    requires |t| == 1 && t[0].val.ids == ids && |ids| == 1 && ids[0].val.balances == coins && |coins| == 1
    ensures Total(t, f)
         == if !t[0].val.spent && ids[0].val.st.confirmed && Admits(f, coins[0].key) then coins[0].val else 0
  {
    assert coins[..|coins| - 1] == [] && ids[..|ids| - 1] == [] && t[..|t| - 1] == [];
    assert Total([], f) == 0 && Confirmed([], f) == 0 && Sum([], f) == 0;
    assert Confirmed(ids, f) == Confirmed([], f) + Worth(ids[0].val, f);
  }

  // And it all adds up, over coins, outputs and addresses: so a balance is the
  // sum over the coins that count.
  lemma {:induction false} BalanceAddsUp(a: Addr, index: uint64, spent: bool, id: TxId, st: InclusionState,
                                         coins: Holding, coins': Holding, ids: Ids, ids': Ids,
                                         t: Accounts, t': Accounts, f: Filter)
    ensures Total([], f) == 0 && Total(t + t', f) == Total(t, f) + Total(t', f)
    ensures Total([Entry(a, Account(index, spent, []))], f) == 0
    ensures Total([Entry(a, Account(index, spent, ids + ids'))], f)
         == Total([Entry(a, Account(index, spent, ids))], f) + Total([Entry(a, Account(index, spent, ids'))], f)
    ensures Total([Entry(a, Account(index, spent, [Entry(id, Output([], st))]))], f) == 0
    ensures Total([Entry(a, Account(index, spent, [Entry(id, Output(coins + coins', st))]))], f)
         == Total([Entry(a, Account(index, spent, [Entry(id, Output(coins, st))]))], f)
            + Total([Entry(a, Account(index, spent, [Entry(id, Output(coins', st))]))], f)
  {
    TotalConcat(t, t', f);
    ConfirmedConcat(ids, ids', f);
    SumConcat(coins, coins', f);
    OneAccount(a, Account(index, spent, []), f);
    OneAccount(a, Account(index, spent, ids), f);
    OneAccount(a, Account(index, spent, ids'), f);
    OneAccount(a, Account(index, spent, ids + ids'), f);
    OneOutputHeld(a, index, spent, id, Output([], st), f);
    OneOutputHeld(a, index, spent, id, Output(coins, st), f);
    OneOutputHeld(a, index, spent, id, Output(coins', st), f);
    OneOutputHeld(a, index, spent, id, Output(coins + coins', st), f);
  }

  lemma {:induction false} OneAccount(a: Addr, account: Account, f: Filter)
    ensures Total([Entry(a, account)], f) == if account.spent then 0 else Confirmed(account.ids, f)
  {
    var t: Accounts := [Entry(a, account)];
    assert t[..|t| - 1] == [];
  }

  lemma {:induction false} OneOutputHeld(a: Addr, index: uint64, spent: bool, id: TxId, o: Output, f: Filter)
    ensures Total([Entry(a, Account(index, spent, [Entry(id, o)]))], f)
         == if spent || !o.st.confirmed then 0 else Sum(o.balances, f)
  {
    var ids: Ids := [Entry(id, o)];
    assert ids[..|ids| - 1] == [];
    OneAccount(a, Account(index, spent, ids), f);
  }

  // No coin of the table has a negative value.
  ghost predicate NoDebt(t: Accounts) {
    forall i, j, k :: 0 <= i < |t| && 0 <= j < |t[i].val.ids| && 0 <= k < |t[i].val.ids[j].val.balances|
                      ==> t[i].val.ids[j].val.balances[k].val >= 0
  }

  lemma {:induction false} SumNonNegative(t: Holding, f: Filter)
    requires forall k :: 0 <= k < |t| ==> t[k].val >= 0
    ensures Sum(t, f) >= 0
  {
    if t != [] {
      SumNonNegative(t[..|t| - 1], f);
    }
  }

  lemma {:induction false} ConfirmedNonNegative(t: Ids, f: Filter)
    requires forall j, k :: 0 <= j < |t| && 0 <= k < |t[j].val.balances| ==> t[j].val.balances[k].val >= 0
    ensures Confirmed(t, f) >= 0
  {
    if t != [] {
      var s := t[..|t| - 1];
      assert forall j :: 0 <= j < |s| ==> s[j] == t[j];
      ConfirmedNonNegative(s, f);
      SumNonNegative(t[|t| - 1].val.balances, f);
    }
  }

  ghost predicate SharesNonNegative(t: Accounts, f: Filter) {
    forall i :: 0 <= i < |t| ==> Share(t[i].val, f) >= 0
  }

  lemma {:induction false} NoDebtShares(t: Accounts, f: Filter)
    requires NoDebt(t)
    ensures SharesNonNegative(t, f) && SharesNonNegative(Eligible(t), f)
  {
    forall i | 0 <= i < |t| ensures Share(t[i].val, f) >= 0 {
      ConfirmedNonNegative(t[i].val.ids, f);
    }
    var r := Eligible(t);
    forall i | 0 <= i < |r| ensures Share(r[i].val, f) >= 0 {
      EligibleFrom(t, r[i]);
    }
  }

  lemma {:induction false} TotalMonotone(t: Accounts, f: Filter, m: nat)
    requires SharesNonNegative(t, f) && m <= |t|
    ensures 0 <= Total(t[..m], f) <= Total(t, f)
  {
    if t != [] {
      var s := t[..|t| - 1];
      assert SharesNonNegative(s, f);
      if m < |t| {
        TotalMonotone(s, f, m);
        assert t[..m] == s[..m];
      } else {
        TotalMonotone(s, f, |s|);
        assert t[..m] == t && s[..|s|] == s;
      }
    }
  }

  // ---------- greedy selection ----------

  // Whatever the values: the selection is a prefix of the eligible accounts, no
  // shorter non-empty prefix reaches the target, and the target is reached
  // exactly when some non-empty prefix reaches it.
  lemma {:induction false} SelectionStops(t: Accounts, required: uint64, f: Filter)
    ensures
      var all, r := Eligible(t), Required(t, required, f);
      && r <= all
      && (forall m :: 0 < m < |r| ==> Wrap(Total(r[..m], f)) < required)
      && (r != all ==> Wrap(Total(r, f)) >= required)
      && ((exists m :: 0 < m <= |all| && Wrap(Total(all[..m], f)) >= required)
          <==> r != [] && Wrap(Total(r, f)) >= required)
  {
    hide Total, Wrap, Eligible, Reach;
    var all, r := Eligible(t), Required(t, required, f);
    assert forall m :: 0 < m <= |r| ==> r[..m] == all[..m];
    if r != [] && Wrap(Total(r, f)) >= required {
      assert all[..|r|] == r;
    }
    if r == all && r != [] {
      assert r[..|r|] == r;
    }
  }

  // What is taken: unspent addresses with outputs, in table order, none of them
  // passed over before another is taken, and all of them if the target is missed.
  lemma {:induction false} SelectionTakes(t: Accounts, required: uint64, f: Filter)
    requires Unique(t)
    ensures
      var r := Required(t, required, f);
      && (forall e :: e in r ==> e in t && !e.val.spent && e.val.ids != [])
      && (forall i, j :: 0 <= i < j < |r| ==> Find(t, r[i].key) < Find(t, r[j].key))
      && (forall i, j :: 0 <= i < j < |t| && t[j] in r && !t[i].val.spent && t[i].val.ids != [] ==> t[i] in r)
      && (Wrap(Total(r, f)) < required ==> forall e :: e in t && !e.val.spent && e.val.ids != [] ==> e in r)
  {
    hide *;
    var all, r := Eligible(t), Required(t, required, f);
    SelectionStops(t, required, f);
    forall e ensures e in all <==> e in t && !e.val.spent && e.val.ids != [] {
      EligibleRaw(t, e);
    }
    EligibleInOrder(t);
    TakenInOrder(t, all, r);
  }

  lemma {:induction false} EligibleRaw(t: Accounts, e: Entry<Addr, Account>)
    ensures e in Eligible(t) <==> e in t && !e.val.spent && e.val.ids != []
  {
    EligibleFrom(t, e);
  }

  // The entries stand in the order of the table.
  ghost predicate InTableOrder(t: Accounts, r: Accounts) {
    forall i, j :: 0 <= i < j < |r| ==> Find(t, r[i].key) < Find(t, r[j].key)
  }

  lemma {:induction false} EligibleInOrder(t: Accounts)
    requires Unique(t)
    ensures InTableOrder(t, Eligible(t))
  {
    var all := Eligible(t);
    hide Eligible, Find, Unique;
    forall i, j | 0 <= i < j < |all| ensures Find(t, all[i].key) < Find(t, all[j].key) {
      EligibleOrder(t, i, j);
    }
  }

  lemma {:induction false} EligibleOrder(t: Accounts, i: nat, j: nat)
    requires Unique(t) && i < j < |Eligible(t)|
    ensures Find(t, Eligible(t)[i].key) < Find(t, Eligible(t)[j].key) < |t|
  {
    var s, r := t[..|t| - 1], Eligible(t);
    LastNotBefore(t);
    FindUnique(t, |t| - 1);
    EligibleFound(s, i);
    FindPrefix(t, r[i].key);
    if j < |Eligible(s)| {
      EligibleOrder(s, i, j);
      EligibleFound(s, j);
      FindPrefix(t, r[j].key);
    }
  }

  lemma {:induction false} EligibleFound(t: Accounts, i: nat)
    ensures i < |Eligible(t)| ==> Has(t, Eligible(t)[i].key)
  {
    if i < |Eligible(t)| {
      EligibleFrom(t, Eligible(t)[i]);
      HasIff(t, Eligible(t)[i].key);
    }
  }

  lemma {:induction false} TakenInOrder(t: Accounts, all: Accounts, r: Accounts)
    requires Unique(t) && r <= all && InTableOrder(t, all)
    ensures forall i, j :: 0 <= i < j < |r| ==> Find(t, r[i].key) < Find(t, r[j].key)
    ensures forall i, j :: 0 <= i < j < |t| && t[j] in r && t[i] in all ==> t[i] in r
    ensures forall e :: e in r ==> e in all
  {
    forall i, j | 0 <= i < j < |r| ensures Find(t, r[i].key) < Find(t, r[j].key) {
      assert r[i] == all[i] && r[j] == all[j];
    }
    forall i, j | 0 <= i < j < |t| && t[j] in r && t[i] in all ensures t[i] in r {
      var m :| 0 <= m < |r| && r[m] == t[j];
      var n :| 0 <= n < |all| && all[n] == t[i];
      FindUnique(t, i);
      FindUnique(t, j);
      hide Find, Unique;
      assert all[m] == t[j];
      assert n < m ==> r[n] == all[n];
    }
  }

  // With true totals: the selection suffices exactly when the whole table
  // does; then it is the shortest prefix that suffices, else it is everything.
  lemma {:induction false} SelectionLaw(t: Accounts, required: uint64, f: Filter)
    requires NoDebt(t) && Total(t, f) < TWO64 && required > 0
    ensures
      var all, r := Eligible(t), Required(t, required, f);
      && Total(r, f) == Wrap(Total(r, f))
      && (Total(r, f) >= required <==> Total(t, f) >= required)
      && (Total(t, f) >= required ==> r <= all && forall m :: 0 <= m < |r| ==> Total(all[..m], f) < required)
      && (Total(t, f) < required ==> r == all)
  {
    var all, r := Eligible(t), Required(t, required, f);
    SelectionStops(t, required, f);
    TotalOfEligible(t, f);
    NoDebtShares(t, f);
    assert Total(all[..0], f) == 0;
    assert all[..|r|] == r;
    hide *;
    PrefixTotal(all, f, |r|);
    forall m | 0 <= m < |r| ensures Total(all[..m], f) < required {
      PrefixTotal(all, f, m);
      assert r[..m] == all[..m];
    }
  }

  lemma {:induction false} PrefixTotal(t: Accounts, f: Filter, m: nat)
    requires SharesNonNegative(t, f) && m <= |t| && Total(t, f) < TWO64
    ensures 0 <= Total(t[..m], f) <= Total(t, f)
    ensures Wrap(Total(t[..m], f)) == Total(t[..m], f)
  {
    TotalMonotone(t, f, m);
  }

  lemma {:induction false} RequiredUnique(t: Accounts, required: uint64, f: Filter)
    requires UniqueAccounts(t)
    ensures UniqueAccounts(Required(t, required, f))
    ensures forall e :: e in Required(t, required, f) ==> e in t && Spendable(e.val)
  {
    EligibleUnique(t);
    var r := Required(t, required, f);
    forall e | e in r ensures e in t && Spendable(e.val) {
      EligibleFrom(t, e);
    }
  }

  lemma {:induction false} EligibleUnique(t: Accounts)
    requires UniqueAccounts(t)
    ensures UniqueAccounts(Eligible(t))
  {
    if t != [] {
      var s, e := t[..|t| - 1], t[|t| - 1];
      assert forall i :: 0 <= i < |s| ==> s[i] == t[i];
      EligibleUnique(s);
      NotYetConsumed(t, |t| - 1);
      AppendAccount(Eligible(s), e);
      assert Eligible(s) + [] == Eligible(s);
      hide UniqueAccounts, Has, Spendable;
    }
  }

  lemma {:induction false} AppendAccount(t: Accounts, e: Entry<Addr, Account>)
    requires UniqueAccounts(t) && UniqueIds(e.val.ids) && !Has(t, e.key)
    ensures UniqueAccounts(t + [e])
  {
    UniqueAppend(t, e);
    hide Has, UniqueIds, Unique;
  }

  // ---------- marking what was consumed ----------

  lemma {:induction false} SetSpentAtPointwise(t: Accounts, a: Addr, spent: bool)
    requires Unique(t)
    ensures |SetSpentAt(t, a, spent)| == |t|
    ensures forall i :: 0 <= i < |t| ==>
              SetSpentAt(t, a, spent)[i] == (if t[i].key == a then Entry(a, t[i].val.(spent := spent)) else t[i])
  {
    if Has(t, a) {
      FindUnique(t, Find(t, a));
    }
  }

  function MarkedEntry(e: Entry<Addr, Account>, done: Accounts): Entry<Addr, Account> {
    Entry(e.key, e.val.(spent := e.val.spent || Has(done, e.key)))
  }

  // Marking touches the spent flag of the listed addresses and nothing else.
  lemma {:induction false} MarkAllPointwise(t: Accounts, done: Accounts)
    requires Unique(t)
    ensures |MarkAll(t, done)| == |t|
    ensures forall i :: 0 <= i < |t| ==> MarkAll(t, done)[i] == MarkedEntry(t[i], done)
    ensures Unique(MarkAll(t, done))
  {
    if done != [] {
      var rest, last := done[..|done| - 1], done[|done| - 1].key;
      MarkAllPointwise(t, rest);
      SetSpentAtPointwise(MarkAll(t, rest), last, true);
      forall i | 0 <= i < |t| ensures MarkAll(t, done)[i] == MarkedEntry(t[i], done) {
        HasLast(done, t[i].key);
      }
    }
  }

  lemma {:induction false} PrefixOfEligible(t: Accounts, k: nat) returns (n: nat)
    requires k <= |Eligible(t)|
    ensures n <= |t| && Eligible(t[..n]) == Eligible(t)[..k]
  {
    if k == |Eligible(t)| {
      n := |t|;
      assert t[..n] == t && Eligible(t)[..k] == Eligible(t);
    } else {
      var s := t[..|t| - 1];
      n := PrefixOfEligible(s, k);
      assert s[..n] == t[..n];
      assert Eligible(s)[..k] == Eligible(t)[..k];
    }
  }

  lemma {:induction false} AllSpentTotal(t: Accounts, f: Filter)
    requires forall i :: 0 <= i < |t| ==> !Spendable(t[i].val)
    ensures Total(t, f) == 0
  {
    if t != [] {
      AllSpentTotal(t[..|t| - 1], f);
    }
  }

  // Marking a selection as spent takes its balance off the table: for every
  // colour, and for all colours together.
  lemma {:induction false} MarkingDebits(t: Accounts, required: uint64, f: Filter, g: Filter)
    requires Unique(t)
    ensures
      var r := Required(t, required, f);
      Total(MarkAll(t, r), g) == Total(t, g) - Total(r, g)
  {
    var r := Required(t, required, f);
    var u := MarkAll(t, r);
    var n := PrefixOfEligible(t, |r|);
    MarkAllPointwise(t, r);
    MarkedPrefixSpent(t, r, n);
    MarkedRestKept(t, r, n);
    assert t == t[..n] + t[n..] && u == u[..n] + u[n..];
    TotalConcat(t[..n], t[n..], g);
    TotalConcat(u[..n], u[n..], g);
    TotalOfEligible(t[..n], g);
    AllSpentTotal(u[..n], g);
  }

  lemma {:induction false} MarkedPrefixSpent(t: Accounts, r: Accounts, n: nat)
    requires Unique(t) && n <= |t| && r == Eligible(t[..n])
    ensures |MarkAll(t, r)| == |t|
    ensures forall i :: 0 <= i < n ==> !Spendable(MarkAll(t, r)[i].val)
  {
    MarkAllPointwise(t, r);
    forall i | 0 <= i < n && Spendable(t[i].val) ensures Has(r, t[i].key) {
      assert t[..n][i] == t[i];
      EligibleFrom(t[..n], t[i]);
      HasIff(r, t[i].key);
    }
  }

  lemma {:induction false} MarkedRestKept(t: Accounts, r: Accounts, n: nat)
    requires Unique(t) && n <= |t| && r == Eligible(t[..n])
    ensures |MarkAll(t, r)| == |t| && MarkAll(t, r)[n..] == t[n..]
  {
    MarkAllPointwise(t, r);
    forall i | n <= i < |t| ensures !Has(r, t[i].key) {
      if Has(r, t[i].key) {
        EligibleFrom(t[..n], r[Find(r, t[i].key)]);
      }
    }
  }

  // ---------- appending ids ----------

  // Appending is a left-biased, order-preserving union of the ids of one
  // address; the balance grows by what the new ids confirm; a repetition
  // changes nothing.
  lemma {:induction false} AppendLaw(t: Accounts, a: Addr, ids: Ids, f: Filter)
    requires UniqueAccounts(t) && UniqueIds(ids) && Has(t, a)
    ensures
      var i := Find(t, a);
      var before := t[i].val;
      var added := Missing(ids, before.ids);
      && Append(t, a, ids) == t[i := Entry(a, before.(ids := before.ids + added))]
      && Confirmed(before.ids + added, f) == Confirmed(before.ids, f) + Confirmed(added, f)
      && Total(Append(t, a, ids), f) == Total(t, f) + (if before.spent then 0 else Confirmed(added, f))
      && Append(Append(t, a, ids), a, ids) == Append(t, a, ids)
  {
    var i := Find(t, a);
    var before := t[i].val;
    var added := Missing(ids, before.ids);
    InsertAllIsUnion(before.ids, ids);
    InsertAllIdempotent(before.ids, ids);
    ConfirmedConcat(before.ids, added, f);
    var e := Entry(a, before.(ids := before.ids + added));
    TotalUpdate(t, i, e, f);
    assert before.ids + added == [] ==> added == [];
    var u := t[i := e];
    assert Unique(u) && u[i].key == a;
    FindUnique(u, i);
    assert u[i := e] == u;
  }

  // ---------- cloning ----------

  function SpentWorth(t: Accounts, f: Filter): int {
    if t == [] then 0
    else SpentWorth(t[..|t| - 1], f) + (if t[|t| - 1].val.spent then Confirmed(t[|t| - 1].val.ids, f) else 0)
  }

  // A clone forgets the spent flags, so it counts what the spent accounts hold.
  lemma {:induction false} CloneBalance(t: Accounts, f: Filter)
    ensures Total(Unmarked(t), f) == Total(t, f) + SpentWorth(t, f)
    ensures Total(Unmarked(t), f) == Total(t, f) <==> SpentWorth(t, f) == 0
  {
    if t != [] {
      CloneBalance(t[..|t| - 1], f);
      var u := Unmarked(t);
      assert u[..|u| - 1] == Unmarked(t[..|t| - 1]);
    }
  }

  // ---------- decomposition by colour ----------

  function TotalEach(t: Accounts, cs: seq<Color>): int {
    if cs == [] then 0 else TotalEach(t, cs[..|cs| - 1]) + Total(t, Only(cs[|cs| - 1]))
  }

  function ShareEach(a: Account, cs: seq<Color>): int {
    if Spendable(a) then ConfirmedEach(a.ids, cs) else 0
  }

  lemma {:induction false} TotalEachEntry(t: Accounts, cs: seq<Color>)
    requires t != []
    ensures TotalEach(t, cs) == TotalEach(t[..|t| - 1], cs) + ShareEach(t[|t| - 1].val, cs)
  {
    if cs != [] {
      TotalEachEntry(t, cs[..|cs| - 1]);
    }
  }

  lemma {:induction false} TotalEachOfNothing(cs: seq<Color>)
    ensures TotalEach([], cs) == 0
  {
    if cs != [] {
      TotalEachOfNothing(cs[..|cs| - 1]);
    }
  }

  lemma {:induction false} TotalByColor(t: Accounts, cs: seq<Color>)
    requires Distinct(cs) && forall i :: 0 <= i < |t| ==> Covers(cs, t[i].val.ids)
    ensures Total(t, All) == TotalEach(t, cs)
  {
    if t == [] {
      TotalEachOfNothing(cs);
    } else {
      TotalByColor(t[..|t| - 1], cs);
      TotalEachEntry(t, cs);
      ConfirmedByColor(t[|t| - 1].val.ids, cs);
    }
  }

  // A caller adding up the uint64_t results of unspent_outputs_balance_with_color.
  function AddUpColors(t: Accounts, cs: seq<Color>): uint64 {
    if cs == [] then 0
    else Wrap(AddUpColors(t, cs[..|cs| - 1]) + Wrap(Total(t, Only(cs[|cs| - 1]))))
  }

  // unspent_outputs_balance is that sum, overflow included, over any list of
  // distinct colours that misses none of the table.
  lemma {:induction false} BalanceByColor(t: Accounts, cs: seq<Color>)
    requires Distinct(cs) && forall i :: 0 <= i < |t| ==> Covers(cs, t[i].val.ids)
    ensures Wrap(Total(t, All)) == AddUpColors(t, cs)
  {
    TotalByColor(t, cs);
    AddUpWraps(t, cs);
  }

  lemma {:induction false} AddUpWraps(t: Accounts, cs: seq<Color>)
    ensures AddUpColors(t, cs) == Wrap(TotalEach(t, cs))
  {
    if cs != [] {
      AddUpWraps(t, cs[..|cs| - 1]);
      WrapSum(TotalEach(t, cs[..|cs| - 1]), Total(t, Only(cs[|cs| - 1])));
    }
  }
}
