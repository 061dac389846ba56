/** The table of addresses a wallet watches, with what each of them holds. */
module UnspentOutputs {
  import opened Bytes
  import opened UtHash
  import opened Address
  import opened Balances
  import opened OutputIds

  datatype Account = Account(addrIndex: uint64, spent: bool, ids: Ids)

  // unspent_outputs_t
  type Accounts = Table<Addr, Account>

  ghost predicate UniqueAccounts(t: Accounts) {
    Unique(t) && forall i :: 0 <= i < |t| ==> UniqueIds(t[i].val.ids)
  }

  // ---------- specification ----------

  // The pointer to an id table is NULL exactly when the table is empty.
  predicate Spendable(a: Account) {
    !a.spent && a.ids != []
  }

  function Share(a: Account, f: Filter): int {
    if Spendable(a) then Confirmed(a.ids, f) else 0
  }

  function Total(t: Accounts, f: Filter): int {
    if t == [] then 0 else Total(t[..|t| - 1], f) + Share(t[|t| - 1].val, f)
  }

  // The accounts selection may consume, in table order.
  function Eligible(t: Accounts): (r: Accounts)
    ensures |r| <= |t|
  {
    if t == [] then []
    else Eligible(t[..|t| - 1]) + (if Spendable(t[|t| - 1].val) then [t[|t| - 1]] else [])
  }

  // The number of accounts consumed: from k on, until the wrapped sum reaches
  // what is required or no account is left.
  function Reach(t: Accounts, required: uint64, f: Filter, k: nat): (n: nat)
    requires k <= |t|
    ensures k <= n <= |t|
    ensures k < |t| ==> k < n
    ensures forall m :: k < m < n ==> Wrap(Total(t[..m], f)) < required
    ensures n < |t| ==> Wrap(Total(t[..n], f)) >= required
    decreases |t| - k
  {
    if k == |t| then k
    else if Wrap(Total(t[..k + 1], f)) >= required then k + 1
    else Reach(t, required, f, k + 1)
  }

  function Required(t: Accounts, required: uint64, f: Filter): Accounts {
    Eligible(t)[..Reach(Eligible(t), required, f, 0)]
  }

  // Is the address in the table and marked as spent?
  predicate SpentIn(t: Accounts, a: Addr) {
    Has(t, a) && t[Find(t, a)].val.spent
  }

  function SetSpentAt(t: Accounts, a: Addr, spent: bool): Accounts {
    var i := Find(t, a);
    if i < |t| then t[i := Entry(a, t[i].val.(spent := spent))] else t
  }

  function SetIds(t: Accounts, a: Addr, ids: Ids): Accounts {
    var i := Find(t, a);
    if i < |t| then t[i := Entry(a, t[i].val.(ids := ids))] else t
  }

  // unspent_outputs_append_id as a function of the table.
  function Append(t: Accounts, a: Addr, ids: Ids): Accounts {
    var i := Find(t, a);
    if i < |t| then SetIds(t, a, InsertAll(t[i].val.ids, ids)) else t
  }

  // Marking every address of a table as spent, in order.
  function MarkAll(t: Accounts, done: Accounts): Accounts {
    if done == [] then t else SetSpentAt(MarkAll(t, done[..|done| - 1]), done[|done| - 1].key, true)
  }

  // ---------- the table ----------

  class UnspentTable {
    var entries: Accounts

    constructor (initial: Accounts)
      ensures entries == initial
    {
      entries := initial;
    }

    method Add(addr: Addr, addrIndex: uint64, ids: Ids) returns (ret: int)
      requires UniqueIds(ids)
      modifies this
      ensures entries == Insert(old(entries), addr, Account(addrIndex, false, ids))
      ensures ret == if Has(old(entries), addr) then -1 else 0
    {
      if Has(entries, addr) {
        return -1;
      }
      var copy := CloneIds(ids);
      entries := entries + [Entry(addr, Account(addrIndex, false, copy.entries))];
      ret := 0;
    }

    method Update(addr: Addr, ids: Ids) returns (ret: int)
      requires UniqueIds(ids)
      modifies this
      ensures entries == SetIds(old(entries), addr, ids)
      ensures ret == 0
    {
      var i := Find(entries, addr);
      if i < |entries| {
        var copy := CloneIds(ids);
        entries := entries[i := Entry(addr, entries[i].val.(ids := copy.entries))];
      }
      ret := 0;
    }

    method AppendId(addr: Addr, ids: Ids) returns (ret: int)
      requires UniqueIds(ids)
      modifies this
      ensures entries == Append(old(entries), addr, ids)
      ensures ret == 0
    {
      var i := Find(entries, addr);
      if i < |entries| {
        var table := new OutputTable(entries[i].val.ids);
        table.AddAll(ids);
        entries := entries[i := Entry(addr, entries[i].val.(ids := table.entries))];
      }
      ret := 0;
    }

    method SetSpent(addr: Addr, spent: bool)
      modifies this
      ensures entries == SetSpentAt(old(entries), addr, spent)
    {
      var i := Find(entries, addr);
      if i == |entries| {
        return;
      }
      entries := entries[i := Entry(addr, entries[i].val.(spent := spent))];
    }

    method GetSpent(addr: Addr) returns (spent: bool)
      ensures spent <==> SpentIn(entries, addr)
    {
      var i := Find(entries, addr);
      if i == |entries| {
        return false;
      }
      spent := entries[i].val.spent;
    }

    method Balance() returns (sum: uint64)
      ensures sum == Wrap(Total(entries, All))
    {
      sum := 0;
      for i := 0 to |entries|
        invariant sum == Wrap(Total(entries[..i], All))
      {
        TotalNext(entries, All, i);
        var a := entries[i].val;
        if !a.spent && a.ids != [] {
          var s := IdsBalance(a.ids);
          WrapSum(Total(entries[..i], All), Confirmed(a.ids, All));
          sum := Wrap(sum + s);
        }
      }
      assert entries[..|entries|] == entries;
    }

    method BalanceWithColor(color: Color) returns (sum: uint64)
      ensures sum == Wrap(Total(entries, Only(color)))
    {
      sum := 0;
      for i := 0 to |entries|
        invariant sum == Wrap(Total(entries[..i], Only(color)))
      {
        TotalNext(entries, Only(color), i);
        var a := entries[i].val;
        if !a.spent && a.ids != [] {
          var s := IdsBalanceWithColor(a.ids, color);
          WrapSum(Total(entries[..i], Only(color)), Confirmed(a.ids, Only(color)));
          sum := Wrap(sum + s);
        }
      }
      assert entries[..|entries|] == entries;
    }

    method RequiredOutputs(required: uint64, color: Color) returns (consumed: UnspentTable)
      requires UniqueAccounts(entries)
      ensures fresh(consumed) && consumed.entries == Required(entries, required, Only(color))
    {
      consumed := new UnspentTable([]);
      var table, sum := entries, 0;
      SelectionStart(table, required, Only(color));
      hide *;
      for i := 0 to |table|
        invariant fresh(consumed)
        invariant Selecting(table, i, required, Only(color), consumed.entries)
        invariant sum == Wrap(Total(consumed.entries, Only(color)))
      {
        var e := table[i];
        SelectionStep(table, i, required, Only(color), consumed.entries);
        if !e.val.spent && e.val.ids != [] {
          var s := IdsBalanceWithColor(e.val.ids, color);
          WrapSum(Total(consumed.entries, Only(color)), Confirmed(e.val.ids, Only(color)));
          sum := Wrap(sum + s);
          var _ := consumed.Add(e.key, e.val.addrIndex, e.val.ids);
          if sum >= required {
            return;
          }
        }
      }
      SelectionEnd(table, required, Only(color), consumed.entries);
    }

    method Clone() returns (dst: UnspentTable)
      requires UniqueAccounts(entries)
      ensures fresh(dst) && dst.entries == Unmarked(entries)
    {
      dst := new UnspentTable([]);
      for i := 0 to |entries|
        invariant fresh(dst) && dst.entries == Unmarked(entries[..i])
      {
        var e := entries[i];
        assert entries[..i + 1][..i] == entries[..i];
        UnmarkedKeys(entries[..i]);
        var _ := dst.Add(e.key, e.val.addrIndex, e.val.ids);
      }
      assert entries[..|entries|] == entries;
    }
  }

  // ---------- lemmas the loops need ----------

  lemma {:induction false} TotalNext(t: Accounts, f: Filter, i: nat)
    requires i < |t|
    ensures Total(t[..i + 1], f) == Total(t[..i], f) + Share(t[i].val, f)
  {
    assert t[..i + 1][..i] == t[..i];
  }

  lemma {:induction false} EligibleConcat(a: Accounts, b: Accounts)
    ensures Eligible(a + b) == Eligible(a) + Eligible(b)
  {
    if b == [] {
      assert a + b == a;
    } else {
      EligibleConcat(a, b[..|b| - 1]);
      assert (a + b)[..|a + b| - 1] == a + b[..|b| - 1];
    }
  }

  lemma {:induction false} EligibleNext(t: Accounts, i: nat)
    requires i < |t|
    ensures Eligible(t[..i + 1]) == if Spendable(t[i].val) then Eligible(t[..i]) + [t[i]] else Eligible(t[..i])
    ensures Eligible(t[..i + 1]) <= Eligible(t)
  {
    assert t[..i + 1][..i] == t[..i];
    assert Eligible(t[..i]) + [] == Eligible(t[..i]);
    EligibleConcat(t[..i + 1], t[i + 1..]);
    assert t[..i + 1] + t[i + 1..] == t;
  }

  // Eligible entries are entries of the table that may be spent.
  lemma {:induction false} EligibleFrom(t: Accounts, e: Entry<Addr, Account>)
    ensures e in Eligible(t) <==> e in t && Spendable(e.val)
  {
    if t != [] {
      EligibleFrom(t[..|t| - 1], e);
      assert t == t[..|t| - 1] + [t[|t| - 1]];
    }
  }

  lemma {:induction false} NotYetConsumed(t: Accounts, i: nat)
    requires Unique(t) && i < |t|
    ensures !Has(Eligible(t[..i]), t[i].key)
  {
    var r := Eligible(t[..i]);
    if Has(r, t[i].key) {
      EligibleFrom(t[..i], r[Find(r, t[i].key)]);
    }
  }

  // What is selected after i entries of the table, the target not yet reached.
  ghost predicate Selecting(t: Accounts, i: nat, required: uint64, f: Filter, selected: Accounts)
    requires i <= |t|
  {
    && selected == Eligible(t[..i]) <= Eligible(t)
    && Reach(Eligible(t), required, f, 0) == Reach(Eligible(t), required, f, |selected|)
  }

  lemma {:induction false} SelectionStart(t: Accounts, required: uint64, f: Filter)
    ensures Selecting(t, 0, required, f, []) && Total([], f) == 0 && Wrap(0) == 0
  {
    assert t[..0] == [];
  }

  lemma {:induction false} SelectionStep(t: Accounts, i: nat, required: uint64, f: Filter, selected: Accounts)
    requires UniqueAccounts(t) && i < |t| && Selecting(t, i, required, f, selected)
    ensures UniqueIds(t[i].val.ids)
    ensures t[i].val.spent || t[i].val.ids == [] ==> Selecting(t, i + 1, required, f, selected)
    ensures !t[i].val.spent && t[i].val.ids != [] ==>
              var next := Insert(selected, t[i].key, Account(t[i].val.addrIndex, false, t[i].val.ids));
              && Total(next, f) == Total(selected, f) + Confirmed(t[i].val.ids, f)
              && (if Wrap(Total(next, f)) >= required then next == Required(t, required, f)
                  else Selecting(t, i + 1, required, f, next))
  {
    EligibleNext(t, i);
    NotYetConsumed(t, i);
    if Spendable(t[i].val) {
      var next := selected + [t[i]];
      assert t[i].val == Account(t[i].val.addrIndex, false, t[i].val.ids);
      assert next[..|selected|] == selected;
      assert next == Eligible(t)[..|selected| + 1];
    }
  }

  lemma {:induction false} SelectionEnd(t: Accounts, required: uint64, f: Filter, selected: Accounts)
    requires Selecting(t, |t|, required, f, selected)
    ensures selected == Required(t, required, f)
  {
    assert t[..|t|] == t;
  }

  function Unmarked(t: Accounts): (r: Accounts)
    ensures |r| == |t|
  {
    if t == [] then []
    else Unmarked(t[..|t| - 1]) + [Entry(t[|t| - 1].key, t[|t| - 1].val.(spent := false))]
  }

  lemma {:induction false} UnmarkedKeys(t: Accounts)
    ensures forall i :: 0 <= i < |t| ==> Unmarked(t)[i] == Entry(t[i].key, t[i].val.(spent := false))
  {
    if t != [] {
      UnmarkedKeys(t[..|t| - 1]);
    }
  }
}
