/** Where the change of a send ends up, and whether the wallet can spend it again. */
module WalletRemainder {
  import opened Bytes
  import opened UtHash
  import opened Address
  import opened AddressManager
  import opened Balances
  import opened OutputIds
  import opened UnspentOutputs
  import opened LedgerLaws
  import opened WalletSpec
  import opened SendLaws
  import opened WalletRuns
  import opened WalletCreation

  // Some address from the first unspent index on is marked spent in the table,
  // and all addresses in front of it are about to be consumed.
  ghost predicate SpentNext(keys: KeyScheme, am: AmState, t: Accounts, consumed: Accounts) {
    exists r: uint64 ::
      && am.first <= r && SpentIn(t, keys.derive(r))
      && forall k: uint64 :: am.first <= k < r ==> Has(consumed, keys.derive(k))
  }

  // The search passes over consumed addresses only, not over spent ones.
  lemma {:induction false} RemainderSpentIff(keys: KeyScheme, am: AmState, t: Accounts, consumed: Accounts)
    requires keys.Sound() && Room(am, consumed) && am.first <= am.last
    requires forall a :: Has(consumed, a) ==> !SpentIn(t, a)
    ensures SpentIn(t, ChooseRemainder(keys, am, consumed).addr) <==> SpentNext(keys, am, t, consumed)
  {
    var c := ChooseRemainder(keys, am, consumed);
    RemainderLaw(keys, am, consumed);
    hide ChooseRemainder, SpentIn, Has, Room, Contained, Bracketed;
    if SpentNext(keys, am, t, consumed) {
      var r: uint64 :| am.first <= r && SpentIn(t, keys.derive(r))
                       && forall k: uint64 :: am.first <= k < r ==> Has(consumed, keys.derive(k));
      assert r == c.index;
    }
  }

  // The change of a send goes to an address marked spent, where the wallet
  // neither counts nor spends it, exactly when a spent address comes next.
  lemma {:induction false} ChangeSpentIff(keys: KeyScheme, w: WalletState, order: Order, reply: Reply)
    requires keys.Sound() && UniqueAccounts(w.accounts) && FromNode(reply)
    requires Room(w.am, Selected(keys, w, order, reply)) && w.am.first <= w.am.last
    requires Covered(keys, w, order, reply) && NeedsRemainder(order, Selected(keys, w, order, reply))
    ensures
      var s, c := Send(keys, w, order, reply), Selected(keys, w, order, reply);
      && s.remainder == ChooseRemainder(keys, w.am, c).addr
      && (SpentIn(s.state.accounts, s.remainder) <==> SpentNext(keys, w.am, w.accounts, c))
  {
    var t, c := Refresh(keys, w, false, reply).accounts, Selected(keys, w, order, reply);
    var a := ChooseRemainder(keys, w.am, c).addr;
    SendDecides(keys, w, order, reply);
    RemainderLaw(keys, w.am, c);
    assert BuildOutputs(keys, w.am, order, c).remainder == a by {
      hide ChooseRemainder, OneCoin, Room, Total;
    }
    RefreshContinues(keys, w, false, reply);
    hide Send, Refresh, Required, Covered, Room, FromNode, Total, BuildOutputs, ChooseRemainder, MarkAll, MarkIndices;
    hide Has, SpentIn, UniqueAccounts, Continues, NeedsRemainder;
    ContinuesSpentIff(w.accounts, t, a);
    MarkAllSpentIff(t, c, a);
    forall b | Has(c, b) ensures !SpentIn(w.accounts, b) {
      SelectedUnspent(t, order.amount, Only(order.color), b);
      ContinuesSpentIff(w.accounts, t, b);
    }
    RemainderSpentIff(keys, w.am, w.accounts, c);
  }

  // ---------- over runs ----------

  // The event is a send that goes through and leaves change to a chosen address.
  ghost predicate LeavesChange(keys: KeyScheme, w: WalletState, e: Event) {
    && e.Sent? && Possible(keys, w, e) && w.am.first <= w.am.last
    && Covered(keys, w, e.order, e.answer) && NeedsRemainder(e.order, Selected(keys, w, e.order, e.answer))
  }

  // Change sent to a spent address is out of reach: no later send of any run
  // consumes what is there.
  lemma {:induction false} ChangeOutOfReach(keys: KeyScheme, ws: seq<WalletState>, es: seq<Event>, j: nat, k: nat)
    requires keys.Sound() && IsRun(keys, ws, es) && j < k < |es| && LeavesChange(keys, ws[j], es[j])
    requires SpentNext(keys, ws[j].am, ws[j].accounts, ConsumedBy(keys, ws[j], es[j]))
    ensures
      var a := Send(keys, ws[j], es[j].order, es[j].answer).remainder;
      && SpentIn(ws[k].accounts, a) && !Has(ConsumedBy(keys, ws[k], es[k]), a)
  {
    var w, e := ws[j], es[j];
    var a := Send(keys, w, e.order, e.answer).remainder;
    RunExtends(keys, ws, es, 0, j);
    RunExtends(keys, ws, es, 0, k);
    RunStep(keys, ws, es, j + 1);
    assert Possible(keys, ws[k], es[k]);
    SendDecides(keys, w, e.order, e.answer);
    ChangeSpentIff(keys, w, e.order, e.answer);
    assert SpentIn(ws[j + 1].accounts, a) by {
      hide IsRun, Send, Refresh, Selected, Covered, NeedsRemainder, SpentNext, SpentIn, Room, FromNode, Extends;
    }
    SpentStays(keys, ws, es, j + 1, k, a);
    hide IsRun, Send, Refresh, Selected, Covered, NeedsRemainder, SpentNext, SpentIn, Room, FromNode, Extends;
    ConsumedFlags(keys, ws[k], es[k], a);
  }

  // ---------- a wallet that gets there ----------

  const CONFIRMED: InclusionState := InclusionState(true, true, false, true, false, true, true)

  // One confirmed output of the value.
  function OneOutputOf(color: Color, value: uint64): Ids
    requires value < TWO63
  {
    [Entry(Zeros(TX_ID_BYTES), Output([Entry(color, value)], CONFIRMED))]
  }

  lemma {:induction false} OneOutputWorth(color: Color, value: uint64)
    requires value < TWO63
    ensures Confirmed(OneOutputOf(color, value), Only(color)) == value && UniqueIds(OneOutputOf(color, value))
  {
    var ids := OneOutputOf(color, value);
    var coins: Holding := [Entry(color, value)];
    assert coins[..|coins| - 1] == [] && ids[..|ids| - 1] == [];
    assert Sum(coins, Only(color)) == Sum([], Only(color)) + value;
    assert Confirmed(ids, Only(color)) == Confirmed([], Only(color)) + Worth(ids[0].val, Only(color));
  }

  // A table of the first two addresses.
  function Two(keys: KeyScheme, first: bool, ids0: Ids, ids1: Ids): Accounts {
    [Entry(keys.derive(0), Account(0, first, ids0)), Entry(keys.derive(1), Account(1, false, ids1))]
  }

  lemma {:induction false} TwoAtStart(keys: KeyScheme)
    requires keys.Sound()
    ensures Init(keys, 1, 0, 1) == WalletState(AmState(1, 1, 0, 1, {}), Two(keys, false, [], []))
  {
    InitAccountsAre(keys, 2, 0);
  }

  lemma {:induction false} TwoUnique(keys: KeyScheme, first: bool, ids0: Ids, ids1: Ids)
    requires keys.Sound() && UniqueIds(ids0) && UniqueIds(ids1)
    ensures UniqueAccounts(Two(keys, first, ids0, ids1))
  {
  }

  // The answer of the node about one of them.
  function About(keys: KeyScheme, i: uint64, ids: Ids): Reply {
    Answer([Entry(keys.derive(i), Account(0, false, ids))])
  }

  lemma {:induction false} TwoMerged(keys: KeyScheme, first: bool, ids0: Ids, ids1: Ids, i: uint64, ids: Ids)
    requires keys.Sound() && i < 2
    ensures Merge(Two(keys, first, ids0, ids1), About(keys, i, ids).accounts)
         == if i == 0 then Two(keys, first, ids, ids1) else Two(keys, first, ids0, ids)
  {
    var t, u := Two(keys, first, ids0, ids1), About(keys, i, ids).accounts;
    assert u[..|u| - 1] == [];
    assert Merge(t, u) == MergeOne(Merge(t, []), u[0]);
    assert t[0].key != t[1].key && t[i].key == u[0].key;
    assert Find(t, u[0].key) == i;
  }

  // With one spendable account the selection is that account.
  lemma {:induction false} TwoSelected(keys: KeyScheme, spent: bool, ids0: Ids, ids1: Ids, amount: uint64, f: Filter)
    requires spent || ids0 == [] || ids1 == []
    ensures
      var t := Two(keys, spent, ids0, ids1);
      && (!spent && ids0 != [] ==> Required(t, amount, f) == [t[0]] && Total([t[0]], f) == Confirmed(ids0, f))
      && ((spent || ids0 == []) && ids1 != [] ==>
            Required(t, amount, f) == [t[1]] && Total([t[1]], f) == Confirmed(ids1, f))
  {
    var t := Two(keys, spent, ids0, ids1);
    var a: Accounts, b: Accounts := [t[0]], [t[1]];
    assert t[..|t| - 1] == a && a[..|a| - 1] == [] && b[..|b| - 1] == [];
    assert Eligible(t) == Eligible([t[0]]) + (if Spendable(t[1].val) then [t[1]] else []);
    assert Eligible([t[0]]) == Eligible([]) + (if Spendable(t[0].val) then [t[0]] else []);
    assert Total([t[0]], f) == Total([], f) + Share(t[0].val, f);
    assert Total([t[1]], f) == Total([], f) + Share(t[1].val, f);
  }

  // Paying out all of the first address marks it, and the search for another
  // unspent index, which stops short of the last one, finds none.
  lemma {:induction false} FirstSend(keys: KeyScheme, order: Order)
    requires keys.Sound() && order.amount == 5 && order.receiver != EMPTY
    ensures
      var w, reply := Init(keys, 1, 0, 1), About(keys, 0, OneOutputOf(order.color, 5));
      && FromNode(reply) && Room(w.am, Selected(keys, w, order, reply)) && Covered(keys, w, order, reply)
      && Send(keys, w, order, reply).state
         == AfterFirst(keys, OneOutputOf(order.color, 5))
  {
    var ids := OneOutputOf(order.color, 5);
    var w, reply := Init(keys, 1, 0, 1), About(keys, 0, ids);
    var t := Two(keys, false, ids, []);
    var c: Accounts := [t[0]];
    TwoAtStart(keys);
    OneOutputWorth(order.color, 5);
    TwoMerged(keys, false, [], [], 0, ids);
    assert Asked(keys, w.am, false) != [] by {
      assert Listed(keys, {}, Unspent, 0, 2) != [];
    }
    TwoSelected(keys, false, ids, [], 5, Only(order.color));
    TwoUnique(keys, false, ids, []);
    TwoUnique(keys, false, [], []);
    hide Init, Listed, Merge, Required, Total, Confirmed, UniqueAccounts, UniqueIds, OneOutputOf, Asked;
    assert Refresh(keys, w, false, reply).accounts == t && Selected(keys, w, order, reply) == c;
    SendDecides(keys, w, order, reply);
    FirstMarked(keys, ids);
    hide MarkAll, MarkIndices, Send;
    assert BuildOutputs(keys, w.am, order, c).am == w.am;
  }

  lemma {:induction false} FirstMarked(keys: KeyScheme, ids: Ids)
    requires keys.Sound() && UniqueIds(ids)
    ensures
      var t := Two(keys, false, ids, []);
      && MarkAll(t, [t[0]]) == Two(keys, true, ids, [])
      && MarkIndices(AmState(1, 1, 0, 1, {}), [t[0]]) == AmState(1, 1, 0, 1, {0})
  {
    var t, am := Two(keys, false, ids, []), AmState(1, 1, 0, 1, {});
    var c: Accounts := [t[0]];
    assert c[..|c| - 1] == [];
    assert t[0].key != t[1].key;
    assert MarkIndices(am, c) == Mark(MarkIndices(am, []), 0);
    assert FirstUnspent({0}, 1, 1, 0) == 0;
    MarkAllPointwise(t, c);
    assert MarkAll(t, c)[0] == MarkedEntry(t[0], c) && MarkAll(t, c)[1] == MarkedEntry(t[1], c);
  }

  // The second send takes three of five from the other address and pays the
  // change to the first one. All accounts carry their indices, the order records
  // are fresh, and the wallet was created with proper brackets.
  lemma {:induction false} ChangeLost(keys: KeyScheme, receiver: Addr, color: Color)
    returns (ws: seq<WalletState>, es: seq<Event>)
    requires keys.Sound() && receiver != EMPTY
    ensures IsRun(keys, ws, es) && |es| == 2 && ws[0] == Init(keys, 1, 0, 1) && WalletInv(ws[0])
    ensures LeavesChange(keys, ws[1], es[1]) && es[1].order == Order(3, receiver, color, EMPTY)
    ensures SpentNext(keys, ws[1].am, ws[1].accounts, ConsumedBy(keys, ws[1], es[1]))
    ensures Indexed(keys, ws[2].accounts)
  {
    var ids := OneOutputOf(color, 5);
    var w0, w1 := Init(keys, 1, 0, 1), AfterFirst(keys, ids);
    var e0 := Sent(Order(5, receiver, color, EMPTY), About(keys, 0, ids));
    var e1 := Sent(Order(3, receiver, color, EMPTY), About(keys, 1, ids));
    FirstSend(keys, e0.order);
    SecondSend(keys, receiver, color);
    StartBracketed(keys);
    hide Init, AfterFirst, OneOutputOf, About, Send, Room, Selected, Covered, FromNode, Indexed, SpentNext;
    assert UniqueAccounts(w0.accounts);
    hide ConsumedBy, WalletInv, UniqueAccounts;
    assert Possible(keys, w0, e0) && After(keys, w0, e0) == w1;
    assert Possible(keys, w1, e1);
    hide LeavesChange, Possible, After;
    TwoSteps(keys, w0, e0, e1);
    ws, es := [w0, w1, After(keys, w1, e1)], [e0, e1];
  }

  lemma {:induction false} StartBracketed(keys: KeyScheme)
    requires keys.Sound()
    ensures WalletInv(Init(keys, 1, 0, 1))
  {
    TwoAtStart(keys);
    TwoUnique(keys, false, [], []);
    hide UniqueAccounts, Init;
  }

  function AfterFirst(keys: KeyScheme, ids: Ids): WalletState {
    WalletState(AmState(1, 1, 0, 1, {0}), Two(keys, true, ids, []))
  }

  lemma {:induction false} SecondSelected(keys: KeyScheme, receiver: Addr, color: Color)
    requires keys.Sound() && receiver != EMPTY
    ensures
      var ids := OneOutputOf(color, 5);
      var w, order, reply := AfterFirst(keys, ids), Order(3, receiver, color, EMPTY), About(keys, 1, ids);
      var t := Two(keys, true, ids, ids);
      && FromNode(reply) && UniqueAccounts(w.accounts) && UniqueAccounts(t)
      && Refresh(keys, w, false, reply).accounts == t && Selected(keys, w, order, reply) == [t[1]]
      && Covered(keys, w, order, reply) && NeedsRemainder(order, [t[1]])
  {
    var ids := OneOutputOf(color, 5);
    var w, reply := AfterFirst(keys, ids), About(keys, 1, ids);
    OneOutputWorth(color, 5);
    TwoUnique(keys, true, ids, ids);
    TwoUnique(keys, true, ids, []);
    assert FromNode(reply) && ids != [];
    assert Refresh(keys, w, false, reply).accounts == Two(keys, true, ids, ids) by {
      TwoMerged(keys, true, ids, [], 1, ids);
      assert Listed(keys, {0}, Unspent, 0, 2) != [];
    }
    TwoSelected(keys, true, ids, ids, 3, Only(color));
    hide Refresh, Required, Total, Confirmed, UniqueAccounts, OneOutputOf, FromNode;
  }

  lemma {:induction false} SecondSend(keys: KeyScheme, receiver: Addr, color: Color)
    requires keys.Sound() && receiver != EMPTY
    ensures
      var ids := OneOutputOf(color, 5);
      var w, e := AfterFirst(keys, ids), Sent(Order(3, receiver, color, EMPTY), About(keys, 1, ids));
      && LeavesChange(keys, w, e) && SpentNext(keys, w.am, w.accounts, ConsumedBy(keys, w, e))
      && Indexed(keys, After(keys, w, e).accounts)
  {
    var ids := OneOutputOf(color, 5);
    var w, order := AfterFirst(keys, ids), Order(3, receiver, color, EMPTY);
    var reply, t := About(keys, 1, ids), Two(keys, true, ids, ids);
    SecondSelected(keys, receiver, color);
    FirstIsNext(keys, ids, [t[1]]);
    assert Indexed(keys, t);
    hide SpentNext, Refresh, Selected, Covered, NeedsRemainder, Total, UniqueAccounts, OneOutputOf, FromNode, Two;
    SendDecides(keys, w, order, reply);
    hide Send, MarkAll, MarkIndices, Indexed, BuildOutputs, Compose;
    MarkAllIndexed(keys, t, [t[1]]);
  }

  lemma {:induction false} FirstIsNext(keys: KeyScheme, ids: Ids, consumed: Accounts)
    ensures
      var w := AfterFirst(keys, ids);
      SpentNext(keys, w.am, w.accounts, consumed)
  {
    assert SpentIn(AfterFirst(keys, ids).accounts, keys.derive(0));
  }
}
