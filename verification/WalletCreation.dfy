/** What wallet_init creates, and what therefore holds over the life of every
    wallet, for any parameters and whatever the node answers. */
module WalletCreation {
  import opened Bytes
  import opened UtHash
  import opened Address
  import opened AddressManager
  import opened OutputIds
  import opened UnspentOutputs
  import opened WalletSpec
  import opened WalletRuns

  lemma {:induction false} InitMaskIs(n: nat)
    ensures InitMask(n).0 == (if n == 0 then 1 else (n - 1) / 8 + 1)
    ensures forall i: nat :: i in InitMask(n).1 <==> i < n
  {
    if n > 0 {
      InitMaskIs(n - 1);
    }
  }

  // The parameters of wallet_init yield a manager with proper brackets exactly
  // when first <= lastUnspent == last and last has a byte in the mask, which
  // only holds bits up to first - 1.
  lemma {:induction false} InitBracketedIff(keys: KeyScheme, last: uint64, first: uint64, lastUnspent: uint64)
    ensures Bracketed(Init(keys, last, first, lastUnspent).am)
            <==> first <= lastUnspent == last && last / 8 == (if first == 0 then 0 else (first - 1) / 8)
  {
    InitMaskIs(first);
    var am := Init(keys, last, first, lastUnspent).am;
    if first <= lastUnspent < last {
      assert lastUnspent + 1 !in am.spent;
    }
  }

  ghost predicate InitTableIs(keys: KeyScheme, t: Accounts, first: uint64) {
    && |t| <= TWO64 && UniqueAccounts(t)
    && forall i :: 0 <= i < |t| ==> t[i] == Entry(keys.derive(i), Account(i, i < first, []))
  }

  lemma {:induction false} InitAccountsAre(keys: KeyScheme, n: nat, first: uint64)
    requires keys.Sound() && n <= TWO64
    ensures |InitAccounts(keys, n, first)| == n && InitTableIs(keys, InitAccounts(keys, n, first), first)
  {
    hide InitTableIs, InitAccounts, Insert, SetSpentAt;
    if n == 0 {
      InitNone(keys, first);
    } else {
      InitAccountsAre(keys, n - 1, first);
      InitNext(keys, InitAccounts(keys, n - 1, first), n - 1, first);
      InitOneMore(keys, n - 1, first);
    }
  }

  lemma {:induction false} InitNone(keys: KeyScheme, first: uint64)
    ensures InitAccounts(keys, 0, first) == [] && InitTableIs(keys, [], first)
  {
  }

  lemma {:induction false} InitOneMore(keys: KeyScheme, n: uint64, first: uint64)
    ensures
      var u := Insert(InitAccounts(keys, n, first), keys.derive(n), Account(n, false, []));
      InitAccounts(keys, n + 1, first) == if n < first then SetSpentAt(u, keys.derive(n), true) else u
  {
    hide Insert, SetSpentAt;
  }

  lemma {:induction false} InitNext(keys: KeyScheme, t: Accounts, n: uint64, first: uint64)
    requires keys.Sound() && |t| == n && InitTableIs(keys, t, first)
    ensures
      var u := Insert(t, keys.derive(n), Account(n, false, []));
      var v := if n < first then SetSpentAt(u, keys.derive(n), true) else u;
      |v| == n + 1 && InitTableIs(keys, v, first)
  {
    NotDerivedYet(keys, t, n);
    InitEntry(t, keys.derive(n), Account(n, false, []));
    hide Insert, SetSpentAt, UniqueAccounts;
  }

  lemma {:induction false} NotDerivedYet(keys: KeyScheme, t: Accounts, n: uint64)
    requires keys.Sound() && |t| == n && forall i :: 0 <= i < n ==> t[i].key == keys.derive(i)
    ensures !Has(t, keys.derive(n))
  {
    HasIff(t, keys.derive(n));
  }

  lemma {:induction false} InitEntry(t: Accounts, a: Addr, account: Account)
    requires UniqueAccounts(t) && !Has(t, a) && account.ids == [] && !account.spent
    ensures
      var u := Insert(t, a, account);
      && u == t + [Entry(a, account)] && UniqueAccounts(u)
      && SetSpentAt(u, a, true) == t + [Entry(a, account.(spent := true))]
      && UniqueAccounts(SetSpentAt(u, a, true))
  {
    var u := Insert(t, a, account);
    assert Unique(u) && u[|t|].key == a;
    FindUnique(u, |t|);
  }

  // Before the first refresh: the three indices as given, the indices below the
  // first unspent one marked, and an account for every index up to the last one.
  lemma {:induction false} InitIs(keys: KeyScheme, last: uint64, first: uint64, lastUnspent: uint64)
    requires keys.Sound()
    ensures
      var w := Init(keys, last, first, lastUnspent);
      && w.am.last == last && w.am.first == first && w.am.lastUnspent == lastUnspent
      && (forall i: nat :: i in w.am.spent <==> i < first)
      && |w.accounts| == last + 1
      && forall i: uint64 :: i <= last ==> w.accounts[i] == Entry(keys.derive(i), Account(i, i < first, []))
  {
    InitAccountsAre(keys, last + 1, first);
    InitMaskIs(first);
    hide InitMask, InitAccounts, UniqueAccounts;
  }

  // Every wallet so created starts a run of which the first refresh is the first
  // event: its accounts are indexed, and table and mask agree. Only if first
  // exceeds last + 1 does the mask hold indices never handed out.
  lemma {:induction false} InitStartsRuns(keys: KeyScheme, last: uint64, first: uint64, lastUnspent: uint64,
                                          reply: Reply)
    requires keys.Sound() && FromNode(reply)
    ensures
      var w := Init(keys, last, first, lastUnspent);
      && IsRun(keys, [w, Refresh(keys, w, true, reply)], [Refreshed(true, reply)])
      && HandedOut(w.am, w.accounts) && FlagsMarked(w) && MarksFlagged(w) && Indexed(keys, w.accounts)
      && Has(w.accounts, keys.derive(0))
      && (Contained(w.am) <==> first <= last + 1)
  {
    hide Refresh, InitMask, InitAccounts, Has, HandedOut, FlagsMarked, MarksFlagged, Indexed, Contained, FromNode;
    hide UniqueAccounts;
    InitAgrees(keys, last, first, lastUnspent);
    InitKnows(keys, last, first, keys.derive(0));
  }

  lemma {:induction false} InitAgrees(keys: KeyScheme, last: uint64, first: uint64, lastUnspent: uint64)
    requires keys.Sound()
    ensures
      var w := Init(keys, last, first, lastUnspent);
      && UniqueAccounts(w.accounts) && HandedOut(w.am, w.accounts) && Indexed(keys, w.accounts)
      && FlagsMarked(w) && MarksFlagged(w) && (Contained(w.am) <==> first <= last + 1)
  {
    InitAccountsAre(keys, last + 1, first);
    InitMaskIs(first);
    hide InitMask, InitAccounts;
    TableAgrees(keys, Init(keys, last, first, lastUnspent), first);
  }

  lemma {:induction false} TableAgrees(keys: KeyScheme, w: WalletState, first: uint64)
    requires InitTableIs(keys, w.accounts, first) && |w.accounts| == w.am.last + 1
    requires forall i: nat :: i in w.am.spent <==> i < first
    ensures UniqueAccounts(w.accounts) && HandedOut(w.am, w.accounts) && Indexed(keys, w.accounts)
    ensures FlagsMarked(w) && MarksFlagged(w) && (Contained(w.am) <==> first <= w.am.last + 1)
  {
    hide UniqueAccounts;
    assert first > w.am.last + 1 ==> w.am.last + 1 in w.am.spent;
  }

  lemma {:induction false} InitKnows(keys: KeyScheme, last: uint64, first: uint64, a: Addr)
    requires keys.Sound()
    ensures Has(InitAccounts(keys, last + 1, first), a) <==> exists k: uint64 :: k <= last && a == keys.derive(k)
  {
    InitAccountsAre(keys, last + 1, first);
    hide InitAccounts, InitTableIs, Has;
    TableKnows(keys, InitAccounts(keys, last + 1, first), first, last, a);
  }

  lemma {:induction false} TableKnows(keys: KeyScheme, t: Accounts, first: uint64, last: uint64, a: Addr)
    requires InitTableIs(keys, t, first) && |t| == last + 1
    ensures Has(t, a) <==> exists k: uint64 :: k <= last && a == keys.derive(k)
  {
    HasIff(t, a);
    hide Has, UniqueAccounts;
    if k: uint64 :| k <= last && a == keys.derive(k) {
      assert t[k].key == a;
    }
  }

  // The wallet handed to the caller has indexed accounts exactly when the first
  // answer names only addresses up to the last index.
  lemma {:induction false} InitIndexedIff(keys: KeyScheme, last: uint64, first: uint64, lastUnspent: uint64,
                                          reply: Reply)
    requires keys.Sound() && FromNode(reply)
    ensures
      Indexed(keys, Refresh(keys, Init(keys, last, first, lastUnspent), true, reply).accounts)
      <==> (reply.Answer? ==> forall i :: 0 <= i < |reply.accounts| ==>
                                exists k: uint64 :: k <= last && reply.accounts[i].key == keys.derive(k))
  {
    var w := Init(keys, last, first, lastUnspent);
    InitStartsRuns(keys, last, first, lastUnspent, reply);
    assert Asked(keys, w.am, true) != [];
    if reply.Answer? {
      IndexedAfterRefresh(keys, w.accounts, reply.accounts);
      forall i | 0 <= i < |reply.accounts|
        ensures Has(w.accounts, reply.accounts[i].key)
                <==> exists k: uint64 :: k <= last && reply.accounts[i].key == keys.derive(k)
      {
        InitKnows(keys, last, first, reply.accounts[i].key);
      }
    }
    hide Indexed, Merge, Listed, InitAccounts, InitMask, IsRun, HandedOut, Contained, FlagsMarked, MarksFlagged;
  }

  // A new address does not enter the table: the next refresh that reports it
  // files it under index 0, with the key of another address.
  lemma {:induction false} NewAddressMisindexed(keys: KeyScheme, w: WalletState, includeSpent: bool, ids: Ids)
    requires keys.Sound() && w.am.last < TWO64 - 1 && UniqueIds(ids) && (includeSpent || w.am.first <= w.am.last + 1)
    requires !Has(w.accounts, keys.derive(w.am.last + 1))
    ensures
      var a := keys.derive(w.am.last + 1);
      var asked := w.(am := NewAddress(w.am));
      var reply := Answer([Entry(a, Account(0, false, ids))]);
      && FromNode(reply) && !Indexed(keys, Refresh(keys, asked, includeSpent, reply).accounts)
      && Refresh(keys, asked, includeSpent, reply).accounts == w.accounts + [Entry(a, Account(0, false, ids))]
  {
    var a, asked := keys.derive(w.am.last + 1), w.(am := NewAddress(w.am));
    var e: Entry<Addr, Account> := Entry(a, Account(0, false, ids));
    NewAddressIs(w.am);
    assert Asked(keys, asked.am, includeSpent) != [];
    hide Asked, NewAddress, Merge, Has;
    MergeUnknown(w.accounts, e);
    assert (w.accounts + [e])[|w.accounts|] == e;
  }

  // So a wallet created with proper brackets can get there in two steps.
  lemma {:induction false} WrongIndexReachable(keys: KeyScheme) returns (ws: seq<WalletState>, es: seq<Event>)
    requires keys.Sound()
    ensures IsRun(keys, ws, es) && ws[0] == Init(keys, 7, 6, 7) && WalletInv(ws[0])
    ensures |es| == 2 && es[0] == NewAddr && Indexed(keys, ws[1].accounts) && !Indexed(keys, ws[2].accounts)
  {
    var w, a := Init(keys, 7, 6, 7), keys.derive(8);
    var asked, reply := w.(am := NewAddress(w.am)), Answer([Entry(a, Account(0, false, []))]);
    InitAgrees(keys, 7, 6, 7);
    InitBracketedIff(keys, 7, 6, 7);
    assert w.am.last == 7 && !Has(w.accounts, a) by {
      InitKnows(keys, 7, 6, a);
    }
    hide Init, Refresh, NewAddress, Indexed, Has, Bracketed, UniqueAccounts, HandedOut, FlagsMarked, MarksFlagged;
    NewAddressMisindexed(keys, w, true, []);
    hide FromNode, Contained;
    TwoSteps(keys, w, NewAddr, Refreshed(true, reply));
    es := [NewAddr, Refreshed(true, reply)];
    ws := [w, asked, Refresh(keys, asked, true, reply)];
  }

  lemma {:induction false} MergeUnknown(t: Accounts, e: Entry<Addr, Account>)
    requires !Has(t, e.key) && !e.val.spent
    ensures Merge(t, [e]) == t + [e]
  {
    assert Merge(t, [e]) == MergeOne(Merge(t, []), e);
  }

  // Over every run of a created wallet, for any parameters and answers.
  lemma {:induction false} CreatedWalletRuns(keys: KeyScheme, last: uint64, first: uint64, lastUnspent: uint64,
                                             ws: seq<WalletState>, es: seq<Event>, k: nat)
    requires keys.Sound() && IsRun(keys, ws, es) && k <= |es| && ws[0] == Init(keys, last, first, lastUnspent)
    ensures FlagsMarked(ws[k]) && HandedOut(ws[k].am, ws[k].accounts)
    ensures Indexed(keys, ws[k].accounts)
            <==> forall j :: 0 <= j < k ==> KnownOnly(keys, ws[j].accounts, MergedBy(keys, ws[j], es[j]))
    ensures Indexed(keys, ws[k].accounts) ==> MarksFlagged(ws[k])
    ensures first <= last + 1 ==> Contained(ws[k].am)
    ensures first <= lastUnspent == last && last / 8 == (if first == 0 then 0 else (first - 1) / 8)
            ==> WalletInv(ws[k])
  {
    InitStartsRuns(keys, last, first, lastUnspent, NoAnswer);
    InitBracketedIff(keys, last, first, lastUnspent);
    RunAgrees(keys, ws, es, k);
    RunIndexedIff(keys, ws, es, k);
    RunKeepsIndices(keys, ws, es, k);
    hide Init, FlagsMarked, MarksFlagged, HandedOut, Contained, Indexed, KnownOnly, MergedBy, After, Possible, Has;
    if WalletInv(ws[0]) {
      RunKeepsInv(keys, ws, es, k);
    }
  }
}
