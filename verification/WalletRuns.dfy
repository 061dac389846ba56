/** What holds over every run of a wallet: any order of refreshes, address
    requests and sends, whatever the node answers. */
module WalletRuns {
  import opened Bytes
  import opened UtHash
  import opened Address
  import opened AddressManager
  import Base64
  import opened Balances
  import opened OutputIds
  import opened UnspentOutputs
  import opened LedgerLaws
  import opened WireFormat
  import opened Transaction
  import opened WalletSpec
  import opened WalletApi
  import opened SendLaws

  // The index of every account was handed out.
  ghost predicate HandedOut(am: AmState, t: Accounts) {
    forall i :: 0 <= i < |t| ==> t[i].val.addrIndex <= am.last
  }

  ghost predicate WalletInv(w: WalletState) {
    Bracketed(w.am) && UniqueAccounts(w.accounts) && HandedOut(w.am, w.accounts)
  }

  // ---------- refresh ----------

  // u continues t: no entry is lost or reordered, and flags and indices stay.
  ghost predicate Continues(t: Accounts, u: Accounts) {
    && |t| <= |u|
    && (forall i :: 0 <= i < |t| ==> u[i].key == t[i].key && u[i].val.spent == t[i].val.spent
                                     && u[i].val.addrIndex == t[i].val.addrIndex)
    && (forall i :: |t| <= i < |u| ==> !u[i].val.spent && u[i].val.addrIndex == 0)
  }

  lemma {:induction false} MergeContinues(t: Accounts, answer: Accounts)
    requires UniqueAccounts(t) && FromNode(Answer(answer))
    ensures Continues(t, Merge(t, answer)) && UniqueAccounts(Merge(t, answer))
  {
    MergeUnique(t, answer);
    if answer != [] {
      var rest := answer[..|answer| - 1];
      assert forall i :: 0 <= i < |rest| ==> rest[i] == answer[i];
      MergeContinues(t, rest);
    }
  }

  // A refresh only ever adds unspent entries with index 0 and replaces ids.
  lemma {:induction false} RefreshContinues(keys: KeyScheme, w: WalletState, includeSpent: bool, reply: Reply)
    requires UniqueAccounts(w.accounts) && FromNode(reply)
    ensures Continues(w.accounts, Refresh(keys, w, includeSpent, reply).accounts)
    ensures UniqueAccounts(Refresh(keys, w, includeSpent, reply).accounts)
    ensures Refresh(keys, w, includeSpent, reply).am == w.am
  {
    if reply.Answer? {
      MergeContinues(w.accounts, reply.accounts);
    }
  }

  // u extends t: no entry is lost, reordered, given another index or made
  // unspent again.
  ghost predicate Extends(t: Accounts, u: Accounts) {
    && |t| <= |u|
    && (forall i :: 0 <= i < |t| ==> u[i].key == t[i].key && u[i].val.addrIndex == t[i].val.addrIndex
                                     && (t[i].val.spent ==> u[i].val.spent))
    && (forall i :: |t| <= i < |u| ==> u[i].val.addrIndex == 0)
  }

  lemma {:induction false} ExtendsSpent(t: Accounts, u: Accounts, a: Addr)
    requires Extends(t, u) && Unique(u)
    ensures SpentIn(t, a) ==> SpentIn(u, a)
  {
    if SpentIn(t, a) {
      FindUnique(u, Find(t, a));
    }
  }

  // After a refresh an account holds what the answer says of it, or, if the
  // answer does not mention it, what it held before.
  lemma {:induction false} MergedIds(t: Accounts, answer: Accounts, a: Addr)
    requires UniqueAccounts(t) && FromNode(Answer(answer)) && (Has(t, a) || Has(answer, a))
    ensures Has(Merge(t, answer), a)
    ensures Merge(t, answer)[Find(Merge(t, answer), a)].val.ids
         == if Has(answer, a) then answer[Find(answer, a)].val.ids else t[Find(t, a)].val.ids
  {
    MergedKeys(t, answer, a);
    if answer != [] {
      var rest, e := answer[..|answer| - 1], answer[|answer| - 1];
      hide Find, MergeOne, Continues, Unique;
      assert FromNode(Answer(rest)) by {
        LastNotBefore(answer);
        assert forall i :: 0 <= i < |rest| ==> rest[i] == answer[i];
      }
      HasLast(answer, a);
      MergedKeys(t, rest, a);
      MergeContinues(t, rest);
      MergedOneIds(Merge(t, rest), e, a);
      FindUnique(answer, |answer| - 1);
      if a != e.key {
        MergedIds(t, rest, a);
        if Has(rest, a) {
          FindPrefix(answer, a);
        }
      }
    }
  }

  // New accounts stand at the end, in the order of the answer.
  lemma {:induction false} MergedOrder(t: Accounts, answer: Accounts)
    requires UniqueAccounts(t) && FromNode(Answer(answer))
    ensures |t| <= |Merge(t, answer)| && Merge(t, answer)[|t|..] == Missing(answer, t)
  {
    if answer != [] {
      var rest, e := answer[..|answer| - 1], answer[|answer| - 1];
      assert forall i :: 0 <= i < |rest| ==> rest[i] == answer[i];
      MergedOrder(t, rest);
      MergedKeys(t, rest, e.key);
      LastNotBefore(answer);
      var u := Merge(t, rest);
      assert e == Entry(e.key, Account(e.val.addrIndex, false, e.val.ids));
      if Has(t, e.key) {
        MergeContinues(t, rest);
        OldKeyStays(t, u, e.key);
        assert Merge(t, answer)[|t|..] == u[|t|..];
      } else {
        assert Merge(t, answer)[|t|..] == u[|t|..] + [e];
      }
      hide Has, UniqueAccounts;
    }
  }

  lemma {:induction false} OldKeyStays(t: Accounts, u: Accounts, a: Addr)
    requires |t| <= |u| && Has(t, a) && forall i :: 0 <= i < |t| ==> u[i].key == t[i].key
    ensures Find(u, a) < |t|
  {
  }

  lemma {:induction false} MergedOneIds(t: Accounts, e: Entry<Addr, Account>, a: Addr)
    requires Unique(t) && (Has(t, a) || e.key == a)
    ensures
      var u := MergeOne(t, e);
      Has(u, a) && u[Find(u, a)].val.ids == if e.key == a then e.val.ids else t[Find(t, a)].val.ids
  {
    var u := MergeOne(t, e);
    assert Unique(u);
    var i := if Has(t, a) then Find(t, a) else |t|;
    assert u[i].key == a;
    FindUnique(u, i);
  }

  // ---------- which key signs ----------

  // Every account carries the index its address was derived from.
  ghost predicate Indexed(keys: KeyScheme, t: Accounts) {
    forall i :: 0 <= i < |t| ==> t[i].key == keys.derive(t[i].val.addrIndex)
  }

  // The answer names no address that the table lacks, save the one of index 0.
  ghost predicate KnownOnly(keys: KeyScheme, t: Accounts, answer: Accounts) {
    forall i :: 0 <= i < |answer| ==> Has(t, answer[i].key) || answer[i].key == keys.derive(0)
  }

  // A merge leaves an indexed table exactly when it starts from one and reports
  // only known addresses: a wrong index is never repaired.
  lemma {:induction false} IndexedAfterRefresh(keys: KeyScheme, t: Accounts, answer: Accounts)
    requires UniqueAccounts(t) && FromNode(Answer(answer))
    ensures Indexed(keys, Merge(t, answer)) <==> Indexed(keys, t) && KnownOnly(keys, t, answer)
  {
    if answer != [] {
      var rest, e := answer[..|answer| - 1], answer[|answer| - 1];
      hide MergeOne, Indexed, KnownOnly, Has;
      assert FromNode(Answer(rest)) && e.val.addrIndex == 0 by {
        assert forall i :: 0 <= i < |rest| ==> rest[i] == answer[i];
      }
      hide FromNode, Unique;
      IndexedAfterRefresh(keys, t, rest);
      MergedKeys(t, rest, e.key);
      LastNotBefore(answer);
      IndexedAfterOne(keys, Merge(t, rest), e);
      KnownOnlyLast(keys, t, answer);
    }
  }

  lemma {:induction false} KnownOnlyLast(keys: KeyScheme, t: Accounts, answer: Accounts)
    requires answer != []
    ensures
      var rest, e := answer[..|answer| - 1], answer[|answer| - 1];
      KnownOnly(keys, t, answer) <==> KnownOnly(keys, t, rest) && (Has(t, e.key) || e.key == keys.derive(0))
  {
    var rest := answer[..|answer| - 1];
    assert forall i :: 0 <= i < |rest| ==> rest[i] == answer[i];
    hide Has;
  }

  lemma {:induction false} IndexedAfterOne(keys: KeyScheme, t: Accounts, e: Entry<Addr, Account>)
    requires e.val.addrIndex == 0
    ensures Indexed(keys, MergeOne(t, e)) <==> Indexed(keys, t) && (Has(t, e.key) || e.key == keys.derive(0))
  {
    var u := MergeOne(t, e);
    if Has(t, e.key) {
      assert |u| == |t|;
      assert forall i :: 0 <= i < |t| ==> u[i].key == t[i].key && u[i].val.addrIndex == t[i].val.addrIndex;
    } else {
      assert u[|t|].key == e.key && u[|t|].val.addrIndex == 0;
      assert forall i :: 0 <= i < |t| ==> u[i] == t[i];
    }
  }

  lemma {:induction false} MergedKeys(t: Accounts, answer: Accounts, a: Addr)
    ensures Has(Merge(t, answer), a) <==> Has(t, a) || Has(answer, a)
  {
    if answer != [] {
      var rest, e := answer[..|answer| - 1], answer[|answer| - 1];
      MergedKeys(t, rest, a);
      HasLast(answer, a);
      HasIff(Merge(t, rest), a);
      HasIff(MergeOne(Merge(t, rest), e), a);
      var u := Merge(t, rest);
      if Has(u, e.key) {
        assert forall i :: 0 <= i < |u| ==> MergeOne(u, e)[i].key == u[i].key;
        if e.key == a {
          assert Has(u, a);
        }
      } else {
        assert MergeOne(u, e)[|u|].key == e.key;
        assert forall i :: 0 <= i < |u| ==> MergeOne(u, e)[i] == u[i];
      }
    }
  }

  // The public key in a transaction belongs to the consumed address exactly when
  // the account carries that address's index; the wallet's own check passes
  // either way.
  lemma {:induction false} SignedWithOwnKey(keys: KeyScheme, c: Accounts, m: seq<byte>, i: nat, index: uint64)
    requires keys.Sound() && Unique(c) && i < |c| && c[i].key == keys.derive(index)
    ensures Has(SignAll(keys, c, m), c[i].key)
    ensures
      var sig := SignAll(keys, c, m)[Find(SignAll(keys, c, m), c[i].key)];
      && sig.val == EdSignature(keys.publicKey(c[i].val.addrIndex), keys.sign(c[i].val.addrIndex, m))
      && (c[i].key == keys.derive(c[i].val.addrIndex) <==> c[i].val.addrIndex == index)
  {
    SignAllEntries(keys, c, m);
    FindUnique(SignAll(keys, c, m), i);
  }

  // ---------- send ----------

  // The marking loop adds the indices of the consumed accounts and no other.
  lemma {:induction false} MarkIndicesLaw(am: AmState, c: Accounts)
    ensures
      var b := MarkIndices(am, c);
      b.last == am.last && b.spent == am.spent + IndicesOf(c) && (am.first <= am.last ==> b.first <= b.last)
  {
    if c != [] {
      var d := c[..|c| - 1];
      MarkIndicesLaw(am, d);
      MarkRetains(MarkIndices(am, d), c[|c| - 1].val.addrIndex);
      hide Mark;
      IndicesOfLast(c);
    }
  }

  lemma {:induction false} MarkIndicesKeeps(am: AmState, c: Accounts)
    requires Bracketed(am) && HandedOut(am, c)
    ensures Bracketed(MarkIndices(am, c))
  {
    if c != [] {
      var d := c[..|c| - 1];
      MarkIndicesKeeps(am, d);
      MarkIndicesLaw(am, d);
      MarkKeeps(MarkIndices(am, d), c[|c| - 1].val.addrIndex);
      hide Bracketed, Mark;
    }
  }

  // After the marking loop the first unspent index is the least unspent one from
  // where it stood, if one is left below the last index and it stood at an
  // unspent one before.
  lemma {:induction false} MarkIndicesFirst(am: AmState, c: Accounts)
    requires am.first !in am.spent
    ensures
      var b := MarkIndices(am, c);
      && am.first <= b.first && (forall k: nat :: am.first <= k < b.first ==> k in b.spent)
      && (b.first in b.spent ==> forall k: uint64 :: am.first <= k < am.last ==> k in b.spent)
  {
    if c != [] {
      var d := c[..|c| - 1];
      MarkIndicesFirst(am, d);
      MarkIndicesLaw(am, d);
      MarkFirstIff(MarkIndices(am, d), c[|c| - 1].val.addrIndex);
      MarkRetains(MarkIndices(am, d), c[|c| - 1].val.addrIndex);
      hide Mark;
    }
  }

  // The last unspent index likewise is the greatest one up to where it stood.
  lemma {:induction false} MarkIndicesLast(am: AmState, c: Accounts)
    requires am.lastUnspent !in am.spent
    ensures
      var b := MarkIndices(am, c);
      && b.lastUnspent <= am.lastUnspent
      && (forall k: nat :: b.lastUnspent < k <= am.lastUnspent ==> k in b.spent)
      && (b.lastUnspent in b.spent ==> forall k: uint64 :: 0 < k <= am.lastUnspent ==> k in b.spent)
  {
    if c != [] {
      var d := c[..|c| - 1];
      MarkIndicesLast(am, d);
      MarkLastIff(MarkIndices(am, d), c[|c| - 1].val.addrIndex);
      MarkRetains(MarkIndices(am, d), c[|c| - 1].val.addrIndex);
      hide Mark;
    }
  }

  function IndicesOf(c: Accounts): set<nat> {
    set i | 0 <= i < |c| :: c[i].val.addrIndex as nat
  }

  lemma {:induction false} IndicesOfLast(c: Accounts)
    requires c != []
    ensures IndicesOf(c) == IndicesOf(c[..|c| - 1]) + {c[|c| - 1].val.addrIndex as nat}
  {
    var d := c[..|c| - 1];
    assert forall i :: 0 <= i < |d| ==> d[i] == c[i];
  }

  // The manager that output building leaves behind.
  lemma {:induction false} BuildLaw(keys: KeyScheme, am: AmState, order: Order, c: Accounts)
    requires Room(am, c)
    ensures
      var b := BuildOutputs(keys, am, order, c).am;
      && am.last <= b.last && b.first == am.first
      && (forall k: nat :: k <= am.last ==> (k in b.spent <==> k in am.spent))
      && (Contained(am) ==> b.spent == am.spent)
      && (Bracketed(am) ==> Bracketed(b))
  {
    var i := ChooseRemainder(keys, am, c).index;
    GrowLaw(am, i);
    if Bracketed(am) {
      GrowKeeps(am, i);
    }
    hide GrowAm, Bracketed, Contained;
  }

  // A send never fails its own validation: it goes through exactly when it is
  // covered, and otherwise changes nothing but by the refresh.
  lemma {:induction false} SendDecides(keys: KeyScheme, w: WalletState, order: Order, reply: Reply)
    requires keys.Sound() && UniqueAccounts(w.accounts) && FromNode(reply)
    requires Room(w.am, Selected(keys, w, order, reply))
    ensures
      var s, w1, c := Send(keys, w, order, reply), Refresh(keys, w, false, reply), Selected(keys, w, order, reply);
      if Covered(keys, w, order, reply)
      then var b := BuildOutputs(keys, w.am, order, c);
           s == Sending(0, WalletState(MarkIndices(b.am, c), MarkAll(w1.accounts, c)), b.remainder,
                        [Compose(keys, w.am, order, c)], c)
      else s == Sending(-1, if order.amount == 0 || order.receiver == EMPTY then w else w1, order.remainder, [], [])
  {
    var t, c := Refresh(keys, w, false, reply).accounts, Selected(keys, w, order, reply);
    RefreshContinues(keys, w, false, reply);
    hide Total, Transact, Refresh, Required, FromNode, Continues, UniqueAccounts, Unique;
    hide Compose, BuildOutputs, MarkIndices, MarkAll;
    RequiredUnique(t, order.amount, Only(order.color));
    if c != [] {
      TransactSucceeds(keys, Refresh(keys, w, false, reply), order, c);
    }
  }

  // A send consumes no more than the amount calls for: unspent addresses with
  // outputs in table order, none of them passed over, and the last one was needed.
  lemma {:induction false} SendConsumes(keys: KeyScheme, w: WalletState, order: Order, reply: Reply)
    requires keys.Sound() && UniqueAccounts(w.accounts) && FromNode(reply)
    requires Room(w.am, Selected(keys, w, order, reply))
    ensures
      var t, s := Refresh(keys, w, false, reply).accounts, Send(keys, w, order, reply);
      && (s.ret != 0 ==> s.consumed == [])
      && (s.ret == 0 ==> s.consumed != [] && Wrap(Total(s.consumed, Only(order.color))) >= order.amount)
      && (forall m :: 0 < m < |s.consumed| ==> Wrap(Total(s.consumed[..m], Only(order.color))) < order.amount)
      && (forall e :: e in s.consumed ==> e in t && !e.val.spent && e.val.ids != [])
      && (forall i, j :: 0 <= i < j < |s.consumed| ==> Find(t, s.consumed[i].key) < Find(t, s.consumed[j].key))
      && (forall i, j :: 0 <= i < j < |t| && t[j] in s.consumed && !t[i].val.spent && t[i].val.ids != []
                         ==> t[i] in s.consumed)
  {
    var t := Refresh(keys, w, false, reply).accounts;
    hide *;
    ConsumedIs(keys, w, order, reply);
    RefreshContinues(keys, w, false, reply);
    UniqueKeys(t);
    SelectionTakes(t, order.amount, Only(order.color));
    SelectionStops(t, order.amount, Only(order.color));
  }

  lemma {:induction false} UniqueKeys(t: Accounts)
    requires UniqueAccounts(t)
    ensures Unique(t)
  {
  }

  lemma {:induction false} ConsumedIs(keys: KeyScheme, w: WalletState, order: Order, reply: Reply)
    requires keys.Sound() && UniqueAccounts(w.accounts) && FromNode(reply)
    requires Room(w.am, Selected(keys, w, order, reply))
    ensures
      var s, f := Send(keys, w, order, reply), Only(order.color);
      var c := Required(Refresh(keys, w, false, reply).accounts, order.amount, f);
      s.consumed == (if s.ret == 0 then c else []) && (s.ret == 0 ==> c != [] && Wrap(Total(c, f)) >= order.amount)
  {
    hide Send, Refresh, Required, FromNode, MarkAll, MarkIndices, BuildOutputs, Compose, Room, UniqueAccounts;
    hide Total, Wrap;
    SendDecides(keys, w, order, reply);
  }

  // With true totals: a send succeeds exactly when the order is well-formed and
  // the refreshed table covers the amount.
  lemma {:induction false} SendSucceedsIff(keys: KeyScheme, w: WalletState, order: Order, reply: Reply)
    requires keys.Sound() && UniqueAccounts(w.accounts) && FromNode(reply)
    requires Room(w.am, Selected(keys, w, order, reply))
    requires NoDebt(Refresh(keys, w, false, reply).accounts)
    requires Total(Refresh(keys, w, false, reply).accounts, Only(order.color)) < TWO64
    ensures Send(keys, w, order, reply).ret == 0
            <==> order.amount > 0 && order.receiver != EMPTY
                 && Total(Refresh(keys, w, false, reply).accounts, Only(order.color)) >= order.amount
  {
    RefreshContinues(keys, w, false, reply);
    hide Total, Send, Refresh, Required, FromNode, NoDebt, Bracketed, Continues, UniqueAccounts;
    SendDecides(keys, w, order, reply);
    if order.amount > 0 {
      SelectedSuffices(Refresh(keys, w, false, reply).accounts, order.amount, Only(order.color));
    }
  }

  lemma {:induction false} SelectedSuffices(t: Accounts, amount: uint64, f: Filter)
    requires UniqueAccounts(t) && NoDebt(t) && Total(t, f) < TWO64 && amount > 0
    ensures Unique(Required(t, amount, f))
    ensures Required(t, amount, f) != [] && Wrap(Total(Required(t, amount, f), f)) >= amount <==> Total(t, f) >= amount
  {
    assert Total([], f) == 0;
    hide Total, Required, Eligible, NoDebt;
    RequiredUnique(t, amount, f);
    SelectionLaw(t, amount, f);
  }

  // After a successful send the table has lost the balance of what was consumed,
  // in every colour, and only spent flags have changed.
  lemma {:induction false} SendDebits(keys: KeyScheme, w: WalletState, order: Order, reply: Reply, f: Filter)
    requires keys.Sound() && UniqueAccounts(w.accounts) && FromNode(reply)
    requires Room(w.am, Selected(keys, w, order, reply))
    requires Covered(keys, w, order, reply)
    ensures
      var before, s := Refresh(keys, w, false, reply).accounts, Send(keys, w, order, reply);
      && Total(s.state.accounts, f) == Total(before, f) - Total(s.consumed, f)
      && |s.state.accounts| == |before|
      && forall i :: 0 <= i < |before| ==> s.state.accounts[i] == MarkedEntry(before[i], s.consumed)
  {
    var before := Refresh(keys, w, false, reply).accounts;
    SendDecides(keys, w, order, reply);
    RefreshContinues(keys, w, false, reply);
    hide Send, Refresh, Total, Required, Covered, FromNode, UniqueAccounts, Continues;
    MarkingDebits(before, order.amount, Only(order.color), f);
    MarkAllPointwise(before, Selected(keys, w, order, reply));
  }

  // Of the indices handed out before, a successful send marks those of the
  // consumed accounts and no other; if no index was spent ahead of being handed
  // out, this is all that happens to the spent set.
  lemma {:induction false} TransactMarksIndices(keys: KeyScheme, w: WalletState, order: Order, c: Accounts)
    requires Room(w.am, c)
    ensures
      var s := Transact(keys, w, order, c);
      var marked := if s.ret == 0 then IndicesOf(c) else {};
      && (forall k: nat :: k <= w.am.last ==> (k in s.state.am.spent <==> k in w.am.spent || k in marked))
      && (Contained(w.am) ==> s.state.am.spent == w.am.spent + marked)
      && w.am.last <= s.state.am.last && (w.am.first <= w.am.last ==> s.state.am.first <= s.state.am.last)
  {
    BuildLaw(keys, w.am, order, c);
    MarkIndicesLaw(BuildOutputs(keys, w.am, order, c).am, c);
    hide BuildOutputs, MarkIndices, IndicesOf, Bracketed, Contained, Compose, AllSigned, MarkAll;
  }

  lemma {:induction false} MarkedExtends(t: Accounts, done: Accounts)
    requires UniqueAccounts(t)
    ensures UniqueAccounts(MarkAll(t, done)) && |MarkAll(t, done)| == |t| && Extends(t, MarkAll(t, done))
  {
    MarkAllPointwise(t, done);
  }

  // A send refreshes the table and then at most marks entries of it.
  lemma {:induction false} SendExtends(keys: KeyScheme, w: WalletState, order: Order, reply: Reply)
    requires UniqueAccounts(w.accounts) && FromNode(reply) && Room(w.am, Selected(keys, w, order, reply))
    ensures Extends(w.accounts, Send(keys, w, order, reply).state.accounts)
    ensures UniqueAccounts(Send(keys, w, order, reply).state.accounts)
  {
    var w1 := Refresh(keys, w, false, reply);
    RefreshContinues(keys, w, false, reply);
    var c := Selected(keys, w, order, reply);
    MarkedExtends(w1.accounts, c);
    assert Send(keys, w, order, reply).state.accounts in {w.accounts, w1.accounts, MarkAll(w1.accounts, c)} by {
      hide Refresh, Required, MarkAll, UniqueAccounts, Total, FromNode, BuildOutputs, MarkIndices, AllSigned, Compose;
    }
    hide Send, Refresh, Selected, MarkAll, UniqueAccounts, FromNode;
  }

  lemma {:induction false} HandedOutPart(am: AmState, t: Accounts, c: Accounts)
    requires HandedOut(am, t) && forall e :: e in c ==> e in t
    ensures HandedOut(am, c)
  {
    forall i | 0 <= i < |c| ensures c[i].val.addrIndex <= am.last {
      var e := c[i];
      assert e in c;
      var j :| 0 <= j < |t| && t[j] == e;
    }
  }

  lemma {:induction false} SendBracketed(keys: KeyScheme, w: WalletState, order: Order, reply: Reply)
    requires WalletInv(w) && FromNode(reply) && Room(w.am, Selected(keys, w, order, reply))
    ensures Bracketed(Send(keys, w, order, reply).state.am)
  {
    var w1, c := Refresh(keys, w, false, reply), Selected(keys, w, order, reply);
    RefreshContinues(keys, w, false, reply);
    RequiredUnique(w1.accounts, order.amount, Only(order.color));
    assert HandedOut(w1.am, w1.accounts);
    hide Required, BuildOutputs, Bracketed, Refresh, MarkIndices, UniqueAccounts, Continues, FromNode, Total, Unique;
    BuildLaw(keys, w.am, order, c);
    HandedOutPart(w.am, w1.accounts, c);
    MarkIndicesKeeps(BuildOutputs(keys, w.am, order, c).am, c);
  }

  // What a send posts: one text from which a reader recovers inputs that name
  // every output of the consumed addresses once and no other, a signature of each
  // consumed address that verifies, and outputs worth what was consumed, if the
  // caller left the remainder address empty.
  lemma {:induction false} SentTransaction(keys: KeyScheme, w: WalletState, order: Order, reply: Reply)
    requires keys.Sound() && UniqueAccounts(w.accounts) && FromNode(reply)
    requires Room(w.am, Selected(keys, w, order, reply)) && Covered(keys, w, order, reply)
    requires |InputsOf(Selected(keys, w, order, reply))| < TWO32
    requires Posts(Send(keys, w, order, reply).parts) != []
    ensures
      var s := Send(keys, w, order, reply);
      var outputs := BuildOutputs(keys, w.am, order, s.consumed).outputs;
      var r := Parse(Base64.Decoding(Base64.Significant(Posts(s.parts)[0])));
      && |Posts(s.parts)| == 1 && r.Read? && r.rest == []
      && Distinct(r.value.inputs) && (forall x :: x in r.value.inputs <==> Holds(s.consumed, x))
      && |r.value.outputs| == |outputs|
      && (forall i :: 0 <= i < |outputs| ==> r.value.outputs[i] == (outputs[i].address, outputs[i].balances))
      && |r.value.sigs| == |s.consumed|
      && (forall i :: 0 <= i < |s.consumed| ==>
            keys.verify(r.value.sigs[i].signature, Essence(r.value.inputs, outputs), r.value.sigs[i].publicKey))
      && (order.remainder == EMPTY ==>
            Wrap(OutputsWorth(outputs, order.color)) == Wrap(Total(s.consumed, Only(order.color))))
  {
    var c := Selected(keys, w, order, reply);
    var outputs := BuildOutputs(keys, w.am, order, c).outputs;
    RefreshContinues(keys, w, false, reply);
    hide Send, Refresh, Required, Posts, Parse, InputsOf, BuildOutputs, Essence, OutputsWorth, Total, Wire, SignAll;
    hide UniqueAccounts, FromNode, Continues, MarkAll, MarkIndices, Compose, Room, Distinct, Unique;
    SendPosts(keys, w, order, reply);
    SendDecides(keys, w, order, reply);
    RequiredUnique(Refresh(keys, w, false, reply).accounts, order.amount, Only(order.color));
    Conservation(keys, w.am, order, c);
    InputsDistinct(c);
    forall x ensures x in InputsOf(c) <==> Holds(c, x) {
      InputsExact(c, x);
    }
    SignaturesVerify(keys, c, Essence(InputsOf(c), outputs));
  }

  lemma {:induction false} SignaturesVerify(keys: KeyScheme, c: Accounts, m: seq<byte>)
    requires keys.Sound()
    ensures forall i :: 0 <= i < |c| ==>
              keys.verify(keys.sign(c[i].val.addrIndex, m), m, keys.publicKey(c[i].val.addrIndex))
  {
  }

  // ---------- runs ----------

  datatype Event =
    | Refreshed(includeSpent: bool, reply: Reply)
    | NewAddr
    | AddrAt(index: uint64)
    | Sent(order: Order, answer: Reply)

  // The index space is not exhausted and the answer is one the deserializer builds.
  ghost predicate Possible(keys: KeyScheme, w: WalletState, e: Event) {
    match e
    case Refreshed(includeSpent, reply) => FromNode(reply)
    case NewAddr => true
    case AddrAt(i) => true
    case Sent(order, reply) => FromNode(reply) && Room(w.am, Selected(keys, w, order, reply))
  }

  ghost function After(keys: KeyScheme, w: WalletState, e: Event): WalletState
    requires Possible(keys, w, e)
  {
    match e
    case Refreshed(includeSpent, reply) => Refresh(keys, w, includeSpent, reply)
    case NewAddr => w.(am := NewAddress(w.am))
    case AddrAt(i) => w.(am := GetAddress(w.am, i))
    case Sent(order, reply) => Send(keys, w, order, reply).state
  }

  ghost function ConsumedBy(keys: KeyScheme, w: WalletState, e: Event): Accounts
    requires Possible(keys, w, e)
  {
    match e
    case Sent(order, reply) => Send(keys, w, order, reply).consumed
    case _ => []
  }

  // A run from any wallet whose table has unique keys.
  ghost predicate IsRun(keys: KeyScheme, ws: seq<WalletState>, es: seq<Event>) {
    && |ws| == |es| + 1 && UniqueAccounts(ws[0].accounts)
    && forall k :: 0 <= k < |es| ==> Possible(keys, ws[k], es[k]) && ws[k + 1] == After(keys, ws[k], es[k])
  }

  lemma {:induction false} RunStep(keys: KeyScheme, ws: seq<WalletState>, es: seq<Event>, k: nat)
    requires IsRun(keys, ws, es) && 0 < k <= |es|
    ensures |ws| == |es| + 1
    ensures Possible(keys, ws[k - 1], es[k - 1]) && ws[k] == After(keys, ws[k - 1], es[k - 1])
  {
    assert ws[k - 1 + 1] == After(keys, ws[k - 1], es[k - 1]);
  }

  lemma {:induction false} TwoSteps(keys: KeyScheme, w: WalletState, d: Event, e: Event)
    requires UniqueAccounts(w.accounts) && Possible(keys, w, d) && Possible(keys, After(keys, w, d), e)
    ensures
      var v := After(keys, w, d);
      IsRun(keys, [w, v, After(keys, v, e)], [d, e])
  {
    hide After, Possible, UniqueAccounts;
  }

  lemma {:induction false} AfterExtends(keys: KeyScheme, w: WalletState, e: Event)
    requires UniqueAccounts(w.accounts) && Possible(keys, w, e)
    ensures Extends(w.accounts, After(keys, w, e).accounts) && UniqueAccounts(After(keys, w, e).accounts)
  {
    match e
    case Refreshed(includeSpent, reply) => RefreshContinues(keys, w, includeSpent, reply);
    case NewAddr =>
    case AddrAt(i) =>
    case Sent(order, reply) => SendExtends(keys, w, order, reply);
  }

  // Over every run the table only grows: no entry is lost, reordered, given
  // another index or made unspent again, and keys stay unique.
  lemma {:induction false} RunExtends(keys: KeyScheme, ws: seq<WalletState>, es: seq<Event>, j: nat, k: nat)
    requires IsRun(keys, ws, es) && j <= k <= |es|
    ensures Extends(ws[j].accounts, ws[k].accounts) && UniqueAccounts(ws[k].accounts)
    decreases k
  {
    if k > 0 {
      hide IsRun, UniqueAccounts, After, Possible;
      RunStep(keys, ws, es, k);
      RunExtends(keys, ws, es, if j < k then j else k - 1, k - 1);
      AfterExtends(keys, ws[k - 1], es[k - 1]);
    }
  }

  lemma {:induction false} SpentStays(keys: KeyScheme, ws: seq<WalletState>, es: seq<Event>, j: nat, k: nat, a: Addr)
    requires IsRun(keys, ws, es) && j <= k <= |es| && SpentIn(ws[j].accounts, a)
    ensures SpentIn(ws[k].accounts, a)
  {
    RunExtends(keys, ws, es, j, k);
    ExtendsSpent(ws[j].accounts, ws[k].accounts, a);
  }

  lemma {:induction false} MarkAllSpentIff(t: Accounts, done: Accounts, a: Addr)
    requires Unique(t)
    ensures SpentIn(MarkAll(t, done), a) <==> SpentIn(t, a) || (Has(t, a) && Has(done, a))
  {
    MarkAllPointwise(t, done);
    HasIff(t, a);
    HasIff(MarkAll(t, done), a);
    if Has(t, a) {
      FindUnique(MarkAll(t, done), Find(t, a));
    }
  }

  // A refresh leaves the spent addresses as they are.
  lemma {:induction false} ContinuesSpentIff(t: Accounts, u: Accounts, a: Addr)
    requires Continues(t, u) && Unique(u)
    ensures SpentIn(u, a) <==> SpentIn(t, a)
  {
    HasIff(t, a);
    if Has(t, a) {
      FindUnique(u, Find(t, a));
    }
  }

  // What a selection takes is in the table and not spent.
  lemma {:induction false} SelectedUnspent(t: Accounts, required: uint64, f: Filter, a: Addr)
    requires UniqueAccounts(t)
    ensures Has(Required(t, required, f), a) ==> Has(t, a) && !SpentIn(t, a)
  {
    var c := Required(t, required, f);
    RequiredUnique(t, required, f);
    if Has(c, a) {
      var e := c[Find(c, a)];
      assert e in c;
      var i :| 0 <= i < |t| && t[i] == e;
      FindUnique(t, i);
    }
  }

  // What an event consumes was not spent before and is spent after.
  lemma {:induction false} ConsumedFlags(keys: KeyScheme, w: WalletState, e: Event, a: Addr)
    requires UniqueAccounts(w.accounts) && Possible(keys, w, e)
    ensures Has(ConsumedBy(keys, w, e), a) ==> !SpentIn(w.accounts, a) && SpentIn(After(keys, w, e).accounts, a)
  {
    if Has(ConsumedBy(keys, w, e), a) {
      var w1, c := Refresh(keys, w, false, e.answer), Selected(keys, w, e.order, e.answer);
      RefreshContinues(keys, w, false, e.answer);
      hide Required, Refresh, Has, SpentIn, UniqueAccounts, Continues, Total;
      ContinuesSpentIff(w.accounts, w1.accounts, a);
      SelectedUnspent(w1.accounts, e.order.amount, Only(e.order.color), a);
      MarkAllSpentIff(w1.accounts, c, a);
    }
  }

  // No address is consumed by two sends of a run.
  lemma {:induction false} NoAddressConsumedTwice(keys: KeyScheme, ws: seq<WalletState>, es: seq<Event>,
                                                  j: nat, k: nat, a: Addr)
    requires IsRun(keys, ws, es) && j < k < |es|
    ensures !(Has(ConsumedBy(keys, ws[j], es[j]), a) && Has(ConsumedBy(keys, ws[k], es[k]), a))
  {
    RunExtends(keys, ws, es, 0, j);
    RunExtends(keys, ws, es, 0, k);
    if Has(ConsumedBy(keys, ws[j], es[j]), a) && Has(ConsumedBy(keys, ws[k], es[k]), a) {
      ConsumedFlags(keys, ws[j], es[j], a);
      SpentStays(keys, ws, es, j + 1, k, a);
      ConsumedFlags(keys, ws[k], es[k], a);
    }
  }

  // ---------- the address manager over a run ----------

  lemma {:induction false} AfterRetains(keys: KeyScheme, w: WalletState, e: Event)
    requires Possible(keys, w, e)
    ensures
      var am := After(keys, w, e).am;
      Retains(w.am, am) && (w.am.first <= w.am.last ==> am.first <= am.last)
  {
    match e
    case Refreshed(includeSpent, reply) =>
    case NewAddr => GetAddressRetains(w.am, Wrap(w.am.last + 1));
    case AddrAt(i) => GetAddressRetains(w.am, i);
    case Sent(order, reply) =>
      var w1 := Refresh(keys, w, false, reply);
      assert w1.am == w.am;
      hide Refresh, Required, Transact, Bracketed, Total;
      TransactMarksIndices(keys, w1, order, Selected(keys, w, order, reply));
  }

  // The index of every account stays handed out, and only such indices are spent.
  lemma {:induction false} AfterKeepsIndices(keys: KeyScheme, w: WalletState, e: Event)
    requires UniqueAccounts(w.accounts) && Possible(keys, w, e) && HandedOut(w.am, w.accounts)
    ensures
      var v := After(keys, w, e);
      HandedOut(v.am, v.accounts) && (Contained(w.am) ==> Contained(v.am))
  {
    AfterExtends(keys, w, e);
    AfterRetains(keys, w, e);
    match e
    case Refreshed(includeSpent, reply) =>
    case NewAddr => GetAddressRetains(w.am, Wrap(w.am.last + 1));
    case AddrAt(i) => GetAddressRetains(w.am, i);
    case Sent(order, reply) =>
      SentWithin(keys, w, order, reply);
  }

  lemma {:induction false} SentWithin(keys: KeyScheme, w: WalletState, order: Order, reply: Reply)
    requires UniqueAccounts(w.accounts) && FromNode(reply) && Room(w.am, Selected(keys, w, order, reply))
    requires HandedOut(w.am, w.accounts)
    ensures HandedOut(w.am, Selected(keys, w, order, reply))
    ensures Contained(w.am) ==> Contained(Send(keys, w, order, reply).state.am)
  {
    var w1, c := Refresh(keys, w, false, reply), Selected(keys, w, order, reply);
    RefreshContinues(keys, w, false, reply);
    RequiredUnique(w1.accounts, order.amount, Only(order.color));
    assert HandedOut(w1.am, w1.accounts);
    hide Required, Refresh, Transact, Total, UniqueAccounts, Continues, FromNode, Unique;
    TransactMarksIndices(keys, w1, order, c);
    HandedOutPart(w1.am, w1.accounts, c);
  }

  lemma {:induction false} RunKeepsIndices(keys: KeyScheme, ws: seq<WalletState>, es: seq<Event>, k: nat)
    requires IsRun(keys, ws, es) && k <= |es| && HandedOut(ws[0].am, ws[0].accounts)
    ensures HandedOut(ws[k].am, ws[k].accounts) && (Contained(ws[0].am) ==> Contained(ws[k].am))
  {
    if k > 0 {
      hide *;
      RunStep(keys, ws, es, k);
      RunKeepsIndices(keys, ws, es, k - 1);
      RunExtends(keys, ws, es, 0, k - 1);
      AfterKeepsIndices(keys, ws[k - 1], es[k - 1]);
    }
  }

  // An index handed out and spent stays spent, whatever the node answers; if only
  // such indices were spent at the start, no index ever becomes unspent.
  lemma {:induction false} IndexStaysSpent(keys: KeyScheme, ws: seq<WalletState>, es: seq<Event>, j: nat, k: nat)
    requires IsRun(keys, ws, es) && j <= k <= |es|
    ensures Retains(ws[j].am, ws[k].am)
    ensures Contained(ws[0].am) && HandedOut(ws[0].am, ws[0].accounts) ==> ws[j].am.spent <= ws[k].am.spent
    decreases k - j
  {
    if j < k {
      hide *;
      RunStep(keys, ws, es, k);
      IndexStaysSpent(keys, ws, es, j, k - 1);
      AfterRetains(keys, ws[k - 1], es[k - 1]);
      RetainsBoth(ws[j].am, ws[k - 1].am, ws[k].am);
      if Contained(ws[0].am) && HandedOut(ws[0].am, ws[0].accounts) {
        RunKeepsIndices(keys, ws, es, k - 1);
        RetainsContained(ws[k - 1].am, ws[k].am);
      }
    }
  }

  lemma {:induction false} RetainsBoth(s: AmState, t: AmState, u: AmState)
    requires Retains(s, t) && Retains(t, u)
    ensures Retains(s, u)
  {
  }

  lemma {:induction false} RetainsContained(s: AmState, t: AmState)
    requires Retains(s, t) && Contained(s)
    ensures s.spent <= t.spent
  {
  }

  lemma {:induction false} RunFirst(keys: KeyScheme, ws: seq<WalletState>, es: seq<Event>, k: nat)
    requires IsRun(keys, ws, es) && k <= |es| && ws[0].am.first <= ws[0].am.last
    ensures ws[k].am.first <= ws[k].am.last
  {
    if k > 0 {
      hide *;
      RunStep(keys, ws, es, k);
      RunFirst(keys, ws, es, k - 1);
      AfterRetains(keys, ws[k - 1], es[k - 1]);
    }
  }

  // In every state of a run that starts with an address to look at, the search
  // for a remainder address ends at an address of the wallet that is not among
  // the consumed ones.
  lemma {:induction false} RunRemainder(keys: KeyScheme, ws: seq<WalletState>, es: seq<Event>, k: nat,
                                        consumed: Accounts)
    requires keys.Sound() && IsRun(keys, ws, es) && k <= |es| && Room(ws[k].am, consumed)
    requires ws[0].am.first <= ws[0].am.last
    ensures
      var c := ChooseRemainder(keys, ws[k].am, consumed);
      c.addr == keys.derive(c.index) && c.addr != EMPTY && !Has(consumed, c.addr) && c.index <= c.am.last
  {
    RunFirst(keys, ws, es, k);
    RemainderLaw(keys, ws[k].am, consumed);
  }

  lemma {:induction false} AfterKeepsInv(keys: KeyScheme, w: WalletState, e: Event)
    requires WalletInv(w) && Possible(keys, w, e)
    ensures WalletInv(After(keys, w, e))
  {
    AfterExtends(keys, w, e);
    AfterKeepsIndices(keys, w, e);
    hide HandedOut, UniqueAccounts, Extends, Contained;
    match e
    case Refreshed(includeSpent, reply) =>
    case NewAddr => GetAddressKeeps(w.am, Wrap(w.am.last + 1));
    case AddrAt(i) => GetAddressKeeps(w.am, i);
    case Sent(order, reply) => SendBracketed(keys, w, order, reply);
  }

  // The invariant, brackets included, holds in every state of every run.
  lemma {:induction false} RunKeepsInv(keys: KeyScheme, ws: seq<WalletState>, es: seq<Event>, k: nat)
    requires IsRun(keys, ws, es) && WalletInv(ws[0]) && k <= |es|
    ensures WalletInv(ws[k])
  {
    if k > 0 {
      hide *;
      RunStep(keys, ws, es, k);
      RunKeepsInv(keys, ws, es, k - 1);
      AfterKeepsInv(keys, ws[k - 1], es[k - 1]);
    }
  }

  // ---------- table and mask together ----------

  // What the flag of an account says, the mask says of its index.
  ghost predicate FlagsMarked(w: WalletState) {
    forall i :: 0 <= i < |w.accounts| ==> w.accounts[i].val.spent ==> w.accounts[i].val.addrIndex in w.am.spent
  }

  ghost predicate MarksFlagged(w: WalletState) {
    forall i :: 0 <= i < |w.accounts| ==> w.accounts[i].val.addrIndex in w.am.spent ==> w.accounts[i].val.spent
  }

  // The marking step of a send takes flags and mask along together; for the way
  // back the accounts must carry the indices of their addresses.
  lemma {:induction false} TransactAgrees(keys: KeyScheme, w: WalletState, order: Order, c: Accounts)
    requires UniqueAccounts(w.accounts) && HandedOut(w.am, w.accounts) && Room(w.am, c)
    requires forall i :: 0 <= i < |c| ==> c[i] in w.accounts
    ensures
      var s := Transact(keys, w, order, c);
      && (FlagsMarked(w) ==> FlagsMarked(s.state))
      && (MarksFlagged(w) && Indexed(keys, w.accounts) ==> MarksFlagged(s.state))
  {
    var s := Transact(keys, w, order, c);
    TransactMarksIndices(keys, w, order, c);
    MarkAllPointwise(w.accounts, c);
    ConsumedIndex(keys, w.accounts, c);
    assert s.state.accounts == if s.ret == 0 then MarkAll(w.accounts, c) else w.accounts;
    hide Transact, MarkAll, Has, IndicesOf, Contained;
  }

  // An account consumed has its index among those marked, and in an indexed
  // table no other account has.
  lemma {:induction false} ConsumedIndex(keys: KeyScheme, t: Accounts, c: Accounts)
    requires UniqueAccounts(t) && forall i :: 0 <= i < |c| ==> c[i] in t
    ensures forall i :: 0 <= i < |t| && Has(c, t[i].key) ==> t[i].val.addrIndex in IndicesOf(c)
    ensures Indexed(keys, t) ==>
              forall i :: 0 <= i < |t| && t[i].val.addrIndex in IndicesOf(c) ==> Has(c, t[i].key)
  {
    forall i | 0 <= i < |t| && Has(c, t[i].key) ensures t[i].val.addrIndex in IndicesOf(c) {
      var j := Find(c, t[i].key);
      var k :| 0 <= k < |t| && t[k] == c[j];
    }
    if Indexed(keys, t) {
      forall i | 0 <= i < |t| && t[i].val.addrIndex in IndicesOf(c) ensures Has(c, t[i].key) {
        var j :| 0 <= j < |c| && c[j].val.addrIndex == t[i].val.addrIndex;
        var k :| 0 <= k < |t| && t[k] == c[j];
        HasIff(c, t[i].key);
      }
    }
  }

  // What an event merges into the table.
  function Reported(keys: KeyScheme, w: WalletState, includeSpent: bool, reply: Reply): Accounts {
    if Asked(keys, w.am, includeSpent) != [] && reply.Answer? then reply.accounts else []
  }

  function MergedBy(keys: KeyScheme, w: WalletState, e: Event): Accounts {
    match e
    case Refreshed(includeSpent, reply) => Reported(keys, w, includeSpent, reply)
    case Sent(order, reply) =>
      if order.amount == 0 || order.receiver == EMPTY then [] else Reported(keys, w, false, reply)
    case _ => []
  }

  // To the table every event is a merge followed by marking.
  lemma {:induction false} AfterAccounts(keys: KeyScheme, w: WalletState, e: Event)
    requires Possible(keys, w, e)
    ensures After(keys, w, e).accounts == MarkAll(Merge(w.accounts, MergedBy(keys, w, e)), ConsumedBy(keys, w, e))
  {
    assert forall t :: MarkAll(t, []) == t && Merge(t, []) == t;
    hide Asked, Required, Total, AllSigned, BuildOutputs, MarkIndices;
  }

  lemma {:induction false} MarkAllIndexed(keys: KeyScheme, t: Accounts, done: Accounts)
    requires UniqueAccounts(t)
    ensures Indexed(keys, MarkAll(t, done)) <==> Indexed(keys, t)
  {
    MarkAllPointwise(t, done);
  }

  lemma {:induction false} AfterIndexedIff(keys: KeyScheme, w: WalletState, e: Event)
    requires UniqueAccounts(w.accounts) && Possible(keys, w, e)
    ensures Indexed(keys, After(keys, w, e).accounts)
            <==> Indexed(keys, w.accounts) && KnownOnly(keys, w.accounts, MergedBy(keys, w, e))
  {
    var answer := MergedBy(keys, w, e);
    AfterAccounts(keys, w, e);
    assert FromNode(Answer(answer));
    MergeContinues(w.accounts, answer);
    MarkAllIndexed(keys, Merge(w.accounts, answer), ConsumedBy(keys, w, e));
    IndexedAfterRefresh(keys, w.accounts, answer);
  }

  // After any run every account carries the index of its address exactly when
  // this was so at the start and no answer named an address that the table
  // lacked, save the one of index 0.
  lemma {:induction false} RunIndexedIff(keys: KeyScheme, ws: seq<WalletState>, es: seq<Event>, k: nat)
    requires IsRun(keys, ws, es) && k <= |es|
    ensures Indexed(keys, ws[k].accounts)
            <==> Indexed(keys, ws[0].accounts)
                 && forall j :: 0 <= j < k ==> KnownOnly(keys, ws[j].accounts, MergedBy(keys, ws[j], es[j]))
  {
    if k > 0 {
      hide *;
      RunStep(keys, ws, es, k);
      RunIndexedIff(keys, ws, es, k - 1);
      RunExtends(keys, ws, es, 0, k - 1);
      AfterIndexedIff(keys, ws[k - 1], es[k - 1]);
    }
  }

  lemma {:induction false} RefreshAgrees(keys: KeyScheme, w: WalletState, includeSpent: bool, reply: Reply)
    requires UniqueAccounts(w.accounts) && FromNode(reply)
    ensures
      var v := Refresh(keys, w, includeSpent, reply);
      && (FlagsMarked(w) ==> FlagsMarked(v))
      && (MarksFlagged(w) && Has(w.accounts, keys.derive(0)) && Indexed(keys, v.accounts) ==> MarksFlagged(v))
  {
    var u := Refresh(keys, w, includeSpent, reply).accounts;
    RefreshContinues(keys, w, includeSpent, reply);
    if Has(w.accounts, keys.derive(0)) && Indexed(keys, u) {
      NothingNew(keys, w.accounts, u);
    }
  }

  // A new account in an indexed table could only be that of index 0.
  lemma {:induction false} NothingNew(keys: KeyScheme, t: Accounts, u: Accounts)
    requires Continues(t, u) && Unique(u) && Indexed(keys, u) && Has(t, keys.derive(0))
    ensures |u| == |t|
  {
    FindUnique(u, Find(t, keys.derive(0)));
    hide Unique;
    if |u| > |t| {
      FindUnique(u, |t|);
    }
  }

  // The converse is lost exactly by a merge of an unknown address while index 0
  // is spent.
  lemma {:induction false} MergeAgreesIff(w: WalletState, answer: Accounts)
    requires UniqueAccounts(w.accounts) && FromNode(Answer(answer))
    ensures MarksFlagged(w.(accounts := Merge(w.accounts, answer)))
            <==> MarksFlagged(w)
                 && (0 in w.am.spent ==> forall i :: 0 <= i < |answer| ==> Has(w.accounts, answer[i].key))
  {
    var t, u := w.accounts, Merge(w.accounts, answer);
    MergeContinues(t, answer);
    AllKnownIff(t, answer);
    hide Merge, Has, UniqueAccounts, FromNode;
    assert |u| > |t| ==> !u[|t|].val.spent && u[|t|].val.addrIndex == 0;
    assert forall i :: 0 <= i < |t| ==> u[i].val.spent == t[i].val.spent && u[i].val.addrIndex == t[i].val.addrIndex;
  }

  lemma {:induction false} AllKnownIff(t: Accounts, answer: Accounts)
    requires UniqueAccounts(t) && FromNode(Answer(answer))
    ensures |Merge(t, answer)| == |t| <==> forall i :: 0 <= i < |answer| ==> Has(t, answer[i].key)
  {
    var u := Merge(t, answer);
    MergeContinues(t, answer);
    hide Merge, FromNode, UniqueIds;
    if |u| == |t| {
      forall i | 0 <= i < |answer| ensures Has(t, answer[i].key) {
        MergedKeys(t, answer, answer[i].key);
        HasIff(answer, answer[i].key);
        HasIff(t, u[Find(u, answer[i].key)].key);
      }
    } else {
      var a := u[|t|].key;
      MergedKeys(t, answer, a);
      HasIff(u, a);
      if Has(t, a) {
        FindUnique(u, Find(t, a));
      }
      FindUnique(u, |t|);
      assert Has(answer, a) && answer[Find(answer, a)].key == a;
    }
  }

  lemma {:induction false} AfterAgrees(keys: KeyScheme, w: WalletState, e: Event)
    requires UniqueAccounts(w.accounts) && HandedOut(w.am, w.accounts) && Possible(keys, w, e)
    ensures
      var v := After(keys, w, e);
      && (FlagsMarked(w) ==> FlagsMarked(v))
      && (MarksFlagged(w) && Has(w.accounts, keys.derive(0)) && Indexed(keys, v.accounts) ==> MarksFlagged(v))
  {
    match e
    case Refreshed(includeSpent, reply) => RefreshAgrees(keys, w, includeSpent, reply);
    case NewAddr => GetAddressRetains(w.am, Wrap(w.am.last + 1));
    case AddrAt(i) => GetAddressRetains(w.am, i);
    case Sent(order, reply) => SendAgrees(keys, w, order, reply);
  }

  lemma {:induction false} SendAgrees(keys: KeyScheme, w: WalletState, order: Order, reply: Reply)
    requires UniqueAccounts(w.accounts) && HandedOut(w.am, w.accounts) && FromNode(reply)
    requires Room(w.am, Selected(keys, w, order, reply))
    ensures
      var v := Send(keys, w, order, reply).state;
      && (FlagsMarked(w) ==> FlagsMarked(v))
      && (MarksFlagged(w) && Has(w.accounts, keys.derive(0)) && Indexed(keys, v.accounts) ==> MarksFlagged(v))
  {
    var w1, c := Refresh(keys, w, false, reply), Selected(keys, w, order, reply);
    RefreshContinues(keys, w, false, reply);
    RefreshAgrees(keys, w, false, reply);
    RequiredUnique(w1.accounts, order.amount, Only(order.color));
    assert HandedOut(w1.am, w1.accounts);
    MarkAllIndexed(keys, w1.accounts, c);
    assert Transact(keys, w1, order, c).state.accounts in {w1.accounts, MarkAll(w1.accounts, c)};
    hide Refresh, Required, Transact, Total, MarkAll, Has, Find, UniqueAccounts, Continues, HandedOut, Indexed;
    hide FlagsMarked, MarksFlagged, FromNode;
    TransactAgrees(keys, w1, order, c);
  }

  // Over every run, whatever the node answers, a flag set in the table has its
  // bit in the mask; the converse holds as long as the accounts carry their
  // indices.
  lemma {:induction false} RunAgrees(keys: KeyScheme, ws: seq<WalletState>, es: seq<Event>, k: nat)
    requires IsRun(keys, ws, es) && k <= |es| && HandedOut(ws[0].am, ws[0].accounts)
    ensures FlagsMarked(ws[0]) ==> FlagsMarked(ws[k])
    ensures MarksFlagged(ws[0]) && Has(ws[0].accounts, keys.derive(0)) && Indexed(keys, ws[k].accounts)
            ==> MarksFlagged(ws[k])
  {
    if k > 0 {
      hide *;
      RunStep(keys, ws, es, k);
      RunAgrees(keys, ws, es, k - 1);
      RunKeepsIndices(keys, ws, es, k - 1);
      RunExtends(keys, ws, es, 0, k - 1);
      KnownStays(ws[0].accounts, ws[k - 1].accounts, keys.derive(0));
      AfterIndexedIff(keys, ws[k - 1], es[k - 1]);
      AfterAgrees(keys, ws[k - 1], es[k - 1]);
    }
  }

  lemma {:induction false} KnownStays(t: Accounts, u: Accounts, a: Addr)
    requires Extends(t, u)
    ensures Has(t, a) ==> Has(u, a)
  {
    HasIff(u, a);
  }
}
