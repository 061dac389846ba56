/** The wallet: an address manager and a table of unspent outputs, refreshed
    from a node and spent from. */
module WalletApi {
  import opened Bytes
  import opened UtHash
  import opened Address
  import opened AddressManager
  import opened Bitmask
  import opened Balances
  import opened Base64Codec
  import opened OutputIds
  import opened UnspentOutputs
  import opened WireFormat
  import opened Transaction
  import Base64
  import opened WalletSpec
  import opened SendLaws

  // send_funds_op_t: the caller's record, written to by a send.
  class SendFundsOp {
    const amount: uint64
    const receiver: Addr
    const color: Color
    var remainder: Addr

    constructor (amount: uint64, receiver: Addr, color: Color, remainder: Addr)
      ensures this.amount == amount && this.receiver == receiver && this.color == color
      ensures this.remainder == remainder
    {
      this.amount, this.receiver, this.color, this.remainder := amount, receiver, color, remainder;
    }

    ghost function Value(): Order
      reads this
    {
      Order(amount, receiver, color, remainder)
    }
  }

  class Wallet {
    const addrManager: Manager
    const unspent: UnspentTable

    ghost function State(): WalletState
      reads addrManager, addrManager.spentAddr, addrManager.spentAddr.byte, unspent
    {
      WalletState(addrManager.State(), unspent.entries)
    }

    constructor (keys: KeyScheme, lastAddr: uint64, firstUnspent: uint64, lastUnspent: uint64, reply: Reply)
      requires lastAddr < TWO64 - 1 && FromNode(reply)
      ensures addrManager.keys == keys
      ensures State() == Refresh(keys, Init(keys, lastAddr, firstUnspent, lastUnspent), true, reply)
    {
      hide Refresh, Asked, Merge, FromNode, InitMask, InitAccounts;
      var mask := InitSpentMask(firstUnspent);
      var am := new Manager(keys, lastAddr, mask);
      am.firstUnspentIdx := firstUnspent;
      am.lastUnspentIdx := lastUnspent;
      am.lastAddrIndex := lastAddr;
      var table := InitTable(keys, lastAddr, firstUnspent);
      addrManager, unspent := am, table;
      new;
      var _, _ := RefreshFrom(true, reply);
    }

    // wallet_refresh, with the answer of the node as a parameter and the addresses
    // it is asked about as a result.
    method RefreshFrom(includeSpent: bool, reply: Reply) returns (ret: bool, asked: seq<IndexedAddress>)
      requires addrManager.lastAddrIndex < TWO64 - 1 && (includeSpent || addrManager.InBounds())
      requires FromNode(reply)
      modifies unspent
      ensures State() == Refresh(addrManager.keys, old(State()), includeSpent, reply)
      ensures asked == Asked(addrManager.keys, old(State()).am, includeSpent)
      ensures
        var keys, am := addrManager.keys, old(State()).am;
        && (forall a :: a in asked
              <==> a.index <= am.last && a.addr == keys.derive(a.index)
                   && (includeSpent || (am.first <= a.index && a.index !in am.spent)))
        && (forall j, k :: 0 <= j < k < |asked| ==> asked[j].index < asked[k].index)
        && (ret <==> includeSpent || exists k: uint64 :: am.first <= k <= am.last && k !in am.spent)
      ensures unspent.entries
           == if ret && reply.Answer? then Merge(old(unspent.entries), reply.accounts) else old(unspent.entries)
    {
      AskedExactly(addrManager.keys, State().am, includeSpent);
      if includeSpent {
        asked := addrManager.Addresses();
      } else {
        asked := addrManager.UnspentAddresses();
      }
      if asked == [] {
        return false, [];
      }
      match reply {
        case NoAnswer =>
        case Answer(res) => MergeAnswer(unspent, res);
      }
      ret := true;
    }

    method Balance(reply: Reply) returns (sum: uint64, asked: seq<IndexedAddress>)
      requires addrManager.lastAddrIndex < TWO64 - 1 && addrManager.InBounds() && FromNode(reply)
      modifies unspent
      ensures State() == Refresh(addrManager.keys, old(State()), false, reply)
      ensures sum == Wrap(Total(State().accounts, All))
      ensures asked == Asked(addrManager.keys, old(State()).am, false)
    {
      var _, addrs := RefreshFrom(false, reply);
      asked := addrs;
      sum := unspent.Balance();
    }

    method BuildTxInputs(consumed: Accounts) returns (inputs: seq<OutputId>)
      ensures inputs == InputsOf(consumed)
    {
      inputs := [];
      for i := 0 to |consumed|
        invariant inputs == InputsOf(consumed[..i])
      {
        ghost var before := inputs;
        var e := consumed[i];
        for k := 0 to |e.val.ids|
          invariant inputs == before + InputsOfIds(e.key, e.val.ids[..k])
        {
          assert e.val.ids[..k + 1][..k] == e.val.ids[..k];
          inputs := inputs + [OutputIdOf(e.key, e.val.ids[k].key)];
        }
        assert e.val.ids[..|e.val.ids|] == e.val.ids;
        assert consumed[..i + 1][..i] == consumed[..i];
      }
      assert consumed[..|consumed|] == consumed;
    }

    // wallet_send_funds: what the node answers to the refresh is a parameter, what
    // it is asked about and what is posted are results. Whether the post succeeds
    // changes nothing.
    method SendFunds(op: SendFundsOp, reply: Reply)
      returns (ret: int, posted: seq<seq<byte>>, asked: seq<IndexedAddress>)
      requires addrManager.keys.Sound() && addrManager.lastAddrIndex < TWO64 - 1 && addrManager.InBounds()
      requires FromNode(reply) && UniqueAccounts(unspent.entries)
      requires Room(addrManager.State(), Selected(addrManager.keys, State(), op.Value(), reply))
      modifies op`remainder, unspent, addrManager, addrManager.spentAddr, addrManager.spentAddr.byte
      ensures
        var s := Send(addrManager.keys, old(State()), old(op.Value()), reply);
        && ret == s.ret && State() == s.state && op.remainder == s.remainder
        && posted == Posts(s.parts)
      ensures asked == if op.amount == 0 || op.receiver == EMPTY then []
                       else Asked(addrManager.keys, old(State()).am, false)
      ensures
        var keys, order := addrManager.keys, old(op.Value());
        var c := Selected(keys, old(State()), order, reply);
        var outputs := BuildOutputs(keys, old(State()).am, order, c).outputs;
        var essence := Essence(InputsOf(c), outputs);
        var wire := Wire(InputsOf(c), outputs, SignAll(keys, c, essence));
        if order.amount == 0 || order.receiver == EMPTY || c == [] || Wrap(Total(c, Only(order.color))) < order.amount
        then ret == -1 && posted == []
        else && ret == 0
             && (|posted| == if (|wire| + 2) / 3 * 4 + 1 > 0xFFFF_FFFF_FFFF_FFFF then 0 else 1)
             && (posted != [] ==>
                   Base64.WellFormed(posted[0]) && Base64.Decoding(Base64.Significant(posted[0])) == wire)
             && (posted != [] && |InputsOf(c)| < TWO32 ==>
                   var r := Parse(Base64.Decoding(Base64.Significant(posted[0])));
                   && r.Read? && r.rest == [] && r.value.inputs == InputsOf(c)
                   && |r.value.outputs| == |outputs| && |r.value.sigs| == |c|
                   && (forall i :: 0 <= i < |outputs| ==>
                         r.value.outputs[i] == (outputs[i].address, outputs[i].balances))
                   && forall i :: 0 <= i < |c| ==>
                        r.value.sigs[i] == EdSignature(keys.publicKey(c[i].val.addrIndex),
                                                       keys.sign(c[i].val.addrIndex, essence)))
    {
      hide Total, Refresh, Required, Transact, Posts, UniqueAccounts, FromNode, Room, Asked, Wire, Parse, Essence;
      hide BuildOutputs, InputsOf, SignAll;
      NoPosts();
      ghost var start := State();
      RefreshUnique(addrManager.keys, start, false, reply);
      SendPosts(addrManager.keys, start, op.Value(), reply);
      posted, asked := [], [];
      if op.amount <= 0 || op.receiver == EMPTY {
        return -1, [], [];
      }
      var _, addrs := RefreshFrom(false, reply);
      asked := addrs;
      var consumed := unspent.RequiredOutputs(op.amount, op.color);
      if consumed.entries == [] {
        return -1, [], asked;
      }
      var outputBalance := consumed.BalanceWithColor(op.color);
      if outputBalance < op.amount {
        return -1, [], asked;
      }
      ret, posted := TransactWith(op, consumed);
    }

    method TransactWith(op: SendFundsOp, consumed: UnspentTable) returns (ret: int, posted: seq<seq<byte>>)
      requires addrManager.keys.Sound() && addrManager.InBounds() && consumed != unspent
      requires Room(addrManager.State(), consumed.entries)
      modifies op`remainder, unspent, addrManager, addrManager.spentAddr, addrManager.spentAddr.byte
      ensures
        var s := Transact(addrManager.keys, old(State()), old(op.Value()), consumed.entries);
        && ret == s.ret && State() == s.state && op.remainder == s.remainder
        && posted == Posts(s.parts)
    {
      hide BuildOutputs, InputsOf, SignAll, Essence, AllSigned, MarkIndices, MarkAll, Wire, Text, EncodeRoom, Total;
      posted := [];
      BuildInBounds(addrManager.keys, State().am, op.Value(), consumed.entries);
      var inputs := BuildTxInputs(consumed.entries);
      var outputs := BuildTxOutputs(addrManager, op, consumed);
      var tx := new Tx(inputs, outputs);
      SignTx(addrManager.keys, tx, consumed.entries);
      var valid := tx.SignaturesValid(addrManager.keys);
      if !valid {
        return -1, [];
      }
      var bytes := tx.ToBase64();
      if bytes != null {
        posted := [bytes.data[..bytes.len]];
      }
      MarkConsumed(addrManager, unspent, consumed.entries);
      ret := 0;
    }
  }

  // The marking loop.
  method MarkConsumed(am: Manager, unspent: UnspentTable, consumed: Accounts)
    requires am.InBounds()
    modifies unspent, am, am.spentAddr, am.spentAddr.byte
    ensures fresh(am.spentAddr.byte) || am.spentAddr.byte == old(am.spentAddr.byte)
    ensures am.State() == MarkIndices(old(am.State()), consumed)
    ensures unspent.entries == MarkAll(old(unspent.entries), consumed)
  {
    for i := 0 to |consumed|
      invariant fresh(am.spentAddr.byte) || am.spentAddr.byte == old(am.spentAddr.byte)
      invariant am.InBounds()
      invariant am.State() == MarkIndices(old(am.State()), consumed[..i])
      invariant unspent.entries == MarkAll(old(unspent.entries), consumed[..i])
    {
      assert consumed[..i + 1][..i] == consumed[..i];
      MarkInBounds(am.State(), consumed[i].val.addrIndex);
      InBoundsMarkSafe(am.State(), consumed[i].val.addrIndex);
      unspent.SetSpent(consumed[i].key, true);
      am.MarkSpentAddress(consumed[i].val.addrIndex);
    }
    assert consumed[..|consumed|] == consumed;
  }

  lemma {:induction false} MarkInBounds(s: AmState, index: uint64)
    requires s.last < 8 * s.cap && s.lastUnspent < 8 * s.cap
    ensures Mark(s, index).last < 8 * Mark(s, index).cap && Mark(s, index).lastUnspent < 8 * Mark(s, index).cap
  {
  }

  lemma {:induction false} BuildInBounds(keys: KeyScheme, am: AmState, order: Order, consumed: Accounts)
    requires Room(am, consumed) && am.last < 8 * am.cap && am.lastUnspent < 8 * am.cap
    ensures
      var b := BuildOutputs(keys, am, order, consumed).am;
      b.last < 8 * b.cap && b.lastUnspent < 8 * b.cap
  {
    var c := ChooseRemainder(keys, am, consumed);
    GrowInBounds(am, c.index);
  }

  lemma {:induction false} GrowInBounds(am: AmState, i: uint64)
    requires am.last < 8 * am.cap && am.lastUnspent < 8 * am.cap
    ensures GrowAm(am, i).last < 8 * GrowAm(am, i).cap && GrowAm(am, i).lastUnspent < 8 * GrowAm(am, i).cap
    decreases i - am.last
  {
    if i > am.last {
      GrowInBounds(NewAddress(am), i);
    }
  }

  // The tables keep unique keys at every level.
  lemma {:induction false} RefreshUnique(keys: KeyScheme, w: WalletState, includeSpent: bool, reply: Reply)
    requires UniqueAccounts(w.accounts) && FromNode(reply)
    ensures UniqueAccounts(Refresh(keys, w, includeSpent, reply).accounts)
    ensures Refresh(keys, w, includeSpent, reply).am == w.am
  {
    if reply.Answer? {
      MergeUnique(w.accounts, reply.accounts);
    }
  }

  lemma {:induction false} MergeUnique(t: Accounts, answer: Accounts)
    requires UniqueAccounts(t) && UniqueAccounts(answer)
    ensures UniqueAccounts(Merge(t, answer))
  {
    if answer != [] {
      var rest, e := answer[..|answer| - 1], answer[|answer| - 1];
      assert UniqueAccounts(rest) by {
        assert forall i :: 0 <= i < |rest| ==> rest[i] == answer[i];
      }
      MergeUnique(t, rest);
      MergeOneUnique(Merge(t, rest), e);
    }
  }

  lemma {:induction false} MergeOneUnique(t: Accounts, e: Entry<Addr, Account>)
    requires UniqueAccounts(t) && UniqueIds(e.val.ids)
    ensures UniqueAccounts(MergeOne(t, e))
  {
  }

  // Signing: one entry per consumed address, in table order.
  method SignTx(keys: KeyScheme, tx: Tx, consumed: Accounts)
    modifies tx`signatures
    ensures tx.signatures == SignAll(keys, consumed, Essence(tx.inputs, tx.outputs))
  {
    var essence := tx.WriteEssence();
    var message := essence.data[..essence.len];
    var table := new SignatureTable();
    for i := 0 to |consumed|
      invariant fresh(table)
      invariant table.entries == SignAll(keys, consumed[..i], message)
    {
      assert consumed[..i + 1][..i] == consumed[..i];
      var at := consumed[i].val.addrIndex;
      var signature := keys.sign(at, message);
      var publicKey := keys.publicKey(at);
      var _ := table.Add(consumed[i].key, publicKey, signature);
    }
    assert consumed[..|consumed|] == consumed;
    tx.signatures := table.entries;
  }

  // The search for a remainder address: it asks for a new address whenever it
  // has met all existing ones, so it ends at the first address not consumed.
  method ChooseAddress(am: Manager, op: SendFundsOp, consumed: Accounts) returns (addrIndex: uint64)
    requires am.keys.Sound() && op.remainder == EMPTY && Room(am.State(), consumed)
    modifies op`remainder, am, am.spentAddr, am.spentAddr.byte
    ensures fresh(am.spentAddr.byte) || am.spentAddr.byte == old(am.spentAddr.byte)
    ensures Choice(op.remainder, addrIndex, am.State()) == ChooseRemainder(am.keys, old(am.State()), consumed)
  {
    hide Searching, ChooseRemainder, AddressesOf, Has, Room, NewAddress, Wrap;
    ghost var before, left := am.State(), AddressesOf(consumed);
    SearchStart(am.keys, before, consumed);
    addrIndex := 0;
    var i: uint64 := am.firstUnspentIdx;
    while i <= am.lastAddrIndex
      invariant fresh(am.spentAddr.byte) || am.spentAddr.byte == old(am.spentAddr.byte)
      invariant before.first > before.last ==> addrIndex == 0
      invariant before.first <= before.last ==> i <= am.lastAddrIndex
      invariant if before.first <= before.last then Searching(am.keys, before, consumed, i, left, am.State())
                else i == before.first && op.remainder == EMPTY && am.State() == before
      decreases |left|
    {
      SearchStep(am.keys, before, consumed, i, left, am.State());
      op.remainder := am.keys.derive(i);
      if !Has(consumed, op.remainder) {
        addrIndex := i;
        break;
      }
      if i == am.lastAddrIndex {
        op.remainder := am.GetNewAddress();
        addrIndex := Wrap(am.lastAddrIndex + 1);
      }
      left := left - {am.keys.derive(i)};
      i := i + 1;
    }
  }

  // The search stands at index i; `left` are the consumed addresses not met so far.
  ghost predicate Searching(keys: KeyScheme, before: AmState, consumed: Accounts, i: uint64, left: set<Addr>,
                            am: AmState)
  {
    && Room(before, consumed) && before.first <= before.last
    && before.first <= i <= am.last && i + |left| < TWO64
    && am == GrowAm(before, i)
    && ChooseRemainder(keys, before, consumed)
       == (var r := FirstFree(keys, i, left); Choice(keys.derive(r), r, GrowAm(before, r)))
    && forall k: uint64 :: k >= i ==> (keys.derive(k) in left <==> keys.derive(k) in AddressesOf(consumed))
  }

  lemma {:induction false} SearchStart(keys: KeyScheme, am: AmState, consumed: Accounts)
    requires Room(am, consumed)
    ensures if am.first <= am.last then Searching(keys, am, consumed, am.first, AddressesOf(consumed), am)
            else ChooseRemainder(keys, am, consumed) == Choice(EMPTY, 0, am)
  {
    FewAddresses(consumed);
  }

  lemma {:induction false} SearchStep(keys: KeyScheme, before: AmState, consumed: Accounts, i: uint64, left: set<Addr>,
                                      am: AmState)
    requires keys.Sound() && before.first <= before.last && Searching(keys, before, consumed, i, left, am)
    ensures !Has(consumed, keys.derive(i)) ==> ChooseRemainder(keys, before, consumed) == Choice(keys.derive(i), i, am)
    ensures Has(consumed, keys.derive(i)) ==>
              var rest := left - {keys.derive(i)};
              var next := if i == am.last then NewAddress(am) else am;
              && |rest| < |left| && i + 1 < TWO64 && i < next.last
              && Searching(keys, before, consumed, i + 1, rest, next)
  {
    TakenIff(consumed, keys.derive(i));
    if Has(consumed, keys.derive(i)) {
      GrowStep(before, i);
      NewAddressIs(am);
      hide NewAddress, GrowAm, Has, AddressesOf, ChooseRemainder;
      assert |left - {keys.derive(i)}| == |left| - 1;
    }
  }

  lemma {:induction false} TakenIff(t: Accounts, a: Addr)
    ensures Has(t, a) <==> a in AddressesOf(t)
  {
    HasIff(t, a);
  }

  lemma {:induction false} GrowStep(am: AmState, i: uint64)
    requires i < TWO64 - 1
    ensures GrowAm(am, i).last == if i <= am.last then am.last else i
    ensures GrowAm(am, i).first == am.first
    ensures GrowAm(am, i + 1) == if i == GrowAm(am, i).last then NewAddress(GrowAm(am, i)) else GrowAm(am, i)
    decreases i - am.last
  {
    if i > am.last {
      GrowStep(NewAddress(am), i);
    }
  }

  method BuildTxOutputs(am: Manager, op: SendFundsOp, consumed: UnspentTable) returns (outputs: seq<TxOutput>)
    requires am.keys.Sound() && Room(am.State(), consumed.entries)
    modifies op`remainder, am, am.spentAddr, am.spentAddr.byte
    ensures fresh(am.spentAddr.byte) || am.spentAddr.byte == old(am.spentAddr.byte)
    ensures Built(outputs, op.remainder, am.State())
         == BuildOutputs(am.keys, old(am.State()), old(op.Value()), consumed.entries)
  {
    outputs := [];
    var outputBalance := consumed.BalanceWithColor(op.color);
    var recvEqRemainder := false;
    if outputBalance > op.amount {
      if op.remainder == EMPTY {
        var addrIndex := ChooseAddress(am, op, consumed.entries);
        var value;
        if op.receiver == op.remainder {
          recvEqRemainder := true;
          value := Signed(outputBalance);
        } else {
          value := Signed(Wrap(outputBalance - op.amount));
        }
        outputs := outputs + [TxOutput(addrIndex, op.remainder, [Coin(op.color, value)])];
      }
    }
    if !recvEqRemainder {
      outputs := outputs + [TxOutput(0, op.receiver, [Coin(op.color, Signed(op.amount))])];
    }
  }

  // The mask of a new wallet: every index below the first unspent one.
  method InitSpentMask(firstUnspent: uint64) returns (mask: Mask)
    ensures fresh(mask) && fresh(mask.byte)
    ensures (mask.byte.Length, mask.Members()) == InitMask(firstUnspent)
  {
    mask := new Mask();
    for i := 0 to firstUnspent
      invariant fresh(mask) && fresh(mask.byte)
      invariant (mask.byte.Length, mask.Members()) == InitMask(i)
    {
      ghost var before := mask.Members();
      mask.Operate(i, Set);
      assert mask.Members() == before + {i};
    }
  }

  // The address table of a new wallet.
  method InitTable(keys: KeyScheme, lastAddr: uint64, firstUnspent: uint64) returns (table: UnspentTable)
    requires lastAddr < TWO64 - 1
    ensures fresh(table) && table.entries == InitAccounts(keys, lastAddr + 1, firstUnspent)
  {
    hide SetSpentAt, Insert;
    table := new UnspentTable([]);
    var i := 0;
    while i <= lastAddr
      invariant i <= lastAddr + 1 && fresh(table)
      invariant table.entries == InitAccounts(keys, i, firstUnspent)
    {
      var addr := keys.derive(i);
      var _ := table.Add(addr, i, []);
      if i < firstUnspent {
        table.SetSpent(addr, true);
      }
      i := i + 1;
    }
  }

  // The loop of wallet_refresh over the answer.
  method MergeAnswer(unspent: UnspentTable, res: Accounts)
    requires UniqueAccounts(res)
    modifies unspent
    ensures unspent.entries == Merge(old(unspent.entries), res)
  {
    for i := 0 to |res|
      invariant unspent.entries == Merge(old(unspent.entries), res[..i])
    {
      assert res[..i + 1][..i] == res[..i];
      var at := Find(unspent.entries, res[i].key);
      if at < |unspent.entries| {
        var isSpent := unspent.entries[at].val.spent;
        SetSpentKeeps(unspent.entries, res[i].key, res[i].val.ids);
        var _ := unspent.Update(res[i].key, res[i].val.ids);
        unspent.SetSpent(res[i].key, isSpent);
      } else {
        var _ := unspent.Add(res[i].key, res[i].val.addrIndex, res[i].val.ids);
      }
    }
    assert res[..|res|] == res;
  }

  // Restoring the flag that an update did not touch.
  lemma {:induction false} SetSpentKeeps(t: Accounts, a: Addr, ids: Ids)
    requires Has(t, a)
    ensures SetSpentAt(SetIds(t, a, ids), a, t[Find(t, a)].val.spent) == SetIds(t, a, ids)
  {
    var i, u := Find(t, a), SetIds(t, a, ids);
    assert u[i].key == a && forall j :: 0 <= j < i ==> u[j].key != a;
    assert Find(u, a) == i;
  }
}
