/** What one send does: which inputs it takes, what its outputs are worth,
    that its signatures check, and where the remainder goes. */
module SendLaws {
  import opened Bytes
  import opened UtHash
  import opened Address
  import opened AddressManager
  import opened Balances
  import opened OutputIds
  import opened UnspentOutputs
  import opened LedgerLaws
  import opened WireFormat
  import opened Transaction
  import opened WalletSpec
  import Base64
  import opened Base64Laws

  // ---------- the remainder address ----------

  lemma {:induction false} FirstFreeLaw(keys: KeyScheme, i: uint64, taken: set<Addr>)
    requires keys.Sound() && i + |taken| < TWO64
    ensures keys.derive(FirstFree(keys, i, taken)) !in taken
    ensures forall k: uint64 :: i <= k < FirstFree(keys, i, taken) ==> keys.derive(k) in taken
    decreases |taken|
  {
    if keys.derive(i) in taken {
      FirstFreeLaw(keys, i + 1, taken - {keys.derive(i)});
    }
  }

  // Growing the manager index by index touches no index handed out before; if
  // only those are spent, the new ones appear unspent.
  lemma {:induction false} GrowLaw(am: AmState, i: uint64)
    ensures
      var b := GrowAm(am, i);
      && b.last == (if i <= am.last then am.last else i) && b.first == am.first
      && b.lastUnspent == (if i <= am.last || i <= am.lastUnspent then am.lastUnspent else i)
      && (forall k: nat :: k <= am.last ==> (k in b.spent <==> k in am.spent))
      && (Contained(am) ==> b.spent == am.spent)
    decreases i - am.last
  {
    if i > am.last {
      GetAddressRetains(am, Wrap(am.last + 1));
      NewAddressIs(am);
      GrowLaw(NewAddress(am), i);
    }
  }

  lemma {:induction false} GrowKeeps(am: AmState, i: uint64)
    requires Bracketed(am)
    ensures Bracketed(GrowAm(am, i))
    decreases i - am.last
  {
    if i > am.last {
      GetAddressKeeps(am, Wrap(am.last + 1));
      GrowKeeps(NewAddress(am), i);
    }
  }

  // The search ends at the first address from the first unspent index on that
  // is not consumed, and that address exists in the manager afterwards.
  lemma {:induction false} RemainderLaw(keys: KeyScheme, am: AmState, consumed: Accounts)
    requires keys.Sound() && Room(am, consumed) && am.first <= am.last
    ensures
      var c := ChooseRemainder(keys, am, consumed);
      && c.addr == keys.derive(c.index) && c.addr != EMPTY && !Has(consumed, c.addr)
      && am.first <= c.index <= am.first + |consumed|
      && (forall k: uint64 :: am.first <= k < c.index ==> Has(consumed, keys.derive(k)))
      && (c.index == am.first <==> !Has(consumed, keys.derive(am.first)))
      && c.am.last == (if c.index <= am.last then am.last else c.index) && c.am.first == am.first
      && c.am.lastUnspent == (if c.index <= am.last || c.index <= am.lastUnspent then am.lastUnspent else c.index)
      && (forall k: nat :: k <= am.last ==> (k in c.am.spent <==> k in am.spent))
      && (Contained(am) ==> c.am.spent == am.spent)
      && (Bracketed(am) ==> Bracketed(c.am))
  {
    FewAddresses(consumed);
    var taken := AddressesOf(consumed);
    FirstFreeLaw(keys, am.first, taken);
    var r := FirstFree(keys, am.first, taken);
    GrowLaw(am, r);
    if Bracketed(am) {
      GrowKeeps(am, r);
    }
    HasIff(consumed, keys.derive(r));
    forall k: uint64 | am.first <= k < r ensures Has(consumed, keys.derive(k)) {
      HasIff(consumed, keys.derive(k));
    }
  }

  // Without an index to start from the remainder would go to no address at all.
  lemma {:induction false} RemainderExistsIff(keys: KeyScheme, am: AmState, consumed: Accounts)
    requires keys.Sound() && Room(am, consumed)
    ensures ChooseRemainder(keys, am, consumed).addr != EMPTY <==> am.first <= am.last
  {
    FewAddresses(consumed);
    if am.first <= am.last {
      var r := FirstFree(keys, am.first, AddressesOf(consumed));
      assert keys.derive(r)[0] == VERSION_ED25519;
    }
  }

  // ---------- conservation ----------

  function CoinsWorth(coins: seq<Coin>, color: Color): int {
    if coins == [] then 0
    else (if coins[0].color == color then coins[0].value else 0) + CoinsWorth(coins[1..], color)
  }

  function OutputsWorth(outputs: seq<TxOutput>, color: Color): int {
    if outputs == [] then 0
    else CoinsWorth(outputs[0].balances, color) + OutputsWorth(outputs[1..], color)
  }

  // What the outputs give to one address.
  function PaidTo(outputs: seq<TxOutput>, a: Addr, color: Color): int {
    if outputs == [] then 0
    else (if outputs[0].address == a then CoinsWorth(outputs[0].balances, color) else 0)
         + PaidTo(outputs[1..], a, color)
  }

  lemma {:induction false} OneOutput(o: TxOutput, color: Color, value: uint64, a: Addr)
    requires o.balances == OneCoin(color, value)
    ensures OutputsWorth([o], color) == Signed(value)
    ensures PaidTo([o], a, color) == if o.address == a then Signed(value) else 0
  {
    CoinWorth(color, value);
    assert [o][1..] == [];
  }

  lemma {:induction false} CoinWorth(color: Color, value: uint64)
    ensures CoinsWorth(OneCoin(color, value), color) == Signed(value)
  {
    assert OneCoin(color, value)[1..] == [];
  }

  lemma {:induction false} TwoOutputs(o: TxOutput, p: TxOutput, color: Color, v: uint64, w: uint64, a: Addr)
    requires o.balances == OneCoin(color, v) && p.balances == OneCoin(color, w)
    ensures OutputsWorth([o, p], color) == Signed(v) + Signed(w)
    ensures PaidTo([o, p], a, color)
         == (if o.address == a then Signed(v) else 0) + (if p.address == a then Signed(w) else 0)
  {
    CoinWorth(color, v);
    OneOutput(p, color, w, a);
    assert [o, p][1..] == [p];
  }

  lemma {:induction false} SignedSum(a: uint64, b: uint64)
    requires a + b < TWO64
    ensures Wrap(Signed(a) + Signed(b)) == a + b
  {
    WrapUnique(Signed(a) + Signed(b), (if a < TWO63 then 0 else -1) + (if b < TWO63 then 0 else -1), a + b);
  }

  // The outputs carry the consumed balance of the requested colour, counted in
  // uint64_t, exactly when there is no change or the caller left the remainder
  // address empty; a remainder address left over from an earlier call is taken
  // for a sign that no remainder output is wanted, and the change is lost.
  lemma {:induction false} Conservation(keys: KeyScheme, am: AmState, order: Order, consumed: Accounts)
    requires Room(am, consumed) && Wrap(Total(consumed, Only(order.color))) >= order.amount
    ensures
      var balance := Wrap(Total(consumed, Only(order.color)));
      var outputs := BuildOutputs(keys, am, order, consumed).outputs;
      Wrap(OutputsWorth(outputs, order.color)) == balance
      <==> balance == order.amount || order.remainder == EMPTY
  {
    hide OutputsWorth, Signed, Wrap, Total, ChooseRemainder, Room, OneCoin;
    var balance := Wrap(Total(consumed, Only(order.color)));
    var pay := TxOutput(0, order.receiver, OneCoin(order.color, order.amount));
    WrapSigned(balance);
    WrapSigned(order.amount);
    OneOutput(pay, order.color, order.amount, EMPTY);
    if NeedsRemainder(order, consumed) {
      var c := ChooseRemainder(keys, am, consumed);
      var whole := TxOutput(c.index, c.addr, OneCoin(order.color, balance));
      var change := TxOutput(c.index, c.addr, OneCoin(order.color, balance - order.amount));
      OneOutput(whole, order.color, balance, EMPTY);
      TwoOutputs(change, pay, order.color, balance - order.amount, order.amount, EMPTY);
      SignedSum(balance - order.amount, order.amount);
    }
  }

  // The outputs one by one. Without change, or with a remainder address already
  // given, the receiver's is the only one. With change the chosen address comes
  // first, with its index, and the receiver second, unless both are the same.
  lemma {:induction false} OutputsByPosition(keys: KeyScheme, am: AmState, order: Order, consumed: Accounts)
    requires keys.Sound() && Room(am, consumed) && order.amount <= Wrap(Total(consumed, Only(order.color)))
    ensures
      var balance := Wrap(Total(consumed, Only(order.color)));
      var b := BuildOutputs(keys, am, order, consumed);
      && (balance == order.amount || order.remainder != EMPTY ==>
            && |b.outputs| == 1 && PaysAlone(b.outputs[0], order.receiver, order.color, order.amount)
            && b.outputs[0].addrIndex == 0 && b.remainder == order.remainder && b.am == am)
      && (balance > order.amount && order.remainder == EMPTY ==>
            && b.remainder == ChooseRemainder(keys, am, consumed).addr && b.am == ChooseRemainder(keys, am, consumed).am
            && 0 < |b.outputs| && b.outputs[0].address == b.remainder
            && (am.first <= am.last ==> keys.derive(b.outputs[0].addrIndex) == b.remainder)
            && (am.first > am.last ==> b.outputs[0].addrIndex == 0 && b.remainder == EMPTY)
            && (if order.receiver == b.remainder
                then |b.outputs| == 1 && PaysAlone(b.outputs[0], b.remainder, order.color, balance)
                else && |b.outputs| == 2
                     && PaysAlone(b.outputs[0], b.remainder, order.color, balance - order.amount)
                     && PaysAlone(b.outputs[1], order.receiver, order.color, order.amount)
                     && b.outputs[1].addrIndex == 0))
  {
    hide FirstFree, GrowAm, Total, Wrap, AddressesOf;
  }

  // The output holds one coin for the address, the amount read as int64_t.
  predicate PaysAlone(o: TxOutput, a: Addr, color: Color, amount: uint64) {
    && o.address == a && |o.balances| == 1 && o.balances[0].color == color
    && o.balances[0].value == if amount < 0x8000_0000_0000_0000 then amount else amount - 0x1_0000_0000_0000_0000
  }

  // With a balance that fits int64_t and an empty remainder address, nothing
  // wraps: the receiver gets the amount and the chosen address the change, or
  // the receiver is the chosen address and gets everything.
  lemma {:induction false} ReceiverPaid(keys: KeyScheme, am: AmState, order: Order, consumed: Accounts)
    requires Room(am, consumed) && order.remainder == EMPTY && order.receiver != EMPTY
    requires order.amount <= Wrap(Total(consumed, Only(order.color))) < TWO63
    ensures
      var balance := Wrap(Total(consumed, Only(order.color)));
      var b := BuildOutputs(keys, am, order, consumed);
      && OutputsWorth(b.outputs, order.color) == balance
      && (if order.receiver == b.remainder
          then |b.outputs| == 1 && PaidTo(b.outputs, order.receiver, order.color) == balance
          else PaidTo(b.outputs, order.receiver, order.color) == order.amount
               && PaidTo(b.outputs, b.remainder, order.color) == balance - order.amount)
  {
    var balance := Wrap(Total(consumed, Only(order.color)));
    var pay := TxOutput(0, order.receiver, OneCoin(order.color, order.amount));
    OneOutput(pay, order.color, order.amount, order.receiver);
    OneOutput(pay, order.color, order.amount, EMPTY);
    if NeedsRemainder(order, consumed) {
      var c := ChooseRemainder(keys, am, consumed);
      var whole := TxOutput(c.index, c.addr, OneCoin(order.color, balance));
      var change := TxOutput(c.index, c.addr, OneCoin(order.color, balance - order.amount));
      OneOutput(whole, order.color, balance, order.receiver);
      TwoOutputs(change, pay, order.color, balance - order.amount, order.amount, order.receiver);
      TwoOutputs(change, pay, order.color, balance - order.amount, order.amount, c.addr);
    }
  }

  // Sending twice from one order record: the first send that leaves change
  // fills in the remainder address, so a second send with change loses it.
  lemma {:induction false} ReusedOrderLosesChange(keys: KeyScheme, am: AmState, order: Order, consumed: Accounts,
                                                  am': AmState, consumed': Accounts)
    requires keys.Sound() && Room(am, consumed) && am.first <= am.last && NeedsRemainder(order, consumed)
    requires Room(am', consumed') && Wrap(Total(consumed', Only(order.color))) > order.amount
    ensures
      var again := order.(remainder := BuildOutputs(keys, am, order, consumed).remainder);
      Wrap(OutputsWorth(BuildOutputs(keys, am', again, consumed').outputs, order.color)) == order.amount
      < Wrap(Total(consumed', Only(order.color)))
  {
    RemainderExistsIff(keys, am, consumed);
    OneOutput(TxOutput(0, order.receiver, OneCoin(order.color, order.amount)), order.color, order.amount, EMPTY);
    WrapSigned(order.amount);
  }

  // ---------- inputs ----------

  lemma {:induction false} InputOfIds(addr: Addr, ids: Ids, k: nat)
    requires k < |ids|
    ensures InputsOfIds(addr, ids)[k] == OutputIdOf(addr, ids[k].key)
  {
    if k < |ids| - 1 {
      InputOfIds(addr, ids[..|ids| - 1], k);
    }
  }

  lemma {:induction false} OutputIdParts(a: Addr, i: TxId)
    ensures OutputIdOf(a, i)[..ADDRESS_BYTES] == a && OutputIdOf(a, i)[ADDRESS_BYTES..] == i
  {
  }

  // Which output ids the inputs name.
  ghost predicate Holds(c: Accounts, x: OutputId) {
    exists i, j :: 0 <= i < |c| && 0 <= j < |c[i].val.ids| && x == OutputIdOf(c[i].key, c[i].val.ids[j].key)
  }

  lemma {:induction false} InputsExact(c: Accounts, x: OutputId)
    ensures x in InputsOf(c) <==> Holds(c, x)
  {
    if c != [] {
      var d, e := c[..|c| - 1], c[|c| - 1];
      var own := InputsOfIds(e.key, e.val.ids);
      InputsExact(d, x);
      assert forall i :: 0 <= i < |d| ==> c[i] == d[i];
      forall k | 0 <= k < |own| ensures own[k] == OutputIdOf(e.key, e.val.ids[k].key) {
        InputOfIds(e.key, e.val.ids, k);
      }
      if Holds(d, x) {
        var i, j :| 0 <= i < |d| && 0 <= j < |d[i].val.ids| && x == OutputIdOf(d[i].key, d[i].val.ids[j].key);
        assert x == OutputIdOf(c[i].key, c[i].val.ids[j].key);
      }
      if x in own {
        var k :| 0 <= k < |own| && own[k] == x;
        assert x == OutputIdOf(c[|c| - 1].key, c[|c| - 1].val.ids[k].key);
      }
      if Holds(c, x) {
        var i, j :| 0 <= i < |c| && 0 <= j < |c[i].val.ids| && x == OutputIdOf(c[i].key, c[i].val.ids[j].key);
        if i < |d| {
          assert x == OutputIdOf(d[i].key, d[i].val.ids[j].key);
        } else {
          assert own[j] == x;
        }
      }
    }
  }

  // The inputs stand in the order of the accounts, and of the ids in each.
  lemma {:induction false} InputsByPosition(c: Accounts, i: nat, j: nat)
    requires i < |c| && j < |c[i].val.ids|
    ensures
      var from := |InputsOf(c[..i])|;
      && |InputsOf(c[..i + 1])| == from + |c[i].val.ids| <= |InputsOf(c)|
      && InputsOf(c)[from + j] == c[i].key + c[i].val.ids[j].key
  {
    var d := c[..|c| - 1];
    if i == |c| - 1 {
      assert c[..i] == d && c[..i + 1] == c;
      InputOfIds(c[i].key, c[i].val.ids, j);
    } else {
      InputsByPosition(d, i, j);
      assert d[..i] == c[..i] && d[..i + 1] == c[..i + 1];
    }
  }

  lemma {:induction false} IdsDistinct(addr: Addr, ids: Ids)
    requires Unique(ids)
    ensures Distinct(InputsOfIds(addr, ids))
  {
    var own := InputsOfIds(addr, ids);
    forall i, j | 0 <= i < j < |own| ensures own[i] != own[j] {
      InputOfIds(addr, ids, i);
      InputOfIds(addr, ids, j);
      OutputIdParts(addr, ids[i].key);
      OutputIdParts(addr, ids[j].key);
    }
  }

  // No output is named twice.
  lemma {:induction false} InputsDistinct(c: Accounts)
    requires UniqueAccounts(c)
    ensures Distinct(InputsOf(c))
  {
    if c != [] {
      var d, e := c[..|c| - 1], c[|c| - 1];
      var before, own := InputsOf(d), InputsOfIds(e.key, e.val.ids);
      assert forall i :: 0 <= i < |d| ==> d[i] == c[i];
      InputsDistinct(d);
      IdsDistinct(e.key, e.val.ids);
      forall i, j | 0 <= i < |before| && 0 <= j < |own| ensures before[i] != own[j] {
        InputsExact(d, before[i]);
        assert before[i] in before;
        var k, m :| 0 <= k < |d| && 0 <= m < |d[k].val.ids| && before[i] == OutputIdOf(d[k].key, d[k].val.ids[m].key);
        OutputIdParts(d[k].key, d[k].val.ids[m].key);
        InputOfIds(e.key, e.val.ids, j);
        OutputIdParts(e.key, e.val.ids[j].key);
      }
      DistinctConcat(before, own);
    }
  }

  lemma {:induction false} DistinctConcat<T>(a: seq<T>, b: seq<T>)
    requires Distinct(a) && Distinct(b)
    requires forall i, j :: 0 <= i < |a| && 0 <= j < |b| ==> a[i] != b[j]
    ensures Distinct(a + b)
  {
  }

  // ---------- signatures ----------

  // One signature per consumed address, made with the key its entry points to.
  lemma {:induction false} SignAllEntries(keys: KeyScheme, c: Accounts, m: seq<byte>)
    requires Unique(c)
    ensures |SignAll(keys, c, m)| == |c| && Unique(SignAll(keys, c, m))
    ensures forall i :: 0 <= i < |c| ==>
              SignAll(keys, c, m)[i]
              == Entry(c[i].key, EdSignature(keys.publicKey(c[i].val.addrIndex), keys.sign(c[i].val.addrIndex, m)))
  {
    if c != [] {
      var d := c[..|c| - 1];
      SignAllEntries(keys, d, m);
      assert forall i :: 0 <= i < |d| ==> d[i] == c[i];
      var s := SignAll(keys, d, m);
      assert !Has(s, c[|c| - 1].key);
    }
  }

  // Every transaction the wallet builds passes its own validation.
  lemma {:induction false} BuiltTransactionValid(keys: KeyScheme, c: Accounts, outputs: seq<TxOutput>)
    requires keys.Sound() && Unique(c) && c != []
    ensures AllSigned(keys, InputsOf(c), outputs, SignAll(keys, c, Essence(InputsOf(c), outputs)))
  {
    var inputs := InputsOf(c);
    var m := Essence(inputs, outputs);
    var sigs := SignAll(keys, c, m);
    SignAllEntries(keys, c, m);
    forall k | 0 <= k < |inputs| ensures InputSigned(keys, inputs[k], m, sigs) {
      assert inputs[k] in inputs;
      InputsExact(c, inputs[k]);
      var i, j :| 0 <= i < |c| && 0 <= j < |c[i].val.ids| && inputs[k] == OutputIdOf(c[i].key, c[i].val.ids[j].key);
      OutputIdParts(c[i].key, c[i].val.ids[j].key);
      assert sigs[i].key == c[i].key;
      FindUnique(sigs, i);
    }
  }

  // So from the selection on nothing fails.
  lemma {:induction false} TransactSucceeds(keys: KeyScheme, w: WalletState, order: Order, c: Accounts)
    requires keys.Sound() && Room(w.am, c) && UniqueAccounts(c) && c != []
    ensures
      var b := BuildOutputs(keys, w.am, order, c);
      Transact(keys, w, order, c)
      == Sending(0, WalletState(MarkIndices(b.am, c), MarkAll(w.accounts, c)), b.remainder,
                 [Compose(keys, w.am, order, c)], c)
  {
    BuiltTransactionValid(keys, c, BuildOutputs(keys, w.am, order, c).outputs);
    hide BuildOutputs, AllSigned, SignAll, Essence, InputsOf, Room, MarkAll, MarkIndices;
  }

  // ---------- what is posted ----------

  // The text of a transaction that the wallet builds, if it has a size_t length:
  // a reader recovers the inputs, the outputs and one signature per account.
  lemma {:induction false} TransactionText(keys: KeyScheme, am: AmState, order: Order, c: Accounts)
    requires Room(am, c) && Unique(c)
    ensures
      var p := Compose(keys, am, order, c);
      var wire := Wire(p.inputs, p.outputs, p.sigs);
      && (if (|wire| + 2) / 3 * 4 + 1 > 0xFFFF_FFFF_FFFF_FFFF then Posts([p]) == []
          else Posts([p]) == [Base64.Encoding(wire)])
      && Base64.WellFormed(Base64.Encoding(wire))
      && Base64.Decoding(Base64.Significant(Base64.Encoding(wire))) == wire
      && (|p.inputs| < TWO32 ==> Parse(wire) == Read(ViewOf(p.inputs, p.outputs, p.sigs), []))
  {
    var p := Compose(keys, am, order, c);
    EncodingDecodes(Wire(p.inputs, p.outputs, p.sigs));
    if |p.inputs| < TWO32 {
      SentCountable(keys, am, order, c);
      WireParses(p.inputs, p.outputs, p.sigs);
    }
    hide Wire, Parse, BuildOutputs, InputsOf, SignAll, Essence;
  }

  lemma {:induction false} SentCountable(keys: KeyScheme, am: AmState, order: Order, c: Accounts)
    requires Room(am, c) && |InputsOf(c)| < TWO32
    ensures Countable(InputsOf(c), BuildOutputs(keys, am, order, c).outputs)
  {
  }

  lemma {:induction false} ViewPointwise(inputs: seq<OutputId>, outputs: seq<TxOutput>, sigs: Signatures)
    ensures
      var v := ViewOf(inputs, outputs, sigs);
      && v.inputs == inputs && |v.outputs| == |outputs| && |v.sigs| == |sigs|
      && (forall i :: 0 <= i < |outputs| ==> v.outputs[i] == (outputs[i].address, outputs[i].balances))
      && (forall i :: 0 <= i < |sigs| ==> v.sigs[i] == sigs[i].val)
  {
    OutputViewsPointwise(outputs);
    SignatureViewsPointwise(sigs);
  }

  lemma {:induction false} OutputViewsPointwise(outputs: seq<TxOutput>)
    ensures |OutputViews(outputs)| == |outputs|
    ensures forall i :: 0 <= i < |outputs| ==> OutputViews(outputs)[i] == (outputs[i].address, outputs[i].balances)
  {
    if outputs != [] {
      OutputViewsPointwise(outputs[1..]);
    }
  }

  lemma {:induction false} SignatureViewsPointwise(sigs: Signatures)
    ensures |SignatureViews(sigs)| == |sigs|
    ensures forall i :: 0 <= i < |sigs| ==> SignatureViews(sigs)[i] == sigs[i].val
  {
    if sigs != [] {
      SignatureViewsPointwise(sigs[1..]);
    }
  }

  // One entry per account, in order, for a reader of the text.
  lemma {:induction false} ReadTransaction(keys: KeyScheme, am: AmState, order: Order, c: Accounts)
    requires Room(am, c) && Unique(c) && |InputsOf(c)| < TWO32
    ensures
      var outputs := BuildOutputs(keys, am, order, c).outputs;
      var essence := Essence(InputsOf(c), outputs);
      var r := Parse(Wire(InputsOf(c), outputs, SignAll(keys, c, essence)));
      && r.Read? && r.rest == [] && r.value.inputs == InputsOf(c)
      && |r.value.outputs| == |outputs| && |r.value.sigs| == |c|
      && (forall i :: 0 <= i < |outputs| ==> r.value.outputs[i] == (outputs[i].address, outputs[i].balances))
      && forall i :: 0 <= i < |c| ==>
           r.value.sigs[i] == EdSignature(keys.publicKey(c[i].val.addrIndex), keys.sign(c[i].val.addrIndex, essence))
  {
    var p := Compose(keys, am, order, c);
    TransactionText(keys, am, order, c);
    hide Wire, Parse, BuildOutputs, InputsOf, SignAll, Essence, Unique;
    ViewPointwise(p.inputs, p.outputs, p.sigs);
    SignAllEntries(keys, c, Essence(p.inputs, p.outputs));
  }

  lemma {:induction false} SendParts(keys: KeyScheme, w: WalletState, order: Order, reply: Reply)
    requires keys.Sound() && UniqueAccounts(Refresh(keys, w, false, reply).accounts)
    requires Refresh(keys, w, false, reply).am == w.am && Room(w.am, Selected(keys, w, order, reply))
    ensures Unique(Selected(keys, w, order, reply))
    ensures
      var s, c := Send(keys, w, order, reply), Selected(keys, w, order, reply);
      if order.amount == 0 || order.receiver == EMPTY || c == [] || Wrap(Total(c, Only(order.color))) < order.amount
      then s.ret == -1 && s.parts == []
      else s.ret == 0 && s.parts == [Compose(keys, w.am, order, c)]
  {
    var c := Selected(keys, w, order, reply);
    hide Refresh, Required, Transact, Total, Room, Compose;
    RequiredUnique(Refresh(keys, w, false, reply).accounts, order.amount, Only(order.color));
    if c != [] {
      TransactSucceeds(keys, Refresh(keys, w, false, reply), order, c);
    }
  }

  // What a send posts: nothing, unless it is covered and its text has a size_t
  // length; else one text, accepted by the decoder, that stands for the
  // transaction built, and from which its parts can be read.
  lemma {:induction false} SendPosts(keys: KeyScheme, w: WalletState, order: Order, reply: Reply)
    requires keys.Sound() && UniqueAccounts(Refresh(keys, w, false, reply).accounts)
    requires Refresh(keys, w, false, reply).am == w.am && Room(w.am, Selected(keys, w, order, reply))
    ensures
      var s, c := Send(keys, w, order, reply), Selected(keys, w, order, reply);
      var outputs := BuildOutputs(keys, w.am, order, c).outputs;
      var essence := Essence(InputsOf(c), outputs);
      var wire := Wire(InputsOf(c), outputs, SignAll(keys, c, essence));
      var posted := Posts(s.parts);
      if order.amount == 0 || order.receiver == EMPTY || c == [] || Wrap(Total(c, Only(order.color))) < order.amount
      then s.ret == -1 && posted == []
      else && s.ret == 0
           && (|posted| == if (|wire| + 2) / 3 * 4 + 1 > 0xFFFF_FFFF_FFFF_FFFF then 0 else 1)
           && (posted != [] ==>
                 Base64.WellFormed(posted[0]) && Base64.Decoding(Base64.Significant(posted[0])) == wire)
           && (posted != [] && |InputsOf(c)| < TWO32 ==>
                 var r := Parse(Base64.Decoding(Base64.Significant(posted[0])));
                 && r.Read? && r.rest == [] && r.value.inputs == InputsOf(c)
                 && |r.value.outputs| == |outputs| && |r.value.sigs| == |c|
                 && (forall i :: 0 <= i < |outputs| ==> r.value.outputs[i] == (outputs[i].address, outputs[i].balances))
                 && forall i :: 0 <= i < |c| ==>
                      r.value.sigs[i] == EdSignature(keys.publicKey(c[i].val.addrIndex),
                                                     keys.sign(c[i].val.addrIndex, essence)))
  {
    var c := Selected(keys, w, order, reply);
    NoPosts();
    hide Send, Refresh, Selected, Posts, Wire, Parse, BuildOutputs, InputsOf, SignAll, Essence, Total, Room, Unique;
    hide UniqueAccounts;
    SendParts(keys, w, order, reply);
    TransactionText(keys, w.am, order, c);
    if |InputsOf(c)| < TWO32 {
      ReadTransaction(keys, w.am, order, c);
    }
  }

  lemma {:induction false} NoPosts()
    ensures Posts([]) == []
  {
  }
}
