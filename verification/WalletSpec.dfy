/** What the wallet operations do to its state, as functions. */
module WalletSpec {
  import opened Bytes
  import opened UtHash
  import opened Address
  import opened AddressManager
  import Bitmask
  import opened Balances
  import opened OutputIds
  import opened UnspentOutputs
  import opened Base64Codec
  import opened WireFormat
  import opened Transaction

  // wallet_t without the endpoint
  datatype WalletState = WalletState(am: AmState, accounts: Accounts)

  // What the node says when asked for unspent outputs: the query failed, or
  // a table came back.
  datatype Reply = NoAnswer | Answer(accounts: Accounts)

  // The deserializer builds a table with unique keys, index 0 and no spent flag.
  ghost predicate FromNode(r: Reply) {
    r.Answer? ==>
      UniqueAccounts(r.accounts)
      && forall i :: 0 <= i < |r.accounts| ==> r.accounts[i].val.addrIndex == 0 && !r.accounts[i].val.spent
  }

  // send_funds_op_t
  datatype Order = Order(amount: uint64, receiver: Addr, color: Color, remainder: Addr)

  // ---------- refresh ----------

  // A known address gets the ids of the answer and keeps its flag and index; an
  // unknown one is appended.
  function MergeOne(t: Accounts, e: Entry<Addr, Account>): Accounts {
    if Has(t, e.key) then SetIds(t, e.key, e.val.ids)
    else t + [Entry(e.key, Account(e.val.addrIndex, false, e.val.ids))]
  }

  function Merge(t: Accounts, answer: Accounts): Accounts {
    if answer == [] then t else MergeOne(Merge(t, answer[..|answer| - 1]), answer[|answer| - 1])
  }

  function Asked(keys: KeyScheme, am: AmState, includeSpent: bool): seq<IndexedAddress> {
    if includeSpent then Listed(keys, am.spent, Every, 0, am.last + 1)
    else Listed(keys, am.spent, Unspent, am.first, am.last + 1)
  }

  // The addresses asked about are, in increasing order, those of the indices up
  // to the last one, or of the unspent ones from the first unspent one on.
  lemma {:induction false} AskedExactly(keys: KeyScheme, am: AmState, includeSpent: bool)
    ensures
      var asked := Asked(keys, am, includeSpent);
      && (forall a :: a in asked
            <==> a.index <= am.last && a.addr == keys.derive(a.index)
                 && (includeSpent || (am.first <= a.index && a.index !in am.spent)))
      && (forall j, k :: 0 <= j < k < |asked| ==> asked[j].index < asked[k].index)
      && (asked != [] <==> includeSpent || exists k: uint64 :: am.first <= k <= am.last && k !in am.spent)
  {
    hide Listed;
    var asked := Asked(keys, am, includeSpent);
    var which, lo := if includeSpent then Every else Unspent, if includeSpent then 0 else am.first;
    ListedExactly(keys, am.spent, which, lo, am.last + 1);
    forall a
      ensures a in asked
              <==> a.index <= am.last && a.addr == keys.derive(a.index)
                   && (includeSpent || (am.first <= a.index && a.index !in am.spent))
    {
      assert a in asked <==> InRange(keys, am.spent, which, lo, am.last + 1, a);
    }
    hide InRange, Asked;
    AskedAny(keys, am, includeSpent, asked);
  }

  lemma {:induction false} AskedAny(keys: KeyScheme, am: AmState, includeSpent: bool, asked: seq<IndexedAddress>)
    requires forall a :: a in asked
               <==> a.index <= am.last && a.addr == keys.derive(a.index)
                    && (includeSpent || (am.first <= a.index && a.index !in am.spent))
    ensures asked != [] <==> includeSpent || exists k: uint64 :: am.first <= k <= am.last && k !in am.spent
  {
    if asked != [] {
      assert asked[0] in asked;
    }
    if includeSpent {
      assert IndexedAddress(0, keys.derive(0)) in asked;
    } else if k: uint64 :| am.first <= k <= am.last && k !in am.spent {
      assert IndexedAddress(k, keys.derive(k)) in asked;
    }
  }

  function Refresh(keys: KeyScheme, w: WalletState, includeSpent: bool, reply: Reply): WalletState {
    if Asked(keys, w.am, includeSpent) != [] && reply.Answer? then w.(accounts := Merge(w.accounts, reply.accounts))
    else w
  }

  // ---------- building and signing a transaction ----------

  function InputsOfIds(addr: Addr, ids: Ids): (r: seq<OutputId>)
    ensures |r| == |ids|
  {
    if ids == [] then [] else InputsOfIds(addr, ids[..|ids| - 1]) + [OutputIdOf(addr, ids[|ids| - 1].key)]
  }

  function InputsOf(consumed: Accounts): seq<OutputId> {
    if consumed == [] then []
    else InputsOf(consumed[..|consumed| - 1])
         + InputsOfIds(consumed[|consumed| - 1].key, consumed[|consumed| - 1].val.ids)
  }

  function AddressesOf(t: Accounts): set<Addr> {
    set i | 0 <= i < |t| :: t[i].key
  }

  // The first index from i on whose address is not taken.
  function FirstFree(keys: KeyScheme, i: uint64, taken: set<Addr>): (r: uint64)
    requires i + |taken| < TWO64
    ensures i <= r <= i + |taken|
    decreases |taken|
  {
    if keys.derive(i) in taken then FirstFree(keys, i + 1, taken - {keys.derive(i)}) else i
  }

  // Asking for one new address after the other until index i exists.
  function GrowAm(am: AmState, i: uint64): AmState
    decreases i - am.last
  {
    if i <= am.last then am else GrowAm(NewAddress(am), i)
  }

  predicate Room(am: AmState, consumed: Accounts) {
    am.first + |consumed| < TWO64
  }

  lemma {:induction false} FewAddresses(t: Accounts)
    ensures |AddressesOf(t)| <= |t|
  {
    if t != [] {
      var s := t[..|t| - 1];
      FewAddresses(s);
      assert AddressesOf(t) == AddressesOf(s) + {t[|t| - 1].key};
    }
  }

  // Address and index of the remainder, and the manager after the search. When
  // first > last the loop does not run and the address stays all zero.
  datatype Choice = Choice(addr: Addr, index: uint64, am: AmState)

  function ChooseRemainder(keys: KeyScheme, am: AmState, consumed: Accounts): Choice
    requires Room(am, consumed)
  {
    FewAddresses(consumed);
    if am.first <= am.last then
      var i := FirstFree(keys, am.first, AddressesOf(consumed));
      Choice(keys.derive(i), i, GrowAm(am, i))
    else Choice(EMPTY, 0, am)
  }

  datatype Built = Built(outputs: seq<TxOutput>, remainder: Addr, am: AmState)

  predicate NeedsRemainder(order: Order, consumed: Accounts) {
    Wrap(Total(consumed, Only(order.color))) > order.amount && order.remainder == EMPTY
  }

  function OneCoin(color: Color, value: uint64): seq<Coin> {
    [Coin(color, Signed(value))]
  }

  function BuildOutputs(keys: KeyScheme, am: AmState, order: Order, consumed: Accounts): Built
    requires Room(am, consumed)
  {
    var balance := Wrap(Total(consumed, Only(order.color)));
    var pay := TxOutput(0, order.receiver, OneCoin(order.color, order.amount));
    if !NeedsRemainder(order, consumed) then Built([pay], order.remainder, am)
    else
      var c := ChooseRemainder(keys, am, consumed);
      if order.receiver == c.addr then
        Built([TxOutput(c.index, c.addr, OneCoin(order.color, balance))], c.addr, c.am)
      else
        Built([TxOutput(c.index, c.addr, OneCoin(order.color, balance - order.amount)), pay], c.addr, c.am)
  }

  function SignAll(keys: KeyScheme, consumed: Accounts, essence: seq<byte>): Signatures {
    if consumed == [] then []
    else
      var e := consumed[|consumed| - 1];
      Insert(SignAll(keys, consumed[..|consumed| - 1], essence), e.key,
             EdSignature(keys.publicKey(e.val.addrIndex), keys.sign(e.val.addrIndex, essence)))
  }

  function MarkIndices(am: AmState, consumed: Accounts): AmState {
    if consumed == [] then am
    else Mark(MarkIndices(am, consumed[..|consumed| - 1]), consumed[|consumed| - 1].val.addrIndex)
  }

  // ---------- send ----------

  datatype Parts = Parts(inputs: seq<OutputId>, outputs: seq<TxOutput>, sigs: Signatures)

  // The parts of the transaction built, if one was; `consumed` is what the
  // marking loop runs over, empty if it is not reached.
  datatype Sending = Sending(ret: int, state: WalletState, remainder: Addr, parts: seq<Parts>, consumed: Accounts)

  function Selected(keys: KeyScheme, w: WalletState, order: Order, reply: Reply): Accounts {
    Required(Refresh(keys, w, false, reply).accounts, order.amount, Only(order.color))
  }

  // The transaction that spends the selected accounts.
  function Compose(keys: KeyScheme, am: AmState, order: Order, c: Accounts): Parts
    requires Room(am, c)
  {
    var outputs := BuildOutputs(keys, am, order, c).outputs;
    Parts(InputsOf(c), outputs, SignAll(keys, c, Essence(InputsOf(c), outputs)))
  }

  // From the selected accounts on: build, sign, check, post, mark.
  ghost function Transact(keys: KeyScheme, w: WalletState, order: Order, c: Accounts): Sending
    requires Room(w.am, c)
  {
    var b := BuildOutputs(keys, w.am, order, c);
    var p := Compose(keys, w.am, order, c);
    if !AllSigned(keys, p.inputs, p.outputs, p.sigs) then Sending(-1, w.(am := b.am), b.remainder, [], [])
    else Sending(0, WalletState(MarkIndices(b.am, c), MarkAll(w.accounts, c)), b.remainder, [p], c)
  }

  ghost function Send(keys: KeyScheme, w: WalletState, order: Order, reply: Reply): Sending
    requires Room(w.am, Selected(keys, w, order, reply))
  {
    if order.amount == 0 || order.receiver == EMPTY then Sending(-1, w, order.remainder, [], [])
    else
      var w1 := Refresh(keys, w, false, reply);
      var c := Selected(keys, w, order, reply);
      if c == [] || Wrap(Total(c, Only(order.color))) < order.amount then Sending(-1, w1, order.remainder, [], [])
      else Transact(keys, w1, order, c)
  }

  // What a caller could check before a send: amount and receiver are given, and
  // what would be selected is something and covers the amount.
  predicate Covered(keys: KeyScheme, w: WalletState, order: Order, reply: Reply) {
    var c := Selected(keys, w, order, reply);
    order.amount > 0 && order.receiver != EMPTY && c != [] && Wrap(Total(c, Only(order.color))) >= order.amount
  }

  // The text of each transaction built, if it has a size_t length.
  function Posts(parts: seq<Parts>): seq<seq<byte>> {
    if parts == [] || EncodeRoom(|Wire(parts[0].inputs, parts[0].outputs, parts[0].sigs)|) > SIZE_MAX then []
    else [Text(parts[0].inputs, parts[0].outputs, parts[0].sigs)]
  }

  // ---------- creation ----------

  // The mask with the first n bits set, one after the other.
  function InitMask(n: nat): (nat, set<nat>) {
    if n == 0 then (1, {})
    else var (cap, spent) := InitMask(n - 1); (Bitmask.GrownTo(cap, n - 1), spent + {n - 1})
  }

  function InitAccounts(keys: KeyScheme, n: nat, firstUnspent: uint64): Accounts
    requires n <= TWO64
  {
    if n == 0 then []
    else
      var t := Insert(InitAccounts(keys, n - 1, firstUnspent), keys.derive(n - 1), Account(n - 1, false, []));
      if n - 1 < firstUnspent then SetSpentAt(t, keys.derive(n - 1), true) else t
  }

  function Init(keys: KeyScheme, last: uint64, first: uint64, lastUnspent: uint64): WalletState {
    WalletState(AmState(InitMask(first).0, last, first, lastUnspent, InitMask(first).1),
                InitAccounts(keys, last + 1, first))
  }
}
