/** The address indices a wallet has handed out and which of them are spent. */
module AddressManager {
  import opened Bytes
  import opened Address
  import opened Bitmask

  // The state of wallet_am_t, the bitmask read as a set of indices.
  datatype AmState = AmState(cap: nat, last: uint64, first: uint64, lastUnspent: uint64, spent: set<nat>)

  // ---------- specification ----------

  function GetAddress(s: AmState, index: uint64): AmState {
    var t := if index > s.last then s.(cap := GrownTo(s.cap, index), spent := s.spent - {index}, last := index) else s;
    if index > t.lastUnspent then t.(lastUnspent := index) else t
  }

  function NewAddress(s: AmState): AmState {
    GetAddress(s, Wrap(s.last + 1))
  }

  // The least unspent index in [i, last), or `none`.
  function FirstUnspent(spent: set<nat>, i: uint64, last: uint64, none: uint64): (r: uint64)
    ensures (forall k :: i <= k < last ==> k in spent) ==> r == none
    ensures (exists k :: i <= k < last && k !in spent) ==>
              i <= r < last && r !in spent && forall k :: i <= k < r ==> k in spent
    decreases last - i
  {
    if i >= last then none
    else if i !in spent then i
    else FirstUnspent(spent, i + 1, last, none)
  }

  // The greatest unspent index in (0, i], or `none`.
  function LastUnspent(spent: set<nat>, i: uint64, none: uint64): (r: uint64)
    ensures (forall k :: 0 < k <= i ==> k in spent) ==> r == none
    ensures (exists k :: 0 < k <= i && k !in spent) ==>
              0 < r <= i && r !in spent && forall k :: r < k <= i ==> k in spent
  {
    if i == 0 then none
    else if i !in spent then i
    else LastUnspent(spent, i - 1, none)
  }

  function Mark(s: AmState, index: uint64): AmState {
    var t := s.(cap := GrownTo(s.cap, index), spent := s.spent + {index});
    var u := if index == t.first then t.(first := FirstUnspent(t.spent, t.first, t.last, t.first)) else t;
    if index == u.lastUnspent then u.(lastUnspent := LastUnspent(u.spent, u.lastUnspent, u.lastUnspent)) else u
  }

  // The lookups stay clear of the first byte behind the mask, which the range
  // test lets through. A search looks up spent indices, which have a byte, and
  // the index it ends at; the search downwards starts at the index just marked.
  predicate FirstSearchSafe(s: AmState) {
    s.first < s.last ==> FirstUnspent(s.spent, s.first, s.last, s.first) / 8 != s.cap
  }

  predicate MarkSafe(s: AmState, index: uint64) {
    index == s.first ==> FirstSearchSafe(s.(cap := GrownTo(s.cap, index), spent := s.spent + {index}))
  }

  lemma {:induction false} InBoundsMarkSafe(s: AmState, index: uint64)
    requires s.last < 8 * s.cap
    ensures MarkSafe(s, index)
  {
  }

  datatype Which = Every | Unspent | Spent

  predicate Wanted(spent: set<nat>, which: Which, i: nat) {
    match which
    case Every => true
    case Unspent => i !in spent
    case Spent => i in spent
  }

  // The wanted addresses with indices in [lo, hi), in increasing order.
  function Listed(keys: KeyScheme, spent: set<nat>, which: Which, lo: nat, hi: nat): seq<IndexedAddress>
    requires hi <= TWO64
  {
    if hi <= lo then []
    else Listed(keys, spent, which, lo, hi - 1)
         + (if Wanted(spent, which, hi - 1) then [IndexedAddress(hi - 1, keys.derive(hi - 1))] else [])
  }

  // ---------- the manager ----------

  class Manager {
    const keys: KeyScheme
    const spentAddr: Mask
    var lastAddrIndex: uint64
    var firstUnspentIdx: uint64
    var lastUnspentIdx: uint64

    ghost function State(): AmState
      reads this, spentAddr, spentAddr.byte
    {
      AmState(spentAddr.byte.Length, lastAddrIndex, firstUnspentIdx, lastUnspentIdx, spentAddr.Members())
    }

    // The indices the searches look up have a byte in the mask.
    ghost predicate InBounds()
      reads this, spentAddr, spentAddr.byte
    {
      lastAddrIndex < 8 * spentAddr.byte.Length && lastUnspentIdx < 8 * spentAddr.byte.Length
    }

    constructor (keys: KeyScheme, lastAddrIndex: uint64, mask: Mask?)
      ensures this.keys == keys
      ensures fresh(spentAddr) && fresh(spentAddr.byte)
      ensures State() == AmState(if mask == null then 1 else mask.byte.Length, lastAddrIndex, 0, 0,
                                 if mask == null then {} else mask.Members())
    {
      this.keys := keys;
      var m;
      if mask != null {
        m := new Mask.Clone(mask);
      } else {
        m := new Mask();
      }
      spentAddr := m;
      this.lastAddrIndex := lastAddrIndex;
      firstUnspentIdx, lastUnspentIdx := 0, 0;
    }

    method UpdateSpentAddress(index: uint64, isNew: bool)
      modifies spentAddr, spentAddr.byte
      ensures fresh(spentAddr.byte) || spentAddr.byte == old(spentAddr.byte)
      ensures
        var s := old(State());
        State() == s.(cap := GrownTo(s.cap, index), spent := if isNew then s.spent - {index} else s.spent + {index})
    {
      ghost var spent := spentAddr.Members();
      spentAddr.Operate(index, if isNew then Clear else Set);
      assert spentAddr.Members() == if isNew then spent - {index} else spent + {index};
    }

    method GetAddressAt(index: uint64) returns (addr: Addr)
      modifies this, spentAddr, spentAddr.byte
      ensures fresh(spentAddr.byte) || spentAddr.byte == old(spentAddr.byte)
      ensures State() == GetAddress(old(State()), index)
      ensures addr == keys.derive(index)
    {
      if index > lastAddrIndex {
        UpdateSpentAddress(index, true);
        lastAddrIndex := index;
      }
      if index > lastUnspentIdx {
        lastUnspentIdx := index;
      }
      addr := keys.derive(index);
    }

    method GetNewAddress() returns (addr: Addr)
      modifies this, spentAddr, spentAddr.byte
      ensures fresh(spentAddr.byte) || spentAddr.byte == old(spentAddr.byte)
      ensures State() == NewAddress(old(State()))
      ensures addr == keys.derive(Wrap(old(lastAddrIndex) + 1))
    {
      addr := GetAddressAt(Wrap(lastAddrIndex + 1));
    }

    method GetFirstUnspentAddress() returns (addr: Addr)
      modifies this, spentAddr, spentAddr.byte
      ensures fresh(spentAddr.byte) || spentAddr.byte == old(spentAddr.byte)
      ensures State() == GetAddress(old(State()), old(firstUnspentIdx))
      ensures addr == keys.derive(old(firstUnspentIdx))
    {
      addr := GetAddressAt(firstUnspentIdx);
    }

    method GetLastUnspentAddress() returns (addr: Addr)
      modifies this, spentAddr, spentAddr.byte
      ensures fresh(spentAddr.byte) || spentAddr.byte == old(spentAddr.byte)
      ensures State() == GetAddress(old(State()), old(lastUnspentIdx))
      ensures addr == keys.derive(old(lastUnspentIdx))
    {
      addr := GetAddressAt(lastUnspentIdx);
    }

    method IsSpentAddress(index: uint64) returns (r: bool)
      requires index / 8 != spentAddr.byte.Length
      ensures r <==> index in State().spent
    {
      r := spentAddr.Get(index);
    }

    method UpdateFirstUnspentIndex()
      requires FirstSearchSafe(State())
      modifies this`firstUnspentIdx
      ensures var s := old(State()); State() == s.(first := FirstUnspent(s.spent, s.first, s.last, s.first))
    {
      var i: uint64 := firstUnspentIdx;
      while i < lastAddrIndex
        invariant State() == old(State())
        invariant FirstUnspent(State().spent, firstUnspentIdx, lastAddrIndex, firstUnspentIdx)
               == FirstUnspent(State().spent, i, lastAddrIndex, firstUnspentIdx)
      {
        assert i in State().spent ==> i / 8 < State().cap;
        var spent := IsSpentAddress(i);
        if !spent {
          firstUnspentIdx := i;
          return;
        }
        i := i + 1;
      }
    }

    method UpdateLastUnspentIndex()
      requires lastUnspentIdx == 0 || lastUnspentIdx / 8 != spentAddr.byte.Length
      modifies this`lastUnspentIdx
      ensures
        var s := old(State());
        State() == s.(lastUnspent := LastUnspent(s.spent, s.lastUnspent, s.lastUnspent))
    {
      var i: uint64 := lastUnspentIdx;
      while i > 0
        invariant i <= lastUnspentIdx && State() == old(State())
        invariant i == 0 || i == lastUnspentIdx || i / 8 < State().cap
        invariant LastUnspent(State().spent, lastUnspentIdx, lastUnspentIdx)
               == LastUnspent(State().spent, i, lastUnspentIdx)
      {
        var spent := IsSpentAddress(i);
        if !spent {
          lastUnspentIdx := i;
          return;
        }
        i := i - 1;
      }
    }

    method MarkSpentAddress(index: uint64)
      requires MarkSafe(State(), index)
      modifies this, spentAddr, spentAddr.byte
      ensures fresh(spentAddr.byte) || spentAddr.byte == old(spentAddr.byte)
      ensures State() == Mark(old(State()), index)
    {
      UpdateSpentAddress(index, false);
      if index == firstUnspentIdx {
        UpdateFirstUnspentIndex();
      }
      if index == lastUnspentIdx {
        UpdateLastUnspentIndex();
      }
    }

    // The three list builders; the loops over `i <= last` need an index above last.
    method Addresses() returns (list: seq<IndexedAddress>)
      requires lastAddrIndex < TWO64 - 1
      ensures list == Listed(keys, State().spent, Every, 0, lastAddrIndex + 1)
    {
      list := [];
      var i := 0;
      while i <= lastAddrIndex
        invariant i <= lastAddrIndex + 1
        invariant list == Listed(keys, State().spent, Every, 0, i)
      {
        list := list + [IndexedAddress(i, keys.derive(i))];
        i := i + 1;
      }
    }

    method UnspentAddresses() returns (list: seq<IndexedAddress>)
      requires lastAddrIndex < TWO64 - 1
      requires firstUnspentIdx > lastAddrIndex || lastAddrIndex / 8 < spentAddr.byte.Length
               || spentAddr.byte.Length < firstUnspentIdx / 8
      ensures list == Listed(keys, State().spent, Unspent, firstUnspentIdx, lastAddrIndex + 1)
    {
      list := [];
      var i := firstUnspentIdx;
      while i <= lastAddrIndex
        invariant firstUnspentIdx <= i && (i <= lastAddrIndex + 1 || i == firstUnspentIdx)
        invariant list == Listed(keys, State().spent, Unspent, firstUnspentIdx, i)
      {
        var spent := IsSpentAddress(i);
        if !spent {
          list := list + [IndexedAddress(i, keys.derive(i))];
        }
        i := i + 1;
      }
    }

    method SpentAddresses() returns (list: seq<IndexedAddress>)
      requires lastAddrIndex < TWO64 - 1 && lastAddrIndex / 8 < spentAddr.byte.Length
      ensures list == Listed(keys, State().spent, Spent, 0, lastAddrIndex + 1)
    {
      list := [];
      var i := 0;
      while i <= lastAddrIndex
        invariant i <= lastAddrIndex + 1
        invariant list == Listed(keys, State().spent, Spent, 0, i)
      {
        var spent := IsSpentAddress(i);
        if spent {
          list := list + [IndexedAddress(i, keys.derive(i))];
        }
        i := i + 1;
      }
    }
  }

  // ---------- invariants over every run ----------

  // Only indices that were handed out are spent.
  ghost predicate Contained(s: AmState) {
    forall i :: i in s.spent ==> i <= s.last
  }

  // first <= lastUnspent <= last bracket the unspent indices, and the mask has
  // a byte for every index and no bit above last.
  ghost predicate Bracketed(s: AmState) {
    && s.first <= s.lastUnspent <= s.last < 8 * s.cap
    && (forall i: nat :: i < s.first ==> i in s.spent)
    && (forall i: nat :: s.lastUnspent < i <= s.last ==> i in s.spent)
    && Contained(s)
  }

  // No index that was handed out is taken back or becomes unspent again.
  ghost predicate Retains(s: AmState, t: AmState) {
    s.last <= t.last && forall i :: i in s.spent && i <= s.last ==> i in t.spent
  }

  datatype AmOp = New | Address(index: uint64) | MarkSpent(index: uint64)

  function Next(s: AmState, op: AmOp): AmState {
    match op
    case New => NewAddress(s)
    case Address(i) => GetAddress(s, i)
    case MarkSpent(i) => Mark(s, i)
  }

  // The only restriction on callers: an address is marked after it was handed out.
  predicate Allowed(s: AmState, op: AmOp) {
    op.MarkSpent? ==> op.index <= s.last
  }

  function Run(s: AmState, ops: seq<AmOp>): AmState {
    if ops == [] then s else Next(Run(s, ops[..|ops| - 1]), ops[|ops| - 1])
  }

  predicate AllowedRun(s: AmState, ops: seq<AmOp>) {
    ops == [] || (AllowedRun(s, ops[..|ops| - 1]) && Allowed(Run(s, ops[..|ops| - 1]), ops[|ops| - 1]))
  }

  // Handing out an index touches no bit of those handed out before, and no bit
  // at all if only those are set.
  lemma {:induction false} GetAddressRetains(s: AmState, index: uint64)
    ensures
      var t := GetAddress(s, index);
      && s.last <= t.last && s.first == t.first
      && (forall i: nat :: i <= s.last ==> (i in t.spent <==> i in s.spent))
      && (Contained(s) ==> t.spent == s.spent)
  {
    assert Contained(s) && index > s.last ==> s.spent - {index} == s.spent;
  }

  lemma {:induction false} MarkRetains(s: AmState, index: uint64)
    ensures
      var t := Mark(s, index);
      && t.spent == s.spent + {index} && t.last == s.last
      && (s.first <= s.last ==> t.first <= t.last)
  {
  }

  // Where handing an index out leaves the indices and the spent set.
  lemma {:induction false} GetAddressIs(s: AmState, index: uint64)
    ensures
      var t := GetAddress(s, index);
      && t.last >= s.last && t.last >= index && t.last in {s.last, index}
      && t.lastUnspent >= s.lastUnspent && t.lastUnspent >= index && t.lastUnspent in {s.lastUnspent, index}
      && t.first == s.first
      && forall i: nat :: i in t.spent <==> i in s.spent && !(i == index && index > s.last)
  {
  }

  // A new address is the one behind the last; behind index 2^64 - 1 there is
  // none, and nothing changes.
  lemma {:induction false} NewAddressIs(s: AmState)
    ensures
      var t := NewAddress(s);
      if s.last == 0xFFFF_FFFF_FFFF_FFFF then t == s
      else && t.last == s.last + 1 && t.first == s.first && t.last !in t.spent
           && t.lastUnspent == (if s.lastUnspent > s.last then s.lastUnspent else s.last + 1)
           && forall i: nat :: i != t.last ==> (i in t.spent <==> i in s.spent)
  {
    assert Wrap(s.last + 1) == if s.last == 0xFFFF_FFFF_FFFF_FFFF then 0 else s.last + 1;
  }

  // Where a mark leaves the first unspent index: at the next one below the last
  // index, if it was marked itself and there is one. So it still lives up to its
  // name exactly when there is, or when it did and was not marked.
  lemma {:induction false} MarkFirstIff(s: AmState, index: uint64)
    ensures
      var t := Mark(s, index);
      && (if index == s.first && exists k: uint64 :: s.first < k < s.last && k !in s.spent
          then s.first < t.first < s.last && t.first !in s.spent
               && forall k: uint64 :: s.first < k < t.first ==> k in s.spent
          else t.first == s.first)
      && (t.first !in t.spent
          <==> if index == s.first then exists k: uint64 :: s.first < k < s.last && k !in s.spent
               else s.first !in s.spent)
  {
    if index == s.first {
      assert forall k :: k in s.spent + {index} <==> k in s.spent || k == index;
      if k: uint64 :| s.first < k < s.last && k !in s.spent {
        assert k !in s.spent + {index};
      }
    }
  }

  // The same for the last unspent index, which a mark moves down to one above 0.
  lemma {:induction false} MarkLastIff(s: AmState, index: uint64)
    ensures
      var t := Mark(s, index);
      && (if index == s.lastUnspent && exists k: uint64 :: 0 < k < s.lastUnspent && k !in s.spent
          then 0 < t.lastUnspent < s.lastUnspent && t.lastUnspent !in s.spent
               && forall k: uint64 :: t.lastUnspent < k < s.lastUnspent ==> k in s.spent
          else t.lastUnspent == s.lastUnspent)
      && (t.lastUnspent !in t.spent
          <==> if index == s.lastUnspent then exists k: uint64 :: 0 < k < s.lastUnspent && k !in s.spent
               else s.lastUnspent !in s.spent)
  {
    if index == s.lastUnspent {
      assert forall k :: k in s.spent + {index} <==> k in s.spent || k == index;
      if k: uint64 :| 0 < k < s.lastUnspent && k !in s.spent {
        assert k !in s.spent + {index};
      }
    }
  }

  lemma {:induction false} GetAddressUnspentIff(s: AmState, index: uint64)
    ensures
      var t := GetAddress(s, index);
      && (s.first <= s.last ==> (t.first !in t.spent <==> s.first !in s.spent))
      && (s.lastUnspent <= s.last ==>
            (t.lastUnspent !in t.spent
             <==> if s.lastUnspent < index <= s.last then index !in s.spent
                  else index > s.last || s.lastUnspent !in s.spent))
  {
  }

  // So from a new manager, marking its one address and asking for two more
  // leaves the spent index 0 in the place of the first unspent one.
  lemma {:induction false} FirstStale()
    ensures
      var s := Run(FRESH, [MarkSpent(0), New, New]);
      s.first == 0 && s.spent == {0} && s.last == 2 && AllowedRun(FRESH, [MarkSpent(0), New, New])
  {
    var a, b, c := [MarkSpent(0)], [MarkSpent(0), New], [MarkSpent(0), New, New];
    assert a[..0] == [] && b[..1] == a && c[..2] == b;
    assert Run(FRESH, []) == FRESH;
    assert Run(FRESH, a) == AmState(1, 0, 0, 0, {0});
    assert Run(FRESH, b) == AmState(1, 1, 0, 1, {0});
    assert AllowedRun(FRESH, a) && AllowedRun(FRESH, b);
  }

  // Handing an index out changes nothing exactly when it and a later unspent
  // one were handed out before.
  lemma {:induction false} AskingChangesNothingIff(s: AmState, index: uint64)
    ensures GetAddress(s, index) == s <==> index <= s.last && index <= s.lastUnspent
    ensures Bracketed(s) ==> GetAddress(s, s.first) == s && GetAddress(s, s.lastUnspent) == s
  {
  }

  // Over every run from any state, whatever is marked: what was handed out
  // stays so, and a spent index among it stays spent.
  lemma {:induction false} RunRetains(s: AmState, ops: seq<AmOp>)
    ensures Retains(s, Run(s, ops)) && (s.first <= s.last ==> Run(s, ops).first <= Run(s, ops).last)
  {
    if ops != [] {
      var t, op := Run(s, ops[..|ops| - 1]), ops[|ops| - 1];
      RunRetains(s, ops[..|ops| - 1]);
      match op
      case New => GetAddressRetains(t, Wrap(t.last + 1));
      case Address(i) => GetAddressRetains(t, i);
      case MarkSpent(i) => MarkRetains(t, i);
    }
  }

  // The bit that is cleared for a new index was not set.
  lemma {:induction false} GetAddressKeeps(s: AmState, index: uint64)
    requires Bracketed(s)
    ensures Bracketed(GetAddress(s, index))
    ensures index > s.last ==> index !in s.spent
    ensures GetAddress(s, index).spent == s.spent
  {
    assert index > s.last ==> s.spent - {index} == s.spent;
  }

  lemma {:induction false} MarkKeeps(s: AmState, index: uint64)
    requires Bracketed(s) && index <= s.last
    ensures Bracketed(Mark(s, index))
    ensures Mark(s, index).spent == s.spent + {index} && Mark(s, index).last == s.last
  {
    var t := s.(cap := GrownTo(s.cap, index), spent := s.spent + {index});
    if index == t.first {
      var f := FirstUnspent(t.spent, t.first, t.last, t.first);
      assert f == t.first || f <= t.lastUnspent;
    }
  }

  lemma {:induction false} NextKeeps(s: AmState, op: AmOp)
    requires Bracketed(s) && Allowed(s, op)
    ensures Bracketed(Next(s, op)) && s.spent <= Next(s, op).spent && s.last <= Next(s, op).last
  {
    match op
    case New => GetAddressKeeps(s, Wrap(s.last + 1));
    case Address(i) => GetAddressKeeps(s, i);
    case MarkSpent(i) => MarkKeeps(s, i);
  }

  // Every run keeps the brackets, and an index once spent stays spent.
  lemma {:induction false} RunKeeps(s: AmState, ops: seq<AmOp>)
    requires Bracketed(s) && AllowedRun(s, ops)
    ensures Bracketed(Run(s, ops)) && s.spent <= Run(s, ops).spent && s.last <= Run(s, ops).last
  {
    if ops != [] {
      RunKeeps(s, ops[..|ops| - 1]);
      NextKeeps(Run(s, ops[..|ops| - 1]), ops[|ops| - 1]);
    }
  }

  // What am_new(seed, 0, NULL) starts with.
  const FRESH: AmState := AmState(1, 0, 0, 0, {})

  lemma {:induction false} RunFromFresh(ops: seq<AmOp>, more: seq<AmOp>)
    requires AllowedRun(FRESH, ops + more)
    ensures Bracketed(Run(FRESH, ops)) && Run(FRESH, ops).spent <= Run(FRESH, ops + more).spent
  {
    if more == [] {
      assert ops + more == ops;
      RunKeeps(FRESH, ops);
    } else {
      var fewer := more[..|more| - 1];
      assert (ops + more)[..|ops + more| - 1] == ops + fewer;
      RunFromFresh(ops, fewer);
      RunKeeps(FRESH, ops + fewer);
      NextKeeps(Run(FRESH, ops + fewer), more[|more| - 1]);
    }
  }

  // Marking an index that was not handed out yet is forgotten when it is.
  lemma {:induction false} MarkSurvivesIff(s: AmState, index: uint64)
    ensures index in GetAddress(Mark(s, index), index).spent <==> index <= s.last
  {
    assert Mark(s, index).last == s.last;
  }

  // ---------- the lists ----------

  // A wanted index of the range, with its address.
  predicate InRange(keys: KeyScheme, spent: set<nat>, which: Which, lo: nat, hi: nat, a: IndexedAddress) {
    lo <= a.index < hi && Wanted(spent, which, a.index) && a.addr == keys.derive(a.index)
  }

  ghost predicate Increasing(l: seq<IndexedAddress>) {
    forall j, k :: 0 <= j < k < |l| ==> l[j].index < l[k].index
  }

  // A list holds just the wanted indices of its range, in increasing order.
  lemma {:induction false} ListedExactly(keys: KeyScheme, spent: set<nat>, which: Which, lo: nat, hi: nat)
    requires hi <= TWO64
    ensures forall a :: a in Listed(keys, spent, which, lo, hi) <==> InRange(keys, spent, which, lo, hi, a)
    ensures Increasing(Listed(keys, spent, which, lo, hi))
  {
    if hi > lo {
      var before, last := Listed(keys, spent, which, lo, hi - 1), IndexedAddress(hi - 1, keys.derive(hi - 1));
      ListedExactly(keys, spent, which, lo, hi - 1);
      forall k | 0 <= k < |before| ensures before[k].index < hi - 1 {
        assert before[k] in before;
      }
      forall a ensures a in Listed(keys, spent, which, lo, hi) <==> InRange(keys, spent, which, lo, hi, a) {
        assert a in before <==> InRange(keys, spent, which, lo, hi - 1, a);
        assert a in before + [last] <==> a in before || a == last;
      }
    }
  }

  lemma {:induction false} SkipUnwanted(keys: KeyScheme, spent: set<nat>, which: Which, lo: nat, hi: nat)
    requires lo <= hi <= TWO64 && forall i :: 0 <= i < lo ==> !Wanted(spent, which, i)
    ensures Listed(keys, spent, which, lo, hi) == Listed(keys, spent, which, 0, hi)
    decreases hi
  {
    if hi > lo {
      SkipUnwanted(keys, spent, which, lo, hi - 1);
    } else if hi > 0 {
      SkipUnwanted(keys, spent, which, hi - 1, hi - 1);
      assert Listed(keys, spent, which, 0, hi) == [] + [];
    }
  }

  // Starting at the first unspent index loses nothing.
  lemma {:induction false} ShortcutComplete(keys: KeyScheme, s: AmState)
    requires Bracketed(s)
    ensures Listed(keys, s.spent, Unspent, s.first, s.last + 1) == Listed(keys, s.spent, Unspent, 0, s.last + 1)
  {
    SkipUnwanted(keys, s.spent, Unspent, s.first, s.last + 1);
  }

  // The unspent and the spent list together are the full list.
  lemma {:induction false} ListsPartition(keys: KeyScheme, s: AmState)
    requires Bracketed(s)
    ensures multiset(Listed(keys, s.spent, Every, 0, s.last + 1))
         == multiset(Listed(keys, s.spent, Unspent, s.first, s.last + 1))
          + multiset(Listed(keys, s.spent, Spent, 0, s.last + 1))
  {
    ShortcutComplete(keys, s);
    Partition(keys, s.spent, s.last + 1);
  }

  lemma {:induction false} Partition(keys: KeyScheme, spent: set<nat>, hi: nat)
    requires hi <= TWO64
    ensures multiset(Listed(keys, spent, Every, 0, hi))
         == multiset(Listed(keys, spent, Unspent, 0, hi)) + multiset(Listed(keys, spent, Spent, 0, hi))
  {
    if hi > 0 {
      Partition(keys, spent, hi - 1);
      var e := [IndexedAddress(hi - 1, keys.derive(hi - 1))];
      assert Listed(keys, spent, Every, 0, hi) == Listed(keys, spent, Every, 0, hi - 1) + e;
    }
  }
}
