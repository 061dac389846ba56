/** Coloured balances and the table that maps a colour to its value. */
module Balances {
  import opened Bytes
  import opened UtHash

  const COLOR_BYTES: nat := 32
  const COIN_BYTES: nat := 8 + COLOR_BYTES

  type Color = c: seq<byte> | |c| == COLOR_BYTES witness Zeros(COLOR_BYTES)

  // balance_t
  datatype Coin = Coin(color: Color, value: int64)

  // balance_ht_t
  type Holding = Table<Color, int64>

  // Which colours a sum counts: the plain and the coloured functions of the
  // C code differ in nothing else.
  datatype Filter = All | Only(color: Color)

  predicate Admits(f: Filter, c: Color) {
    f.Only? ==> f.color == c
  }

  function Sum(t: Holding, f: Filter): int {
    if t == [] then 0
    else Sum(t[..|t| - 1], f) + (if Admits(f, t[|t| - 1].key) then t[|t| - 1].val else 0)
  }

  lemma {:induction false} SumNext(t: Holding, f: Filter, i: nat)
    requires i < |t|
    ensures Sum(t[..i + 1], f) == Sum(t[..i], f) + (if Admits(f, t[i].key) then t[i].val else 0)
  {
    assert t[..i + 1][..i] == t[..i];
  }

  lemma {:induction false} SumConcat(a: Holding, b: Holding, f: Filter)
    ensures Sum(a + b, f) == Sum(a, f) + Sum(b, f)
  {
    if b == [] {
      assert a + b == a;
    } else {
      SumConcat(a, b[..|b| - 1], f);
      assert (a + b)[..|a + b| - 1] == a + b[..|b| - 1];
    }
  }

  class BalanceTable {
    var entries: Holding

    constructor (initial: Holding)
      ensures entries == initial
    {
      entries := initial;
    }

    method Add(color: Color, value: int64) returns (ret: int)
      modifies this
      ensures entries == Insert(old(entries), color, value)
      ensures ret == if Has(old(entries), color) then -1 else 0
    {
      if Has(entries, color) {
        return -1;
      }
      entries := entries + [Entry(color, value)];
      ret := 0;
    }
  }

  // The read-only functions look at a table without changing it.
  method SumAll(t: Holding) returns (sum: uint64)
    ensures sum == Wrap(Sum(t, All))
  {
    sum := 0;
    for i := 0 to |t|
      invariant sum == Wrap(Sum(t[..i], All))
    {
      SumNext(t, All, i);
      WrapAdd(Sum(t[..i], All), t[i].val);
      sum := Wrap(sum + t[i].val);
    }
    assert t[..|t|] == t;
  }

  method SumWithColor(t: Holding, color: Color) returns (sum: uint64)
    ensures sum == Wrap(Sum(t, Only(color)))
  {
    sum := 0;
    for i := 0 to |t|
      invariant sum == Wrap(Sum(t[..i], Only(color)))
    {
      SumNext(t, Only(color), i);
      if color == t[i].key {
        WrapAdd(Sum(t[..i], Only(color)), t[i].val);
        sum := Wrap(sum + t[i].val);
      }
    }
    assert t[..|t|] == t;
  }

  method Clone(t: Holding) returns (dst: BalanceTable)
    requires Unique(t)
    ensures fresh(dst) && dst.entries == t
  {
    dst := new BalanceTable([]);
    for i := 0 to |t|
      invariant fresh(dst) && dst.entries == InsertAll([], t[..i])
    {
      InsertNext([], t, i);
      var _ := dst.Add(t[i].key, t[i].val);
    }
    assert t[..|t|] == t;
    InsertIntoEmpty(t);
  }

  // ---------- decomposition by colour ----------

  ghost predicate Distinct<T>(s: seq<T>) {
    forall i, j :: 0 <= i < j < |s| ==> s[i] != s[j]
  }

  // The sum over several colours of what one colour holds.
  function SumEach(t: Holding, cs: seq<Color>): int {
    if cs == [] then 0 else SumEach(t, cs[..|cs| - 1]) + Sum(t, Only(cs[|cs| - 1]))
  }

  lemma {:induction false} SumEachEntry(t: Holding, cs: seq<Color>)
    requires t != [] && Distinct(cs)
    ensures SumEach(t, cs) == SumEach(t[..|t| - 1], cs) + (if t[|t| - 1].key in cs then t[|t| - 1].val else 0)
  {
    if cs != [] {
      var ds, c := cs[..|cs| - 1], cs[|cs| - 1];
      assert cs == ds + [c];
      SumEachEntry(t, ds);
    }
  }

  lemma {:induction false} SumEachOfNothing(cs: seq<Color>)
    ensures SumEach([], cs) == 0
  {
    if cs != [] {
      SumEachOfNothing(cs[..|cs| - 1]);
    }
  }

  // The plain sum is the sum of the coloured sums over any list of distinct
  // colours that misses none of the table.
  lemma {:induction false} SumByColor(t: Holding, cs: seq<Color>)
    requires Distinct(cs) && forall e :: e in t ==> e.key in cs
    ensures Sum(t, All) == SumEach(t, cs)
  {
    if t == [] {
      SumEachOfNothing(cs);
    } else {
      assert t == t[..|t| - 1] + [t[|t| - 1]];
      SumByColor(t[..|t| - 1], cs);
      SumEachEntry(t, cs);
      assert t[|t| - 1] in t;
    }
  }

  // ---------- wire form ----------

  function CoinBytes(c: Coin): (s: seq<byte>)
    ensures |s| == COIN_BYTES
  {
    LittleEndian(Wrap(c.value), 8) + c.color
  }

  function CoinFromBytes(s: seq<byte>): Coin
    requires |s| == COIN_BYTES
  {
    var n := FromLittleEndian(s[..8]);
    Coin(s[8..], Signed(n % TWO64))
  }

  lemma {:induction false} CoinRoundTrip(c: Coin)
    ensures CoinFromBytes(CoinBytes(c)) == c
  {
    assert CoinBytes(c)[..8] == LittleEndian(Wrap(c.value), 8);
    assert CoinBytes(c)[8..] == c.color;
    LittleEndian64RoundTrip(Wrap(c.value));
    SignedWrap(c.value);
  }
}
