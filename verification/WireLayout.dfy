/** Where the parts of a transaction stand in its bytes. */
module WireLayout {
  import opened Bytes
  import opened UtHash
  import opened Address
  import opened Balances
  import opened OutputIds
  import opened WireFormat

  // The four bytes of a list length, least significant first.
  lemma {:induction false} CountLayout(n: nat)
    ensures
      var s := Count(n);
      (s[0] as int) + 0x100 * (s[1] as int) + 0x1_0000 * (s[2] as int) + 0x100_0000 * (s[3] as int)
      == n % 0x1_0000_0000
  {
    var m := n % TWO32;
    assert LittleEndian(m / 0x100 / 0x100 / 0x100, 1) == [m / 0x100 / 0x100 / 0x100 % 0x100] + [];
    assert LittleEndian(m / 0x100 / 0x100, 2)
        == [m / 0x100 / 0x100 % 0x100] + LittleEndian(m / 0x100 / 0x100 / 0x100, 1);
    assert LittleEndian(m / 0x100, 3) == [m / 0x100 % 0x100] + LittleEndian(m / 0x100 / 0x100, 2);
    assert Count(n) == [m % 0x100] + LittleEndian(m / 0x100, 3);
    assert m / 0x100 / 0x100 / 0x100 < 0x100;
  }

  // The eight bytes of a coin value: its low half, then its high half, each
  // least significant first, and the colour behind it.
  lemma {:induction false} CoinLayout(c: Coin)
    ensures
      var s, v := CoinBytes(c), if c.value < 0 then c.value + 0x1_0000_0000_0000_0000 else c.value;
      && s[..8] == Count(v % 0x1_0000_0000) + Count(v / 0x1_0000_0000)
      && s[8..] == c.color && |s| == 40
  {
    var v := Wrap(c.value);
    assert v == if c.value < 0 then c.value + TWO64 else c.value;
    assert CoinBytes(c)[..8] == LittleEndian(v, 8) && CoinBytes(c)[8..] == c.color;
    LittleEndianHalves(v);
  }

  lemma {:induction false} LittleEndianHalves(v: uint64)
    ensures LittleEndian(v, 8) == Count(v % TWO32) + Count(v / TWO32)
  {
    assert Power256(2) == 0x1_0000 && Power256(4) == 0x100 * (0x100 * Power256(2));
    var q, r := v / TWO32, v % TWO32;
    LittleEndianSplit(v, q, r, 4, 4);
    assert r % TWO32 == r && q % TWO32 == q;
  }

  lemma {:induction false} LittleEndianSplit(n: nat, q: nat, r: nat, k: nat, width: nat)
    requires n == Power256(k) * q + r && r < Power256(k)
    ensures LittleEndian(n, k + width) == LittleEndian(r, k) + LittleEndian(q, width)
  {
    if k > 0 {
      NextPower(Power256(k - 1), q, n, r);
      hide Power256;
      LittleEndianSplit(n / 0x100, q, r / 0x100, k - 1, width);
    }
  }

  lemma {:induction false} NextPower(p: nat, q: nat, n: nat, r: nat)
    requires n == 0x100 * p * q + r && r < 0x100 * p
    ensures n / 0x100 == p * q + r / 0x100 && n % 0x100 == r % 0x100 && r / 0x100 < p
  {
    var t := p * q;
    assert 0x100 * p * q == 0x100 * t;
    Carry(n, t, r);
  }

  lemma {:induction false} Carry(n: nat, t: nat, r: nat)
    requires n == 0x100 * t + r
    ensures n / 0x100 == t + r / 0x100 && n % 0x100 == r % 0x100
  {
  }

  // The essence: the number of inputs, the inputs of 65 bytes each, the number of
  // outputs, the outputs, and a payload length of zero.
  lemma {:induction false} EssenceLayout(inputs: seq<OutputId>, outputs: seq<TxOutput>)
    ensures
      var e, n := Essence(inputs, outputs), 4 + 65 * |inputs|;
      && |e| == n + 4 + |OutputBytes(outputs)| + 4
      && e[..4] == Count(|inputs|)
      && (forall k :: 0 <= k < |inputs| ==> e[4 + 65 * k..69 + 65 * k] == inputs[k])
      && e[n..n + 4] == Count(|outputs|) && e[n + 4..|e| - 4] == OutputBytes(outputs)
      && e[|e| - 4..] == [0, 0, 0, 0]
  {
    var e, n := Essence(inputs, outputs), 4 + 65 * |inputs|;
    assert e[4..n] == InputBytes(inputs);
    forall k | 0 <= k < |inputs| ensures e[4 + 65 * k..69 + 65 * k] == inputs[k] {
      InputLayout(inputs, k);
      assert e[4 + 65 * k..69 + 65 * k] == e[4..n][65 * k..65 * k + 65];
    }
  }

  lemma {:induction false} InputLayout(inputs: seq<OutputId>, k: nat)
    requires k < |inputs|
    ensures InputBytes(inputs)[65 * k..65 * k + 65] == inputs[k]
  {
    if k > 0 {
      InputLayout(inputs[1..], k - 1);
      assert InputBytes(inputs)[65..] == InputBytes(inputs[1..]);
      assert InputBytes(inputs)[65 * k..65 * k + 65] == InputBytes(inputs[1..])[65 * (k - 1)..65 * (k - 1) + 65];
    }
  }

  // An output stands behind those before it: its address, the number of its
  // coins and its coins of 40 bytes each. The index is not part of it.
  lemma {:induction false} OutputLayout(outputs: seq<TxOutput>, k: nat)
    requires k < |outputs|
    ensures
      var s, from, o := OutputBytes(outputs), |OutputBytes(outputs[..k])|, outputs[k];
      var end := from + 37 + 40 * |o.balances|;
      && |OutputBytes(outputs[..k + 1])| == end <= |s|
      && s[from..from + 33] == o.address && s[from + 33..from + 37] == Count(|o.balances|)
      && forall j :: 0 <= j < |o.balances| ==> s[from + 37 + 40 * j..from + 77 + 40 * j] == CoinBytes(o.balances[j])
  {
    var s, from, o := OutputBytes(outputs), |OutputBytes(outputs[..k])|, outputs[k];
    OutputHead(outputs, k);
    forall j | 0 <= j < |o.balances|
      ensures s[from + 37 + 40 * j..from + 77 + 40 * j] == CoinBytes(o.balances[j])
    {
      CoinInside(s, from + 37, o.balances, j);
    }
    hide OutputBytes, CoinListBytes, Count, CoinBytes;
  }

  lemma {:induction false} OutputHead(outputs: seq<TxOutput>, k: nat)
    requires k < |outputs|
    ensures
      var s, from, o := OutputBytes(outputs), |OutputBytes(outputs[..k])|, outputs[k];
      var end := from + 37 + 40 * |o.balances|;
      && |OutputBytes(outputs[..k + 1])| == end <= |s|
      && s[from..from + 33] == o.address && s[from + 33..from + 37] == Count(|o.balances|)
      && s[from + 37..end] == CoinListBytes(o.balances)
  {
    hide *;
    var o := outputs[k];
    OutputsSplit(outputs, k);
    OutputsSplit(outputs[..k + 1], k);
    NothingBehind(outputs, k);
    Parts(OutputBytes(outputs[..k]), o.address, Count(|o.balances|), CoinListBytes(o.balances),
          OutputBytes(outputs[k + 1..]), OutputBytes(outputs));
  }

  lemma {:induction false} NothingBehind(outputs: seq<TxOutput>, k: nat)
    requires k < |outputs|
    ensures outputs[..k + 1][..k] == outputs[..k] && OutputBytes(outputs[..k + 1][k + 1..]) == []
    ensures ADDRESS_BYTES == 33 && COIN_BYTES == 40
  {
  }

  lemma {:induction false} CoinInside(s: seq<byte>, at: nat, coins: seq<Coin>, j: nat)
    requires j < |coins| && at + |CoinListBytes(coins)| <= |s|
    requires s[at..at + |CoinListBytes(coins)|] == CoinListBytes(coins)
    ensures s[at + 40 * j..at + 40 + 40 * j] == CoinBytes(coins[j])
  {
    CoinListLayout(coins, j);
    Inside(s, at, CoinListBytes(coins), 40 * j, 40 * j + 40);
  }

  lemma {:induction false} Parts(a: seq<byte>, b: seq<byte>, c: seq<byte>, d: seq<byte>, e: seq<byte>, s: seq<byte>)
    requires |b| == 33 && |c| == 4 && s == a + (b + c + (d + e))
    ensures |s| >= |a| + 37 + |d|
    ensures s[|a|..|a| + 33] == b && s[|a| + 33..|a| + 37] == c && s[|a| + 37..|a| + 37 + |d|] == d
  {
  }

  lemma {:induction false} Inside(s: seq<byte>, at: nat, part: seq<byte>, i: nat, j: nat)
    requires at + |part| <= |s| && s[at..at + |part|] == part && i <= j <= |part|
    ensures s[at + i..at + j] == part[i..j]
  {
    var u := s[at..at + |part|];
    forall k | 0 <= k < j - i ensures s[at + i..at + j][k] == part[i..j][k] {
      assert u[i + k] == s[at + i + k];
    }
    assert |s[at + i..at + j]| == |part[i..j]|;
  }

  lemma {:induction false} OutputsSplit(outputs: seq<TxOutput>, k: nat)
    requires k < |outputs|
    ensures OutputBytes(outputs)
         == OutputBytes(outputs[..k])
            + (outputs[k].address + Count(|outputs[k].balances|)
               + (CoinListBytes(outputs[k].balances) + OutputBytes(outputs[k + 1..])))
  {
    if k > 0 {
      OutputsSplit(outputs[1..], k - 1);
      assert outputs[1..][..k - 1] == outputs[..k][1..] && outputs[1..][k..] == outputs[k + 1..];
    }
  }

  lemma {:induction false} CoinListLayout(coins: seq<Coin>, j: nat)
    requires j < |coins|
    ensures CoinListBytes(coins)[40 * j..40 * j + 40] == CoinBytes(coins[j])
  {
    if j > 0 {
      CoinListLayout(coins[1..], j - 1);
      assert CoinListBytes(coins)[40..] == CoinListBytes(coins[1..]);
      assert CoinListBytes(coins)[40 * j..40 * j + 40] == CoinListBytes(coins[1..])[40 * (j - 1)..40 * (j - 1) + 40];
    }
  }

  // Behind the essence: a record of 97 bytes per signature, which is the tag 1,
  // the public key and the signature, and a zero byte at the end.
  lemma {:induction false} SignatureLayout(inputs: seq<OutputId>, outputs: seq<TxOutput>, sigs: Signatures, k: nat)
    requires k < |sigs|
    ensures
      var s, e := Wire(inputs, outputs, sigs), Essence(inputs, outputs);
      var from := |e| + 97 * k;
      && |s| == |e| + 97 * |sigs| + 1 && s[..|e|] == e && s[|s| - 1] == 0
      && s[from] == 1 && s[from + 1..from + 33] == sigs[k].val.publicKey
      && s[from + 33..from + 97] == sigs[k].val.signature
  {
    var s, e, r := Wire(inputs, outputs, sigs), Essence(inputs, outputs), SignatureBytes(sigs);
    hide Essence;
    Between(e, r, s);
    RecordLayout(sigs, k);
    hide Wire, SignatureBytes;
    Inside(s, |e|, r, 97 * k, 97 * k + 97);
    RecordInside(s, |e| + 97 * k, r[97 * k..97 * k + 97]);
  }

  lemma {:induction false} RecordInside(s: seq<byte>, at: nat, d: seq<byte>)
    requires |d| == 97 && at + 97 <= |s| && s[at..at + 97] == d
    ensures s[at] == d[0] && s[at + 1..at + 33] == d[1..33] && s[at + 33..at + 97] == d[33..]
  {
    Inside(s, at, d, 1, 33);
    Inside(s, at, d, 33, 97);
    assert s[at..at + 97][0] == s[at];
  }

  lemma {:induction false} Between(e: seq<byte>, r: seq<byte>, s: seq<byte>)
    requires s == e + r + [0]
    ensures |s| == |e| + |r| + 1 && s[..|e|] == e && s[|e|..|e| + |r|] == r && s[|s| - 1] == 0
  {
  }

  lemma {:induction false} RecordLayout(sigs: Signatures, k: nat)
    requires k < |sigs|
    ensures
      var d := SignatureBytes(sigs)[97 * k..97 * k + 97];
      d[0] == 1 && d[1..33] == sigs[k].val.publicKey && d[33..] == sigs[k].val.signature
  {
    if k > 0 {
      RecordLayout(sigs[1..], k - 1);
      assert SignatureBytes(sigs)[97..] == SignatureBytes(sigs[1..]);
      assert SignatureBytes(sigs)[97 * k..97 * k + 97] == SignatureBytes(sigs[1..])[97 * (k - 1)..97 * (k - 1) + 97];
    } else {
      assert SignatureBytes(sigs)[..97] == SignatureRecord(sigs[0].val);
    }
  }
}
