/** The bytes of a transaction and a parser that reads them back. */
module WireFormat {
  import opened Bytes
  import opened UtHash
  import opened Address
  import opened Balances
  import opened OutputIds

  const OUTPUT_ID_BYTES: nat := ADDRESS_BYTES + TX_ID_BYTES
  const SIGNATURE_RECORD_BYTES: nat := 1 + PUBLIC_KEY_BYTES + SIGNATURE_BYTES

  type OutputId = i: seq<byte> | |i| == OUTPUT_ID_BYTES witness Zeros(OUTPUT_ID_BYTES)

  // tx_output_t
  datatype TxOutput = TxOutput(addrIndex: uint64, address: Addr, balances: seq<Coin>)

  // ed_signature_t without its key, the address
  datatype EdSignature = EdSignature(publicKey: PublicKey, signature: Signature)

  type Signatures = Table<Addr, EdSignature>

  // tx_output_id
  function OutputIdOf(addr: Addr, id: TxId): OutputId {
    addr + id
  }

  // ---------- serialized form ----------

  // A list length is stored in a uint32_t.
  function Count(n: nat): (s: seq<byte>)
    ensures |s| == 4
  {
    LittleEndian(n % TWO32, 4)
  }

  function InputBytes(inputs: seq<OutputId>): (s: seq<byte>)
    ensures |s| == |inputs| * OUTPUT_ID_BYTES
  {
    if inputs == [] then [] else inputs[0] + InputBytes(inputs[1..])
  }

  function CoinListBytes(coins: seq<Coin>): (s: seq<byte>)
    ensures |s| == |coins| * COIN_BYTES
  {
    if coins == [] then [] else CoinBytes(coins[0]) + CoinListBytes(coins[1..])
  }

  function OutputBytes(outputs: seq<TxOutput>): seq<byte> {
    if outputs == [] then []
    else
      outputs[0].address + Count(|outputs[0].balances|) + CoinListBytes(outputs[0].balances) + OutputBytes(outputs[1..])
  }

  // The signed part: inputs, outputs and an empty payload.
  function Essence(inputs: seq<OutputId>, outputs: seq<TxOutput>): seq<byte> {
    Count(|inputs|) + InputBytes(inputs) + Count(|outputs|) + OutputBytes(outputs) + Zeros(4)
  }

  function SignatureRecord(s: EdSignature): (r: seq<byte>)
    ensures |r| == SIGNATURE_RECORD_BYTES
  {
    [VERSION_ED25519] + s.publicKey + s.signature
  }

  function SignatureBytes(sigs: Signatures): (s: seq<byte>)
    ensures |s| == |sigs| * SIGNATURE_RECORD_BYTES
  {
    if sigs == [] then [] else SignatureRecord(sigs[0].val) + SignatureBytes(sigs[1..])
  }

  function Wire(inputs: seq<OutputId>, outputs: seq<TxOutput>, sigs: Signatures): seq<byte> {
    Essence(inputs, outputs) + SignatureBytes(sigs) + [0]
  }

  // ---------- parser ----------

  datatype Parsed<+T> = Malformed | Read(value: T, rest: seq<byte>)

  function ParseCount(s: seq<byte>): Parsed<nat> {
    if |s| < 4 then Malformed else Read(FromLittleEndian(s[..4]), s[4..])
  }

  function ParseInputs(s: seq<byte>, n: nat): Parsed<seq<OutputId>> {
    if n == 0 then Read([], s)
    else if |s| < OUTPUT_ID_BYTES then Malformed
    else
      match ParseInputs(s[OUTPUT_ID_BYTES..], n - 1)
      case Malformed => Malformed
      case Read(ids, rest) => Read([s[..OUTPUT_ID_BYTES]] + ids, rest)
  }

  function ParseCoins(s: seq<byte>, n: nat): Parsed<seq<Coin>> {
    if n == 0 then Read([], s)
    else if |s| < COIN_BYTES then Malformed
    else
      match ParseCoins(s[COIN_BYTES..], n - 1)
      case Malformed => Malformed
      case Read(coins, rest) => Read([CoinFromBytes(s[..COIN_BYTES])] + coins, rest)
  }

  function ParseOutputs(s: seq<byte>, n: nat): Parsed<seq<(Addr, seq<Coin>)>>
    decreases n
  {
    if n == 0 then Read([], s)
    else if |s| < ADDRESS_BYTES then Malformed
    else
      match ParseCount(s[ADDRESS_BYTES..])
      case Malformed => Malformed
      case Read(count, afterCount) =>
        match ParseCoins(afterCount, count)
        case Malformed => Malformed
        case Read(coins, afterCoins) =>
          match ParseOutputs(afterCoins, n - 1)
          case Malformed => Malformed
          case Read(outs, rest) => Read([(s[..ADDRESS_BYTES], coins)] + outs, rest)
  }

  // Records tagged 1 until a 0, which must be the last byte.
  function ParseSignatures(s: seq<byte>): Parsed<seq<EdSignature>> {
    if s == [0] then Read([], [])
    else if |s| < SIGNATURE_RECORD_BYTES || s[0] != VERSION_ED25519 then Malformed
    else
      match ParseSignatures(s[SIGNATURE_RECORD_BYTES..])
      case Malformed => Malformed
      case Read(sigs, rest) =>
        Read([EdSignature(s[1..1 + PUBLIC_KEY_BYTES], s[1 + PUBLIC_KEY_BYTES..SIGNATURE_RECORD_BYTES])] + sigs, rest)
  }

  // What a reader learns from a transaction.
  datatype View = View(inputs: seq<OutputId>, outputs: seq<(Addr, seq<Coin>)>, sigs: seq<EdSignature>)

  function Parse(s: seq<byte>): Parsed<View> {
    match ParseCount(s)
    case Malformed => Malformed
    case Read(n, s1) =>
      match ParseInputs(s1, n)
      case Malformed => Malformed
      case Read(inputs, s2) =>
        match ParseCount(s2)
        case Malformed => Malformed
        case Read(m, s3) =>
          match ParseOutputs(s3, m)
          case Malformed => Malformed
          case Read(outputs, s4) =>
            if |s4| < 4 || s4[..4] != Zeros(4) then Malformed
            else
              match ParseSignatures(s4[4..])
              case Malformed => Malformed
              case Read(sigs, rest) => Read(View(inputs, outputs, sigs), rest)
  }

  function OutputViews(outputs: seq<TxOutput>): seq<(Addr, seq<Coin>)> {
    if outputs == [] then [] else [(outputs[0].address, outputs[0].balances)] + OutputViews(outputs[1..])
  }

  function SignatureViews(sigs: Signatures): seq<EdSignature> {
    if sigs == [] then [] else [sigs[0].val] + SignatureViews(sigs[1..])
  }

  function ViewOf(inputs: seq<OutputId>, outputs: seq<TxOutput>, sigs: Signatures): View {
    View(inputs, OutputViews(outputs), SignatureViews(sigs))
  }

  // Every list is short enough for its length field.
  predicate Countable(inputs: seq<OutputId>, outputs: seq<TxOutput>) {
    && |inputs| < TWO32 && |outputs| < TWO32
    && forall i :: 0 <= i < |outputs| ==> |outputs[i].balances| < TWO32
  }

  // ---------- the parser inverts the serializer ----------

  lemma {:induction false} Split(a: seq<byte>, b: seq<byte>)
    ensures (a + b)[..|a|] == a && (a + b)[|a|..] == b
  {
  }

  lemma {:induction false} CountParses(n: nat, rest: seq<byte>)
    requires n < TWO32
    ensures ParseCount(Count(n) + rest) == Read(n, rest)
  {
    Split(Count(n), rest);
    LittleEndian32RoundTrip(n);
  }

  lemma {:induction false} InputsParse(inputs: seq<OutputId>, rest: seq<byte>)
    ensures ParseInputs(InputBytes(inputs) + rest, |inputs|) == Read(inputs, rest)
  {
    if inputs == [] {
      assert [] + rest == rest;
    } else {
      var tail := InputBytes(inputs[1..]) + rest;
      assert InputBytes(inputs) + rest == inputs[0] + tail;
      Split(inputs[0], tail);
      InputsParse(inputs[1..], rest);
      assert [inputs[0]] + inputs[1..] == inputs;
    }
  }

  lemma {:induction false} CoinsParse(coins: seq<Coin>, rest: seq<byte>)
    ensures ParseCoins(CoinListBytes(coins) + rest, |coins|) == Read(coins, rest)
  {
    if coins == [] {
      assert [] + rest == rest;
    } else {
      var tail := CoinListBytes(coins[1..]) + rest;
      assert CoinListBytes(coins) + rest == CoinBytes(coins[0]) + tail;
      Split(CoinBytes(coins[0]), tail);
      CoinRoundTrip(coins[0]);
      CoinsParse(coins[1..], rest);
      assert [coins[0]] + coins[1..] == coins;
    }
  }

  lemma {:induction false} OutputsParse(outputs: seq<TxOutput>, rest: seq<byte>)
    requires forall i :: 0 <= i < |outputs| ==> |outputs[i].balances| < TWO32
    ensures ParseOutputs(OutputBytes(outputs) + rest, |outputs|) == Read(OutputViews(outputs), rest)
  {
    if outputs == [] {
      assert [] + rest == rest;
    } else {
      var o := outputs[0];
      var afterCoins := OutputBytes(outputs[1..]) + rest;
      var afterCount := CoinListBytes(o.balances) + afterCoins;
      var afterAddress := Count(|o.balances|) + afterCount;
      assert OutputBytes(outputs) + rest == o.address + afterAddress;
      Split(o.address, afterAddress);
      CountParses(|o.balances|, afterCount);
      CoinsParse(o.balances, afterCoins);
      OutputsParse(outputs[1..], rest);
    }
  }

  lemma {:induction false} SignaturesParse(sigs: Signatures)
    ensures ParseSignatures(SignatureBytes(sigs) + [0]) == Read(SignatureViews(sigs), [])
  {
    if sigs == [] {
      assert [] + [0] == [0];
    } else {
      var s := sigs[0].val;
      var r, tail := SignatureRecord(s), SignatureBytes(sigs[1..]) + [0];
      assert SignatureBytes(sigs) + [0] == r + tail;
      Split(r, tail);
      assert (r + tail)[1..1 + PUBLIC_KEY_BYTES] == s.publicKey;
      assert (r + tail)[1 + PUBLIC_KEY_BYTES..SIGNATURE_RECORD_BYTES] == s.signature;
      SignaturesParse(sigs[1..]);
    }
  }

  // Parsing the wire form gives exactly the inputs, the outputs with their
  // balances and the signatures with their public keys.
  lemma {:induction false} WireParses(inputs: seq<OutputId>, outputs: seq<TxOutput>, sigs: Signatures)
    requires Countable(inputs, outputs)
    ensures Parse(Wire(inputs, outputs, sigs)) == Read(ViewOf(inputs, outputs, sigs), [])
  {
    var s5 := SignatureBytes(sigs) + [0];
    var s4 := Zeros(4) + s5;
    var s3 := OutputBytes(outputs) + s4;
    var s2 := Count(|outputs|) + s3;
    var s1 := InputBytes(inputs) + s2;
    assert Wire(inputs, outputs, sigs) == Count(|inputs|) + s1;
    CountParses(|inputs|, s1);
    InputsParse(inputs, s2);
    CountParses(|outputs|, s3);
    OutputsParse(outputs, s4);
    Split(Zeros(4), s5);
    SignaturesParse(sigs);
  }

  // ---------- the serializer inverts the parser ----------

  function OutputViewBytes(outputs: seq<(Addr, seq<Coin>)>): seq<byte> {
    if outputs == [] then []
    else outputs[0].0 + Count(|outputs[0].1|) + CoinListBytes(outputs[0].1) + OutputViewBytes(outputs[1..])
  }

  function SignatureViewBytes(sigs: seq<EdSignature>): seq<byte> {
    if sigs == [] then [] else SignatureRecord(sigs[0]) + SignatureViewBytes(sigs[1..])
  }

  function ViewBytes(v: View): seq<byte> {
    Count(|v.inputs|) + InputBytes(v.inputs) + Count(|v.outputs|) + OutputViewBytes(v.outputs) + Zeros(4)
    + SignatureViewBytes(v.sigs) + [0]
  }

  // The wire form depends on nothing but the view.
  lemma {:induction false} WireOfView(inputs: seq<OutputId>, outputs: seq<TxOutput>, sigs: Signatures)
    ensures Wire(inputs, outputs, sigs) == ViewBytes(ViewOf(inputs, outputs, sigs))
  {
    OutputsOfView(outputs);
    SignaturesOfView(sigs);
  }

  lemma {:induction false} OutputsOfView(outputs: seq<TxOutput>)
    ensures OutputViewBytes(OutputViews(outputs)) == OutputBytes(outputs) && |OutputViews(outputs)| == |outputs|
  {
    if outputs != [] {
      OutputsOfView(outputs[1..]);
      assert OutputViews(outputs)[1..] == OutputViews(outputs[1..]);
    }
  }

  lemma {:induction false} SignaturesOfView(sigs: Signatures)
    ensures SignatureViewBytes(SignatureViews(sigs)) == SignatureBytes(sigs)
  {
    if sigs != [] {
      SignaturesOfView(sigs[1..]);
      assert SignatureViews(sigs)[1..] == SignatureViews(sigs[1..]);
    }
  }

  lemma {:induction false} CountFrom(s: seq<byte>)
    requires ParseCount(s).Read?
    ensures s == Count(ParseCount(s).value) + ParseCount(s).rest && ParseCount(s).value < TWO32
  {
    FromLittleEndianBound(s[..4]);
    LittleEndianOf(s[..4]);
    assert Power256(2) == 65536 && Power256(4) == 256 * (256 * Power256(2));
    assert s == s[..4] + s[4..];
  }

  lemma {:induction false} CoinFrom(s: seq<byte>)
    requires |s| == COIN_BYTES
    ensures CoinBytes(CoinFromBytes(s)) == s
  {
    hide LittleEndian, FromLittleEndian, Power256, Signed, Wrap;
    FromLittleEndianBound(s[..8]);
    LittleEndianOf(s[..8]);
    Power256Of8();
    WrapSigned(FromLittleEndian(s[..8]));
    assert s == s[..8] + s[8..];
  }

  lemma {:induction false} InputsFrom(s: seq<byte>, n: nat)
    requires ParseInputs(s, n).Read?
    ensures |ParseInputs(s, n).value| == n
    ensures s == InputBytes(ParseInputs(s, n).value) + ParseInputs(s, n).rest
  {
    if n > 0 {
      var tail := s[OUTPUT_ID_BYTES..];
      InputsFrom(tail, n - 1);
      var ids, rest := ParseInputs(tail, n - 1).value, ParseInputs(tail, n - 1).rest;
      var all := [s[..OUTPUT_ID_BYTES]] + ids;
      assert ParseInputs(s, n) == Read(all, rest);
      hide ParseInputs;
      assert all[1..] == ids;
      assert s == s[..OUTPUT_ID_BYTES] + (InputBytes(ids) + rest);
    }
  }

  lemma {:induction false} CoinsFrom(s: seq<byte>, n: nat)
    requires ParseCoins(s, n).Read?
    ensures |ParseCoins(s, n).value| == n
    ensures s == CoinListBytes(ParseCoins(s, n).value) + ParseCoins(s, n).rest
  {
    if n > 0 {
      var tail := s[COIN_BYTES..];
      CoinsFrom(tail, n - 1);
      CoinFrom(s[..COIN_BYTES]);
      assert ParseCoins(s, n).value[1..] == ParseCoins(tail, n - 1).value;
      assert s == s[..COIN_BYTES] + tail;
    }
  }

  lemma {:induction false} OutputsFrom(s: seq<byte>, n: nat)
    requires ParseOutputs(s, n).Read?
    ensures |ParseOutputs(s, n).value| == n
    ensures s == OutputViewBytes(ParseOutputs(s, n).value) + ParseOutputs(s, n).rest
    decreases n
  {
    if n > 0 {
      var s1 := s[ADDRESS_BYTES..];
      CountFrom(s1);
      var s2 := ParseCount(s1).rest;
      CoinsFrom(s2, ParseCount(s1).value);
      var s3 := ParseCoins(s2, ParseCount(s1).value).rest;
      OutputsFrom(s3, n - 1);
      var outs, rest := ParseOutputs(s, n).value, ParseOutputs(s, n).rest;
      assert outs[1..] == ParseOutputs(s3, n - 1).value;
      FirstOutputBytes(outs);
      assert s == s[..ADDRESS_BYTES] + s1;
      assert outs[0].0 == s[..ADDRESS_BYTES] && |outs[0].1| == ParseCount(s1).value;
      hide ParseCount, ParseCoins, ParseOutputs, Count, CoinListBytes, OutputViewBytes;
      Reassociate(outs[0].0, Count(|outs[0].1|), CoinListBytes(outs[0].1), OutputViewBytes(outs[1..]), rest);
    }
  }

  lemma {:induction false} FirstOutputBytes(outputs: seq<(Addr, seq<Coin>)>)
    requires outputs != []
    ensures OutputViewBytes(outputs)
         == outputs[0].0 + Count(|outputs[0].1|) + CoinListBytes(outputs[0].1) + OutputViewBytes(outputs[1..])
  {
  }

  lemma {:induction false} Reassociate(a: seq<byte>, b: seq<byte>, c: seq<byte>, d: seq<byte>, e: seq<byte>)
    ensures a + (b + (c + (d + e))) == a + b + c + d + e
  {
  }

  lemma {:induction false} SignaturesFrom(s: seq<byte>)
    requires ParseSignatures(s).Read?
    ensures s == SignatureViewBytes(ParseSignatures(s).value) + [0] && ParseSignatures(s).rest == []
  {
    if s == [0] {
      assert [] + [0] == [0];
    } else {
      var tail := s[SIGNATURE_RECORD_BYTES..];
      SignaturesFrom(tail);
      var sigs := ParseSignatures(s).value;
      assert sigs[1..] == ParseSignatures(tail).value;
      assert SignatureRecord(sigs[0]) == s[..SIGNATURE_RECORD_BYTES];
      assert s == s[..SIGNATURE_RECORD_BYTES] + tail;
    }
  }

  // The parser reads nothing but wire forms, so no two byte strings mean the
  // same transaction.
  lemma {:induction false} ParsedIsWire(s: seq<byte>)
    requires Parse(s).Read?
    ensures s == ViewBytes(Parse(s).value) && Parse(s).rest == []
  {
    hide InputBytes, OutputViewBytes, SignatureViewBytes, Count, ParseCount, ParseInputs, ParseOutputs, ParseSignatures;
    CountFrom(s);
    var s1 := ParseCount(s).rest;
    InputsFrom(s1, ParseCount(s).value);
    var s2 := ParseInputs(s1, ParseCount(s).value).rest;
    CountFrom(s2);
    var s3 := ParseCount(s2).rest;
    OutputsFrom(s3, ParseCount(s2).value);
    var s4 := ParseOutputs(s3, ParseCount(s2).value).rest;
    assert s4 == s4[..4] + s4[4..];
    SignaturesFrom(s4[4..]);
    var v := Parse(s).value;
    assert v == View(ParseInputs(s1, ParseCount(s).value).value, ParseOutputs(s3, ParseCount(s2).value).value,
                     ParseSignatures(s4[4..]).value) && s4[..4] == Zeros(4);
    hide Parse;
    Reassociate(Count(|v.inputs|), InputBytes(v.inputs), Count(|v.outputs|), OutputViewBytes(v.outputs), s4);
  }
}
