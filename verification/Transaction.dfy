/** Transactions: their essence, their text form and the check of their signatures. */
module Transaction {
  import opened Bytes
  import opened UtHash
  import opened Address
  import opened Balances
  import opened Base64
  import opened Base64Codec
  import opened Base64Laws
  import opened ByteBuffer
  import opened WireFormat

  // ---------- signatures ----------

  // ed_signature_t table
  class SignatureTable {
    var entries: Signatures

    constructor ()
      ensures entries == []
    {
      entries := [];
    }

    method Add(addr: Addr, publicKey: PublicKey, signature: Signature) returns (ret: int)
      modifies this
      ensures entries == Insert(old(entries), addr, EdSignature(publicKey, signature))
      ensures ret == if Has(old(entries), addr) then -1 else 0
    {
      if Has(entries, addr) {
        return -1;
      }
      entries := entries + [Entry(addr, EdSignature(publicKey, signature))];
      ret := 0;
    }
  }

  // transaction_t; an empty signature table is a NULL pointer.
  class Tx {
    var inputs: seq<OutputId>
    var outputs: seq<TxOutput>
    var signatures: Signatures

    constructor (inputs: seq<OutputId>, outputs: seq<TxOutput>)
      ensures this.inputs == inputs && this.outputs == outputs && signatures == []
    {
      this.inputs := inputs;
      this.outputs := outputs;
      signatures := [];
    }

    // The first pass: how many bytes the essence takes.
    method EssenceSize() returns (len: nat)
      ensures len == |Essence(inputs, outputs)|
    {
      len := 4;
      len := len + |inputs| * OUTPUT_ID_BYTES;
      len := len + 4;
      ghost var done := len;
      for i := 0 to |outputs|
        invariant len + |OutputBytes(outputs[i..])| == done + |OutputBytes(outputs)|
      {
        assert outputs[i..][1..] == outputs[i + 1..];
        len := len + ADDRESS_BYTES;
        len := len + 4;
        len := len + |outputs[i].balances| * (8 + COLOR_BYTES);
      }
      len := len + 4;
    }

    // The second pass fills a buffer of that size at a moving offset. The
    // offset ends at the size, so the test for a mismatch never fires.
    method WriteEssence() returns (essence: ByteBuf)
      ensures fresh(essence) && fresh(essence.data) && essence.Valid()
      ensures essence.Contents() == Essence(inputs, outputs)
      ensures essence.data.Length == essence.len
    {
      EssenceParts(inputs, outputs);
      hide Essence, InputBytes, OutputBytes, Count;
      essence := new ByteBuf();
      essence.len := EssenceSize();
      essence.data := new byte[essence.len](_ => 0);
      ghost var all := Essence(inputs, outputs);
      ghost var afterInputs := Count(|outputs|) + (OutputBytes(outputs) + Zeros(4));
      var dst := essence.data;
      ghost var afterCount := InputBytes(inputs) + afterInputs;
      assert dst[..0] + (Count(|inputs|) + afterCount) == all;
      var offset := CopyTo(dst, 0, Count(|inputs|), all, afterCount);
      offset := WriteInputs(dst, offset, all, afterInputs);
      offset := CopyTo(dst, offset, Count(|outputs|), all, OutputBytes(outputs) + Zeros(4));
      offset := WriteOutputs(dst, offset, all);
      assert Zeros(4) == Zeros(4) + [];
      offset := CopyTo(dst, offset, Zeros(4), all, []);
      assert dst[..offset] + [] == dst[..offset];
      assert offset == essence.len;
    }

    method WriteInputs(dst: array<byte>, from: nat, ghost all: seq<byte>, ghost rest: seq<byte>) returns (offset: nat)
      requires |all| == dst.Length && from <= dst.Length
      requires dst[..from] + (InputBytes(inputs) + rest) == all
      modifies dst
      ensures offset <= dst.Length && dst[..offset] + rest == all
    {
      offset := from;
      assert inputs[0..] == inputs;
      for i := 0 to |inputs|
        invariant offset <= dst.Length && dst[..offset] + (InputBytes(inputs[i..]) + rest) == all
      {
        ghost var tail := InputBytes(inputs[i + 1..]) + rest;
        assert inputs[i..][1..] == inputs[i + 1..];
        assert InputBytes(inputs[i..]) + rest == inputs[i] + tail;
        offset := CopyTo(dst, offset, inputs[i], all, tail);
      }
      assert inputs[|inputs|..] == [] && [] + rest == rest;
    }

    method WriteOutputs(dst: array<byte>, from: nat, ghost all: seq<byte>) returns (offset: nat)
      requires |all| == dst.Length && from <= dst.Length
      requires dst[..from] + (OutputBytes(outputs) + Zeros(4)) == all
      modifies dst
      ensures offset <= dst.Length && dst[..offset] + Zeros(4) == all
    {
      hide OutputBytes, CoinListBytes, Count;
      offset := from;
      assert outputs[0..] == outputs;
      for i := 0 to |outputs|
        invariant offset <= dst.Length && dst[..offset] + (OutputBytes(outputs[i..]) + Zeros(4)) == all
      {
        var o := outputs[i];
        ghost var rest := OutputBytes(outputs[i + 1..]) + Zeros(4);
        ghost var coins := CoinListBytes(o.balances) + rest;
        OutputBytesFrom(outputs, i, Zeros(4));
        offset := CopyTo(dst, offset, o.address, all, Count(|o.balances|) + coins);
        offset := CopyTo(dst, offset, Count(|o.balances|), all, coins);
        offset := WriteCoins(dst, offset, o.balances, all, rest);
      }
      NoOutputBytes(outputs[|outputs|..], Zeros(4));
    }

    // Essence, then a tagged record per signature, then a zero byte: the buffer
    // is enlarged once and is full at the end.
    method Serialize() returns (bytes: ByteBuf)
      ensures fresh(bytes) && fresh(bytes.data) && bytes.Valid()
      ensures bytes.Contents() == Wire(inputs, outputs, signatures)
      ensures bytes.data.Length == bytes.len
    {
      bytes := WriteEssence();
      ghost var essence := bytes.Contents();
      var signatureBytes := |signatures| * (1 + PUBLIC_KEY_BYTES + SIGNATURE_BYTES);
      var txBytesLen := bytes.len + signatureBytes + 1;
      bytes.Reserve(txBytesLen);
      AppendRecords(bytes, signatures);
      assert essence + SignatureBytes(signatures) + [0] == Wire(inputs, outputs, signatures);
    }

    method ToBase64() returns (str: ByteBuf?)
      ensures str == null <==> EncodeRoom(|Wire(inputs, outputs, signatures)|) > SIZE_MAX
      ensures str != null ==> fresh(str) && fresh(str.data) && str.Valid()
                              && str.Contents() == Text(inputs, outputs, signatures)
                              && str.data.Length == str.len + 1 && str.data[str.len] == 0
    {
      var bytes := Serialize();
      assert bytes.len == |Wire(inputs, outputs, signatures)|;
      str := bytes.ToBase64();
    }

    // Is every input covered by a valid signature?
    method SignaturesValid(keys: KeyScheme) returns (valid: bool)
      ensures valid <==> AllSigned(keys, inputs, outputs, signatures)
      ensures Unique(signatures) ==>
                (valid <==> signatures != [] && forall k :: 0 <= k < |inputs| ==>
                              exists e :: e in signatures && e.key == inputs[k][..33]
                                          && keys.verify(e.val.signature, Essence(inputs, outputs), e.val.publicKey))
      ensures Unique(signatures) ==>
                forall k, e :: 0 <= k < |inputs| && e in signatures && e.key == inputs[k][..33]
                               && !keys.verify(e.val.signature, Essence(inputs, outputs), e.val.publicKey)
                               ==> !valid
    {
      if Unique(signatures) {
        ValidIff(keys, inputs, outputs, signatures);
      }
      if signatures == [] {
        return false;
      }
      for i := 0 to |inputs|
        invariant forall k :: 0 <= k < i ==> InputSigned(keys, inputs[k], Essence(inputs, outputs), signatures)
      {
        var at := Find(signatures, inputs[i][..ADDRESS_BYTES]);
        if at == |signatures| {
          return false;
        }
        var sig := signatures[at].val;
        var essence := WriteEssence();
        if !keys.verify(sig.signature, essence.data[..essence.len], sig.publicKey) {
          return false;
        }
      }
      valid := true;
    }
  }

  // One tagged record per signature and a zero byte, into room that was reserved
  // before.
  method AppendRecords(bytes: ByteBuf, sigs: Signatures)
    requires bytes.Valid() && bytes.len + |SignatureBytes(sigs)| + 1 <= bytes.data.Length
    modifies bytes, bytes.data
    ensures bytes.Valid() && bytes.data == old(bytes.data)
    ensures bytes.Contents() == old(bytes.Contents()) + SignatureBytes(sigs) + [0]
  {
    ghost var before := bytes.Contents();
    assert sigs[0..] == sigs;
    for i := 0 to |sigs|
      invariant bytes.Valid() && bytes.data == old(bytes.data)
      invariant bytes.len + |SignatureBytes(sigs[i..])| + 1 <= bytes.data.Length
      invariant bytes.Contents() + SignatureBytes(sigs[i..]) == before + SignatureBytes(sigs)
    {
      assert sigs[i..][1..] == sigs[i + 1..];
      AppendRecord(bytes, sigs[i].val);
    }
    assert sigs[|sigs|..] == [] && bytes.Contents() + [] == bytes.Contents();
    bytes.Append([0]);
  }

  method AppendRecord(bytes: ByteBuf, s: EdSignature)
    requires bytes.Valid() && bytes.len + SIGNATURE_RECORD_BYTES <= bytes.data.Length
    modifies bytes, bytes.data
    ensures bytes.Valid() && bytes.data == old(bytes.data)
    ensures bytes.Contents() == old(bytes.Contents()) + SignatureRecord(s)
  {
    bytes.Append([VERSION_ED25519]);
    bytes.Append(s.publicKey);
    bytes.Append(s.signature);
  }

  lemma {:induction false} OutputBytesFrom(outputs: seq<TxOutput>, i: nat, rest: seq<byte>)
    requires i < |outputs|
    ensures OutputBytes(outputs[i..]) + rest
         == outputs[i].address + (Count(|outputs[i].balances|)
            + (CoinListBytes(outputs[i].balances) + (OutputBytes(outputs[i + 1..]) + rest)))
  {
    assert outputs[i..][1..] == outputs[i + 1..];
  }

  lemma {:induction false} NoOutputBytes(outputs: seq<TxOutput>, rest: seq<byte>)
    requires outputs == []
    ensures OutputBytes(outputs) + rest == rest
  {
    assert [] + rest == rest;
  }

  lemma {:induction false} EssenceParts(inputs: seq<OutputId>, outputs: seq<TxOutput>)
    ensures Essence(inputs, outputs)
         == Count(|inputs|) + (InputBytes(inputs) + (Count(|outputs|) + (OutputBytes(outputs) + Zeros(4))))
  {
  }

  // memcpy to the offset; `all` is what the buffer will hold in the end.
  method CopyTo(dst: array<byte>, offset: nat, src: seq<byte>, ghost all: seq<byte>, ghost rest: seq<byte>)
    returns (next: nat)
    requires |all| == dst.Length && offset <= dst.Length
    requires dst[..offset] + (src + rest) == all
    modifies dst
    ensures next == offset + |src| <= dst.Length
    ensures dst[..next] + rest == all
  {
    for k := 0 to |src|
      invariant dst[..offset + k] == old(dst[..offset]) + src[..k]
    {
      dst[offset + k] := src[k];
    }
    next := offset + |src|;
    assert src[..|src|] == src;
    assert old(dst[..offset]) + src + rest == old(dst[..offset]) + (src + rest);
  }

  method WriteCoins(dst: array<byte>, from: nat, coins: seq<Coin>, ghost all: seq<byte>, ghost rest: seq<byte>)
    returns (offset: nat)
    requires |all| == dst.Length && from <= dst.Length
    requires dst[..from] + (CoinListBytes(coins) + rest) == all
    modifies dst
    ensures offset <= dst.Length && dst[..offset] + rest == all
  {
    offset := from;
    assert coins[0..] == coins;
    for i := 0 to |coins|
      invariant offset <= dst.Length && dst[..offset] + (CoinListBytes(coins[i..]) + rest) == all
    {
      ghost var tail := CoinListBytes(coins[i + 1..]) + rest;
      assert coins[i..][1..] == coins[i + 1..];
      var value := LittleEndian(Wrap(coins[i].value), 8);
      assert CoinListBytes(coins[i..]) + rest == value + (coins[i].color + tail);
      offset := CopyTo(dst, offset, value, all, coins[i].color + tail);
      offset := CopyTo(dst, offset, coins[i].color, all, tail);
    }
    assert coins[|coins|..] == [] && [] + rest == rest;
  }

  // ---------- specification of the check ----------

  ghost predicate InputSigned(keys: KeyScheme, input: OutputId, essence: seq<byte>, sigs: Signatures) {
    var at := Find(sigs, input[..ADDRESS_BYTES]);
    at < |sigs| && keys.verify(sigs[at].val.signature, essence, sigs[at].val.publicKey)
  }

  ghost predicate AllSigned(keys: KeyScheme, inputs: seq<OutputId>, outputs: seq<TxOutput>, sigs: Signatures) {
    && sigs != []
    && forall k :: 0 <= k < |inputs| ==> InputSigned(keys, inputs[k], Essence(inputs, outputs), sigs)
  }

  // With unique addresses in the table, a transaction is valid exactly when there
  // is a signature and every input has an entry under its address that verifies.
  lemma {:induction false} ValidIff(keys: KeyScheme, inputs: seq<OutputId>, outputs: seq<TxOutput>, sigs: Signatures)
    requires Unique(sigs)
    ensures AllSigned(keys, inputs, outputs, sigs)
            <==> sigs != [] && forall k :: 0 <= k < |inputs| ==>
                   exists e :: e in sigs && e.key == inputs[k][..33]
                               && keys.verify(e.val.signature, Essence(inputs, outputs), e.val.publicKey)
    ensures forall k, e :: 0 <= k < |inputs| && e in sigs && e.key == inputs[k][..33]
                           && !keys.verify(e.val.signature, Essence(inputs, outputs), e.val.publicKey)
                           ==> !AllSigned(keys, inputs, outputs, sigs)
  {
    var m := Essence(inputs, outputs);
    forall k, e | 0 <= k < |inputs| && e in sigs && e.key == inputs[k][..33]
      ensures InputSigned(keys, inputs[k], m, sigs) <==> keys.verify(e.val.signature, m, e.val.publicKey)
    {
      var i :| 0 <= i < |sigs| && sigs[i] == e;
      FindUnique(sigs, i);
    }
    forall k | 0 <= k < |inputs| && InputSigned(keys, inputs[k], m, sigs)
      ensures exists e :: e in sigs && e.key == inputs[k][..33] && keys.verify(e.val.signature, m, e.val.publicKey)
    {
      assert sigs[Find(sigs, inputs[k][..33])] in sigs;
    }
    hide Essence;
  }

  // ---------- the text form ----------

  function Text(inputs: seq<OutputId>, outputs: seq<TxOutput>, sigs: Signatures): seq<byte> {
    Encoding(Wire(inputs, outputs, sigs))
  }

  // The text is accepted by the decoder and stands for the serialized bytes,
  // from which a parser recovers all that was put in.
  lemma {:induction false} TextDecodes(inputs: seq<OutputId>, outputs: seq<TxOutput>, sigs: Signatures)
    requires Countable(inputs, outputs)
    ensures
      var text := Text(inputs, outputs, sigs);
      && WellFormed(text)
      && Decoding(Significant(text)) == Wire(inputs, outputs, sigs)
      && Parse(Decoding(Significant(text))) == Read(ViewOf(inputs, outputs, sigs), [])
  {
    EncodingDecodes(Wire(inputs, outputs, sigs));
    WireParses(inputs, outputs, sigs);
  }

  // Two texts are equal exactly when their inputs, outputs and signatures are.
  lemma {:induction false} TextDetermines(
    inputs: seq<OutputId>, outputs: seq<TxOutput>, sigs: Signatures,
    inputs': seq<OutputId>, outputs': seq<TxOutput>, sigs': Signatures)
    requires Countable(inputs, outputs) && Countable(inputs', outputs')
    ensures Text(inputs, outputs, sigs) == Text(inputs', outputs', sigs')
            <==> ViewOf(inputs, outputs, sigs) == ViewOf(inputs', outputs', sigs')
  {
    TextDecodes(inputs, outputs, sigs);
    TextDecodes(inputs', outputs', sigs');
    WireOfView(inputs, outputs, sigs);
    WireOfView(inputs', outputs', sigs');
    hide Parse, Wire, ViewOf, Decoding, Significant, WellFormed;
  }
}
