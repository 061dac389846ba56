/** Addresses and the keys a wallet seed gives rise to. */
module Address {
  import opened Bytes

  const ADDRESS_BYTES: nat := 33
  const PUBLIC_KEY_BYTES: nat := 32
  const SIGNATURE_BYTES: nat := 64
  const VERSION_ED25519: byte := 1

  type Addr = a: seq<byte> | |a| == ADDRESS_BYTES witness Zeros(ADDRESS_BYTES)
  type PublicKey = k: seq<byte> | |k| == PUBLIC_KEY_BYTES witness Zeros(PUBLIC_KEY_BYTES)
  type Signature = s: seq<byte> | |s| == SIGNATURE_BYTES witness Zeros(SIGNATURE_BYTES)

  const EMPTY: Addr := Zeros(ADDRESS_BYTES)

  // address_t
  datatype IndexedAddress = IndexedAddress(index: uint64, addr: Addr)

  // What a seed determines through libsodium: an address and a public key per
  // index, signatures made with the private key of an index, and their check.
  datatype KeyScheme = KeyScheme(
    derive: uint64 -> Addr,
    publicKey: uint64 -> PublicKey,
    sign: (uint64, seq<byte>) -> Signature,
    verify: (seq<byte>, seq<byte>, seq<byte>) -> bool)
  {
    // Addresses carry the version byte and do not collide; a signature
    // verifies under the public key of the index that made it.
    ghost predicate Sound() {
      && (forall i: uint64 :: derive(i)[0] == VERSION_ED25519)
      && (forall i: uint64, j: uint64 :: derive(i) == derive(j) ==> i == j)
      && (forall i: uint64, m :: verify(sign(i, m), m, publicKey(i)))
    }
  }

  // No address: 33 zero bytes.
  lemma {:induction false} EmptyIs(a: Addr)
    ensures a == EMPTY <==> forall i :: 0 <= i < 33 ==> a[i] == 0
  {
    assert |a| == 33 == |EMPTY|;
  }

  // The assumptions on the foreign code do not contradict each other, and they
  // put the tag 1 of Ed25519 in front of every address.
  lemma {:induction false} SoundSchemeExists()
    ensures exists k: KeyScheme :: k.Sound()
    ensures forall k: KeyScheme, i: uint64 :: k.Sound() ==> k.derive(i)[0] == 1
  {
    var k := KeyScheme(
      (i: uint64) => [VERSION_ED25519] + LittleEndian(i, 8) + Zeros(24),
      (i: uint64) => LittleEndian(i, 8) + Zeros(24),
      (i: uint64, m: seq<byte>) => Zeros(SIGNATURE_BYTES),
      (s: seq<byte>, m: seq<byte>, p: seq<byte>) => true);
    forall i: uint64, j: uint64 | k.derive(i) == k.derive(j)
      ensures i == j
    {
      assert k.derive(i)[1..9] == LittleEndian(i, 8);
      assert k.derive(j)[1..9] == LittleEndian(j, 8);
      LittleEndian64RoundTrip(i);
      LittleEndian64RoundTrip(j);
    }
    assert k.Sound();
  }
}
