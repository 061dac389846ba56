/** A set of indices stored as bits of a byte array that grows on demand. */
module Bitmask {
  import opened Bytes

  datatype Operation = Clear | Set | Toggle

  function Bit(b: nat): bv8
    requires b < 8
  {
    1 << b
  }

  predicate IsSet(x: bv8, b: nat)
    requires b < 8
  {
    x & Bit(b) != 0
  }

  function Apply(x: bv8, b: nat, op: Operation): bv8
    requires b < 8
  {
    match op
    case Clear => x & !Bit(b)
    case Set => x | Bit(b)
    case Toggle => x ^ Bit(b)
  }

  // Membership of the index an operation names, before and after.
  predicate After(member: bool, op: Operation) {
    match op
    case Clear => false
    case Set => true
    case Toggle => !member
  }

  lemma {:induction false} ApplyBit(x: bv8, b: nat, op: Operation)
    requires b < 8
    ensures forall c: nat :: c < 8 ==>
              IsSet(Apply(x, b, op), c) == if c == b then After(IsSet(x, b), op) else IsSet(x, c)
  {
    hide *;
    forall c: nat | c < 8
      ensures IsSet(Apply(x, b, op), c) == if c == b then After(IsSet(x, b), op) else IsSet(x, c)
    {
      ApplyOneBit(x, b, c, op);
    }
  }

  lemma {:induction false} ApplyOneBit(x: bv8, b: nat, c: nat, op: Operation)
    requires b < 8 && c < 8
    ensures IsSet(Apply(x, b, op), c) == if c == b then After(IsSet(x, b), op) else IsSet(x, c)
  {
    hide Bit;
    BitsDiffer(x, b, c);
  }

  lemma {:induction false} Powers()
    ensures Bit(0) == 1 && Bit(1) == 2 && Bit(2) == 4 && Bit(3) == 8
    ensures Bit(4) == 16 && Bit(5) == 32 && Bit(6) == 64 && Bit(7) == 128
  {
  }

  lemma {:induction false} BitsDiffer(x: bv8, b: nat, c: nat)
    requires b < 8 && c < 8
    ensures b == c ==> x & !Bit(b) & Bit(c) == 0 && (x | Bit(b)) & Bit(c) != 0
                       && ((x ^ Bit(b)) & Bit(c) != 0 <==> x & Bit(c) == 0)
    ensures b != c ==> x & !Bit(b) & Bit(c) == x & Bit(c) && (x | Bit(b)) & Bit(c) == x & Bit(c)
                       && (x ^ Bit(b)) & Bit(c) == x & Bit(c)
  {
    Powers();
  }

  function GrownTo(cap: nat, index: nat): nat {
    if index / 8 + 1 > cap then index / 8 + 1 else cap
  }

  class Mask {
    var byte: array<bv8>

    ghost function Members(): set<nat>
      reads this, byte
    {
      set i: nat | i < 8 * byte.Length && IsSet(byte[i / 8], i % 8)
    }

    constructor ()
      ensures fresh(byte) && byte.Length == 1
      ensures Members() == {}
    {
      byte := new bv8[1](_ => 0);
    }

    constructor Clone(b: Mask)
      ensures fresh(byte) && byte.Length == b.byte.Length
      ensures Members() == b.Members()
    {
      byte := new bv8[b.byte.Length](i reads b, b.byte requires 0 <= i < b.byte.Length => b.byte[i]);
    }

    // Only membership of the given index changes, also when the array grows.
    method Operate(index: uint64, op: Operation)
      modifies this, byte
      ensures fresh(byte) || byte == old(byte)
      ensures byte.Length == GrownTo(old(byte.Length), index)
      ensures forall i: nat ::
                i in Members() <==> if i == index then After(index in old(Members()), op) else i in old(Members())
    {
      var byteIndex, bitIndex := index / 8, index % 8;
      if byteIndex + 1 > byte.Length {
        Extend(byteIndex + 1);
      }
      ApplyBit(byte[byteIndex], bitIndex, op);
      byte[byteIndex] := Apply(byte[byteIndex], bitIndex, op);
      assert forall i: nat :: i / 8 == byteIndex && i % 8 == bitIndex ==> i == index;
    }

    // realloc and memset: the old bytes, then zeros.
    method Extend(size: nat)
      requires size > byte.Length
      modifies this
      ensures fresh(byte) && byte.Length == size
      ensures byte[..old(byte.Length)] == old(byte[..])
      ensures Members() == old(Members())
    {
      var n, present := new bv8[size](_ => 0), byte;
      for i := 0 to present.Length
        invariant n[..i] == present[..i]
        invariant forall k :: i <= k < size ==> n[k] == 0
        invariant present[..] == old(byte[..])
      {
        n[i] := present[i];
      }
      byte := n;
      Unchanged(old(byte[..]), n[..]);
    }

    lemma {:induction false} Unchanged(a: seq<bv8>, b: seq<bv8>)
      requires a <= b && forall k :: |a| <= k < |b| ==> b[k] == 0
      ensures forall i: nat :: i < 8 * |b| && IsSet(b[i / 8], i % 8) <==> i < 8 * |a| && IsSet(a[i / 8], i % 8)
    {
    }

    // One byte index past the end escapes the range test and must not be asked for.
    method Get(index: uint64) returns (r: bool)
      requires index / 8 != byte.Length
      ensures r <==> index in Members()
    {
      var byteIndex, bitIndex := index / 8, index % 8;
      if byteIndex > byte.Length {
        return false;
      }
      r := byte[byteIndex] & (1 << bitIndex) != 0;
    }
  }
}
