/** A growable byte buffer. */
module ByteBuffer {
  import opened Bytes
  import opened Base64
  import opened Base64Codec

  // byte_buf_t; the capacity is the length of the array.
  class ByteBuf {
    var data: array<byte>
    var len: nat

    ghost predicate Valid()
      reads this
    {
      len <= data.Length
    }

    ghost function Contents(): seq<byte>
      reads this, data
      requires Valid()
    {
      data[..len]
    }

    constructor ()
      ensures Valid() && fresh(data) && data.Length == 0 && Contents() == []
    {
      data := new byte[0];
      len := 0;
    }

    // Grows to exactly n bytes, or does nothing; what is stored stays.
    method Reserve(n: nat)
      requires Valid()
      modifies this
      ensures Valid() && len == old(len)
      ensures if n <= old(data.Length) then data == old(data) else fresh(data) && data.Length == n
      ensures data[..old(data.Length)] == old(data[..]) && Contents() == old(Contents())
    {
      if data.Length >= n {
        return;
      }
      var grown := new byte[n](_ => 0);
      var present := data;
      for i := 0 to present.Length
        invariant grown[..i] == present[..i]
        invariant unchanged(this) && present[..] == old(data[..])
      {
        grown[i] := present[i];
      }
      assert grown[..present.Length][..len] == present[..][..len];
      data := grown;
    }

    // Capacity grows only when it does not suffice.
    method Append(src: seq<byte>)
      requires Valid()
      modifies this, data
      ensures Valid() && Contents() == old(Contents()) + src
      ensures if old(len) + |src| <= old(data.Length) then data == old(data)
              else fresh(data) && data.Length == old(len) + |src|
    {
      Reserve(len + |src|);
      var at := len;
      for i := 0 to |src|
        invariant Valid() && len == at && data.Length >= at + |src|
        invariant if at + |src| <= old(data.Length) then data == old(data) else fresh(data) && data.Length == at + |src|
        invariant data[..at + i] == old(Contents()) + src[..i]
      {
        data[at + i] := src[i];
      }
      len := at + |src|;
      assert src[..|src|] == src;
    }

    method Set(src: seq<byte>)
      requires Valid()
      modifies this, data
      ensures Valid() && Contents() == src
      ensures if |src| <= old(data.Length) then data == old(data) else fresh(data) && data.Length == |src|
    {
      Reserve(|src|);
      for i := 0 to |src|
        invariant Valid() && data.Length >= |src|
        invariant if |src| <= old(data.Length) then data == old(data) else fresh(data) && data.Length == |src|
        invariant data[..i] == src[..i]
      {
        data[i] := src[i];
      }
      len := |src|;
      assert src[..|src|] == src;
    }

    // Asks the codec for the room it needs, reserves it and encodes; null for an
    // empty buffer and for contents whose encoding has no size_t length.
    method ToBase64() returns (r: ByteBuf?)
      requires Valid()
      ensures r == null <==> len == 0 || EncodeRoom(len) > SIZE_MAX
      ensures r != null ==> fresh(r) && fresh(r.data) && r.Valid()
                            && r.Contents() == Encoding(Contents())
                            && r.data.Length == r.len + 1 && r.data[r.len] == 0
    {
      if len == 0 {
        return null;
      }
      var src := data[..len];
      var _, room := Encode(null, 0, src);
      var encode := new ByteBuf();
      encode.Reserve(room);
      var ret, n := Encode(encode.data, encode.data.Length, src);
      if ret == OK {
        encode.len := n;
        return encode;
      }
      r := null;
    }
  }
}
