/** The codec as it runs: loops over a destination buffer, a 32-bit accumulator
    that is never cleared, and a validation pass before the emitting pass. */
module Base64Codec {
  import opened Bytes
  import opened Base64
  import opened Base64Laws

  const OK: int := 0
  const ERR_BUFFER_TOO_SMALL: int := -0x2A
  const ERR_INVALID_CHARACTER: int := -0x2C
  const SIZE_MAX: nat := TWO64 - 1

  // The buffer size base64_encode asks for: the text and a terminating zero.
  function EncodeRoom(n: nat): nat {
    (n + 2) / 3 * 4 + 1
  }

  method Encode(dst: array?<byte>, dlen: nat, src: seq<byte>) returns (ret: int, olen: nat)
    requires dst != null ==> dlen <= dst.Length
    modifies dst
    ensures src == [] ==> ret == OK && olen == 0
    ensures src != [] && EncodeRoom(|src|) > SIZE_MAX ==> ret == ERR_BUFFER_TOO_SMALL && olen == SIZE_MAX
    ensures src != [] && EncodeRoom(|src|) <= SIZE_MAX && (dst == null || dlen < EncodeRoom(|src|))
      ==> ret == ERR_BUFFER_TOO_SMALL && olen == EncodeRoom(|src|)
    ensures src != [] && EncodeRoom(|src|) <= SIZE_MAX && dst != null && dlen >= EncodeRoom(|src|)
      ==> ret == OK && olen == |Encoding(src)| < dst.Length
          && dst[..olen] == Encoding(src) && dst[olen] == 0 && dst[olen + 1..] == old(dst[olen + 1..])
    ensures dst != null && (ret != OK || src == []) ==> dst[..] == old(dst[..])
  {
    if |src| == 0 {
      return OK, 0;
    }
    var n := |src| / 3 + (if |src| % 3 != 0 then 1 else 0);
    if n > (SIZE_MAX - 1) / 4 {
      return ERR_BUFFER_TOO_SMALL, SIZE_MAX;
    }
    n := n * 4;
    if dlen < n + 1 || dst == null {
      return ERR_BUFFER_TOO_SMALL, n + 1;
    }
    olen := EncodeInto(dst, src);
    ret := OK;
    dst[olen] := 0;
  }

  // The two emitting parts: whole groups, then what is left over.
  method EncodeInto(dst: array<byte>, src: seq<byte>) returns (p: nat)
    requires |Encoding(src)| <= dst.Length
    modifies dst
    ensures p == |Encoding(src)|
    ensures dst[..p] == Encoding(src) && dst[p..] == old(dst[p..])
  {
    var i;
    i, p := EncodeGroups(dst, src, |src| / 3);
    if i < |src| {
      p := EncodeLast(dst, p, src, i);
    } else {
      assert src[i..] == [] && dst[..p] + [] == dst[..p];
    }
  }

  method EncodeGroups(dst: array<byte>, src: seq<byte>, ghost whole: nat) returns (i: nat, p: nat)
    requires whole == |src| / 3 && |Encoding(src)| <= dst.Length
    modifies dst
    ensures i == 3 * whole && p == 4 * whole <= dst.Length
    ensures dst[..p] + Encoding(src[i..]) == Encoding(src) && dst[p..] == old(dst[p..])
  {
    hide Encoding, Group, Letter;
    var n := |src| / 3 * 3;
    i, p := 0, 0;
    ghost var groups := 0;
    while i < n
      invariant i == 3 * groups && p == 4 * groups && groups <= whole
      invariant p <= dst.Length && dst[..p] + Encoding(src[i..]) == Encoding(src)
      invariant dst[p..] == old(dst[p..])
    {
      EncodingRest(src, i, dst[..p]);
      assert p + 4 <= |Encoding(src)|;
      EncodeGroup(dst, p, src[i], src[i + 1], src[i + 2]);
      i, p, groups := i + 3, p + 4, groups + 1;
    }
  }

  method EncodeGroup(dst: array<byte>, p: nat, c1: byte, c2: byte, c3: byte)
    requires p + 4 <= dst.Length
    modifies dst
    ensures dst[..p + 4] == old(dst[..p]) + Group(c1, c2, c3)
    ensures dst[p + 4..] == old(dst[p + 4..])
  {
    MaskedGroup(c1, c2, c3);
    Store4(dst, p, Letter(c1 / 4 % 64), Letter((c1 % 4 * 16 + c2 / 16) % 64),
           Letter((c2 % 16 * 4 + c3 / 64) % 64), Letter(c3 % 64));
  }

  method EncodeLast(dst: array<byte>, p: nat, src: seq<byte>, i: nat) returns (q: nat)
    requires i < |src| < i + 3
    requires p + 4 == |Encoding(src)| <= dst.Length
    requires dst[..p] + Encoding(src[i..]) == Encoding(src)
    modifies dst
    ensures q == p + 4
    ensures dst[..q] == Encoding(src) && dst[q..] == old(dst[q..])
  {
    var c1 := src[i];
    var c2 := if i + 1 < |src| then src[i + 1] else 0;
    MaskedGroup(c1, c2, 0);
    Store4(dst, p, Letter(c1 / 4 % 64), Letter((c1 % 4 * 16 + c2 / 16) % 64),
           if i + 1 < |src| then Letter(c2 % 16 * 4 % 64) else PAD, PAD);
    assert Encoding(src[i..])
        == if i + 1 < |src| then Group(c1, c2, 0)[..3] + [PAD] else Group(c1, 0, 0)[..2] + [PAD, PAD];
    q := p + 4;
  }

  // Four stores through the moving pointer.
  method Store4(dst: array<byte>, p: nat, c0: byte, c1: byte, c2: byte, c3: byte)
    requires p + 4 <= dst.Length
    modifies dst
    ensures dst[..p + 4] == old(dst[..p]) + [c0, c1, c2, c3]
    ensures dst[p + 4..] == old(dst[p + 4..])
  {
    dst[p], dst[p + 1], dst[p + 2], dst[p + 3] := c0, c1, c2, c3;
  }

  // The masks of the C code never clear a bit that is set.
  lemma {:induction false} MaskedGroup(a: byte, b: byte, c: byte)
    ensures Group(a, b, c) == [Letter(a / 4 % 64), Letter((a % 4 * 16 + b / 16) % 64),
                               Letter((b % 16 * 4 + c / 64) % 64), Letter(c % 64)]
  {
    MasksIdle(a, b, c);
    hide Letter;
  }

  lemma {:induction false} MasksIdle(a: byte, b: byte, c: byte)
    ensures a / 4 % 64 == a / 4 && (a % 4 * 16 + b / 16) % 64 == a % 4 * 16 + b / 16
    ensures (b % 16 * 4 + c / 64) % 64 == b % 16 * 4 + c / 64
  {
  }

  lemma {:induction false} EncodingRest(src: seq<byte>, i: nat, done: seq<byte>)
    requires i + 3 <= |src| && done + Encoding(src[i..]) == Encoding(src)
    ensures done + Group(src[i], src[i + 1], src[i + 2]) + Encoding(src[i + 3..]) == Encoding(src)
  {
    assert src[i..][3..] == src[i + 3..];
  }

  // What the first pass knows after i characters.
  ghost predicate Scanned(src: seq<byte>, i: nat, n: nat, j: nat)
    requires i <= |src|
  {
    && (forall k :: 0 <= k < i ==> CharacterOk(src, k))
    && n == |Significant(src[..i])| && j == Pads(Significant(src[..i]))
    && PaddedAtEnd(Significant(src[..i]))
  }

  // First pass: is the text acceptable, how many characters count, how many are padding.
  method Validate(src: seq<byte>) returns (ok: bool, n: nat, j: nat)
    ensures ok <==> WellFormed(src)
    ensures ok ==> n == |Significant(src)| && j == Pads(Significant(src))
  {
    ScanStart(src);
    hide Scanned, WellFormed, CharacterOk, SpacesBefore, Significant, Pads;
    var i := 0;
    n, j := 0, 0;
    while i < |src|
      invariant i <= |src|
      invariant i == 0 || i == |src| || src[i - 1] != SPACE
      invariant Scanned(src, i, n, j)
    {
      var x;
      i, x := SkipSpaces(src, i, n, j);
      if i == |src| {
        break;
      }
      if |src| - i >= 2 && src[i] == CR && src[i + 1] == LF {
        TakeBlank(src, i, n, j);
        i := i + 1;
        continue;
      }
      if src[i] == LF {
        TakeBlank(src, i, n, j);
        i := i + 1;
        continue;
      }
      if x != 0 {
        Refused(src, i);
        return false, n, j;
      }
      if src[i] == PAD {
        j := j + 1;
        if j > 2 {
          TooMuchPadding(src, i, n, j - 1);
          return false, n, j;
        }
      }
      if Digit(src[i]) == INVALID {
        Refused(src, i);
        return false, n, j;
      }
      if Digit(src[i]) < 64 && j != 0 {
        LetterAfterPadding(src, i, n, j);
        return false, n, j;
      }
      Accepted(src, i);
      TakeCharacter(src, i, n, if src[i] == PAD then j - 1 else j);
      n, i := n + 1, i + 1;
    }
    ScanEnd(src, n, j);
    ok := true;
  }

  lemma {:induction false} ScanStart(src: seq<byte>)
    ensures Scanned(src, 0, 0, 0)
    ensures forall k :: 0 <= k <= |src| && (k == 0 || src[k - 1] != SPACE) ==> SpacesBefore(src, k) == 0
  {
    assert src[..0] == [];
  }

  lemma {:induction false} ScanEnd(src: seq<byte>, n: nat, j: nat)
    requires Scanned(src, |src|, n, j)
    ensures WellFormed(src) && n == |Significant(src)| && j == Pads(Significant(src))
  {
    assert src[..|src|] == src;
  }

  // The inner loop: spaces are counted in a uint32_t.
  method SkipSpaces(src: seq<byte>, from: nat, ghost n: nat, ghost j: nat) returns (i: nat, x: nat)
    requires from < |src| && Scanned(src, from, n, j) && SpacesBefore(src, from) == 0
    ensures from <= i <= |src| && Scanned(src, i, n, j)
    ensures i == |src| || src[i] != SPACE
    ensures x == SpacesBefore(src, i) % TWO32
  {
    hide SpacesBefore, Scanned, LineBreakOrSpace;
    i, x := from, 0;
    while i < |src| && src[i] == SPACE
      invariant from <= i <= |src| && Scanned(src, i, n, j)
      invariant x == SpacesBefore(src, i) % TWO32
    {
      CountSpace(src, i);
      TakeBlank(src, i, n, j);
      i, x := i + 1, (x + 1) % TWO32;
    }
  }

  lemma {:induction false} CountSpace(src: seq<byte>, i: nat)
    requires i < |src| && src[i] == SPACE
    ensures LineBreakOrSpace(src, i)
    ensures SpacesBefore(src, i + 1) % TWO32 == (SpacesBefore(src, i) % TWO32 + 1) % TWO32
  {
    var n := SpacesBefore(src, i);
    assert SpacesBefore(src, i + 1) == n + 1;
    hide SpacesBefore;
    NextModulo(n);
  }

  lemma {:induction false} NextModulo(n: nat)
    ensures (n + 1) % TWO32 == (n % TWO32 + 1) % TWO32
  {
    var q, r := n / TWO32, n % TWO32;
    if r + 1 < TWO32 {
      Modulo(n + 1, q, r + 1);
    } else {
      Modulo(n + 1, q + 1, 0);
    }
  }

  lemma {:induction false} Modulo(n: nat, q: nat, r: nat)
    requires n == q * TWO32 + r && r < TWO32
    ensures n % TWO32 == r
  {
  }

  lemma {:induction false} Accepted(src: seq<byte>, i: nat)
    requires i < |src| && SpacesBefore(src, i) % TWO32 == 0 && Digit(src[i]) != INVALID
    ensures CharacterOk(src, i) && !Blank(src[i])
  {
  }

  lemma {:induction false} Refused(src: seq<byte>, i: nat)
    requires i < |src| && !LineBreakOrSpace(src, i)
    requires SpacesBefore(src, i) % TWO32 != 0 || Digit(src[i]) == INVALID
    ensures !WellFormed(src)
  {
    assert !CharacterOk(src, i);
  }

  lemma {:induction false} TakeBlank(src: seq<byte>, i: nat, n: nat, j: nat)
    requires i < |src| && Scanned(src, i, n, j) && LineBreakOrSpace(src, i)
    ensures Scanned(src, i + 1, n, j)
  {
    SkipBlank(src, i);
  }

  lemma {:induction false} TakeOther(src: seq<byte>, i: nat)
    requires i < |src| && !Blank(src[i])
    ensures Significant(src[..i + 1]) == Significant(src[..i]) + [src[i]]
    ensures Pads(Significant(src[..i + 1])) == Pads(Significant(src[..i])) + (if src[i] == PAD then 1 else 0)
    ensures Significant(src[..i]) + [src[i]] <= Significant(src)
  {
    assert src[..i + 1][..i] == src[..i];
    var s := Significant(src[..i]);
    assert (s + [src[i]])[..|s|] == s;
    SignificantPrefix(src, i + 1);
  }

  lemma {:induction false} TakeCharacter(src: seq<byte>, i: nat, n: nat, j: nat)
    requires i < |src| && Scanned(src, i, n, j) && CharacterOk(src, i) && !Blank(src[i])
    requires if src[i] == PAD then j <= 1 else j == 0
    ensures Scanned(src, i + 1, n + 1, j + if src[i] == PAD then 1 else 0)
  {
    TakeOther(src, i);
    PaddingGoesOn(Significant(src[..i]), src[i]);
    hide Significant, Pads, PaddedAtEnd, CharacterOk;
  }

  lemma {:induction false} PaddingGoesOn(s: seq<byte>, c: byte)
    requires PaddedAtEnd(s) && if c == PAD then Pads(s) <= 1 else Pads(s) == 0
    ensures PaddedAtEnd(s + [c])
  {
    PadsAtEnd(s);
    hide Pads;
  }

  lemma {:induction false} TooMuchPadding(src: seq<byte>, i: nat, n: nat, j: nat)
    requires i < |src| && src[i] == PAD && Scanned(src, i, n, j) && j == 2
    ensures !WellFormed(src)
  {
    TakeOther(src, i);
    PadsAtEnd(Significant(src[..i]));
    var s := Significant(src[..i]);
    assert Significant(src)[|s| - 2] == s[|s| - 2] == PAD;
  }

  lemma {:induction false} LetterAfterPadding(src: seq<byte>, i: nat, n: nat, j: nat)
    requires i < |src| && Digit(src[i]) < 64 && Scanned(src, i, n, j) && j != 0
    ensures !WellFormed(src)
  {
    TakeOther(src, i);
    PadsAtEnd(Significant(src[..i]));
    var s, t := Significant(src[..i]), Significant(src);
    assert t[|s| - 1] == s[|s| - 1] == PAD;
    assert t[|s|] == src[i] != PAD;
    if PaddedAtEnd(t) {
      PadsAtEnd(t);
    }
  }

  // ---------- second pass ----------

  function Power64(n: nat): (p: nat)
    requires n <= 4
    ensures p > 0
  {
    if n == 0 then 1 else 64 * Power64(n - 1)
  }

  // The value of up to four characters read as base-64 digits.
  function TailValue(s: seq<byte>): nat {
    if s == [] then 0 else TailValue(s[..|s| - 1]) * 64 + Sextet(s[|s| - 1])
  }

  // x = (x << 6) | v on 32 bits: whatever older characters left in x, its low
  // bits hold the digits read since the last block.
  lemma {:induction false} Accumulate(x: nat, v: nat, n: nat, t: nat)
    requires n < 4 && v < 64 && x % Power64(n) == t
    ensures (x * 64 % TWO32 + v) % Power64(n + 1) == t * 64 + v
  {
    assert Power64(1) == 64 && Power64(2) == 0x1000 && Power64(3) == 0x4_0000 && Power64(4) == 0x100_0000;
    if n == 0 {
      Shift1(x, v);
    } else if n == 1 {
      Shift2(x, v, x / 64, t);
    } else if n == 2 {
      Shift3(x, v, x / 0x1000, t);
    } else {
      Shift4(x, v, x / 0x4_0000, t);
    }
  }

  // One case of a modulus m at a time, m * k being 2^32.
  lemma {:induction false} Shift1(x: nat, v: nat)
    requires v < 64
    ensures (x * 64 % TWO32 + v) % 64 == v
  {
    Residue(x * 64 % TWO32 + v, 64, x - 0x400_0000 * (x * 64 / TWO32), v);
  }

  lemma {:induction false} Shift2(x: nat, v: nat, r: nat, t: nat)
    requires v < 64 && t < 64 && x == 64 * r + t
    ensures (x * 64 % TWO32 + v) % 0x1000 == t * 64 + v
  {
    Residue(x * 64 % TWO32 + v, 0x1000, r - 0x10_0000 * (x * 64 / TWO32), t * 64 + v);
  }

  lemma {:induction false} Shift3(x: nat, v: nat, r: nat, t: nat)
    requires v < 64 && t < 0x1000 && x == 0x1000 * r + t
    ensures (x * 64 % TWO32 + v) % 0x4_0000 == t * 64 + v
  {
    Residue(x * 64 % TWO32 + v, 0x4_0000, r - 0x4000 * (x * 64 / TWO32), t * 64 + v);
  }

  lemma {:induction false} Shift4(x: nat, v: nat, r: nat, t: nat)
    requires v < 64 && t < 0x4_0000 && x == 0x4_0000 * r + t
    ensures (x * 64 % TWO32 + v) % 0x100_0000 == t * 64 + v
  {
    Residue(x * 64 % TWO32 + v, 0x100_0000, r - 0x100 * (x * 64 / TWO32), t * 64 + v);
  }

  lemma {:induction false} Residue(y: int, m: nat, k: int, r: nat)
    requires r < m && y == m * k + r
    ensures y % m == r
  {
    var d := y / m - k;
    assert m * d == r - y % m;
    assert d == 0;
  }

  lemma {:induction false} LowBytes(x: nat, v: nat)
    requires x % 0x100_0000 == v
    ensures x / 0x1_0000 % 0x100 == v / 0x1_0000
    ensures x / 0x100 % 0x100 == v / 0x100 % 0x100
    ensures x % 0x100 == v % 0x100
  {
    var q := x / 0x100_0000;
    HighByte(x, q, v / 0x1_0000, v % 0x1_0000);
    MiddleByte(x, q, v / 0x1_0000, v / 0x100 % 0x100, v % 0x100);
    MiddleByte(v, 0, v / 0x1_0000, v / 0x100 % 0x100, v % 0x100);
  }

  lemma {:induction false} HighByte(x: nat, q: nat, a: nat, r: nat)
    requires x == q * 0x100_0000 + a * 0x1_0000 + r && a < 0x100 && r < 0x1_0000
    ensures x / 0x1_0000 % 0x100 == a
  {
    assert x / 0x1_0000 == q * 0x100 + a;
  }

  lemma {:induction false} MiddleByte(x: nat, q: nat, a: nat, b: nat, c: nat)
    requires x == q * 0x100_0000 + a * 0x1_0000 + b * 0x100 + c && b < 0x100 && c < 0x100
    ensures x / 0x100 % 0x100 == b && x % 0x100 == c
  {
    assert x / 0x100 == (q * 0x100 + a) * 0x100 + b;
  }

  lemma {:induction false} TailOfFour(s: seq<byte>)
    requires |s| == 4
    ensures TailValue(s) == BlockValue(s)
  {
    assert s[..3][..2] == s[..2] && s[..2][..1] == s[..1] && s[..1][..0] == [];
    assert TailValue(s[..1]) == Sextet(s[0]);
    assert TailValue(s[..2]) == Sextet(s[0]) * 64 + Sextet(s[1]);
    assert TailValue(s[..3]) == TailValue(s[..2]) * 64 + Sextet(s[2]);
  }

  // The low bits of x hold the digits of an unfinished block.
  ghost predicate Holds(x: nat, tail: seq<byte>) {
    |tail| <= 4 && x < TWO32 && x % Power64(|tail|) == TailValue(tail)
  }

  lemma {:induction false} HoldDigit(x: nat, tail: seq<byte>, c: byte)
    requires Holds(x, tail) && |tail| < 4
    ensures Holds(x * 64 % TWO32 + Sextet(c), tail + [c])
  {
    var t := tail + [c];
    assert t[..|t| - 1] == tail && t[|t| - 1] == c;
    Accumulate(x, Sextet(c), |tail|, TailValue(tail));
    NoCarry(x, Sextet(c));
    assert TailValue(t) == TailValue(tail) * 64 + Sextet(c);
    hide TailValue, Power64, Sextet;
  }

  lemma {:induction false} NoCarry(x: nat, v: nat)
    requires v < 64
    ensures x * 64 % TWO32 + v < TWO32
  {
    assert x * 64 % TWO32 == 64 * (x % 0x400_0000);
  }

  lemma {:induction false} HeldBlock(x: nat, s: seq<byte>)
    requires |s| == 4 && Holds(x, s)
    ensures Block(s) == Low3(x)[..if Pads(s) >= 3 then 0 else 3 - Pads(s)]
  {
    assert Power64(4) == 64 * Power64(3) == 64 * (64 * Power64(2)) == 0x100_0000;
    TailOfFour(s);
    LowBytes(x, BlockValue(s));
  }

  // The bytes cut out of x by the casts of its shifts.
  function Low3(x: nat): (r: seq<byte>)
    ensures |r| == 3
  {
    [x / 0x1_0000 % 0x100, x / 0x100 % 0x100, x % 0x100]
  }

  // Where the second pass stands: `tail` is an unfinished block, `rest` is still
  // to be read, `j` is what is left of 3 after the padding met so far.
  ghost predicate Pending(tail: seq<byte>, rest: seq<byte>, j: nat) {
    && |tail| < 4 && PaddedAtEnd(tail + rest)
    && 1 + Pads(rest) <= j <= 3
    && (|tail| + |rest| >= 4 ==> j == 3 - Pads(tail))
  }

  lemma {:induction false} ReadWithinBlock(tail: seq<byte>, rest: seq<byte>, j: nat, c: byte)
    requires Pending(tail, [c] + rest, j) && |tail| < 3
    ensures Pads([c] + rest) == Pads(rest) + (if c == PAD then 1 else 0)
    ensures j > (if c == PAD then 1 else 0)
    ensures Pending(tail + [c], rest, j - if c == PAD then 1 else 0)
    ensures tail + [c] + rest == tail + ([c] + rest)
  {
    OnePad(c);
    PadsConcat([c], rest);
    PadsConcat(tail, [c]);
    assert tail + [c] + rest == tail + ([c] + rest);
  }

  lemma {:induction false} OnePad(c: byte)
    ensures Pads([c]) == if c == PAD then 1 else 0
  {
    assert [c][..0] == [];
  }

  lemma {:induction false} ReadBlockEnd(tail: seq<byte>, rest: seq<byte>, j: nat, c: byte)
    requires Pending(tail, [c] + rest, j) && |tail| == 3
    ensures j - (if c == PAD then 1 else 0) == 3 - Pads(tail + [c]) >= 1
    ensures Pending([], rest, 3 - Pads(tail + [c]))
    ensures Decoding(tail + ([c] + rest)) == Block(tail + [c]) + Decoding(rest)
  {
    hide Pads, Block, Decoding, PaddedAtEnd;
    var block := tail + [c];
    assert tail + ([c] + rest) == block + rest;
    assert [] + rest == rest;
    OnePad(c);
    PadsConcat([c], rest);
    PadsConcat(tail, [c]);
    DecodingStep(block, rest);
    BlockThenRest(block, rest);
  }

  lemma {:induction false} BlockThenRest(block: seq<byte>, rest: seq<byte>)
    requires |block| == 4 && PaddedAtEnd(block + rest)
    ensures PaddedAtEnd(rest)
    ensures Pads(block) + Pads(rest) <= 2 && (|rest| >= 4 ==> Pads(block) == 0)
  {
    var s := block + rest;
    assert s[..4] == block && s[4..] == rest;
    DropBlock(s);
    PadsAtEnd(s);
  }

  method StoreBlock(dst: array<byte>, p: nat, x: nat, j: nat) returns (q: nat)
    requires 1 <= j <= 3 && p + j <= dst.Length
    modifies dst
    ensures q == p + j
    ensures dst[..q] == old(dst[..p]) + Low3(x)[..j]
    ensures dst[q..] == old(dst[q..])
  {
    q := p;
    if j > 0 {
      dst[q] := x / 0x1_0000 % 0x100;
      q := q + 1;
    }
    if j > 1 {
      dst[q] := x / 0x100 % 0x100;
      q := q + 1;
    }
    if j > 2 {
      dst[q] := x % 0x100;
      q := q + 1;
    }
  }

  method Emit(dst: array<byte>, src: seq<byte>) returns (p: nat)
    requires WellFormed(src) && |Decoding(Significant(src))| <= dst.Length
    modifies dst
    ensures p == |Decoding(Significant(src))|
    ensures dst[..p] == Decoding(Significant(src)) && dst[p..] == old(dst[p..])
  {
    hide *;
    ghost var total, tail := Decoding(Significant(src)), [];
    EmittingStart(src);
    var i, k: nat, n: nat, j: nat, x: nat := |src|, 0, 0, 3, 0;
    p := 0;
    assert dst[..p] == [] && src[k..] == src;
    while i > 0
      invariant i >= 0 && i + k == |src| && p <= dst.Length
      invariant Emitting(total, tail, Significant(src[k..]), n, j, x, dst[..p])
      invariant dst[p..] == old(dst[p..])
    {
      FirstCharacter(src, k);
      if src[k] == CR || src[k] == LF || src[k] == SPACE {
        i, k := i - 1, k + 1;
        continue;
      }
      p, n, j, x, tail := EmitCharacter(dst, p, n, j, x, src[k], total, tail, Significant(src[k + 1..]));
      i, k := i - 1, k + 1;
    }
    assert src[k..] == [];
    EmittingEnd(total, tail, n, j, x, dst[..p]);
  }

  // The state between two characters of the second pass.
  ghost predicate Emitting(total: seq<byte>, tail: seq<byte>, rest: seq<byte>, n: nat, j: nat, x: nat, out: seq<byte>) {
    && n == |tail| && Holds(x, tail) && Pending(tail, rest, j)
    && out + Decoding(tail + rest) == total
  }

  // The loop body of the second pass for a character that is not blank.
  method EmitCharacter(dst: array<byte>, p: nat, n: nat, j: nat, x: nat, c: byte,
                       ghost total: seq<byte>, ghost tail: seq<byte>, ghost rest: seq<byte>)
    returns (p': nat, n': nat, j': nat, x': nat, ghost tail': seq<byte>)
    requires p <= dst.Length && |total| <= dst.Length
    requires Emitting(total, tail, [c] + rest, n, j, x, dst[..p])
    modifies dst
    ensures p <= p' <= dst.Length && dst[p'..] == old(dst[p'..])
    ensures Emitting(total, tail', rest, n', j', x', dst[..p'])
  {
    EmittingStep(total, tail, rest, n, j, x, dst[..p], c);
    hide *;
    p', tail' := p, tail + [c];
    j' := j - (if Digit(c) == 64 then 1 else 0);
    x' := x * 64 % TWO32 + Sextet(c);
    n' := n + 1;
    if n' == 4 {
      n', tail' := 0, [];
      p' := StoreBlock(dst, p, x', j');
    }
  }

  lemma {:induction false} EmittingStep(total: seq<byte>, tail: seq<byte>, rest: seq<byte>, n: nat, j: nat, x: nat,
                                        out: seq<byte>, c: byte)
    requires Emitting(total, tail, [c] + rest, n, j, x, out)
    ensures
      var j' := j - (if Digit(c) == 64 then 1 else 0);
      var x' := x * 64 % TWO32 + Sextet(c);
      && n < 4 && 1 <= j' <= 3
      && (n < 3 ==> Emitting(total, tail + [c], rest, n + 1, j', x', out))
      && (n == 3 ==>
            && Emitting(total, [], rest, 0, j', x', out + Low3(x')[..j'])
            && |out| + j' <= |total|)
  {
    var x' := x * 64 % TWO32 + Sextet(c);
    HoldDigit(x, tail, c);
    assert c == PAD <==> Digit(c) == 64;
    if n < 3 {
      ReadWithinBlock(tail, rest, j, c);
    } else {
      ReadBlockEnd(tail, rest, j, c);
      HeldBlock(x', tail + [c]);
      HoldsNothing(x');
      assert out + (Block(tail + [c]) + Decoding(rest)) == out + Block(tail + [c]) + Decoding(rest);
      assert [] + rest == rest;
    }
  }

  lemma {:induction false} EmittingEnd(total: seq<byte>, tail: seq<byte>, n: nat, j: nat, x: nat, out: seq<byte>)
    requires Emitting(total, tail, [], n, j, x, out)
    ensures out == total
  {
    assert tail + [] == tail;
    assert out + [] == out;
  }

  lemma {:induction false} HoldsNothing(x: nat)
    requires x < TWO32
    ensures Holds(x, [])
  {
  }

  lemma {:induction false} FirstCharacter(s: seq<byte>, k: nat)
    requires k < |s|
    ensures s[k] == CR || s[k] == LF || s[k] == SPACE ==> Significant(s[k..]) == Significant(s[k + 1..])
    ensures !(s[k] == CR || s[k] == LF || s[k] == SPACE) ==> Significant(s[k..]) == [s[k]] + Significant(s[k + 1..])
  {
    assert s[k..] == [s[k]] + s[k + 1..];
    SignificantConcat([s[k]], s[k + 1..]);
    assert [s[k]][..0] == [];
    assert Significant([s[k]]) == if Blank(s[k]) then [] else [s[k]];
  }

  lemma {:induction false} EmittingStart(src: seq<byte>)
    requires WellFormed(src)
    ensures Emitting(Decoding(Significant(src)), [], Significant(src), 0, 3, 0, [])
  {
    var r := Significant(src);
    PadsAtEnd(r);
    assert [] + r == r;
    HoldsNothing(0);
  }

  lemma {:induction false} SkipBlank(src: seq<byte>, i: nat)
    requires i < |src| && Blank(src[i])
    ensures Significant(src[..i + 1]) == Significant(src[..i])
  {
    var t := src[..i + 1];
    assert t[..i] == src[..i];
    assert Significant(t) == Significant(t[..i]) + [] == Significant(t[..i]);
  }

  // base64_decode: *olen is left alone when the text is refused.
  method Decode(dst: array?<byte>, dlen: nat, olenBefore: nat, src: seq<byte>) returns (ret: int, olen: nat)
    requires dst != null ==> dlen <= dst.Length
    modifies dst
    ensures ret == ERR_INVALID_CHARACTER <==> !WellFormed(src)
    ensures ret != ERR_INVALID_CHARACTER ==>
              forall i :: 0 <= i < |src| && src[i] == 13 ==> i + 1 < |src| && src[i + 1] == 10
    ensures !WellFormed(src) ==> olen == olenBefore
    ensures WellFormed(src) && Significant(src) == [] ==> ret == OK && olen == 0
    ensures WellFormed(src) && Significant(src) != [] ==>
              var need := Announced(|Significant(src)|, Pads(Significant(src)));
              if dst == null || dlen < need then ret == ERR_BUFFER_TOO_SMALL && olen == need
              else ret == OK && olen == |Decoding(Significant(src))| <= need
                   && dst[..olen] == Decoding(Significant(src)) && dst[olen..] == old(dst[olen..])
    ensures dst != null && (ret != OK || Significant(src) == []) ==> dst[..] == old(dst[..])
  {
    AcceptedIff(src);
    var ok, n, j := Validate(src);
    if !ok {
      return ERR_INVALID_CHARACTER, olenBefore;
    }
    if n == 0 {
      return OK, 0;
    }
    SizeBound(Significant(src));
    n := 6 * (n / 8) + (6 * (n % 8) + 7) / 8;
    n := n - j;
    if dst == null || dlen < n {
      return ERR_BUFFER_TOO_SMALL, n;
    }
    olen := Emit(dst, src);
    ret := OK;
  }
}
