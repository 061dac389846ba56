/** What base64 text means: the alphabet, the encoding, the accepted texts and
    the bytes they stand for. */
module Base64 {
  import opened Bytes

  const SPACE: byte := 32
  const LF: byte := 10
  const CR: byte := 13
  const PAD: byte := 61
  const INVALID: nat := 127

  // The encoding table, by ranges of the RFC 1521 alphabet.
  function Letter(v: int): (c: byte)
    requires 0 <= v < 64
  {
    if v < 26 then 65 + v
    else if v < 52 then 97 + (v - 26)
    else if v < 62 then 48 + (v - 52)
    else if v == 62 then 43
    else 47
  }

  // The decoding table, including the check that the byte is below 128:
  // 0..63 for the alphabet, 64 for '=', 127 for everything else.
  function Digit(c: byte): (v: nat)
    ensures v <= 64 || v == INVALID
  {
    if 65 <= c <= 90 then c - 65
    else if 97 <= c <= 122 then c - 97 + 26
    else if 48 <= c <= 57 then c - 48 + 52
    else if c == 43 then 62
    else if c == 47 then 63
    else if c == PAD then 64
    else INVALID
  }

  lemma {:induction false} LetterDigit(v: int)
    requires 0 <= v < 64
    ensures Digit(Letter(v)) == v && Letter(v) != PAD
  {
  }

  lemma {:induction false} DigitLetter(c: byte)
    requires Digit(c) < 64
    ensures Letter(Digit(c)) == c && c != PAD
  {
  }

  // ---------- encoding ----------

  function Group(a: byte, b: byte, c: byte): (s: seq<byte>)
    ensures |s| == 4
  {
    [Letter(a / 4), Letter(a % 4 * 16 + b / 16), Letter(b % 16 * 4 + c / 64), Letter(c % 64)]
  }

  function Encoding(b: seq<byte>): (s: seq<byte>)
    ensures |s| == (|b| + 2) / 3 * 4
  {
    if |b| == 0 then []
    else if |b| == 1 then Group(b[0], 0, 0)[..2] + [PAD, PAD]
    else if |b| == 2 then Group(b[0], b[1], 0)[..3] + [PAD]
    else Group(b[0], b[1], b[2]) + Encoding(b[3..])
  }

  // ---------- decoding ----------

  predicate Blank(c: byte) {
    c == SPACE || c == LF || c == CR
  }

  // The characters that carry data or padding.
  function Significant(s: seq<byte>): (r: seq<byte>)
    ensures |r| <= |s|
    ensures forall i :: 0 <= i < |r| ==> !Blank(r[i])
  {
    if s == [] then []
    else Significant(s[..|s| - 1]) + (if Blank(s[|s| - 1]) then [] else [s[|s| - 1]])
  }

  function Pads(s: seq<byte>): (n: nat)
    ensures n <= |s|
  {
    if s == [] then 0 else Pads(s[..|s| - 1]) + (if s[|s| - 1] == PAD then 1 else 0)
  }

  // Padding is a suffix of at most two characters.
  predicate PaddedAtEnd(s: seq<byte>) {
    && (forall i :: 0 <= i < |s| - 2 ==> s[i] != PAD)
    && (|s| >= 2 && s[|s| - 2] == PAD ==> s[|s| - 1] == PAD)
  }

  function SpacesBefore(s: seq<byte>, i: nat): nat
    requires i <= |s|
  {
    if i == 0 || s[i - 1] != SPACE then 0 else 1 + SpacesBefore(s, i - 1)
  }

  // Spaces and line ends are skipped; CR only as the first half of CR LF.
  predicate LineBreakOrSpace(s: seq<byte>, i: nat)
    requires i < |s|
  {
    s[i] == SPACE || s[i] == LF || (s[i] == CR && i + 1 < |s| && s[i + 1] == LF)
  }

  // Any other character belongs to the alphabet and does not follow a space
  // (the decoder counts spaces in 32 bits, so 2^32 of them pass for none).
  predicate CharacterOk(s: seq<byte>, i: nat)
    requires i < |s|
  {
    LineBreakOrSpace(s, i) || (SpacesBefore(s, i) % TWO32 == 0 && Digit(s[i]) != INVALID)
  }

  ghost predicate WellFormed(s: seq<byte>) {
    && (forall i :: 0 <= i < |s| ==> CharacterOk(s, i))
    && PaddedAtEnd(Significant(s))
  }

  // The low six bits the decoder takes from a character; padding counts as zero.
  function Sextet(c: byte): (v: nat)
    ensures v < 64
  {
    Digit(c) % 64
  }

  function BlockValue(s: seq<byte>): (v: nat)
    requires |s| == 4
    ensures v < 0x100_0000
  {
    Sextet(s[0]) * 0x4_0000 + Sextet(s[1]) * 0x1000 + Sextet(s[2]) * 0x40 + Sextet(s[3])
  }

  function Block(s: seq<byte>): (r: seq<byte>)
    requires |s| == 4
    ensures |r| == if Pads(s) >= 3 then 0 else 3 - Pads(s)
  {
    var v := BlockValue(s);
    [v / 0x1_0000, v / 0x100 % 0x100, v % 0x100][..if Pads(s) >= 3 then 0 else 3 - Pads(s)]
  }

  // The bytes of significant text, four characters at a time; an incomplete
  // last block yields nothing.
  function Decoding(s: seq<byte>): seq<byte> {
    if |s| < 4 then [] else Block(s[..4]) + Decoding(s[4..])
  }

  // The size the first pass announces for n characters, j of them padding.
  function Announced(n: nat, j: nat): int {
    6 * (n / 8) + (6 * (n % 8) + 7) / 8 - j
  }

  // ---------- basic facts ----------

  lemma {:induction false} SignificantConcat(a: seq<byte>, b: seq<byte>)
    ensures Significant(a + b) == Significant(a) + Significant(b)
  {
    if b == [] {
      assert a + b == a;
    } else {
      SignificantConcat(a, b[..|b| - 1]);
      assert (a + b)[..|a + b| - 1] == a + b[..|b| - 1];
    }
  }

  lemma {:induction false} SignificantPrefix(s: seq<byte>, k: nat)
    requires k <= |s|
    ensures Significant(s[..k]) <= Significant(s)
  {
    SignificantConcat(s[..k], s[k..]);
    assert s[..k] + s[k..] == s;
  }

  lemma {:induction false} PadsConcat(a: seq<byte>, b: seq<byte>)
    ensures Pads(a + b) == Pads(a) + Pads(b)
  {
    if b == [] {
      assert a + b == a;
    } else {
      PadsConcat(a, b[..|b| - 1]);
      assert (a + b)[..|a + b| - 1] == a + b[..|b| - 1];
    }
  }

  lemma {:induction false} NoPads(s: seq<byte>)
    requires forall i :: 0 <= i < |s| ==> s[i] != PAD
    ensures Pads(s) == 0
  {
    if s != [] {
      NoPads(s[..|s| - 1]);
    }
  }

  lemma {:induction false} NothingBlank(s: seq<byte>)
    requires forall i :: 0 <= i < |s| ==> !Blank(s[i])
    ensures Significant(s) == s
  {
    if s != [] {
      NothingBlank(s[..|s| - 1]);
      assert s == s[..|s| - 1] + [s[|s| - 1]];
    }
  }

  // Padding at the end: at most two, and in full blocks only in the last one.
  lemma {:induction false} PadsAtEnd(s: seq<byte>)
    requires PaddedAtEnd(s)
    ensures Pads(s) <= 2
    ensures forall i :: 0 <= i < |s| ==> (s[i] == PAD <==> i >= |s| - Pads(s))
  {
    var k := if |s| < 2 then 0 else |s| - 2;
    PadsConcat(s[..k], s[k..]);
    NoPads(s[..k]);
    assert s == s[..k] + s[k..];
    if |s| >= 2 {
      assert s[k..] == [s[k], s[k + 1]];
      PadsConcat([s[k]], [s[k + 1]]);
      assert [s[k]] + [s[k + 1]] == s[k..];
      assert Pads([s[k]]) == if s[k] == PAD then 1 else 0;
      assert Pads([s[k + 1]]) == if s[k + 1] == PAD then 1 else 0;
    } else if |s| == 1 {
      assert s[k..] == s;
      assert Pads(s) == if s[0] == PAD then 1 else 0;
    }
  }

  lemma {:induction false} DropBlock(s: seq<byte>)
    requires PaddedAtEnd(s) && |s| >= 4
    ensures PaddedAtEnd(s[4..])
    ensures Pads(s) == Pads(s[..4]) + Pads(s[4..])
    ensures |s| >= 6 ==> Pads(s[..4]) == 0
    ensures |s| == 5 ==> Pads(s[..4]) == if Pads(s) == 2 then 1 else 0
    ensures |s| == 4 ==> Pads(s[..4]) == Pads(s)
  {
    PadsConcat(s[..4], s[4..]);
    assert s == s[..4] + s[4..];
    PadsAtEnd(s);
    if |s| >= 6 {
      NoPads(s[..4]);
    } else if |s| == 5 {
      assert s[4..] == [s[4]];
      assert Pads([s[4]]) == if s[4] == PAD then 1 else 0;
    }
  }
}
