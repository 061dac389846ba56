/** The laws of the codec: both round trips, the exact size bound, and the
    irrelevance of white space. */
module Base64Laws {
  import opened Bytes
  import opened Base64

  // ---------- three bytes and four sextets ----------

  lemma {:induction false} BytesToSextets(a: byte, b: byte, c: byte)
    ensures a / 4 * 0x4_0000 + (a % 4 * 16 + b / 16) * 0x1000 + (b % 16 * 4 + c / 64) * 0x40 + c % 64
         == a * 0x1_0000 + b * 0x100 + c
  {
  }

  lemma {:induction false} ValueToBytes(v: nat, a: byte, b: byte, c: byte)
    requires v == a * 0x1_0000 + b * 0x100 + c
    ensures v / 0x1_0000 == a && v / 0x100 % 0x100 == b && v % 0x100 == c
  {
    assert v / 0x100 == a * 0x100 + b;
  }

  lemma {:induction false} SextetsToBytes(a: nat, b: nat, c: nat, d: nat)
    requires a < 64 && b < 64 && c < 64 && d < 64
    ensures
      a * 0x4_0000 + b * 0x1000 + c * 0x40 + d
      == (a * 4 + b / 16) * 0x1_0000 + (b % 16 * 16 + c / 4) * 0x100 + (c % 4 * 64 + d)
  {
  }

  lemma {:induction false} PadsOfFour(s: seq<byte>)
    requires |s| == 4
    ensures Pads(s) == (if s[0] == PAD then 1 else 0) + (if s[1] == PAD then 1 else 0)
                     + (if s[2] == PAD then 1 else 0) + (if s[3] == PAD then 1 else 0)
  {
    assert s[..3][..2] == s[..2] && s[..2][..1] == s[..1] && s[..1][..0] == [];
    assert Pads(s) == Pads(s[..3]) + (if s[3] == PAD then 1 else 0);
    assert Pads(s[..3]) == Pads(s[..2]) + (if s[2] == PAD then 1 else 0);
    assert Pads(s[..2]) == Pads(s[..1]) + (if s[1] == PAD then 1 else 0);
  }

  // The first 3 - Pads(s) of three given bytes, if the sextets spell them.
  lemma {:induction false} BlockIs(s: seq<byte>, a: byte, b: byte, c: byte)
    requires |s| == 4
    requires BlockValue(s) == a * 0x1_0000 + b * 0x100 + c
    ensures Block(s) == [a, b, c][..if Pads(s) >= 3 then 0 else 3 - Pads(s)]
  {
    ValueToBytes(BlockValue(s), a, b, c);
  }

  // ---------- round trip from bytes ----------

  lemma {:induction false} LettersValue(p: nat, q: nat, r: nat, t: nat)
    requires p < 64 && q < 64 && r < 64 && t < 64
    ensures
      var s := [Letter(p), Letter(q), Letter(r), Letter(t)];
      && BlockValue(s) == p * 0x4_0000 + q * 0x1000 + r * 0x40 + t
      && (forall i :: 0 <= i < 4 ==> s[i] != PAD)
  {
    LetterDigit(p);
    LetterDigit(q);
    LetterDigit(r);
    LetterDigit(t);
  }

  lemma {:induction false} GroupValue(a: byte, b: byte, c: byte)
    ensures BlockValue(Group(a, b, c)) == a * 0x1_0000 + b * 0x100 + c
    ensures forall i :: 0 <= i < 4 ==> Group(a, b, c)[i] != PAD
  {
    LettersValue(a / 4, a % 4 * 16 + b / 16, b % 16 * 4 + c / 64, c % 64);
    BytesToSextets(a, b, c);
  }

  lemma {:induction false} GroupDecodes(a: byte, b: byte, c: byte)
    ensures Block(Group(a, b, c)) == [a, b, c]
  {
    var g := Group(a, b, c);
    GroupValue(a, b, c);
    BlockIs(g, a, b, c);
    NoPads(g);
  }

  // Replacing a letter that stands for 0 by padding keeps the value.
  lemma {:induction false} PaddedGroupDecodes(a: byte, b: byte)
    ensures Block(Group(a, b, 0)[..3] + [PAD]) == [a, b]
    ensures Block(Group(a, 0, 0)[..2] + [PAD, PAD]) == [a]
  {
    ZeroLetters(a, b);
    GroupValue(a, b, 0);
    GroupValue(a, 0, 0);
    hide *;
    var g, h := Group(a, b, 0), Group(a, 0, 0);
    var p, q := g[..3] + [PAD], h[..2] + [PAD, PAD];
    PadForZero(g, 3);
    PadForZero(h, 2);
    BlockIs(p, a, b, 0);
    BlockIs(q, a, 0, 0);
    PadsOfFour(p);
    PadsOfFour(q);
  }

  lemma {:induction false} ZeroLetters(a: byte, b: byte)
    ensures Group(a, b, 0)[3] == Letter(0)
    ensures Group(a, 0, 0)[2] == Group(a, 0, 0)[3] == Letter(0)
  {
  }

  lemma {:induction false} PadForZero(g: seq<byte>, k: nat)
    requires |g| == 4 && 2 <= k <= 3 && forall i :: k <= i < 4 ==> g[i] == Letter(0)
    ensures BlockValue(g[..k] + seq(4 - k, _ => PAD)) == BlockValue(g)
    ensures g[..2] + [PAD, PAD] == g[..2] + seq(2, _ => PAD) && g[..3] + [PAD] == g[..3] + seq(1, _ => PAD)
  {
    LetterDigit(0);
  }

  // Decoding an encoding gives the bytes back, and an encoding is accepted
  // text without white space.
  lemma {:induction false} EncodingDecodes(b: seq<byte>)
    ensures Decoding(Encoding(b)) == b
    ensures WellFormed(Encoding(b))
    ensures Significant(Encoding(b)) == Encoding(b)
  {
    DecodesBack(b);
    EncodingPadding(b);
    EncodingLetters(b);
    PlainTextAccepted(Encoding(b));
  }

  lemma {:induction false} PlainTextAccepted(s: seq<byte>)
    requires forall i :: 0 <= i < |s| ==> Digit(s[i]) != INVALID
    requires PaddedAtEnd(s)
    ensures WellFormed(s)
    ensures Significant(s) == s
  {
    NothingBlank(s);
    NoSpaces(s);
  }

  lemma {:induction false} DecodingStep(head: seq<byte>, tail: seq<byte>)
    requires |head| == 4
    ensures Decoding(head + tail) == Block(head) + Decoding(tail)
  {
    assert (head + tail)[..4] == head;
    assert (head + tail)[4..] == tail;
  }

  lemma {:induction false} DecodesBack(b: seq<byte>)
    ensures Decoding(Encoding(b)) == b
  {
    if |b| == 1 || |b| == 2 {
      ShortDecodesBack(b);
    } else if |b| >= 3 {
      var g, e := Group(b[0], b[1], b[2]), Encoding(b[3..]);
      assert Encoding(b) == g + e;
      hide *;
      DecodesBack(b[3..]);
      GroupDecodes(b[0], b[1], b[2]);
      DecodingStep(g, e);
      assert b == [b[0], b[1], b[2]] + b[3..];
    }
  }

  lemma {:induction false} ShortDecodesBack(b: seq<byte>)
    requires |b| == 1 || |b| == 2
    ensures Decoding(Encoding(b)) == b
  {
    var e := Encoding(b);
    PaddedGroupDecodes(b[0], if |b| == 2 then b[1] else 0);
    DecodingStep(e, []);
    assert e + [] == e && Decoding([]) == [];
  }

  lemma {:induction false} EncodingLetters(b: seq<byte>)
    ensures forall i :: 0 <= i < |Encoding(b)| ==> Digit(Encoding(b)[i]) != INVALID
  {
    if |b| >= 3 {
      EncodingLetters(b[3..]);
    }
  }

  lemma {:induction false} EncodingPadding(b: seq<byte>)
    ensures PaddedAtEnd(Encoding(b))
  {
    if |b| >= 3 {
      EncodingPadding(b[3..]);
      var g, e := Group(b[0], b[1], b[2]), Encoding(b[3..]);
      assert forall i :: 0 <= i < 4 ==> g[i] != PAD;
      assert Encoding(b) == g + e;
      assert forall i :: 4 <= i < 4 + |e| ==> (g + e)[i] == e[i - 4];
      if |e| > 0 {
        assert |e| >= 4;
      }
    }
  }

  lemma {:induction false} NoSpaces(s: seq<byte>)
    requires forall i :: 0 <= i < |s| ==> s[i] != SPACE
    ensures forall i :: 0 <= i < |s| ==> SpacesBefore(s, i) == 0
  {
  }

  // The vectors of section 10 of RFC 4648 for "foob", "fooba" and "foobar".
  lemma {:induction false} KnownAnswers()
    ensures Encoding([102, 111, 111, 98]) == [90, 109, 57, 118, 89, 103, 61, 61]
    ensures Encoding([102, 111, 111, 98, 97]) == [90, 109, 57, 118, 89, 109, 69, 61]
    ensures Encoding([102, 111, 111, 98, 97, 114]) == [90, 109, 57, 118, 89, 109, 70, 121]
  {
    assert Encoding([102, 111, 111]) == [90, 109, 57, 118] by {
      EncodingOfThree(102, 111, 111);
    }
    EncodingStep([102, 111, 111], [98]);
    EncodingStep([102, 111, 111], [98, 97]);
    EncodingStep([102, 111, 111], [98, 97, 114]);
    EncodingOfThree(98, 97, 114);
    assert [102, 111, 111] + [98] == [102, 111, 111, 98];
    assert [102, 111, 111] + [98, 97] == [102, 111, 111, 98, 97];
    assert [102, 111, 111] + [98, 97, 114] == [102, 111, 111, 98, 97, 114];
  }

  // The whole alphabet, in the order of table 1 of RFC 4648.
  lemma {:induction false} Alphabet(v: nat)
    requires v < 64
    ensures Encoding([4 * v, 0, 0])[0]
         == if v < 26 then 'A' as int + v
            else if v < 52 then 'a' as int + (v - 26)
            else if v < 62 then '0' as int + (v - 52)
            else if v == 62 then '+' as int else '/' as int
  {
    EncodingOfThree(4 * v, 0, 0);
    hide Encoding;
    assert 4 * v / 4 == v;
  }

  // ---------- size bound ----------

  // For 4k + r significant characters, j of them padding: the rearranged size
  // formula is (6n + 7) / 8 - j = 3k + r - j without underflow, the bytes
  // written are 3k - max(0, j - r), never more, and equal exactly when r <= j.
  lemma {:induction false} SizeBound(s: seq<byte>)
    requires PaddedAtEnd(s)
    ensures
      var k, r, j := |s| / 4, |s| % 4, Pads(s);
      && Announced(|s|, j) == (6 * |s| + 7) / 8 - j == 3 * k + r - j >= 0
      && |Decoding(s)| == 3 * k - (if j > r then j - r else 0) <= Announced(|s|, j)
      && (|Decoding(s)| == Announced(|s|, j) <==> r <= j)
  {
    DecodingLength(s);
    PadsAtEnd(s);
    var n := |s|;
    assert n == 8 * (n / 8) + n % 8;
  }

  lemma {:induction false} DecodingLength(s: seq<byte>)
    requires PaddedAtEnd(s)
    ensures |Decoding(s)| == 3 * (|s| / 4) - (if Pads(s) > |s| % 4 then Pads(s) - |s| % 4 else 0)
    decreases |s|
  {
    PadsAtEnd(s);
    if |s| >= 4 {
      DropBlock(s);
      PadsAtEnd(s[4..]);
      DecodingLength(s[4..]);
      assert |Decoding(s)| == 3 - Pads(s[..4]) + |Decoding(s[4..])|;
      assert |s| / 4 == |s[4..]| / 4 + 1 && |s| % 4 == |s[4..]| % 4;
    } else {
      assert |s| / 4 == 0 && |s| % 4 == |s|;
    }
  }

  // ---------- white space ----------

  lemma {:induction false} SignificantCharacters(s: seq<byte>, n: nat)
    requires n <= |s|
    requires forall i :: 0 <= i < |s| ==> CharacterOk(s, i)
    ensures forall i :: 0 <= i < |Significant(s[..n])| ==> Digit(Significant(s[..n])[i]) != INVALID
  {
    if n > 0 {
      SignificantCharacters(s, n - 1);
      assert s[..n][..n - 1] == s[..n - 1];
      assert CharacterOk(s, n - 1);
    }
  }

  // Removing every space, CR and LF from accepted text leaves accepted text
  // that stands for the same bytes.
  lemma {:induction false} WhiteSpaceIrrelevant(s: seq<byte>)
    requires WellFormed(s)
    ensures WellFormed(Significant(s))
    ensures Decoding(Significant(Significant(s))) == Decoding(Significant(s))
  {
    var r := Significant(s);
    SignificantCharacters(s, |s|);
    assert s[..|s|] == s;
    NothingBlank(r);
    NoSpaces(r);
  }

  // In accepted text a character that carries data follows a space only at the
  // end of a run of at least 2^32 spaces.
  lemma {:induction false} SpaceInsideLineRefused(s: seq<byte>, i: nat)
    requires WellFormed(s) && 0 < i < |s| && !LineBreakOrSpace(s, i)
    ensures s[i - 1] == SPACE ==> i >= TWO32 && forall j :: i - TWO32 <= j < i ==> s[j] == SPACE
  {
    assert CharacterOk(s, i);
    SpacesAre(s, i);
  }

  lemma {:induction false} SpacesAre(s: seq<byte>, i: nat)
    requires i <= |s|
    ensures SpacesBefore(s, i) <= i && forall j :: i - SpacesBefore(s, i) <= j < i ==> s[j] == SPACE
  {
    if i > 0 && s[i - 1] == SPACE {
      SpacesAre(s, i - 1);
    }
  }

  function Spaces(n: nat): (s: seq<byte>)
    ensures |s| == n
  {
    seq(n, _ => SPACE)
  }

  lemma {:induction false} SpacesBeforePrefix(a: seq<byte>, b: seq<byte>, i: nat)
    requires i <= |a|
    ensures SpacesBefore(a + b, i) == SpacesBefore(a, i)
  {
    if i > 0 {
      SpacesBeforePrefix(a, b, i - 1);
    }
  }

  lemma {:induction false} SpacesBeforeSuffix(a: seq<byte>, b: seq<byte>, j: nat)
    requires 0 < j <= |b| && b[0] != SPACE
    ensures SpacesBefore(a + b, |a| + j) == SpacesBefore(b, j)
  {
    if j > 1 {
      SpacesBeforeSuffix(a, b, j - 1);
    }
  }

  lemma {:induction false} SpacesCounted(a: seq<byte>, n: nat)
    requires a == [] || a[|a| - 1] != SPACE
    ensures SpacesBefore(a + Spaces(n), |a| + n) == n
  {
    if n > 0 {
      SpacesCounted(a, n - 1);
      assert a + Spaces(n) == a + Spaces(n - 1) + [SPACE];
      SpacesBeforePrefix(a + Spaces(n - 1), [SPACE], |a| + n - 1);
    }
  }

  // What comes after the first data character of b does not depend on what is
  // in front of it.
  lemma {:induction false} CharacterOkSuffix(a: seq<byte>, b: seq<byte>, j: nat)
    requires 0 < j < |b| && b[0] != SPACE
    ensures CharacterOk(a + b, |a| + j) <==> CharacterOk(b, j)
  {
    SpacesBeforeSuffix(a, b, j);
  }

  lemma {:induction false} CharacterOkPrefix(a: seq<byte>, b: seq<byte>, i: nat)
    requires i < |a| && b != [] && b[0] != LF
    ensures CharacterOk(a + b, i) <==> CharacterOk(a, i)
  {
    SpacesBeforePrefix(a, b, i);
  }

  lemma {:induction false} SpacesVanish(n: nat)
    ensures Significant(Spaces(n)) == []
  {
    if n > 0 {
      SpacesVanish(n - 1);
      SignificantIs(Spaces(n - 1), SPACE);
      assert Spaces(n) == Spaces(n - 1) + [SPACE];
      hide Significant;
    }
  }

  // Spaces put in front of a data character of a text make it unacceptable,
  // unless their number is a multiple of 2^32: then the text is accepted as if
  // they were not there.
  lemma {:induction false} SpacesInsideLineIff(a: seq<byte>, n: nat, b: seq<byte>)
    requires (a == [] || a[|a| - 1] != SPACE) && b != [] && !Blank(b[0])
    ensures WellFormed(a + Spaces(n) + b) <==> WellFormed(a + b) && n % TWO32 == 0
    ensures Significant(a + Spaces(n) + b) == Significant(a + b)
  {
    var m := a + Spaces(n);
    hide Significant, CharacterOk, SpacesBefore, PaddedAtEnd;
    SignificantConcat(m, b);
    SignificantConcat(a, Spaces(n));
    SignificantConcat(a, b);
    SpacesVanish(n);
    assert Significant(a) + [] == Significant(a);
    CharactersOkIff(m, b);
    CharactersOkIff(a, b);
    SpacesCounted(a, n);
    SpacesCounted(a, 0);
    assert a + Spaces(0) == a;
    SpacesOk(a, n);
  }

  lemma {:induction false} SpacesOk(a: seq<byte>, n: nat)
    ensures (forall i :: 0 <= i < |a + Spaces(n)| ==> CharacterOk(a + Spaces(n), i))
            <==> forall i :: 0 <= i < |a| ==> CharacterOk(a, i)
  {
    var m := a + Spaces(n);
    if n == 0 {
      assert m == a;
    } else {
      forall i | 0 <= i < |a| ensures CharacterOk(m, i) <==> CharacterOk(a, i) {
        CharacterOkPrefix(a, Spaces(n), i);
      }
      assert forall i :: |a| <= i < |m| ==> m[i] == SPACE && CharacterOk(m, i);
    }
  }

  // A text is checked part by part at a data character.
  lemma {:induction false} CharactersOkIff(a: seq<byte>, b: seq<byte>)
    requires b != [] && !Blank(b[0])
    ensures (forall i :: 0 <= i < |a + b| ==> CharacterOk(a + b, i))
            <==> (forall i :: 0 <= i < |a| ==> CharacterOk(a, i))
                 && SpacesBefore(a, |a|) % TWO32 == 0 && forall j :: 0 <= j < |b| ==> CharacterOk(b, j)
  {
    forall i | 0 <= i < |a| ensures CharacterOk(a + b, i) <==> CharacterOk(a, i) {
      CharacterOkPrefix(a, b, i);
    }
    forall j | 0 < j < |b| ensures CharacterOk(a + b, |a| + j) <==> CharacterOk(b, j) {
      CharacterOkSuffix(a, b, j);
    }
    SpacesBeforePrefix(a, b, |a|);
    assert CharacterOk(a + b, |a|) <==> SpacesBefore(a, |a|) % TWO32 == 0 && CharacterOk(b, 0);
    hide CharacterOk, SpacesBefore;
    if forall i :: 0 <= i < |a + b| ==> CharacterOk(a + b, i) {
      forall j | 0 <= j < |b| ensures CharacterOk(b, j) {
        assert CharacterOk(a + b, |a| + j);
      }
    } else {
      var i :| 0 <= i < |a + b| && !CharacterOk(a + b, i);
      if i > |a| {
        CharacterOkSuffix(a, b, i - |a|);
      }
    }
  }

  // So a block with n spaces inside is accepted for n = 2^32, as it is for n = 0.
  lemma {:induction false} SpacedBlockIff(n: nat)
    ensures WellFormed([65] + Spaces(n) + [65, 65, 65]) <==> n % TWO32 == 0
  {
    SpacesInsideLineIff([65], n, [65, 65, 65]);
    assert [65] + [65, 65, 65] == [65, 65, 65, 65];
    NothingBlank([65, 65, 65, 65]);
    assert forall i :: 0 <= i < 4 ==> CharacterOk([65, 65, 65, 65], i);
  }

  // ---------- acceptance, on the bytes ----------

  // What counts of a text: all but spaces and line ends, in order.
  lemma {:induction false} SignificantIs(a: seq<byte>, c: byte)
    ensures Significant([]) == []
    ensures Significant(a + [c]) == Significant(a) + (if c == 32 || c == 10 || c == 13 then [] else [c])
  {
    assert (a + [c])[..|a|] == a;
  }

  ghost predicate PadsLast(s: seq<byte>) {
    && Pads(s) <= 2
    && forall i, j :: 0 <= i < j < |s| && s[i] == PAD ==> s[j] == PAD || Blank(s[j])
  }

  lemma {:induction false} PaddedAtEndIff(s: seq<byte>)
    requires forall i :: 0 <= i < |s| ==> !Blank(s[i])
    ensures PaddedAtEnd(s) <==> PadsLast(s)
  {
    if PaddedAtEnd(s) {
      PadsAtEnd(s);
    }
    if PadsLast(s) && |s| > 2 {
      forall i | 0 <= i < |s| - 2 ensures s[i] != PAD {
        if s[i] == PAD {
          var t := s[i..];
          assert s == s[..i] + t;
          PadsConcat(s[..i], t);
          OnlyPads(t);
        }
      }
    }
  }

  lemma {:induction false} OnlyPads(s: seq<byte>)
    requires forall i :: 0 <= i < |s| ==> s[i] == PAD
    ensures Pads(s) == |s|
  {
    if s != [] {
      OnlyPads(s[..|s| - 1]);
    }
  }

  lemma {:induction false} PadsIs(s: seq<byte>)
    ensures Pads(s) == multiset(s)[PAD]
    ensures Pads(s) == 0 <==> forall i :: 0 <= i < |s| ==> s[i] != PAD
  {
    if s != [] {
      PadsIs(s[..|s| - 1]);
      assert s == s[..|s| - 1] + [s[|s| - 1]];
    }
  }

  lemma {:induction false} PadsLastSnoc(r: seq<byte>, c: byte)
    ensures Pads(r + [c]) == Pads(r) + (if c == PAD then 1 else 0)
    ensures PadsLast(r + [c])
            <==> PadsLast(r) && if c == PAD then Pads(r) <= 1 else Blank(c) || Pads(r) == 0
  {
    var s := r + [c];
    PadsIs(r);
    assert s[..|r|] == r;
    assert s[|r|] == c && forall i :: 0 <= i < |r| ==> s[i] == r[i];
  }

  // White space makes no difference to where the padding stands.
  lemma {:induction false} PadsLastSignificant(s: seq<byte>)
    ensures Pads(Significant(s)) == Pads(s)
    ensures PadsLast(s) <==> PadsLast(Significant(s))
  {
    if s != [] {
      var r, c := s[..|s| - 1], s[|s| - 1];
      assert s == r + [c];
      SignificantIs(r, c);
      assert Significant(r) + [] == Significant(r);
      PadsLastSignificant(r);
      PadsLastSnoc(r, c);
      PadsLastSnoc(Significant(r), c);
      hide Significant, Pads, PadsLast;
    }
  }

  lemma {:induction false} CharacterOkIff(s: seq<byte>, i: nat)
    requires i < |s|
    ensures CharacterOk(s, i)
            <==> && (s[i] == 13 ==> i + 1 < |s| && s[i + 1] == 10)
                 && (s[i] != 32 && s[i] != 10 && s[i] != 13 ==>
                       && (65 <= s[i] <= 90 || 97 <= s[i] <= 122 || 48 <= s[i] <= 57
                           || s[i] == 43 || s[i] == 47 || s[i] == 61)
                       && SpacesBefore(s, i) % 0x1_0000_0000 == 0)
  {
  }

  lemma {:induction false} CharactersIff(s: seq<byte>)
    ensures (forall i :: 0 <= i < |s| ==> CharacterOk(s, i))
            <==> && (forall i :: 0 <= i < |s| && s[i] == 13 ==> i + 1 < |s| && s[i + 1] == 10)
                 && (forall i :: 0 <= i < |s| && s[i] != 32 && s[i] != 10 && s[i] != 13 ==>
                       && (65 <= s[i] <= 90 || 97 <= s[i] <= 122 || 48 <= s[i] <= 57
                           || s[i] == 43 || s[i] == 47 || s[i] == 61)
                       && SpacesBefore(s, i) % 0x1_0000_0000 == 0)
  {
    if i :| 0 <= i < |s| && !CharacterOk(s, i) {
      CharacterOkIff(s, i);
      hide CharacterOk, SpacesBefore;
    } else {
      hide SpacesBefore;
      forall i | 0 <= i < |s| && s[i] == 13 ensures i + 1 < |s| && s[i + 1] == 10 {
        CharacterOkIff(s, i);
      }
      forall i | 0 <= i < |s| && s[i] != 32 && s[i] != 10 && s[i] != 13
        ensures 65 <= s[i] <= 90 || 97 <= s[i] <= 122 || 48 <= s[i] <= 57 || s[i] == 43 || s[i] == 47 || s[i] == 61
        ensures SpacesBefore(s, i) % 0x1_0000_0000 == 0
      {
        CharacterOkIff(s, i);
      }
    }
  }

  lemma {:induction false} PadsLastIff(s: seq<byte>)
    ensures PadsLast(s)
            <==> multiset(s)[61] <= 2 && forall i, j :: 0 <= i < j < |s| && s[i] == 61 ==> s[j] in [61, 32, 10, 13]
  {
    PadsIs(s);
    hide Pads;
  }

  // Which texts are accepted: those of letters, digits, '+', '/', '=', spaces
  // and line ends in which every CR is directly followed by LF, a character that
  // is not white space follows a number of spaces that is 0 modulo 2^32, and '='
  // occurs at most twice, with nothing but white space and '=' behind it.
  lemma {:induction false} AcceptedIff(s: seq<byte>)
    ensures WellFormed(s)
            <==> && (forall i :: 0 <= i < |s| && s[i] == 13 ==> i + 1 < |s| && s[i + 1] == 10)
                 && (forall i :: 0 <= i < |s| && s[i] != 32 && s[i] != 10 && s[i] != 13 ==>
                       && (65 <= s[i] <= 90 || 97 <= s[i] <= 122 || 48 <= s[i] <= 57
                           || s[i] == 43 || s[i] == 47 || s[i] == 61)
                       && SpacesBefore(s, i) % 0x1_0000_0000 == 0)
                 && multiset(s)[61] <= 2
                 && (forall i, j :: 0 <= i < j < |s| && s[i] == 61 ==> s[j] in [61, 32, 10, 13])
  {
    PadsLastSignificant(s);
    PaddedAtEndIff(Significant(s));
    PadsLastIff(s);
    CharactersIff(s);
    hide Significant, PadsLast, SpacesBefore, PaddedAtEnd, CharacterOk;
  }

  // A CR put anywhere into a text is accepted exactly in front of a LF, if it
  // does not come behind another CR and the text was accepted without it.
  lemma {:induction false} CarriageReturnIff(a: seq<byte>, b: seq<byte>)
    ensures WellFormed(a + [13] + b)
            <==> b != [] && b[0] == 10 && (a != [] ==> a[|a| - 1] != 13) && WellFormed(a + b)
  {
    if b != [] && b[0] == LF && (a != [] ==> a[|a| - 1] != CR) {
      CarriageReturnKept(a, b);
    } else {
      var s := a + [CR] + b;
      CharactersIff(s);
      hide CharacterOk, SpacesBefore, PaddedAtEnd, Significant;
      assert s[|a|] == 13 && (b != [] ==> s[|a| + 1] == b[0]);
      assert a != [] && a[|a| - 1] == CR ==> s[|a| - 1] == 13;
    }
  }

  lemma {:induction false} CarriageReturnKept(a: seq<byte>, b: seq<byte>)
    requires b != [] && b[0] == LF && (a != [] ==> a[|a| - 1] != CR)
    ensures WellFormed(a + [CR] + b) <==> WellFormed(a + b)
  {
    var s, t := a + [CR] + b, a + b;
    CarriageReturnSkipped(a, b);
    assert s == a + ([CR] + b);
    forall i | 0 <= i < |a| ensures CharacterOk(s, i) <==> CharacterOk(t, i) {
      CharacterAhead(a, [CR] + b, b, i);
    }
    forall i | |a| < i < |t| ensures CharacterOk(s, i + 1) <==> CharacterOk(t, i) {
      CharacterOkSuffix(a + [CR], b, i - |a|);
      CharacterOkSuffix(a, b, i - |a|);
    }
    assert CharacterOk(s, |a|) && CharacterOk(s, |a| + 1) && CharacterOk(t, |a|) by {
      assert s[|a|] == CR && s[|a| + 1] == LF && t[|a|] == LF;
    }
    hide Significant, SpacesBefore, PaddedAtEnd, CharacterOk;
    ShiftedOk(s, t, |a|);
  }

  lemma {:induction false} CarriageReturnSkipped(a: seq<byte>, b: seq<byte>)
    ensures Significant(a + [CR] + b) == Significant(a + b)
  {
    SignificantConcat(a + [CR], b);
    SignificantConcat(a, b);
    SignificantIs(a, CR);
    assert Significant(a) + [] == Significant(a);
  }

  // What a character that is not CR is followed by does not matter.
  lemma {:induction false} CharacterAhead(a: seq<byte>, b: seq<byte>, c: seq<byte>, i: nat)
    requires i < |a| && (i == |a| - 1 ==> a[i] != CR)
    ensures CharacterOk(a + b, i) <==> CharacterOk(a + c, i)
  {
    SpacesBeforePrefix(a, b, i);
    SpacesBeforePrefix(a, c, i);
  }

  lemma {:induction false} ShiftedOk(s: seq<byte>, t: seq<byte>, k: nat)
    requires |s| == |t| + 1 && k < |t|
    requires forall i :: 0 <= i < k ==> (CharacterOk(s, i) <==> CharacterOk(t, i))
    requires CharacterOk(s, k) && CharacterOk(s, k + 1) && CharacterOk(t, k)
    requires forall i :: k < i < |t| ==> (CharacterOk(s, i + 1) <==> CharacterOk(t, i))
    ensures (forall i :: 0 <= i < |s| ==> CharacterOk(s, i)) <==> forall i :: 0 <= i < |t| ==> CharacterOk(t, i)
  {
    hide CharacterOk;
    if forall i :: 0 <= i < |t| ==> CharacterOk(t, i) {
      forall i | 0 <= i < |s| ensures CharacterOk(s, i) {
        if i > k + 1 {
          assert CharacterOk(t, i - 1) <==> CharacterOk(s, i - 1 + 1);
        }
      }
    }
  }

  // So one line with a bare CR at its end is refused, and with CR LF accepted.
  lemma {:induction false} BareCarriageReturn()
    ensures !WellFormed([81, 85, 74, 68, 13]) && WellFormed([81, 85, 74, 68, 13, 10])
  {
    var letters: seq<byte> := [81, 85, 74, 68];
    CarriageReturnIff(letters, []);
    CarriageReturnIff(letters, [10]);
    assert letters + [13] + [] == [81, 85, 74, 68, 13];
    assert letters + [13] + [10] == [81, 85, 74, 68, 13, 10];
    SignificantIs(letters, 10);
    NothingBlank(letters);
    assert letters + [] == letters;
    var s := letters + [10];
    assert forall i :: 0 <= i < |s| ==> CharacterOk(s, i);
    hide *;
  }

  // ---------- round trip from text ----------

  // The bits of the last letter that no decoded byte uses.
  predicate UnusedBitsZero(s: seq<byte>) {
    && (|s| >= 2 && Pads(s) == 1 ==> Sextet(s[|s| - 2]) % 4 == 0)
    && (|s| >= 3 && Pads(s) == 2 ==> Sextet(s[|s| - 3]) % 16 == 0)
  }

  predicate Canonical(s: seq<byte>) {
    (forall i :: 0 <= i < |s| ==> !Blank(s[i])) && |s| % 4 == 0 && UnusedBitsZero(s)
  }

  // Accepted text is reproduced by encoding what it decodes to exactly when it
  // has no white space, whole blocks and zero unused bits.
  lemma {:induction false} DecodingEncodes(s: seq<byte>)
    requires WellFormed(s)
    ensures Encoding(Decoding(Significant(s))) == s <==> Canonical(s)
  {
    if Canonical(s) {
      NothingBlank(s);
      SignificantCharacters(s, |s|);
      assert s[..|s|] == s;
      CanonicalEncodes(s);
    }
    if Encoding(Decoding(Significant(s))) == s {
      EncodingCanonical(Decoding(Significant(s)));
    }
  }

  lemma {:induction false} LettersBack(s: seq<byte>, a: byte, b: byte, c: byte)
    requires |s| == 4 && BlockValue(s) == a * 0x1_0000 + b * 0x100 + c
    ensures a / 4 == Sextet(s[0]) && a % 4 * 16 + b / 16 == Sextet(s[1])
    ensures b % 16 * 4 + c / 64 == Sextet(s[2]) && c % 64 == Sextet(s[3])
  {
    BytesToSextets(a, b, c);
    SextetsUnique(Sextet(s[0]), Sextet(s[1]), Sextet(s[2]), Sextet(s[3]),
                  a / 4, a % 4 * 16 + b / 16, b % 16 * 4 + c / 64, c % 64);
  }

  lemma {:induction false} SextetsUnique(a: nat, b: nat, c: nat, d: nat, a': nat, b': nat, c': nat, d': nat)
    requires b < 64 && c < 64 && d < 64 && b' < 64 && c' < 64 && d' < 64
    requires a * 0x4_0000 + b * 0x1000 + c * 0x40 + d == a' * 0x4_0000 + b' * 0x1000 + c' * 0x40 + d'
    ensures a == a' && b == b' && c == c' && d == d'
  {
  }

  lemma {:induction false} LetterOfSextet(c: byte)
    requires Digit(c) != INVALID
    ensures c != PAD ==> Letter(Sextet(c)) == c
    ensures c == PAD ==> Sextet(c) == 0
  {
    if c != PAD {
      DigitLetter(c);
    }
  }

  lemma {:induction false} BlockEncodes(s: seq<byte>)
    requires |s| == 4 && PaddedAtEnd(s) && UnusedBitsZero(s)
    requires forall i :: 0 <= i < 4 ==> Digit(s[i]) != INVALID
    ensures Encoding(Block(s)) == s
  {
    PadsOfFour(s);
    PadsAtEnd(s);
    var a, b, c, d := Sextet(s[0]), Sextet(s[1]), Sextet(s[2]), Sextet(s[3]);
    var x, y, z := a * 4 + b / 16, b % 16 * 16 + c / 4, c % 4 * 64 + d;
    SextetsToBytes(a, b, c, d);
    BlockIs(s, x, y, z);
    LettersBack(s, x, y, z);
    LetterOfSextet(s[0]);
    LetterOfSextet(s[1]);
    LetterOfSextet(s[2]);
    LetterOfSextet(s[3]);
    if Pads(s) == 0 {
      EncodingOfThree(x, y, z);
    } else if Pads(s) == 1 {
      assert z == 0;
    } else {
      assert y == 0 && z == 0;
    }
  }

  lemma {:induction false} EncodingOfThree(x: byte, y: byte, z: byte)
    ensures Encoding([x, y, z]) == Group(x, y, z)
  {
    assert [x, y, z][3..] == [];
    assert Encoding([x, y, z]) == Group(x, y, z) + Encoding([]);
  }

  lemma {:induction false} EncodingStep(g: seq<byte>, b: seq<byte>)
    requires |g| == 3
    ensures Encoding(g + b) == Encoding(g) + Encoding(b)
  {
    EncodingOfThree(g[0], g[1], g[2]);
    assert g == [g[0], g[1], g[2]];
    assert (g + b)[3..] == b;
  }

  ghost predicate Clean(s: seq<byte>) {
    && PaddedAtEnd(s) && |s| % 4 == 0 && UnusedBitsZero(s)
    && forall i :: 0 <= i < |s| ==> Digit(s[i]) != INVALID
  }

  lemma {:induction false} CleanParts(s: seq<byte>)
    requires Clean(s) && |s| > 4
    ensures Clean(s[..4]) && Clean(s[4..]) && Pads(s[..4]) == 0
  {
    assert |s| >= 8;
    DropBlock(s);
    var tail := s[4..];
    assert tail[|tail| - 2] == s[|s| - 2] && tail[|tail| - 3] == s[|s| - 3];
  }

  lemma {:induction false} CanonicalEncodes(s: seq<byte>)
    requires Clean(s)
    ensures Encoding(Decoding(s)) == s
    decreases |s|
  {
    if |s| == 4 {
      DecodingStep(s, []);
      assert s + [] == s;
      BlockEncodes(s);
    } else if |s| > 4 {
      var head, tail := s[..4], s[4..];
      CleanParts(s);
      BlockEncodes(head);
      CanonicalEncodes(tail);
      EncodingStep(Block(head), Decoding(tail));
      assert s == head + tail;
    }
  }

  lemma {:induction false} EncodingCanonical(b: seq<byte>)
    ensures Canonical(Encoding(b))
  {
    EncodingLetters(b);
    EncodingUnusedBits(b);
  }

  lemma {:induction false} EncodingUnusedBits(b: seq<byte>)
    ensures UnusedBitsZero(Encoding(b))
  {
    var e := Encoding(b);
    if |b| == 1 || |b| == 2 {
      ShortUnusedBits(b);
    } else if |b| >= 3 {
      var g, t := Group(b[0], b[1], b[2]), Encoding(b[3..]);
      EncodingUnusedBits(b[3..]);
      GroupValue(b[0], b[1], b[2]);
      NoPads(g);
      PadsConcat(g, t);
      if |t| > 0 {
        assert |t| >= 4;
        assert e[|e| - 2] == t[|t| - 2] && e[|e| - 3] == t[|t| - 3];
      } else {
        assert e == g + t == g;
      }
    }
  }

  lemma {:induction false} ShortUnusedBits(b: seq<byte>)
    requires |b| == 1 || |b| == 2
    ensures UnusedBitsZero(Encoding(b))
  {
    if |b| == 1 {
      PaddedLetters(Group(b[0], 0, 0), 2, b[0] % 4);
    } else {
      PaddedLetters(Group(b[0], b[1], 0), 3, b[1] % 16);
    }
  }

  // The letter before the padding stands for v shifted left by the unused bits.
  lemma {:induction false} PaddedLetters(g: seq<byte>, k: nat, v: nat)
    requires |g| == 4 && 2 <= k <= 3 && forall i :: 0 <= i < k ==> g[i] != PAD
    requires k == 2 ==> v < 4 && g[1] == Letter(v * 16)
    requires k == 3 ==> v < 16 && g[2] == Letter(v * 4)
    ensures k == 2 ==> UnusedBitsZero(g[..2] + [PAD, PAD])
    ensures k == 3 ==> UnusedBitsZero(g[..3] + [PAD])
  {
    if k == 2 {
      PadsOfFour(g[..2] + [PAD, PAD]);
      LetterDigit(v * 16);
    } else {
      PadsOfFour(g[..3] + [PAD]);
      LetterDigit(v * 4);
    }
    hide Pads, Letter, Digit;
  }
}
