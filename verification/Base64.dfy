/** The base64 codec: section 4 of RFC 4648 for the encoding, section 3.5 for canonical input. */
module Base64 {
  import opened Words

  datatype Status = ERROR_SUCCESS | ERROR_INSUFFICIENT_BUFFER | ERROR_BUFFER_OVERFLOW | ERROR_INVALID_PARAMETER

  const PAD: WChar := 61
  const NA: Byte := 255

  /** The longest input whose encoded size fits in 32 bits. */
  const MAX_ENCODED_INPUT: nat := 0xC000_0000 - 3

  // ----- The alphabet

  /** rgchEncodeTable */
  function Letter(x: int): (c: WChar)
    requires 0 <= x < 64
    ensures c != PAD && c != 0
    ensures Value(c) == x
  {
    if x < 26 then 65 + x else if x < 52 then 71 + x else if x < 62 then x - 4 else if x == 62 then 43 else 47
  }

  /** rgbDecodeTable, extended by NA */
  function Value(c: WChar): (x: Byte)
    ensures x < 64 || x == NA
  {
    if 65 <= c <= 90 then c - 65 else if 97 <= c <= 122 then c - 71 else if 48 <= c <= 57 then c + 4
    else if c == 43 then 62 else if c == 47 then 63 else if c == PAD then 0 else NA
  }

  /** Apart from the padding character, letters and values determine each other. */
  lemma LetterOfValue(c: WChar)
    requires Value(c) != NA && c != PAD
    ensures Letter(Value(c)) == c
  {
  }

  // ----- The encoding as a rearrangement of bits

  function OctetAt(b: seq<Byte>, i: nat): Byte {
    if i < |b| then b[i] else 0
  }

  /** The 24 bits of three octets; what is missing at the end counts as zero. */
  function Group(b: seq<Byte>, g: nat): nat {
    OctetAt(b, 3 * g) * 0x1_0000 + OctetAt(b, 3 * g + 1) * 0x100 + OctetAt(b, 3 * g + 2)
  }

  /** The j-th of the four sextets of 24 bits. */
  function Sextet(group: nat, j: nat): (x: int)
    ensures 0 <= x < 64
  {
    if j == 0 then group / 0x4_0000 % 64
    else if j == 1 then group / 0x1000 % 64
    else if j == 2 then group / 64 % 64
    else group % 64
  }

  /** The j-th of the three octets of 24 bits. */
  function Octet(group: nat, j: nat): Byte {
    if j == 0 then group / 0x1_0000 % 0x100 else if j == 1 then group / 0x100 % 0x100 else group % 0x100
  }

  function EncodedSize(n: nat): nat {
    (n + 2) / 3 * 4
  }

  /** Character k stands for bits 6k to 6k + 5; a character that stands for no bit of b is padding. */
  function EncodedAt(b: seq<Byte>, k: nat): WChar {
    if 6 * k >= 8 * |b| then PAD else Letter(Sextet(Group(b, k / 4), k % 4))
  }

  function Encoded(b: seq<Byte>): (s: seq<WChar>) {
    seq(EncodedSize(|b|), k requires 0 <= k => EncodedAt(b, k))
  }

  /** The 24 bits of four characters. */
  function Cluster(s: seq<WChar>, g: nat): nat
    requires 4 * g + 3 < |s|
  {
    Value(s[4 * g]) * 0x4_0000 + Value(s[4 * g + 1]) * 0x1000 + Value(s[4 * g + 2]) * 64 + Value(s[4 * g + 3])
  }

  predicate WellSized(s: seq<WChar>) {
    s != [] && |s| % 4 == 0
  }

  function DecodedSize(s: seq<WChar>): (n: nat)
    requires WellSized(s)
    ensures |s| / 4 * 3 - 2 <= n <= |s| / 4 * 3 && n > 0
  {
    |s| / 4 * 3 - if s[|s| - 1] != PAD then 0 else if s[|s| - 2] == PAD then 2 else 1
  }

  function Decoded(s: seq<WChar>): (b: seq<Byte>)
    requires WellSized(s)
    ensures |b| == DecodedSize(s)
  {
    seq(DecodedSize(s), i requires 0 <= i < DecodedSize(s) => Octet(Cluster(s, i / 3), i % 3))
  }

  /** What Base64Decode accepts: `=` counts as a character of value 0 wherever it stands. */
  predicate Accepted(s: seq<WChar>) {
    WellSized(s) && forall k | 0 <= k < |s| :: Value(s[k]) != NA
  }

  /** `=` only where the final padding belongs, and no bits set behind the last octet. */
  predicate Canonical(s: seq<WChar>)
    requires Accepted(s)
  {
    && (forall k | 0 <= k < |s| :: s[k] == PAD ==> 6 * k >= 8 * DecodedSize(s))
    && (DecodedSize(s) % 3 == 1 ==> Value(s[|s| - 3]) % 16 == 0)
    && (DecodedSize(s) % 3 == 2 ==> Value(s[|s| - 2]) % 4 == 0)
  }

  // ----- The encoding as section 4 of RFC 4648 has it

  const UPPER: string := "ABCDEFGHIJKLMNOPQRSTUVWXYZ"
  const LOWER: string := "abcdefghijklmnopqrstuvwxyz"
  const DIGITS: string := "0123456789"
  const ALPHABET: string := UPPER + LOWER + DIGITS + "+/"

  lemma UpperAre()
    ensures |UPPER| == 26 && forall x | 0 <= x < 26 :: UPPER[x] as int == 65 + x
  {
  }

  lemma LowerAre()
    ensures |LOWER| == 26 && forall x | 0 <= x < 26 :: LOWER[x] as int == 97 + x
  {
  }

  lemma DigitsAre()
    ensures |DIGITS| == 10 && forall x | 0 <= x < 10 :: DIGITS[x] as int == 48 + x
  {
  }

  /** The encoding table is the alphabet of the section. */
  lemma LettersAre()
    ensures |ALPHABET| == 64
    ensures forall x | 0 <= x < 64 :: ALPHABET[x] as int == Letter(x)
  {
    UpperAre();
    LowerAre();
    DigitsAre();
    hide UPPER, LOWER, DIGITS;
  }

  /** c is character x of the alphabet. */
  predicate Spelt(c: WChar, x: nat) {
    x < |ALPHABET| && ALPHABET[x] as int == c
  }

  /** The decoding table gives each character of the alphabet its place there, the padding 0, and no other
      character a value. */
  lemma ValueIs(c: WChar)
    ensures forall x | Spelt(c, x) :: c != 61 && Value(c) == x
    ensures Value(c) != NA <==> c == 61 || exists x :: Spelt(c, x)
    ensures Value(61) == 0
  {
    LettersAre();
    if Value(c) != NA && c != 61 {
      LetterOfValue(c);
      assert Spelt(c, Value(c));
    }
  }

  lemma AcceptedIff(s: seq<WChar>)
    ensures Accepted(s) <==>
            s != [] && |s| % 4 == 0 && forall k | 0 <= k < |s| :: s[k] == 61 || exists x :: Spelt(s[k], x)
  {
    hide Value, Spelt;
    forall k | 0 <= k < |s| ensures Value(s[k]) != NA <==> s[k] == 61 || exists x :: Spelt(s[k], x) {
      ValueIs(s[k]);
    }
  }

  /** Bit n of x, counted from the lowest. */
  function BitOf(x: nat, n: nat): (bit: nat)
    ensures bit < 2
  {
    if n == 0 then x % 2 else BitOf(x / 2, n - 1)
  }

  /** Bit i of the text b, counted from the highest bit of the first byte; 0 behind the last byte. */
  function BitAt(b: seq<Byte>, i: nat): (bit: nat)
    ensures bit < 2
  {
    if i / 8 < |b| then BitOf(b[i / 8], 7 - i % 8) else 0
  }

  /** The number that bits i to i + 5 spell. */
  function SixBits(b: seq<Byte>, i: nat): (x: nat)
    ensures x < 64
  {
    32 * BitAt(b, i) + 16 * BitAt(b, i + 1) + 8 * BitAt(b, i + 2) + 4 * BitAt(b, i + 3) + 2 * BitAt(b, i + 4)
    + BitAt(b, i + 5)
  }

  lemma BitsOfByte(x: Byte)
    ensures x / 4 == 32 * BitOf(x, 7) + 16 * BitOf(x, 6) + 8 * BitOf(x, 5) + 4 * BitOf(x, 4) + 2 * BitOf(x, 3)
                     + BitOf(x, 2)
    ensures x % 4 == 2 * BitOf(x, 1) + BitOf(x, 0)
    ensures x / 16 == 8 * BitOf(x, 7) + 4 * BitOf(x, 6) + 2 * BitOf(x, 5) + BitOf(x, 4)
    ensures x % 16 == 8 * BitOf(x, 3) + 4 * BitOf(x, 2) + 2 * BitOf(x, 1) + BitOf(x, 0)
    ensures x / 64 == 2 * BitOf(x, 7) + BitOf(x, 6)
    ensures x % 64 == 32 * BitOf(x, 5) + 16 * BitOf(x, 4) + 8 * BitOf(x, 3) + 4 * BitOf(x, 2) + 2 * BitOf(x, 1)
                      + BitOf(x, 0)
  {
    SumOfBits(x);
    hide BitOf;
    Quotients(x, BitOf(x, 7), BitOf(x, 6), BitOf(x, 5), BitOf(x, 4), BitOf(x, 3), BitOf(x, 2), BitOf(x, 1),
              BitOf(x, 0));
  }

  lemma LastBit(x: nat)
    ensures x == 2 * (x / 2) + BitOf(x, 0)
  {
  }

  lemma NextBits(x: nat)
    ensures BitOf(x, 1) == BitOf(x / 2, 0) && BitOf(x, 2) == BitOf(x / 2, 1) && BitOf(x, 3) == BitOf(x / 2, 2)
    ensures BitOf(x, 4) == BitOf(x / 2, 3) && BitOf(x, 5) == BitOf(x / 2, 4) && BitOf(x, 6) == BitOf(x / 2, 5)
    ensures BitOf(x, 7) == BitOf(x / 2, 6)
  {
  }

  /** The lowest four bits, and the number without them. */
  lemma FourBits(x: nat) returns (y: nat)
    ensures x == 16 * y + 8 * BitOf(x, 3) + 4 * BitOf(x, 2) + 2 * BitOf(x, 1) + BitOf(x, 0)
    ensures BitOf(x, 4) == BitOf(y, 0) && BitOf(x, 5) == BitOf(y, 1)
    ensures BitOf(x, 6) == BitOf(y, 2) && BitOf(x, 7) == BitOf(y, 3)
  {
    hide BitOf;
    var x1 := x / 2;
    var x2 := x1 / 2;
    var x3 := x2 / 2;
    y := x3 / 2;
    LastBit(x);
    LastBit(x1);
    LastBit(x2);
    LastBit(x3);
    NextBits(x);
    NextBits(x1);
    NextBits(x2);
    NextBits(x3);
  }

  lemma SumOfBits(x: Byte)
    ensures x == 128 * BitOf(x, 7) + 64 * BitOf(x, 6) + 32 * BitOf(x, 5) + 16 * BitOf(x, 4) + 8 * BitOf(x, 3)
                 + 4 * BitOf(x, 2) + 2 * BitOf(x, 1) + BitOf(x, 0)
  {
    hide BitOf;
    var y := FourBits(x);
    var z := FourBits(y);
  }

  lemma Quotients(x: Byte, a7: nat, a6: nat, a5: nat, a4: nat, a3: nat, a2: nat, a1: nat, a0: nat)
    requires a7 < 2 && a6 < 2 && a5 < 2 && a4 < 2 && a3 < 2 && a2 < 2 && a1 < 2 && a0 < 2
    requires x == 128 * a7 + 64 * a6 + 32 * a5 + 16 * a4 + 8 * a3 + 4 * a2 + 2 * a1 + a0
    ensures x / 4 == 32 * a7 + 16 * a6 + 8 * a5 + 4 * a4 + 2 * a3 + a2 && x % 4 == 2 * a1 + a0
    ensures x / 16 == 8 * a7 + 4 * a6 + 2 * a5 + a4 && x % 16 == 8 * a3 + 4 * a2 + 2 * a1 + a0
    ensures x / 64 == 2 * a7 + a6 && x % 64 == 32 * a5 + 16 * a4 + 8 * a3 + 4 * a2 + 2 * a1 + a0
  {
    assert x == 4 * (32 * a7 + 16 * a6 + 8 * a5 + 4 * a4 + 2 * a3 + a2) + (2 * a1 + a0);
    assert x == 16 * (8 * a7 + 4 * a6 + 2 * a5 + a4) + (8 * a3 + 4 * a2 + 2 * a1 + a0);
    assert x == 64 * (2 * a7 + a6) + (32 * a5 + 16 * a4 + 8 * a3 + 4 * a2 + 2 * a1 + a0);
  }

  /** Where the bits of the three octets of a group stand. */
  lemma BitInGroup(b: seq<Byte>, g: nat, m: nat)
    requires m < 24
    ensures BitAt(b, 24 * g + m) ==
            if m < 8 then BitOf(OctetAt(b, 3 * g), 7 - m)
            else if m < 16 then BitOf(OctetAt(b, 3 * g + 1), 15 - m)
            else BitOf(OctetAt(b, 3 * g + 2), 23 - m)
  {
    hide BitOf;
    assert (24 * g + m) / 8 == 3 * g + m / 8 && (24 * g + m) % 8 == m % 8;
    ZeroBits();
  }

  lemma FirstSix(b: seq<Byte>, g: nat)
    ensures SixBits(b, 24 * g) == OctetAt(b, 3 * g) / 4
  {
    hide BitOf, BitAt, OctetAt;
    BitsOfByte(OctetAt(b, 3 * g));
    BitInGroup(b, g, 0); BitInGroup(b, g, 1); BitInGroup(b, g, 2);
    BitInGroup(b, g, 3); BitInGroup(b, g, 4); BitInGroup(b, g, 5);
  }

  lemma SecondSix(b: seq<Byte>, g: nat)
    ensures SixBits(b, 24 * g + 6) == OctetAt(b, 3 * g) % 4 * 16 + OctetAt(b, 3 * g + 1) / 16
  {
    hide BitOf, BitAt, OctetAt;
    BitsOfByte(OctetAt(b, 3 * g));
    BitsOfByte(OctetAt(b, 3 * g + 1));
    BitInGroup(b, g, 6); BitInGroup(b, g, 7); BitInGroup(b, g, 8);
    BitInGroup(b, g, 9); BitInGroup(b, g, 10); BitInGroup(b, g, 11);
  }

  lemma ThirdSix(b: seq<Byte>, g: nat)
    ensures SixBits(b, 24 * g + 12) == OctetAt(b, 3 * g + 1) % 16 * 4 + OctetAt(b, 3 * g + 2) / 64
  {
    hide BitOf, BitAt, OctetAt;
    BitsOfByte(OctetAt(b, 3 * g + 1));
    BitsOfByte(OctetAt(b, 3 * g + 2));
    BitInGroup(b, g, 12); BitInGroup(b, g, 13); BitInGroup(b, g, 14);
    BitInGroup(b, g, 15); BitInGroup(b, g, 16); BitInGroup(b, g, 17);
  }

  lemma FourthSix(b: seq<Byte>, g: nat)
    ensures SixBits(b, 24 * g + 18) == OctetAt(b, 3 * g + 2) % 64
  {
    hide BitOf, BitAt, OctetAt;
    BitsOfByte(OctetAt(b, 3 * g + 2));
    BitInGroup(b, g, 18); BitInGroup(b, g, 19); BitInGroup(b, g, 20);
    BitInGroup(b, g, 21); BitInGroup(b, g, 22); BitInGroup(b, g, 23);
  }

  /** Sextet j of a group is spelled by its bits from 6j on. */
  lemma SextetIsSixBits(b: seq<Byte>, g: nat, j: nat)
    requires j < 4
    ensures Sextet(Group(b, g), j) == SixBits(b, 24 * g + 6 * j)
  {
    hide Sextet, SixBits, OctetAt;
    SextetsOfOctets(OctetAt(b, 3 * g), OctetAt(b, 3 * g + 1), OctetAt(b, 3 * g + 2));
    FirstSix(b, g);
    SecondSix(b, g);
    ThirdSix(b, g);
    FourthSix(b, g);
  }

  lemma ZeroBits()
    ensures BitOf(0, 0) == BitOf(0, 1) == BitOf(0, 2) == BitOf(0, 3) == 0
    ensures BitOf(0, 4) == BitOf(0, 5) == BitOf(0, 6) == BitOf(0, 7) == 0
  {
  }

  /** Where a character of the encoding stands for data it is that character of the alphabet which the six bits
      number; where it does not it is the padding. */
  lemma EncodedInAlphabet(b: seq<Byte>, k: nat)
    requires k < EncodedSize(|b|)
    ensures Encoded(b)[k] == if 6 * k < 8 * |b| then ALPHABET[SixBits(b, 6 * k)] as int else 61
  {
    hide Sextet, SixBits, Letter;
    LettersAre();
    SextetIsSixBits(b, k / 4, k % 4);
    assert 24 * (k / 4) + 6 * (k % 4) == 6 * k;
  }

  lemma LastDigit(p: nat, a: nat, q: nat, b: nat)
    requires a < 2 && b < 2 && 2 * p + a == 2 * q + b
    ensures p == q && a == b
  {
  }

  /** Eight digits 0 and 1 are the bits of the number that they spell. */
  lemma BitsFrom(x: Byte, a7: nat, a6: nat, a5: nat, a4: nat, a3: nat, a2: nat, a1: nat, a0: nat)
    requires a7 < 2 && a6 < 2 && a5 < 2 && a4 < 2 && a3 < 2 && a2 < 2 && a1 < 2 && a0 < 2
    requires x == 128 * a7 + 64 * a6 + 32 * a5 + 16 * a4 + 8 * a3 + 4 * a2 + 2 * a1 + a0
    ensures BitOf(x, 7) == a7 && BitOf(x, 6) == a6 && BitOf(x, 5) == a5 && BitOf(x, 4) == a4
    ensures BitOf(x, 3) == a3 && BitOf(x, 2) == a2 && BitOf(x, 1) == a1 && BitOf(x, 0) == a0
  {
    hide BitOf;
    BitsOfByte(x);
    var p2 := 2 * BitOf(x, 7) + BitOf(x, 6);
    var p4 := 8 * BitOf(x, 7) + 4 * BitOf(x, 6) + 2 * BitOf(x, 5) + BitOf(x, 4);
    var p6 := 4 * p4 + 2 * BitOf(x, 3) + BitOf(x, 2);
    var q2 := 2 * a7 + a6;
    var q4 := 8 * a7 + 4 * a6 + 2 * a5 + a4;
    var q6 := 4 * q4 + 2 * a3 + a2;
    LastDigit(2 * p6 + BitOf(x, 1), BitOf(x, 0), 2 * q6 + a1, a0);
    LastDigit(p6, BitOf(x, 1), q6, a1);
    LastDigit(2 * p4 + BitOf(x, 3), BitOf(x, 2), 2 * q4 + a3, a2);
    LastDigit(p4, BitOf(x, 3), q4, a3);
    LastDigit(2 * p2 + BitOf(x, 5), BitOf(x, 4), 2 * q2 + a5, a4);
    LastDigit(p2, BitOf(x, 5), q2, a5);
    LastDigit(BitOf(x, 7), BitOf(x, 6), a7, a6);
  }

  /** The bits of the three octets of a cluster are those of its four sextets. */
  lemma FirstOctet(c0: Byte, c1: Byte, m: nat)
    requires c0 < 64 && c1 < 64 && m < 8
    ensures BitOf(c0 * 4 + c1 / 16, 7 - m) == if m < 6 then BitOf(c0, 5 - m) else BitOf(c1, 11 - m)
  {
    hide BitOf;
    BitsOfByte(c0);
    BitsOfByte(c1);
    TopBits(c0);
    TopBits(c1);
    BitsFrom(c0 * 4 + c1 / 16, BitOf(c0, 5), BitOf(c0, 4), BitOf(c0, 3), BitOf(c0, 2), BitOf(c0, 1), BitOf(c0, 0),
             BitOf(c1, 5), BitOf(c1, 4));
  }

  lemma SecondOctet(c1: Byte, c2: Byte, m: nat)
    requires c1 < 64 && c2 < 64 && m < 8
    ensures BitOf(c1 % 16 * 16 + c2 / 4, 7 - m) == if m < 4 then BitOf(c1, 3 - m) else BitOf(c2, 9 - m)
  {
    hide BitOf;
    BitsOfByte(c1);
    BitsOfByte(c2);
    TopBits(c2);
    BitsFrom(c1 % 16 * 16 + c2 / 4, BitOf(c1, 3), BitOf(c1, 2), BitOf(c1, 1), BitOf(c1, 0), BitOf(c2, 5), BitOf(c2, 4),
             BitOf(c2, 3), BitOf(c2, 2));
  }

  lemma ThirdOctet(c2: Byte, c3: Byte, m: nat)
    requires c2 < 64 && c3 < 64 && m < 8
    ensures BitOf(c2 % 4 * 64 + c3, 7 - m) == if m < 2 then BitOf(c2, 1 - m) else BitOf(c3, 7 - m)
  {
    hide BitOf;
    BitsOfByte(c2);
    BitsOfByte(c3);
    BitsFrom(c2 % 4 * 64 + c3, BitOf(c2, 1), BitOf(c2, 0), BitOf(c3, 5), BitOf(c3, 4), BitOf(c3, 3), BitOf(c3, 2),
             BitOf(c3, 1), BitOf(c3, 0));
  }

  lemma OctetDecoded(s: seq<WChar>, g: nat, j: nat)
    requires Accepted(s) && j < 3 && 3 * g + j < |Decoded(s)|
    ensures 4 * g + 3 < |s| && OctetAt(Decoded(s), 3 * g + j) == Octet(Cluster(s, g), j)
  {
    assert (3 * g + j) / 3 == g && (3 * g + j) % 3 == j;
  }

  lemma InCluster(s: seq<WChar>, g: nat, m: nat)
    requires Accepted(s) && m < 24 && 24 * g + m < 8 * |Decoded(s)|
    ensures 4 * g + 3 < |s|
    ensures BitAt(Decoded(s), 24 * g + m) ==
            if m < 6 then BitOf(Value(s[4 * g]), 5 - m)
            else if m < 12 then BitOf(Value(s[4 * g + 1]), 11 - m)
            else if m < 18 then BitOf(Value(s[4 * g + 2]), 17 - m)
            else BitOf(Value(s[4 * g + 3]), 23 - m)
  {
    hide BitOf, Value, Octet, BitAt, Decoded, OctetAt;
    BitInGroup(Decoded(s), g, m);
    OctetDecoded(s, g, m / 8);
    var c0, c1, c2, c3 := Value(s[4 * g]), Value(s[4 * g + 1]), Value(s[4 * g + 2]), Value(s[4 * g + 3]);
    OctetsOfSextets(c0, c1, c2, c3);
    if m < 8 {
      FirstOctet(c0, c1, m);
    } else if m < 16 {
      SecondOctet(c1, c2, m - 8);
    } else {
      ThirdOctet(c2, c3, m - 16);
    }
  }

  /** The character at i / 6 gives bit i of the decoded text. */
  lemma DecodedBit(s: seq<WChar>, i: nat)
    requires Accepted(s) && i < 8 * |Decoded(s)|
    ensures i / 6 < |s| && BitAt(Decoded(s), i) == BitOf(Value(s[i / 6]), 5 - i % 6)
  {
    hide Accepted, Decoded, BitAt, BitOf, Value;
    var g, m := i / 24, i % 24;
    assert i == 24 * g + m;
    InCluster(s, g, m);
    assert i / 6 == 4 * g + m / 6 && i % 6 == m % 6;
  }

  lemma TopBits(x: Byte)
    requires x < 64
    ensures BitOf(x, 7) == BitOf(x, 6) == 0
  {
    hide BitOf;
    BitsOfByte(x);
  }

  /** Bit n of the place that c has in the alphabet; the padding counts as zero. */
  ghost predicate Contributes(c: WChar, n: nat, bit: nat) {
    if c == 61 then bit == 0 else exists x :: Spelt(c, x) && bit == BitOf(x, n)
  }

  /** Each accepted character contributes the six bits of its place in the alphabet. */
  lemma DecodedInAlphabet(s: seq<WChar>, i: nat)
    requires Accepted(s) && i < 8 * |Decoded(s)|
    ensures i / 6 < |s| && Contributes(s[i / 6], 5 - i % 6, BitAt(Decoded(s), i))
  {
    hide BitOf, Value, Spelt, Decoded, BitAt;
    DecodedBit(s, i);
    ValueIs(s[i / 6]);
    ZeroBits();
  }

  // ----- Round trips

  lemma OctetsSplit(b0: Byte, b1: Byte, b2: Byte)
    ensures var x := b0 * 0x1_0000 + b1 * 0x100 + b2;
            x < 0x100_0000 && Octet(x, 0) == b0 && Octet(x, 1) == b1 && Octet(x, 2) == b2
  {
  }

  lemma SextetsSplit(c0: int, c1: int, c2: int, c3: int)
    requires 0 <= c0 < 64 && 0 <= c1 < 64 && 0 <= c2 < 64 && 0 <= c3 < 64
    ensures var x := c0 * 0x4_0000 + c1 * 0x1000 + c2 * 64 + c3;
            x < 0x100_0000 && Sextet(x, 0) == c0 && Sextet(x, 1) == c1 && Sextet(x, 2) == c2 && Sextet(x, 3) == c3
  {
    var x := c0 * 0x4_0000 + c1 * 0x1000 + c2 * 64 + c3;
    var y, z := c0 * 0x1000 + c1 * 64 + c2, c0 * 64 + c1;
    assert x == y * 64 + c3 && x / 64 == y;
    assert x == z * 0x1000 + (c2 * 64 + c3) && x / 0x1000 == z;
    assert x == c0 * 0x4_0000 + (c1 * 0x1000 + c2 * 64 + c3) && x / 0x4_0000 == c0;
    assert y % 64 == c2 && z % 64 == c1;
  }

  /** The bit operations of Base64Encode. */
  lemma SextetsOfOctets(b0: Byte, b1: Byte, b2: Byte)
    ensures var x := b0 * 0x1_0000 + b1 * 0x100 + b2;
            && x < 0x100_0000
            && Sextet(x, 0) == b0 / 4 && Sextet(x, 1) == b0 % 4 * 16 + b1 / 16
            && Sextet(x, 2) == b1 % 16 * 4 + b2 / 64 && Sextet(x, 3) == b2 % 64
  {
    hide Sextet;
    SextetsSplit(b0 / 4, b0 % 4 * 16 + b1 / 16, b1 % 16 * 4 + b2 / 64, b2 % 64);
  }

  /** The bit operations of Base64Decode. */
  lemma OctetsOfSextets(c0: int, c1: int, c2: int, c3: int)
    requires 0 <= c0 < 64 && 0 <= c1 < 64 && 0 <= c2 < 64 && 0 <= c3 < 64
    ensures var x := c0 * 0x4_0000 + c1 * 0x1000 + c2 * 64 + c3;
            Octet(x, 0) == c0 * 4 + c1 / 16 && Octet(x, 1) == c1 % 16 * 16 + c2 / 4 && Octet(x, 2) == c2 % 4 * 64 + c3
  {
    hide Octet;
    OctetsSplit(c0 * 4 + c1 / 16, c1 % 16 * 16 + c2 / 4, c2 % 4 * 64 + c3);
  }

  /** What a padding character leaves out is zero anyway. */
  lemma ValueOfEncoded(b: seq<Byte>, k: nat)
    requires k < EncodedSize(|b|)
    ensures Value(EncodedAt(b, k)) == Sextet(Group(b, k / 4), k % 4)
  {
  }

  lemma SextetsJoin(b: seq<Byte>, g: nat)
    ensures var x := Group(b, g);
            Sextet(x, 0) * 0x4_0000 + Sextet(x, 1) * 0x1000 + Sextet(x, 2) * 64 + Sextet(x, 3) == x
  {
    hide Sextet;
    SextetsOfOctets(OctetAt(b, 3 * g), OctetAt(b, 3 * g + 1), OctetAt(b, 3 * g + 2));
  }

  lemma ValueInCluster(b: seq<Byte>, g: nat, j: nat)
    requires 3 * g < |b| && j < 4
    ensures 4 * g + j < |Encoded(b)| && Value(Encoded(b)[4 * g + j]) == Sextet(Group(b, g), j)
  {
    hide Sextet, Value, Group;
    ValueOfEncoded(b, 4 * g + j);
  }

  lemma ClusterOfEncoded(b: seq<Byte>, g: nat)
    requires 3 * g < |b|
    ensures 4 * g + 3 < |Encoded(b)| && Cluster(Encoded(b), g) == Group(b, g)
  {
    hide Sextet, Value, Group, Encoded;
    ValueInCluster(b, g, 0);
    ValueInCluster(b, g, 1);
    ValueInCluster(b, g, 2);
    ValueInCluster(b, g, 3);
    SextetsJoin(b, g);
  }

  lemma EncodedIsAccepted(b: seq<Byte>)
    requires b != []
    ensures Accepted(Encoded(b)) && DecodedSize(Encoded(b)) == |b|
  {
  }

  /** Decoding an encoding gives the bytes back. Only the empty input has an encoding that is not accepted. */
  lemma DecodeAfterEncode(b: seq<Byte>)
    ensures Accepted(Encoded(b)) <==> b != []
    ensures b != [] ==> Decoded(Encoded(b)) == b
    ensures b != [] ==> Canonical(Encoded(b))
  {
    if b != [] {
      EncodedIsAccepted(b);
      forall i | 0 <= i < |b| ensures Decoded(Encoded(b))[i] == b[i] {
        DecodedOctet(b, i);
      }
      EncodedIsCanonical(b);
    }
  }

  lemma DecodedOctet(b: seq<Byte>, i: nat)
    requires i < |b| && Accepted(Encoded(b)) && DecodedSize(Encoded(b)) == |b|
    ensures Decoded(Encoded(b))[i] == b[i]
  {
    hide Octet, Encoded, Cluster;
    var g := i / 3;
    ClusterOfEncoded(b, g);
    OctetsSplit(OctetAt(b, 3 * g), OctetAt(b, 3 * g + 1), OctetAt(b, 3 * g + 2));
  }

  lemma EncodedIsCanonical(b: seq<Byte>)
    requires b != [] && Accepted(Encoded(b)) && DecodedSize(Encoded(b)) == |b|
    ensures Canonical(Encoded(b))
  {
    hide Sextet, Value, Letter, Group;
    var s, g := Encoded(b), (|b| - 1) / 3;
    assert forall k | 0 <= k < |s| :: s[k] == EncodedAt(b, k);
    ValueInCluster(b, g, 1);
    ValueInCluster(b, g, 2);
    LastGroup(b, g);
  }

  lemma LastGroup(b: seq<Byte>, g: nat)
    requires 3 * g < |b| <= 3 * g + 3
    ensures |b| == 3 * g + 1 ==> Sextet(Group(b, g), 1) % 16 == 0
    ensures |b| == 3 * g + 2 ==> Sextet(Group(b, g), 2) % 4 == 0
  {
    hide Sextet;
    SextetsOfOctets(OctetAt(b, 3 * g), OctetAt(b, 3 * g + 1), OctetAt(b, 3 * g + 2));
  }

  /** Re-encoding what was decoded gives an accepted string back exactly when the string is canonical. */
  lemma EncodeAfterDecode(s: seq<WChar>)
    requires Accepted(s)
    ensures Encoded(Decoded(s)) == s <==> Canonical(s)
  {
    var b := Decoded(s);
    assert EncodedSize(|b|) == |s|;
    if Canonical(s) {
      forall k | 0 <= k < |s| ensures EncodedAt(b, k) == s[k] {
        EncodedAgain(s, k);
      }
    }
    if Encoded(b) == s {
      EncodedIsCanonical(b);
    }
  }

  lemma EncodedAgain(s: seq<WChar>, k: nat)
    requires Accepted(s) && Canonical(s) && k < |s|
    ensures EncodedAt(Decoded(s), k) == s[k]
  {
    hide Sextet, Value, Octet, Letter;
    var b, g := Decoded(s), k / 4;
    if 6 * k < 8 * |b| {
      GroupOfDecoded(s, g);
      SextetsSplit(Value(s[4 * g]), Value(s[4 * g + 1]), Value(s[4 * g + 2]), Value(s[4 * g + 3]));
      LetterOfValue(s[k]);
    }
  }

  lemma GroupOfDecoded(s: seq<WChar>, g: nat)
    requires Accepted(s) && Canonical(s) && 4 * g < |s|
    ensures Group(Decoded(s), g) == Cluster(s, g)
  {
    hide Octet, Value, Canonical, Decoded, DecodedSize;
    OctetOfDecoded(s, g, 0);
    OctetOfDecoded(s, g, 1);
    OctetOfDecoded(s, g, 2);
    OctetsOfSextets(Value(s[4 * g]), Value(s[4 * g + 1]), Value(s[4 * g + 2]), Value(s[4 * g + 3]));
  }

  lemma OctetOfDecoded(s: seq<WChar>, g: nat, j: nat)
    requires Accepted(s) && Canonical(s) && 4 * g < |s| && j < 3
    ensures OctetAt(Decoded(s), 3 * g + j) == Octet(Cluster(s, g), j)
  {
    hide Octet, Cluster, Canonical, Value;
    var b := Decoded(s);
    if 3 * g + j < |b| {
      assert b[3 * g + j] == Octet(Cluster(s, (3 * g + j) / 3), (3 * g + j) % 3);
    } else {
      TailIsZero(s, g, j);
    }
  }

  lemma SextetValues(s: seq<WChar>, g: nat)
    requires Accepted(s) && 4 * g + 3 < |s|
    ensures Value(s[4 * g]) < 64 && Value(s[4 * g + 1]) < 64 && Value(s[4 * g + 2]) < 64 && Value(s[4 * g + 3]) < 64
  {
  }

  /** The octets that the padding cuts off. */
  lemma TailIsZero(s: seq<WChar>, g: nat, j: nat)
    requires Accepted(s) && Canonical(s) && DecodedSize(s) <= 3 * g + j && j < 3 && 4 * g < |s|
    ensures Octet(Cluster(s, g), j) == 0
  {
    assert Value(PAD) == 0;
    hide Octet, Value, Accepted;
    assert |s| == 4 * g + 4;
    var c0, c1, c2, c3 := Value(s[4 * g]), Value(s[4 * g + 1]), Value(s[4 * g + 2]), Value(s[4 * g + 3]);
    SextetValues(s, g);
    OctetsOfSextets(c0, c1, c2, c3);
    if DecodedSize(s) == 3 * g + 1 {
      assert c1 % 16 == 0 && c2 == 0 && c3 == 0;
    } else {
      assert DecodedSize(s) == 3 * g + 2 && c2 % 4 == 0 && c3 == 0;
    }
  }

  // ----- The codec

  /** Shifts and masks on bytes, as the codec writes them, are the quotients and remainders used here. */
  lemma ShiftsAndMasks(b0: bv8, b1: bv8, b2: bv8, c0: bv8, c1: bv8, c2: bv8, c3: bv8)
    requires c0 < 64 && c1 < 64 && c2 < 64 && c3 < 64
    ensures b0 >> 2 == b0 / 4 && b2 & 0x3f == b2 % 64
    ensures ((b0 << 4) & 0x30) | ((b1 >> 4) & 0x0f) == b0 % 4 * 16 + b1 / 16
    ensures ((b1 << 2) & 0x3c) | ((b2 >> 6) & 0x03) == b1 % 16 * 4 + b2 / 64
    ensures (c0 << 2) | (c1 >> 4) == c0 * 4 + c1 / 16
    ensures (c1 << 4) | (c2 >> 2) == c1 % 16 * 16 + c2 / 4
    ensures (c2 << 6) | c3 == c2 % 4 * 64 + c3
  {
  }

  /** The character at k before padding. */
  function RawAt(b: seq<Byte>, k: nat): WChar {
    Letter(Sextet(Group(b, k / 4), k % 4))
  }

  /** The size in characters that Base64Encode asks for, computed in 32 bits. */
  function SizeToEncode(n: DWord): (r: DWord)
    ensures n <= MAX_ENCODED_INPUT <==> r == EncodedSize(n) + 1
    ensures r > 0
  {
    Wrap(1 + Wrap(Wrap(n + 2) / 3 * 4))
  }

  /** Without a buffer the call reports the size. With a buffer of that size it succeeds, on every input whose
      encoded size fits in 32 bits; on a longer input no buffer is large enough, and none is overrun. */
  method Base64Encode(pDecodedBuffer: array<Byte>, pszEncodedString: array?<WChar>, cchEncodedStringSize: DWord)
    returns (status: Status, cchEncoded: DWord)
    requires pDecodedBuffer.Length < DWORD_LIMIT
    requires cchEncodedStringSize == if pszEncodedString == null then 0 else pszEncodedString.Length
    modifies if pszEncodedString == null then {} else {pszEncodedString}
    ensures cchEncoded == SizeToEncode(pDecodedBuffer.Length)
    ensures status ==
      if pszEncodedString == null then ERROR_SUCCESS
      else if cchEncodedStringSize < cchEncoded then ERROR_INSUFFICIENT_BUFFER
      else if pDecodedBuffer.Length <= MAX_ENCODED_INPUT then ERROR_SUCCESS
      else ERROR_BUFFER_OVERFLOW
    ensures pszEncodedString != null && status.ERROR_SUCCESS? ==>
      cchEncoded <= pszEncodedString.Length &&
      pszEncodedString[..] == Encoded(pDecodedBuffer[..]) + [0] + old(pszEncodedString[cchEncoded..])
    ensures pszEncodedString != null && status.ERROR_SUCCESS? ==>
      forall k | 0 <= k < EncodedSize(pDecodedBuffer.Length) ::
        pszEncodedString[k] ==
        if 6 * k < 8 * pDecodedBuffer.Length then ALPHABET[SixBits(pDecodedBuffer[..], 6 * k)] as int else 61
    ensures pszEncodedString != null && status.ERROR_INSUFFICIENT_BUFFER? ==>
      pszEncodedString[..] == old(pszEncodedString[..])
    ensures pszEncodedString != null && status.ERROR_BUFFER_OVERFLOW? ==>
      forall k | 0 <= k < pszEncodedString.Length :: pszEncodedString[k] == RawAt(pDecodedBuffer[..], k)
  {
    hide RawAt, Wrap, EncodedAt;
    var cb := pDecodedBuffer.Length;
    cchEncoded := SizeToEncode(cb);
    if cchEncodedStringSize == 0 && pszEncodedString == null {
      return ERROR_SUCCESS, cchEncoded;
    }
    if cchEncodedStringSize < cchEncoded {
      return ERROR_INSUFFICIENT_BUFFER, cchEncoded;
    }
    var ib, ich := 0, 0;
    while ib < cb
      invariant 0 <= ib <= cb && ich < cchEncodedStringSize
      invariant ich % 4 == 0 && ich == EncodedSize(ib) && (ib < cb ==> ib % 3 == 0)
      invariant forall k | 0 <= k < ich :: pszEncodedString[k] == RawAt(pDecodedBuffer[..], k)
      invariant forall k | ich <= k < pszEncodedString.Length :: pszEncodedString[k] == old(pszEncodedString[k])
    {
      var ok;
      ib, ich, ok := EncodeCluster(pDecodedBuffer, ib, pszEncodedString, ich, ib / 3);
      if !ok {
        return ERROR_BUFFER_OVERFLOW, cchEncoded;
      }
    }
    PadAndTerminate(pDecodedBuffer, pszEncodedString, ich);
    AllInAlphabet(pDecodedBuffer[..], pszEncodedString[..]);
    status := ERROR_SUCCESS;
  }

  lemma AllInAlphabet(b: seq<Byte>, s: seq<WChar>)
    requires Encoded(b) <= s
    ensures |ALPHABET| == 64
    ensures forall k | 0 <= k < EncodedSize(|b|) ::
              s[k] == if 6 * k < 8 * |b| then ALPHABET[SixBits(b, 6 * k)] as int else 61
  {
    hide SixBits, EncodedAt;
    LettersAre();
    forall k | 0 <= k < EncodedSize(|b|)
      ensures s[k] == if 6 * k < 8 * |b| then ALPHABET[SixBits(b, 6 * k)] as int else 61
    {
      EncodedInAlphabet(b, k);
    }
  }

  lemma RawCluster(b: seq<Byte>, g: nat)
    ensures var b0: int, b1: int, b2: int := OctetAt(b, 3 * g), OctetAt(b, 3 * g + 1), OctetAt(b, 3 * g + 2);
            && RawAt(b, 4 * g) == Letter(b0 / 4) && RawAt(b, 4 * g + 1) == Letter(b0 % 4 * 16 + b1 / 16)
            && RawAt(b, 4 * g + 2) == Letter(b1 % 16 * 4 + b2 / 64) && RawAt(b, 4 * g + 3) == Letter(b2 % 64)
  {
    hide Letter, Sextet;
    SextetsOfOctets(OctetAt(b, 3 * g), OctetAt(b, 3 * g + 1), OctetAt(b, 3 * g + 2));
  }

  /** One round of the encoding loop. */
  method EncodeCluster(pbDecodedBuffer: array<Byte>, start: nat, pszEncodedString: array<WChar>, at: nat, ghost g: nat)
    returns (ib: nat, ich: nat, ok: bool)
    requires start == 3 * g < pbDecodedBuffer.Length < DWORD_LIMIT && at == 4 * g < pszEncodedString.Length
    requires forall k | 0 <= k < at :: pszEncodedString[k] == RawAt(pbDecodedBuffer[..], k)
    modifies pszEncodedString
    ensures ib == (if start + 3 <= pbDecodedBuffer.Length then start + 3 else pbDecodedBuffer.Length)
    ensures ok <==> at + 4 < pszEncodedString.Length
    ensures ich == if ok then at + 4 else pszEncodedString.Length
    ensures forall k | 0 <= k < ich :: pszEncodedString[k] == RawAt(pbDecodedBuffer[..], k)
    ensures forall k | ich <= k < pszEncodedString.Length :: pszEncodedString[k] == old(pszEncodedString[k])
  {
    hide Letter, RawAt;
    var cb, size := pbDecodedBuffer.Length, pszEncodedString.Length;
    ib, ich, ok := start, at, false;
    var b0: int, b1: int, b2: int := pbDecodedBuffer[ib], 0, 0;
    ib := ib + 1;
    if ib < cb {
      b1 := pbDecodedBuffer[ib];
      ib := ib + 1;
    }
    if ib < cb {
      b2 := pbDecodedBuffer[ib];
      ib := ib + 1;
    }
    RawCluster(pbDecodedBuffer[..], g);
    pszEncodedString[ich] := Letter(b0 / 4);
    ich := ich + 1;
    if ich >= size {
      return;
    }
    pszEncodedString[ich] := Letter(b0 % 4 * 16 + b1 / 16);
    ich := ich + 1;
    if ich >= size {
      return;
    }
    pszEncodedString[ich] := Letter(b1 % 16 * 4 + b2 / 64);
    ich := ich + 1;
    if ich >= size {
      return;
    }
    pszEncodedString[ich] := Letter(b2 % 64);
    ich := ich + 1;
    if ich >= size {
      return;
    }
    ok := true;
  }

  /** The padding of the last cluster and the terminating NUL. */
  method PadAndTerminate(pbDecodedBuffer: array<Byte>, pszEncodedString: array<WChar>, end: nat)
    requires end == EncodedSize(pbDecodedBuffer.Length) < pszEncodedString.Length
    requires forall k | 0 <= k < end :: pszEncodedString[k] == RawAt(pbDecodedBuffer[..], k)
    modifies pszEncodedString
    ensures pszEncodedString[..] == Encoded(pbDecodedBuffer[..]) + [0] + old(pszEncodedString[end + 1..])
  {
    hide RawAt, EncodedAt;
    var r := pbDecodedBuffer.Length % 3;
    if r == 1 {
      pszEncodedString[end - 2] := PAD;
    }
    if r == 1 || r == 2 {
      pszEncodedString[end - 1] := PAD;
    }
    pszEncodedString[end] := 0;
    ghost var b := pbDecodedBuffer[..];
    forall k | 0 <= k < end ensures pszEncodedString[k] == EncodedAt(b, k) {
      PaddedAt(b, k);
    }
    assert pszEncodedString[..end] == Encoded(b);
    assert pszEncodedString[end + 1..] == old(pszEncodedString[end + 1..]);
    assert pszEncodedString[..] == pszEncodedString[..end] + [pszEncodedString[end]] + pszEncodedString[end + 1..];
  }

  /** Padding takes the place of the characters that stand for no bit. */
  lemma PaddedAt(b: seq<Byte>, k: nat)
    requires k < EncodedSize(|b|)
    ensures var end, r := EncodedSize(|b|), |b| % 3;
            EncodedAt(b, k) == if (r == 1 && k >= end - 2) || (r == 2 && k == end - 1) then PAD else RawAt(b, k)
  {
    hide Letter, Sextet, Group, EncodedSize;
    PaddingFrom(|b|, k);
  }

  lemma PaddingFrom(n: nat, k: nat)
    requires k < EncodedSize(n)
    ensures 6 * k >= 8 * n <==> (n % 3 == 1 && k >= EncodedSize(n) - 2) || (n % 3 == 2 && k == EncodedSize(n) - 1)
  {
    var q, r := n / 3, n % 3;
    assert n == 3 * q + r;
    assert EncodedSize(n) == if r == 0 then 4 * q else 4 * q + 4;
  }

  /** The leading clusters of s that hold base64 characters only. */
  function GoodClusters(s: seq<WChar>): (n: nat)
    requires WellSized(s)
    ensures 4 * n <= |s|
    ensures forall k | 0 <= k < 4 * n :: Value(s[k]) != NA
    ensures 4 * n < |s| ==> exists k | 4 * n <= k < 4 * n + 4 :: Value(s[k]) == NA
  {
    GoodFrom(s, 0)
  }

  function GoodFrom(s: seq<WChar>, g: nat): (n: nat)
    requires WellSized(s) && 4 * g <= |s|
    ensures g <= n && 4 * n <= |s|
    ensures forall k | 4 * g <= k < 4 * n :: Value(s[k]) != NA
    ensures 4 * n < |s| ==> exists k | 4 * n <= k < 4 * n + 4 :: Value(s[k]) == NA
    decreases |s| - 4 * g
  {
    if 4 * g == |s| || !GoodCluster(s, g) then g else GoodFrom(s, g + 1)
  }

  predicate GoodCluster(s: seq<WChar>, g: nat)
    requires 4 * g + 3 < |s|
  {
    Value(s[4 * g]) != NA && Value(s[4 * g + 1]) != NA && Value(s[4 * g + 2]) != NA && Value(s[4 * g + 3]) != NA
  }

  lemma AcceptedClusters(s: seq<WChar>)
    requires WellSized(s)
    ensures Accepted(s) <==> 4 * GoodClusters(s) == |s|
  {
  }

  /** The first n bytes of b hold the bits that the characters of s contribute, six each. */
  ghost predicate Spells(s: seq<WChar>, b: seq<Byte>, n: nat) {
    n <= |b| && forall i | 0 <= i < 8 * n :: i / 6 < |s| && Contributes(s[i / 6], 5 - i % 6, BitAt(b, i))
  }

  lemma AllContribute(s: seq<WChar>, b: seq<Byte>)
    requires Accepted(s) && Decoded(s) <= b
    ensures Spells(s, b, DecodedSize(s))
  {
    hide Contributes, BitOf, Value;
    forall i | 0 <= i < 8 * DecodedSize(s)
      ensures i / 6 < |s| && Contributes(s[i / 6], 5 - i % 6, BitAt(b, i))
    {
      DecodedInAlphabet(s, i);
      assert b[i / 8] == Decoded(s)[i / 8];
    }
  }

  lemma WholeClusters(cch: nat)
    requires cch % 4 == 0 && cch < DWORD_LIMIT
    ensures Wrap(cch + 3) / 4 * 3 == cch / 4 * 3
  {
  }

  /** An accepted string is decoded into the first cbDecoded bytes of the buffer. A string that is refused for
      a character is decoded up to the cluster with that character. Other bytes of the buffer are not written. */
  method Base64Decode(pszEncodedString: seq<WChar>, pDecodeBuffer: array?<Byte>, cbDecodeBufferSize: DWord)
    returns (status: Status, pcbDecoded: DWord)
    requires NulFree(pszEncodedString) && |pszEncodedString| < DWORD_LIMIT
    requires cbDecodeBufferSize == if pDecodeBuffer == null then 0 else pDecodeBuffer.Length
    modifies if pDecodeBuffer == null then {} else {pDecodeBuffer}
    ensures pcbDecoded == if WellSized(pszEncodedString) then DecodedSize(pszEncodedString) else 0
    ensures status ==
      if !WellSized(pszEncodedString) then ERROR_INVALID_PARAMETER
      else if pDecodeBuffer == null then ERROR_SUCCESS
      else if cbDecodeBufferSize < pcbDecoded then ERROR_INSUFFICIENT_BUFFER
      else if Accepted(pszEncodedString) then ERROR_SUCCESS
      else ERROR_INVALID_PARAMETER
    ensures pDecodeBuffer != null && (!WellSized(pszEncodedString) || cbDecodeBufferSize < pcbDecoded) ==>
      pDecodeBuffer[..] == old(pDecodeBuffer[..])
    ensures pDecodeBuffer != null && status.ERROR_SUCCESS? ==>
      pDecodeBuffer[..] == Decoded(pszEncodedString) + old(pDecodeBuffer[pcbDecoded..])
    ensures pDecodeBuffer != null && status.ERROR_SUCCESS? ==> Spells(pszEncodedString, pDecodeBuffer[..], pcbDecoded)
    ensures pDecodeBuffer != null && WellSized(pszEncodedString) && pcbDecoded <= cbDecodeBufferSize &&
            status.ERROR_INVALID_PARAMETER? ==>
      var n := 3 * GoodClusters(pszEncodedString);
      pDecodeBuffer[..] == Decoded(pszEncodedString)[..n] + old(pDecodeBuffer[n..])
  {
    hide Value, Cluster, Octet, Decoded, Accepted, GoodFrom, Wrap;
    var cch := |pszEncodedString|;
    pcbDecoded := 0;
    if cch == 0 || cch % 4 != 0 {
      return ERROR_INVALID_PARAMETER, 0;
    }
    WholeClusters(cch);
    var cbDecoded := Wrap(cch + 3) / 4 * 3;
    if pszEncodedString[cch - 1] == PAD {
      if pszEncodedString[cch - 2] == PAD {
        cbDecoded := cbDecoded - 2;
      } else {
        cbDecoded := cbDecoded - 1;
      }
    }
    pcbDecoded := cbDecoded;
    if cbDecodeBufferSize == 0 && pDecodeBuffer == null {
      return ERROR_SUCCESS, pcbDecoded;
    }
    if cbDecoded > cbDecodeBufferSize {
      return ERROR_INSUFFICIENT_BUFFER, pcbDecoded;
    }
    AcceptedClusters(pszEncodedString);
    status := DecodeClusters(pszEncodedString, pDecodeBuffer, cbDecoded);
    if status.ERROR_SUCCESS? {
      AllContribute(pszEncodedString, pDecodeBuffer[..]);
    }
  }

  /** The decoding loop. */
  method DecodeClusters(pszEncodedString: seq<WChar>, pbDecodeBuffer: array<Byte>, cbDecoded: nat)
    returns (status: Status)
    requires WellSized(pszEncodedString) && cbDecoded == DecodedSize(pszEncodedString) <= pbDecodeBuffer.Length
    modifies pbDecodeBuffer
    ensures status ==
      if 4 * GoodClusters(pszEncodedString) == |pszEncodedString| then ERROR_SUCCESS else ERROR_INVALID_PARAMETER
    ensures var n := if status.ERROR_SUCCESS? then cbDecoded else 3 * GoodClusters(pszEncodedString);
            n <= cbDecoded &&
            pbDecodeBuffer[..] == Decoded(pszEncodedString)[..n] + old(pbDecodeBuffer[n..])
  {
    hide Value, Cluster, Octet, Decoded, GoodFrom;
    ghost var b := Decoded(pszEncodedString);
    var cch := |pszEncodedString|;
    var ich, ib := 0, 0;
    while ich < cch
      invariant 0 <= ich <= cch && ich % 4 == 0
      invariant ib == if ich < cch then ich / 4 * 3 else cbDecoded
      invariant ich / 4 <= GoodClusters(pszEncodedString)
      invariant forall i | 0 <= i < ib :: pbDecodeBuffer[i] == b[i]
      invariant forall i | ib <= i < pbDecodeBuffer.Length :: pbDecodeBuffer[i] == old(pbDecodeBuffer[i])
    {
      var good;
      ib, good := DecodeCluster(pszEncodedString, ich, pbDecodeBuffer, ib, cbDecoded);
      if !good {
        assert ich / 4 == GoodClusters(pszEncodedString);
        return ERROR_INVALID_PARAMETER;
      }
      ich := ich + 4;
    }
    assert ib == cbDecoded;
    status := ERROR_SUCCESS;
  }

  /** One round of the decoding loop. */
  method DecodeCluster(pszEncodedString: seq<WChar>, ich: nat, pbDecodeBuffer: array<Byte>, at: nat, cbDecoded: nat)
    returns (ib: nat, good: bool)
    requires WellSized(pszEncodedString) && ich < |pszEncodedString| && ich % 4 == 0
    requires cbDecoded == DecodedSize(pszEncodedString) <= pbDecodeBuffer.Length && at == ich / 4 * 3
    modifies pbDecodeBuffer
    ensures good <==> GoodCluster(pszEncodedString, ich / 4)
    ensures ib == if !good then at else if at + 3 <= cbDecoded then at + 3 else cbDecoded
    ensures at <= ib <= cbDecoded
    ensures forall i | at <= i < ib :: pbDecodeBuffer[i] == Decoded(pszEncodedString)[i]
    ensures forall i | 0 <= i < pbDecodeBuffer.Length && !(at <= i < ib) :: pbDecodeBuffer[i] == old(pbDecodeBuffer[i])
  {
    hide Value, Octet;
    ib := at;
    var b0: int, b1: int := Value(pszEncodedString[ich]), Value(pszEncodedString[ich + 1]);
    var b2: int, b3: int := Value(pszEncodedString[ich + 2]), Value(pszEncodedString[ich + 3]);
    good := !(b0 == NA || b1 == NA || b2 == NA || b3 == NA);
    if good {
      OctetsOfSextets(b0, b1, b2, b3);
      assert Cluster(pszEncodedString, ich / 4) == b0 * 0x4_0000 + b1 * 0x1000 + b2 * 64 + b3;
      pbDecodeBuffer[ib] := b0 * 4 + b1 / 16;
      ib := ib + 1;
      if ib < cbDecoded {
        pbDecodeBuffer[ib] := b1 % 16 * 16 + b2 / 4;
        ib := ib + 1;
        if ib < cbDecoded {
          pbDecodeBuffer[ib] := b2 % 4 * 64 + b3;
          ib := ib + 1;
        }
      }
    }
  }
}
