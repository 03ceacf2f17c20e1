/** Percent escapes (section 2.1 of RFC 3986): what escaping and unescaping a string mean. */
module Escape {
  import opened Words

  const PERCENT: Byte := 37

  // ----- Digits

  predicate IsHex(c: int) {
    48 <= c <= 57 || 65 <= c <= 70 || 97 <= c <= 102
  }

  /** TOHEX */
  function HexValue(c: int): (x: int)
    requires IsHex(c)
    ensures 0 <= x < 16
  {
    if c > 57 then (if c >= 97 then c - 97 + 10 else c - 65 + 10) else c - 48
  }

  /** TODIGIT */
  function HexDigit(x: int): (c: Byte)
    requires 0 <= x < 16
    ensures IsHex(c) && HexValue(c) == x
    ensures c <= 70
  {
    if x > 9 then x - 10 + 65 else x + 48
  }

  const UPPER_HEX: string := "0123456789ABCDEF"
  const LOWER_HEX: string := "0123456789abcdef"

  /** c is the hexadecimal digit for x, in either case. */
  predicate Digit(c: int, x: nat) {
    x < 16 && (c == UPPER_HEX[x] as int || c == LOWER_HEX[x] as int)
  }

  ghost predicate NoDigit(c: int) {
    forall x :: !Digit(c, x)
  }

  lemma HexTexts()
    ensures forall x | 0 <= x < 16 :: UPPER_HEX[x] as int == if x < 10 then 48 + x else 55 + x
    ensures forall x | 0 <= x < 16 :: LOWER_HEX[x] as int == if x < 10 then 48 + x else 87 + x
  {
  }

  /** The hexadecimal digits and their values, in both cases; escapes are written in upper case. */
  lemma DigitsAre(c: int)
    ensures IsHex(c) <==> exists x :: Digit(c, x)
    ensures forall x | Digit(c, x) :: IsHex(c) && HexValue(c) == x
    ensures forall x | 0 <= x < 16 :: HexDigit(x) == UPPER_HEX[x] as int
  {
    HexTexts();
    if IsHex(c) {
      assert Digit(c, HexValue(c));
    }
  }

  // ----- Escaping

  predicate FShouldEscapeUrl(ch: Byte) {
    && (ch >= 128 || ch <= 32 || ch == 60 || ch == 62 || ch == 37 || ch == 63 || ch == 35)
    && !(ch == 10 || ch == 13)
  }

  function EscapedChar(should: Byte -> bool, ch: Byte): (s: seq<Byte>)
    ensures |s| == if should(ch) then 3 else 1
  {
    if should(ch) then [PERCENT, HexDigit(ch / 16), HexDigit(ch % 16)] else [ch]
  }

  /** What is escaped in a URL: bytes from 128 on, control characters and the blank but for the line ends, and five
      characters more. An escape is a percent sign and two upper-case digits. */
  lemma EscapedInCharacters(ch: Byte)
    ensures var special :=
              ch == '<' as int || ch == '>' as int || ch == '%' as int || ch == '?' as int || ch == '#' as int;
            var escape := ch >= 128 || special || (ch <= ' ' as int && ch != '\n' as int && ch != '\r' as int);
            EscapedChar(FShouldEscapeUrl, ch) ==
            if escape then ['%' as int, UPPER_HEX[ch / 16] as int, UPPER_HEX[ch % 16] as int] else [ch]
  {
    DigitsAre(0);
  }

  function Escaped(should: Byte -> bool, s: seq<Byte>): seq<Byte> {
    if s == [] then [] else Escaped(should, s[..|s| - 1]) + EscapedChar(should, s[|s| - 1])
  }

  function CountEscaped(should: Byte -> bool, s: seq<Byte>): nat {
    if s == [] then 0 else CountEscaped(should, s[..|s| - 1]) + if should(s[|s| - 1]) then 1 else 0
  }

  lemma {:induction false} EscapedCons(should: Byte -> bool, ch: Byte, s: seq<Byte>)
    ensures Escaped(should, [ch] + s) == EscapedChar(should, ch) + Escaped(should, s)
  {
    var t := [ch] + s;
    if s == [] {
      assert t[..0] == [];
    } else {
      assert t[..|t| - 1] == [ch] + s[..|s| - 1];
      EscapedCons(should, ch, s[..|s| - 1]);
    }
  }

  lemma {:induction false} NothingEscaped(should: Byte -> bool, s: seq<Byte>)
    ensures CountEscaped(should, s) == 0 <==> forall i | 0 <= i < |s| :: !should(s[i])
  {
    if s != [] {
      var t := s[..|s| - 1];
      NothingEscaped(should, t);
      assert forall i | 0 <= i < |t| :: t[i] == s[i];
    }
  }

  lemma {:induction false} EscapedLength(should: Byte -> bool, s: seq<Byte>)
    ensures |Escaped(should, s)| == |s| + 2 * CountEscaped(should, s)
    ensures CountEscaped(should, s) <= |s|
    ensures CountEscaped(should, s) == 0 <==> forall i | 0 <= i < |s| :: !should(s[i])
    ensures CountEscaped(should, s) == 0 ==> Escaped(should, s) == s
  {
    if s != [] {
      var t := s[..|s| - 1];
      EscapedLength(should, t);
      assert s == t + [s[|s| - 1]];
    }
    NothingEscaped(should, s);
  }

  /** Every `%` in the escaped text of a URL starts an escape of two upper-case digits, and what should be
      escaped is not left over. */
  lemma {:induction false} PercentStartsEscape(s: seq<Byte>, k: nat)
    requires k < |Escaped(FShouldEscapeUrl, s)|
    ensures var t := Escaped(FShouldEscapeUrl, s);
            && t[k] < 128
            && (FShouldEscapeUrl(t[k]) ==> t[k] == PERCENT)
            && (t[k] == PERCENT ==>
                  k + 2 < |t| && IsHex(t[k + 1]) && IsHex(t[k + 2]) && t[k + 1] <= 70 && t[k + 2] <= 70)
  {
    var n := |Escaped(FShouldEscapeUrl, s[..|s| - 1])|;
    if k < n {
      PercentStartsEscape(s[..|s| - 1], k);
    }
  }

  // ----- What EscapeInternal computes

  /** A string of at most MAXDWORD - 1 characters and its NUL can be stored. */
  predicate Fits(n: nat) {
    n + 1 <= MAXDWORD
  }

  /** The temporary string after escaping s. An escape that does not fit is an error; a plain character that
      does not fit is dropped without one. */
  function EscapeRun(should: Byte -> bool, s: seq<Byte>): (r: Option<seq<Byte>>)
    ensures r.Some? ==> Fits(|r.value|)
  {
    if s == [] then Some([])
    else
      match EscapeRun(should, s[..|s| - 1])
      case None => None
      case Some(t) =>
        var ch := s[|s| - 1];
        if Fits(|t| + |EscapedChar(should, ch)|) then Some(t + EscapedChar(should, ch))
        else if should(ch) then None
        else Some(t)
  }

  lemma RunStart(should: Byte -> bool, s: seq<Byte>)
    ensures EscapeRun(should, s[..0]) == Some([]) && CountEscaped(should, s[..0]) == 0
  {
  }

  lemma RunStep(should: Byte -> bool, s: seq<Byte>, i: nat)
    requires i < |s|
    ensures CountEscaped(should, s[..i + 1]) == CountEscaped(should, s[..i]) + if should(s[i]) then 1 else 0
    ensures !should(s[i]) ==>
              EscapeRun(should, s[..i + 1]) ==
              match EscapeRun(should, s[..i])
              case None => None
              case Some(t) => Some(if Fits(|t| + 1) then t + [s[i]] else t)
  {
    assert s[..i + 1][..i] == s[..i];
  }

  /** The first escape that does not fit ends the run. */
  lemma {:induction false} RunStops(should: Byte -> bool, s: seq<Byte>, n: nat)
    requires n <= |s| && EscapeRun(should, s[..n]).None?
    ensures EscapeRun(should, s).None? && CountEscaped(should, s) >= CountEscaped(should, s[..n]) > 0
  {
    if n == |s| {
      assert s[..n] == s;
      EscapeRunIsEscaped(should, s);
      EscapedLength(should, s);
      if CountEscaped(should, s) == 0 {
        PlainRun(should, s);
      }
    } else {
      assert s[..|s| - 1][..n] == s[..n];
      RunStops(should, s[..|s| - 1], n);
    }
  }

  lemma {:induction false} PlainRun(should: Byte -> bool, s: seq<Byte>)
    requires CountEscaped(should, s) == 0
    ensures EscapeRun(should, s).Some?
  {
    if s != [] {
      PlainRun(should, s[..|s| - 1]);
    }
  }

  /** The result is the escaped text exactly when that can be stored. */
  lemma {:induction false} EscapeRunIsEscaped(should: Byte -> bool, s: seq<Byte>)
    ensures EscapeRun(should, s) == Some(Escaped(should, s)) <==> Fits(|Escaped(should, s)|)
  {
    if s != [] {
      EscapeRunIsEscaped(should, s[..|s| - 1]);
    }
  }

  lemma {:induction false} PlainTailNeverFails(should: Byte -> bool, s: seq<Byte>, ch: Byte, n: nat)
    requires EscapeRun(should, s).Some? && !should(ch)
    ensures EscapeRun(should, s + seq(n, i => ch)).Some?
    ensures |Escaped(should, s + seq(n, i => ch))| == |Escaped(should, s)| + n
  {
    var t := s + seq(n, i => ch);
    if n == 0 {
      assert t == s;
    } else {
      PlainTailNeverFails(should, s, ch, n - 1);
      assert t[..|t| - 1] == s + seq(n - 1, i => ch);
    }
  }

  lemma {:induction false} EscapedRepeat(should: Byte -> bool, ch: Byte, n: nat)
    requires should(ch)
    ensures |Escaped(should, seq(n, i => ch))| == 3 * n
  {
    if n > 0 {
      var s := seq(n, i => ch);
      assert s[..n - 1] == seq(n - 1, i => ch);
      EscapedRepeat(should, ch, n - 1);
    }
  }

  /** A text on which Escape reports success and loses characters: percent signs whose escapes fill the
      string, and letters behind them. */
  lemma EscapeMayTruncate(s: seq<Byte>)
    requires s == seq(0x5555_5554, i => PERCENT) + seq(10, i => 97)
    ensures |s| < 0x8000_0000 && NulFree(s)
    ensures EscapeRun(FShouldEscapeUrl, s).Some? && EscapeRun(FShouldEscapeUrl, s) != Some(Escaped(FShouldEscapeUrl, s))
  {
    var signs := seq(0x5555_5554, i => PERCENT);
    EscapedRepeat(FShouldEscapeUrl, PERCENT, 0x5555_5554);
    EscapeRunIsEscaped(FShouldEscapeUrl, signs);
    PlainTailNeverFails(FShouldEscapeUrl, signs, 97, 10);
    EscapeRunIsEscaped(FShouldEscapeUrl, s);
  }

  // ----- Decoding

  /** The text that ends at the first NUL. */
  function CutAtNul(s: seq<Byte>): (c: seq<Byte>)
    ensures NulFree(c) && c <= s
    ensures |c| < |s| ==> s[|c|] == 0
  {
    if s == [] || s[0] == 0 then [] else [s[0]] + CutAtNul(s[1..])
  }

  lemma {:induction false} CutIs(s: seq<Byte>, n: nat)
    requires n <= |s| && NulFree(s[..n]) && (n < |s| ==> s[n] == 0)
    ensures CutAtNul(s) == s[..n]
  {
    if n > 0 {
      assert s[1..][..n - 1] == s[..n][1..];
      assert s[..n][0] == s[0];
      CutIs(s[1..], n - 1);
    }
  }

  lemma CutKeeps(s: seq<Byte>, n: nat)
    requires n <= |s| && NulFree(s[..n])
    ensures n <= |CutAtNul(s)| && CutAtNul(s)[..n] == s[..n]
  {
  }

  lemma CutAfter(a: seq<Byte>, b: seq<Byte>)
    requires NulFree(a)
    ensures CutAtNul(a + b) == a + CutAtNul(b)
  {
    var n := |a| + |CutAtNul(b)|;
    assert (a + b)[..n] == a + CutAtNul(b);
    CutIs(a + b, n);
  }

  predicate HexAt(c: seq<int>, i: nat) {
    i + 2 < |c| && c[i] == PERCENT && IsHex(c[i + 1]) && IsHex(c[i + 2])
  }

  function HexByte(c: seq<int>, i: nat): Byte
    requires HexAt(c, i)
  {
    HexValue(c[i + 1]) * 16 + HexValue(c[i + 2])
  }

  predicate UnicodeAt(c: seq<int>, i: nat) {
    && i + 5 < |c| && c[i] == PERCENT && (c[i + 1] == 117 || c[i + 1] == 85)
    && IsHex(c[i + 2]) && IsHex(c[i + 3]) && IsHex(c[i + 4]) && IsHex(c[i + 5])
  }

  function UnicodeChar(c: seq<int>, i: nat): WChar
    requires UnicodeAt(c, i)
  {
    HexValue(c[i + 2]) * 4096 + HexValue(c[i + 3]) * 256 + HexValue(c[i + 4]) * 16 + HexValue(c[i + 5])
  }

  predicate EscapeAt(c: seq<int>, i: nat) {
    HexAt(c, i) || UnicodeAt(c, i)
  }

  /** What the system makes of one Unicode character in the current code page: at most 6 bytes. */
  datatype CodePage = CodePage(toBytes: WChar -> seq<Byte>) {
    function Bytes(w: WChar): (s: seq<Byte>)
      ensures |s| <= 6
    {
      if |toBytes(w)| <= 6 then toBytes(w) else []
    }
  }

  /** The text c from position i on, with every escape replaced by what it stands for. */
  function Decode(page: CodePage, c: seq<Byte>, i: nat): seq<Byte>
    requires i <= |c|
    decreases |c| - i
  {
    if i == |c| then []
    else if UnicodeAt(c, i) then page.Bytes(UnicodeChar(c, i)) + Decode(page, c, i + 6)
    else if HexAt(c, i) then [HexByte(c, i)] + Decode(page, c, i + 3)
    else [c[i]] + Decode(page, c, i + 1)
  }

  /** Decoding in characters: an escape of two digits is the byte that they spell ... */
  lemma DecodeByte(page: CodePage, c: seq<Byte>, i: nat, x: nat, y: nat)
    requires i + 2 < |c| && c[i] == '%' as int && Digit(c[i + 1], x) && Digit(c[i + 2], y)
    ensures Decode(page, c, i) == [16 * x + y] + Decode(page, c, i + 3)
  {
    hide Decode, IsHex, HexValue, Digit, HexDigit;
    DecodeAt(page, c, i);
    DigitsAre(c[i + 1]);
    DigitsAre(c[i + 2]);
    LetterU();
  }

  /** ... one of four digits behind the letter u is that character in the code page ... */
  lemma DecodeWide(page: CodePage, c: seq<Byte>, i: nat, x: nat, y: nat, z: nat, w: nat)
    requires i + 5 < |c| && c[i] == '%' as int && (c[i + 1] == 'u' as int || c[i + 1] == 'U' as int)
    requires Digit(c[i + 2], x) && Digit(c[i + 3], y) && Digit(c[i + 4], z) && Digit(c[i + 5], w)
    requires x < 16 && y < 16 && z < 16 && w < 16
    ensures Decode(page, c, i) == page.Bytes(4096 * x + 256 * y + 16 * z + w) + Decode(page, c, i + 6)
  {
    hide Decode, IsHex, HexValue, Digit, HexDigit;
    DecodeAt(page, c, i);
    DigitsAre(c[i + 2]);
    DigitsAre(c[i + 3]);
    DigitsAre(c[i + 4]);
    DigitsAre(c[i + 5]);
  }

  /** ... and everything that does not follow a percent sign in this way stands for itself. */
  lemma DecodeOther(page: CodePage, c: seq<Byte>, i: nat)
    requires i < |c|
    requires c[i] == '%' as int ==> !TwoDigits(c, i + 1)
    requires c[i] == '%' as int && i + 1 < |c| && (c[i + 1] == 'u' as int || c[i + 1] == 'U' as int) ==>
               !TwoDigits(c, i + 2) || !TwoDigits(c, i + 4)
    ensures Decode(page, c, i) == [c[i]] + Decode(page, c, i + 1)
  {
    hide Decode, IsHex, HexValue, HexDigit, TwoDigits;
    DecodeAt(page, c, i);
    TwoDigitsAre(c, i + 1);
    TwoDigitsAre(c, i + 2);
    TwoDigitsAre(c, i + 4);
  }

  ghost predicate TwoDigits(c: seq<Byte>, i: nat) {
    i + 1 < |c| && !NoDigit(c[i]) && !NoDigit(c[i + 1])
  }

  lemma TwoDigitsAre(c: seq<Byte>, i: nat)
    ensures TwoDigits(c, i) <==> i + 1 < |c| && IsHex(c[i]) && IsHex(c[i + 1])
  {
    hide IsHex, Digit;
    if i + 1 < |c| {
      DigitsAre(c[i]);
      DigitsAre(c[i + 1]);
    }
  }

  lemma DecodeAt(page: CodePage, c: seq<Byte>, i: nat)
    requires i < |c|
    ensures UnicodeAt(c, i) ==>
              i + 6 <= |c| && Decode(page, c, i) == page.Bytes(UnicodeChar(c, i)) + Decode(page, c, i + 6)
    ensures !UnicodeAt(c, i) && HexAt(c, i) ==>
              i + 3 <= |c| && Decode(page, c, i) == [HexByte(c, i)] + Decode(page, c, i + 3)
    ensures !UnicodeAt(c, i) && !HexAt(c, i) ==> Decode(page, c, i) == [c[i]] + Decode(page, c, i + 1)
  {
  }

  lemma LetterU()
    ensures !IsHex('u' as int) && !IsHex('U' as int)
  {
  }

  /** Up to the next escape the text is copied. */
  lemma {:induction false} DecodePlain(page: CodePage, c: seq<Byte>, i: nat, j: nat)
    requires i <= j <= |c| && forall k: nat | i <= k < j :: !EscapeAt(c, k)
    ensures Decode(page, c, i) == c[i..j] + Decode(page, c, j)
    decreases j - i
  {
    hide Decode, EscapeAt;
    if i == j {
      assert c[i..j] == [];
    } else {
      DecodeOne(page, c, i);
      DecodePlain(page, c, i + 1, j);
      Consed(c, i, j, Decode(page, c, j));
    }
  }

  lemma DecodeOne(page: CodePage, c: seq<Byte>, i: nat)
    requires i < |c| && !EscapeAt(c, i)
    ensures Decode(page, c, i) == [c[i]] + Decode(page, c, i + 1)
  {
  }

  lemma Consed(c: seq<Byte>, i: nat, j: nat, rest: seq<Byte>)
    requires i < j <= |c|
    ensures [c[i]] + (c[i + 1..j] + rest) == c[i..j] + rest
  {
    assert c[i..j] == [c[i]] + c[i + 1..j];
  }

  /** The first position from i on with property `%`, or with an escape; |c| when there is none. */
  function NextPercent(c: seq<Byte>, i: nat): (n: nat)
    requires i <= |c|
    ensures i <= n <= |c| && (n < |c| ==> c[n] == PERCENT) && forall k | i <= k < n :: c[k] != PERCENT
    decreases |c| - i
  {
    if i == |c| || c[i] == PERCENT then i else NextPercent(c, i + 1)
  }

  function NextEscape(c: seq<Byte>, i: nat): (n: nat)
    requires i <= |c|
    ensures i <= n <= |c| && (n < |c| ==> EscapeAt(c, n)) && forall k | i <= k < n :: !EscapeAt(c, k)
    decreases |c| - i
  {
    if i == |c| || EscapeAt(c, i) then i else NextEscape(c, i + 1)
  }

  function CountPercent(s: seq<Byte>): (n: nat)
    ensures n <= |s|
  {
    if s == [] then 0 else CountPercent(s[..|s| - 1]) + if s[|s| - 1] == PERCENT then 1 else 0
  }

  /** How many characters of c Unescape keeps in front of the first escape: all up to the first `%`, but behind
      it only as many as there are bare `%` before the escape. */
  function KeptInFront(c: seq<Byte>): (n: nat)
    ensures n <= NextEscape(c, 0)
  {
    FrontBound(c);
    NextPercent(c, 0) + CountPercent(c[NextPercent(c, 0)..NextEscape(c, 0)])
  }

  lemma FrontBound(c: seq<Byte>)
    ensures NextPercent(c, 0) <= NextEscape(c, 0)
  {
  }

  /** What Unescape makes of the text s. */
  function Unescaped(page: CodePage, s: seq<Byte>): seq<Byte> {
    var c := CutAtNul(s);
    var q := NextEscape(c, 0);
    if q == |c| then s else CutAtNul(c[..KeptInFront(c)] + Decode(page, c, q))
  }

  /** What the documentation of Unescape promises. */
  function UnescapedAsDocumented(page: CodePage, s: seq<Byte>): seq<Byte> {
    var c := CutAtNul(s);
    if NextEscape(c, 0) == |c| then s else CutAtNul(Decode(page, c, 0))
  }

  /** Nothing but `%` stands between the first `%` and the first escape. */
  predicate OnlyPercentsInFront(c: seq<Byte>) {
    forall k | NextPercent(c, 0) <= k < NextEscape(c, 0) :: c[k] == PERCENT
  }

  lemma {:induction false} CountAllPercent(s: seq<Byte>)
    ensures CountPercent(s) == |s| <==> forall k | 0 <= k < |s| :: s[k] == PERCENT
  {
    if s != [] {
      CountAllPercent(s[..|s| - 1]);
      assert forall k | 0 <= k < |s| - 1 :: s[..|s| - 1][k] == s[k];
    }
  }

  /** Unescape does what is documented exactly when the text has no escape, or nothing but `%` stands between
      its first `%` and its first escape. */
  lemma UnescapeIff(page: CodePage, s: seq<Byte>)
    ensures Unescaped(page, s) == UnescapedAsDocumented(page, s) <==>
            (var c := CutAtNul(s); NextEscape(c, 0) == |c| || OnlyPercentsInFront(c))
  {
    hide EscapeAt, CutAtNul, Decode, NextEscape, NextPercent, KeptInFront, OnlyPercentsInFront;
    var c := CutAtNul(s);
    var q, n := NextEscape(c, 0), KeptInFront(c);
    if q < |c| {
      DecodePlain(page, c, 0, q);
      assert c[0..q] == c[..q];
      KeptAll(c);
      CutAfter(c[..q], Decode(page, c, q));
      CutAfter(c[..n], Decode(page, c, q));
      assert |c[..q]| == q && |c[..n]| == n;
    }
  }

  lemma KeptAll(c: seq<Byte>)
    ensures KeptInFront(c) == NextEscape(c, 0) <==> OnlyPercentsInFront(c)
  {
    var p, q := NextPercent(c, 0), NextEscape(c, 0);
    FrontBound(c);
    CountAllPercent(c[p..q]);
    if k :| p <= k < q && c[k] != PERCENT {
      assert c[p..q][k - p] == c[k];
    }
  }

  /** `a%b%41` becomes `a%A`. */
  lemma UnescapeLosesText(page: CodePage)
    ensures Unescaped(page, [97, PERCENT, 98, PERCENT, 52, 49]) == [97, PERCENT, 65]
    ensures UnescapedAsDocumented(page, [97, PERCENT, 98, PERCENT, 52, 49]) == [97, PERCENT, 98, 65]
  {
    var c := [97, PERCENT, 98, PERCENT, 52, 49];
    CutIs(c, 6);
    assert c[..6] == c;
    assert !EscapeAt(c, 0) && !EscapeAt(c, 1) && !EscapeAt(c, 2) && EscapeAt(c, 3) && HexAt(c, 3)
           && HexByte(c, 3) == 65;
    assert NextEscape(c, 0) == 3 && NextPercent(c, 0) == 1;
    assert c[1..3] == [PERCENT, 98];
    assert CountPercent([PERCENT, 98]) == 1 by {
      assert [PERCENT, 98][..1] == [PERCENT] && [PERCENT][..0] == [];
    }
    assert Decode(page, c, 3) == [65];
    assert c[..2] + [65] == [97, PERCENT, 65];
    DecodePlain(page, c, 0, 3);
    assert c[0..3] + [65] == [97, PERCENT, 98, 65];
    CutIs([97, PERCENT, 65], 3);
    CutIs([97, PERCENT, 98, 65], 4);
    assert [97, PERCENT, 65][..3] == [97, PERCENT, 65] && [97, PERCENT, 98, 65][..4] == [97, PERCENT, 98, 65];
  }

  // ----- Round trips

  /** Decoding two-digit escapes only. */
  function CharDecode(c: seq<Byte>, i: nat): seq<Byte>
    requires i <= |c|
    decreases |c| - i
  {
    if i == |c| then []
    else if HexAt(c, i) then [HexByte(c, i)] + CharDecode(c, i + 3)
    else [c[i]] + CharDecode(c, i + 1)
  }

  lemma {:induction false} DecodeHexOnly(page: CodePage, c: seq<Byte>, i: nat)
    requires i <= |c| && forall k: nat :: !UnicodeAt(c, k)
    ensures Decode(page, c, i) == CharDecode(c, i)
    decreases |c| - i
  {
    if i == |c| {
    } else if HexAt(c, i) {
      DecodeHexOnly(page, c, i + 3);
    } else {
      DecodeHexOnly(page, c, i + 1);
    }
  }

  lemma {:induction false} CharDecodeEscaped(a: seq<Byte>, t: seq<Byte>)
    ensures CharDecode(a + Escaped(FShouldEscapeUrl, t), |a|) == t
    decreases |t|
  {
    hide FShouldEscapeUrl, CharDecode, Escaped;
    var c := a + Escaped(FShouldEscapeUrl, t);
    if t == [] {
      assert Escaped(FShouldEscapeUrl, []) == [] by {
        EscapedLength(FShouldEscapeUrl, []);
      }
      assert c == a;
      CharDecodeEnd(a);
    } else {
      var e := EscapedChar(FShouldEscapeUrl, t[0]);
      var rest := Escaped(FShouldEscapeUrl, t[1..]);
      assert t == [t[0]] + t[1..];
      EscapedCons(FShouldEscapeUrl, t[0], t[1..]);
      assert c == (a + e) + rest;
      CharDecodeEscaped(a + e, t[1..]);
      DecodeEscapedChar(a, t[0], rest);
    }
  }

  lemma DecodeEscapedChar(a: seq<Byte>, ch: Byte, rest: seq<Byte>)
    ensures var e := EscapedChar(FShouldEscapeUrl, ch);
            CharDecode(a + e + rest, |a|) == [ch] + CharDecode(a + e + rest, |a + e|)
  {
  }

  lemma CharDecodeOne(c: seq<Byte>, i: nat)
    requires i < |c|
    ensures HexAt(c, i) ==> i + 3 <= |c| && CharDecode(c, i) == [HexByte(c, i)] + CharDecode(c, i + 3)
    ensures !HexAt(c, i) ==> CharDecode(c, i) == [c[i]] + CharDecode(c, i + 1)
  {
  }

  lemma CharDecodeEnd(c: seq<Byte>)
    ensures CharDecode(c, |c|) == []
  {
  }

  lemma EscapedEscapes(s: seq<Byte>)
    requires NulFree(s)
    ensures var c := Escaped(FShouldEscapeUrl, s);
            NulFree(c) && forall k | 0 <= k < |c| :: (c[k] == PERCENT <==> HexAt(c, k)) && !UnicodeAt(c, k)
  {
  }

  /** Unescape takes back Escape. */
  lemma UnescapeAfterEscape(page: CodePage, s: seq<Byte>)
    requires NulFree(s)
    ensures Unescaped(page, Escaped(FShouldEscapeUrl, s)) == s
  {
    hide Escaped, HexAt, UnicodeAt, CutAtNul, Decode, CharDecode, NextEscape, NextPercent;
    var c := Escaped(FShouldEscapeUrl, s);
    EscapedEscapes(s);
    CutWhole(c);
    CutWhole(s);
    FirstPercentEscapes(c);
    UnescapeIff(page, c);
    DecodePlain(page, c, 0, NextEscape(c, 0));
    forall k: nat ensures !UnicodeAt(c, k) {
      NotUnicode(c, k);
    }
    DecodeHexOnly(page, c, 0);
    CharDecodeEscaped([], s);
    assert [] + c == c;
    if NextEscape(c, 0) == |c| {
      DecodeEnd(page, c);
      assert c[0..|c|] == c;
    }
  }

  lemma CutWhole(s: seq<Byte>)
    requires NulFree(s)
    ensures CutAtNul(s) == s
  {
  }

  lemma DecodeEnd(page: CodePage, c: seq<Byte>)
    ensures Decode(page, c, |c|) == []
  {
  }

  lemma NotUnicode(c: seq<Byte>, k: nat)
    requires forall j | 0 <= j < |c| :: !UnicodeAt(c, j)
    ensures !UnicodeAt(c, k)
  {
  }

  lemma FirstPercentEscapes(c: seq<Byte>)
    requires forall k | 0 <= k < |c| :: c[k] == PERCENT <==> HexAt(c, k)
    ensures NextPercent(c, 0) >= NextEscape(c, 0)
  {
    var p := NextPercent(c, 0);
    assert p < |c| ==> EscapeAt(c, p);
  }
}
