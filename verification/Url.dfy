/** UTILITY::UnEscapeUrl, the second decoder: it copies a URL piece by piece. */
module Url {
  import opened Words
  import opened Escape
  import opened Strings

  /** What the system makes of a stretch of wide characters. */
  datatype Narrowing = Narrowing(narrow: seq<WChar> -> seq<Byte>) {
    function Bytes(s: seq<WChar>): seq<Byte> {
      narrow(s)
    }
  }

  ghost predicate KeepsAscii(n: Narrowing) {
    forall s: seq<WChar> :: (forall k | 0 <= k < |s| :: s[k] < 128) ==> n.Bytes(s) == s
  }

  /** Where a piece that is copied ends: at an escape, at the end, or at the query. An escape may straddle the
      given length, as the decoder looks at the characters behind it. */
  function PieceEnd(url: seq<WChar>, cch: nat, copyQuery: bool, i: nat): (e: nat)
    requires i <= cch <= |url|
    ensures i <= e <= cch
    ensures e < cch ==> HexAt(url, e) || (!copyQuery && url[e] == 63)
    ensures forall k | i <= k < e :: !HexAt(url, k) && (copyQuery || url[k] != 63)
    decreases cch - i
  {
    if i == cch || HexAt(url, i) || (!copyQuery && url[i] == 63) then i else PieceEnd(url, cch, copyQuery, i + 1)
  }

  function Piece(n: Narrowing, url: seq<WChar>, i: nat, e: nat): seq<Byte>
    requires i <= e <= |url|
  {
    if i < e then n.Bytes(url[i..e]) else []
  }

  /** The decoded URL from position i on. */
  function Decoded(n: Narrowing, url: seq<WChar>, cch: nat, copyQuery: bool, i: nat): seq<Byte>
    requires cch <= |url|
    decreases |url| - i
  {
    if i >= cch then []
    else
      var e := PieceEnd(url, cch, copyQuery, i);
      if e < cch && HexAt(url, e) then Piece(n, url, i, e) + [HexByte(url, e)] + Decoded(n, url, cch, copyQuery, e + 3)
      else Piece(n, url, i, e)
  }

  lemma PieceEndIs(url: seq<WChar>, cch: nat, copyQuery: bool, i: nat, e: nat)
    requires i <= e <= cch <= |url| && (e < cch ==> HexAt(url, e) || (!copyQuery && url[e] == 63))
    requires forall k | i <= k < e :: !HexAt(url, k) && (copyQuery || url[k] != 63)
    ensures PieceEnd(url, cch, copyQuery, i) == e
  {
  }

  /** The character that stands at i, counting the terminating NUL. */
  function CharAt(s: seq<WChar>, i: nat): WChar {
    if i < |s| then s[i] else 0
  }

  /** The decoded URL is appended to the result, unless the result grows too long. */
  method UnEscapeUrl(n: Narrowing, url: seq<WChar>, cchUrl: nat, copyQuery: bool, result: Stra) returns (hr: HStatus)
    requires result.Valid() && NulFree(url) && cchUrl <= |url|
    modifies result, result.buffer
    ensures result.Valid()
    ensures var all := Decoded(n, url, cchUrl, copyQuery, 0);
            && (hr == S_OK <==> Fits(old(result.cchLen) + |all|))
            && (hr == S_OK ==> result.Text() == old(result.Text()) + all)
  {
    hide HexAt, Decoded, PieceEnd, IsHex, HexValue;
    ghost var text, all := result.Text(), Decoded(n, url, cchUrl, copyQuery, 0);
    var start, index := 0, 0;
    while index < cchUrl && (copyQuery || url[index] != 63)
      invariant start <= index <= |url| && (index > start ==> index <= cchUrl)
      invariant result.Valid() && (result.buffer == old(result.buffer) || fresh(result.buffer))
      invariant forall k | start <= k < index :: !HexAt(url, k) && (copyQuery || url[k] != 63)
      invariant text + all == result.Text() + Decoded(n, url, cchUrl, copyQuery, start)
      decreases |url| - index
    {
      HexAtIs(url, index);
      if url[index] == PERCENT && IsHex(CharAt(url, index + 1)) && IsHex(CharAt(url, index + 2)) {
        DecodedAtEscape(n, url, cchUrl, copyQuery, start, index);
        hr := AppendEscape(n, url, start, index, result);
        if hr != S_OK {
          return;
        }
        start := index + 3;
        index := index + 3;
      } else {
        index := index + 1;
      }
    }
    DecodedAtEnd(n, url, cchUrl, copyQuery, start, index);
    hr := S_OK;
    if index > start {
      hr := result.AppendW(n.Bytes(url[start..index]));
    }
  }

  /** The text in front of an escape, if there is any, and the character that the escape stands for. */
  method AppendEscape(n: Narrowing, url: seq<WChar>, start: nat, index: nat, result: Stra) returns (hr: HStatus)
    requires result.Valid() && start <= index < |url| && HexAt(url, index)
    modifies result, result.buffer
    ensures result.Valid() && (result.buffer == old(result.buffer) || fresh(result.buffer))
    ensures var more := Piece(n, url, start, index) + [HexByte(url, index)];
            && (hr == S_OK <==> Fits(old(result.cchLen) + |more|))
            && (hr == S_OK ==> result.Text() == old(result.Text()) + more)
  {
    hide HexAt, IsHex, HexValue;
    HexAtIs(url, index);
    if index > start {
      hr := result.AppendW(n.Bytes(url[start..index]));
      if hr != S_OK {
        return;
      }
    }
    hr := result.Append([HexValue(CharAt(url, index + 1)) * 16 + HexValue(CharAt(url, index + 2))]);
  }

  lemma HexAtIs(url: seq<WChar>, i: nat)
    requires i < |url|
    ensures HexAt(url, i) <==> url[i] == PERCENT && IsHex(CharAt(url, i + 1)) && IsHex(CharAt(url, i + 2))
    ensures HexAt(url, i) ==>
              i + 3 <= |url| && HexByte(url, i) == HexValue(CharAt(url, i + 1)) * 16 + HexValue(CharAt(url, i + 2))
  {
  }

  lemma DecodedAtEscape(n: Narrowing, url: seq<WChar>, cch: nat, copyQuery: bool, i: nat, e: nat)
    requires i <= e < cch <= |url| && HexAt(url, e)
    requires forall k | i <= k < e :: !HexAt(url, k) && (copyQuery || url[k] != 63)
    ensures Decoded(n, url, cch, copyQuery, i)
            == Piece(n, url, i, e) + [HexByte(url, e)] + Decoded(n, url, cch, copyQuery, e + 3)
  {
    hide HexAt;
    PieceEndIs(url, cch, copyQuery, i, e);
  }

  lemma DecodedAtEnd(n: Narrowing, url: seq<WChar>, cch: nat, copyQuery: bool, i: nat, e: nat)
    requires i <= e <= |url| && cch <= |url| && (i < e ==> e <= cch) && (e < cch ==> !copyQuery && url[e] == 63)
    requires forall k | i <= k < e :: !HexAt(url, k) && (copyQuery || url[k] != 63)
    ensures Decoded(n, url, cch, copyQuery, i) == Piece(n, url, i, e)
  {
  }

  /** In characters: where no escape comes first, the query is cut off at the first question mark, and kept when
      it is asked for. */
  lemma QueryInCharacters(n: Narrowing, url: seq<WChar>, q: nat)
    requires q < |url| && url[q] == '?' as int && forall k | 0 <= k < q :: url[k] != '?' as int
    requires forall k | 0 <= k < |url| :: url[k] != '%' as int
    ensures Decoded(n, url, |url|, false, 0) == if q == 0 then [] else n.Bytes(url[..q])
    ensures Decoded(n, url, |url|, true, 0) == n.Bytes(url)
  {
    hide Decoded;
    DecodedAtEnd(n, url, |url|, false, 0, q);
    DecodedAtEnd(n, url, |url|, true, 0, |url|);
    assert url[0..q] == url[..q] && url[0..|url|] == url;
  }

  /** In characters: an escape of two digits, in either case, is the byte that they spell, and what is in front of
      it is converted as one piece. */
  lemma EscapeInCharacters(n: Narrowing, url: seq<WChar>, cch: nat, copyQuery: bool, e: nat, x: nat, y: nat)
    requires e + 2 < |url| && e < cch <= |url| && forall k | 0 <= k < e :: url[k] != '%' as int && url[k] != '?' as int
    requires url[e] == '%' as int && Digit(url[e + 1], x) && Digit(url[e + 2], y)
    ensures Decoded(n, url, cch, copyQuery, 0) ==
            (if e == 0 then [] else n.Bytes(url[..e])) + [16 * x + y] + Decoded(n, url, cch, copyQuery, e + 3)
  {
    hide Decoded, IsHex, HexValue, Digit, HexDigit;
    DigitsAre(url[e + 1]);
    DigitsAre(url[e + 2]);
    DecodedAtEscape(n, url, cch, copyQuery, 0, e);
    assert url[0..e] == url[..e];
  }

  // ----- Round trip

  lemma {:induction false} CharDecodePiece(c: seq<Byte>, i: nat, e: nat)
    requires i <= e <= |c| && forall k | i <= k < e :: !HexAt(c, k)
    ensures CharDecode(c, i) == c[i..e] + CharDecode(c, e)
    decreases e - i
  {
    hide HexAt, CharDecode;
    if i == e {
      assert c[i..e] == [];
    } else {
      CharDecodeOne(c, i);
      CharDecodePiece(c, i + 1, e);
      Consed(c, i, e, CharDecode(c, e));
    }
  }

  lemma {:induction false} DecodedAscii(n: Narrowing, c: seq<Byte>, copyQuery: bool, i: nat)
    requires KeepsAscii(n) && i <= |c| && forall k | 0 <= k < |c| :: c[k] < 128 && c[k] != 63
    ensures Decoded(n, c, |c|, copyQuery, i) == CharDecode(c, i)
    decreases |c| - i
  {
    hide HexAt, PieceEnd, CharDecode, KeepsAscii, Decoded;
    if i == |c| {
      DecodedAtEnd(n, c, |c|, copyQuery, i, i);
      assert CharDecode(c, i) == [] by {
        CharDecodeEnd(c);
      }
    } else {
      var e := PieceEnd(c, |c|, copyQuery, i);
      CharDecodePiece(c, i, e);
      AsciiPiece(n, c, i, e);
      if e < |c| {
        DecodedAtEscape(n, c, |c|, copyQuery, i, e);
        CharDecodeOne(c, e);
        DecodedAscii(n, c, copyQuery, e + 3);
        assert c[i..e] + ([HexByte(c, e)] + CharDecode(c, e + 3)) == c[i..e] + [HexByte(c, e)] + CharDecode(c, e + 3);
      } else {
        DecodedAtEnd(n, c, |c|, copyQuery, i, e);
        CharDecodeEnd(c);
        assert c[i..e] + [] == c[i..e];
      }
    }
  }

  lemma AsciiPiece(n: Narrowing, c: seq<Byte>, i: nat, e: nat)
    requires KeepsAscii(n) && i <= e <= |c| && forall k | 0 <= k < |c| :: c[k] < 128
    ensures Piece(n, c, i, e) == c[i..e]
  {
  }

  /** Both decoders take back Escape, with or without the query: escaping leaves no '?' behind. */
  lemma DecodersInvertEscape(page: CodePage, n: Narrowing, copyQuery: bool, s: seq<Byte>)
    requires NulFree(s) && KeepsAscii(n)
    ensures var c := Escaped(FShouldEscapeUrl, s);
            Unescaped(page, c) == s && Decoded(n, c, |c|, copyQuery, 0) == s
  {
    var c := Escaped(FShouldEscapeUrl, s);
    UnescapeAfterEscape(page, s);
    forall k | 0 <= k < |c| ensures c[k] < 128 && c[k] != 63 {
      PercentStartsEscape(s, k);
    }
    DecodedAscii(n, c, copyQuery, 0);
    CharDecodeEscaped([], s);
    assert [] + c == c;
  }

  /** Whatever Escape leaves in a string that can hold its escaped text, the decoders turn back. */
  lemma EscapeRoundTrip(page: CodePage, n: Narrowing, copyQuery: bool, s: seq<Byte>, hr: HStatus, after: seq<Byte>)
    requires NulFree(s) && KeepsAscii(n) && Stra.EscapeOutcome(FShouldEscapeUrl, s, hr, after)
    requires |s| + 2 * CountEscaped(FShouldEscapeUrl, s) < MAXDWORD
    ensures hr == S_OK && |after| == |s| + 2 * CountEscaped(FShouldEscapeUrl, s)
    ensures Unescaped(page, after) == s && Decoded(n, after, |after|, copyQuery, 0) == s
  {
    CutWhole(s);
    EscapedLength(FShouldEscapeUrl, s);
    EscapeRunIsEscaped(FShouldEscapeUrl, s);
    DecodersInvertEscape(page, n, copyQuery, s);
  }
}
