/** STRA, the growable byte string, with escaping and unescaping in place, and the decoder for URLs. */
module Strings {
  import opened Words
  import opened Escape

  datatype HStatus = S_OK | E_OUTOFMEMORY | ARITHMETIC_OVERFLOW

  /** b with some of its bytes overwritten. */
  ghost function Splice(b: seq<Byte>, dest: nat, bytes: seq<Byte>): (r: seq<Byte>)
    requires dest + |bytes| <= |b|
    ensures |r| == |b| && r[..dest + |bytes|] == b[..dest] + bytes
    ensures forall k | dest + |bytes| <= k <= |b| :: r[k..] == b[k..]
  {
    b[..dest] + bytes + b[dest + |bytes|..]
  }

  /** The two pointers of Unescape stand at dest and scan in the bytes b, which were b0, with the text c in front.
      The source pointer is never overtaken, and what it has not reached yet is unchanged. Once something has
      changed, the bytes before dest and the decoding of what lies ahead make up the result. */
  ghost predicate Progress(page: CodePage, b0: seq<Byte>, c: seq<Byte>, b: seq<Byte>, scan: nat, dest: nat,
                           changed: bool) {
    && dest <= scan <= |c| < |b0| == |b|
    && b[scan..] == b0[scan..]
    && (!changed ==>
          && b == b0 && (forall k | 0 <= k < scan :: !EscapeAt(c, k))
          && NextPercent(c, 0) <= scan && dest == NextPercent(c, 0) + CountPercent(c[NextPercent(c, 0)..scan]))
    && (changed ==> NextEscape(c, 0) < |c| && b[..dest] + Decode(page, c, scan) == Result(page, c))
  }

  ghost function Result(page: CodePage, c: seq<Byte>): seq<Byte> {
    c[..KeptInFront(c)] + Decode(page, c, NextEscape(c, 0))
  }

  /** What is left to decode at an escape or a bare '%'. */
  function Unit(page: CodePage, c: seq<Byte>, i: nat): (bytes: seq<Byte>)
    requires i < |c|
  {
    if UnicodeAt(c, i) then page.Bytes(UnicodeChar(c, i)) else if HexAt(c, i) then [HexByte(c, i)] else [c[i]]
  }

  function UnitSize(c: seq<Byte>, i: nat): (n: nat)
    requires i < |c|
    ensures 0 < n && i + n <= |c|
  {
    if UnicodeAt(c, i) then 6 else if HexAt(c, i) then 3 else 1
  }

  lemma UnitDecodes(page: CodePage, c: seq<Byte>, i: nat)
    requires i < |c|
    ensures Decode(page, c, i) == Unit(page, c, i) + Decode(page, c, i + UnitSize(c, i))
    ensures |Unit(page, c, i)| <= UnitSize(c, i)
  {
  }

  /** Writing the unit at scan to dest and moving on. */
  lemma UnitProgress(page: CodePage, b0: seq<Byte>, c: seq<Byte>, b: seq<Byte>, scan: nat, dest: nat, changed: bool)
    requires c < b0 && Progress(page, b0, c, b, scan, dest, changed) && scan < |c| && c[scan] == PERCENT
    requires changed || EscapeAt(c, scan)
    ensures var unit := Unit(page, c, scan);
            && dest + |unit| <= |b|
            && Progress(page, b0, c, Splice(b, dest, unit), scan + UnitSize(c, scan), dest + |unit|, true)
  {
    hide EscapeAt, Decode, Unit, UnitSize, NextPercent, Splice, Result;
    UnitDecodes(page, c, scan);
    var unit, n := Unit(page, c, scan), UnitSize(c, scan);
    var b' := Splice(b, dest, unit);
    if !changed {
      assert NextEscape(c, 0) == scan;
      FrontOf(b0, c, dest);
      assert dest == KeptInFront(c) && b[..dest] == c[..dest];
      ResultIs(page, c);
    }
    assert b[..dest] + (unit + Decode(page, c, scan + n)) == b[..dest] + unit + Decode(page, c, scan + n);
    SameTail(b, b0, scan, scan + n);
  }

  lemma ResultIs(page: CodePage, c: seq<Byte>)
    ensures Result(page, c) == c[..KeptInFront(c)] + Decode(page, c, NextEscape(c, 0))
  {
  }

  lemma SameTail(a: seq<Byte>, b: seq<Byte>, i: nat, j: nat)
    requires |a| == |b| && i <= j <= |a| && a[i..] == b[i..]
    ensures a[j..] == b[j..] && forall k | i <= k <= j :: a[i..k] == b[i..k]
  {
    assert forall k | i <= k < |a| :: a[k] == a[i..][k - i] == b[i..][k - i] == b[k];
  }

  lemma FrontOf(b0: seq<Byte>, c: seq<Byte>, n: nat)
    requires c <= b0 && n <= |c|
    ensures b0[..n] == c[..n]
  {
  }

  /** A bare '%' before the first escape. */
  lemma BareProgress(page: CodePage, b0: seq<Byte>, c: seq<Byte>, scan: nat, dest: nat)
    requires Progress(page, b0, c, b0, scan, dest, false) && scan < |c| && c[scan] == PERCENT && !EscapeAt(c, scan)
    ensures Progress(page, b0, c, b0, scan + 1, dest + 1, false)
  {
    hide EscapeAt, NextEscape, Decode;
    var p := NextPercent(c, 0);
    var s := c[p..scan + 1];
    assert s[..|s| - 1] == c[p..scan] && s[|s| - 1] == PERCENT;
  }

  lemma NoEscapeBetween(page: CodePage, c: seq<Byte>, i: nat)
    requires i <= |c|
    ensures var n := NextPercent(c, i); Decode(page, c, i) == c[i..n] + Decode(page, c, n)
  {
    DecodePlain(page, c, i, NextPercent(c, i));
  }

  lemma BetweenProgress(page: CodePage, b0: seq<Byte>, c: seq<Byte>, b: seq<Byte>, scan: nat, dest: nat, next: nat)
    requires c < b0 && Progress(page, b0, c, b, scan, dest, true) && next == NextPercent(c, scan)
    ensures Progress(page, b0, c, Splice(b, dest, b[scan..next]), next, dest + (next - scan), true)
  {
    hide NextEscape, NextPercent, Decode, Result, Splice;
    NoEscapeBetween(page, c, scan);
    SameTail(b, b0, scan, next);
    assert b0[scan..next] == c[scan..next];
    assert b[..dest] + (c[scan..next] + Decode(page, c, next)) == b[..dest] + c[scan..next] + Decode(page, c, next);
  }

  lemma TailProgress(page: CodePage, b0: seq<Byte>, c: seq<Byte>, b: seq<Byte>, scan: nat, dest: nat, cch: nat)
    requires c < b0 && b0[|c|] == 0 && Progress(page, b0, c, b, scan, dest, true)
             && NextPercent(c, scan) == |c| <= cch < |b|
    ensures Settled(page, b0, c, Splice(b, dest, b[scan..cch + 1]), cch, true)
  {
    hide NextEscape, NextPercent, Result, Splice, CutAtNul;
    var r := Result(page, c);
    NoEscapeBetween(page, c, scan);
    SameTail(b, b0, scan, cch + 1);
    assert b0[scan..|c|] == c[scan..|c|] && b0[scan..cch + 1] == c[scan..|c|] + b0[|c|..cch + 1];
    assert r == b[..dest] + c[scan..|c|];
    var front, end := r + b0[|c|..cch + 1], dest + (cch + 1 - scan);
    var w := Splice(b, dest, b[scan..cch + 1])[..cch + 1];
    assert w[..end] == Splice(b, dest, b[scan..cch + 1])[..end] == front;
    assert front[|r|] == 0 && front <= w;
    CutPrefix(r, w);
  }

  /** How the buffer looks when no '%' is left. */
  ghost predicate Settled(page: CodePage, b0: seq<Byte>, c: seq<Byte>, b: seq<Byte>, cch: nat, changed: bool) {
    && cch < |b|
    && if changed then
         NextEscape(c, 0) < |c| && CutAtNul(b[..cch + 1]) == CutAtNul(Result(page, c)) && |Result(page, c)| <= cch
       else b == b0 && NextEscape(c, 0) == |c|
  }

  lemma UnescapedIs(page: CodePage, c: seq<Byte>, text: seq<Byte>)
    requires c == CutAtNul(text)
    ensures Unescaped(page, text) == if NextEscape(c, 0) == |c| then text else CutAtNul(Result(page, c))
  {
  }

  lemma ProgressStart(page: CodePage, b0: seq<Byte>, c: seq<Byte>)
    requires c < b0
    ensures var p := NextPercent(c, 0);
            if p < |c| then Progress(page, b0, c, b0, p, p, false) else NextEscape(c, 0) == |c|
  {
    FrontBound(c);
  }

  /** Without an escape so far, the next '%' is looked at where it stands; dest stays behind. */
  lemma QuietProgress(page: CodePage, b0: seq<Byte>, c: seq<Byte>, at: nat, dest: nat)
    requires c < b0 && Progress(page, b0, c, b0, at, dest, false)
    ensures var n := NextPercent(c, at);
            if n < |c| then Progress(page, b0, c, b0, n, dest, false) else NextEscape(c, 0) == |c|
  {
    var p, n := NextPercent(c, 0), NextPercent(c, at);
    assert forall k | at <= k < n :: !EscapeAt(c, k);
    CountNone(c, p, at, n);
  }

  lemma {:induction false} CountNone(c: seq<Byte>, p: nat, at: nat, n: nat)
    requires p <= at <= n <= |c| && forall k | at <= k < n :: c[k] != PERCENT
    ensures CountPercent(c[p..n]) == CountPercent(c[p..at])
    decreases n - at
  {
    if at < n {
      var s := c[p..n];
      assert s[..|s| - 1] == c[p..n - 1] && s[|s| - 1] == c[n - 1];
      CountNone(c, p, at, n - 1);
    }
  }

  lemma CutPrefix(r: seq<Byte>, w: seq<Byte>)
    requires r < w && w[|r|] == 0
    ensures CutAtNul(w) == CutAtNul(r)
  {
  }

  /** What a pointer at scan sees ahead of it. */
  lemma Ahead(page: CodePage, b0: seq<Byte>, c: seq<Byte>, b: seq<Byte>, scan: nat, dest: nat, changed: bool)
    requires c < b0 && b0[|c|] == 0 && Progress(page, b0, c, b, scan, dest, changed)
    ensures dest <= scan <= |c| < |b|
    ensures forall k | scan <= k <= |c| :: b[k] == if k < |c| then c[k] else 0
    ensures !changed ==> b == b0
  {
  }

  class Stra {
    var buffer: array<Byte>
    var cchLen: nat

    /** The text ends with a NUL inside the buffer. It may hold other NULs. */
    ghost predicate Valid()
      reads this, buffer
    {
      cchLen < buffer.Length && Fits(cchLen) && buffer[cchLen] == 0
    }

    ghost function Text(): (s: seq<Byte>)
      reads this, buffer
      requires Valid()
      ensures |s| == cchLen
    {
      buffer[..cchLen]
    }

    /** An empty string over a buffer of the given size. */
    constructor (cchInit: nat)
      requires cchInit > 0
      ensures Valid() && Text() == [] && fresh(buffer)
    {
      var data := new Byte[cchInit];
      data[0] := 0;
      buffer := data;
      cchLen := 0;
    }

    /** The buffer grows and keeps its bytes; it never shrinks. */
    method Resize(cb: nat) returns (ok: bool)
      requires Valid()
      modifies this
      ensures Valid() && Text() == old(Text()) && cchLen == old(cchLen)
      ensures buffer == old(buffer) || fresh(buffer)
      ensures ok <==> cb <= old(buffer.Length) || cb <= MAXDWORD
      ensures ok ==> buffer.Length >= cb
    {
      if cb <= buffer.Length {
        return true;
      }
      if cb > MAXDWORD {
        return false;
      }
      var data := new Byte[cb];
      for i := 0 to buffer.Length
        invariant this.buffer == old(this.buffer) && cchLen == old(cchLen) && unchanged(buffer)
        invariant forall k | 0 <= k < i :: data[k] == buffer[k]
      {
        data[i] := buffer[i];
      }
      buffer := data;
      ok := true;
    }

    /** The text up to cbOffset, followed by the given bytes. Nothing changes when that cannot be stored. */
    method AuxAppend(bytes: seq<Byte>, cbOffset: nat) returns (hr: HStatus)
      requires Valid() && cbOffset <= cchLen && |bytes| <= MAXDWORD
      modifies this, buffer
      ensures Valid() && (buffer == old(buffer) || fresh(buffer))
      ensures hr == if Fits(cbOffset + |bytes|) then S_OK else ARITHMETIC_OVERFLOW
      ensures Text() == if hr.S_OK? then old(Text()[..cbOffset]) + bytes else old(Text())
    {
      var cbNewSize := cbOffset + |bytes| + 1;
      if cbNewSize > MAXDWORD {
        return ARITHMETIC_OVERFLOW;
      }
      ghost var front := Text()[..cbOffset];
      if buffer.Length < cbNewSize {
        var ok := Resize(cbNewSize);
        assert Text()[..cbOffset] == front;
      }
      for i := 0 to |bytes|
        invariant Valid() || i > 0
        invariant cchLen == old(cchLen) && (buffer == old(buffer) || fresh(buffer)) && buffer.Length >= cbNewSize
        invariant buffer[..cbOffset] == front
        invariant buffer[cbOffset..cbOffset + i] == bytes[..i]
      {
        buffer[cbOffset + i] := bytes[i];
      }
      cchLen := |bytes| + cbOffset;
      buffer[cchLen] := 0;
      assert buffer[..cchLen] == front + bytes;
      hr := S_OK;
    }

    method Append(bytes: seq<Byte>) returns (hr: HStatus)
      requires Valid() && |bytes| <= MAXDWORD
      modifies this, buffer
      ensures Valid() && (buffer == old(buffer) || fresh(buffer))
      ensures hr == if bytes == [] || Fits(old(cchLen) + |bytes|) then S_OK else ARITHMETIC_OVERFLOW
      ensures Text() == if hr.S_OK? then old(Text()) + bytes else old(Text())
    {
      if |bytes| == 0 {
        return S_OK;
      }
      assert Text()[..cchLen] == Text();
      hr := AuxAppend(bytes, cchLen);
    }

    /** AppendW, given the bytes that the wide characters convert to. */
    method AppendW(bytes: seq<Byte>) returns (hr: HStatus)
      requires Valid()
      modifies this, buffer
      ensures Valid() && (buffer == old(buffer) || fresh(buffer))
      ensures hr == if bytes == [] || Fits(old(cchLen) + |bytes|) then S_OK else E_OUTOFMEMORY
      ensures Text() == if hr.S_OK? then old(Text()) + bytes else old(Text())
    {
      if !Fits(cchLen + |bytes|) {
        return if bytes == [] then S_OK else E_OUTOFMEMORY;
      }
      hr := Append(bytes);
    }

    method Copy(bytes: seq<Byte>) returns (hr: HStatus)
      requires Valid() && |bytes| <= MAXDWORD
      modifies this, buffer
      ensures Valid() && (buffer == old(buffer) || fresh(buffer))
      ensures hr == if Fits(|bytes|) then S_OK else ARITHMETIC_OVERFLOW
      ensures Text() == if hr.S_OK? then bytes else old(Text())
    {
      hr := AuxAppend(bytes, 0);
    }

    // ----- Escaping

    /** What EscapeInternal leaves behind. */
    static ghost predicate EscapeOutcome(should: Byte -> bool, before: seq<Byte>, hr: HStatus, after: seq<Byte>) {
      var s := CutAtNul(before);
      if CountEscaped(should, s) == 0 then hr == S_OK && after == before
      else
        match EscapeRun(should, s)
        case None => hr == ARITHMETIC_OVERFLOW && after == before
        case Some(t) => hr == S_OK && after == t
    }

    /** The loop counts characters in an int, so the text has fewer than 2^31 of them. */
    method EscapeInternal(should: Byte -> bool) returns (hr: HStatus)
      requires Valid() && cchLen < 0x8000_0000
      modifies this, buffer
      ensures Valid() && (buffer == old(buffer) || fresh(buffer))
      ensures EscapeOutcome(should, old(Text()), hr, Text())
    {
      hide EscapeRun, CountEscaped, CutAtNul, EscapedChar;
      var i := 0;
      hr := S_OK;
      var escapingDone := false;
      var temp := new Stra(512);
      ghost var text := Text();
      RunStart(should, text);
      while buffer[i] != 0
        invariant unchanged(this) && unchanged(buffer) && text == Text() && i <= cchLen && NulFree(text[..i])
        invariant hr == S_OK && fresh(temp) && fresh(temp.buffer) && temp.Valid()
        invariant !escapingDone ==> temp.Text() == []
        invariant escapingDone <==> CountEscaped(should, text[..i]) > 0
        invariant EscapeRun(should, text[..i]) == Some(if escapingDone then temp.Text() else text[..i])
        decreases cchLen - i
      {
        var ch := buffer[i];
        RunStep(should, text, i);
        assert text[..i + 1] == text[..i] + [ch];
        if should(ch) {
          hr := EscapeChar(should, text, temp, i, escapingDone);
          escapingDone := true;
          if hr != S_OK {
            CutKeeps(text, i + 1);
            RunStops(should, CutAtNul(text), i + 1);
            return;
          }
        } else if escapingDone {
          var _ := temp.Append([ch]);
        }
        i := i + 1;
      }
      CutIs(text, i);
      if escapingDone {
        ghost var t := temp.Text();
        assert Fits(|t|);
        hr := Copy(temp.buffer[..temp.cchLen]);
        assert Text() == t;
      }
    }

    /** The part of the loop that appends one escape. */
    method EscapeChar(should: Byte -> bool, ghost text: seq<Byte>, temp: Stra, i: nat, escapingDone: bool)
      returns (hr: HStatus)
      requires Valid() && text == Text() && i < cchLen < 0x8000_0000 && buffer[i] != 0 && should(buffer[i])
      requires temp != this && temp.buffer != buffer && temp.Valid()
      requires EscapeRun(should, text[..i]) == Some(if escapingDone then temp.Text() else text[..i])
      requires !escapingDone ==> temp.Text() == []
      modifies temp, temp.buffer
      ensures temp.Valid() && (temp.buffer == old(temp.buffer) || fresh(temp.buffer))
      ensures EscapeRun(should, text[..i + 1]) == if hr == S_OK then Some(temp.Text()) else None
      ensures hr == S_OK || hr == ARITHMETIC_OVERFLOW
    {
      hr := S_OK;
      if !escapingDone {
        var _ := temp.Resize(cchLen * 2);
        if i > 0 {
          hr := temp.Copy(buffer[..i]);
        }
      }
      assert temp.Text() == (if escapingDone then old(temp.Text()) else text[..i]);
      var _ := temp.Resize(cchLen + 3);
      assert text[..i + 1][..i] == text[..i];
      hr := temp.Append([PERCENT, HexDigit(buffer[i] / 16), HexDigit(buffer[i] % 16)]);
    }

    // ----- Unescaping

    /** strchr for '%' from position at, in a text that ends at position |c|. */
    method FindPercent(at: nat, ghost c: seq<Byte>) returns (r: int)
      requires at <= |c| < buffer.Length && buffer[|c|] == 0 && NulFree(c) && buffer[at..|c|] == c[at..]
      ensures r == if NextPercent(c, at) < |c| then NextPercent(c, at) else -1
    {
      var i := at;
      while buffer[i] != 0 && buffer[i] != PERCENT
        invariant at <= i <= |c| && forall k | at <= k < i :: c[k] != PERCENT
        invariant forall k | at <= k < |c| :: buffer[k] == c[k]
        decreases |c| - i
      {
        i := i + 1;
      }
      PercentIs(c, at, i);
      r := if buffer[i] == PERCENT then i else -1;
    }

    static lemma PercentIs(c: seq<Byte>, at: nat, i: nat)
      requires at <= i <= |c| && (i < |c| ==> c[i] == PERCENT) && forall k | at <= k < i :: c[k] != PERCENT
      ensures NextPercent(c, at) == i
    {
    }

    /** memmove towards the front of the buffer. */
    method Move(dest: nat, src: nat, n: nat)
      requires dest <= src && src + n <= buffer.Length
      modifies buffer
      ensures buffer[..] == Splice(old(buffer[..]), dest, old(buffer[src..src + n]))
    {
      for i := 0 to n
        invariant forall k | 0 <= k < buffer.Length ::
                    buffer[k] == if dest <= k < dest + i then old(buffer[k - dest + src]) else old(buffer[k])
      {
        buffer[dest + i] := buffer[src + i];
      }
    }

    method Write(dest: nat, bytes: seq<Byte>)
      requires dest + |bytes| <= buffer.Length
      modifies buffer
      ensures buffer[..] == Splice(old(buffer[..]), dest, bytes)
    {
      for i := 0 to |bytes|
        invariant forall k | 0 <= k < buffer.Length ::
                    buffer[k] == if dest <= k < dest + i then bytes[k - dest] else old(buffer[k])
      {
        buffer[dest + i] := bytes[i];
      }
    }

    /** What stands at scan: the bytes that it decodes to, and how many characters it takes. */
    method ReadUnit(page: CodePage, ghost c: seq<Byte>, scan: nat) returns (bytes: seq<Byte>, n: nat, escape: bool)
      requires scan < |c| < buffer.Length && c[scan] == PERCENT
      requires forall k | scan <= k <= |c| :: buffer[k] == if k < |c| then c[k] else 0
      ensures bytes == Unit(page, c, scan) && n == UnitSize(c, scan) && escape == EscapeAt(c, scan)
    {
      if (buffer[scan + 1] == 117 || buffer[scan + 1] == 85) && IsHex(buffer[scan + 2]) && IsHex(buffer[scan + 3]) &&
         IsHex(buffer[scan + 4]) && IsHex(buffer[scan + 5])
      {
        var wch := HexValue(buffer[scan + 2]) * 4096 + HexValue(buffer[scan + 3]) * 256 +
                   HexValue(buffer[scan + 4]) * 16 + HexValue(buffer[scan + 5]);
        bytes, n, escape := page.Bytes(wch), 6, true;
      } else if IsHex(buffer[scan + 1]) && IsHex(buffer[scan + 2]) {
        bytes, n, escape := [HexValue(buffer[scan + 1]) * 16 + HexValue(buffer[scan + 2])], 3, true;
      } else {
        bytes, n, escape := [buffer[scan]], 1, false;
      }
    }

    /** The first half of the loop: the escape, or the bare '%', at scan. */
    method UnescapeOne(page: CodePage, ghost b0: seq<Byte>, ghost c: seq<Byte>, scan: nat, dest: nat, changed: bool)
      returns (scan': nat, dest': nat, changed': bool)
      requires NulFree(c) && c < b0 && b0[|c|] == 0 && Progress(page, b0, c, buffer[..], scan, dest, changed)
      requires scan < |c| && c[scan] == PERCENT
      modifies buffer
      ensures scan < scan' && Progress(page, b0, c, buffer[..], scan', dest', changed')
    {
      hide Progress, UnitSize, Unit, EscapeAt, Splice;
      Ahead(page, b0, c, buffer[..], scan, dest, changed);
      var bytes, n, escape := ReadUnit(page, c, scan);
      UnitDecodes(page, c, scan);
      if escape || changed {
        UnitProgress(page, b0, c, buffer[..], scan, dest, changed);
        Write(dest, bytes);
        scan', dest', changed' := scan + n, dest + |bytes|, true;
      } else {
        BareProgress(page, b0, c, scan, dest);
        scan', dest', changed' := scan + 1, dest + 1, false;
      }
    }

    /** The second half of the loop: the text up to the next '%', or all the rest, follows the destination. */
    method CopyBetween(page: CodePage, ghost b0: seq<Byte>, ghost c: seq<Byte>, scan: nat, dest: nat, next: int)
      returns (dest': nat)
      requires c < b0 && b0[|c|] == 0 && cchLen < buffer.Length && |c| <= cchLen
      requires Progress(page, b0, c, buffer[..], scan, dest, true)
      requires next == if NextPercent(c, scan) < |c| then NextPercent(c, scan) else -1
      modifies buffer
      ensures next >= 0 ==> Progress(page, b0, c, buffer[..], next, dest', true)
      ensures next < 0 ==> Settled(page, b0, c, buffer[..], cchLen, true)
    {
      hide Progress, Splice, CutAtNul, NextPercent, Result;
      Ahead(page, b0, c, buffer[..], scan, dest, true);
      dest' := dest;
      if next < 0 {
        ghost var b := buffer[..];
        Move(dest, scan, cchLen - scan + 1);
        TailProgress(page, b0, c, b, scan, dest, cchLen);
      } else if next > scan {
        BetweenProgress(page, b0, c, buffer[..], scan, dest, next);
        Move(dest, scan, next - scan);
        dest' := dest + (next - scan);
      }
    }

    /** strlen */
    method StrLen(ghost n: nat) returns (len: nat)
      requires n < buffer.Length
      requires |CutAtNul(buffer[..n + 1])| <= n
      ensures len == |CutAtNul(buffer[..n + 1])| && buffer[..len] == CutAtNul(buffer[..n + 1]) && buffer[len] == 0
    {
      ghost var c := CutAtNul(buffer[..n + 1]);
      len := 0;
      while buffer[len] != 0
        invariant len <= |c|
        decreases |c| - len
      {
        len := len + 1;
      }
    }

    /** The text becomes what Unescaped says, in place. */
    method Unescape(page: CodePage)
      requires Valid()
      modifies this`cchLen, buffer
      ensures Valid() && cchLen <= old(cchLen)
      ensures Text() == Unescaped(page, old(Text()))
    {
      hide Progress, EscapeAt, Decode, CutAtNul, NextPercent, NextEscape, KeptInFront, Result;
      ghost var b0 := buffer[..];
      ghost var c := CutAtNul(Text());
      assert c < b0 && b0[|c|] == 0;
      ProgressStart(page, b0, c);
      var scan := FindPercent(0, c);
      var dest: nat, changed: bool := if scan >= 0 then scan else 0, false;
      while scan >= 0
        invariant scan < |c| && cchLen == old(cchLen) && |c| <= cchLen
        invariant scan >= 0 ==> c[scan] == PERCENT && Progress(page, b0, c, buffer[..], scan, dest, changed)
        invariant scan < 0 ==> Settled(page, b0, c, buffer[..], cchLen, changed)
        decreases if scan >= 0 then |c| - scan else -1
      {
        var at;
        at, dest, changed := UnescapeOne(page, b0, c, scan, dest, changed);
        Ahead(page, b0, c, buffer[..], at, dest, changed);
        var next := FindPercent(at, c);
        if changed {
          dest := CopyBetween(page, b0, c, at, dest, next);
        } else {
          QuietProgress(page, b0, c, at, dest);
        }
        scan := next;
      }
      UnescapedIs(page, c, old(Text()));
      if changed {
        cchLen := StrLen(cchLen);
      }
    }
  }
}
