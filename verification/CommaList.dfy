/** SplitCommaDelimitedString: the fields of a comma-separated text, as a list of strings. */
module CommaList {
  import opened Words
  import opened MultiSz

  const COMMA: WChar := 44

  datatype HSplit = S_OK | ERROR_INVALID_PARAMETER | ERROR_ARITHMETIC_OVERFLOW

  // ----- Fields

  function NextComma(s: WString, i: nat): (n: nat)
    requires i <= |s|
    ensures i <= n <= |s| && (n < |s| ==> s[n] == COMMA) && forall k | i <= k < n :: s[k] != COMMA
    decreases |s| - i
  {
    if i == |s| || s[i] == COMMA then i else NextComma(s, i + 1)
  }

  /** The fields of s from position i on. */
  function Fields(s: WString, i: nat): (fields: seq<WString>)
    requires i <= |s|
    ensures fields != []
    decreases |s| - i
  {
    var n := NextComma(s, i);
    [s[i..n]] + if n == |s| then [] else Fields(s, n + 1)
  }

  function Join(fields: seq<WString>): WString
    requires fields != []
  {
    if |fields| == 1 then fields[0] else fields[0] + [COMMA] + Join(fields[1..])
  }

  lemma JoinCons(f: WString, rest: seq<WString>)
    requires rest != []
    ensures Join([f] + rest) == f + [COMMA] + Join(rest)
  {
    assert ([f] + rest)[1..] == rest;
  }

  lemma FieldsCons(s: WString, i: nat)
    requires i <= |s|
    ensures var n := NextComma(s, i);
            if n == |s| then Fields(s, i) == [s[i..]] && Join(Fields(s, i)) == s[i..]
            else Fields(s, i) == [s[i..n]] + Fields(s, n + 1)
  {
    var n := NextComma(s, i);
    assert n == |s| ==> s[i..n] == s[i..];
  }

  /** Join in characters: the fields with commas between them. */
  lemma JoinInCharacters(f: WString, rest: seq<WString>)
    ensures Join([f]) == f && (rest != [] ==> Join([f] + rest) == f + [',' as int] + Join(rest))
  {
    if rest != [] {
      JoinCons(f, rest);
    }
  }

  /** The fields are what lies between the commas: they join to the text, and none has a comma in it. */
  lemma {:induction false} FieldsJoin(s: WString, i: nat)
    requires i <= |s|
    ensures Join(Fields(s, i)) == s[i..]
    ensures forall k | 0 <= k < |Fields(s, i)| :: ',' as int !in Fields(s, i)[k]
    decreases |s| - i
  {
    hide Fields, Join;
    var n := NextComma(s, i);
    FieldsCons(s, i);
    if n < |s| {
      FieldsJoin(s, n + 1);
      JoinCons(s[i..n], Fields(s, n + 1));
      assert s[i..] == s[i..n] + [COMMA] + s[n + 1..];
    }
  }

  // ----- Trimming

  predicate IsWhite(c: WChar) {
    c == 32 || c == 9 || c == 13
  }

  function TrimLeft(s: WString): WString {
    if s != [] && IsWhite(s[0]) then TrimLeft(s[1..]) else s
  }

  function TrimRight(s: WString): WString {
    if s != [] && IsWhite(s[|s| - 1]) then TrimRight(s[..|s| - 1]) else s
  }

  function Trim(s: WString): WString {
    TrimRight(TrimLeft(s))
  }

  ghost predicate AllWhite(s: WString) {
    forall k | 0 <= k < |s| :: IsWhite(s[k])
  }

  lemma {:induction false} TrimLeftIs(s: WString) returns (a: WString)
    ensures s == a + TrimLeft(s) && AllWhite(a) && (TrimLeft(s) != [] ==> !IsWhite(TrimLeft(s)[0]))
  {
    if s != [] && IsWhite(s[0]) {
      var a' := TrimLeftIs(s[1..]);
      a := [s[0]] + a';
      assert s == [s[0]] + s[1..];
    } else {
      a := [];
    }
  }

  lemma {:induction false} TrimRightIs(s: WString) returns (b: WString)
    ensures s == TrimRight(s) + b && AllWhite(b)
    ensures TrimRight(s) != [] ==> !IsWhite(TrimRight(s)[|TrimRight(s)| - 1]) && TrimRight(s)[0] == s[0]
  {
    hide IsWhite;
    if s != [] && IsWhite(s[|s| - 1]) {
      var front, last := s[..|s| - 1], s[|s| - 1];
      var b' := TrimRightIs(front);
      b := b' + [last];
      assert s == front + [last];
      assert front == TrimRight(front) + b';
      assert TrimRight(front) + (b' + [last]) == TrimRight(front) + b' + [last];
      assert TrimRight(front) != [] ==> front[0] == s[0];
    } else {
      b := [];
    }
  }

  /** Trimming takes white space off both ends, and all of it. */
  lemma TrimIs(s: WString) returns (a: WString, b: WString)
    ensures s == a + Trim(s) + b && AllWhite(a) && AllWhite(b)
    ensures Trim(s) != [] ==> !IsWhite(Trim(s)[0]) && !IsWhite(Trim(s)[|Trim(s)| - 1])
    ensures forall c: WChar :: IsWhite(c) <==> c == ' ' as int || c == '\t' as int || c == '\r' as int
  {
    a := TrimLeftIs(s);
    b := TrimRightIs(TrimLeft(s));
  }

  function MaybeTrim(s: WString, trim: bool): WString {
    if trim then Trim(s) else s
  }

  // ----- Entries

  /** What the fields from position i on add to a list. */
  function Entries(s: WString, trim: bool, i: nat): seq<WString>
    requires i <= |s|
    decreases |s| - i
  {
    var n := NextComma(s, i);
    AsList(Clipped(MaybeTrim(s[i..n], trim))) + if n == |s| then [] else Entries(s, trim, n + 1)
  }

  function NonEmptyTrimmed(fields: seq<WString>, trim: bool): seq<WString> {
    if fields == [] then []
    else AsList(MaybeTrim(fields[0], trim)) + NonEmptyTrimmed(fields[1..], trim)
  }

  lemma TrimShorter(s: WString)
    ensures |Trim(s)| <= |s|
  {
    var a, b := TrimIs(s);
  }

  lemma NonEmptyCons(f: WString, rest: seq<WString>, trim: bool)
    ensures NonEmptyTrimmed([f] + rest, trim) == AsList(MaybeTrim(f, trim)) + NonEmptyTrimmed(rest, trim)
    ensures NonEmptyTrimmed([], trim) == []
  {
    assert ([f] + rest)[1..] == rest;
  }

  /** The entries are the nonempty ones among the fields, trimmed or not. */
  lemma {:induction false} EntriesAreFields(s: WString, trim: bool, i: nat)
    requires i <= |s| < 0x8000_0000
    ensures Entries(s, trim, i) == NonEmptyTrimmed(Fields(s, i), trim)
    decreases |s| - i
  {
    hide Fields, NonEmptyTrimmed, Clipped, Trim, AsList;
    var n := NextComma(s, i);
    var f := MaybeTrim(s[i..n], trim);
    TrimShorter(s[i..n]);
    ClippedIff(f);
    FieldsCons(s, i);
    if n < |s| {
      EntriesAreFields(s, trim, n + 1);
      NonEmptyCons(s[i..n], Fields(s, n + 1), trim);
    } else {
      assert s[i..n] == s[i..];
      NonEmptyCons(s[i..], [], trim);
      assert [s[i..]] + [] == [s[i..]];
    }
  }

  // ----- The method

  /** wcschr for a comma. */
  method FindComma(s: WString, i: nat) returns (n: Option<nat>)
    requires i <= |s|
    ensures n == if NextComma(s, i) < |s| then Some(NextComma(s, i)) else None
  {
    var k := i;
    while k < |s| && s[k] != COMMA
      invariant i <= k <= |s| && NextComma(s, i) == NextComma(s, k)
    {
      k := k + 1;
    }
    n := if k < |s| then Some(k) else None;
  }

  /** The two loops that move the ends of an entry over white space. */
  method TrimEnds(s: WString, start: nat, end: nat) returns (b: nat, e: nat)
    requires start <= end <= |s|
    ensures start <= b <= e <= end && s[b..e] == Trim(s[start..end])
  {
    b := start;
    while b < end && IsWhite(s[b])
      invariant start <= b <= end && TrimLeft(s[start..end]) == TrimLeft(s[b..end])
    {
      assert s[b..end][1..] == s[b + 1..end];
      b := b + 1;
    }
    assert TrimLeft(s[b..end]) == s[b..end];
    e := end;
    while e > b && IsWhite(s[e - 1])
      invariant b <= e <= end && TrimRight(s[b..end]) == TrimRight(s[b..e])
    {
      assert s[b..e][..e - b - 1] == s[b..e - 1];
      e := e - 1;
    }
  }

  /** The list becomes the entries of the text. Whether empty entries are removed makes no difference, as a list
      holds none anyway. */
  method SplitCommaDelimitedString(text: Option<WString>, trim: bool, removeEmpty: bool, list: Multisz?)
    returns (hr: HSplit)
    requires text.Some? ==> NulFree(text.value)
    requires list != null ==> list.Valid()
    modifies if list == null then {} else {list, list.buffer}
    ensures text == None || list == null <==> hr == ERROR_INVALID_PARAMETER
    ensures list != null ==> list.Valid()
    ensures list != null && text.Some? ==>
              && list.list <= Entries(text.value, trim, 0)
              && (hr == S_OK ==> list.list == Entries(text.value, trim, 0))
              && (2 * |text.value| + 4 + STR_SLOP <= MAXDWORD ==> hr == S_OK)
    ensures list != null && text == None ==> list.list == old(list.list)
  {
    if text == None || list == null {
      return ERROR_INVALID_PARAMETER;
    }
    hr := SplitInto(text.value, trim, removeEmpty, list);
  }

  method SplitInto(s: WString, trim: bool, removeEmpty: bool, list: Multisz) returns (hr: HSplit)
    requires NulFree(s) && list.Valid()
    modifies list, list.buffer
    ensures list.Valid() && hr != ERROR_INVALID_PARAMETER
    ensures list.list <= Entries(s, trim, 0)
    ensures hr == S_OK ==> list.list == Entries(s, trim, 0)
    ensures 2 * |s| + 4 + STR_SLOP <= MAXDWORD ==> hr == S_OK
  {
    hide Entries, Body, Multisz.Valid, AsList, Clipped, MaybeTrim;
    list.Open();
    list.Reset();
    Multisz.EmptyBody();
    ghost var all := Entries(s, trim, 0);
    var current := 0;
    var next := FindComma(s, current);
    while true
      invariant current <= |s| && list.Valid() && (list.buffer == old(list.buffer) || fresh(list.buffer))
      invariant next == if NextComma(s, current) < |s| then Some(NextComma(s, current)) else None
      invariant all == list.list + Entries(s, trim, current)
      invariant |Body(list.list)| <= current
      decreases |s| - current
    {
      var end := if next.Some? then next.value else |s|;
      EntriesStep(s, trim, current, list.list);
      var ok := AddEntry(s, current, end, trim, removeEmpty, list);
      if !ok {
        return ERROR_ARITHMETIC_OVERFLOW;
      }
      if next == None {
        break;
      }
      current := next.value + 1;
      next := FindComma(s, current);
    }
    hr := S_OK;
  }

  /** One round of the loop. */
  method AddEntry(s: WString, current: nat, end: nat, trim: bool, removeEmpty: bool, list: Multisz) returns (ok: bool)
    requires current <= end <= |s| && NulFree(s) && list.Valid() && |Body(list.list)| <= current
    modifies list, list.buffer
    ensures list.Valid() && (list.buffer == old(list.buffer) || fresh(list.buffer))
    ensures list.list == old(list.list) + if ok then AsList(Clipped(MaybeTrim(s[current..end], trim))) else []
    ensures ok ==> |Body(list.list)| <= end + 1
    ensures 2 * |s| + 4 + STR_SLOP <= MAXDWORD ==> ok
  {
    hide Body, Multisz.Valid, Trim;
    ghost var before := list.list;
    var b, e := current, end;
    if trim {
      b, e := TrimEnds(s, current, end);
    }
    BodyGrows(before, Clipped(s[b..e]));
    ok := true;
    if b != e || !removeEmpty {
      ok := list.Append(s[b..e]);
    }
  }

  lemma EntriesStep(s: WString, trim: bool, i: nat, before: seq<WString>)
    requires i <= |s|
    ensures var n := NextComma(s, i);
            before + Entries(s, trim, i) ==
            before + AsList(Clipped(MaybeTrim(s[i..n], trim))) + if n == |s| then [] else Entries(s, trim, n + 1)
  {
    hide NextComma, Clipped, MaybeTrim, AsList;
    var n := NextComma(s, i);
    var first, rest := AsList(Clipped(MaybeTrim(s[i..n], trim))), if n == |s| then [] else Entries(s, trim, n + 1);
    assert Entries(s, trim, i) == first + rest;
  }
}
