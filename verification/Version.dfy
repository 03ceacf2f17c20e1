/** fx_ver_t: the order, the printing and the parsing of runtime versions, and the search for the highest. */
module Version {
  import opened Words
  import Keys

  type WString = seq<WChar>
  type Int32 = x: int | -0x8000_0000 <= x < 0x8000_0000

  const DOT: WChar := 46
  const PLUS: WChar := 43
  const MINUS: WChar := 45

  datatype FxVer = FxVer(major: Int32, minor: Int32, patch: Int32, pre: WString, build: WString)

  /** Parsing finds a version, or finds none, or std::stoul throws out_of_range. */
  datatype Parsed = Ok(ver: FxVer) | Invalid | OutOfRange

  // ----- The order

  /** The sign of std::wstring::compare. */
  function CompareText(a: WString, b: WString): (r: int)
    ensures -1 <= r <= 1
  {
    if a == [] then (if b == [] then 0 else -1)
    else if b == [] then 1
    else if a[0] != b[0] then (if a[0] > b[0] then 1 else -1)
    else CompareText(a[1..], b[1..])
  }

  function Compare(a: FxVer, b: FxVer): (r: int)
    ensures -1 <= r <= 1
  {
    if a.major != b.major then (if a.major > b.major then 1 else -1)
    else if a.minor != b.minor then (if a.minor > b.minor then 1 else -1)
    else if a.patch != b.patch then (if a.patch > b.patch then 1 else -1)
    else if (a.pre == []) != (b.pre == []) then (if a.pre == [] then 1 else -1)
    else if CompareText(a.pre, b.pre) != 0 then CompareText(a.pre, b.pre)
    else CompareText(a.build, b.build)
  }

  lemma {:induction false} TextOrder(a: WString, b: WString)
    ensures CompareText(a, b) == 0 <==> a == b
    ensures CompareText(a, b) == -CompareText(b, a)
  {
    if a != [] && b != [] && a[0] == b[0] {
      TextOrder(a[1..], b[1..]);
      assert a == [a[0]] + a[1..] && b == [b[0]] + b[1..];
    }
  }

  lemma {:induction false} TextTransitive(a: WString, b: WString, c: WString)
    requires CompareText(a, b) <= 0 && CompareText(b, c) <= 0
    ensures CompareText(a, c) <= 0
    ensures CompareText(a, b) < 0 || CompareText(b, c) < 0 ==> CompareText(a, c) < 0
  {
    if a != [] && b != [] && c != [] && a[0] == b[0] == c[0] {
      TextTransitive(a[1..], b[1..], c[1..]);
    }
  }

  /** The comparison is 0 only for identical versions, and changes sign when its arguments change places ... */
  lemma CompareAntisymmetric(a: FxVer, b: FxVer)
    ensures Compare(a, b) == 0 <==> a == b
    ensures Compare(a, b) == -Compare(b, a)
  {
    TextOrder(a.pre, b.pre);
    TextOrder(a.build, b.build);
  }

  /** ... and is transitive: a total order. */
  lemma CompareTransitive(a: FxVer, b: FxVer, c: FxVer)
    requires Compare(a, b) <= 0 && Compare(b, c) <= 0
    ensures Compare(a, c) <= 0
  {
    TextOrder(a.pre, b.pre);
    TextOrder(b.pre, c.pre);
    if CompareText(a.pre, b.pre) <= 0 && CompareText(b.pre, c.pre) <= 0 {
      TextTransitive(a.pre, b.pre, c.pre);
    }
    if CompareText(a.build, b.build) <= 0 && CompareText(b.build, c.build) <= 0 {
      TextTransitive(a.build, b.build, c.build);
    }
  }

  /** s comes first in the order of texts: it has the smaller character where the two first differ, or it is a
      proper prefix of t. */
  ghost predicate TextBelow(s: WString, t: WString) {
    exists k | 0 <= k <= |s| && k < |t| :: s[..k] == t[..k] && (k == |s| || s[k] < t[k])
  }

  lemma {:induction false} CompareTextIs(s: WString, t: WString)
    ensures CompareText(s, t) < 0 <==> TextBelow(s, t)
  {
    if s == [] {
      assert t != [] ==> s[..0] == t[..0];
    } else if t != [] && s[0] != t[0] {
      assert s[..0] == t[..0];
      forall k | 0 < k <= |s| && k < |t| ensures s[..k] != t[..k] {
        assert s[..k][0] != t[..k][0];
      }
    } else if t != [] {
      CompareTextIs(s[1..], t[1..]);
      if TextBelow(s, t) {
        var k :| 0 <= k <= |s| && k < |t| && s[..k] == t[..k] && (k == |s| || s[k] < t[k]);
        assert s[1..][..k - 1] == s[..k][1..] && t[1..][..k - 1] == t[..k][1..];
      }
      if TextBelow(s[1..], t[1..]) {
        var k :| 0 <= k <= |s[1..]| && k < |t[1..]| && s[1..][..k] == t[1..][..k]
                 && (k == |s[1..]| || s[1..][k] < t[1..][k]);
        assert s[..k + 1] == [s[0]] + s[1..][..k] && t[..k + 1] == [t[0]] + t[1..][..k];
      }
    }
  }

  predicate SameNumbers(a: FxVer, b: FxVer) {
    a.major == b.major && a.minor == b.minor && a.patch == b.patch
  }

  /** The order is by major, minor and patch number, then a release is above its prereleases, then the prereleases
      decide, and the builds last. */
  lemma Precedence(a: FxVer, b: FxVer)
    ensures a.major > b.major ==> Compare(a, b) > 0
    ensures a.major == b.major && a.minor > b.minor ==> Compare(a, b) > 0
    ensures a.major == b.major && a.minor == b.minor && a.patch > b.patch ==> Compare(a, b) > 0
    ensures SameNumbers(a, b) && a.pre == [] && b.pre != [] ==> Compare(a, b) > 0
    ensures SameNumbers(a, b) && a.pre != [] && b.pre != [] && TextBelow(b.pre, a.pre) ==> Compare(a, b) > 0
    ensures SameNumbers(a, b) && a.pre == b.pre && TextBelow(b.build, a.build) ==> Compare(a, b) > 0
  {
    CompareTextIs(b.pre, a.pre);
    CompareTextIs(b.build, a.build);
    TextOrder(a.pre, b.pre);
    TextOrder(a.build, b.build);
  }

  // ----- Numbers

  predicate IsDigit(c: WChar) {
    48 <= c <= 57
  }

  predicate AllDigits(s: WString) {
    forall k | 0 <= k < |s| :: IsDigit(s[k])
  }

  function Digits(n: nat): (s: WString)
    ensures s != [] && AllDigits(s)
    ensures |s| > 1 ==> s[0] != 48
  {
    (if n < 10 then [] else Digits(n / 10)) + [48 + n % 10]
  }

  function Print(n: Int32): WString {
    if n < 0 then [MINUS] + Digits(0 - n as int) else Digits(n)
  }

  function Number(s: WString): nat
    requires AllDigits(s)
  {
    if s == [] then 0 else 10 * Number(s[..|s| - 1]) + (s[|s| - 1] - 48)
  }

  lemma {:induction false} NumberOfDigits(n: nat)
    ensures Number(Digits(n)) == n
  {
    var s := Digits(n);
    if n >= 10 {
      NumberOfDigits(n / 10);
      assert s[..|s| - 1] == Digits(n / 10);
    }
  }

  /** Numbers are decimal: a digit is worth its distance from '0', and ten times as much for each digit behind it. */
  lemma {:induction false} PlaceValues(s: WString, t: WString)
    requires AllDigits(s) && AllDigits(t)
    ensures AllDigits(s + t) && Number(s + t) == Number(s) * Keys.Power(10, |t|) + Number(t)
    ensures forall c | '0' as int <= c <= '9' as int :: Number([c]) == c - '0' as int
  {
    forall c | '0' as int <= c <= '9' as int ensures Number([c]) == c - '0' as int {
      assert [c][..0] == [];
    }
    if t == [] {
      assert s + t == s;
    } else {
      var front := t[..|t| - 1];
      assert (s + t)[..|s + t| - 1] == s + front;
      PlaceValues(s, front);
      Keys.Associate(Number(s), 10, Keys.Power(10, |front|));
    }
  }

  datatype Unsigned = Value(u: DWord) | NoNumber | TooLarge

  /** try_stou; an unsigned long has 32 bits. */
  function TryStou(s: WString): Unsigned {
    if s == [] || !AllDigits(s) then NoNumber
    else if Number(s) >= DWORD_LIMIT then TooLarge
    else Value(Number(s))
  }

  /** From unsigned to int. */
  function ToInt(u: DWord): (n: Int32)
    ensures Wrap(n) == u
  {
    if u < 0x8000_0000 then u else u - 0x1_0000_0000
  }

  // ----- Printing and parsing

  function AsStr(v: FxVer): WString {
    Print(v.major) + [DOT] + Print(v.minor) + [DOT] + Print(v.patch) + v.pre
    + (if v.build == [] then [] else [PLUS] + v.build)
  }

  /** Position of the first c from i on; |s| when there is none. */
  function Find(s: WString, c: WChar, i: nat): (n: nat)
    requires i <= |s|
    ensures i <= n <= |s| && (n < |s| ==> s[n] == c) && forall k | i <= k < n :: s[k] != c
    decreases |s| - i
  {
    if i == |s| || s[i] == c then i else Find(s, c, i + 1)
  }

  function FindNotDigit(s: WString, i: nat): (n: nat)
    requires i <= |s|
    ensures i <= n <= |s| && (n < |s| ==> !IsDigit(s[n])) && forall k | i <= k < n :: IsDigit(s[k])
    decreases |s| - i
  {
    if i == |s| || !IsDigit(s[i]) then i else FindNotDigit(s, i + 1)
  }

  function Parse(s: WString, onlyProduction: bool): Parsed {
    var majSep := Find(s, DOT, 0);
    if majSep == |s| then Invalid
    else
      match TryStou(s[0..majSep])
      case NoNumber => Invalid
      case TooLarge => OutOfRange
      case Value(major) => ParseMinor(s, majSep + 1, major, onlyProduction)
  }

  function ParseMinor(s: WString, start: nat, major: DWord, onlyProduction: bool): Parsed
    requires start <= |s|
  {
    var minSep := Find(s, DOT, start);
    if minSep == |s| then Invalid
    else
      match TryStou(s[start..minSep])
      case NoNumber => Invalid
      case TooLarge => OutOfRange
      case Value(minor) => ParsePatch(s, minSep + 1, major, minor, onlyProduction)
  }

  function ParsePatch(s: WString, start: nat, major: DWord, minor: DWord, onlyProduction: bool): Parsed
    requires start <= |s|
  {
    var end := FindNotDigit(s, start);
    if end < |s| && onlyProduction then Invalid
    else
      match TryStou(s[start..end])
      case NoNumber => Invalid
      case TooLarge => OutOfRange
      case Value(patch) =>
        var plus := Find(s, PLUS, end);
        Ok(FxVer(ToInt(major), ToInt(minor), ToInt(patch), s[end..plus], if plus == |s| then [] else s[plus + 1..]))
  }

  lemma FindIs(s: WString, c: WChar, i: nat, n: nat)
    requires i <= n <= |s| && (n < |s| ==> s[n] == c) && forall k | i <= k < n :: s[k] != c
    ensures Find(s, c, i) == n
  {
  }

  lemma FindNotDigitIs(s: WString, i: nat, n: nat)
    requires i <= n <= |s| && (n < |s| ==> !IsDigit(s[n])) && forall k | i <= k < n :: IsDigit(s[k])
    ensures FindNotDigit(s, i) == n
  {
  }

  /** A prerelease that parsing gives back. */
  predicate Plain(pre: WString) {
    (pre == [] || !IsDigit(pre[0])) && PLUS !in pre
  }

  /** Parsing never finds any other. */
  lemma ParsedIsPlain(s: WString, onlyProduction: bool)
    ensures Parse(s, onlyProduction).Ok? ==> Plain(Parse(s, onlyProduction).ver.pre)
  {
  }

  lemma DigitsPrinted(n: Int32)
    requires n >= 0
    ensures TryStou(Print(n)) == Value(n) && ToInt(n) == n && DOT !in Print(n)
  {
    NumberOfDigits(n);
  }

  /** The text of a version, cut at its second dot. */
  function Tail(v: FxVer): WString {
    Print(v.patch) + v.pre + (if v.build == [] then [] else [PLUS] + v.build)
  }

  /** A number that prints with a sign is none, and one that prints without is found again. */
  lemma NumberAt(n: Int32, s: WString, start: nat, rest: WString)
    requires start <= |s| && s[start..] == Print(n) + [DOT] + rest
    ensures var m := Find(s, DOT, start);
            if n < 0 then TryStou(s[start..m]) == NoNumber
            else m < |s| && TryStou(s[start..m]) == Value(n) && ToInt(n) == n && s[m + 1..] == rest
  {
    hide Number, Find, Print;
    var m := Find(s, DOT, start);
    Parts(s, start, Print(n), [DOT], rest);
    if n < 0 {
      SignPrinted(n);
      assert m > start ==> s[start..m][0] == Print(n)[0];
    } else {
      DigitsPrinted(n);
      FindIs(s, DOT, start, start + |Print(n)|);
    }
  }

  lemma ParseTail(v: FxVer, s: WString, start: nat)
    requires start <= |s| && s[start..] == Tail(v) && v.major >= 0 && v.minor >= 0
    ensures v.patch < 0 ==> ParsePatch(s, start, v.major, v.minor, false) == Invalid
    ensures v.patch >= 0 && Plain(v.pre) ==> ParsePatch(s, start, v.major, v.minor, false) == Ok(v)
  {
    hide Print, TryStou, Number, Find, FindNotDigit;
    if v.patch < 0 {
      SignPrinted(v.patch);
      Parts(s, start, Print(v.patch), v.pre, if v.build == [] then [] else [PLUS] + v.build);
      assert s[start..start] == [];
      FindNotDigitIs(s, start, start);
    } else if Plain(v.pre) {
      DigitsPrinted(v.patch);
      PatchAndPre(v, s, start);
    }
  }

  lemma SignPrinted(n: Int32)
    requires n < 0
    ensures Print(n) != [] && !IsDigit(Print(n)[0]) && TryStou([]) == NoNumber
  {
  }

  /** Where the patch number and the prerelease end. */
  lemma PatchAndPre(v: FxVer, s: WString, start: nat)
    requires start <= |s| && s[start..] == Tail(v) && v.patch >= 0 && Plain(v.pre)
    ensures var end := FindNotDigit(s, start);
            var plus := Find(s, PLUS, end);
            && s[start..end] == Print(v.patch) && s[end..plus] == v.pre
            && (if plus == |s| then [] else s[plus + 1..]) == v.build
  {
    hide Print, Number, FindNotDigit, Find;
    var c := Print(v.patch);
    var rest := if v.build == [] then [] else [PLUS] + v.build;
    assert Tail(v) == c + (v.pre + rest) && v.pre + [] == v.pre;
    PrintedDigits(v.patch);
    PatchField(s, start, c, v.pre + rest);
    TailField(s, FindNotDigit(s, start), v);
  }

  lemma PrintedDigits(n: Int32)
    requires n >= 0
    ensures AllDigits(Print(n)) && Print(n) != []
  {
  }

  /** Where the parts of a suffix stand. */
  lemma Parts(s: WString, start: nat, a: WString, b: WString, c: WString)
    requires start <= |s| && s[start..] == a + b + c
    ensures var end := start + |a|;
            var last := end + |b|;
            && last <= |s| && s[start..end] == a && s[end..last] == b && s[last..] == c
            && (forall k | start <= k < end :: s[k] == a[k - start])
            && (forall k | end <= k < last :: s[k] == b[k - end] && s[k] in b)
            && (c != [] ==> last < |s| && s[last] == c[0])
            && (b != [] ==> end < |s| && s[end] == b[0])
  {
  }

  /** Parsing the text of a version gives the version back exactly when its numbers are not negative and its
      prerelease is plain. Any build will do. */
  lemma ParseAfterPrint(v: FxVer)
    ensures Parse(AsStr(v), false) == Ok(v) <==> v.major >= 0 && v.minor >= 0 && v.patch >= 0 && Plain(v.pre)
  {
    hide Print, TryStou, ParsePatch, Find, Tail, AsStr;
    var s := AsStr(v);
    ParsedIsPlain(s, false);
    var rest := Print(v.minor) + [DOT] + Tail(v);
    TextParts(v);
    NumberAt(v.major, s, 0, rest);
    if v.major >= 0 {
      var start := Find(s, DOT, 0) + 1;
      NumberAt(v.minor, s, start, Tail(v));
      if v.minor >= 0 {
        ParseTail(v, s, Find(s, DOT, start) + 1);
      }
    }
  }

  lemma TextParts(v: FxVer)
    ensures AsStr(v)[0..] == Print(v.major) + [DOT] + (Print(v.minor) + [DOT] + Tail(v))
  {
    hide Print;
  }

  // ----- Any text

  predicate NumberText(s: WString) {
    s != [] && AllDigits(s) && Number(s) < 0x1_0000_0000
  }

  predicate TooLargeText(s: WString) {
    s != [] && AllDigits(s) && Number(s) >= 0x1_0000_0000
  }

  /** The prerelease, and the build behind a plus sign. */
  predicate SpellsTail(tail: WString, v: FxVer) {
    && (v.pre == [] || !(48 <= v.pre[0] <= 57)) && 43 !in v.pre
    && (tail == v.pre + [43] + v.build || (tail == v.pre && v.build == []))
  }

  /** s spells v: three numbers with dots between them, and what is behind them. Numbers from 2^31 on come out
      negative, as the conversion from unsigned to int makes them. */
  ghost predicate Spells(s: WString, v: FxVer, major: WString, minor: WString, patch: WString, tail: WString) {
    && s == major + [46] + (minor + [46] + (patch + tail))
    && NumberText(major) && NumberText(minor) && NumberText(patch) && SpellsTail(tail, v)
    && v.major == ToInt(Number(major)) && v.minor == ToInt(Number(minor)) && v.patch == ToInt(Number(patch))
  }

  /** A run of digits up to a dot is found as it stands. */
  lemma NumberField(s: WString, start: nat, a: WString, rest: WString)
    requires start <= |s| && s[start..] == a + [46] + rest && AllDigits(a)
    ensures var m := Find(s, DOT, start);
            m == start + |a| < |s| && s[start..m] == a && s[m + 1..] == rest
  {
    hide Find;
    Parts(s, start, a, [46], rest);
    FindIs(s, DOT, start, start + |a|);
  }

  lemma PatchField(s: WString, start: nat, a: WString, rest: WString)
    requires start <= |s| && s[start..] == a + rest && AllDigits(a) && (rest == [] || !IsDigit(rest[0]))
    ensures var m := FindNotDigit(s, start);
            m == start + |a| && s[start..m] == a && s[m..] == rest
  {
    hide FindNotDigit;
    assert a + rest == a + rest + [];
    Parts(s, start, a, rest, []);
    FindNotDigitIs(s, start, start + |a|);
  }

  lemma TailField(s: WString, start: nat, v: FxVer)
    requires start <= |s| && SpellsTail(s[start..], v)
    ensures var m := Find(s, PLUS, start);
            s[start..m] == v.pre && (if m == |s| then [] else s[m + 1..]) == v.build
    ensures s[start..] == [] || !IsDigit(s[start..][0])
  {
    hide Find;
    var n := start + |v.pre|;
    forall k | start <= k < n ensures s[k] != PLUS {
      assert s[start..][k - start] == v.pre[k - start];
    }
    assert s[start..n] == v.pre;
    assert n < |s| ==> s[n] == PLUS by {
      assert n < |s| ==> s[start..][|v.pre|] == s[n];
    }
    FindIs(s, PLUS, start, n);
    if n < |s| {
      assert s[start..][|v.pre| + 1..] == s[n + 1..];
      assert (v.pre + [PLUS] + v.build)[|v.pre| + 1..] == v.build;
    }
  }

  lemma TailFound(s: WString, start: nat, v: FxVer)
    requires start <= |s| && (start < |s| ==> !IsDigit(s[start]))
    requires var m := Find(s, PLUS, start);
             v.pre == s[start..m] && v.build == if m == |s| then [] else s[m + 1..]
    ensures SpellsTail(s[start..], v)
  {
    hide Find;
    var m := Find(s, PLUS, start);
    if m < |s| {
      assert s[start..] == s[start..m] + [s[m]] + s[m + 1..];
    }
  }

  /** Parsing finds a version exactly in the texts that spell it. */
  lemma ParseIff(s: WString, v: FxVer)
    ensures Parse(s, false) == Ok(v) <==> exists a, b, c, tail :: Spells(s, v, a, b, c, tail)
  {
    hide Spells;
    if Parse(s, false) == Ok(v) {
      SpelledWhenParsed(s, v);
    }
    if a, b, c, tail :| Spells(s, v, a, b, c, tail) {
      ParsedWhenSpelled(s, v, a, b, c, tail);
    }
  }

  lemma ParsedWhenSpelled(s: WString, v: FxVer, a: WString, b: WString, c: WString, tail: WString)
    requires Spells(s, v, a, b, c, tail)
    ensures Parse(s, false) == Ok(v) && (tail == [] ==> Parse(s, true) == Ok(v))
  {
    hide Number, Find, SpellsTail, ParseMinor;
    assert s[0..] == s;
    NumberField(s, 0, a, b + [46] + (c + tail));
    MinorSpelled(s, Find(s, DOT, 0) + 1, Number(a), v, b, c, tail);
  }

  lemma MinorSpelled(s: WString, start: nat, major: DWord, v: FxVer, b: WString, c: WString, tail: WString)
    requires start <= |s| && s[start..] == b + [46] + (c + tail)
    requires NumberText(b) && NumberText(c) && SpellsTail(tail, v)
    requires v.major == ToInt(major) && v.minor == ToInt(Number(b)) && v.patch == ToInt(Number(c))
    ensures ParseMinor(s, start, major, false) == Ok(v)
    ensures tail == [] ==> ParseMinor(s, start, major, true) == Ok(v)
  {
    hide Number, Find, SpellsTail, ParsePatch;
    NumberField(s, start, b, c + tail);
    PatchSpelled(s, Find(s, DOT, start) + 1, major, Number(b), v, c, tail);
  }

  lemma PatchSpelled(s: WString, start: nat, major: DWord, minor: DWord, v: FxVer, c: WString, tail: WString)
    requires start <= |s| && s[start..] == c + tail && NumberText(c) && SpellsTail(tail, v)
    requires v.major == ToInt(major) && v.minor == ToInt(minor) && v.patch == ToInt(Number(c))
    ensures ParsePatch(s, start, major, minor, false) == Ok(v)
    ensures tail == [] ==> ParsePatch(s, start, major, minor, true) == Ok(v)
  {
    hide Number, Find, FindNotDigit, SpellsTail;
    NoDigitBehind(tail, v);
    PatchField(s, start, c, tail);
    TailField(s, FindNotDigit(s, start), v);
  }

  lemma NoDigitBehind(tail: WString, v: FxVer)
    requires SpellsTail(tail, v)
    ensures tail == [] || !IsDigit(tail[0])
  {
  }

  lemma SpelledWhenParsed(s: WString, v: FxVer)
    requires Parse(s, false) == Ok(v)
    ensures exists a, b, c, tail :: Spells(s, v, a, b, c, tail)
  {
    hide Number, Find, FindNotDigit, SpellsTail, Spells;
    var i := Find(s, DOT, 0);
    var j := Find(s, DOT, i + 1);
    SpelledAt(s, v, i, j, FindNotDigit(s, j + 1));
  }

  lemma SpelledAt(s: WString, v: FxVer, i: nat, j: nat, k: nat)
    requires i < j < k <= |s| && s[i] == 46 && s[j] == 46 && (k < |s| ==> !IsDigit(s[k]))
    requires NumberText(s[0..i]) && NumberText(s[i + 1..j]) && NumberText(s[j + 1..k])
    requires v.major == ToInt(Number(s[0..i])) && v.minor == ToInt(Number(s[i + 1..j]))
    requires v.patch == ToInt(Number(s[j + 1..k]))
    requires var m := Find(s, PLUS, k); v.pre == s[k..m] && v.build == if m == |s| then [] else s[m + 1..]
    ensures Spells(s, v, s[0..i], s[i + 1..j], s[j + 1..k], s[k..])
  {
    hide Number, Find, SpellsTail;
    TailFound(s, k, v);
    Cut(s, i, j, k);
  }

  lemma Cut(s: WString, i: nat, j: nat, k: nat)
    requires i < j < k <= |s| && s[i] == 46 && s[j] == 46
    ensures s == s[0..i] + [46] + (s[i + 1..j] + [46] + (s[j + 1..k] + s[k..]))
  {
    assert s[j + 1..] == s[j + 1..k] + s[k..];
    assert s[i + 1..] == s[i + 1..j] + [s[j]] + s[j + 1..];
    assert s == s[0..i] + [s[i]] + s[i + 1..];
  }

  /** A number that is too large throws where parsing comes to it, and nothing else does. */
  ghost predicate Overflows(s: WString, a: WString, b: WString, c: WString, rest: WString) {
    || (TooLargeText(a) && s == a + [46] + rest)
    || (NumberText(a) && TooLargeText(b) && s == a + [46] + (b + [46] + rest))
    || (NumberText(a) && NumberText(b) && TooLargeText(c) && s == a + [46] + (b + [46] + (c + rest))
        && (rest == [] || !(48 <= rest[0] <= 57)))
  }

  lemma ParseThrowsIff(s: WString)
    ensures Parse(s, false) == OutOfRange <==> exists a, b, c, rest :: Overflows(s, a, b, c, rest)
  {
    if Parse(s, false) == OutOfRange {
      OverflowsWhenThrown(s);
    }
    if a, b, c, rest :| Overflows(s, a, b, c, rest) {
      ThrownWhenOverflows(s, a, b, c, rest);
    }
  }

  lemma ThrownWhenOverflows(s: WString, a: WString, b: WString, c: WString, rest: WString)
    requires Overflows(s, a, b, c, rest)
    ensures Parse(s, false) == OutOfRange
  {
    hide Number, Find, AllDigits, ParseMinor;
    assert s[0..] == s;
    if TooLargeText(a) && s == a + [46] + rest {
      NumberField(s, 0, a, rest);
    } else if TooLargeText(b) && s == a + [46] + (b + [46] + rest) {
      NumberField(s, 0, a, b + [46] + rest);
      MinorThrows(s, Find(s, DOT, 0) + 1, Number(a), b, c, rest);
    } else {
      NumberField(s, 0, a, b + [46] + (c + rest));
      MinorThrows(s, Find(s, DOT, 0) + 1, Number(a), b, c, rest);
    }
  }

  lemma MinorThrows(s: WString, start: nat, major: DWord, b: WString, c: WString, rest: WString)
    requires start <= |s|
    requires || (TooLargeText(b) && s[start..] == b + [46] + rest)
             || (NumberText(b) && TooLargeText(c) && s[start..] == b + [46] + (c + rest)
                 && (rest == [] || !(48 <= rest[0] <= 57)))
    ensures ParseMinor(s, start, major, false) == OutOfRange
  {
    hide Number, Find, FindNotDigit, AllDigits;
    if TooLargeText(b) && s[start..] == b + [46] + rest {
      NumberField(s, start, b, rest);
    } else {
      NumberField(s, start, b, c + rest);
      PatchField(s, Find(s, DOT, start) + 1, c, rest);
    }
  }

  lemma OverflowsWhenThrown(s: WString)
    requires Parse(s, false) == OutOfRange
    ensures exists a, b, c, rest :: Overflows(s, a, b, c, rest)
  {
    hide Number, Find, FindNotDigit, ParsePatch, Overflows;
    var i := Find(s, DOT, 0);
    if TooLargeText(s[0..i]) {
      assert Overflows(s, s[0..i], [], [], s[i + 1..]) by {
        OverflowsAt(s, i, |s|, |s|);
      }
    } else {
      var j := Find(s, DOT, i + 1);
      OverflowsAt(s, i, j, |s|);
      if !TooLargeText(s[i + 1..j]) {
        PatchThrows(s, j + 1, Number(s[0..i]), Number(s[i + 1..j]));
        OverflowsAt(s, i, j, FindNotDigit(s, j + 1));
      }
    }
  }

  lemma PatchThrows(s: WString, start: nat, major: DWord, minor: DWord)
    requires start <= |s| && ParsePatch(s, start, major, minor, false) == OutOfRange
    ensures TooLargeText(s[start..FindNotDigit(s, start)])
  {
  }

  lemma OverflowsAt(s: WString, i: nat, j: nat, k: nat)
    requires i < j <= |s| && s[i] == 46 && (j < |s| ==> s[j] == 46 && j < k <= |s| && (k < |s| ==> !IsDigit(s[k])))
    ensures TooLargeText(s[0..i]) ==> Overflows(s, s[0..i], [], [], s[i + 1..])
    ensures j < |s| && NumberText(s[0..i]) && TooLargeText(s[i + 1..j]) ==>
              Overflows(s, s[0..i], s[i + 1..j], [], s[j + 1..])
    ensures j < |s| && NumberText(s[0..i]) && NumberText(s[i + 1..j]) && TooLargeText(s[j + 1..k]) ==>
              Overflows(s, s[0..i], s[i + 1..j], s[j + 1..k], s[k..])
  {
    hide Number;
    assert s == s[0..i] + [s[i]] + s[i + 1..];
    if j < |s| {
      assert s[i + 1..] == s[i + 1..j] + [s[j]] + s[j + 1..];
      assert s[j + 1..] == s[j + 1..k] + s[k..];
    }
  }

  /** A production version has nothing behind its three numbers. */
  lemma ParseProductionIff(s: WString, v: FxVer)
    ensures Parse(s, true) == Ok(v) <==> exists a, b, c :: Spells(s, v, a, b, c, [])
  {
    hide Number, Find, FindNotDigit, SpellsTail, Spells;
    if Parse(s, true) == Ok(v) {
      var i := Find(s, DOT, 0);
      var j := Find(s, DOT, i + 1);
      assert s[|s|..] == [];
      SpelledAt(s, v, i, j, |s|);
    }
    if a, b, c :| Spells(s, v, a, b, c, []) {
      ParsedWhenSpelled(s, v, a, b, c, []);
    }
  }

  // ----- The highest version

  const BASE := FxVer(-1, -1, -1, [], [])

  /** v is the base or among the versions that the folder names parse to, and none of these is higher. */
  ghost predicate Highest(folders: seq<WString>, v: FxVer) {
    && (v == BASE || exists k | 0 <= k < |folders| :: Parse(folders[k], false) == Ok(v))
    && Compare(BASE, v) <= 0
    && forall k | 0 <= k < |folders| && Parse(folders[k], false).Ok? :: Compare(Parse(folders[k], false).ver, v) <= 0
  }

  ghost predicate Throws(folders: seq<WString>) {
    exists k | 0 <= k < |folders| :: Parse(folders[k], false) == OutOfRange
  }

  /** Only the set of folder names matters, not their order. */
  lemma HighestUnique(f: seq<WString>, g: seq<WString>, v: FxVer, w: FxVer)
    requires forall s :: s in f <==> s in g
    requires Highest(f, v) && Highest(g, w)
    ensures v == w
    ensures Throws(f) <==> Throws(g)
  {
    HighestAbove(f, g, v, w);
    HighestAbove(g, f, w, v);
    CompareAntisymmetric(v, w);
    forall k | 0 <= k < |f| ensures f[k] in g {
    }
    forall k | 0 <= k < |g| ensures g[k] in f {
    }
  }

  lemma HighestAbove(f: seq<WString>, g: seq<WString>, v: FxVer, w: FxVer)
    requires forall s | s in f :: s in g
    requires Highest(f, v) && Highest(g, w)
    ensures Compare(v, w) <= 0
  {
    if v != BASE {
      var k :| 0 <= k < |f| && Parse(f[k], false) == Ok(v);
      assert f[k] in g;
      var j :| 0 <= j < |g| && g[j] == f[k];
    }
  }

  /** No number of w, read in their order, puts it above v, and w is no release of which v is a prerelease. */
  predicate NotAbove(w: FxVer, v: FxVer) {
    && w.major <= v.major
    && (w.major == v.major ==> w.minor <= v.minor)
    && (w.major == v.major && w.minor == v.minor ==> w.patch <= v.patch)
    && (SameNumbers(w, v) && v.pre != [] ==> w.pre != [])
  }

  lemma HighestInFields(folders: seq<WString>, v: FxVer)
    requires Highest(folders, v)
    ensures forall k | 0 <= k < |folders| && Parse(folders[k], false).Ok? ::
              NotAbove(Parse(folders[k], false).ver, v)
    ensures (forall k | 0 <= k < |folders| :: !Parse(folders[k], false).Ok?) ==>
              AsStr(v) == [45, 49, 46, 45, 49, 46, 45, 49]
  {
    hide Parse, Compare;
    forall k | 0 <= k < |folders| && Parse(folders[k], false).Ok?
      ensures NotAbove(Parse(folders[k], false).ver, v)
    {
      Precedence(Parse(folders[k], false).ver, v);
    }
    assert Digits(1) == [49];
  }

  /** The text of the highest version, unless a number in a folder name throws. */
  method FindHighestDotNetVersion(folders: seq<WString>) returns (result: Option<WString>, ghost highest: FxVer)
    ensures result == None <==> Throws(folders)
    ensures result.Some? ==> Highest(folders, highest) && result.value == AsStr(highest)
    ensures result.Some? ==> forall k | 0 <= k < |folders| && Parse(folders[k], false).Ok? ::
                               NotAbove(Parse(folders[k], false).ver, highest)
    ensures result.Some? && (forall k | 0 <= k < |folders| :: !Parse(folders[k], false).Ok?) ==>
              result.value == [45, 49, 46, 45, 49, 46, 45, 49]
  {
    hide Parse, Compare, AsStr, NotAbove;
    var maxVer := BASE;
    highest := BASE;
    CompareAntisymmetric(BASE, BASE);
    for i := 0 to |folders|
      invariant !Throws(folders[..i]) && Highest(folders[..i], maxVer)
    {
      var parsed := Parse(folders[i], false);
      HighestStep(folders, i, maxVer);
      if parsed.OutOfRange? {
        return None, BASE;
      }
      if parsed.Ok? && Compare(parsed.ver, maxVer) > 0 {
        maxVer := parsed.ver;
      }
    }
    assert folders[..|folders|] == folders;
    highest := maxVer;
    HighestInFields(folders, highest);
    result := Some(AsStr(maxVer));
  }

  lemma HighestStep(folders: seq<WString>, i: nat, v: FxVer)
    requires i < |folders| && Highest(folders[..i], v) && !Throws(folders[..i])
    ensures var p := Parse(folders[i], false);
            match p
            case Ok(w) => !Throws(folders[..i + 1]) && Highest(folders[..i + 1], if Compare(w, v) > 0 then w else v)
            case Invalid => !Throws(folders[..i + 1]) && Highest(folders[..i + 1], v)
            case OutOfRange => Throws(folders)
  {
    hide Parse, Compare;
    var f, g := folders[..i], folders[..i + 1];
    assert g == f + [folders[i]];
    assert forall k | 0 <= k < |g| :: g[k] == if k < i then f[k] else folders[i];
    var p := Parse(folders[i], false);
    if p.Ok? && Compare(p.ver, v) > 0 {
      CompareAntisymmetric(p.ver, v);
      CompareAntisymmetric(p.ver, p.ver);
      CompareTransitive(BASE, v, p.ver);
      forall k | 0 <= k < |f| && Parse(f[k], false).Ok? ensures Compare(Parse(f[k], false).ver, p.ver) <= 0 {
        CompareTransitive(Parse(f[k], false).ver, v, p.ver);
      }
      assert g[i] == folders[i];
    } else if v != BASE {
      var k :| 0 <= k < |f| && Parse(f[k], false) == Ok(v);
      assert g[k] == f[k];
    }
  }
}
