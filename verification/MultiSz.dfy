/** MULTISZ: a list of nonempty strings in one buffer, each ended by a NUL and the list by one more. */
module MultiSz {
  import opened Words

  type WString = seq<WChar>

  const STR_SLOP: nat := 128

  ghost predicate Word(w: WString) {
    w != [] && NulFree(w)
  }

  ghost predicate AllWords(list: seq<WString>) {
    forall k | 0 <= k < |list| :: Word(list[k])
  }

  /** The strings of the list, each with its NUL. */
  ghost function Body(list: seq<WString>): WString {
    if list == [] then [] else Body(list[..|list| - 1]) + list[|list| - 1] + [0]
  }

  /** The characters s begin with the encoding of the list. */
  ghost predicate Encodes(s: WString, list: seq<WString>) {
    AllWords(list) && Body(list) + [0] <= s
  }

  lemma {:induction false} BodyPrefix(list: seq<WString>, k: nat)
    requires k <= |list|
    ensures Body(list[..k]) <= Body(list)
    ensures k < |list| && AllWords(list) ==> |Body(list[..k])| + 1 < |Body(list)|
    decreases |list|
  {
    if k == |list| {
      assert list[..k] == list;
    } else {
      var front := list[..|list| - 1];
      assert front[..k] == list[..k];
      BodyPrefix(front, k);
      assert AllWords(list) ==> Word(list[|list| - 1]);
    }
  }

  /** Where string k of the list stands. */
  lemma WordAt(s: WString, list: seq<WString>, k: nat)
    requires Encodes(s, list) && k < |list|
    ensures var p := |Body(list[..k])|;
            && p + |list[k]| + 1 == |Body(list[..k + 1])| <= |Body(list)| < |s|
            && s[p..p + |list[k]|] == list[k] && s[p + |list[k]|] == 0 && s[p] != 0
  {
    var p := |Body(list[..k])|;
    BodyPrefix(list, k + 1);
    assert list[..k + 1][..k] == list[..k];
    var b := Body(list[..k + 1]);
    assert b == Body(list[..k]) + list[k] + [0];
    assert b <= s;
    assert b[p..p + |list[k]|] == list[k] && b[p + |list[k]|] == 0;
    assert Word(list[k]);
  }

  lemma EndAt(s: WString, list: seq<WString>)
    requires Encodes(s, list)
    ensures |Body(list)| < |s| && s[|Body(list)|] == 0 && list[..|list|] == list
  {
  }

  /** A buffer encodes one list only. */
  lemma DecodeUnique(s: WString, list: seq<WString>, list': seq<WString>)
    requires Encodes(s, list) && Encodes(s, list')
    ensures list == list'
  {
    PrefixAgrees(s, list, list', 0);
    PrefixAgrees(s, list', list, 0);
  }

  lemma {:induction false} PrefixAgrees(s: WString, list: seq<WString>, list': seq<WString>, k: nat)
    requires Encodes(s, list) && Encodes(s, list') && k <= |list| && k <= |list'| && list[..k] == list'[..k]
    ensures |list| <= |list'| && list == list'[..|list|]
    decreases |list| - k
  {
    if k < |list| {
      WordAt(s, list, k);
      if k == |list'| {
        EndAt(s, list');
      } else {
        WordAt(s, list', k);
        FirstNul(s, |Body(list[..k])|, list[k], list'[k]);
        assert list[..k + 1] == list[..k] + [list[k]] && list'[..k + 1] == list'[..k] + [list'[k]];
        PrefixAgrees(s, list, list', k + 1);
      }
    } else {
      assert list[..k] == list;
    }
  }

  lemma FirstNul(s: WString, p: nat, v: WString, w: WString)
    requires p + |v| < |s| && p + |w| < |s| && s[p..p + |v|] == v && s[p..p + |w|] == w
    requires NulFree(v) && NulFree(w) && s[p + |v|] == 0 && s[p + |w|] == 0
    ensures v == w
  {
  }

  lemma {:induction false} BodyConcat(a: seq<WString>, b: seq<WString>)
    ensures Body(a + b) == Body(a) + Body(b)
  {
    if b == [] {
      assert a + b == a;
    } else {
      assert (a + b)[..|a + b| - 1] == a + b[..|b| - 1];
      BodyConcat(a, b[..|b| - 1]);
    }
  }

  // ----- Scanning

  /** wcslen at p, where the string w stands. */
  method StrLen(a: array<WChar>, p: nat, ghost w: WString) returns (n: nat)
    requires p + |w| < a.Length && a[p..p + |w|] == w && NulFree(w) && a[p + |w|] == 0
    ensures n == |w|
  {
    assert forall j | p <= j < p + |w| :: a[j] == w[j - p];
    n := 0;
    while a[p + n] != 0
      invariant n <= |w|
      decreases |w| - n
    {
      n := n + 1;
    }
  }

  /** Whether wcscmp at p, where the string w stands, finds the string str. */
  method SameAt(a: array<WChar>, p: nat, ghost w: WString, str: WString) returns (same: bool)
    requires p + |w| < a.Length && a[p..p + |w|] == w && NulFree(w) && a[p + |w|] == 0 && NulFree(str)
    ensures same <==> w == str
  {
    var i := 0;
    while i < |str| && a[p + i] == str[i]
      invariant i <= |str| && i <= |w| && w[..i] == str[..i]
    {
      assert i < |w| ==> a[p..p + |w|][i] == w[i];
      i := i + 1;
    }
    assert i < |w| ==> a[p..p + |w|][i] == w[i];
    same := i == |str| && a[p + i] == 0;
    if same {
      assert i == |w|;
    } else if i < |str| && i < |w| {
      assert w[i] != str[i];
    }
  }

  /** The length in characters with all NULs but a second one of an empty list, and the number of strings. */
  method CalcLength(a: array<WChar>, ghost list: seq<WString>) returns (total: nat, count: nat)
    requires Encodes(a[..], list)
    ensures total == |Body(list)| + 1 && count == |list|
  {
    total, count := 1, 0;
    EndAt(a[..], list);
    var p := 0;
    assert list[..0] == [];
    while a[p] != 0
      invariant count <= |list| && p == |Body(list[..count])| < a.Length && total == p + 1
      invariant count == |list| ==> p == |Body(list)|
      decreases |list| - count
    {
      WordAt(a[..], list, count);
      var len := StrLen(a, p, list[count]);
      total := total + (len + 1);
      p := p + (len + 1);
      count := count + 1;
    }
    if count < |list| {
      WordAt(a[..], list, count);
    }
  }

  // ----- The class

  /** What a byte count in 32 bits leaves of a string. */
  function Clipped(s: WString): WString {
    s[..Wrap(2 * |s|) / 2]
  }

  /** Nothing is cut off from any string below 2^31 characters. */
  lemma ClippedIff(s: WString)
    ensures Clipped(s) == s <==> |s| < 0x8000_0000
  {
  }

  /** The list that appending s adds: nothing when s is empty. */
  function AsList(s: WString): seq<WString> {
    if s == [] then [] else [s]
  }

  lemma BodyGrows(list: seq<WString>, s: WString)
    ensures |Body(list + AsList(s))| <= |Body(list)| + |s| + 1
  {
    if s == [] {
      assert list + AsList(s) == list;
    } else {
      assert (list + [s])[..|list|] == list;
    }
  }

  class Multisz {
    var buffer: array<WChar>
    var cchLen: nat
    var cStrings: nat
    ghost var list: seq<WString>

    /** The buffer encodes the list. Reset counts the second NUL of an empty list, CalcLength does not. */
    ghost predicate Valid()
      reads this, buffer
    {
      && Encodes(buffer[..], list) && buffer.Length >= 2 && 2 * buffer.Length <= MAXDWORD
      && cStrings == |list|
      && (cchLen == |Body(list)| + 1 || (list == [] && cchLen == 2))
    }

    /** An empty list, over a buffer of the given size in characters. */
    constructor (cch: nat)
      requires cch >= 2 && 2 * cch <= MAXDWORD
      ensures Valid() && list == [] && cchLen == 2 && fresh(buffer) && buffer.Length == cch
    {
      buffer := new WChar[cch];
      cchLen, cStrings, list := 2, 0, [];
      new;
      Reset();
    }

    method Reset()
      requires buffer.Length >= 2 && 2 * buffer.Length <= MAXDWORD
      modifies this, buffer
      ensures Valid() && list == [] && cchLen == 2 && buffer == old(buffer)
    {
      buffer[0] := 0;
      buffer[1] := 0;
      cchLen := 2;
      cStrings := 0;
      list := [];
    }

    /** The strings that str holds up to its first empty one are added at the end. Nothing changes when the
        buffer would exceed 32 bits, with or without the slop. */
    method AuxAppend(str: WString, addSlop: bool, ghost more: seq<WString>) returns (ok: bool)
      requires Valid() && Encodes(str + [0, 0], more) && 2 * |str| <= MAXDWORD
      modifies this, buffer
      ensures Valid() && (buffer == old(buffer) || fresh(buffer))
      ensures list == if ok then old(list) + more else old(list)
      ensures cchLen == if ok then |Body(list)| + 1 else old(cchLen)
      ensures 2 * (|Body(old(list))| + |str|) + 4 + (if addSlop then STR_SLOP else 0) <= MAXDWORD ==> ok
      ensures ok ==> 2 * (|Body(old(list))| + |str|) + 4 <= MAXDWORD
    {
      hide Body, Encodes;
      var cbThis := 2 * cchLen;
      ShortList();
      ghost var before := buffer[..];
      if cbThis == 4 {
        cbThis := 0;
      } else {
        cbThis := cbThis - 2;
      }
      var start := cbThis / 2;
      assert start == |Body(list)|;
      var cbRequired := cbThis + 2 * |str| + 4;
      if cbRequired > MAXDWORD {
        return false;
      }
      if 2 * buffer.Length < cbRequired {
        var cbAlloc := cbRequired + if addSlop then STR_SLOP else 0;
        if cbAlloc > MAXDWORD {
          return false;
        }
        Resize(cbAlloc / 2);
      }
      ghost var body := Body(list);
      Front();
      Put(start, str);
      assert buffer[..start + (|str| + 2)] == body + (str + [0, 0]);
      Extended(buffer[..], before, str, list, more);
      list := list + more;
      cchLen, cStrings := CalcLength(buffer, list);
      ok := true;
    }

    /** Writes the characters and two NULs. */
    method Put(start: nat, str: WString)
      requires start + |str| + 2 <= buffer.Length
      modifies buffer
      ensures buffer[..start] == old(buffer[..start])
      ensures buffer[start..start + (|str| + 2)] == str + [0, 0]
    {
      for i := 0 to |str|
        invariant buffer[..start] == old(buffer[..start]) && buffer[start..start + i] == str[..i]
      {
        buffer[start + i] := str[i];
      }
      buffer[start + |str|] := 0;
      buffer[start + |str| + 1] := 0;
    }

    /** No list but the empty one is two characters long. */
    lemma ShortList()
      requires Valid()
      ensures cchLen == 2 ==> list == []
      ensures list == [] ==> Body(list) == []
    {
    }

    lemma Open()
      requires Valid()
      ensures buffer.Length >= 2 && 2 * buffer.Length <= MAXDWORD
    {
    }

    lemma Front()
      requires Valid()
      ensures |Body(list)| < buffer.Length && buffer[..|Body(list)|] == Body(list)
    {
    }

    static lemma Extended(s: WString, before: WString, str: WString, list: seq<WString>, more: seq<WString>)
      requires Encodes(before, list) && Encodes(str + [0, 0], more)
      requires Body(list) + (str + [0, 0]) <= s
      ensures Encodes(s, list + more)
    {
      BodyConcat(list, more);
      assert Body(list + more) + [0] == Body(list) + (Body(more) + [0]);
    }

    lemma WholeText()
      requires Valid()
      ensures cchLen <= buffer.Length && Encodes(buffer[..cchLen] + [0, 0], list)
    {
    }

    method Resize(cch: nat)
      requires Valid() && buffer.Length < cch && 2 * cch <= MAXDWORD
      modifies this`buffer
      ensures Valid() && fresh(buffer) && buffer.Length == cch
    {
      var data := new WChar[cch];
      for i := 0 to buffer.Length
        invariant unchanged(this) && unchanged(buffer)
        invariant forall k | 0 <= k < i :: data[k] == buffer[k]
      {
        data[i] := buffer[i];
      }
      assert data[..buffer.Length] == buffer[..];
      buffer := data;
    }

    /** A string, or what 32 bits leave of it, is added at the end; the empty string is not. */
    method Append(str: WString) returns (ok: bool)
      requires Valid() && NulFree(str)
      modifies this, buffer
      ensures Valid() && (buffer == old(buffer) || fresh(buffer))
      ensures list == if ok then old(list) + AsList(Clipped(str)) else old(list)
      ensures 2 * (|Body(old(list))| + |Clipped(str)|) + 4 + STR_SLOP <= MAXDWORD ==> ok
      ensures ok ==> 2 * (|Body(old(list))| + |Clipped(str)|) + 4 <= MAXDWORD
    {
      WordEncodes(Clipped(str));
      ok := AuxAppend(Clipped(str), true, AsList(Clipped(str)));
    }

    static lemma WordEncodes(s: WString)
      requires NulFree(s)
      ensures Encodes(s + [0, 0], AsList(s))
    {
    }

    /** The list becomes a copy of the other one. An object that is copied onto itself is emptied, because its
        characters are read after it has been reset. */
    method Copy(other: Multisz) returns (ok: bool)
      requires Valid() && other.Valid() && (other != this ==> other.buffer != buffer)
      modifies this, buffer
      ensures Valid() && (buffer == old(buffer) || fresh(buffer))
      ensures list == if ok && other != this then old(other.list) else []
      ensures 2 * |Body(old(other.list))| + 8 <= MAXDWORD ==> ok
    {
      hide Body, Encodes;
      EmptyBody();
      other.WholeText();
      other.ShortList();
      var cch := other.cchLen;
      Reset();
      if other == this {
        ResetText(cch);
      }
      ok := AuxAppend(other.buffer[..cch], false, other.list);
    }

    /** The characters of an object that has just been reset encode the empty list. */
    lemma ResetText(cch: nat)
      requires Valid() && list == [] && 0 < cch <= buffer.Length
      ensures Encodes(buffer[..cch] + [0, 0], [])
    {
    }

    /** Whether the list has the string. */
    method FindString(str: WString) returns (found: bool)
      requires Valid() && Word(str)
      ensures found <==> str in list
    {
      hide Body;
      EmptyBody();
      EndAt(buffer[..], list);
      assert list[..0] == [];
      var p := 0;
      ghost var k := 0;
      while buffer[p] != 0
        invariant k <= |list| && p == |Body(list[..k])| < buffer.Length
        invariant k == |list| ==> p == |Body(list)|
        invariant str !in list[..k]
        decreases |list| - k
      {
        WordAt(buffer[..], list, k);
        var same := SameAt(buffer, p, list[k], str);
        if same {
          return true;
        }
        assert list[..k + 1] == list[..k] + [list[k]];
        var len := StrLen(buffer, p, list[k]);
        p := p + (len + 1);
        k := k + 1;
      }
      if k < |list| {
        WordAt(buffer[..], list, k);
      }
      assert list[..k] == list;
      found := false;
    }

    static lemma EmptyBody()
      ensures Body([]) == []
    {
    }

    /** Where the first string stands, if there is one. */
    method First() returns (p: Option<nat>)
      requires Valid()
      ensures p == if list == [] then None else Some(0)
    {
      EndAt(buffer[..], list);
      if list != [] {
        WordAt(buffer[..], list, 0);
        assert list[..0] == [];
      }
      p := if buffer[0] == 0 then None else Some(0);
    }

    /** Where the string behind string k stands, if there is one. */
    method Next(current: nat, ghost k: nat) returns (p: Option<nat>)
      requires Valid() && k < |list| && current == |Body(list[..k])|
      ensures p == if k + 1 < |list| then Some(|Body(list[..k + 1])|) else None
    {
      WordAt(buffer[..], list, k);
      EndAt(buffer[..], list);
      var len := StrLen(buffer, current, list[k]);
      var next := current + (len + 1);
      if k + 1 < |list| {
        WordAt(buffer[..], list, k + 1);
      }
      p := if buffer[next] == 0 then None else Some(next);
    }

    static lemma SamePrefix(a: seq<WString>, b: seq<WString>, k: nat)
      requires k < |a| == |b| && a[..k] == b[..k] && a[k] == b[k]
      ensures a[..k + 1] == b[..k + 1]
    {
      assert a[..k + 1] == a[..k] + [a[k]] && b[..k + 1] == b[..k] + [b[k]];
    }

    /** wcscmp on string k of both lists. */
    method SameString(p: nat, rhs: Multisz, q: nat, ghost k: nat) returns (same: bool)
      requires Valid() && rhs.Valid() && k < |list| && k < |rhs.list|
      requires p == |Body(list[..k])| && q == |Body(rhs.list[..k])|
      ensures same <==> list[k] == rhs.list[k]
    {
      hide Body;
      WordAt(buffer[..], list, k);
      WordAt(rhs.buffer[..], rhs.list, k);
      var len := StrLen(rhs.buffer, q, rhs.list[k]);
      same := SameAt(buffer, p, list[k], rhs.buffer[q..q + len]);
    }

    /** Whether the two lists are equal. */
    method Equals(rhs: Multisz) returns (equal: bool)
      requires Valid() && rhs.Valid()
      ensures equal <==> list == rhs.list
    {
      hide Body, Encodes;
      var lhsAt := First();
      var rhsAt := rhs.First();
      if cStrings != rhs.cStrings {
        return false;
      }
      ghost var k := 0;
      assert list[..0] == rhs.list[..0] == [];
      EmptyBody();
      while lhsAt != None
        invariant k <= |list| && list[..k] == rhs.list[..k]
        invariant lhsAt == if k < |list| then Some(|Body(list[..k])|) else None
        invariant rhsAt == if k < |list| then Some(|Body(rhs.list[..k])|) else None
        decreases |list| - k
      {
        var same := SameString(lhsAt.value, rhs, rhsAt.value, k);
        if !same {
          return false;
        }
        SamePrefix(list, rhs.list, k);
        lhsAt := Next(lhsAt.value, k);
        rhsAt := rhs.Next(rhsAt.value, k);
        k := k + 1;
      }
      assert list[..k] == list && rhs.list[..k] == rhs.list;
      equal := true;
    }
  }
}
