/** The fixed-width integers of the library, and small helpers on sequences. */
module Words {
  const DWORD_LIMIT: nat := 0x1_0000_0000
  const MAXDWORD: nat := 0xFFFF_FFFF

  type DWord = x: int | 0 <= x < 0x1_0000_0000
  type WChar = x: int | 0 <= x < 0x1_0000
  type Byte = x: int | 0 <= x < 0x100

  datatype Option<+T> = None | Some(value: T)

  /** Unsigned 32-bit addition and subtraction wrap around. */
  function Wrap(x: int): (r: DWord) {
    x % DWORD_LIMIT
  }

  /** No element of s is the terminating NUL of a C string. */
  predicate NulFree(s: seq<int>) {
    forall i | 0 <= i < |s| :: s[i] != 0
  }

  /** The bucket that a hash selects among n. */
  function Slot(h: nat, n: nat): (b: nat)
    requires n > 0
    ensures b < n
  {
    h % n
  }

  ghost predicate Distinct<T>(s: seq<T>) {
    forall i, j | 0 <= i < j < |s| :: s[i] != s[j]
  }

  function RemoveAt<T>(s: seq<T>, j: nat): (r: seq<T>)
    requires j < |s|
  {
    s[..j] + s[j + 1..]
  }

  function InsertAt<T>(s: seq<T>, j: nat, x: T): (r: seq<T>)
    requires j <= |s|
  {
    s[..j] + [x] + s[j..]
  }

  lemma WrapShift(x: int, d: int)
    ensures Wrap(Wrap(x) + d) == Wrap(x + d)
  {
  }

  /** A wrapping counter follows the size of a map that gains or loses one key. */
  lemma CountInsert<K, V>(m: map<K, V>, k: K, v: V)
    requires k !in m
    ensures Wrap(Wrap(|m|) + 1) == Wrap(|m[k := v]|)
  {
  }

  lemma CountRemove<K, V>(m: map<K, V>, k: K)
    requires k in m
    ensures Wrap(Wrap(|m|) - 1) == Wrap(|m - {k}|)
  {
  }

  lemma {:induction false} DistinctSize<T>(s: seq<T>, elements: set<T>)
    requires Distinct(s)
    requires forall x :: x in s <==> x in elements
    ensures |s| == |elements|
  {
    if s != [] {
      var last := s[|s| - 1];
      forall x ensures x in s[..|s| - 1] <==> x in elements - {last} {
        if x in elements - {last} {
          var i :| 0 <= i < |s| && s[i] == x;
          assert s[..|s| - 1][i] == x;
        }
      }
      assert last in s;
      DistinctSize(s[..|s| - 1], elements - {last});
    }
  }

  lemma SizeWithout(a: set<nat>, e: nat)
    ensures |a| == |a - {e}| + if e in a then 1 else 0
  {
    assert e in a ==> a == (a - {e}) + {e};
    assert e !in a ==> a == a - {e};
  }

  /** A set of natural numbers below n has at most n members. */
  lemma {:induction false} Below(s: set<nat>, n: nat)
    requires forall x | x in s :: x < n
    ensures |s| <= n
  {
    if n > 0 {
      Below(s - {n - 1}, n - 1);
    } else {
      assert s == {};
    }
  }

  lemma {:induction false} SubsetSize<T>(a: set<T>, b: set<T>)
    requires a <= b
    ensures |a| <= |b|
  {
    assert b == a + (b - a);
  }
}
