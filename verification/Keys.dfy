/** Keys of the two hash tables: case folding, string hashes, and the path hierarchy of the tree table. */
module Keys {
  import opened Words

  type Key = seq<WChar>

  /** How a table compares and hashes keys. Two keys are equal when they fold to the same canonical key,
      and the hash looks at the canonical key only, so that equal keys have equal hashes. */
  datatype Keying = Keying(fold: Key -> Key, digest: Key -> DWord) {
    function Canon(k: Key): Key {
      fold(k)
    }

    function Hash(k: Key): DWord {
      digest(fold(k))
    }

    predicate Equal(a: Key, b: Key) {
      fold(a) == fold(b)
    }
  }

  // ----- String hashes

  const HASH_MULTIPLIER: nat := 101

  /** `c & 0xFFDF`: the character without its lower-case bit. */
  function StripCaseBit(c: WChar): WChar {
    if c / 32 % 2 == 1 then c - 32 else c
  }

  /** It clears bit 5, as the mask 0xFFDF does, and keeps the ten bits above and the five below. */
  lemma StripClearsBit(high: nat, bit: nat, low: nat)
    requires high < 1024 && bit < 2 && low < 32
    ensures StripCaseBit(64 * high + 32 * bit + low) == 64 * high + low
  {
    assert (64 * high + 32 * bit + low) / 32 == 2 * high + bit;
  }

  function Fold(f: WChar -> WChar, s: Key): (r: Key)
    ensures |r| == |s|
    ensures forall i | 0 <= i < |s| :: r[i] == f(s[i])
  {
    seq(|s|, i requires 0 <= i < |s| => f(s[i]))
  }

  function Power(b: nat, e: nat): nat {
    if e == 0 then 1 else b * Power(b, e - 1)
  }

  /** The polynomial in HASH_MULTIPLIER whose coefficients are the characters, the first at the highest power. */
  function Polynomial(s: Key): nat {
    if s == [] then 0 else s[0] * Power(HASH_MULTIPLIER, |s| - 1) + Polynomial(s[1..])
  }

  lemma {:induction false} PolynomialSnoc(s: Key, c: WChar)
    ensures Polynomial(s + [c]) == Polynomial(s) * 101 + c && Polynomial([]) == 0
  {
    var t := s + [c];
    if s == [] {
      assert t[1..] == [];
    } else {
      assert t[1..] == s[1..] + [c];
      PolynomialSnoc(s[1..], c);
      Associate(s[0], HASH_MULTIPLIER, Power(HASH_MULTIPLIER, |s| - 1));
    }
  }

  lemma Associate(a: nat, b: nat, p: nat)
    ensures a * (b * p) == a * p * b
  {
  }

  lemma WrapHorner(x: nat, c: nat)
    ensures Wrap(Wrap(x) * HASH_MULTIPLIER + c) == Wrap(x * HASH_MULTIPLIER + c)
  {
    var q := x / DWORD_LIMIT;
    assert x * 101 + c == Wrap(x) * 101 + c + 0x1_0000_0000 * (101 * q);
    WrapTurns(Wrap(x) * 101 + c, 101 * q);
  }

  lemma WrapTurns(x: nat, k: nat)
    ensures Wrap(x + 0x1_0000_0000 * k) == Wrap(x)
  {
  }

  function StringHash(s: Key): DWord {
    Wrap(Polynomial(s))
  }

  function NoCaseHash(s: Key): DWord {
    StringHash(Fold(StripCaseBit, s))
  }

  method HashString(s: Key) returns (dwHash: DWord)
    ensures dwHash == Polynomial(s) % DWORD_LIMIT
  {
    dwHash := 0;
    for i := 0 to |s|
      invariant dwHash == Wrap(Polynomial(s[..i]))
    {
      assert s[..i + 1] == s[..i] + [s[i]];
      PolynomialSnoc(s[..i], s[i]);
      WrapHorner(Polynomial(s[..i]), s[i]);
      dwHash := Wrap(dwHash * HASH_MULTIPLIER + s[i]);
    }
    assert s[..|s|] == s;
  }

  method HashStringNoCase(s: Key) returns (dwHash: DWord)
    ensures dwHash == Polynomial(Fold(StripCaseBit, s)) % DWORD_LIMIT
  {
    dwHash := 0;
    ghost var t := Fold(StripCaseBit, s);
    for i := 0 to |s|
      invariant dwHash == Wrap(Polynomial(t[..i]))
    {
      assert t[..i + 1] == t[..i] + [t[i]];
      PolynomialSnoc(t[..i], t[i]);
      WrapHorner(Polynomial(t[..i]), t[i]);
      dwHash := Wrap(dwHash * HASH_MULTIPLIER + StripCaseBit(s[i]));
    }
    assert t[..|t|] == t;
  }

  /** A character folding never identifies two characters that differ after the lower-case bit is stripped. */
  ghost predicate RespectsStripping(f: WChar -> WChar) {
    forall c: WChar, d: WChar :: f(c) == f(d) ==> StripCaseBit(c) == StripCaseBit(d)
  }

  /** Keys that compare equal under f have equal hashes. */
  ghost predicate HashConsistent(f: WChar -> WChar) {
    forall a: Key, b: Key :: Fold(f, a) == Fold(f, b) ==> NoCaseHash(a) == NoCaseHash(b)
  }

  /** HashStringNoCase is consistent with a comparison by character folding exactly when the folding is
      consistent on single characters. */
  lemma HashConsistentIff(f: WChar -> WChar)
    ensures HashConsistent(f) <==> RespectsStripping(f)
  {
    if RespectsStripping(f) {
      forall a: Key, b: Key | Fold(f, a) == Fold(f, b)
        ensures NoCaseHash(a) == NoCaseHash(b)
      {
        forall i | 0 <= i < |a|
          ensures StripCaseBit(a[i]) == StripCaseBit(b[i])
        {
          assert Fold(f, a)[i] == Fold(f, b)[i];
        }
        assert |Fold(f, a)| == |Fold(f, b)|;
        assert Fold(StripCaseBit, a) == Fold(StripCaseBit, b);
      }
    }
    if HashConsistent(f) {
      forall c: WChar, d: WChar | f(c) == f(d)
        ensures StripCaseBit(c) == StripCaseBit(d)
      {
        assert Fold(f, [c]) == Fold(f, [d]);
        SingletonHash(c);
        SingletonHash(d);
      }
    }
  }

  lemma SingletonHash(c: WChar)
    ensures NoCaseHash([c]) == StripCaseBit(c)
  {
    var t := Fold(StripCaseBit, [c]);
    assert t == [] + [StripCaseBit(c)];
    PolynomialSnoc([], StripCaseBit(c));
  }

  /** `_wcsicmp` in the C locale compares after lowering A to Z. */
  function AsciiLower(c: WChar): WChar {
    if 65 <= c <= 90 then c + 32 else c
  }

  /** The keying of the environment-variable table. Its digest sees the folded name only. */
  function EnvKeying(): Keying {
    Keying(s => Fold(AsciiLower, s), NoCaseHash)
  }

  /** The same character, or the two cases of one of the letters A to Z. */
  predicate SameLetter(c: WChar, d: WChar) {
    c == d || ('A' as int <= c <= 'Z' as int && d == c + 32) || ('A' as int <= d <= 'Z' as int && c == d + 32)
  }

  /** Two spellings of a variable's name are equal exactly when they differ in the case of letters A to Z only. */
  lemma EnvNamesEqual(a: Key, b: Key)
    ensures EnvKeying().Equal(a, b) <==> |a| == |b| && forall i | 0 <= i < |a| :: SameLetter(a[i], b[i])
  {
    if EnvKeying().Equal(a, b) {
      assert |Fold(AsciiLower, a)| == |Fold(AsciiLower, b)|;
      forall i | 0 <= i < |a| ensures SameLetter(a[i], b[i]) {
        assert Fold(AsciiLower, a)[i] == Fold(AsciiLower, b)[i];
      }
    }
    if |a| == |b| && forall i | 0 <= i < |a| :: SameLetter(a[i], b[i]) {
      assert Fold(AsciiLower, a) == Fold(AsciiLower, b);
    }
  }

  lemma LoweringKeepsStripped()
    ensures RespectsStripping(AsciiLower)
  {
  }

  /** Folding first does not change the hash that the environment-variable table computes of a raw name,
      so names that compare equal have equal hashes. */
  lemma EnvKeyingMeetsAssumption(name: Key)
    ensures EnvKeying().Hash(name) == NoCaseHash(name)
    ensures forall other: Key | EnvKeying().Equal(name, other) :: NoCaseHash(other) == NoCaseHash(name)
  {
    LoweringKeepsStripped();
    HashConsistentIff(AsciiLower);
    var low := Fold(AsciiLower, name);
    assert Fold(AsciiLower, low) == low;
    assert NoCaseHash(low) == NoCaseHash(name);
  }

  // ----- Paths

  predicate IsSep(c: WChar) {
    c == 47 || c == 92
  }

  /** Length of the nearest proper ancestor of p: the last separator position above 0, or 0 when there is none. */
  function AncestorLen(p: Key): (n: nat)
    ensures n <= |p| && (p != [] ==> n < |p|)
    ensures n > 0 ==> IsSep(p[n])
    ensures forall i | n < i < |p| :: !IsSep(p[i])
  {
    LastSepBelow(p, |p|)
  }

  function LastSepBelow(p: Key, end: nat): (n: nat)
    requires end <= |p|
    ensures n <= end && (end > 0 ==> n < end)
    ensures n > 0 ==> IsSep(p[n])
    ensures forall i | n < i < end :: !IsSep(p[i])
  {
    if end <= 1 then 0
    else if IsSep(p[end - 1]) then end - 1
    else LastSepBelow(p, end - 1)
  }

  /** a is a proper ancestor directory of p. */
  predicate Ancestor(a: Key, p: Key) {
    0 < |a| < |p| && IsSep(p[|a|]) && p[..|a|] == a
  }

  /** p lies in the subtree of paths rooted at a. */
  predicate Under(p: Key, a: Key) {
    p == a || Ancestor(a, p)
  }

  lemma AncestorTransitive(a: Key, b: Key, c: Key)
    requires Ancestor(a, b) && Ancestor(b, c)
    ensures Ancestor(a, c)
  {
  }

  /** Ancestors of p are p's nearest ancestor and that path's own ancestors. */
  lemma AncestorStep(a: Key, p: Key)
    requires p != []
    ensures Ancestor(a, p) <==>
            AncestorLen(p) > 0 && Under(p[..AncestorLen(p)], a)
  {
  }

  /** The folding maps character by character as far as paths can tell: it keeps lengths and separators
      and commutes with truncation. */
  ghost predicate PathFold(keys: Keying) {
    && (forall p: Key :: |keys.Canon(p)| == |p|)
    && (forall p: Key, i: nat | i < |p| && |keys.Canon(p)| == |p| :: IsSep(keys.Canon(p)[i]) == IsSep(p[i]))
    && (forall p: Key, i: nat | i <= |p| && |keys.Canon(p)| == |p| :: keys.Canon(p[..i]) == keys.Canon(p)[..i])
  }

  /** Every character folding that respects the two separators is such a folding. */
  lemma CharacterFoldIsPathFold(f: WChar -> WChar, digest: Key -> DWord)
    requires forall c: WChar :: IsSep(f(c)) == IsSep(c)
    ensures PathFold(Keying(s => Fold(f, s), digest))
  {
  }

  // ----- The two comparisons of the tree table

  function Same(c: WChar): WChar {
    c
  }

  function CaseSensitiveKeying(): Keying {
    Keying(s => Fold(Same, s), StringHash)
  }

  /** With case-sensitive paths a tree table meets the assumption of its results: its comparison is equality
      and its hash is HashString. */
  lemma CaseSensitiveMeetsAssumption(path: Key)
    ensures PathFold(CaseSensitiveKeying())
    ensures CaseSensitiveKeying().Hash(path) == StringHash(path)
    ensures forall other: Key :: CaseSensitiveKeying().Equal(path, other) <==> path == other
  {
    CharacterFoldIsPathFold(Same, StringHash);
    forall p: Key ensures Fold(Same, p) == p {
    }
  }

  /** Hashing folded paths with digest gives the hash that CalcHash computes of the raw ones. */
  ghost predicate Serves(f: WChar -> WChar, digest: Key -> DWord) {
    forall p: Key :: digest(Fold(f, p)) == NoCaseHash(p)
  }

  /** The hash of some path that folds to k. */
  ghost function Unfolded(f: WChar -> WChar): Key -> DWord {
    k => if exists p: Key :: Fold(f, p) == k then (var p: Key :| Fold(f, p) == k; NoCaseHash(p)) else 0
  }

  /** Case-blind paths, which are compared under a folding f of the characters and hashed by HashStringNoCase:
      the table meets the assumption exactly when f respects the stripping of the case bit. */
  lemma CaseBlindMeetsAssumptionIff(f: WChar -> WChar)
    requires forall c: WChar :: IsSep(f(c)) == IsSep(c)
    ensures (exists digest: Key -> DWord :: PathFold(Keying(s => Fold(f, s), digest)) && Serves(f, digest))
            <==> RespectsStripping(f)
  {
    HashConsistentIff(f);
    if RespectsStripping(f) {
      var digest := Unfolded(f);
      CharacterFoldIsPathFold(f, digest);
      forall p: Key ensures digest(Fold(f, p)) == NoCaseHash(p) {
      }
      assert Serves(f, digest);
    }
    if digest: Key -> DWord :| Serves(f, digest) {
      forall a: Key, b: Key | Fold(f, a) == Fold(f, b) ensures NoCaseHash(a) == NoCaseHash(b) {
        assert digest(Fold(f, a)) == NoCaseHash(a) && digest(Fold(f, b)) == NoCaseHash(b);
      }
    }
  }

  /** CompareStringOrdinal ignores case by the upper-case table of Unicode, in which U+0451 becomes U+0401.
      These two are equal paths with different hashes, so no digest serves. */
  lemma OrdinalComparisonBreaksHash(f: WChar -> WChar)
    requires f(0x451) == f(0x401)
    ensures Fold(f, [0x451]) == Fold(f, [0x401])
    ensures NoCaseHash([0x451]) == 0x451 && NoCaseHash([0x401]) == 0x401
    ensures !HashConsistent(f) && forall digest: Key -> DWord :: !Serves(f, digest)
  {
    SingletonHash(0x451);
    SingletonHash(0x401);
    assert Fold(f, [0x451]) == Fold(f, [0x401]);
  }
}
