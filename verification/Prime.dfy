/** The prime test and the choice of bucket counts. */
module Prime {
  import opened PrimeNumbers
  import opened PrimeTable
  import opened Words

  /** Trial division by odd numbers is exact for every DWORD but one: it takes 1 for a prime. */
  method IsPrime(dwCandidate: DWord) returns (fPrime: bool)
    ensures fPrime <==> IsPrimeNumber(dwCandidate) || dwCandidate == 1
  {
    hide Sqrt, Divides, IsPrimeNumber;
    if dwCandidate % 2 == 0 {
      EvenPrime(dwCandidate);
      return dwCandidate == 2;
    }
    var dwMax := Sqrt(dwCandidate);
    SmallRoot(dwCandidate);
    var index: DWord := 3;
    while index <= dwMax
      invariant index % 2 == 1 && 3 <= index <= 0x1_0003
      invariant forall d | 3 <= d < index && d % 2 == 1 :: !Divides(d, dwCandidate)
    {
      if Divides(index, dwCandidate) {
        ProperDivisor(dwCandidate, index);
        return false;
      }
      index := index + 2;
    }
    NoSmallDivisor(dwCandidate);
    return true;
  }

  lemma SmallRoot(n: DWord)
    ensures Sqrt(n) < 0x1_0000
  {
  }

  /** p is the least number satisfying being prime among those from m up to the largest candidate. */
  ghost predicate LeastPrimeFrom(p: nat, m: nat) {
    && m <= p < MAXDWORD && IsPrimeNumber(p)
    && forall q | m <= q < p :: !IsPrimeNumber(q)
  }

  /** r answers a request for at least m buckets. Up to the largest table entry it is the least table entry
      that is big enough. Above it, it is the least prime that is big enough, or m itself when no DWORD below
      the maximum qualifies. */
  ghost predicate Answers(r: DWord, m: nat) {
    && r >= m
    && (m <= LARGEST ==> r in PRIMES && forall p | p in PRIMES && p >= m :: r <= p)
    && (m > LARGEST ==>
          || LeastPrimeFrom(r, m)
          || (r == m && forall q | m <= q < MAXDWORD :: !IsPrimeNumber(q)))
  }

  /** There is one answer, and it is no less than what was asked for. */
  lemma AnswerBounds(r: DWord, m: nat)
    requires Answers(r, m)
    ensures r >= m && forall q: DWord | Answers(q, m) :: q == r
  {
    hide IsPrimeNumber, PRIMES;
  }

  /** Up to the largest table entry the answer is prime exactly when the minimum is at most 7199369, although
      the table is headed "pre-calculated prime numbers". */
  lemma TableAnswerIff(r: DWord, m: nat)
    requires m <= LARGEST && Answers(r, m)
    ensures IsPrimeNumber(r) <==> m <= LARGEST_PRIME
  {
    EntryIsPrimeIff(r);
    TableAscends();
    assert PRIMES[71] in PRIMES;
  }

  method GetPrime(dwMinimum: DWord) returns (r: DWord)
    ensures Answers(r, dwMinimum)
    ensures dwMinimum <= LARGEST ==> (IsPrimeNumber(r) <==> dwMinimum <= LARGEST_PRIME)
  {
    TableAscends();
    hide PRIMES;
    for i := 0 to |PRIMES|
      invariant forall k | 0 <= k < i :: PRIMES[k] < dwMinimum
    {
      if PRIMES[i] >= dwMinimum {
        r := PRIMES[i];
        TableAnswerIff(r, dwMinimum);
        return;
      }
    }
    r := SearchPrime(dwMinimum);
  }

  /** The second loop of GetPrime. Its candidates stay odd and do not wrap. */
  method SearchPrime(dwMinimum: DWord) returns (r: DWord)
    requires dwMinimum > 2
    ensures || LeastPrimeFrom(r, dwMinimum)
            || (r == dwMinimum && forall q | dwMinimum <= q < MAXDWORD :: !IsPrimeNumber(q))
  {
    var dwCandidate: DWord := if dwMinimum % 2 == 0 then dwMinimum + 1 else dwMinimum;
    assert dwMinimum % 2 == 0 ==> Divides(2, dwMinimum);
    while dwCandidate < MAXDWORD
      invariant dwMinimum <= dwCandidate && dwCandidate % 2 == 1
      invariant forall q | dwMinimum <= q < dwCandidate :: !IsPrimeNumber(q)
    {
      var fPrime := IsPrime(dwCandidate);
      if fPrime {
        return dwCandidate;
      }
      assert Divides(2, dwCandidate + 1);
      dwCandidate := dwCandidate + 2;
    }
    return dwMinimum;
  }

  /** A request for at least 8000000 buckets is answered with a multiple of 3. */
  lemma AnswerNotPrime(r: DWord)
    requires Answers(r, 8000000)
    ensures r == 8649369 == 3 * 2883123 && !IsPrimeNumber(r)
  {
    hide IsPrimeNumber, PRIMES;
    TableAscends();
    EntryIsPrimeIff(r);
    CompositeEntries();
    assert PRIMES[73] in PRIMES;
    var i :| 0 <= i < |PRIMES| && PRIMES[i] == r;
    assert 72 < i <= 73;
  }
}
