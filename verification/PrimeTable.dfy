/** The precomputed bucket counts, and which of them are prime. */
module PrimeTable {
  import opened PrimeNumbers
  import opened Wheel
  import opened Words

  const ROW_1: seq<DWord> := [
    3, 7, 11, 17, 23, 29, 37, 47, 59]
  const ROW_2: seq<DWord> := [
    71, 89, 107, 131, 163, 197, 239, 293, 353, 431]
  const ROW_3: seq<DWord> := [
    521, 631, 761, 919, 1103, 1327, 1597, 1931, 2333]
  const ROW_4: seq<DWord> := [
    2801, 3371, 4049, 4861, 5839, 7013, 8419, 10103, 12143, 14591, 17519, 21023, 25229, 30293]
  const ROW_5: seq<DWord> := [
    36353, 43627, 52361, 62851, 75431, 90523, 108631, 130363, 156437, 187751, 225307, 270371, 324449, 389357]
  const ROW_6: seq<DWord> := [
    467237, 560689, 672827, 807403, 968897, 1162687, 1395263, 1674319, 2009191, 2411033, 2893249, 3471899,
    4166287, 4999559, 5999471, 7199369]
  const ROW_7: seq<DWord> := [7849369, 8649369, 9249369, 10049369]

  const PRIME_ROWS: seq<DWord> := ROW_1 + ROW_2 + ROW_3 + ROW_4 + ROW_5 + ROW_6
  const PRIMES: seq<DWord> := PRIME_ROWS + ROW_7

  const LARGEST_PRIME: DWord := 7199369
  const LARGEST: DWord := 10049369

  // ----- Order

  predicate Ascending(s: seq<int>) {
    forall i, j | 0 <= i < j < |s| :: s[i] < s[j]
  }

  lemma RowsAscend()
    ensures Ascending(ROW_1) && Ascending(ROW_2) && Ascending(ROW_3) && Ascending(ROW_4)
    ensures Ascending(ROW_5) && Ascending(ROW_6) && Ascending(ROW_7)
  {
  }

  lemma AscendingJoin(s: seq<int>, t: seq<int>)
    requires Ascending(s) && Ascending(t)
    requires s != [] && t != [] && s[|s| - 1] < t[0]
    ensures Ascending(s + t)
  {
  }

  lemma TableAscends()
    ensures Ascending(PRIMES) && |PRIMES| == 76 && |PRIME_ROWS| == 72
    ensures PRIME_ROWS[71] == PRIMES[71] == LARGEST_PRIME && PRIMES[75] == LARGEST
  {
    RowsAscend();
    AscendingJoin(ROW_1, ROW_2);
    AscendingJoin(ROW_1 + ROW_2, ROW_3);
    AscendingJoin(ROW_1 + ROW_2 + ROW_3, ROW_4);
    AscendingJoin(ROW_1 + ROW_2 + ROW_3 + ROW_4, ROW_5);
    AscendingJoin(ROW_1 + ROW_2 + ROW_3 + ROW_4 + ROW_5, ROW_6);
    AscendingJoin(PRIME_ROWS, ROW_7);
  }

  lemma CompositeEntries()
    ensures |PRIMES| == 76 && PRIMES[72] == 7849369 && PRIMES[73] == 8649369
  {
  }

  // ----- The rows

  ghost predicate AllPrime(row: seq<nat>) {
    forall p | p in row :: IsPrimeNumber(p)
  }

  lemma SmallestPrime()
    ensures IsPrimeNumber(3)
  {
    assert !Divides(2, 3);
  }

  lemma Row1()
    ensures AllPrime(ROW_1)
  {
    hide IsPrimeNumber;
    SmallestPrime();
    PrimeBySize(7); PrimeBySize(11); PrimeBySize(17); PrimeBySize(23); PrimeBySize(29); PrimeBySize(37);
    PrimeBySize(47); PrimeByOneTurn(59, 51);
  }

  lemma Row2()
    ensures AllPrime(ROW_2)
  {
    hide IsPrimeNumber;
    PrimeByTwoTurns(71, 68); PrimeByTwoTurns(89, 82); PrimeByTwoTurns(107, 46); PrimeByTwoTurns(131, 68);
    PrimeByTwoTurns(163, 51); PrimeByTwoTurns(197, 53); PrimeByTwoTurns(239, 58); PrimeByTwoTurns(293, 169);
    PrimeByTwoTurns(353, 312); PrimeByTwoTurns(431, 181);
  }

  lemma Row3()
    ensures AllPrime(ROW_3)
  {
    hide IsPrimeNumber;
    PrimeByTwoTurns(521, 205); PrimeByTwoTurns(631, 395); PrimeByTwoTurns(761, 163); PrimeByTwoTurns(919, 803);
    PrimeByTwoTurns(1103, 741); PrimeByTwoTurns(1327, 89); PrimeByTwoTurns(1597, 1247);
    PrimeByTwoTurns(1931, 1191); PrimeByTwoTurns(2333, 187);
  }

  lemma Row4()
    ensures AllPrime(ROW_4)
  {
    hide IsPrimeNumber;
    PrimeByWheel(2801, 682); PrimeByWheel(3371, 720); PrimeByWheel(4049, 2220); PrimeByWheel(4861, 937);
    PrimeByWheel(5839, 2625); PrimeByWheel(7013, 2866); PrimeByWheel(8419, 5204); PrimeByWheel(10103, 7112);
    PrimeByWheel(12143, 288); PrimeByWheel(14591, 4626); PrimeByWheel(17519, 15061); PrimeByWheel(21023, 6543);
    PrimeByWheel(25229, 11755); PrimeByWheel(30293, 15840);
  }

  lemma Row5()
    ensures AllPrime(ROW_5)
  {
    hide IsPrimeNumber;
    PrimeByWheel(36353, 22426); PrimeByWheel(43627, 38100); PrimeByWheel(52361, 32124);
    PrimeByWheel(62851, 5034); PrimeByWheel(75431, 25800); PrimeByWheel(90523, 78264);
    PrimeByWheel(108631, 3634); PrimeByWheel(130363, 10031); PrimeByWheel(156437, 136207);
    PrimeByWheel(187751, 158246); PrimeByWheel(225307, 22715); PrimeByWheel(270371, 33749);
    PrimeByWheel(324449, 291284); PrimeByWheel(389357, 210459);
  }

  lemma Row6()
    ensures AllPrime(ROW_6)
  {
    hide IsPrimeNumber;
    PrimeByWheel(467237, 144996); PrimeByWheel(560689, 21701); PrimeByWheel(672827, 633825);
    PrimeByWheel(807403, 282601); PrimeByWheel(968897, 406652); PrimeByWheel(1162687, 828630);
    PrimeByWheel(1395263, 1061458); PrimeByWheel(1674319, 898274); PrimeByWheel(2009191, 542628);
    PrimeByWheel(2411033, 129422); PrimeByWheel(2893249, 601896); PrimeByWheel(3471899, 293052);
    PrimeByWheel(4166287, 1842054); PrimeByWheel(4999559, 4698638); PrimeByWheel(5999471, 2219245);
    PrimeByWheel(7199369, 6375809);
  }

  lemma Row7()
    ensures forall p | p in ROW_7 :: !IsPrimeNumber(p)
  {
    assert Divides(11, 7849369) && Divides(3, 8649369) && Divides(3, 9249369) && Divides(11, 10049369);
  }

  /** The entries up to 7199369 are prime and the four behind it are not. */
  lemma EntryIsPrimeIff(p: DWord)
    requires p in PRIMES
    ensures IsPrimeNumber(p) <==> p <= LARGEST_PRIME
  {
    PrimeRows();
    Row7();
    TableAscends();
    hide IsPrimeNumber, PRIME_ROWS;
    var i :| 0 <= i < |PRIMES| && PRIMES[i] == p;
    if i < |PRIME_ROWS| {
      assert PRIME_ROWS[i] == p;
    } else {
      assert ROW_7[i - |PRIME_ROWS|] == p;
    }
  }

  lemma PrimeRows()
    ensures AllPrime(PRIME_ROWS)
  {
    Row1();
    Row2();
    Row3();
    Row4();
    Row5();
    Row6();
  }
}
