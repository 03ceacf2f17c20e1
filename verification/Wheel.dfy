/** Certificates of primality. A number is prime if the product of all candidates for its least divisor is
    invertible modulo it. The candidates are numbers on a wheel, those that 2, 3 and 5 do not divide. */
module Wheel {
  import opened PrimeNumbers

  /** Not divisible by 2, 3 or 5, as the numbers 30 * j + Spoke(i) are. */
  predicate OnWheel(e: nat) {
    e % 2 != 0 && e % 3 != 0 && e % 5 != 0
  }

  function Spoke(i: nat): (r: nat)
    ensures r > 0
  {
    if i == 0 then 7 else if i == 1 then 11 else if i == 2 then 13 else if i == 3 then 17
    else if i == 4 then 19 else if i == 5 then 23 else if i == 6 then 29 else 31
  }

  /** The product of the first i numbers on the wheel from 30 * j + 7 on; eight make a turn. */
  function Turn(j: nat, i: nat): nat {
    if i == 0 then 1 else (30 * j + Spoke(i - 1)) * Turn(j, i - 1)
  }

  /** The product of the numbers on the wheel from 30 * lo + 7 to 30 * hi + 1. */
  function Product(lo: nat, hi: nat): nat
    decreases hi - lo
  {
    if lo >= hi then 1 else Turn(lo, 8) * Product(lo + 1, hi)
  }

  lemma {:induction false} ProductJoin(lo: nat, mid: nat, hi: nat)
    requires lo <= mid <= hi
    ensures Product(lo, hi) == Product(lo, mid) * Product(mid, hi)
    decreases mid - lo
  {
    if lo < mid {
      ProductJoin(lo + 1, mid, hi);
      hide Turn, Product;
      Associate(Turn(lo, 8), Product(lo + 1, mid), Product(mid, hi));
    }
  }

  lemma Associate(a: nat, b: nat, c: nat)
    ensures a * (b * c) == a * b * c
  {
  }

  lemma Factor(e: nat, x: nat, y: nat)
    requires e > 0 && Divides(e, x)
    ensures Divides(e, x * y) && Divides(e, y * x)
  {
    var q := x / e;
    assert x * y == (q * y) * e by {
      assert x == e * q;
    }
    QuotientExact(x * y, e, q * y);
  }

  lemma OneMore(m: nat, p: nat)
    requires p > 0
    ensures (m + p) % p == m % p
  {
    var q, t := m / p, (m + p) / p;
    assert p * (q + 1 - t) == (m + p) % p - m % p;
    FarFromZero(p, q + 1 - t);
  }

  lemma {:induction false} SameRemainder(r: nat, p: nat, k: nat)
    requires p > 0
    ensures (r + p * k) % p == r % p
  {
    if k > 0 {
      SameRemainder(r, p, k - 1);
      OneMore(r + p * (k - 1), p);
    }
  }

  lemma SameSpoke(e: nat, j: nat)
    requires e >= 30 * j
    ensures OnWheel(e) <==> OnWheel(e - 30 * j)
  {
    SameRemainder(e - 30 * j, 2, 15 * j);
    SameRemainder(e - 30 * j, 3, 10 * j);
    SameRemainder(e - 30 * j, 5, 6 * j);
  }

  lemma BetweenTurns(e: nat, k: nat)
    requires OnWheel(e)
    ensures e < 30 * k + 7 ==> e <= 30 * k + 1
  {
    hide OnWheel;
    if 30 * k + 1 < e < 30 * k + 7 {
      SameSpoke(e, k);
      FirstSpokes(e - 30 * k);
    }
  }

  lemma FirstSpokes(r: nat)
    requires OnWheel(r)
    ensures r <= 1 || r >= 7
  {
  }

  lemma OnSpoke(e: nat, j: nat) returns (i: nat)
    requires OnWheel(e) && 30 * j + 7 <= e <= 30 * j + 31
    ensures i < 8 && e == 30 * j + Spoke(i)
  {
    var r := e - 30 * j;
    SameSpoke(e, j);
    i := if r == 7 then 0 else if r == 11 then 1 else if r == 13 then 2 else if r == 17 then 3
      else if r == 19 then 4 else if r == 23 then 5 else if r == 29 then 6 else 7;
  }

  lemma {:induction false} InTurn(j: nat, i: nat, k: nat)
    requires i < k
    ensures Divides(30 * j + Spoke(i), Turn(j, k))
  {
    hide Divides, Spoke;
    var e := 30 * j + Spoke(i);
    if i == k - 1 {
      DividesProduct(e, Turn(j, i));
    } else {
      InTurn(j, i, k - 1);
      Factor(e, Turn(j, k - 1), 30 * j + Spoke(k - 1));
    }
  }

  lemma DividesProduct(e: nat, k: nat)
    requires e > 0
    ensures Divides(e, e * k)
  {
    QuotientExact(e * k, e, k);
  }

  lemma {:induction false} InProduct(e: nat, lo: nat, hi: nat)
    requires OnWheel(e) && 30 * lo + 7 <= e <= 30 * hi + 1
    ensures Divides(e, Product(lo, hi))
    decreases hi - lo
  {
    hide Divides, Turn, OnWheel;
    if e <= 30 * lo + 31 {
      var i := OnSpoke(e, lo);
      InTurn(lo, i, 8);
      Factor(e, Turn(lo, 8), Product(lo + 1, hi));
    } else {
      BetweenTurns(e, lo + 1);
      InProduct(e, lo + 1, hi);
      Factor(e, Product(lo + 1, hi), Turn(lo, 8));
    }
  }

  /** y is an inverse of w modulo n. */
  predicate Inverse(w: nat, y: nat, n: nat)
    requires n > 0
  {
    w * y % n == 1
  }

  lemma InverseSharesNoDivisor(w: nat, y: nat, n: nat, e: nat)
    requires n > 0 && Inverse(w, y, n)
    requires e > 1 && Divides(e, w)
    ensures !Divides(e, n)
  {
    if Divides(e, n) {
      hide Divides;
      Factor(e, w, y);
      var q := w * y / n;
      Factor(e, n, q);
      assert w * y == n * q + 1;
      NoTwoInARow(e, n * q);
    }
  }

  lemma NoTwoInARow(e: nat, m: nat)
    requires e > 1
    ensures !(Divides(e, m) && Divides(e, m + 1))
  {
    if Divides(e, m) {
      var q, p := m / e, (m + 1) / e;
      if Divides(e, m + 1) {
        assert e * (p - q) == 1;
        FarFromZero(e, p - q);
      }
    }
  }

  /** A number on the wheel that is at most the root of n is on the first k turns. */
  lemma WithinTurns(e: nat, n: nat, k: nat)
    requires OnWheel(e) && e <= Sqrt(n) && n < (30 * k + 7) * (30 * k + 7)
    ensures e <= 30 * k + 1
  {
    hide OnWheel;
    var r := Sqrt(n);
    if r >= 30 * k + 7 {
      MulMonotone(30 * k + 7, r, 30 * k + 7, r);
    }
    BetweenTurns(e, k);
  }

  lemma DivisorOnWheel(e: nat, n: nat)
    requires e >= 3 && Divides(e, n) && OnWheel(n)
    ensures OnWheel(e) && e >= 7
  {
    if e % 2 == 0 { DivisorOfDivisor(2, e, n); }
    if e % 3 == 0 { DivisorOfDivisor(3, e, n); }
    if e % 5 == 0 { DivisorOfDivisor(5, e, n); }
  }

  /** If the product of all numbers on the wheel below the root of n is invertible modulo n, then n is prime. */
  lemma PrimeByInverse(n: nat, k: nat, y: nat)
    requires n > 1 && OnWheel(n) && n < (30 * k + 7) * (30 * k + 7)
    requires Inverse(Product(0, k), y, n)
    ensures IsPrimeNumber(n)
  {
    hide Product, Sqrt, Divides, Inverse, OnWheel;
    forall d | 2 <= d < n ensures !Divides(d, n) {
      if Divides(d, n) {
        OddOnWheel(n);
        var e := SmallDivisor(n, d);
        DivisorOnWheel(e, n);
        WithinTurns(e, n, k);
        InProduct(e, 0, k);
        InverseSharesNoDivisor(Product(0, k), y, n, e);
      }
    }
  }

  lemma OddOnWheel(n: nat)
    requires OnWheel(n)
    ensures n % 2 == 1
  {
  }

  // ----- The product of all numbers up to 2701 that 2, 3 and 5 do not divide, from 7 on

  const W_1: nat := 272027704963899014608248917722105541011
  const W_2A: nat := 1692024625124029727366479420857808227835569451127911
  const W_2B: nat := 361299068642916491840948169358497138881548870789101300811
  const W_3A: nat := 1118373034685816113222556774685499474904973454152076494319711
  const W_3B: nat := 451049202843084677965435877284406418973992149993883217912604611
  const W_4A: nat := 54357569100305524013399753712957889553170643978427591504282735511
  const W_4B: nat := 2940031295787440367150337040999280867564654992318091766268975452411
  const W_5A: nat := 89850967288919843126282443785420889633615048054901223051029605655311
  const W_5B: nat := 1790554092739725504305976159534566663268849333643665372485193832404211
  const W_6A: nat := 25592357233846780854116347268914624611780892477437349543023769158919111
  const W_6B: nat := 280413967574171684185155343020475817765354708575013012760895996732580011
  const W_7A: nat := 2472060214029339893656639744468766582724751192990660547510496309144926911
  const W_7B: nat := 18181576481259479007227959336060888162701556094696858545117633492231659811
  const W_8A: nat := 114715629576961467343931018105422160267115269424415108629296296410872638711
  const W_8B: nat := 634660561994151450569538485381802413836274884271829316911570827138791883611
  const W_9A: nat := 3133248025729732204097081611134490495732582279150490902332599724812357574511
  const W_9B: nat := 14001103914134476354955216037019498276918044464052667863357378436008382051411
  const W_10A: nat := 57297184140532783162319294330720951659997959950445720279174481619925921814311
  const W_10B: nat := 216844739473719538999451818231730448074110309018496703513753299709132077523211
  const W_11A: nat := 765210134757732472490835766885528639009324762031772887044249401319111793998111
  const W_11B: nat := 2535506702681117187359695801865744112883952753865655911319673083392341660219011
  const W_12A: nat := 7936033610411288229144385737583505972504182575827428113740055634095087709325911
  const W_12B: nat := 23585476190400784670567889696924181926429586863527400529653402424617607218618811
  const W_13A: nat := 66856386609192595190329437046266182957812133584006584897469510084360914509557711
  const W_13B: nat := 181471624793395459095419808991067214708885841311530145660761519550725750747762611
  const W_14A: nat := 473311938644996974970575737998011264266972270382810791544499191211051877743013511
  const W_14B: nat := 1189846204640106922641543371487759197551283358077075122655132948609388295749250411
  const W_15A: nat := 2890830910021042006643756063131329379826339956578246327212035915069907465264573311
  const W_15B: nat := 6804561198465088544091013433598812769165645584991513140285939631751109092831242211
  const W_16: nat := 15551451535272791740637357058207226712583069663899815543030828986221691520835677111
  const ONE_TURN: nat := 6685349671
  const TWO_TURNS: nat := 191571022887031385939341

  const WHEEL: nat :=
    W_1 * W_2A * W_2B * W_3A * W_3B * W_4A
    * W_4B * W_5A * W_5B * W_6A * W_6B * W_7A
    * W_7B * W_8A * W_8B * W_9A * W_9B * W_10A
    * W_10B * W_11A * W_11B * W_12A * W_12B * W_13A
    * W_13B * W_14A * W_14B * W_15A * W_15B * W_16

  lemma Segment1()
    ensures Product(0, 3) == W_1
  {
  }

  lemma Segment2()
    ensures Product(3, 9) == W_2A * W_2B
  {
  }

  lemma Segment3()
    ensures Product(9, 15) == W_3A * W_3B
  {
  }

  lemma Segment4()
    ensures Product(15, 21) == W_4A * W_4B
  {
  }

  lemma Segment5()
    ensures Product(21, 27) == W_5A * W_5B
  {
  }

  lemma Segment6()
    ensures Product(27, 33) == W_6A * W_6B
  {
  }

  lemma Segment7()
    ensures Product(33, 39) == W_7A * W_7B
  {
  }

  lemma Segment8()
    ensures Product(39, 45) == W_8A * W_8B
  {
  }

  lemma Segment9()
    ensures Product(45, 51) == W_9A * W_9B
  {
  }

  lemma Segment10()
    ensures Product(51, 57) == W_10A * W_10B
  {
  }

  lemma Segment11()
    ensures Product(57, 63) == W_11A * W_11B
  {
  }

  lemma Segment12()
    ensures Product(63, 69) == W_12A * W_12B
  {
  }

  lemma Segment13()
    ensures Product(69, 75) == W_13A * W_13B
  {
  }

  lemma Segment14()
    ensures Product(75, 81) == W_14A * W_14B
  {
  }

  lemma Segment15()
    ensures Product(81, 87) == W_15A * W_15B
  {
  }

  lemma Segment16()
    ensures Product(87, 90) == W_16
  {
  }

  lemma WheelProduct()
    ensures Product(0, 90) == WHEEL
  {
    hide Product;
    Segment1(); Segment2(); Segment3(); Segment4(); Segment5(); Segment6(); Segment7(); Segment8(); Segment9();
    Segment10(); Segment11(); Segment12(); Segment13(); Segment14(); Segment15(); Segment16();
    ProductJoin(0, 3, 9); ProductJoin(0, 9, 15); ProductJoin(0, 15, 21); ProductJoin(0, 21, 27);
    ProductJoin(0, 27, 33); ProductJoin(0, 33, 39); ProductJoin(0, 39, 45); ProductJoin(0, 45, 51);
    ProductJoin(0, 51, 57); ProductJoin(0, 57, 63); ProductJoin(0, 63, 69); ProductJoin(0, 69, 75);
    ProductJoin(0, 75, 81); ProductJoin(0, 81, 87); ProductJoin(0, 87, 90);
  }

  /** Ninety turns reach beyond the root of every prime in the table of bucket counts. */
  lemma PrimeByWheel(n: nat, y: nat)
    requires 1 < n < 2707 * 2707 && OnWheel(n) && Inverse(WHEEL, y, n)
    ensures IsPrimeNumber(n)
  {
    hide Product, IsPrimeNumber, Inverse, OnWheel;
    WheelProduct();
    PrimeByInverse(n, 90, y);
  }

  lemma PrimeBySize(n: nat)
    requires 1 < n < 49 && OnWheel(n)
    ensures IsPrimeNumber(n)
  {
    assert Inverse(Product(0, 0), 1, n);
    hide IsPrimeNumber, Inverse, OnWheel;
    PrimeByInverse(n, 0, 1);
  }

  lemma PrimeByOneTurn(n: nat, y: nat)
    requires 1 < n < 37 * 37 && OnWheel(n) && Inverse(ONE_TURN, y, n)
    ensures IsPrimeNumber(n)
  {
    assert Product(0, 1) == ONE_TURN;
    hide IsPrimeNumber, Inverse, OnWheel;
    PrimeByInverse(n, 1, y);
  }

  lemma PrimeByTwoTurns(n: nat, y: nat)
    requires 1 < n < 67 * 67 && OnWheel(n) && Inverse(TWO_TURNS, y, n)
    ensures IsPrimeNumber(n)
  {
    assert Product(0, 2) == TWO_TURNS;
    hide IsPrimeNumber, Inverse, OnWheel;
    PrimeByInverse(n, 2, y);
  }
}
