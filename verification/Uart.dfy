// The serial port's baud rate search: integer divisions on 32-, 16- and 8-bit
// variables, with every truncation of the source written out.
module Uart {
  import opened Arithmetic

  const CLOCK := 50000000
  const DEFAULT_BAUD := 115200
  const MAX_ERROR := 5             // in tenths of a percent

  // One round of the search: the divisor, the rate it gives and the rate's error,
  // each as wide as the variable that holds it.
  datatype Candidate = DivisionByZero | Candidate(cd: nat, rate: nat, error: nat)

  function Distance(a: nat, b: nat): nat { if a > b then a - b else b - a }

  function Try(baud: Word32, bdiv: nat): (c: Candidate)
  {
    var product := baud * (bdiv + 1) % 0x1_0000_0000;
    if product == 0 then DivisionByZero
    else
      var cd := CLOCK / product % 0x1_0000;
      if cd * (bdiv + 1) == 0 then DivisionByZero
      else
        var rate := CLOCK / (cd * (bdiv + 1));
        Candidate(cd, rate, Distance(baud, rate) % 0x1_0000)
  }

  predicate Accepted(baud: Word32, c: Candidate)
    requires baud > 0
  {
    c.Candidate? && c.error * 1000 / baud < MAX_ERROR
  }

  predicate Rejected(baud: Word32, c: Candidate)
    requires baud > 0
  {
    c.Candidate? && !Accepted(baud, c)
  }

  datatype Outcome = Programmed(bdiv: nat, cd: nat) | NotPossible | Fault(at: nat)

  // The outcome belongs to the first round that is not rejected.
  predicate OutcomeOf(baud: Word32, o: Outcome)
    requires baud > 0
  {
    match o
    case Programmed(bdiv, cd) =>
      4 <= bdiv < 255 && Accepted(baud, Try(baud, bdiv)) && Try(baud, bdiv).cd == cd && RejectedBelow(baud, bdiv)
    case NotPossible => RejectedBelow(baud, 255)
    case Fault(at) => 4 <= at < 255 && Try(baud, at).DivisionByZero? && RejectedBelow(baud, at)
  }

  predicate RejectedBelow(baud: Word32, bdiv: nat)
    requires baud > 0
  {
    forall b :: 4 <= b < bdiv ==> Rejected(baud, Try(baud, b))
  }

  datatype Write = Control(value: nat) | BaudGenerator(value: nat) | BaudDivider(value: nat)

  const TX_DISABLE_RX_DISABLE := 0x28
  const TX_RESET_RX_RESET := 0x03
  const TX_ENABLE_RX_ENABLE := 0x14

  function Requested(baud: Word32): (b: Word32)
    ensures b > 0
  {
    if baud == 0 then DEFAULT_BAUD else baud
  }

  class Port {
    ghost var writes: seq<Write>
    var control: nat
    var brGen: nat
    var brDiv: nat

    method WriteControl(value: nat)
      modifies this`control, this`writes
      ensures control == value && writes == old(writes) + [Control(value)]
    {
      control := value;
      writes := writes + [Control(value)];
    }

    // The registers are written only when a rate was found, the transmitter and
    // receiver being off while the two divisors change. Zero asks for the default rate.
    method SetBaudRate(rate: Word32) returns (o: Outcome)
      modifies this
      ensures rate != 0 ==> OutcomeOf(rate, o)
      ensures rate == 0 ==> OutcomeOf(115200, o)
      ensures o.Programmed? ==>
                && control == 0x14 && brGen == o.cd && brDiv == o.bdiv
                && writes == old(writes) + [Control(0x28), BaudGenerator(o.cd), BaudDivider(o.bdiv), Control(0x03), Control(0x14)]
      ensures !o.Programmed? ==> unchanged(this)
      // what this means for the caller
      ensures 3 <= rate <= 50000 ==> o.Programmed?
      ensures 0 < rate <= 130208 ==> !o.Fault? && (o.Programmed? ==> MeetsRate(rate, brGen, brDiv))
      ensures 130209 <= rate <= 130238 ==> brGen == 1 && brDiv == 254
      ensures rate > 10000000 && o.Programmed? ==> !MeetsRate(rate, brGen, brDiv)
      ensures rate == 0 ==> brGen == 72 && brDiv == 5
    {
      o := Search(Requested(rate));
      RequestServed(rate, o);
      if o.Programmed? {
        WriteControl(TX_DISABLE_RX_DISABLE);
        brGen := o.cd;
        writes := writes + [BaudGenerator(o.cd)];
        brDiv := o.bdiv;
        writes := writes + [BaudDivider(o.bdiv)];
        WriteControl(TX_RESET_RX_RESET);
        WriteControl(TX_ENABLE_RX_ENABLE);
      }
    }
  }

  // The rate that the two divisors give is at least the one asked for, and less than
  // half a percent above it.
  predicate MeetsRate(rate: Word32, brGen: nat, brDiv: nat) {
    0 < brGen * (brDiv + 1) &&
    var given := 50000000 / (brGen * (brDiv + 1));
    rate <= given && (given - rate) * 200 < rate
  }

  lemma RequestServed(rate: Word32, o: Outcome)
    requires o == Found(Requested(rate))
    ensures rate == 0 ==> o == Programmed(5, 72)
    ensures 3 <= rate <= 50000 ==> o.Programmed?
    ensures 0 < rate <= 130208 ==> !o.Fault? && (o.Programmed? ==> MeetsRate(rate, o.cd, o.bdiv))
    ensures 130209 <= rate <= 130238 ==> o == Programmed(254, 1)
    ensures rate > 10000000 && o.Programmed? ==> !MeetsRate(rate, o.cd, o.bdiv)
  {
    if rate == 0 {
      DefaultRate(o);
    } else if rate <= 130208 {
      SoundUpTo130208(rate);
      if rate <= 50000 { FoundIff(rate); }
    } else if rate <= 130238 {
      UnsoundFrom130209(rate);
    } else if rate > 10000000 {
      NeverMeets(rate, o);
    }
  }

  lemma NeverMeets(rate: Word32, o: Outcome)
    requires rate > 10000000 && o == Found(rate)
    ensures o.Programmed? ==> !MeetsRate(rate, o.cd, o.bdiv)
  {
    NeverAbove10000000(rate);
    if o.Programmed? { CandidateShape(rate, o.bdiv); }
  }

  method Search(baud: Word32) returns (o: Outcome)
    requires baud > 0
    ensures o == Found(baud) && OutcomeOf(baud, o)
  {
    var bdiv := 4;
    while bdiv < 255
      invariant 4 <= bdiv <= 255
      invariant RejectedBelow(baud, bdiv) && Found(baud) == FoundFrom(baud, bdiv)
    {
      var c := Round(baud, bdiv);
      if c.DivisionByZero? { return Fault(bdiv); }
      if c.error * 1000 / baud < MAX_ERROR { return Programmed(bdiv, c.cd); }
      bdiv := bdiv + 1;
    }
    return NotPossible;
  }

  method Round(baud: Word32, bdiv: nat) returns (c: Candidate)
    ensures c == Try(baud, bdiv)
  {
    var product := baud * (bdiv + 1) % 0x1_0000_0000;
    if product == 0 { return DivisionByZero; }
    var cd := CLOCK / product % 0x1_0000;
    if cd * (bdiv + 1) == 0 { return DivisionByZero; }
    var rate := CLOCK / (cd * (bdiv + 1));
    var error := (if baud > rate then baud - rate else rate - baud) % 0x1_0000;
    return Candidate(cd, rate, error);
  }

  // There is only one outcome, and there is one.
  lemma OutcomeUnique(baud: Word32, o: Outcome, o': Outcome)
    requires baud > 0 && OutcomeOf(baud, o) && OutcomeOf(baud, o')
    ensures o == o'
  {
  }

  function Found(baud: Word32): (o: Outcome)
    requires baud > 0
    ensures OutcomeOf(baud, o)
  {
    FoundFrom(baud, 4)
  }

  function FoundFrom(baud: Word32, bdiv: nat): (o: Outcome)
    requires baud > 0 && 4 <= bdiv <= 255 && RejectedBelow(baud, bdiv)
    ensures OutcomeOf(baud, o)
    decreases 255 - bdiv
  {
    if bdiv == 255 then NotPossible
    else if Try(baud, bdiv).DivisionByZero? then Fault(bdiv)
    else if Accepted(baud, Try(baud, bdiv)) then Programmed(bdiv, Try(baud, bdiv).cd)
    else FoundFrom(baud, bdiv + 1)
  }

  // --- What a programmed rate is worth ---------------------------------------------

  // The true error is at most half a percent.
  predicate WithinHalfPercent(baud: nat, rate: nat) {
    Distance(baud, rate) * 200 < baud
  }

  lemma AcceptedMeans(baud: Word32, c: Candidate)
    requires baud > 0 && c.Candidate?
    ensures Accepted(baud, c) <==> c.error * 200 < baud
  {
    DivModIdentity(c.error * 1000, baud);
    QuotientBelow(c.error * 1000, baud, 5);
  }

  // Where no intermediate wraps: the divisor fits, the rate is never below the one
  // asked for, and the larger the divisor the closer the rate.
  lemma NothingWraps(baud: Word32, bdiv: nat)
    requires 763 <= baud * (bdiv + 1) <= CLOCK
    ensures var c := Try(baud, bdiv);
            && c.Candidate? && c.cd == CLOCK / (baud * (bdiv + 1)) && 1 <= c.cd < 0x1_0000
            && c.rate == CLOCK / (c.cd * (bdiv + 1)) && c.rate >= baud && (c.rate - baud) * c.cd < baud
  {
    var k := bdiv + 1;
    var x := baud * k;
    CdRange(x);
    RateBounds(baud, k, CLOCK / x);
  }

  lemma CdRange(x: nat)
    requires 763 <= x <= CLOCK
    ensures 1 <= CLOCK / x < 0x1_0000
  {
    QuotientBelow(CLOCK, x, 1);
    QuotientBelow(CLOCK, x, 0x1_0000);
    assert x * 0x1_0000 >= 763 * 0x1_0000;
  }

  // So it is in every round for 153 to 196078 baud.
  lemma ProductRange(baud: nat, k: nat)
    requires 0 < baud <= 196078 && 5 <= k <= 255
    ensures baud * k <= CLOCK
    ensures 153 <= baud ==> 763 <= baud * k
  {
    ProductMonotone(baud, 196078, k, 255);
    if 153 <= baud { ProductMonotone(153, baud, 5, k); }
  }

  lemma RateBounds(baud: nat, k: nat, cd: nat)
    requires 0 < baud && 0 < k && 0 < cd
    requires cd == CLOCK / (baud * k)
    ensures 0 < cd * k
    ensures CLOCK / (cd * k) >= baud && (CLOCK / (cd * k) - baud) * cd < baud
  {
    NextMultiple(cd, 0, k);
    var y := cd * k;
    var rate := CLOCK / y;
    // from below: CLOCK >= (baud * k) * cd == y * baud
    DivModIdentity(CLOCK, baud * k);
    Rearrange(baud, k, cd);
    QuotientBelow(CLOCK, y, baud);
    // from above: rate * cd * k <= CLOCK < (baud * cd + baud) * k
    DivModIdentity(CLOCK, y);
    assert y * rate == k * (cd * rate) by { MulAssociative(k, cd, rate); MulCommutes(cd, k); }
    assert (baud * k) * cd + baud * k == k * (baud * cd + baud) by {
      Rearrange(baud, k, cd); MulDistributes(k, baud * cd, baud); MulCommutes(k, baud);
    }
    CancelFactor(k, cd * rate, baud * cd + baud);
    assert (rate - baud) * cd == cd * rate - baud * cd;
  }

  lemma Rearrange(baud: nat, k: nat, cd: nat)
    ensures (baud * k) * cd == (cd * k) * baud == k * (baud * cd)
  {
  }

  lemma CancelFactor(k: nat, x: nat, y: nat)
    requires k * x < k * y
    ensures x < y
  {
    if y <= x {
      Monotone(k, y, x);
    }
  }

  // A programmed rate is within half a percent exactly when its error fits the 16-bit
  // variable that the source keeps it in; what that means for the request comes below.
  lemma SoundIffErrorFits(baud: Word32, bdiv: nat, cd: nat)
    requires baud > 0 && OutcomeOf(baud, Programmed(bdiv, cd))
    ensures var rate := Try(baud, bdiv).rate;
            WithinHalfPercent(baud, rate) <==> Distance(baud, rate) < 0x1_0000
  {
    AcceptedMeans(baud, Try(baud, bdiv));
    if baud > 0x1_0000 * 200 {
      HugeRates(baud, bdiv, cd);
    }
  }

  // Beyond 13107200 baud the first divisor is zero, until the 32-bit product wraps;
  // from there on any rate programmed is far below the one asked for.
  lemma HugeRates(baud: Word32, bdiv: nat, cd: nat)
    requires baud > 0x1_0000 * 200 && OutcomeOf(baud, Programmed(bdiv, cd))
    ensures !WithinHalfPercent(baud, Try(baud, bdiv).rate) && Distance(baud, Try(baud, bdiv).rate) >= 0x1_0000
  {
    if baud * 5 < 0x1_0000_0000 {
      FirstRoundFaults(baud);
    } else {
      RateAtMost(Try(baud, bdiv).cd, bdiv + 1);
    }
  }

  lemma FirstRoundFaults(baud: Word32)
    requires baud > 10000000 && baud * 5 < 0x1_0000_0000
    ensures Try(baud, 4).DivisionByZero?
  {
    DivModUnique(CLOCK, baud * 5, 0, CLOCK);
  }

  lemma RateAtMost(cd: nat, k: nat)
    requires 5 <= k && 0 < cd * k
    ensures CLOCK / (cd * k) <= 10000000
  {
    if cd > 0 { NextMultiple(k, 0, cd); }
    QuotientBelow(CLOCK, cd * k, 10000001);
    assert (cd * k) * 10000001 >= 5 * 10000001;
  }

  // Below 763 the product gives a divisor that does not fit its 16 bits. What is left
  // of it is still large, but for one product: CLOCK is 762 * 65536 + 61568.
  lemma SmallProducts(x: nat)
    requires 5 <= x <= 762
    ensures CLOCK / x % 0x1_0000 > 152 || x == 762
  {
    var y := CLOCK / x;
    var q, r := y / 0x1_0000, y % 0x1_0000;
    if r <= 152 {
      DivModIdentity(CLOCK, x);
      MulDistributes(x, 0x1_0000 * q, r);
      assert x * (0x1_0000 * q) == 0x1_0000 * (x * q);
      Monotone(x, r, 152);
      assert x * q == 762;
      if q >= 2 { Monotone(x, 2, q); }
    }
  }

  // So the rate is below 65536, or the round is rejected.
  lemma WrappedDivisor(baud: Word32, bdiv: nat)
    requires 0 < baud && 4 <= bdiv < 255 && baud * (bdiv + 1) < 763
    ensures var c := Try(baud, bdiv);
            && c.Candidate? && c.rate == CLOCK / (c.cd * (bdiv + 1))
            && (c.rate < 0x1_0000 || Rejected(baud, c))
  {
    var k := bdiv + 1;
    var x := baud * k;
    NextMultiple(k, 0, baud);
    SmallProducts(x);
    var cd := CLOCK / x % 0x1_0000;
    if x == 762 {
      OddProduct(baud, k);
    } else {
      RateBelow(cd, k, 153, 5);
    }
  }

  lemma RateBelow(cd: nat, k: nat, cd0: nat, k0: nat)
    requires cd0 <= cd && k0 <= k && cd0 * k0 >= 763
    ensures 0 < cd * k && CLOCK / (cd * k) < 0x1_0000
  {
    Monotone(cd, k0, k);
    Monotone(k0, cd0, cd);
    QuotientBelow(CLOCK, cd * k, 0x1_0000);
    assert (cd * k) * 0x1_0000 >= 763 * 0x1_0000;
  }

  // The one exception, 762, is 2 * 3 * 127.
  lemma OddProduct(baud: Word32, k: nat)
    requires baud * k == 762 && 5 <= k <= 255
    ensures var c := Try(baud, k - 1);
            c.Candidate? && c.rate == CLOCK / (c.cd * k) && (c.rate < 0x1_0000 || Rejected(baud, c))
  {
    if k >= 10 {
      RateBelow(80, k, 80, 10);
    } else {
      SmallDivisors(baud, k);
      OddRound();
    }
  }

  lemma OddRound()
    ensures Try(127, 5) == Candidate(80, 104166, 38503) && Rejected(127, Try(127, 5))
  {
    assert 50000000 / 762 == 65616;
    assert 50000000 / 480 == 104166;
  }

  lemma SmallDivisors(baud: nat, k: nat)
    requires baud * k == 762 && 5 <= k < 10
    ensures baud == 127 && k == 6
  {
  }

  // --- Which requests are served well ----------------------------------------------

  predicate ServedWell(baud: Word32, o: Outcome)
    requires baud > 0
  {
    match o
    case Programmed(bdiv, cd) =>
      var c := Try(baud, bdiv);
      && c.Candidate? && c.cd == cd && 0 < cd * (bdiv + 1) && c.rate == CLOCK / (cd * (bdiv + 1))
      && baud <= c.rate && WithinHalfPercent(baud, c.rate)
    case NotPossible => true
    case Fault(_) => false
  }

  // Up to 130208 baud, a programmed rate is always within half a percent and never
  // below the rate asked for, and no round divides by zero.
  lemma SoundUpTo130208(baud: Word32)
    requires 0 < baud <= 130208
    ensures ServedWell(baud, Found(baud))
  {
    match Found(baud)
    case Fault(at) =>
      ProductRange(baud, at + 1);
      if baud * (at + 1) < 763 { WrappedDivisor(baud, at); } else { NothingWraps(baud, at); }
    case NotPossible =>
    case Programmed(bdiv, cd) =>
      ProductRange(baud, bdiv + 1);
      if baud * (bdiv + 1) < 763 {
        SoundBelow763(baud, bdiv, cd);
      } else {
        SoundFrom763(baud, bdiv, cd);
      }
  }

  lemma SoundBelow763(baud: Word32, bdiv: nat, cd: nat)
    requires 0 < baud && OutcomeOf(baud, Programmed(bdiv, cd)) && baud * (bdiv + 1) < 763
    ensures ServedWell(baud, Programmed(bdiv, cd))
  {
    NextMultiple(baud, 4, bdiv + 1);
    WrappedDivisor(baud, bdiv);
    SoundIffErrorFits(baud, bdiv, cd);
  }

  lemma SoundFrom763(baud: Word32, bdiv: nat, cd: nat)
    requires 0 < baud <= 130208 && OutcomeOf(baud, Programmed(bdiv, cd)) && 763 <= baud * (bdiv + 1) <= CLOCK
    ensures ServedWell(baud, Programmed(bdiv, cd))
  {
    NothingWraps(baud, bdiv);
    var rate := Try(baud, bdiv).rate;
    if rate - baud >= 0x1_0000 {
      SmallFactor(rate - baud, cd, baud);
      if cd > 1 { Monotone(rate - baud, 2, cd); }
      FarOff(baud, bdiv);
      TryIs(baud, bdiv + 1, cd);
      assert Try(baud, bdiv).error == rate - baud - 0x1_0000;
      AcceptedMeans(baud, Try(baud, bdiv));
      SixthRound(baud);
      assert false;
    }
    SoundIffErrorFits(baud, bdiv, cd);
  }

  // What the divisor of a round would be without truncation.
  function Divisor(baud: Word32, bdiv: nat): nat
    requires baud > 0
  {
    50000000 / (baud * (bdiv + 1))
  }

  // From 153 to 130208 baud the search takes the smallest divider, from 4 on, with
  // which the rate is met, and it fails only if there is none below 255.
  lemma SmallestDivider(baud: Word32)
    requires 153 <= baud <= 130208
    ensures match Found(baud)
            case Programmed(bdiv, cd) =>
              && 4 <= bdiv < 255 && cd == Divisor(baud, bdiv) && MeetsRate(baud, cd, bdiv)
              && forall b :: 4 <= b < bdiv ==> !MeetsRate(baud, Divisor(baud, b), b)
            case NotPossible => forall b :: 4 <= b < 255 ==> !MeetsRate(baud, Divisor(baud, b), b)
            case Fault(_) => false
  {
    SoundUpTo130208(baud);
    forall b: nat | 4 <= b < 255 && Rejected(baud, Try(baud, b))
      ensures !MeetsRate(baud, Divisor(baud, b), b)
    {
      RejectedMisses(baud, b);
    }
    if Found(baud).Programmed? {
      ProductRange(baud, Found(baud).bdiv + 1);
      NothingWraps(baud, Found(baud).bdiv);
    }
  }

  lemma RejectedMisses(baud: Word32, b: nat)
    requires 153 <= baud <= 130208 && 4 <= b < 255 && Rejected(baud, Try(baud, b))
    ensures !MeetsRate(baud, Divisor(baud, b), b)
  {
    ProductRange(baud, b + 1);
    NothingWraps(baud, b);
    AcceptedMeans(baud, Try(baud, b));
    CandidateShape(baud, b);
  }

  // An error too large for its 16 bits needs the divisor 1, and then the rate is far up.
  lemma FarOff(baud: nat, bdiv: nat)
    requires 0 < baud <= 130208 && 4 <= bdiv < 255 && baud * (bdiv + 1) <= CLOCK && CLOCK / (baud * (bdiv + 1)) == 1
    ensures CLOCK / (bdiv + 1) >= 196078 && bdiv > 5
  {
    QuotientBelow(CLOCK, bdiv + 1, 196078);
    QuotientBelow(CLOCK, baud * (bdiv + 1), 2);
    ProductMonotone(baud, 130208, bdiv + 1, bdiv + 1);
  }

  // Where such an error could pass for a small one, an earlier round is accepted.
  lemma SixthRound(baud: Word32)
    requires 129893 <= baud <= 130208
    ensures Accepted(baud, Try(baud, 5))
  {
    DivModUnique(CLOCK, baud * 6, 64, CLOCK - baud * 6 * 64);
    assert CLOCK / (64 * 6) == 130208;
    assert Try(baud, 5) == Candidate(64, 130208, 130208 - baud);
    AcceptedMeans(baud, Try(baud, 5));
  }

  lemma SmallFactor(e: nat, cd: nat, n: nat)
    requires 1 <= cd && e * cd < n
    ensures e < n
  {
    NextMultiple(e, 0, cd);
  }

  // From there on the last round is the first accepted, with an error of more than
  // 65536 that passes for less than 334. Any rate is CLOCK / (cd * (bdiv + 1)), and the
  // product is at most 383, the whole quotient of CLOCK and the rate asked for.
  lemma UnsoundFrom130209(baud: Word32)
    requires 130209 <= baud <= 130238
    ensures Found(baud) == Programmed(254, 1) && Try(baud, 254).rate == 196078 && !WithinHalfPercent(baud, 196078)
  {
    forall b: nat | 4 <= b < 254
      ensures Rejected(baud, Try(baud, b))
    {
      RoundRejected(baud, b + 1);
    }
    LastRoundAccepted(baud);
    OutcomeUnique(baud, Found(baud), Programmed(254, 1));
  }

  lemma FirstQuotient(baud: Word32, k: nat)
    requires 130209 <= baud <= 130238 && 5 <= k <= 255
    ensures baud * k < 0x1_0000_0000 && CLOCK / (baud * k) == 383 / k
  {
    DivModUnique(CLOCK, baud, 383, CLOCK - baud * 383);
    DivDiv(CLOCK, baud, k);
    ProductMonotone(baud, 130238, k, 255);
  }

  lemma LastRoundAccepted(baud: Word32)
    requires 130209 <= baud <= 130238
    ensures Try(baud, 254) == Candidate(1, 196078, 130542 - baud) && Accepted(baud, Try(baud, 254))
    ensures !WithinHalfPercent(baud, 196078)
  {
    FirstQuotient(baud, 255);
    TryIs(baud, 255, 1);
    AcceptedMeans(baud, Try(baud, 254));
  }

  lemma RoundRejected(baud: Word32, k: nat)
    requires 130209 <= baud <= 130238 && 5 <= k <= 254
    ensures Rejected(baud, Try(baud, k - 1))
  {
    FirstQuotient(baud, k);
    var cd := 383 / k;
    ProductsReached(cd, k);
    ErrorReached(baud, cd * k);
    TryIs(baud, k, cd);
    AcceptedMeans(baud, Try(baud, k - 1));
  }

  lemma TryIs(baud: Word32, k: nat, cd: nat)
    requires 0 < k && 0 < baud * k < 0x1_0000_0000 && cd == CLOCK / (baud * k) < 0x1_0000 && 0 < cd * k
    ensures Try(baud, k - 1) == Candidate(cd, CLOCK / (cd * k), Distance(baud, CLOCK / (cd * k)) % 0x1_0000)
  {
  }

  lemma ErrorReached(baud: nat, n: nat)
    requires 130209 <= baud <= 130238 && (192 <= n <= 254 || 256 <= n <= 382)
    ensures Distance(baud, CLOCK / n) % 0x1_0000 * 200 >= baud
  {
    if n < 255 {
      QuotientBelow(CLOCK, n, 196850);
      QuotientBelow(CLOCK, n, 260417);
    } else {
      QuotientBelow(CLOCK, n, 130890);
      QuotientBelow(CLOCK, n, 195313);
    }
  }

  // What the product of divisor and round can be: not 383, which is prime, nor 255,
  // which only the last round reaches.
  lemma ProductsReached(cd: nat, k: nat)
    requires 5 <= k <= 254 && cd == 383 / k
    ensures 1 <= cd <= 76 && (192 <= cd * k <= 254 || 256 <= cd * k <= 382)
  {
    DivModIdentity(383, k);
    QuotientBelow(383, k, 1);
    QuotientBelow(383, k, 77);
    if cd >= 2 {
      Monotone(k, 2, cd);
      Prime383(k, cd);
    }
  }

  lemma Prime383(a: nat, b: nat)
    requires 2 <= a && 2 <= b
    ensures a * b != 383
  {
    if a > 19 && b > 19 {
      Monotone(a, 20, b);
    }
  }

  // Near the bound, a request is served well exactly when it does not exceed 130208.
  lemma SoundIff(baud: Word32)
    requires 0 < baud <= 130238
    ensures ServedWell(baud, Found(baud)) <==> baud <= 130208
  {
    if baud <= 130208 { SoundUpTo130208(baud); } else { UnsoundFrom130209(baud); }
  }

  // Beyond 10000000 baud nothing programmed is within half a percent, while that
  // rate itself is met exactly.
  lemma NeverAbove10000000(baud: Word32)
    requires baud > 10000000
    ensures Found(baud).Programmed? ==> !WithinHalfPercent(baud, Try(baud, Found(baud).bdiv).rate)
  {
    if Found(baud).Programmed? {
      if baud <= 0x1_0000 * 200 {
        FirstRoundFaults(baud);
      } else {
        HugeRates(baud, Found(baud).bdiv, Found(baud).cd);
      }
    }
  }

  lemma FastestRate()
    ensures OutcomeOf(10000000, Programmed(4, 1)) && ServedWell(10000000, Programmed(4, 1))
    ensures Try(10000000, 4).rate == 10000000
  {
    assert Try(10000000, 4) == Candidate(1, 10000000, 0);
  }

  // Up to 50000 baud a rate is found exactly for 3 baud and more.
  lemma FoundIff(baud: Word32)
    requires 0 < baud <= 50000
    ensures Found(baud).Programmed? <==> 3 <= baud
  {
    SoundUpTo130208(baud);
    if baud >= 153 {
      FirstRoundUpTo50000(baud);
    } else if baud >= 3 {
      ExactRound(baud);
    } else if Found(baud).Programmed? {
      TooSlow(baud, Found(baud).bdiv);
    }
  }

  // The first round whose divisor fits meets a slow rate exactly.
  lemma ExactRound(baud: Word32)
    requires 3 <= baud <= 152
    ensures exists bdiv :: 4 <= bdiv < 255 && Accepted(baud, Try(baud, bdiv))
  {
    var k := 762 / baud + 1;
    FirstFitting(baud);
    NothingWraps(baud, k - 1);
    var c := Try(baud, k - 1);
    QuotientBelow(CLOCK, baud * k, 152);
    SmallError(c.rate - baud, c.cd, baud);
    AcceptedMeans(baud, c);
  }

  lemma FirstFitting(baud: nat)
    requires 3 <= baud <= 152
    ensures 5 <= 762 / baud < 255 && 763 <= baud * (762 / baud + 1) <= 914
  {
    DivModIdentity(762, baud);
    QuotientBelow(762, baud, 5);
    QuotientBelow(762, baud, 255);
    MulDistributes(baud, 762 / baud, 1);
  }

  lemma SmallError(e: nat, cd: nat, n: nat)
    requires e * cd < n <= cd
    ensures e == 0
  {
    if e > 0 { NextMultiple(cd, 0, e); }
  }

  // One and two baud are out of reach of every divisor that is kept.
  lemma TooSlow(baud: Word32, bdiv: nat)
    requires 1 <= baud <= 2 && 4 <= bdiv < 255
    ensures Try(baud, bdiv).Candidate? ==> Try(baud, bdiv).rate != baud
  {
    if baud == 2 && bdiv == 254 {
      LastRoundForTwo();
    } else if Try(baud, bdiv).Candidate? {
      CandidateShape(baud, bdiv);
      SlowestRate(Try(baud, bdiv).cd, bdiv + 1);
    }
  }

  lemma LastRoundForTwo()
    ensures Try(2, 254).rate != 2
  {
    assert 50000000 / 510 == 98039;
    assert 50000000 / 8288265 == 6;
  }

  lemma CandidateShape(baud: Word32, bdiv: nat)
    requires Try(baud, bdiv).Candidate?
    ensures var c := Try(baud, bdiv);
            c.cd < 0x1_0000 && 0 < c.cd * (bdiv + 1) && c.rate == CLOCK / (c.cd * (bdiv + 1))
  {
  }

  lemma SlowestRate(cd: nat, k: nat)
    requires cd < 0x1_0000 && k <= 255 && 0 < cd * k
    ensures CLOCK / (cd * k) >= 2
    ensures k <= 254 ==> CLOCK / (cd * k) >= 3
  {
    Monotone(k, cd, 0xFFFF);
    QuotientBelow(CLOCK, cd * k, 2);
    QuotientBelow(CLOCK, cd * k, 3);
  }

  // Up to 50000 baud the first round is accepted, so the search always succeeds.
  lemma FirstRoundUpTo50000(baud: Word32)
    requires 153 <= baud <= 50000
    ensures Found(baud) == Programmed(4, CLOCK / (5 * baud)) && Found(baud).cd >= 200
  {
    FirstRoundAccepted(baud);
    OutcomeUnique(baud, Found(baud), Programmed(4, CLOCK / (5 * baud)));
  }

  lemma FirstRoundAccepted(baud: Word32)
    requires 153 <= baud <= 50000
    ensures Accepted(baud, Try(baud, 4)) && Try(baud, 4).cd == CLOCK / (5 * baud) >= 200
  {
    ProductRange(baud, 5);
    NothingWraps(baud, 4);
    FirstDivisor(baud);
    var c := Try(baud, 4);
    SmallErrorOf(baud, c.rate, c.cd);
    AcceptedMeans(baud, c);
  }

  lemma SmallErrorOf(baud: nat, rate: nat, cd: nat)
    requires baud <= 50000 && 200 <= cd && baud <= rate && (rate - baud) * cd < baud
    ensures Distance(baud, rate) % 0x1_0000 * 200 < baud
  {
    Monotone(rate - baud, 200, cd);
  }

  lemma FirstDivisor(baud: nat)
    requires 153 <= baud <= 50000
    ensures CLOCK / (baud * (4 + 1)) == CLOCK / (5 * baud) >= 200
  {
    QuotientBelow(CLOCK, 5 * baud, 200);
  }

  // A rate for which the truncated error passes: 839358 baud asked for, 909090
  // programmed in the very first round, more than 8% off.
  lemma FalselyAccepted()
    ensures OutcomeOf(839358, Programmed(4, 11))
    ensures Try(839358, 4).rate == 909090 && !WithinHalfPercent(839358, 909090)
  {
  }

  // The default rate is met in the second round.
  lemma DefaultRate(o: Outcome)
    requires OutcomeOf(DEFAULT_BAUD, o)
    ensures o == Programmed(5, 72) && Try(DEFAULT_BAUD, 5).rate == 115740
  {
    DefaultRounds();
    OutcomeUnique(DEFAULT_BAUD, o, Programmed(5, 72));
  }

  lemma DefaultRounds()
    ensures OutcomeOf(DEFAULT_BAUD, Programmed(5, 72)) && Try(DEFAULT_BAUD, 5).rate == 115740
  {
    FirstDefaultRound();
    SecondDefaultRound();
  }

  lemma FirstDefaultRound()
    ensures Rejected(DEFAULT_BAUD, Try(DEFAULT_BAUD, 4))
  {
    assert Try(115200, 4) == Candidate(86, 116279, 1079);
  }

  lemma SecondDefaultRound()
    ensures Try(DEFAULT_BAUD, 5) == Candidate(72, 115740, 540) && Accepted(DEFAULT_BAUD, Try(DEFAULT_BAUD, 5))
  {
    assert Try(115200, 5) == Candidate(72, 115740, 540);
  }
}
