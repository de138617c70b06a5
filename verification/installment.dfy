/**
 * calculate_monthly_installment of app/utils.py: the amortised monthly payment
 *   amount * i / (1 - (1 + i) ^ -tenure),   i = rate / (12 * 100),
 * evaluated over exact reals. The source divides by zero when the rate is 0
 * (and when the tenure is 0); `MonthlyInstallment` models that as written, and
 * `InstallmentOrProrated` is the corrected calculation the eligibility policy uses.
 */
module Installment {
  import opened Outcomes

  /** The Python ZeroDivisionError the formula raises. */
  datatype CalcError = ZeroDivision

  /** Real multiplication, named so that the solver treats the products in the
      power lemmas as single terms. */
  function Mul(x: real, y: real): real {
    x * y
  }

  /** b to a natural power. */
  function Pow(b: real, n: nat): real {
    if n == 0 then 1.0 else Mul(b, Pow(b, n - 1))
  }

  /** b to an integer power, as Python's float ** int; a negative power of 0 is
      excluded (Python raises ZeroDivisionError there). */
  function IntPow(b: real, e: int): real
    requires b != 0.0 || e >= 0
  {
    if e >= 0 then Pow(b, e)
    else PowNonZero(b, -e); 1.0 / Pow(b, -e)
  }

  /** The monthly fraction of an annual percentage rate. */
  function MonthlyRate(rate: real): real {
    rate / 1200.0
  }

  /** calculate_monthly_installment as written. It fails exactly where Python
      raises ZeroDivisionError, which for a non-negative rate is a rate or a
      tenure of zero. */
  function MonthlyInstallment(amount: real, rate: real, tenure: int): (r: Result<real, CalcError>)
    ensures rate >= 0.0 ==> (r.Failure? <==> rate == 0.0 || tenure == 0)
  {
    var i := MonthlyRate(rate);
    var b := 1.0 + i;
    if b == 0.0 && tenure > 0 then Failure(ZeroDivision)   // 0.0 ** -tenure
    else
      var d := 1.0 - IntPow(b, -tenure);
      assert rate >= 0.0 ==> (d != 0.0 <==> rate != 0.0 && tenure != 0) by {
        if rate == 0.0 {
          PowOne(if tenure >= 0 then tenure else -tenure);
        } else if rate > 0.0 && tenure > 0 {
          PowAboveOne(b, tenure);
        } else if rate > 0.0 && tenure < 0 {
          PowAboveOne(b, -tenure);
        }
      }
      if d == 0.0 then Failure(ZeroDivision) else Success(amount * i / d)
  }

  /** The corrected calculation: a zero rate prorates the amount over the
      tenure instead of dividing by zero; any other rate uses the formula. */
  function InstallmentOrProrated(amount: real, rate: real, tenure: int): (r: Result<real, CalcError>)
    ensures rate != 0.0 ==> r == MonthlyInstallment(amount, rate, tenure)
    ensures rate == 0.0 && tenure != 0 ==> r.Success? && r.value * (tenure as real) == amount
    ensures rate >= 0.0 ==> (r.Failure? <==> tenure == 0)
  {
    if rate == 0.0 then
      if tenure == 0 then Failure(ZeroDivision) else Success(amount / (tenure as real))
    else MonthlyInstallment(amount, rate, tenure)
  }

  /** As written, a zero-rate request of 100000 over 12 months divides by zero. */
  lemma ZeroRateDividesByZero()
    ensures MonthlyInstallment(100000.0, 0.0, 12) == Failure(ZeroDivision)
  {
  }

  /** For a positive rate and tenure the formula succeeds, with (1 + i)^-tenure
      written as 1 / (1 + i)^tenure. */
  lemma InstallmentValue(amount: real, rate: real, tenure: int)
    requires rate > 0.0 && tenure >= 1
    ensures Pow(1.0 + MonthlyRate(rate), tenure) > 1.0
    ensures MonthlyInstallment(amount, rate, tenure)
         == Success(amount * MonthlyRate(rate) / (1.0 - 1.0 / Pow(1.0 + MonthlyRate(rate), tenure)))
  {
    PowAboveOne(1.0 + MonthlyRate(rate), tenure);
  }

  /** With a positive rate, the tenure's payments together repay more than the
      amount borrowed: the formula charges interest. */
  lemma RepaysMoreThanAmount(amount: real, rate: real, tenure: int)
    requires amount > 0.0 && rate > 0.0 && tenure >= 1
    ensures MonthlyInstallment(amount, rate, tenure).Success?
    ensures MonthlyInstallment(amount, rate, tenure).value * (tenure as real) > amount
  {
    var i := MonthlyRate(rate);
    InstallmentValue(amount, rate, tenure);
    FormulaRepaysMore(amount, i, Pow(1.0 + i, tenure), tenure, MonthlyInstallment(amount, rate, tenure).value);
  }

  /** With a positive rate, a payment is at most one month's interest on the
      whole amount plus an equal share of the amount. */
  lemma AtMostInterestPlusShare(amount: real, rate: real, tenure: int)
    requires amount > 0.0 && rate > 0.0 && tenure >= 1
    ensures MonthlyInstallment(amount, rate, tenure).Success?
    ensures MonthlyInstallment(amount, rate, tenure).value
         <= amount * MonthlyRate(rate) + amount / (tenure as real)
  {
    var i := MonthlyRate(rate);
    InstallmentValue(amount, rate, tenure);
    FormulaAtMost(amount, i, Pow(1.0 + i, tenure), tenure, MonthlyInstallment(amount, rate, tenure).value);
  }

  /** RepaysMoreThanAmount for the formula's value v at monthly rate i, with
      p = (1 + i)^tenure. */
  lemma FormulaRepaysMore(amount: real, i: real, p: real, tenure: nat, v: real)
    requires amount > 0.0 && i > 0.0 && tenure >= 1
    requires p == Pow(1.0 + i, tenure) && p > 1.0
    requires v == amount * i / (1.0 - 1.0 / p)
    ensures v * (tenure as real) > amount
  {
    Bernoulli(i, tenure);
    PaymentBound(amount, i, p, tenure as real);
  }

  /** AtMostInterestPlusShare for the formula's value v at monthly rate i, with
      p = (1 + i)^tenure. */
  lemma FormulaAtMost(amount: real, i: real, p: real, tenure: nat, v: real)
    requires amount > 0.0 && i > 0.0 && tenure >= 1
    requires p == Pow(1.0 + i, tenure) && p > 1.0
    requires v == amount * i / (1.0 - 1.0 / p)
    ensures v <= amount * i + amount / (tenure as real)
  {
    AtLeastLinearGrowth(i, tenure);
    UpperBound(amount, i, p, tenure as real);
  }

  // ---------------------------------------------------------------------------
  // Powers

  /** A non-zero base has non-zero powers. */
  lemma {:induction false} PowNonZero(b: real, n: nat)
    requires b != 0.0
    ensures Pow(b, n) != 0.0
  {
    if n > 0 {
      PowNonZero(b, n - 1);
    }
  }

  /** Every power of one is one. */
  lemma {:induction false} PowOne(n: nat)
    ensures Pow(1.0, n) == 1.0
  {
    if n > 0 {
      PowOne(n - 1);
    }
  }

  /** A base above one has powers above one. */
  lemma {:induction false} PowAboveOne(b: real, n: nat)
    requires b > 1.0 && n >= 1
    ensures Pow(b, n) > 1.0
  {
    if n > 1 {
      PowAboveOne(b, n - 1);
    }
  }

  /** Bernoulli's inequality, (1 + i)^t >= 1 + t*i. */
  lemma {:induction false} AtLeastLinearGrowth(i: real, t: nat)
    requires i > 0.0
    ensures Pow(1.0 + i, t) >= 1.0 + Mul(t as real, i)
  {
    if t > 0 {
      var k := (t - 1) as real;
      AtLeastLinearGrowth(i, t - 1);
      MulMonotone(1.0 + i, Pow(1.0 + i, t - 1), 1.0 + Mul(k, i));
      GrowthFactor(i, k);
      assert (t as real) == k + 1.0;
    }
  }

  /** Bernoulli's inequality for the exponent -t, multiplied out:
      (1 + i)^t * (1 - t*i) < 1 for i > 0 and t >= 1. */
  lemma {:induction false} Bernoulli(i: real, t: nat)
    requires i > 0.0 && t >= 1
    ensures Mul(Pow(1.0 + i, t), 1.0 - Mul(t as real, i)) < 1.0
  {
    if t > 1 {
      Bernoulli(i, t - 1);
      PowAboveOne(1.0 + i, t - 1);
    }
    BernoulliStep(i, (t - 1) as real, Pow(1.0 + i, t - 1));
    assert (t as real) == ((t - 1) as real) + 1.0;
  }

  /** The real-number core of RepaysMoreThanAmount, with (1 + i)^t written p. */
  lemma PaymentBound(amount: real, i: real, p: real, t: real)
    requires amount > 0.0 && i > 0.0 && p > 1.0
    requires Mul(p, 1.0 - Mul(t, i)) < 1.0
    ensures 1.0 - 1.0 / p > 0.0
    ensures amount * i / (1.0 - 1.0 / p) * t > amount
  {
    var d := 1.0 - 1.0 / p;
    DenominatorPositive(p);
    ExpandBernoulli(i, p, t);
    CancelPositive(t * i, d, p);
    QuotientAboveOne(t * i, d);
    Regroup(amount, i, d, t);
    ScaleAboveOne(amount, t * i / d);
  }

  /** The real-number core of AtMostInterestPlusShare, with (1 + i)^t written p. */
  lemma UpperBound(amount: real, i: real, p: real, t: real)
    requires amount > 0.0 && i > 0.0 && t >= 1.0 && p >= 1.0 + Mul(t, i)
    ensures p > 1.0
    ensures amount * i / (1.0 - 1.0 / p) <= amount * i + amount / t
  {
    PowerGap(i, p, t);
    DenominatorAsQuotient(p);
    DivideByQuotient(amount * i, p - 1.0, p);
    SplitQuotient(amount * i, p);
    DivAntitone(amount * i, p - 1.0, t * i);
    CancelRate(amount, i, t);
  }

  // ---------------------------------------------------------------------------
  // Single steps of real arithmetic, each small enough for the solver alone.
  // They state nothing about installments: they are stepping stones for the
  // bound proofs above, written over Mul so that the solver treats each
  // product as one term.

  lemma BernoulliStep(i: real, k: real, p: real)
    requires i > 0.0 && k >= 0.0 && p >= 1.0
    ensures Mul(Mul(1.0 + i, p), 1.0 - Mul(k + 1.0, i)) < Mul(p, 1.0 - Mul(k, i))
  {
  }

  lemma MulMonotone(c: real, x: real, y: real)
    requires c > 0.0 && x >= y
    ensures Mul(c, x) >= Mul(c, y)
  {
  }

  lemma NonNegProduct(x: real, y: real)
    requires x >= 0.0 && y >= 0.0
    ensures Mul(x, y) >= 0.0
  {
  }

  lemma GrowthFactor(i: real, k: real)
    requires i > 0.0 && k >= 0.0
    ensures Mul(1.0 + i, 1.0 + Mul(k, i)) >= 1.0 + Mul(k + 1.0, i)
  {
    NonNegProduct(i, i);
    NonNegProduct(k, Mul(i, i));
    assert Mul(1.0 + i, 1.0 + Mul(k, i)) == 1.0 + Mul(k, i) + i + Mul(k, Mul(i, i));
    assert Mul(k + 1.0, i) == Mul(k, i) + i;
  }

  lemma DenominatorPositive(p: real)
    requires p > 1.0
    ensures 1.0 - 1.0 / p > 0.0
    ensures (1.0 - 1.0 / p) * p == p - 1.0
  {
  }

  lemma ExpandBernoulli(i: real, p: real, t: real)
    requires p > 1.0 && Mul(p, 1.0 - Mul(t, i)) < 1.0
    ensures t * i * p > p - 1.0
  {
  }

  lemma CancelPositive(x: real, d: real, p: real)
    requires p > 0.0 && x * p > d * p
    ensures x > d
  {
  }

  lemma QuotientAboveOne(x: real, d: real)
    requires d > 0.0 && x > d
    ensures x / d > 1.0
  {
  }

  lemma Regroup(a: real, i: real, d: real, t: real)
    requires d > 0.0
    ensures a * i / d * t == a * (t * i / d)
  {
  }

  lemma ScaleAboveOne(a: real, q: real)
    requires a > 0.0 && q > 1.0
    ensures a * q > a
  {
  }

  lemma PowerGap(i: real, p: real, t: real)
    requires i > 0.0 && t >= 1.0 && p >= 1.0 + Mul(t, i)
    ensures p > 1.0 && p - 1.0 >= t * i && t * i > 0.0
  {
  }

  lemma DenominatorAsQuotient(p: real)
    requires p > 1.0
    ensures 1.0 - 1.0 / p == (p - 1.0) / p
  {
  }

  lemma DivideByQuotient(q: real, x: real, p: real)
    requires x > 0.0 && p > 0.0
    ensures q / (x / p) == q * p / x
  {
  }

  lemma DivAdd(a: real, b: real, x: real)
    requires x != 0.0
    ensures (a + b) / x == a / x + b / x
  {
  }

  lemma DivCancel(a: real, x: real)
    requires x != 0.0
    ensures a * x / x == a
  {
  }

  lemma SplitQuotient(q: real, p: real)
    requires p > 1.0
    ensures q * p / (p - 1.0) == q + q / (p - 1.0)
  {
    assert q * p == q * (p - 1.0) + q;
    DivAdd(q * (p - 1.0), q, p - 1.0);
    DivCancel(q, p - 1.0);
  }

  lemma DivAntitone(q: real, x: real, y: real)
    requires q > 0.0 && x >= y > 0.0
    ensures q / x <= q / y
  {
  }

  lemma CancelRate(a: real, i: real, t: real)
    requires i > 0.0 && t * i > 0.0
    ensures a * i / (t * i) == a / t
  {
  }
}
