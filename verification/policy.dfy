/**
 * The eligibility decision of check_eligibility and the approved limit of
 * register (app/views.py): the score tiers with their interest-rate floors,
 * the affordability gate against half the monthly income, and the limit of
 * 36 monthly incomes rounded to a multiple of 100000.
 */
module Policy {
  import opened Outcomes
  import Scoring
  import Installment

  /** The amount, annual percentage rate and tenure (in months) of a request. */
  datatype LoanRequest = LoanRequest(loanAmount: real, interestRate: real, tenure: int)

  /** The outcome of the score tiers, before the affordability gate. */
  datatype Tier = Tier(approved: bool, correctedRate: real)

  /** The decision check_eligibility reports. */
  datatype Decision = Decision(
    approval: bool,
    interestRate: real,
    correctedInterestRate: real,
    tenure: int,
    monthlyInstallment: Option<real>)

  function Max(a: real, b: real): real {
    if a >= b then a else b
  }

  /** The score tiers. The comparisons are strict on both sides, so the scores
      30 and 50 fall through to rejection, as does every score up to 10. */
  function TierFor(score: int, rate: real): (t: Tier)
    ensures t.approved <==> score > 10 && score != 30 && score != 50
    ensures t.correctedRate >= rate
    ensures score > 50 || !t.approved ==> t.correctedRate == rate
    ensures 30 < score < 50 ==>
              t.correctedRate >= 12.0 && (rate >= 12.0 ==> t.correctedRate == rate)
              && (rate < 12.0 ==> t.correctedRate == 12.0)
    ensures 10 < score < 30 ==>
              t.correctedRate >= 16.0 && (rate >= 16.0 ==> t.correctedRate == rate)
              && (rate < 16.0 ==> t.correctedRate == 16.0)
  {
    if score > 50 then Tier(true, rate)
    else if 30 < score < 50 then Tier(true, Max(rate, 12.0))
    else if 10 < score < 30 then Tier(true, Max(rate, 16.0))
    else Tier(false, rate)
  }

  /** The affordability gate: a tentatively approved request whose installment
      exceeds half the monthly income is rejected and loses its installment. */
  function Gate(t: Tier, req: LoanRequest, installment: real, monthlyIncome: real): (d: Decision)
    ensures d.approval ==> t.approved
    ensures d.approval <==> t.approved && installment <= monthlyIncome / 2.0
    ensures d.monthlyInstallment == if d.approval then Some(installment) else None
    ensures d.interestRate == req.interestRate && d.correctedInterestRate == t.correctedRate
    ensures d.tenure == req.tenure
  {
    if t.approved && !(installment > 0.5 * monthlyIncome) then
      Decision(true, req.interestRate, t.correctedRate, req.tenure, Some(installment))
    else
      Decision(false, req.interestRate, t.correctedRate, req.tenure, None)
  }

  /** check_eligibility for a known score: the installment is computed, at the
      corrected rate, only for a request the tiers approve; the only failure is
      a zero tenure on that path. */
  function CheckEligibility(score: int, req: LoanRequest, monthlyIncome: real): (r: Result<Decision, Installment.CalcError>)
    ensures r.Failure? ==> TierFor(score, req.interestRate).approved
    ensures req.interestRate >= 0.0 ==>
              (r.Failure? <==> TierFor(score, req.interestRate).approved && req.tenure == 0)
    ensures r.Success? ==>
              r.value.interestRate == req.interestRate
              && r.value.correctedInterestRate >= req.interestRate
              && r.value.tenure == req.tenure
    ensures r.Success? && r.value.approval ==>
              TierFor(score, req.interestRate).approved
              && r.value.monthlyInstallment.Some?
              && r.value.monthlyInstallment.value <= monthlyIncome / 2.0
    ensures r.Success? && !r.value.approval ==> r.value.monthlyInstallment == None
    ensures !TierFor(score, req.interestRate).approved ==> r.Success? && !r.value.approval
    ensures r.Success? ==> r.value.correctedInterestRate == TierFor(score, req.interestRate).correctedRate
    ensures var t := TierFor(score, req.interestRate);
            var m := Installment.InstallmentOrProrated(req.loanAmount, t.correctedRate, req.tenure);
            t.approved ==>
              (r.Failure? <==> m.Failure?)
              && (m.Success? ==>
                    r.Success?
                    && (r.value.approval <==> m.value <= monthlyIncome / 2.0)
                    && (r.value.approval ==> r.value.monthlyInstallment == Some(m.value)))
  {
    var t := TierFor(score, req.interestRate);
    if !t.approved then
      Success(Decision(false, req.interestRate, t.correctedRate, req.tenure, None))
    else
      match Installment.InstallmentOrProrated(req.loanAmount, t.correctedRate, req.tenure)
      case Failure(e) => Failure(e)
      case Success(m) => Success(Gate(t, req, m, monthlyIncome))
  }

  /** Outside a top-tier request at 0%, the corrected installment the policy
      uses is the formula as written: the lower tiers' rate floors keep the
      corrected rate away from zero. */
  lemma PolicyUsesFormulaAsWritten(score: int, req: LoanRequest)
    requires TierFor(score, req.interestRate).approved
    requires score <= 50 || req.interestRate != 0.0
    ensures var c := TierFor(score, req.interestRate).correctedRate;
            c != 0.0
            && Installment.InstallmentOrProrated(req.loanAmount, c, req.tenure)
               == Installment.MonthlyInstallment(req.loanAmount, c, req.tenure)
  {
  }

  /** The whole eligibility check for one customer: score the history, then decide. */
  function Evaluate(history: seq<Scoring.Record>, customerId: int, approvedLimit: int,
                    monthlyIncome: int, currentYear: int, req: LoanRequest): Result<Decision, Installment.CalcError>
  {
    CheckEligibility(Scoring.CreditScore(history, customerId, approvedLimit, currentYear),
                     req, monthlyIncome as real)
  }

  /** Rounding to the nearest multiple of 100000 with ties to the even
      multiple, as Python's round(x, -5) does for an int. */
  function RoundToLakh(x: int): (r: int)
    ensures r % 100000 == 0
    ensures -50000 <= r - x <= 50000
    ensures r - x == 50000 || r - x == -50000 ==> (r / 100000) % 2 == 0
  {
    var q, rem := x / 100000, x % 100000;
    assert x == q * 100000 + rem;
    if rem > 50000 then (q + 1) * 100000
    else if rem < 50000 then q * 100000
    else if q % 2 == 0 then q * 100000
    else (q + 1) * 100000
  }

  /** The approved limit set at registration: 36 monthly incomes, rounded. */
  function ApprovedLimit(monthlyIncome: int): (limit: int)
    ensures limit % 100000 == 0
    ensures -50000 <= limit - 36 * monthlyIncome <= 50000
    ensures limit - 36 * monthlyIncome == 50000 || limit - 36 * monthlyIncome == -50000
            ==> (limit / 100000) % 2 == 0
  {
    RoundToLakh(36 * monthlyIncome)
  }

  // ---------------------------------------------------------------------------
  // Lemmas

  /** No multiple of 100000 is closer to 36 monthly incomes than the approved
      limit, and on a tie the limit is the even multiple. */
  lemma ApprovedLimitIsNearest(monthlyIncome: int, k: int)
    ensures var x, limit := 36 * monthlyIncome, ApprovedLimit(monthlyIncome);
            Abs(limit - x) <= Abs(k * 100000 - x)
            && (Abs(limit - x) == Abs(k * 100000 - x) && k * 100000 != limit ==> k % 2 != 0)
  {
    var x, limit := 36 * monthlyIncome, ApprovedLimit(monthlyIncome);
    var q := limit / 100000;
    assert limit == q * 100000;
    if k < q - 1 || k > q + 1 {
      assert Abs(k * 100000 - x) > 50000;
    }
  }

  function Abs(n: int): nat { if n < 0 then -n else n }

  /** Registration with a monthly income of 50000 gives a limit of 1800000. */
  lemma ApprovedLimitOfFiftyThousand()
    ensures ApprovedLimit(50000) == 1800000
  {
  }

  /** A tie rounds to the even multiple: 36 * 12500 = 450000 gives 400000, not 500000. */
  lemma ApprovedLimitTieGoesToEven()
    ensures ApprovedLimit(12500) == 400000
  {
  }

  /** A customer whose active loans exceed the approved limit is refused,
      whatever the request and the rest of the history. */
  lemma OverLimitIsRefused(history: seq<Scoring.Record>, customerId: int, approvedLimit: int,
                           monthlyIncome: int, currentYear: int, req: LoanRequest)
    requires Scoring.ActiveSum(Scoring.CustomerRows(history, customerId)) > approvedLimit
    ensures var r := Evaluate(history, customerId, approvedLimit, monthlyIncome, currentYear, req);
            r.Success? && !r.value.approval && r.value.monthlyInstallment == None
  {
  }

  /** A top-tier request at a zero rate is not a failure once corrected: the
      installment is the amount spread evenly over the tenure. */
  lemma ZeroRateTopTierProrates(score: int, req: LoanRequest, monthlyIncome: real)
    requires score > 50 && req.interestRate == 0.0 && req.tenure >= 1
    requires req.loanAmount / (req.tenure as real) <= monthlyIncome / 2.0
    ensures var r := CheckEligibility(score, req, monthlyIncome);
            r.Success? && r.value.approval
            && r.value.monthlyInstallment == Some(req.loanAmount / (req.tenure as real))
  {
  }

  /** The request and income of app/tests.py:18-23 and 25-32 at a score of 60:
      100000 at 10% over 12 months, income 50000. The installment is at most 100000/12 plus one month's interest,
      well under half the income, so the request is approved at 10%. */
  lemma ScoreSixtyScenario()
    ensures var r := CheckEligibility(60, LoanRequest(100000.0, 10.0, 12), 50000.0);
            r.Success? && r.value.approval && r.value.correctedInterestRate == 10.0
  {
    Installment.AtMostInterestPlusShare(100000.0, 10.0, 12);
    var m := Installment.MonthlyInstallment(100000.0, 10.0, 12).value;
    assert m <= 25000.0;
    assert TierFor(60, 10.0) == Tier(true, 10.0);
    assert Installment.InstallmentOrProrated(100000.0, 10.0, 12) == Success(m);
  }

  /** A middle-tier score with a rate under the floor is approved at 12%
      (when affordable) while the request still records the rate asked for. */
  lemma MiddleTierRaisesRate(score: int, req: LoanRequest, monthlyIncome: real)
    requires 30 < score < 50 && req.interestRate < 12.0 && req.tenure != 0
    ensures var r := CheckEligibility(score, req, monthlyIncome);
            r.Success? && r.value.correctedInterestRate == 12.0
            && r.value.interestRate == req.interestRate
  {
  }
}
