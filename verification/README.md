# Credit approval decision engine, in Dafny

This project models the decision core of a Django credit-approval service:

- the **credit score** computed from a customer's loan-history rows (`calculate_credit_score`);
- the **eligibility policy** of `check_eligibility`. It covers the score tiers with their interest-rate floors and the affordability gate against half the monthly income;
- the **approved limit** set at registration: `round(36 * monthly_income, -5)`, rounded half to even;
- the **record store** that `register` and `create_loan` extend. A rejected loan request writes nothing. An approved one writes exactly one loan.

Modules, one per concern:

| file | module | models |
|---|---|---|
| `outcomes.dfy` | `Outcomes` | `Option` and `Result` values |
| `scoring.dfy` | `Scoring` | the credit score of `app/utils.py` |
| `installment.dfy` | `Installment` | the amortised monthly installment of `app/utils.py` |
| `policy.dfy` | `Policy` | the decision block and approved-limit rounding of `app/views.py` |
| `store.dfy` | `Store` | the customer and loan store of `register` and `create_loan` |

Some inputs of the source become parameters:

- The history sheet is a `seq<Scoring.Record>`.
- The calendar year that the scorer reads from the clock is `currentYear`.
- Installments are exact reals.

The policy computes the installment with the corrected zero-rate formula. The code as written divides by zero at a zero rate (see Findings).

Three behaviours of the code worth noting:

- **Scores 30 and 50.** The tier tests are strict on both sides (`50 > score > 30`, `30 > score > 10`). A score of exactly 30 or 50 therefore falls through to rejection.
- **Stored rate.** A created loan stores the *requested* interest rate, not the corrected rate that its installment was computed with.
- **Override before clamp.** The override to 0 is checked before the clamp, so the clamp never sees an overridden score. The result is the same as clamping first.

## Model

| member | source | states |
|---|---|---|
| `Scoring.CreditScore` | app/utils.py:4-41 | The score always lies in [0, 100]. It is exactly 0 when the customer's active amounts exceed the approved limit, whatever else the history holds. Otherwise (active amounts at or under the limit, so the comparison is strict) it is the running score of 100 minus the four deductions, or 0 when that running score is negative. It is exactly 100 when the customer has no rows (and the limit is not negative). |
| `Scoring.LoanCountPenalty` | app/utils.py:21-22 | The loan-count deduction is two points per loan up to ten loans and 20 from then on, so it never exceeds 20. |
| `Scoring.CurrentYearPenalty` | app/utils.py:24-26 | The current-year deduction is five points per loan of that year up to three, then 15, so it never exceeds 15. |
| `Scoring.VolumePenalty` | app/utils.py:28-31 | The volume deduction is either 0 or a flat 10. It is 10 exactly when the total is over 500000, so a total of exactly 500000 costs nothing. |
| `Scoring.Clamp` | app/utils.py:38-39 | The clamped score lies in [0, 100]. In-range scores are unchanged, a negative score becomes 0 and a score over 100 becomes 100. |
| `Scoring.LateCountComplement` | app/utils.py:17-19 | "All rows minus paid-on-time rows" equals the number of rows whose status is anything but paid on time. |
| `Scoring.LatePenaltyPerRow` | app/utils.py:17-19 | The first deduction is exactly ten points per row not paid on time. |
| `Scoring.LateRowCostsTen` | app/utils.py:15-31 | Turning one row, anywhere in the history, from paid on time to any other status lowers the pre-clamp score by exactly 10. |
| `Scoring.LateRowCostsTenPoints` | app/utils.py:15-41 | For a customer under the limit, one of their rows that is not paid on time, anywhere in the sheet, costs exactly 10 points of the final score compared with the same row paid on time, down to 0. |
| `Scoring.ScoreSeesOnlyOwnRows` | app/utils.py:11-12 | Scoring the whole sheet gives the same score as scoring only the customer's own rows. |
| `Scoring.OtherCustomersIgnored` | app/utils.py:11-12 | Inserting a row of another customer anywhere in the sheet leaves the score unchanged. |
| `Scoring.MoreHistoryNeverRaisesScore` | app/utils.py:14-41 | Appending a row with a non-negative amount never raises the score: each deduction can only grow, and a fired override stays fired. |
| `Installment.MonthlyInstallment` | app/utils.py:44-47 | For a non-negative rate, the formula as written fails (ZeroDivisionError) exactly when the rate or the tenure is 0. |
| `Installment.ZeroRateDividesByZero` | app/utils.py:46-47 | As written, a request of 100000 at 0% over 12 months divides by zero. |
| `Installment.InstallmentOrProrated` | app/utils.py:44-47 | The corrected calculation agrees with the formula for every non-zero rate. At a zero rate it prorates the amount, so tenure payments repay the amount exactly. For a non-negative rate it fails only on a zero tenure. |
| `Installment.RepaysMoreThanAmount` | app/utils.py:44-47 | For a positive amount and rate and a tenure of at least one month, the formula succeeds. Tenure times the installment is more than the amount: the formula charges interest. |
| `Installment.AtMostInterestPlusShare` | app/utils.py:44-47 | Under the same conditions, the installment is at most one month's interest on the whole amount plus amount / tenure. |
| `Policy.TierFor` | app/views.py:66-77 | A request passes the tiers exactly when the score is over 10 and is neither 30 nor 50. The corrected rate is never below the requested rate. It equals the requested rate above 50 and on rejection. It is the requested rate raised to a floor of 12 for 30 < score < 50, and to a floor of 16 for 10 < score < 30. |
| `Policy.Gate` | app/views.py:79-84 | The gate can only turn an approval into a rejection, never the reverse. It approves exactly when the tiers approved and the installment is at most half the monthly income. The installment is kept on approval and cleared to None on rejection. |
| `Policy.CheckEligibility` | app/views.py:62-92 | The installment is computed only when the tiers approve, at the tiers' corrected rate. For a non-negative rate, the check fails exactly when the tiers approve and the tenure is 0; when the tiers approve it fails exactly when the installment calculation does. A tier rejection is a plain rejection with no installment. When the tiers approve and the installment is computed, the request is approved exactly when that installment is at most half the income, and the decision then carries that installment. The reported rates are the requested rate and the tiers' corrected rate. |
| `Policy.PolicyUsesFormulaAsWritten` | app/views.py:66-81 | For every tier-approved request except a top-tier one at 0%, the corrected installment calculation the policy uses is the formula as written, because the corrected rate is not zero. |
| `Policy.OverLimitIsRefused` | app/views.py:56-77 | Through `Evaluate`, which scores the customer's history and then decides as check_eligibility does, a customer whose active loans exceed the approved limit is refused, with no installment, whatever the request. |
| `Policy.ZeroRateTopTierProrates` | app/views.py:66-84 | A top-tier request at 0% is approved when affordable, with installment amount / tenure. |
| `Policy.ScoreSixtyScenario` | app/views.py:66-84 | The request and income of app/tests.py:18-32 (100000 at 10% over 12 months, income 50000) at a score of 60 are approved at the unchanged rate of 10%. |
| `Policy.MiddleTierRaisesRate` | app/views.py:70-72 | A middle-tier score with a rate under 12% gets a corrected rate of 12%, and the decision still reports the requested rate. |
| `Policy.ApprovedLimit` | app/views.py:24-25 | The approved limit is a multiple of 100000 within 50000 of 36 monthly incomes. On a tie it is the even multiple. |
| `Policy.RoundToLakh` | app/views.py:25 | `round(x, -5)` of an integer gives a multiple of 100000 within 50000 of x, and the even multiple on a tie. |
| `Policy.ApprovedLimitIsNearest` | app/views.py:25 | No multiple of 100000 is closer to 36 monthly incomes than the approved limit. A different multiple at the same distance is an odd one (round half to even). |
| `Policy.ApprovedLimitOfFiftyThousand` | app/tests.py:42 | A monthly income of 50000 gives an approved limit of 1800000. |
| `Policy.ApprovedLimitTieGoesToEven` | app/views.py:25 | An income of 12500 (36 times that is 450000) gives 400000, not 500000. |
| `Store.FindCustomer` | app/views.py:107 | The lookup by primary key returns a stored customer with that id. It returns None only when no stored customer has that id. |
| `Store.Repository.Register` | app/views.py:19-48 | On success, register appends exactly one customer whose approved limit is `ApprovedLimit(monthly_income)`, under the next id. A phone number already on file (a unique column) writes nothing. Loans never change, and the store invariant is kept. |
| `Store.Repository.CreateLoan` | app/views.py:103-144 | An unknown customer gets a not-found answer. Otherwise one eligibility check is run on the customer's score. A rejection or failure leaves the loans unchanged. An approval appends exactly one loan that stores the requested rate and the computed installment, under the next loan id. Customers never change. |

## Left out

- Reading `loan_data.xlsx` and the `FileNotFoundError` branch (app/utils.py:7-9) are file I/O. The model takes the sheet's rows as a parameter.
- `pd.Timestamp.now().year` (app/utils.py:25) reads the clock. It is the parameter `currentYear`.
- Floating-point evaluation of the installment (app/utils.py:47) is not modelled. Rounding and overflow are ignored because the formula is evaluated over exact reals.
- Policy.CheckEligibility: a top-tier request (score over 50) at 0% is decided with the corrected installment, amount / tenure. The code as written raises ZeroDivisionError there (app/views.py:81, app/utils.py:47), which nothing catches. For every other request the two agree (`Policy.PolicyUsesFormulaAsWritten`). The same holds for `Policy.ZeroRateTopTierProrates`, which states the corrected path.
- Installment.MonthlyInstallment: the failure condition is stated only for non-negative rates. Negative rates are modelled but no contract is claimed for them.
- Installment.MonthlyInstallment: monotonicity of the installment in the rate is not proved. The two-sided bound of RepaysMoreThanAmount and AtMostInterestPlusShare is proved instead.
- Scoring.CreditScore: the history columns are integers and the status is one of three values. A `loan_amount` column of floats and status strings other than `paid_on_time` and `active` are not distinguished further.
- Scoring.CreditScore: the score of 100 for an empty history is stated for a non-negative approved limit. With a negative limit the override fires, because the empty active sum of 0 exceeds the limit.
- HTTP handling is not modelled: `json.loads`, the `KeyError` → 400 answers, status codes and response dictionaries (app/views.py:19-21, 47-48, 86-97, 134-144).
- `create_loan` calls `check_eligibility(request)` and subscripts the JsonResponse it returns (app/views.py:113-114). The model performs the intended single evaluation of the eligibility decision.
- After a tier rejection, `monthly_installment` is unbound at app/views.py:92. The model reports None for the installment on every rejection.
- The handlers read `data['id']` where the tests send `customer_id` (app/views.py:57, app/tests.py:19). The model takes the customer id as a parameter.
- `calculate_remaining_emis` (called at app/views.py:182) is defined nowhere in the repository, so remaining installments are not part of this model.
- `view_loan` and `view_loans` (app/views.py:146-186) are read-only presentation of stored records.
- app/models.py is a schema with no logic, and its fields disagree with what the views write. The `Loan` datatype follows the views (`monthly_installment`, `loan_approved`). `current_debt`, `emis_paid_on_time` and the start and end dates are not modelled.
- Policy.ApprovedLimit: only integer incomes are modelled. `round` of a float income returns a float.
- app/task.py and credit_approval/celery.py (batch ingestion from spreadsheets, worker setup) are background-job plumbing.

## Findings

| source | as written | input that shows it | evidently intended | confidence | as-written member | corrected member |
|---|---|---|---|---|---|---|
| app/utils.py:46-47 | the installment divides by `1 - (1 + r) ** -tenure`, which is 0 when the rate is 0 | `calculate_monthly_installment(100000, 0, 12)` raises ZeroDivisionError; a top-tier customer asking for 0% gets a server error instead of a decision | an interest-free loan is repaid in equal parts: installment = amount / tenure | high; not executed | `Installment.ZeroRateDividesByZero` | `Installment.InstallmentOrProrated` |
