/**
 * The credit score of app/utils.py: a deductive score that starts at 100 and
 * loses points for the customer's loan-history rows, clamped to [0, 100],
 * and forced to 0 when the customer's active loans exceed the approved limit.
 *
 * The history sheet is passed in as a sequence of rows, and the calendar year
 * the source reads from the clock is passed in as `currentYear`.
 */
module Scoring {

  /** The `status` column of the history sheet; the scorer only ever compares
      it against 'paid_on_time' and 'active', so every other value is one case. */
  datatype Status = PaidOnTime | Active | OtherStatus

  /** One row of the loan-history sheet. */
  datatype Record = Record(customerId: int, status: Status, year: int, amount: int)

  /** The row selections the scorer makes, one per comparison in the source. */
  datatype Criterion = OfCustomer(id: int) | WithStatus(status: Status) | InYear(year: int)

  predicate Holds(c: Criterion, r: Record) {
    match c
    case OfCustomer(id) => r.customerId == id
    case WithStatus(s) => r.status == s
    case InYear(y) => r.year == y
  }

  /** The rows that satisfy `c`, in their original order (a boolean-mask selection). */
  function Where(rows: seq<Record>, c: Criterion): (kept: seq<Record>)
    ensures |kept| <= |rows|
    ensures forall i :: 0 <= i < |kept| ==> Holds(c, kept[i])
  {
    if rows == [] then []
    else if Holds(c, rows[0]) then [rows[0]] + Where(rows[1..], c)
    else Where(rows[1..], c)
  }

  /** The sum of the `loan_amount` column; 0 for no rows. */
  function TotalAmount(rows: seq<Record>): int {
    if rows == [] then 0 else rows[0].amount + TotalAmount(rows[1..])
  }

  /** The rows of the sheet that belong to one customer. */
  function CustomerRows(history: seq<Record>, customerId: int): seq<Record> {
    Where(history, OfCustomer(customerId))
  }

  /** The sum of the amounts of the customer's rows whose status is 'active'. */
  function ActiveSum(rows: seq<Record>): int {
    TotalAmount(Where(rows, WithStatus(Active)))
  }

  function Min(a: int, b: int): int { if a <= b then a else b }

  /** Criterion i: ten points for every row that is not paid on time. */
  function LatePenalty(rows: seq<Record>): (d: nat) {
    (|rows| - |Where(rows, WithStatus(PaidOnTime))|) * 10
  }

  /** Criterion ii: two points per past loan, at most 20. */
  function LoanCountPenalty(n: nat): (d: nat)
    ensures d <= 20
    ensures n <= 10 ==> d == 2 * n
    ensures n >= 10 ==> d == 20
  {
    Min(n * 2, 20)
  }

  /** Criterion iii: five points per loan of the current year, at most 15. */
  function CurrentYearPenalty(k: nat): (d: nat)
    ensures d <= 15
    ensures k <= 3 ==> d == 5 * k
    ensures k >= 3 ==> d == 15
  {
    Min(k * 5, 15)
  }

  /** Criterion iv: a flat ten points once the total volume is over 500000. */
  function VolumePenalty(total: int): (d: nat)
    ensures d == 0 || d == 10
    ensures d == 10 <==> total > 500000
  {
    if total > 500000 then 10 else 0
  }

  /** The running score after criteria i-iv, before any clamping. */
  function RawScore(rows: seq<Record>, currentYear: int): int {
    100
    - LatePenalty(rows)
    - LoanCountPenalty(|rows|)
    - CurrentYearPenalty(|Where(rows, InYear(currentYear))|)
    - VolumePenalty(TotalAmount(rows))
  }

  function Clamp(s: int): (c: int)
    ensures 0 <= c <= 100
    ensures 0 <= s <= 100 ==> c == s
    ensures s < 0 ==> c == 0
    ensures s > 100 ==> c == 100
  {
    if s < 0 then 0 else if s > 100 then 100 else s
  }

  /** calculate_credit_score: criterion v overrides everything with 0, otherwise
      the running score is clamped to [0, 100]. */
  function CreditScore(history: seq<Record>, customerId: int, approvedLimit: int, currentYear: int): (score: int)
    ensures 0 <= score <= 100
    ensures ActiveSum(CustomerRows(history, customerId)) > approvedLimit ==> score == 0
    ensures CustomerRows(history, customerId) == [] && approvedLimit >= 0 ==> score == 100
    ensures var rows := CustomerRows(history, customerId);
            ActiveSum(rows) <= approvedLimit ==>
              (RawScore(rows, currentYear) >= 0 ==> score == RawScore(rows, currentYear))
              && (RawScore(rows, currentYear) < 0 ==> score == 0)
  {
    var rows := CustomerRows(history, customerId);
    if ActiveSum(rows) > approvedLimit then 0
    else Clamp(RawScore(rows, currentYear))
  }

  // ---------------------------------------------------------------------------
  // Reference definitions and lemmas

  /** The number of rows whose status is anything but 'paid_on_time'. */
  function CountLate(rows: seq<Record>): nat {
    if rows == [] then 0
    else (if rows[0].status != PaidOnTime then 1 else 0) + CountLate(rows[1..])
  }

  /** Selection distributes over concatenation. */
  lemma {:induction false} WhereConcat(a: seq<Record>, b: seq<Record>, c: Criterion)
    ensures Where(a + b, c) == Where(a, c) + Where(b, c)
  {
    if a == [] {
      assert a + b == b;
    } else {
      assert (a + b)[0] == a[0];
      assert (a + b)[1..] == a[1..] + b;
      WhereConcat(a[1..], b, c);
    }
  }

  /** Summing distributes over concatenation. */
  lemma {:induction false} TotalAmountConcat(a: seq<Record>, b: seq<Record>)
    ensures TotalAmount(a + b) == TotalAmount(a) + TotalAmount(b)
  {
    if a == [] {
      assert a + b == b;
    } else {
      assert (a + b)[0] == a[0];
      assert (a + b)[1..] == a[1..] + b;
      TotalAmountConcat(a[1..], b);
    }
  }

  /** Selecting twice with the same criterion selects nothing new. */
  lemma {:induction false} WhereIdempotent(rows: seq<Record>, c: Criterion)
    ensures Where(Where(rows, c), c) == Where(rows, c)
  {
    if rows != [] {
      WhereIdempotent(rows[1..], c);
      if Holds(c, rows[0]) {
        var tail := Where(rows[1..], c);
        assert ([rows[0]] + tail)[0] == rows[0];
        assert ([rows[0]] + tail)[1..] == tail;
      }
    }
  }

  /** The source's "all rows minus on-time rows" is the number of late rows. */
  lemma {:induction false} LateCountComplement(rows: seq<Record>)
    ensures |rows| - |Where(rows, WithStatus(PaidOnTime))| == CountLate(rows)
  {
    if rows != [] {
      LateCountComplement(rows[1..]);
    }
  }

  /** Each row that is not paid on time costs exactly ten points. */
  lemma LatePenaltyPerRow(rows: seq<Record>)
    ensures LatePenalty(rows) == 10 * CountLate(rows)
  {
    LateCountComplement(rows);
  }

  /** A single row is kept exactly when it satisfies the criterion. */
  lemma WhereSingle(x: Record, c: Criterion)
    ensures Where([x], c) == if Holds(c, x) then [x] else []
  {
    assert [x][1..] == [];
  }

  /** Counting the selected rows of a sequence split around one row. */
  lemma WhereAround(before: seq<Record>, x: Record, after: seq<Record>, c: Criterion)
    ensures |Where(before + [x] + after, c)|
         == |Where(before, c)| + (if Holds(c, x) then 1 else 0) + |Where(after, c)|
  {
    WhereConcat(before + [x], after, c);
    WhereConcat(before, [x], c);
    WhereSingle(x, c);
  }

  /** Summing the amounts of a sequence split around one row. */
  lemma TotalAround(before: seq<Record>, x: Record, after: seq<Record>)
    ensures TotalAmount(before + [x] + after) == TotalAmount(before) + x.amount + TotalAmount(after)
  {
    TotalAmountConcat(before + [x], after);
    TotalAmountConcat(before, [x]);
    assert [x][1..] == [];
  }

  /** Turning one row from paid-on-time into any other status lowers the
      running score by exactly ten, wherever the row stands. */
  lemma LateRowCostsTen(before: seq<Record>, r: Record, after: seq<Record>, currentYear: int)
    requires r.status != PaidOnTime
    ensures RawScore(before + [r] + after, currentYear)
         == RawScore(before + [r.(status := PaidOnTime)] + after, currentYear) - 10
  {
    var r' := r.(status := PaidOnTime);
    WhereAround(before, r, after, WithStatus(PaidOnTime));
    WhereAround(before, r', after, WithStatus(PaidOnTime));
    WhereAround(before, r, after, InYear(currentYear));
    WhereAround(before, r', after, InYear(currentYear));
    TotalAround(before, r, after);
    TotalAround(before, r', after);
  }

  /** For a customer under the limit either way, a row of theirs that is not
      paid on time costs exactly ten points of the final score, down to 0. */
  lemma LateRowCostsTenPoints(before: seq<Record>, r: Record, after: seq<Record>,
                              approvedLimit: int, currentYear: int)
    requires r.status != PaidOnTime
    requires ActiveSum(CustomerRows(before + [r] + after, r.customerId)) <= approvedLimit
    requires ActiveSum(CustomerRows(before + [r.(status := PaidOnTime)] + after, r.customerId)) <= approvedLimit
    ensures var late := CreditScore(before + [r] + after, r.customerId, approvedLimit, currentYear);
            var onTime := CreditScore(before + [r.(status := PaidOnTime)] + after, r.customerId, approvedLimit, currentYear);
            late == if onTime >= 10 then onTime - 10 else 0
  {
    var r' := r.(status := PaidOnTime);
    var c := OfCustomer(r.customerId);
    OwnRowsAround(before, r, after, c);
    OwnRowsAround(before, r', after, c);
    LateRowCostsTen(Where(before, c), r, Where(after, c), currentYear);
  }

  /** Filtering a sequence split around a row the criterion keeps. */
  lemma OwnRowsAround(before: seq<Record>, x: Record, after: seq<Record>, c: Criterion)
    requires Holds(c, x)
    ensures Where(before + [x] + after, c) == Where(before, c) + [x] + Where(after, c)
  {
    WhereConcat(before + [x], after, c);
    WhereConcat(before, [x], c);
    WhereSingle(x, c);
  }

  /** The score only ever looks at the customer's own rows. */
  lemma ScoreSeesOnlyOwnRows(history: seq<Record>, customerId: int, approvedLimit: int, currentYear: int)
    ensures CreditScore(history, customerId, approvedLimit, currentYear)
         == CreditScore(CustomerRows(history, customerId), customerId, approvedLimit, currentYear)
  {
    WhereIdempotent(history, OfCustomer(customerId));
  }

  /** A row of another customer, inserted anywhere, leaves the score unchanged. */
  lemma OtherCustomersIgnored(before: seq<Record>, r: Record, after: seq<Record>,
                              customerId: int, approvedLimit: int, currentYear: int)
    requires r.customerId != customerId
    ensures CreditScore(before + [r] + after, customerId, approvedLimit, currentYear)
         == CreditScore(before + after, customerId, approvedLimit, currentYear)
  {
    var c := OfCustomer(customerId);
    WhereConcat(before + [r], after, c);
    WhereConcat(before, [r], c);
    WhereConcat(before, after, c);
    WhereSingle(r, c);
    assert Where(before + [r] + after, c) == Where(before + after, c);
  }

  /** One more row of history never raises the score: every deduction can only
      grow, and an override that fired keeps firing. */
  lemma MoreHistoryNeverRaisesScore(history: seq<Record>, r: Record,
                                    customerId: int, approvedLimit: int, currentYear: int)
    requires r.amount >= 0
    ensures CreditScore(history + [r], customerId, approvedLimit, currentYear)
         <= CreditScore(history, customerId, approvedLimit, currentYear)
  {
    var rows := CustomerRows(history, customerId);
    WhereConcat(history, [r], OfCustomer(customerId));
    WhereSingle(r, OfCustomer(customerId));
    if r.customerId == customerId {
      assert CustomerRows(history + [r], customerId) == rows + [r];
      AppendedRowNeverHelps(rows, r, currentYear);
    } else {
      assert CustomerRows(history + [r], customerId) == rows;
    }
  }

  /** Appending a row with a non-negative amount to a customer's rows raises
      neither their active sum's headroom nor their running score. */
  lemma AppendedRowNeverHelps(rows: seq<Record>, r: Record, currentYear: int)
    requires r.amount >= 0
    ensures ActiveSum(rows + [r]) >= ActiveSum(rows)
    ensures RawScore(rows + [r], currentYear) <= RawScore(rows, currentYear)
  {
    assert rows + [r] == rows + [r] + [];
    WhereAround(rows, r, [], WithStatus(PaidOnTime));
    WhereAround(rows, r, [], InYear(currentYear));
    TotalAround(rows, r, []);
    WhereConcat(rows, [r], WithStatus(Active));
    WhereSingle(r, WithStatus(Active));
    TotalAmountConcat(Where(rows, WithStatus(Active)), Where([r], WithStatus(Active)));
  }
}
