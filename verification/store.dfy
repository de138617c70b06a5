/**
 * The record store behind register and create_loan (app/views.py): customers
 * and loans held in sequences that the two operations extend, with ids handed
 * out in increasing order as an auto-increment key does.
 */
module Store {
  import opened Outcomes
  import Scoring
  import Installment
  import Policy

  /** A registered customer, as register writes it. */
  datatype Customer = Customer(
    id: nat,
    firstName: string,
    lastName: string,
    age: int,
    phoneNumber: string,
    monthlyIncome: int,
    approvedLimit: int)

  /** A loan, as create_loan writes it. */
  datatype Loan = Loan(
    loanId: nat,
    customerId: nat,
    loanAmount: real,
    interestRate: real,
    tenure: int,
    monthlyInstallment: real,
    loanApproved: bool)

  /** What create_loan answers. */
  datatype LoanOutcome =
    | Created(loanId: nat, monthlyInstallment: real)
    | NotApproved                                  // "Loan not approved due to eligibility criteria."
    | CustomerNotFound                             // the 404 of get_object_or_404
    | Failed(error: Installment.CalcError)         // an exception escaping the handler

  /** The customer with the given primary key, if there is one. */
  function FindCustomer(customers: seq<Customer>, id: int): (found: Option<Customer>)
    ensures found.Some? ==> found.value in customers && found.value.id == id
    ensures found.None? ==> forall k :: 0 <= k < |customers| ==> customers[k].id != id
  {
    if customers == [] then None
    else if customers[0].id == id then Some(customers[0])
    else FindCustomer(customers[1..], id)
  }

  /** Whether some customer already has this phone number (a unique column). */
  predicate PhoneTaken(customers: seq<Customer>, phone: string) {
    exists k :: 0 <= k < |customers| && customers[k].phoneNumber == phone
  }

  /** Whether some customer has this id. */
  predicate HasCustomer(customers: seq<Customer>, id: int) {
    exists k :: 0 <= k < |customers| && customers[k].id == id
  }

  class Repository {
    var customers: seq<Customer>
    var loans: seq<Loan>
    var nextCustomerId: nat
    var nextLoanId: nat

    /** Ids are increasing and below the next id to hand out, phone numbers are
        unique, and every loan belongs to a registered customer. */
    ghost predicate Valid()
      reads this
    {
      && 1 <= nextCustomerId && 1 <= nextLoanId
      && (forall k :: 0 <= k < |customers| ==> 1 <= customers[k].id < nextCustomerId)
      && (forall j, k :: 0 <= j < k < |customers| ==> customers[j].id < customers[k].id)
      && (forall j, k :: 0 <= j < k < |customers| ==> customers[j].phoneNumber != customers[k].phoneNumber)
      && (forall k :: 0 <= k < |loans| ==> 1 <= loans[k].loanId < nextLoanId)
      && (forall j, k :: 0 <= j < k < |loans| ==> loans[j].loanId < loans[k].loanId)
      && (forall k :: 0 <= k < |loans| ==> HasCustomer(customers, loans[k].customerId))
    }

    constructor ()
      ensures Valid()
      ensures customers == [] && loans == []
      ensures nextCustomerId == 1 && nextLoanId == 1
    {
      customers, loans := [], [];
      nextCustomerId, nextLoanId := 1, 1;
    }

    /** register: a new customer whose approved limit is 36 monthly incomes
        rounded to 100000; a phone number already on file is refused by the
        unique column and nothing is written. */
    method Register(firstName: string, lastName: string, age: int, monthlyIncome: int, phoneNumber: string)
      returns (registered: Option<Customer>)
      requires Valid()
      modifies this
      ensures Valid()
      ensures loans == old(loans) && nextLoanId == old(nextLoanId)
      ensures PhoneTaken(old(customers), phoneNumber) ==>
                registered == None
                && customers == old(customers) && nextCustomerId == old(nextCustomerId)
      ensures !PhoneTaken(old(customers), phoneNumber) ==>
                registered == Some(Customer(old(nextCustomerId), firstName, lastName, age, phoneNumber,
                                            monthlyIncome, Policy.ApprovedLimit(monthlyIncome)))
                && customers == old(customers) + [registered.value]
                && nextCustomerId == old(nextCustomerId) + 1
    {
      if PhoneTaken(customers, phoneNumber) {
        return None;
      }
      var approvedLimit := Policy.ApprovedLimit(monthlyIncome);
      var c := Customer(nextCustomerId, firstName, lastName, age, phoneNumber, monthlyIncome, approvedLimit);
      ghost var before := customers;
      customers := customers + [c];
      nextCustomerId := nextCustomerId + 1;
      forall k | 0 <= k < |loans|
        ensures HasCustomer(customers, loans[k].customerId)
      {
        var j :| 0 <= j < |before| && before[j].id == loans[k].customerId;
        assert customers[j] == before[j];
      }
      registered := Some(c);
    }

    /** create_loan: run the eligibility check once for the customer's score;
        a rejection writes nothing, an approval writes exactly one loan carrying
        the requested (not the corrected) rate and the computed installment. */
    method CreateLoan(customerId: int, req: Policy.LoanRequest, history: seq<Scoring.Record>, currentYear: int)
      returns (outcome: LoanOutcome)
      requires Valid()
      modifies this
      ensures Valid()
      ensures customers == old(customers) && nextCustomerId == old(nextCustomerId)
      ensures FindCustomer(customers, customerId).None? ==> outcome == CustomerNotFound
      ensures var found := FindCustomer(customers, customerId);
              found.Some? ==>
                var r := Policy.Evaluate(history, customerId, found.value.approvedLimit,
                                         found.value.monthlyIncome, currentYear, req);
                && (r.Failure? ==> outcome == Failed(r.error))
                && (r.Success? && !r.value.approval ==> outcome == NotApproved)
                && (r.Success? && r.value.approval ==>
                      outcome == Created(old(nextLoanId), r.value.monthlyInstallment.value))
      ensures outcome.Created? ==>
                loans == old(loans) + [Loan(outcome.loanId, customerId as nat, req.loanAmount, req.interestRate,
                                            req.tenure, outcome.monthlyInstallment, true)]
                && nextLoanId == old(nextLoanId) + 1
      ensures !outcome.Created? ==> loans == old(loans) && nextLoanId == old(nextLoanId)
    {
      var found := FindCustomer(customers, customerId);
      if found.None? {
        return CustomerNotFound;
      }
      var customer := found.value;
      var eligibility := Policy.Evaluate(history, customer.id, customer.approvedLimit,
                                         customer.monthlyIncome, currentYear, req);
      if eligibility.Failure? {
        return Failed(eligibility.error);
      }
      var decision := eligibility.value;
      if !decision.approval {
        return NotApproved;
      }
      var installment := decision.monthlyInstallment.value;
      var loan := Loan(nextLoanId, customer.id, req.loanAmount, req.interestRate, req.tenure, installment, true);
      loans := loans + [loan];
      nextLoanId := nextLoanId + 1;
      outcome := Created(loan.loanId, installment);
    }
  }
}
