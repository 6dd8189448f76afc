/**
 * The argument checks that signup, addEmployee and updateEmployee run before
 * touching the database.  Each is an ordered chain: the first failing check
 * decides the message and no later check is consulted.  None means every
 * check passed.
 */
module Validation {
  import opened Types

  const AllFieldsRequired := "All fields are required."
  const InvalidEmailFormat := "Invalid email format."
  const PasswordTooShort := "Password must be at least 6 characters."
  const SalaryTooLow := "Salary must be at least 1000."
  const EmployeeIdRequired := "Employee ID is required."

  const MinPasswordLength := 6
  const MinSalary := 1000.0

  /** The checks of signup: presence of all three, then "@" in the email, then password length. */
  function SignupError(username: Arg<string>, email: Arg<string>, password: Arg<string>): (err: Option<string>)
    ensures err == Some(AllFieldsRequired) <==>
              !Truthy(username) || !Truthy(email) || !Truthy(password)
    ensures err == Some(InvalidEmailFormat) <==>
              Truthy(username) && Truthy(email) && Truthy(password) && !HasAt(email.value)
    ensures err == Some(PasswordTooShort) <==>
              Truthy(username) && Truthy(email) && Truthy(password) && HasAt(email.value)
              && |password.value| < MinPasswordLength
    ensures err == None <==>
              Truthy(username) && Truthy(email) && Truthy(password) && HasAt(email.value)
              && |password.value| >= MinPasswordLength
  {
    if !Truthy(username) || !Truthy(email) || !Truthy(password) then Some(AllFieldsRequired)
    else if !HasAt(email.value) then Some(InvalidEmailFormat)
    else if |password.value| < MinPasswordLength then Some(PasswordTooShort)
    else None
  }

  /** The six arguments addEmployee demands, each truthy (so a salary of 0 counts as missing). */
  predicate RequiredPresent(a: EmployeeInput) {
    Truthy(a.firstName) && Truthy(a.lastName) && Truthy(a.email) && Truthy(a.designation)
    && TruthyNumber(a.salary) && Truthy(a.department)
  }

  /** The checks of addEmployee: six required fields, then "@" in the email, then salary >= 1000. */
  function AddEmployeeError(a: EmployeeInput): (err: Option<string>)
    ensures err == Some(AllFieldsRequired) <==> !RequiredPresent(a)
    ensures err == Some(InvalidEmailFormat) <==> RequiredPresent(a) && !HasAt(a.email.value)
    ensures err == Some(SalaryTooLow) <==>
              RequiredPresent(a) && HasAt(a.email.value) && a.salary.value < MinSalary
    ensures err == None <==>
              RequiredPresent(a) && HasAt(a.email.value) && a.salary.value >= MinSalary
  {
    if !RequiredPresent(a) then Some(AllFieldsRequired)
    else if !HasAt(a.email.value) then Some(InvalidEmailFormat)
    else if a.salary.value < MinSalary then Some(SalaryTooLow)
    else None
  }

  /** updateEmployee rejects an email only when it is truthy and lacks "@". */
  predicate UpdateEmailRejected(email: Arg<string>) {
    Truthy(email) && !HasAt(email.value)
  }

  /** updateEmployee rejects a salary only when it is truthy (non-zero) and below 1000. */
  predicate UpdateSalaryRejected(salary: Arg<real>) {
    TruthyNumber(salary) && salary.value < MinSalary
  }

  /** The checks of updateEmployee: id present, then the email if supplied, then the salary if supplied. */
  function UpdateEmployeeError(eid: Arg<Id>, a: EmployeeInput): (err: Option<string>)
    ensures err == Some(EmployeeIdRequired) <==> !Truthy(eid)
    ensures err == Some(InvalidEmailFormat) <==> Truthy(eid) && UpdateEmailRejected(a.email)
    ensures err == Some(SalaryTooLow) <==>
              Truthy(eid) && !UpdateEmailRejected(a.email) && UpdateSalaryRejected(a.salary)
    ensures err == None <==>
              Truthy(eid) && !UpdateEmailRejected(a.email) && !UpdateSalaryRejected(a.salary)
  {
    if !Truthy(eid) then Some(EmployeeIdRequired)
    else if UpdateEmailRejected(a.email) then Some(InvalidEmailFormat)
    else if UpdateSalaryRejected(a.salary) then Some(SalaryTooLow)
    else None
  }

  /**
   * First failure wins: a missing field hides every later problem, whatever
   * the email and password are.
   */
  lemma SignupMissingFieldMasksLaterChecks(username: Arg<string>, email: Arg<string>, password: Arg<string>,
                                           email': Arg<string>, password': Arg<string>)
    requires !Truthy(username)
    ensures SignupError(username, email, password) == SignupError(username, email', password')
                                                  == Some(AllFieldsRequired)
  {
  }

  /**
   * The same salary means different things to the two employee mutations:
   * addEmployee treats 0 as a missing field, while updateEmployee skips the
   * salary check for it.
   */
  lemma ZeroSalaryAddVersusUpdate(eid: Arg<Id>, a: EmployeeInput)
    requires a.salary == Given(0.0)
    requires Truthy(eid) && !UpdateEmailRejected(a.email)
    ensures AddEmployeeError(a) == Some(AllFieldsRequired)
    ensures UpdateEmployeeError(eid, a) == None
  {
  }

  /** An empty-string email is missing for addEmployee and signup but passes updateEmployee. */
  lemma EmptyEmailAddVersusUpdate(eid: Arg<Id>, a: EmployeeInput, username: Arg<string>, password: Arg<string>)
    requires a.email == Given("")
    requires Truthy(eid) && !UpdateSalaryRejected(a.salary)
    ensures AddEmployeeError(a) == Some(AllFieldsRequired)
    ensures SignupError(username, a.email, password) == Some(AllFieldsRequired)
    ensures UpdateEmployeeError(eid, a) == None
  {
  }

  /** The salary threshold: 999 is rejected and 1000 accepted when everything else is in order. */
  lemma SalaryBoundary(a: EmployeeInput)
    requires Truthy(a.firstName) && Truthy(a.lastName) && Truthy(a.designation) && Truthy(a.department)
    requires Truthy(a.email) && HasAt(a.email.value)
    ensures AddEmployeeError(a.(salary := Given(999.0))) == Some(SalaryTooLow)
    ensures AddEmployeeError(a.(salary := Given(1000.0))) == None
  {
  }

  /** An update that supplies no email and no salary is never rejected once the id is present. */
  lemma UpdateOmittingEmailAndSalaryPasses(eid: Arg<Id>, a: EmployeeInput)
    requires Truthy(eid)
    requires a.email.Omitted? && a.salary.Omitted?
    ensures UpdateEmployeeError(eid, a) == None
  {
  }
}
