/**
 * The two collections and the resolvers that read and change them.  The
 * database is an in-memory Store: employees keyed by id, users in insertion
 * order.  signup, addEmployee and updateEmployee validate their arguments
 * first and write nothing when a check fails; deleteEmployee has no check.
 */
module Directory {
  import opened Types
  import opened Validation
  import Text
  import Auth

  const EmployeeDeleted := "Employee deleted successfully"
  const EmployeeNotFound := "Employee not found!"

  /** The filters the resolvers pass to `Employee.find`. */
  datatype Query = MatchAll | DepartmentOrDesignation(term: string)

  /** A stored field matches a term when it holds a string containing the term, ignoring case. */
  predicate FieldMatches(field: Option<string>, term: string) {
    field.Some? && Text.ContainsIgnoringCase(field.value, term)
  }

  predicate Selects(q: Query, e: Employee) {
    match q
    case MatchAll => true
    case DepartmentOrDesignation(term) => FieldMatches(e.department, term) || FieldMatches(e.designation, term)
  }

  /** `new Employee(args)`: each argument becomes the field of the same name. */
  function NewEmployee(id: Id, a: EmployeeInput): Employee {
    Employee(id, Stored(a.firstName), Stored(a.lastName), Stored(a.email), Stored(a.gender),
             Stored(a.designation), Stored(a.salary), Stored(a.dateOfJoining), Stored(a.department),
             Stored(a.employeePhoto))
  }

  /** One field under `$set`: an omitted argument keeps the current value. */
  function SetField<T>(current: Option<T>, a: Arg<T>): Option<T> {
    if a.Omitted? then current else Stored(a)
  }

  /** `$set: args` applied to a stored employee. */
  function Merge(e: Employee, a: EmployeeInput): Employee {
    e.(firstName := SetField(e.firstName, a.firstName),
       lastName := SetField(e.lastName, a.lastName),
       email := SetField(e.email, a.email),
       gender := SetField(e.gender, a.gender),
       designation := SetField(e.designation, a.designation),
       salary := SetField(e.salary, a.salary),
       dateOfJoining := SetField(e.dateOfJoining, a.dateOfJoining),
       department := SetField(e.department, a.department),
       employeePhoto := SetField(e.employeePhoto, a.employeePhoto))
  }

  /** Every argument that was supplied (as a value or as null) differs from omission. */
  predicate NoneSupplied(a: EmployeeInput) {
    a.firstName.Omitted? && a.lastName.Omitted? && a.email.Omitted? && a.gender.Omitted?
    && a.designation.Omitted? && a.salary.Omitted? && a.dateOfJoining.Omitted?
    && a.department.Omitted? && a.employeePhoto.Omitted?
  }

  /**
   * The partial merge keeps the id, overwrites exactly the supplied fields and
   * leaves every omitted field as it was.
   */
  lemma MergeChangesOnlySupplied(e: Employee, a: EmployeeInput)
    ensures Merge(e, a).id == e.id
    ensures a.firstName.Omitted? ==> Merge(e, a).firstName == e.firstName
    ensures a.lastName.Omitted? ==> Merge(e, a).lastName == e.lastName
    ensures a.email.Omitted? ==> Merge(e, a).email == e.email
    ensures a.gender.Omitted? ==> Merge(e, a).gender == e.gender
    ensures a.designation.Omitted? ==> Merge(e, a).designation == e.designation
    ensures a.salary.Omitted? ==> Merge(e, a).salary == e.salary
    ensures a.dateOfJoining.Omitted? ==> Merge(e, a).dateOfJoining == e.dateOfJoining
    ensures a.department.Omitted? ==> Merge(e, a).department == e.department
    ensures a.employeePhoto.Omitted? ==> Merge(e, a).employeePhoto == e.employeePhoto
    ensures !a.firstName.Omitted? ==> Merge(e, a).firstName == Stored(a.firstName)
    ensures !a.lastName.Omitted? ==> Merge(e, a).lastName == Stored(a.lastName)
    ensures !a.email.Omitted? ==> Merge(e, a).email == Stored(a.email)
    ensures !a.gender.Omitted? ==> Merge(e, a).gender == Stored(a.gender)
    ensures !a.designation.Omitted? ==> Merge(e, a).designation == Stored(a.designation)
    ensures !a.salary.Omitted? ==> Merge(e, a).salary == Stored(a.salary)
    ensures !a.dateOfJoining.Omitted? ==> Merge(e, a).dateOfJoining == Stored(a.dateOfJoining)
    ensures !a.department.Omitted? ==> Merge(e, a).department == Stored(a.department)
    ensures !a.employeePhoto.Omitted? ==> Merge(e, a).employeePhoto == Stored(a.employeePhoto)
  {
  }

  /** An update that supplies nothing leaves the document as it was; merging twice is merging once. */
  lemma MergeIdentityAndIdempotence(e: Employee, a: EmployeeInput)
    ensures NoneSupplied(a) ==> Merge(e, a) == e
    ensures Merge(Merge(e, a), a) == Merge(e, a)
  {
  }

  /** Supplying only a salary changes the salary and nothing else. */
  lemma SalaryOnlyUpdate(e: Employee, salary: real)
    ensures Merge(e, EmployeeInput(Omitted, Omitted, Omitted, Omitted, Omitted, Given(salary), Omitted, Omitted, Omitted))
            == e.(salary := Some(salary))
  {
  }

  /** The business rules addEmployee enforces, read off a stored document. */
  predicate MeetsAddRules(e: Employee) {
    && e.firstName.Some? && e.firstName.value != ""
    && e.lastName.Some? && e.lastName.value != ""
    && e.designation.Some? && e.designation.value != ""
    && e.department.Some? && e.department.value != ""
    && e.email.Some? && HasAt(e.email.value)
    && e.salary.Some? && e.salary.value >= MinSalary
  }

  /** A salary on file, if any, is at least the minimum. */
  predicate SalaryAtLeastMinimum(e: Employee) {
    e.salary.Some? ==> e.salary.value >= MinSalary
  }

  /** addEmployee stores a document only when its arguments satisfy the business rules, and stores them unchanged. */
  lemma AddedEmployeeMeetsRules(id: Id, a: EmployeeInput)
    requires AddEmployeeError(a) == None
    ensures MeetsAddRules(NewEmployee(id, a))
    ensures NewEmployee(id, a).salary == Some(a.salary.value)
    ensures NewEmployee(id, a).email == Some(a.email.value)
  {
  }

  /**
   * An accepted update keeps the salary minimum of a document unless it sets
   * the salary to 0, which the update check lets through as "not supplied"
   * while the merge still writes it.
   */
  lemma UpdateSalaryMinimum(e: Employee, eid: Arg<Id>, a: EmployeeInput)
    requires SalaryAtLeastMinimum(e)
    requires UpdateEmployeeError(eid, a) == None
    ensures a.salary != Given(0.0) ==> SalaryAtLeastMinimum(Merge(e, a))
    ensures a.salary == Given(0.0) ==> !SalaryAtLeastMinimum(Merge(e, a))
  {
  }

  class Store {
    var employees: map<Id, Employee>
    var users: seq<User>

    /** Each employee is filed under its own id. */
    ghost predicate Valid()
      reads this
    {
      forall id :: id in employees ==> employees[id].id == id
    }

    constructor ()
      ensures Valid()
      ensures employees == map[] && users == []
    {
      employees := map[];
      users := [];
    }

    /** `Employee.find(q)`: every stored employee the filter selects, each exactly once. */
    method Find(q: Query) returns (r: seq<Employee>)
      requires Valid()
      ensures forall e :: e in r <==> e.id in employees && employees[e.id] == e && Selects(q, e)
      ensures forall id :: id in employees && Selects(q, employees[id]) ==> employees[id] in r
      ensures forall i, j :: 0 <= i < j < |r| ==> r[i].id != r[j].id
    {
      r := [];
      var todo := employees.Keys;
      ghost var done: set<Id> := {};
      while todo != {}
        invariant todo + done == employees.Keys && todo !! done
        invariant forall e :: e in r <==> e.id in done && employees[e.id] == e && Selects(q, e)
        invariant forall i, j :: 0 <= i < j < |r| ==> r[i].id != r[j].id
        decreases todo
      {
        var id :| id in todo;
        var e := employees[id];
        if Selects(q, e) {
          r := r + [e];
        }
        todo := todo - {id};
        done := done + {id};
      }
    }

    /** getAllEmployees: every stored employee, each once. */
    method GetAllEmployees() returns (r: seq<Employee>)
      requires Valid()
      ensures forall e :: e in r <==> e.id in employees && employees[e.id] == e
      ensures forall id :: id in employees ==> employees[id] in r
      ensures forall i, j :: 0 <= i < j < |r| ==> r[i].id != r[j].id
    {
      r := Find(MatchAll);
    }

    /** getEmployeeById: the employee filed under `eid`, or null when there is none. */
    method GetEmployeeById(eid: Arg<Id>) returns (r: Option<Employee>)
      ensures r.Some? <==> eid.Given? && eid.value in employees
      ensures r.Some? ==> r.value == employees[eid.value]
    {
      if eid.Given? && eid.value in employees {
        r := Some(employees[eid.value]);
      } else {
        r := None;
      }
    }

    /** searchEmployees: exactly the employees whose department or designation contains the term, ignoring case. */
    method SearchEmployees(term: string) returns (r: seq<Employee>)
      requires Valid()
      ensures forall e :: e in r <==>
                e.id in employees && employees[e.id] == e
                && (FieldMatches(e.department, term) || FieldMatches(e.designation, term))
      ensures forall id :: id in employees ==>
                (employees[id] in r <==>
                   (FieldMatches(employees[id].department, term) || FieldMatches(employees[id].designation, term)))
      ensures forall i, j :: 0 <= i < j < |r| ==> r[i].id != r[j].id
    {
      r := Find(DepartmentOrDesignation(term));
    }

    /** login: look the user up by name, then compare the password with the stored digest. */
    method Login(h: Auth.Hasher, username: string, password: string) returns (msg: string)
      ensures msg == Auth.LoginStatus(h, users, username, password)
      ensures msg in {Auth.UserNotFound, Auth.InvalidPassword, Auth.LoginSuccessful}
    {
      var k := Auth.FindOne(users, username);
      if k.None? {
        return Auth.UserNotFound;
      }
      var isMatch := h.compare(password, users[k.value].password);
      if !isMatch {
        return Auth.InvalidPassword;
      }
      return Auth.LoginSuccessful;
    }

    /**
     * signup: validate, then store a user whose password is the digest of the
     * given one, and return the user without its password.  `oid` is the id
     * the driver generates for the new document.
     */
    method Signup(h: Auth.Hasher, username: Arg<string>, email: Arg<string>, password: Arg<string>,
                  oid: Id, salt: Auth.Salt) returns (r: Outcome<PublicUser>)
      requires Valid()
      modifies this
      ensures Valid()
      ensures employees == old(employees)
      ensures SignupError(username, email, password).Some? ==>
                r == Error(SignupError(username, email, password).value) && users == old(users)
      ensures SignupError(username, email, password).None? ==>
                && r == Ok(PublicUser(oid, username.value, email.value))
                && users == old(users) + [User(oid, username.value, email.value, h.hash(password.value, salt))]
    {
      var err := SignupError(username, email, password);
      if err.Some? {
        return Error(err.value);
      }
      var hashedPassword := h.hash(password.value, salt);
      var user := User(oid, username.value, email.value, hashedPassword);
      users := users + [user];
      r := Ok(PublicUser(user.id, user.username, user.email));
    }

    /** addEmployee: validate, then store the arguments as a new employee under `oid` and return it. */
    method AddEmployee(a: EmployeeInput, oid: Id) returns (r: Outcome<Employee>)
      requires Valid()
      requires oid !in employees
      modifies this
      ensures Valid()
      ensures users == old(users)
      ensures AddEmployeeError(a).Some? ==>
                r == Error(AddEmployeeError(a).value) && employees == old(employees)
      ensures AddEmployeeError(a).None? ==>
                r == Ok(NewEmployee(oid, a)) && employees == old(employees)[oid := NewEmployee(oid, a)]
    {
      var err := AddEmployeeError(a);
      if err.Some? {
        return Error(err.value);
      }
      var employee := NewEmployee(oid, a);
      employees := employees[oid := employee];
      r := Ok(employee);
    }

    /**
     * updateEmployee: validate, then merge the supplied fields into the
     * employee filed under `eid` and return the merged document, or null
     * when there is no such employee.
     */
    method UpdateEmployee(eid: Arg<Id>, a: EmployeeInput) returns (r: Outcome<Option<Employee>>)
      requires Valid()
      modifies this
      ensures Valid()
      ensures users == old(users)
      ensures UpdateEmployeeError(eid, a).Some? ==>
                r == Error(UpdateEmployeeError(eid, a).value) && employees == old(employees)
      ensures UpdateEmployeeError(eid, a).None? && eid.value !in old(employees) ==>
                r == Ok(None) && employees == old(employees)
      ensures UpdateEmployeeError(eid, a).None? && eid.value in old(employees) ==>
                && r == Ok(Some(Merge(old(employees)[eid.value], a)))
                && employees == old(employees)[eid.value := Merge(old(employees)[eid.value], a)]
    {
      var err := UpdateEmployeeError(eid, a);
      if err.Some? {
        return Error(err.value);
      }
      if eid.value !in employees {
        return Ok(None);
      }
      var updated := Merge(employees[eid.value], a);
      employees := employees[eid.value := updated];
      r := Ok(Some(updated));
    }

    /** deleteEmployee: remove the employee filed under `eid` and report whether there was one. */
    method DeleteEmployee(eid: Arg<Id>) returns (msg: string)
      requires Valid()
      modifies this
      ensures Valid()
      ensures users == old(users)
      ensures eid.Given? && eid.value in old(employees) ==>
                msg == EmployeeDeleted && employees == old(employees) - {eid.value}
      ensures !(eid.Given? && eid.value in old(employees)) ==>
                msg == EmployeeNotFound && employees == old(employees)
    {
      if !(eid.Given? && eid.value in employees) {
        return EmployeeNotFound;
      }
      employees := employees - {eid.value};
      msg := EmployeeDeleted;
    }
  }

  /** A client of the store: once an employee is deleted, looking it up yields null. */
  method DeleteThenGet(s: Store, id: Id) returns (msg: string, found: Option<Employee>)
    requires s.Valid() && id in s.employees
    modifies s
    ensures msg == EmployeeDeleted && found == None
    ensures s.Valid() && s.employees == old(s.employees) - {id}
  {
    msg := s.DeleteEmployee(Given(id));
    found := s.GetEmployeeById(Given(id));
  }

  /** A client of the store: a successful signup can be followed by a successful login. */
  method SignupThenLogin(s: Store, h: Auth.Hasher, username: string, email: string, password: string,
                         oid: Id, salt: Auth.Salt) returns (msg: string)
    requires Auth.Sound(h)
    requires s.Valid()
    requires forall j :: 0 <= j < |s.users| ==> s.users[j].username != username
    requires SignupError(Given(username), Given(email), Given(password)) == None
    modifies s
    ensures s.users == old(s.users) + [User(oid, username, email, h.hash(password, salt))]
    ensures h.hash(password, salt) != password
    ensures msg == Auth.LoginSuccessful
  {
    var r := s.Signup(h, Given(username), Given(email), Given(password), oid, salt);
    Auth.LoginAfterSignup(h, old(s.users), s.users[|s.users| - 1], password, salt);
    msg := s.Login(h, username, password);
  }
}
