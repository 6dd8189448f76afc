/**
 * The values that flow through the GraphQL schema: resolver arguments, the
 * two persisted document kinds (Employee, User) and the outcome of a resolver.
 */
module Types {

  /** Identifier of a stored document (a MongoDB ObjectId in its string form). */
  type Id = string

  /**
   * A nullable GraphQL argument as a resolver sees it in `args`: left out of
   * the request, passed as an explicit `null`, or given a value.  The three
   * differ for a `$set` merge: an omitted key leaves the field alone, an
   * explicit null overwrites it.
   */
  datatype Arg<T> = Omitted | Null | Given(value: T)

  datatype Option<T> = None | Some(value: T)

  /** A resolver either produces a value or throws an Error carrying a message. */
  datatype Outcome<T> = Ok(value: T) | Error(message: string)

  /** JavaScript truthiness of a string argument: undefined, null and "" are falsy. */
  predicate Truthy(a: Arg<string>) {
    a.Given? && a.value != ""
  }

  /** JavaScript truthiness of a numeric argument: undefined, null and 0 are falsy. */
  predicate TruthyNumber(a: Arg<real>) {
    a.Given? && a.value != 0.0
  }

  /** `s.includes("@")` */
  predicate HasAt(s: string) {
    '@' in s
  }

  /** The value a document field holds once an argument has been written into it. */
  function Stored<T>(a: Arg<T>): Option<T> {
    if a.Given? then Some(a.value) else None
  }

  /** The arguments shared by addEmployee and updateEmployee. */
  datatype EmployeeInput = EmployeeInput(
    firstName: Arg<string>,
    lastName: Arg<string>,
    email: Arg<string>,
    gender: Arg<string>,
    designation: Arg<string>,
    salary: Arg<real>,
    dateOfJoining: Arg<string>,
    department: Arg<string>,
    employeePhoto: Arg<string>)

  /** A stored employee document; a field never written, or written null, reads back as None. */
  datatype Employee = Employee(
    id: Id,
    firstName: Option<string>,
    lastName: Option<string>,
    email: Option<string>,
    gender: Option<string>,
    designation: Option<string>,
    salary: Option<real>,
    dateOfJoining: Option<string>,
    department: Option<string>,
    employeePhoto: Option<string>)

  /** A stored user document; `password` holds the digest produced at signup. */
  datatype User = User(id: Id, username: string, email: string, password: string)

  /** The GraphQL `User` type: the fields a client can read, with no password among them. */
  datatype PublicUser = PublicUser(id: Id, username: string, email: string)
}
