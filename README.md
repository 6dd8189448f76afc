# Employee directory GraphQL API — a verified model

This project models the resolvers of a small GraphQL API. The API keeps two
document collections, employees and users, and offers password login. The
schema defines four queries: `getAllEmployees`, `getEmployeeById`,
`searchEmployees` and `login`. It defines four mutations: `signup`,
`addEmployee`, `updateEmployee` and `deleteEmployee`. signup, addEmployee and
updateEmployee first run an ordered chain of argument checks. The first
failing check throws its message, and nothing is written. deleteEmployee runs
no check and passes its id straight to the database.

Layout:

- `types.dfy` (module `Types`): resolver arguments and the records.
  `Arg<T>` is a nullable GraphQL argument: `Omitted`, `Null` or `Given(v)`.
  An omitted key and an explicit `null` behave differently under `$set`, so
  both are kept. Stored fields are `Option<T>`. JavaScript truthiness is
  written out: `Truthy` (a string that is undefined, null or `""` is falsy) and
  `TruthyNumber` (a number that is undefined, null or `0` is falsy).
- `validation.dfy` (module `Validation`): the three check chains as functions
  returning the first error message, or `None`.
- `text.dfy` (module `Text`): case-insensitive substring search, proved equal
  to a declarative "occurs at some position" predicate.
- `auth.dfy` (module `Auth`): the abstract password hasher, the `findOne` lookup
  and the login decision chain.
- `store.dfy` (module `Directory`): class `Store`. Its map field `employees`
  holds employees by id and its sequence field `users` holds users in insertion
  order. The resolvers are methods of the class. Mutations carry
  `modifies this`. Queries have no `modifies` clause, so they cannot change the
  store.

The password hasher is a pair of total functions `hash(password, salt)` and
`compare(password, digest)`. The model assumes only `Sound`: a digest verifies
against its own password and is never equal to it. The random salt and the
driver-generated ObjectId of a new document are parameters of the mutations.
addEmployee requires its new id to be unused, which is what ObjectId
generation provides.

Two checks in updateEmployee depend on JavaScript truthiness, and the model
keeps that behaviour:

- graphql/schema.js:182 checks the salary only when it is truthy. A salary of
  `0` skips the check, and the merge then stores `0`. `UpdateSalaryMinimum`
  proves this is the only way an accepted update can push a stored salary
  below 1000.
- graphql/schema.js:181 checks the email only when it is truthy. An
  empty-string email skips the check and is stored.
- The exact-match query on department and designation (graphql/schema.js:49-61)
  is commented out, so it is not modelled.

## Model

| member | source | states |
|---|---|---|
| `Validation.SignupError` | graphql/schema.js:108-116 | The error is "All fields are required." iff username, email or password is missing or empty. It is "Invalid email format." iff all are present and the email has no `@`. It is "Password must be at least 6 characters." iff the email is fine and the password is shorter than 6. No error iff all three checks pass. |
| `Validation.AddEmployeeError` | graphql/schema.js:146-154 | The error is "All fields are required." iff one of the six required fields is falsy (a salary of 0 counts as falsy). Next comes the missing `@`, then a salary below 1000. There is no error exactly when all three pass. |
| `Validation.UpdateEmployeeError` | graphql/schema.js:180-182 | The error is "Employee ID is required." iff the id is falsy. The email is rejected only when truthy and without `@`. The salary is rejected only when non-zero and below 1000. Earlier failures win. |
| `Validation.SignupMissingFieldMasksLaterChecks` | graphql/schema.js:108-110 | With no username, signup reports the missing field whatever the email and password are. |
| `Validation.ZeroSalaryAddVersusUpdate` | graphql/schema.js:146-182 | A salary of 0 is a missing field for addEmployee, but updateEmployee accepts it. |
| `Validation.EmptyEmailAddVersusUpdate` | graphql/schema.js:108-181 | An empty email is a missing field for signup and addEmployee, but updateEmployee accepts it. |
| `Validation.SalaryBoundary` | graphql/schema.js:152-154 | With every other field valid, salary 999 is rejected with the salary message and 1000 is accepted. |
| `Validation.UpdateOmittingEmailAndSalaryPasses` | graphql/schema.js:180-182 | An update with an id and no email or salary is never rejected. |
| `Text.Contains` | graphql/schema.js:71-72 | The scanning substring search returns true exactly when the term occurs at some position. |
| `Text.ContainsIgnoringCase` | graphql/schema.js:71-72 | The `i` option: the term occurs in the field once both are lower-cased. |
| `Text.EngMatchesEngineering` | graphql/schema.js:68-75 | "eng" matches "Engineering" and "engineer" and does not match "Sales". |
| `Auth.FindOne` | graphql/schema.js:86 | `findOne({username})` finds nothing iff no user has the name. Otherwise it gives the first user with that name in the store's order, which the model takes to be insertion order. |
| `Auth.LoginStatus` | graphql/schema.js:86-90 | The result is "User not found!" iff no user has the name. Otherwise it is "Invalid password!" iff compare fails on that user's digest, and "Login successful!" iff compare succeeds. |
| `Auth.FindOneAppend` | graphql/schema.js:86 | Adding users never changes which user `findOne` picks for a name already taken. |
| `Auth.LoginAfterSignup` | graphql/schema.js:86-90 | For a sound hasher, suppose a user with a new name is appended with the digest of `p`. Login with `p` then succeeds, and the stored digest differs from `p`. |
| `Auth.LoginIgnoresLaterNamesake` | graphql/schema.js:86-90 | A user added under an existing name does not change the login result for that name. |
| `Directory.MergeChangesOnlySupplied` | graphql/schema.js:184 | `$set` keeps the id. It overwrites each supplied field with the argument (an explicit null clears the field) and leaves every omitted field as it was. |
| `Directory.MergeIdentityAndIdempotence` | graphql/schema.js:184 | An update that supplies nothing leaves the document unchanged. Merging the same arguments twice gives the same result as merging once. |
| `Directory.SalaryOnlyUpdate` | graphql/schema.js:184 | Supplying only `{salary: s}` changes the salary to `s` and nothing else. |
| `Directory.AddedEmployeeMeetsRules` | graphql/schema.js:146-157 | A document created by an accepted addEmployee has non-empty names, designation and department, an email with `@`, and a salary of at least 1000, all taken from the arguments. |
| `Directory.UpdateSalaryMinimum` | graphql/schema.js:180-184 | Take a document with a salary of at least 1000, or none. An accepted update keeps that true unless it sets the salary to 0, and setting it to 0 breaks it. |
| `Directory.Store.Find` | graphql/schema.js:42 | `Employee.find(q)` returns exactly the stored employees the filter selects, each once. |
| `Directory.Store.GetAllEmployees` | graphql/schema.js:40-43 | Every stored employee appears in the result, only stored employees appear, and none appears twice. |
| `Directory.Store.GetEmployeeById` | graphql/schema.js:44-47 | The result is the employee filed under the id, or null iff the id is absent or unknown. |
| `Directory.Store.SearchEmployees` | graphql/schema.js:63-77 | The result holds exactly the stored employees whose department or designation contains the term, ignoring case, each once. |
| `Directory.Store.Login` | graphql/schema.js:79-91 | The result is the login decision over the current users. It is one of the three literal strings, and the store is not modified. |
| `Directory.Store.Signup` | graphql/schema.js:100-127 | On a failed check, the first error is returned and no user is added. Otherwise exactly one user is appended, with password `hash(password, salt)`. The returned `User` carries only id, username and email. Employees are untouched. |
| `Directory.Store.AddEmployee` | graphql/schema.js:130-162 | On a failed check, the first error is returned and the employees are unchanged. Otherwise the arguments are stored as one new document under the new id and returned. Users are untouched. |
| `Directory.Store.UpdateEmployee` | graphql/schema.js:165-185 | On a failed check, the first error is returned and nothing changes. An unknown id returns null and nothing changes. Otherwise only that document is replaced, by its merge with the arguments, and the merged document is returned. |
| `Directory.Store.DeleteEmployee` | graphql/schema.js:188-198 | For a stored id, exactly that document is removed and "Employee deleted successfully" is returned. For a given id that is not stored, "Employee not found!" is returned and nothing changes. An omitted or null id is treated the same way; see "Left out". |
| `Directory.DeleteThenGet` | graphql/schema.js:193-197 | After a delete of a stored id, `getEmployeeById` for that id returns null. |
| `Directory.SignupThenLogin` | graphql/schema.js:118-126 | With a sound hasher, a successful signup under a fresh name stores a digest that differs from the password, and the following login succeeds. |

## Left out

- `server.js`: Express setup, the database connection, environment and port configuration, and `app.listen`. These are bootstrap and I/O.
- bcrypt internals (salting, cost factor 10, randomness). The hasher is an abstract pair with the round-trip and not-plaintext assumption, and the salt is a parameter.
- Regular-expression semantics of `$regex`. The search term is matched as a literal substring, so metacharacters in it are not modelled.
- Case folding beyond ASCII. Only `A`–`Z` are lower-cased, while MongoDB's `i` option also folds other letters.
- `Validation.SignupError`: compares the password length in Unicode scalar values. JavaScript's `.length` counts UTF-16 code units, which differ for characters outside the Basic Multilingual Plane.
- Salary is a `real`, so floating-point rounding and `NaN` (falsy in JavaScript) are not modelled.
- Mongoose behaviour outside the resolver code: casting errors for malformed ids, and schema constraints, defaults and uniqueness (models/Employee.js and models/User.js are not part of this model). Persistence errors on `save` are left out with them.
- updateEmployee's `$set: args` also writes the stray `eid` key. A strict Mongoose schema drops it, and it is not modelled.
- `Directory.Store.DeleteEmployee`: treats an omitted or null `eid` as an unknown id ("Employee not found!", nothing changes). The resolver does not check the id (graphql/schema.js:194), so that case is decided by Mongoose. `findByIdAndDelete(undefined)` becomes `findOneAndDelete({_id: undefined})`, which may act as an empty filter, delete an arbitrary employee and report success. That behaviour is not modelled.
- `Auth.FindOne`: takes the first match in insertion order. MongoDB's `findOne` returns the first match in natural order, which the database does not promise to be insertion order. `Auth.FindOneAppend`, `Auth.LoginIgnoresLaterNamesake` and `Directory.SignupThenLogin` rely on this choice. If models/User.js declares a unique index on username, a second signup under a taken name would fail at `save` instead; that schema is not part of this model.
- `Directory.Store.Find`: the result order is the order in which the key set is drained, not MongoDB's natural order.
- `Directory.Store.Login`: takes username and password as strings. The behaviour of `findOne` and `bcrypt.compare` for a missing or null argument is not modelled.
- `Directory.Store.SearchEmployees`: takes the term as a string. A missing or null `searchTerm` is not modelled.
- Generation of new ObjectIds is a parameter. addEmployee requires the id to be unused, which the generator guarantees. User ids are never looked up by any resolver, so signup places no condition on its id.
- `async`/`await`, logging, GraphQL type coercion and transport, and the commented-out department/designation exact-match query (graphql/schema.js:49-61).
