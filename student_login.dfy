/** `handleRegister` and `handleLogin` of the student screen. The password is
    stored as `btoa(password)`, passed in as `btoa`. */
module StudentLogin {
  import opened Tables

  /** The quota a new account starts with. */
  const InitialMaxTickets := 5

  datatype RegisterResult =
    | RegisterMissingFields
    | NameTaken
    | RegistrationFailed
    | Registered(student: Student)

  datatype LoginResult =
    | LoginMissingFields
    | UnknownStudent
    | WrongPassword
    | LoggedIn(student: Student)

  ghost predicate Injective(f: string -> string) {
    forall a, b :: a != b ==> f(a) != f(b)
  }

  /** One call of `handleRegister`; `insertOk` is whether the store accepts
      the new row. */
  function Register(db: Db, name: string, password: string, btoa: string -> string, insertOk: bool): (r: Step<RegisterResult>)
    ensures r.db.tickets == db.tickets && r.db.validators == db.validators
    ensures !r.result.Registered? ==> r.db == db
    ensures r.result.Registered? ==> name != "" && name !in db.students && r.db.students == db.students[name := r.result.student]
  {
    if name == "" || password == "" then Step(RegisterMissingFields, db)
    else if name in db.students then Step(NameTaken, db)
    else if !insertOk then Step(RegistrationFailed, db)
    else
      var student := Student(name, btoa(password), 0, InitialMaxTickets);
      Step(Registered(student), db.(students := db.students[name := student]))
  }

  /** One call of `handleLogin`: a read of `students`, which it never changes. */
  function Login(students: map<string, Student>, name: string, password: string, btoa: string -> string): (r: LoginResult)
    ensures r.LoggedIn? ==> name in students && r.student == students[name] && r.student.passwordHash == btoa(password)
    ensures r == LoginMissingFields <==> name == "" || password == ""
  {
    if name == "" || password == "" then LoginMissingFields
    else if name !in students then UnknownStudent
    else if students[name].passwordHash != btoa(password) then WrongPassword
    else LoggedIn(students[name])
  }

  /** A missing name or password, a name already registered, or a refused
      insert leaves the ledger as it was. */
  lemma RegisterRefusals(db: Db, name: string, password: string, btoa: string -> string, insertOk: bool)
    ensures var r := Register(db, name, password, btoa, insertOk);
            && (name == "" || password == "" ==> r.result == RegisterMissingFields)
            && (name != "" && password != "" && name in db.students ==> r.result == NameTaken)
            && (!r.result.Registered? ==> r.db == db)
  {
  }

  /** A successful registration adds exactly one account, under a name not
      taken before, with the encoded password and counters 0 of 5. */
  lemma RegisterAddsOneAccount(db: Db, name: string, password: string, btoa: string -> string)
    requires name != "" && password != "" && name !in db.students
    ensures var r := Register(db, name, password, btoa, true);
            && r.result == Registered(Student(name, btoa(password), 0, 5))
            && r.db.students == db.students[name := r.result.student]
            && |r.db.students| == |db.students| + 1
            && r.db.tickets == db.tickets && r.db.validators == db.validators
  {
  }

  /** Login succeeds exactly when both fields are filled in, the name is
      registered and its stored hash is `btoa(password)`; it then returns that
      student's row. */
  lemma LoginIff(students: map<string, Student>, name: string, password: string, btoa: string -> string)
    ensures var r := Login(students, name, password, btoa);
            && (r.LoggedIn? <==>
                  name != "" && password != "" && name in students && students[name].passwordHash == btoa(password))
            && (r.LoggedIn? ==> r.student == students[name])
            && (name != "" && password != "" && name !in students ==> r == UnknownStudent)
  {
  }

  /** Registering and then logging in with the same name and password
      succeeds, with the new account's counters. */
  lemma RegisterThenLogin(db: Db, name: string, password: string, btoa: string -> string, insertOk: bool)
    requires Register(db, name, password, btoa, insertOk).result.Registered?
    ensures var r := Register(db, name, password, btoa, insertOk);
            Login(r.db.students, name, password, btoa) == LoggedIn(Student(name, btoa(password), 0, InitialMaxTickets))
  {
  }

  /** With an injective encoding, any other password is refused after registration. */
  lemma RegisterThenWrongPassword(
    db: Db, name: string, password: string, other: string, btoa: string -> string, insertOk: bool)
    requires Injective(btoa)
    requires Register(db, name, password, btoa, insertOk).result.Registered?
    requires other != "" && other != password
    ensures Login(Register(db, name, password, btoa, insertOk).db.students, name, other, btoa) == WrongPassword
  {
    assert btoa(other) != btoa(password);
  }

  lemma RegisterPreservesConsistent(db: Db, name: string, password: string, btoa: string -> string, insertOk: bool)
    requires Consistent(db)
    ensures Consistent(Register(db, name, password, btoa, insertOk).db)
  {
    var r := Register(db, name, password, btoa, insertOk);
    if r.result.Registered? {
      NothingOwnedByStranger(db, name);
      forall n | n in r.db.students
        ensures StudentOk(r.db, n)
      {
        if n != name {
          assert StudentOk(db, n);
        }
      }
      forall c | c in r.db.tickets
        ensures TicketOk(r.db, c)
      {
        assert TicketOk(db, c);
      }
    }
  }
}
