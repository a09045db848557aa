/** The three tables of the ticket ledger (`students`, `tickets`,
    `validators`), each a map from its unique key to its row, and the
    invariant every sequence of handler calls keeps. */
module Tables {

  datatype Option<T> = None | Some(value: T)

  /** The values of `ticket_type` the generator form offers. */
  datatype TicketType = Graduado | Familiar

  /** A row of `students`, keyed by `name`. */
  datatype Student = Student(name: string, passwordHash: string, ticketsGenerated: int, maxTickets: int)

  /** A row of `tickets`, keyed by `code`; `usedAt` and `validatedBy` are null
      (None) until the ticket is validated. */
  datatype Ticket = Ticket(
    code: string,
    studentName: string,
    guestName: Option<string>,
    ticketType: TicketType,
    used: bool,
    usedAt: Option<string>,
    validatedBy: Option<string>,
    specialNotes: Option<string>)

  /** A row of `validators`, keyed by `code`. */
  datatype Validator = Validator(code: string, name: string, isActive: bool)

  datatype Db = Db(
    students: map<string, Student>,
    tickets: map<string, Ticket>,
    validators: map<string, Validator>)

  /** What a handler reports together with the ledger it leaves behind. */
  datatype Step<R> = Step(result: R, db: Db)

  /** The codes of the tickets generated by student `name`. */
  function Owned(tickets: map<string, Ticket>, name: string): set<string> {
    set c | c in tickets && tickets[c].studentName == name
  }

  /** The codes of `name`'s tickets of type `graduado`: the rows matched by
      `.eq('student_name', name).eq('ticket_type', 'graduado')`. */
  function GraduadoTickets(tickets: map<string, Ticket>, name: string): set<string> {
    set c | c in tickets && tickets[c].studentName == name && tickets[c].ticketType == Graduado
  }

  ghost predicate StudentOk(db: Db, n: string)
    requires n in db.students
  {
    var s := db.students[n];
    && s.name == n
    && n != ""
    && 0 <= s.ticketsGenerated <= s.maxTickets
    && |Owned(db.tickets, n)| == s.ticketsGenerated
    && |GraduadoTickets(db.tickets, n)| <= 1
  }

  ghost predicate TicketOk(db: Db, c: string)
    requires c in db.tickets
  {
    var t := db.tickets[c];
    && t.code == c
    && t.studentName in db.students
    && (t.used <==> t.usedAt.Some?)
    && (t.used <==> t.validatedBy.Some?)
    && t.guestName != Some("")
    && t.specialNotes != Some("")
  }

  /** The ledger invariant: every key matches its row; every student's counter
      lies within the quota and equals the number of tickets the student owns;
      at most one of them is `graduado`; every ticket belongs to a registered
      student, and carries a validation time and validator exactly when used. */
  ghost predicate Consistent(db: Db) {
    && (forall n {:trigger StudentOk(db, n)} :: n in db.students ==> StudentOk(db, n))
    && (forall c {:trigger TicketOk(db, c)} :: c in db.tickets ==> TicketOk(db, c))
    && (forall c :: c in db.validators ==> db.validators[c].code == c)
  }

  /** Inserting a row under a fresh code adds that code to its owner's tickets
      and to nobody else's. */
  lemma OwnedAfterInsert(tickets: map<string, Ticket>, c: string, t: Ticket, n: string)
    requires c !in tickets
    ensures Owned(tickets[c := t], n) == if t.studentName == n then Owned(tickets, n) + {c} else Owned(tickets, n)
    ensures GraduadoTickets(tickets[c := t], n)
         == if t.studentName == n && t.ticketType == Graduado then GraduadoTickets(tickets, n) + {c}
            else GraduadoTickets(tickets, n)
    ensures c !in Owned(tickets, n) && c !in GraduadoTickets(tickets, n)
  {
  }

  /** Replacing a row by one with the same owner and type changes nobody's tickets. */
  lemma OwnedAfterUpdate(tickets: map<string, Ticket>, c: string, t: Ticket, n: string)
    requires c in tickets
    requires t.studentName == tickets[c].studentName && t.ticketType == tickets[c].ticketType
    ensures Owned(tickets[c := t], n) == Owned(tickets, n)
    ensures GraduadoTickets(tickets[c := t], n) == GraduadoTickets(tickets, n)
  {
  }

  /** A student whose counter is 0 owns no ticket, so in particular no
      `graduado` ticket. */
  lemma NothingOwnedAtZero(db: Db, n: string)
    requires Consistent(db) && n in db.students
    requires db.students[n].ticketsGenerated == 0
    ensures Owned(db.tickets, n) == {} && GraduadoTickets(db.tickets, n) == {}
  {
    assert StudentOk(db, n);
    assert GraduadoTickets(db.tickets, n) <= Owned(db.tickets, n);
  }

  /** Under the invariant, `.single()` on the `graduado` query (a row only when
      exactly one matches) finds a row exactly when one exists. */
  lemma SingleGraduadoIffAny(db: Db, n: string)
    requires Consistent(db) && n in db.students
    ensures |GraduadoTickets(db.tickets, n)| == 1 <==> GraduadoTickets(db.tickets, n) != {}
  {
    assert StudentOk(db, n);
  }

  /** A name nobody has registered owns no ticket. */
  lemma NothingOwnedByStranger(db: Db, n: string)
    requires Consistent(db) && n !in db.students
    ensures Owned(db.tickets, n) == {} && GraduadoTickets(db.tickets, n) == {}
  {
    forall c | c in db.tickets
      ensures db.tickets[c].studentName != n
    {
      assert TicketOk(db, c);
    }
  }
}
