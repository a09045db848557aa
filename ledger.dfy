/** The ticket ledger held in memory: the three tables as fields of one
    object, and the handlers that write to them as methods that read, check,
    and update the tables in place. Each method is proved to do what the
    matching step function of its component says, and to keep the ledger
    invariant. */
module InMemoryLedger {
  import opened Text
  import opened Tables
  import TV = TicketValidator
  import TG = TicketGenerator
  import SL = StudentLogin

  class Ledger {
    var students: map<string, Student>
    var tickets: map<string, Ticket>
    /** Reference data: no handler writes to it. */
    const validators: map<string, Validator>

    function State(): Db
      reads this
    {
      Db(students, tickets, validators)
    }

    ghost predicate Valid()
      reads this
    {
      Consistent(State())
    }

    /** A ledger with no students and no tickets, over the given validators. */
    constructor (validators: map<string, Validator>)
      requires forall c :: c in validators ==> validators[c].code == c
      ensures Valid()
      ensures students == map[] && tickets == map[] && this.validators == validators
    {
      students := map[];
      tickets := map[];
      this.validators := validators;
    }

    /** `validateTicket`, invoked by `inv` while the code field holds
        `searchCode`; the "Validar" button validates the field's code. */
    method ValidateTicket(
      inv: TV.Invocation, searchCode: string, validator: Validator, now: string, updateOk: bool)
      returns (status: TV.Status)
      requires Valid()
      modifies this
      ensures Valid()
      ensures TV.Validate(old(State()), TV.CodeArg(inv, searchCode), validator, now, updateOk) == Step(status, State())
      ensures forall c :: c in old(tickets) && old(tickets)[c].used ==> c in tickets && tickets[c] == old(tickets)[c]
    {
      var input := TV.CodeArg(inv, searchCode);
      TV.ValidatePreservesConsistent(State(), input, validator, now, updateOk);
      TV.UsedIsFinal(State(), input, validator, now, updateOk);
      var code := Trim(input);
      if code == "" {
        return TV.MissingCode;
      }
      var key := ToUpper(code);
      if key !in tickets {
        return TV.Invalid;
      }
      var ticket := tickets[key];
      if ticket.used {
        return TV.Used(ticket);
      }
      if !updateOk {
        return TV.UpdateFailed;
      }
      tickets := tickets[key := TV.Consume(ticket, validator.code, now)];
      status := TV.Valid(ticket);
    }

    /** `handleGenerateTicket` for the logged-in student `name`. */
    method GenerateTicket(
      name: string, guestField: string, ticketType: TicketType, notesField: string,
      generateCode: (string, int) -> string, nowMillis: int, insertOk: bool)
      returns (result: TG.GenerateResult)
      requires Valid() && name in students
      modifies this
      ensures Valid()
      ensures TG.Generate(old(State()), name, guestField, ticketType, notesField, generateCode, nowMillis, insertOk)
              == Step(result, State())
      ensures forall c :: c in old(tickets) ==> c in tickets && tickets[c] == old(tickets)[c]
    {
      TG.ExistingTicketsKept(State(), name, guestField, ticketType, notesField, generateCode, nowMillis, insertOk);
      ghost var expected := TG.Generate(State(), name, guestField, ticketType, notesField, generateCode, nowMillis, insertOk);
      TG.GeneratePreservesConsistent(State(), name, guestField, ticketType, notesField, generateCode, nowMillis, insertOk);
      var student := students[name];
      if !TG.CanGenerateMoreTickets(student) {
        return TG.LimitReached;
      }
      if ticketType == Graduado && student.ticketsGenerated > 0 {
        var existing := GraduadoTickets(tickets, name);
        if |existing| == 1 {
          return TG.GraduadoAlreadyIssued;
        }
      }
      var ticket := TG.NewTicket(name, guestField, ticketType, notesField, generateCode(name, nowMillis));
      if ticket.code in tickets || !insertOk {
        return TG.InsertFailed;
      }
      var updated := student.(ticketsGenerated := student.ticketsGenerated + 1);
      tickets := tickets[ticket.code := ticket];
      students := students[name := updated];
      result := TG.Generated(ticket, updated.maxTickets - updated.ticketsGenerated, TG.PreviewGuestName(ticket));
      assert Step(result, State()) == expected;
    }

    /** `handleRegister`. */
    method Register(name: string, password: string, btoa: string -> string, insertOk: bool)
      returns (result: SL.RegisterResult)
      requires Valid()
      modifies this
      ensures Valid()
      ensures SL.Register(old(State()), name, password, btoa, insertOk) == Step(result, State())
      ensures tickets == old(tickets)
    {
      SL.RegisterPreservesConsistent(State(), name, password, btoa, insertOk);
      if name == "" || password == "" {
        return SL.RegisterMissingFields;
      }
      if name in students {
        return SL.NameTaken;
      }
      if !insertOk {
        return SL.RegistrationFailed;
      }
      var student := Student(name, btoa(password), 0, SL.InitialMaxTickets);
      students := students[name := student];
      result := SL.Registered(student);
    }
  }

  /** A code scanned twice in a row, by `first` and then by `second`: the
      first scan admits the ticket, the second reports it used by `first` at
      the first scan's time. */
  method ScanTwice(
    l: Ledger, text: string, first: Validator, second: Validator, t1: string, t2: string, ok2: bool)
    returns (s1: TV.Status, s2: TV.Status)
    requires l.Valid() && !AllSpace(text)
    requires TV.LookupKey(text) in l.tickets && !l.tickets[TV.LookupKey(text)].used
    modifies l
    ensures l.Valid()
    ensures s1.Valid? && s2.Used?
    ensures s2.ticket.validatedBy == Some(first.code) && s2.ticket.usedAt == Some(t1)
  {
    TV.UnusedTicketConsumed(l.State(), text, first, t1);
    TV.SecondValidationReportsFirst(l.State(), text, text, first, second, t1, t2, ok2);
    s1 := l.ValidateTicket(TV.Scanned(text), "", first, t1, true);
    s2 := l.ValidateTicket(TV.Scanned(text), "", second, t2, ok2);
  }
}
