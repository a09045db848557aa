/** `handleGenerateTicket` of the student screen: check the quota and the
    one-`graduado` rule, insert an unused ticket, then raise the student's
    counter by one; and the guest name the preview shows. */
module TicketGenerator {
  import opened Tables

  /** What one call of `handleGenerateTicket` ends with. */
  datatype GenerateResult =
    | LimitReached
    | GraduadoAlreadyIssued
    | InsertFailed
    | Generated(ticket: Ticket, remaining: int, previewGuestName: string)

  /** One request of the form, as a sequence of calls sees it. */
  datatype Request = Request(
    guestField: string, ticketType: TicketType, notesField: string, nowMillis: int, insertOk: bool)

  /** `canGenerateMoreTickets`. */
  function CanGenerateMoreTickets(s: Student): bool {
    s.ticketsGenerated < s.maxTickets
  }

  /** JavaScript's `field || null` on a text field. */
  function OptionalField(field: string): Option<string> {
    if field == "" then None else Some(field)
  }

  /** The row `handleGenerateTicket` inserts. */
  function NewTicket(name: string, guestField: string, ticketType: TicketType, notesField: string, code: string): (t: Ticket)
    ensures t.code == code && t.studentName == name && t.ticketType == ticketType
    ensures !t.used && t.usedAt == None && t.validatedBy == None
    ensures t.guestName != Some("") && t.specialNotes != Some("")
    ensures t.guestName.Some? ==> t.guestName.value == guestField
    ensures t.specialNotes.Some? ==> t.specialNotes.value == notesField
  {
    Ticket(code, name, OptionalField(guestField), ticketType, false, None, None, OptionalField(notesField))
  }

  /** The guest name on the preview: `guest_name || (graduado ? student name
      : "Entrada Familiar")`. */
  function PreviewGuestName(t: Ticket): (r: string)
    ensures t.studentName != "" ==> r != ""
    ensures r == "Entrada Familiar" || r == t.studentName || (t.guestName.Some? && r == t.guestName.value)
    ensures t.guestName.Some? && t.guestName.value != "" ==> r == t.guestName.value
  {
    if t.guestName.Some? && t.guestName.value != "" then t.guestName.value
    else if t.ticketType == Graduado then t.studentName
    else "Entrada Familiar"
  }

  /** One call of `handleGenerateTicket` by the logged-in student `name`.
      `generateCode` is `generateTicketCode`, called with `Date.now()` =
      `nowMillis`; `insertOk` is whether the store accepts the row apart from
      its code, which it refuses when already taken. */
  function Generate(
    db: Db, name: string, guestField: string, ticketType: TicketType, notesField: string,
    generateCode: (string, int) -> string, nowMillis: int, insertOk: bool): (r: Step<GenerateResult>)
    requires name in db.students
    ensures r.db.students.Keys == db.students.Keys
  {
    var student := db.students[name];
    if !CanGenerateMoreTickets(student) then Step(LimitReached, db)
    else if ticketType == Graduado && student.ticketsGenerated > 0
            && |GraduadoTickets(db.tickets, name)| == 1 then Step(GraduadoAlreadyIssued, db)
    else
      var ticket := NewTicket(name, guestField, ticketType, notesField, generateCode(name, nowMillis));
      if ticket.code in db.tickets || !insertOk then Step(InsertFailed, db)
      else
        var updated := student.(ticketsGenerated := student.ticketsGenerated + 1);
        Step(Generated(ticket, updated.maxTickets - updated.ticketsGenerated, PreviewGuestName(ticket)),
             db.(tickets := db.tickets[ticket.code := ticket], students := db.students[name := updated]))
  }

  /** A student at the quota is refused: no ticket, no counter change. */
  lemma LimitRefused(
    db: Db, name: string, guestField: string, ticketType: TicketType, notesField: string,
    generateCode: (string, int) -> string, nowMillis: int, insertOk: bool)
    requires name in db.students && db.students[name].ticketsGenerated >= db.students[name].maxTickets
    ensures Generate(db, name, guestField, ticketType, notesField, generateCode, nowMillis, insertOk) == Step(LimitReached, db)
  {
  }

  /** A student who already owns a `graduado` ticket gets no second one,
      although the query is skipped when the counter is 0. */
  lemma SecondGraduadoRefused(
    db: Db, name: string, guestField: string, notesField: string,
    generateCode: (string, int) -> string, nowMillis: int, insertOk: bool)
    requires Consistent(db) && name in db.students
    requires GraduadoTickets(db.tickets, name) != {}
    ensures var r := Generate(db, name, guestField, Graduado, notesField, generateCode, nowMillis, insertOk);
            r.db == db && (r.result == GraduadoAlreadyIssued || r.result == LimitReached)
  {
    SingleGraduadoIffAny(db, name);
    assert StudentOk(db, name);
    var c :| c in GraduadoTickets(db.tickets, name);
    assert c in Owned(db.tickets, name);
  }

  /** Generation goes ahead exactly when the student has quota left, does not
      already own a `graduado` ticket when asking for one, the generated code
      is free, and the store accepts the row. */
  lemma GenerateSucceedsIff(
    db: Db, name: string, guestField: string, ticketType: TicketType, notesField: string,
    generateCode: (string, int) -> string, nowMillis: int, insertOk: bool)
    requires Consistent(db) && name in db.students
    ensures Generate(db, name, guestField, ticketType, notesField, generateCode, nowMillis, insertOk).result.Generated?
            <==> && CanGenerateMoreTickets(db.students[name])
                 && (ticketType == Graduado ==> GraduadoTickets(db.tickets, name) == {})
                 && generateCode(name, nowMillis) !in db.tickets
                 && insertOk
  {
    var student := db.students[name];
    var code := generateCode(name, nowMillis);
    assert StudentOk(db, name);
    SingleGraduadoIffAny(db, name);
    if student.ticketsGenerated == 0 {
      NothingOwnedAtZero(db, name);
    }
    var skipped := ticketType == Graduado && student.ticketsGenerated > 0
                   && |GraduadoTickets(db.tickets, name)| == 1;
    assert skipped <==> ticketType == Graduado && GraduadoTickets(db.tickets, name) != {};
    assert NewTicket(name, guestField, ticketType, notesField, code).code == code;
  }

  /** A successful call inserts one unused ticket for the student under the
      generated code, which was free, with null guest and notes exactly when
      those fields are empty; raises the counter by exactly 1, within the
      quota; reports the remaining quota; and changes nothing else. */
  lemma GeneratedTicketInserted(
    db: Db, name: string, guestField: string, ticketType: TicketType, notesField: string,
    generateCode: (string, int) -> string, nowMillis: int, insertOk: bool)
    requires name in db.students
    requires Generate(db, name, guestField, ticketType, notesField, generateCode, nowMillis, insertOk).result.Generated?
    ensures var r := Generate(db, name, guestField, ticketType, notesField, generateCode, nowMillis, insertOk);
            var t := r.result.ticket;
            var before := db.students[name];
            var after := r.db.students[name];
            && t.code == generateCode(name, nowMillis) && t.code !in db.tickets
            && t.studentName == name && t.ticketType == ticketType
            && !t.used && t.usedAt == None && t.validatedBy == None
            && (t.guestName == None <==> guestField == "")
            && (t.specialNotes == None <==> notesField == "")
            && r.db.tickets == db.tickets[t.code := t]
            && after == before.(ticketsGenerated := before.ticketsGenerated + 1)
            && after.ticketsGenerated <= after.maxTickets
            && r.result.remaining == after.maxTickets - after.ticketsGenerated >= 0
            && (forall n :: n in db.students && n != name ==> r.db.students[n] == db.students[n])
            && r.db.validators == db.validators
  {
  }

  /** Every refusal and every failed insert leaves the ledger as it was. */
  lemma FailureChangesNothing(
    db: Db, name: string, guestField: string, ticketType: TicketType, notesField: string,
    generateCode: (string, int) -> string, nowMillis: int, insertOk: bool)
    requires name in db.students
    ensures var r := Generate(db, name, guestField, ticketType, notesField, generateCode, nowMillis, insertOk);
            !r.result.Generated? ==> r.db == db
  {
  }

  /** A code already in use is never overwritten. */
  lemma ExistingTicketsKept(
    db: Db, name: string, guestField: string, ticketType: TicketType, notesField: string,
    generateCode: (string, int) -> string, nowMillis: int, insertOk: bool)
    requires name in db.students
    ensures var r := Generate(db, name, guestField, ticketType, notesField, generateCode, nowMillis, insertOk);
            forall c :: c in db.tickets ==> c in r.db.tickets && r.db.tickets[c] == db.tickets[c]
  {
  }

  /** The preview always names somebody: the guest when one was typed, the
      graduate on their own `graduado` ticket, "Entrada Familiar" otherwise. */
  lemma PreviewNamesSomeone(
    db: Db, name: string, guestField: string, ticketType: TicketType, notesField: string,
    generateCode: (string, int) -> string, nowMillis: int, insertOk: bool)
    requires Consistent(db) && name in db.students
    requires Generate(db, name, guestField, ticketType, notesField, generateCode, nowMillis, insertOk).result.Generated?
    ensures var p := Generate(db, name, guestField, ticketType, notesField, generateCode, nowMillis, insertOk).result.previewGuestName;
            && p != ""
            && (guestField != "" ==> p == guestField)
            && (guestField == "" && ticketType == Graduado ==> p == name)
            && (guestField == "" && ticketType == Familiar ==> p == "Entrada Familiar")
  {
    assert StudentOk(db, name);
  }

  lemma GeneratePreservesConsistent(
    db: Db, name: string, guestField: string, ticketType: TicketType, notesField: string,
    generateCode: (string, int) -> string, nowMillis: int, insertOk: bool)
    requires Consistent(db) && name in db.students
    ensures Consistent(Generate(db, name, guestField, ticketType, notesField, generateCode, nowMillis, insertOk).db)
  {
    var r := Generate(db, name, guestField, ticketType, notesField, generateCode, nowMillis, insertOk);
    if r.result.Generated? {
      var t := r.result.ticket;
      assert StudentOk(db, name);
      if ticketType == Graduado {
        if db.students[name].ticketsGenerated == 0 {
          NothingOwnedAtZero(db, name);
        }
        assert GraduadoTickets(db.tickets, name) == {};
      }
      forall n | n in r.db.students
        ensures StudentOk(r.db, n)
      {
        assert StudentOk(db, n);
        OwnedAfterInsert(db.tickets, t.code, t, n);
      }
      forall c | c in r.db.tickets
        ensures TicketOk(r.db, c)
      {
        if c != t.code {
          assert TicketOk(db, c);
        }
      }
    }
  }

  /** A session's requests handled one after another. */
  function GenerateAll(db: Db, name: string, generateCode: (string, int) -> string, reqs: seq<Request>): (r: Step<seq<GenerateResult>>)
    requires name in db.students
    ensures |r.result| == |reqs|
    ensures r.db.students.Keys == db.students.Keys
    decreases |reqs|
  {
    if reqs == [] then Step([], db)
    else
      var q := reqs[0];
      var first := Generate(db, name, q.guestField, q.ticketType, q.notesField, generateCode, q.nowMillis, q.insertOk);
      var rest := GenerateAll(first.db, name, generateCode, reqs[1..]);
      Step([first.result] + rest.result, rest.db)
  }

  function Successes(rs: seq<GenerateResult>): nat {
    if rs == [] then 0 else (if rs[0].Generated? then 1 else 0) + Successes(rs[1..])
  }

  /** One call raises the counter by 1 exactly when it generates a ticket,
      and never changes the quota. */
  lemma CounterStep(
    db: Db, name: string, guestField: string, ticketType: TicketType, notesField: string,
    generateCode: (string, int) -> string, nowMillis: int, insertOk: bool)
    requires Consistent(db) && name in db.students
    ensures var r := Generate(db, name, guestField, ticketType, notesField, generateCode, nowMillis, insertOk);
            && Consistent(r.db)
            && r.db.students[name].maxTickets == db.students[name].maxTickets
            && r.db.students[name].ticketsGenerated
               == db.students[name].ticketsGenerated + (if r.result.Generated? then 1 else 0)
  {
    GeneratePreservesConsistent(db, name, guestField, ticketType, notesField, generateCode, nowMillis, insertOk);
  }

  /** After any run of requests the counter has grown by exactly the number of
      tickets generated, and never passes the quota. */
  lemma {:induction false} CounterCountsSuccesses(db: Db, name: string, generateCode: (string, int) -> string, reqs: seq<Request>)
    requires Consistent(db) && name in db.students
    ensures var r := GenerateAll(db, name, generateCode, reqs);
            && Consistent(r.db)
            && r.db.students[name].maxTickets == db.students[name].maxTickets
            && r.db.students[name].ticketsGenerated == db.students[name].ticketsGenerated + Successes(r.result)
            && r.db.students[name].ticketsGenerated <= r.db.students[name].maxTickets
    decreases |reqs|
  {
    var r := GenerateAll(db, name, generateCode, reqs);
    if reqs == [] {
      assert StudentOk(db, name);
    } else {
      var q := reqs[0];
      var first := Generate(db, name, q.guestField, q.ticketType, q.notesField, generateCode, q.nowMillis, q.insertOk);
      CounterStep(db, name, q.guestField, q.ticketType, q.notesField, generateCode, q.nowMillis, q.insertOk);
      CounterCountsSuccesses(first.db, name, generateCode, reqs[1..]);
      var rest := GenerateAll(first.db, name, generateCode, reqs[1..]);
      assert r.db == rest.db;
      assert r.result == [first.result] + rest.result;
      assert r.result[1..] == rest.result;
      assert Successes(r.result) == (if first.result.Generated? then 1 else 0) + Successes(rest.result);
      assert StudentOk(r.db, name);
    }
  }
}
