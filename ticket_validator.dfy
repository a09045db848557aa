/** `validateTicket` of the validator screen: look a code up, then report it
    invalid, already used, or valid — consuming it in the last case — and the
    used/available counters of the same screen. */
module TicketValidator {
  import opened Text
  import opened Tables

  /** What one call of `validateTicket` ends with. `MissingCode` and
      `UpdateFailed` are the two error toasts that set no result; `Used` and
      `Valid` carry the row as it was read, before any update. */
  datatype Status =
    | MissingCode
    | Invalid
    | Used(ticket: Ticket)
    | Valid(ticket: Ticket)
    | UpdateFailed

  /** How `validateTicket` is invoked: with no argument (the Enter key), with
      the text decoded from a QR code, or by the "Validar" button, whose click
      handler receives the click event as its argument. */
  datatype Invocation = EnterKey | Scanned(text: string) | ButtonClick

  /** `(codeArg ?? searchCode).trim()` as written. A click event is neither
      null nor a string, so `.trim()` throws a TypeError before any lookup:
      None stands for that. */
  function CodeArgAsWritten(inv: Invocation, searchCode: string): Option<string> {
    match inv
    case EnterKey => Some(Trim(searchCode))
    case Scanned(text) => Some(Trim(text))
    case ButtonClick => None
  }

  /** The code a call validates, with the button validating the code typed in
      the field as its label says. */
  function CodeArg(inv: Invocation, searchCode: string): string {
    match inv
    case Scanned(text) => text
    case _ => searchCode
  }

  /** The key a code is looked up by: trimmed, then upper-cased. */
  function LookupKey(input: string): string {
    ToUpper(Trim(input))
  }

  /** The row after a successful update: used, stamped with the time and the
      validator's code, otherwise as read. */
  function Consume(t: Ticket, validatorCode: string, now: string): Ticket {
    t.(used := true, usedAt := Some(now), validatedBy := Some(validatorCode))
  }

  /** One call of `validateTicket` on code `input` by the logged-in `validator`
      at time `now`; `updateOk` is whether the store accepts the update. */
  function Validate(db: Db, input: string, validator: Validator, now: string, updateOk: bool): (r: Step<Status>)
    ensures r.db.students == db.students && r.db.validators == db.validators
    ensures r.db.tickets.Keys == db.tickets.Keys
    ensures r.db != db ==> r.result.Valid? && updateOk && !AllSpace(input)
  {
    var code := Trim(input);
    if code == "" then Step(MissingCode, db)
    else
      var key := ToUpper(code);
      if key !in db.tickets then Step(Invalid, db)
      else
        var ticket := db.tickets[key];
        if ticket.used then Step(Used(ticket), db)
        else if !updateOk then Step(UpdateFailed, db)
        else Step(Valid(ticket), db.(tickets := db.tickets[key := Consume(ticket, validator.code, now)]))
  }

  /** The "Validar" button never validates anything: even when the field
      holds the code of an unused ticket, which the Enter key would admit,
      the click stops with a TypeError before the lookup. */
  lemma ButtonClickNeverValidates(db: Db, searchCode: string, validator: Validator, now: string)
    requires !AllSpace(searchCode)
    requires LookupKey(searchCode) in db.tickets && !db.tickets[LookupKey(searchCode)].used
    ensures CodeArgAsWritten(ButtonClick, searchCode) == None
    ensures CodeArgAsWritten(EnterKey, searchCode) == Some(Trim(searchCode))
    ensures Validate(db, searchCode, validator, now, true).result.Valid?
  {
  }

  /** The corrected argument agrees with the code as written wherever the
      latter does not throw, and gives the button the typed code. */
  lemma CodeArgAgreesWhereDefined(inv: Invocation, searchCode: string)
    ensures CodeArgAsWritten(inv, searchCode).Some? ==> CodeArgAsWritten(inv, searchCode) == Some(Trim(CodeArg(inv, searchCode)))
    ensures inv == ButtonClick ==> CodeArg(inv, searchCode) == CodeArg(EnterKey, searchCode)
  {
  }

  /** A blank code is refused before any lookup, and nothing changes. */
  lemma BlankCodeRejected(db: Db, input: string, validator: Validator, now: string, updateOk: bool)
    requires AllSpace(input)
    ensures Validate(db, input, validator, now, updateOk) == Step(MissingCode, db)
  {
  }

  /** Surrounding spaces and letter case do not matter: a padded, lower-case
      spelling of a code finds the same ticket as the bare upper-case one. */
  lemma LookupIgnoresPaddingAndCase(p: string, s: string, q: string)
    requires AllSpace(p) && AllSpace(q)
    ensures LookupKey(p + s + q) == LookupKey(s) == LookupKey(ToUpper(s))
  {
    TrimOfPadded(p, s, q);
    TrimCommutesWithUpper(s);
    UpperIdempotent(Trim(s));
  }

  /** The outcome depends on the code only through its lookup key. */
  lemma OutcomeDependsOnKeyOnly(db: Db, a: string, b: string, validator: Validator, now: string, updateOk: bool)
    requires LookupKey(a) == LookupKey(b)
    ensures Validate(db, a, validator, now, updateOk) == Validate(db, b, validator, now, updateOk)
  {
    assert |LookupKey(a)| == |Trim(a)| && |LookupKey(b)| == |Trim(b)|;
  }

  /** An unknown code is reported invalid and nothing changes. */
  lemma UnknownCodeInvalid(db: Db, input: string, validator: Validator, now: string, updateOk: bool)
    requires !AllSpace(input) && LookupKey(input) !in db.tickets
    ensures Validate(db, input, validator, now, updateOk) == Step(Invalid, db)
  {
  }

  /** A used ticket is reported used with its original validation time and
      validator, and nothing changes. */
  lemma UsedTicketReported(db: Db, input: string, validator: Validator, now: string, updateOk: bool)
    requires Consistent(db) && !AllSpace(input)
    requires LookupKey(input) in db.tickets && db.tickets[LookupKey(input)].used
    ensures var r := Validate(db, input, validator, now, updateOk);
            && r.db == db
            && r.result == Used(db.tickets[LookupKey(input)])
            && r.result.ticket.usedAt.Some? && r.result.ticket.validatedBy.Some?
  {
    assert TicketOk(db, LookupKey(input));
  }

  /** An unused ticket whose update succeeds becomes used, stamped with the
      time and the validator's code; no other row of any table changes. */
  lemma UnusedTicketConsumed(db: Db, input: string, validator: Validator, now: string)
    requires !AllSpace(input)
    requires LookupKey(input) in db.tickets && !db.tickets[LookupKey(input)].used
    ensures var key := LookupKey(input);
            var r := Validate(db, input, validator, now, true);
            && r.result == Valid(db.tickets[key])
            && r.db.students == db.students && r.db.validators == db.validators
            && r.db.tickets.Keys == db.tickets.Keys
            && r.db.tickets[key].used
            && r.db.tickets[key].usedAt == Some(now)
            && r.db.tickets[key].validatedBy == Some(validator.code)
            && r.db.tickets[key].(used := false, usedAt := None, validatedBy := None)
               == db.tickets[key].(usedAt := None, validatedBy := None)
            && (forall c :: c in db.tickets && c != key ==> r.db.tickets[c] == db.tickets[c])
  {
  }

  /** A failed update yields no `Valid` result and leaves every ticket as it was. */
  lemma FailedUpdateChangesNothing(db: Db, input: string, validator: Validator, now: string)
    ensures var r := Validate(db, input, validator, now, false);
            !r.result.Valid? && r.db == db
  {
  }

  /** Consumption happens at most once: a used ticket never changes, no ticket
      is added or removed, and the only row that can change is the one looked
      up, only from unused to used, and only with a `Valid` result. */
  lemma UsedIsFinal(db: Db, input: string, validator: Validator, now: string, updateOk: bool)
    ensures var r := Validate(db, input, validator, now, updateOk);
            && r.db.tickets.Keys == db.tickets.Keys
            && forall c :: c in db.tickets ==>
                 && (db.tickets[c].used ==> r.db.tickets[c] == db.tickets[c])
                 && (r.db.tickets[c] != db.tickets[c] ==>
                       && c == LookupKey(input)
                       && r.result == Valid(db.tickets[c])
                       && r.db.tickets[c].used)
  {
    var r := Validate(db, input, validator, now, updateOk);
    if r.db != db {
      var key := ToUpper(Trim(input));
      assert key == LookupKey(input);
      var t := Consume(db.tickets[key], validator.code, now);
      assert key in db.tickets && !db.tickets[key].used;
      assert r == Step(Valid(db.tickets[key]), db.(tickets := db.tickets[key := t]));
      forall c | c in db.tickets
        ensures db.tickets[c].used ==> r.db.tickets[c] == db.tickets[c]
        ensures r.db.tickets[c] != db.tickets[c] ==> c == key && r.result == Valid(db.tickets[c]) && r.db.tickets[c].used
      {
      }
    }
  }

  /** Validating the same code twice gives `valid` and then `used`, naming the
      first validator and time: never `valid` twice. */
  lemma SecondValidationReportsFirst(
    db: Db, a: string, b: string, v1: Validator, v2: Validator, now1: string, now2: string, ok2: bool)
    requires LookupKey(a) == LookupKey(b)
    requires Validate(db, a, v1, now1, true).result.Valid?
    ensures var first := Validate(db, a, v1, now1, true);
            var second := Validate(first.db, b, v2, now2, ok2);
            && second.db == first.db
            && second.result.Used?
            && second.result.ticket.validatedBy == Some(v1.code)
            && second.result.ticket.usedAt == Some(now1)
  {
    assert |LookupKey(a)| == |Trim(a)| && |LookupKey(b)| == |Trim(b)|;
  }

  /** Looking up a lookup key again finds the same key. */
  lemma LookupKeyIdempotent(input: string)
    ensures LookupKey(LookupKey(input)) == LookupKey(input)
  {
    TrimCommutesWithUpper(Trim(input));
    TrimIdempotent(input);
    UpperIdempotent(Trim(input));
  }

  /** Only a ticket whose stored code is already trimmed and upper-case can be
      found, whatever is typed or scanned. */
  lemma OnlyCanonicalCodesFound(db: Db, input: string, validator: Validator, now: string, updateOk: bool)
    requires Consistent(db)
    ensures var r := Validate(db, input, validator, now, updateOk).result;
            (r.Used? || r.Valid?) ==> r.ticket.code != "" && LookupKey(r.ticket.code) == r.ticket.code
  {
    var key := LookupKey(input);
    var r := Validate(db, input, validator, now, updateOk).result;
    if r.Used? || r.Valid? {
      assert key in db.tickets && r.ticket == db.tickets[key];
      assert TicketOk(db, key);
      assert |key| == |Trim(input)| > 0;
      LookupKeyIdempotent(input);
    }
  }

  /** Consuming an unused ticket keeps the ledger invariant: the owner and the
      type of the row do not change, and it gains a time and a validator. */
  lemma ConsumeKeepsConsistent(db: Db, key: string, validatorCode: string, now: string)
    requires Consistent(db) && key in db.tickets && !db.tickets[key].used
    ensures Consistent(db.(tickets := db.tickets[key := Consume(db.tickets[key], validatorCode, now)]))
  {
    var t := Consume(db.tickets[key], validatorCode, now);
    var after := db.(tickets := db.tickets[key := t]);
    forall n | n in after.students
      ensures StudentOk(after, n)
    {
      assert StudentOk(db, n);
      OwnedAfterUpdate(db.tickets, key, t, n);
    }
    forall c | c in after.tickets
      ensures TicketOk(after, c)
    {
      assert TicketOk(db, c);
    }
  }

  lemma ValidatePreservesConsistent(db: Db, input: string, validator: Validator, now: string, updateOk: bool)
    requires Consistent(db)
    ensures Consistent(Validate(db, input, validator, now, updateOk).db)
  {
    var r := Validate(db, input, validator, now, updateOk);
    if r.db != db {
      var key := ToUpper(Trim(input));
      assert key in db.tickets && !db.tickets[key].used;
      assert r.db == db.(tickets := db.tickets[key := Consume(db.tickets[key], validator.code, now)]);
      ConsumeKeepsConsistent(db, key, validator.code, now);
    }
  }

  /** `tickets.filter(t => t.used)`. */
  function UsedTickets(ts: seq<Ticket>): (r: seq<Ticket>)
    ensures |r| <= |ts|
    ensures forall i :: 0 <= i < |r| ==> r[i].used
  {
    if ts == [] then []
    else if ts[0].used then [ts[0]] + UsedTickets(ts[1..])
    else UsedTickets(ts[1..])
  }

  /** `tickets.filter(t => !t.used)`. */
  function AvailableTickets(ts: seq<Ticket>): (r: seq<Ticket>)
    ensures |r| <= |ts|
    ensures forall i :: 0 <= i < |r| ==> !r[i].used
  {
    if ts == [] then []
    else if !ts[0].used then [ts[0]] + AvailableTickets(ts[1..])
    else AvailableTickets(ts[1..])
  }

  /** The "Usadas" and "Disponibles" counters split the tickets between them:
      together they hold every ticket exactly once, so the two counts add up
      to "Total Entradas". */
  lemma {:induction false} UsedAndAvailablePartition(ts: seq<Ticket>)
    ensures multiset(UsedTickets(ts)) + multiset(AvailableTickets(ts)) == multiset(ts)
    ensures |UsedTickets(ts)| + |AvailableTickets(ts)| == |ts|
  {
    if ts != [] {
      UsedAndAvailablePartition(ts[1..]);
      assert ts == [ts[0]] + ts[1..];
    }
  }
}
