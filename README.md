# Graduation ticket ledger

This is a model of the ticket ledger behind a graduation-ceremony ticketing front end. Graduates
register and log in. Each graduate generates up to a fixed quota of ticket codes, for themselves
(`graduado`) or for family guests (`familiar`). Validators at the door log in with their code and
validate ticket codes. Validation consumes a ticket: it goes from unused to used once and never back.

The application keeps its state in three tables of a hosted database: `students`, `tickets` and
`validators`. The model holds them as three maps, each keyed by the table's unique column
(`Tables.Db`), and states the invariant every handler keeps (`Tables.Consistent`):

- each row's key equals its row's own name or code;
- a student's `tickets_generated` lies between 0 and `max_tickets`;
- `tickets_generated` equals the number of tickets the student owns;
- a student owns at most one `graduado` ticket;
- every student name is non-empty;
- every ticket belongs to a registered student;
- `guest_name` and `special_notes` are null or non-empty, never the empty string;
- `used_at` and `validated_by` are set exactly when `used` is.

Each handler is a step function over these tables. The step functions sit in one module per
component:

- `TicketValidator` for `validateTicket`;
- `TicketGenerator` for `handleGenerateTicket`. Its helper `CanGenerateMoreTickets` is the quota test of src/components/TicketGenerator.tsx:38, and `OptionalField` is the `field || null` of lines 73-75. `GenerateSucceedsIff`, `LimitRefused`, `NewTicket` and `GeneratedTicketInserted` state what they decide;
- `StudentLogin` for `handleRegister` and `handleLogin`;
- `ValidatorLogin` for the validator's `handleLogin`.

The lemmas beside each step function state what the handler promises. The class
`InMemoryLedger.Ledger` holds the tables as fields. The three handlers that write run as methods
that read, check and then update the maps in place. Each method is proved equal to its step
function and proved to keep `Consistent`. The two logins only read, so they are functions of the
tables. `Text` models JavaScript's `trim` and `toUpperCase`, which decide how a typed or scanned
code finds its row.

Some inputs from outside the model become parameters:

- `generateTicketCode` is a function parameter, and its format is left open;
- `btoa` is a function parameter (injective where a lemma needs it);
- `Date.now()` and `new Date().toISOString()` are plain parameters;
- whether the database accepts a write is a boolean (`insertOk`, `updateOk`). An insert under a
  code that is already taken is always refused.

The code as written differs from what one might expect in three places, and the model follows the code:

- a duplicate ticket code fails the generation, with no retry;
- the consuming update is not conditional on the ticket still being unused;
- the account counter is written after the insert, as a separate update.

## Model

| member | source | states |
|---|---|---|
| Text.TrimStartRemovesSpacePrefix | src/components/TicketValidator.tsx:27 | the leading-space removal of `trim` removes exactly the longest all-space prefix; what is left is empty or starts with a non-space |
| Text.TrimEndRemovesSpaceSuffix | src/components/TicketValidator.tsx:27 | the trailing-space removal of `trim` removes exactly the longest all-space suffix; what is left is empty or ends with a non-space |
| Text.Trim | src/components/TicketValidator.tsx:27-28 | the trimmed code has no space at either end, and it is empty exactly when the input is all spaces |
| Text.ToUpper | src/components/TicketValidator.tsx:42 | the upper-cased code has the input's length; each lower-case ASCII letter becomes its capital in the alphabet, and every other character is unchanged |
| Text.TrimOfPadded | src/components/TicketValidator.tsx:27 | spaces around a code do not change what trimming keeps |
| Text.TrimOfTrimmed | src/components/TicketValidator.tsx:27 | a code with no space at either end is kept as it is |
| Text.TrimIdempotent | src/components/TicketValidator.tsx:27 | trimming twice is trimming once |
| Text.UpperIdempotent | src/components/ValidatorLogin.tsx:35 | upper-casing twice is upper-casing once |
| Text.TrimCommutesWithUpper | src/components/TicketValidator.tsx:42 | trimming and upper-casing can be done in either order |
| Tables.NothingOwnedAtZero | src/components/TicketGenerator.tsx:50 | a student whose counter is 0 owns no ticket, so skipping the `graduado` query then misses nothing |
| Tables.SingleGraduadoIffAny | src/components/TicketGenerator.tsx:52-59 | under the invariant, `.single()` on the `graduado` query returns a row exactly when the student owns a `graduado` ticket |
| TicketValidator.Validate | src/components/TicketValidator.tsx:26-113 | validation never touches students or validators and never adds or removes a ticket; it changes the ledger only with a `valid` result, after a successful update of a non-blank code |
| TicketValidator.ButtonClickNeverValidates | src/components/TicketValidator.tsx:26-27 | as written, a click on "Validar" throws before the lookup, even for a code that the Enter key would validate |
| TicketValidator.CodeArgAgreesWhereDefined | src/components/TicketValidator.tsx:26-27 | the corrected argument agrees with the original wherever the original does not throw, and makes the button validate the typed code like Enter |
| TicketValidator.BlankCodeRejected | src/components/TicketValidator.tsx:27-35 | an empty or all-space code is refused before any lookup and the ledger is unchanged |
| TicketValidator.LookupIgnoresPaddingAndCase | src/components/TicketValidator.tsx:27-42 | a padded or lower-case spelling of a code has the same lookup key as the bare upper-case code |
| TicketValidator.OutcomeDependsOnKeyOnly | src/components/TicketValidator.tsx:27-43 | two inputs with the same lookup key get the same result and the same new ledger |
| TicketValidator.LookupKeyIdempotent | src/components/TicketValidator.tsx:42 | the lookup key of a lookup key is itself |
| TicketValidator.OnlyCanonicalCodesFound | src/components/TicketValidator.tsx:39-43 | only a ticket whose stored code is already trimmed, upper-case and non-empty can ever be found |
| TicketValidator.UnknownCodeInvalid | src/components/TicketValidator.tsx:45-57 | an unknown code yields `invalid` and no ticket changes |
| TicketValidator.UsedTicketReported | src/components/TicketValidator.tsx:59-78 | a used ticket yields `used` with its original row, including its `used_at` and `validated_by`; the ledger is unchanged |
| TicketValidator.UnusedTicketConsumed | src/components/TicketValidator.tsx:80-113 | an unused ticket whose update succeeds becomes used, with `validated_by` set to the validator's code and `used_at` to the time; all its other fields and every other row are unchanged; the result is `valid` with the row as read |
| TicketValidator.FailedUpdateChangesNothing | src/components/TicketValidator.tsx:90-98 | when the update fails there is no `valid` result and the ledger is unchanged |
| TicketValidator.UsedIsFinal | src/components/TicketValidator.tsx:59-113 | no ticket is added or removed; a used ticket never changes; a changed row is the looked-up one, now used, and the result is `valid` |
| TicketValidator.SecondValidationReportsFirst | src/components/TicketValidator.tsx:59-88 | validating the same code twice in a row gives `valid`, then `used` naming the first validator and time; never `valid` twice |
| TicketValidator.ConsumeKeepsConsistent | src/components/TicketValidator.tsx:80-88 | marking an unused ticket used, with a time and a validator, keeps the ledger invariant |
| TicketValidator.ValidatePreservesConsistent | src/components/TicketValidator.tsx:80-88 | validation keeps the ledger invariant |
| TicketValidator.UsedTickets | src/components/TicketValidator.tsx:338 | every ticket kept by the "Usadas" filter is used |
| TicketValidator.AvailableTickets | src/components/TicketValidator.tsx:343 | every ticket kept by the "Disponibles" filter is unused |
| TicketValidator.UsedAndAvailablePartition | src/components/TicketValidator.tsx:333-343 | the two filters split the ticket list: as multisets they sum to it, so used plus available equals the total |
| TicketGenerator.NewTicket | src/components/TicketGenerator.tsx:71-79 | the inserted row carries the generated code, the student and the type; it is unused with no time or validator; guest and notes are the typed fields or null, never the empty string |
| TicketGenerator.PreviewGuestName | src/components/TicketGenerator.tsx:105 | the preview shows the guest name when one is set, else the student or "Entrada Familiar"; it is non-empty whenever the student name is |
| TicketGenerator.Generate | src/components/TicketGenerator.tsx:40-97 | generation never adds or removes a student |
| TicketGenerator.GenerateSucceedsIff | src/components/TicketGenerator.tsx:38-97 | under the invariant, a request succeeds exactly when quota remains, no `graduado` is owned when one is asked for, the generated code is free and the store accepts the row |
| TicketGenerator.LimitRefused | src/components/TicketGenerator.tsx:38-48 | at `tickets_generated >= max_tickets` generation is refused with no insert and no counter change |
| TicketGenerator.SecondGraduadoRefused | src/components/TicketGenerator.tsx:50-67 | a student who owns a `graduado` ticket gets no second one, although the query is skipped at counter 0; the ledger is unchanged |
| TicketGenerator.GeneratedTicketInserted | src/components/TicketGenerator.tsx:71-97 | a success inserts the student's unused ticket under the generated, previously free code; guest and notes are null exactly when their fields are empty; the counter grows by exactly 1 within the quota; remaining = max - generated; nothing else changes |
| TicketGenerator.FailureChangesNothing | src/components/TicketGenerator.tsx:82-88 | a refusal or a failed insert leaves the counter and the tickets as they were |
| TicketGenerator.ExistingTicketsKept | src/components/TicketGenerator.tsx:82-88 | no existing ticket is overwritten or removed |
| TicketGenerator.PreviewNamesSomeone | src/components/TicketGenerator.tsx:100-105 | the preview guest name is the typed guest, else the student on a `graduado` ticket, else "Entrada Familiar"; it is never empty |
| TicketGenerator.GeneratePreservesConsistent | src/components/TicketGenerator.tsx:38-97 | generation keeps the ledger invariant: quota, one counter per owned ticket, at most one `graduado` |
| TicketGenerator.CounterStep | src/components/TicketGenerator.tsx:90-97 | one call raises the counter by 1 exactly when it generates a ticket and leaves `max_tickets` unchanged |
| TicketGenerator.CounterCountsSuccesses | src/components/TicketGenerator.tsx:38-97 | after any run of requests the counter has grown by the number of tickets generated and is still at most `max_tickets` |
| StudentLogin.Register | src/components/StudentLogin.tsx:21-63 | registration never touches tickets or validators; a refusal changes nothing; a success adds exactly the new, previously free, non-empty name |
| StudentLogin.Login | src/components/StudentLogin.tsx:83-137 | a successful login returns the registered row whose hash is `btoa(password)`; it reports missing fields exactly when name or password is empty |
| StudentLogin.RegisterRefusals | src/components/StudentLogin.tsx:21-47 | an empty name or password, or a name already registered, is refused and the ledger is unchanged |
| StudentLogin.RegisterAddsOneAccount | src/components/StudentLogin.tsx:49-61 | a registration adds exactly one account, with `password_hash = btoa(password)` and counters 0 of 5, and changes nothing else |
| StudentLogin.LoginIff | src/components/StudentLogin.tsx:83-126 | login succeeds exactly when both fields are filled in, the name is registered and the stored hash equals `btoa(password)`; an unknown name fails; the row returned is the student's |
| StudentLogin.RegisterThenLogin | src/components/StudentLogin.tsx:50-112 | registering and then logging in with the same name and password succeeds |
| StudentLogin.RegisterThenWrongPassword | src/components/StudentLogin.tsx:111-119 | with an injective encoding, any other password is refused after registration |
| StudentLogin.RegisterPreservesConsistent | src/components/StudentLogin.tsx:49-61 | registration keeps the ledger invariant; the new account owns no ticket |
| ValidatorLogin.CodeField | src/components/ValidatorLogin.tsx:88 | the field's value has the typed text's length and is already upper-case; `FieldUppercaseHarmless` shows it logs in as the typed text does |
| ValidatorLogin.Login | src/components/ValidatorLogin.tsx:20-64 | access returns the active validator stored under the upper-cased code; a missing code is reported exactly when the field is empty |
| ValidatorLogin.AcceptedIff | src/components/ValidatorLogin.tsx:20-53 | access is granted exactly to an active validator whose code is the upper-cased input, and that validator is returned; an empty code is refused without a lookup |
| ValidatorLogin.InactiveLikeUnknown | src/components/ValidatorLogin.tsx:32-46 | an inactive validator is refused exactly as an unknown code is |
| ValidatorLogin.FieldUppercaseHarmless | src/components/ValidatorLogin.tsx:35-88 | the field upper-casing as the user types does not change the outcome |
| InMemoryLedger.Ledger.ValidateTicket | src/components/TicketValidator.tsx:26-113 | updates the tickets in place as `TicketValidator.Validate` says, keeps the invariant, and never changes a used ticket; the code validated comes from the corrected `TicketValidator.CodeArg`, so a button click validates the typed code instead of throwing, and every other path follows the code as written |
| InMemoryLedger.Ledger.GenerateTicket | src/components/TicketGenerator.tsx:40-97 | inserts and counts in place as `TicketGenerator.Generate` says, keeps the invariant, and never changes an existing ticket |
| InMemoryLedger.Ledger.Register | src/components/StudentLogin.tsx:21-63 | inserts the account in place as `StudentLogin.Register` says, keeps the invariant, and leaves the tickets alone |
| InMemoryLedger.ScanTwice | src/components/TicketValidator.tsx:59-88 | two scans of one unused code on the ledger object: `valid`, then `used` by the first validator at the first time |

## Findings

| source | as written | input that shows it | evidently intended | confidence | as-written member | corrected member |
|---|---|---|---|---|---|---|
| src/components/TicketValidator.tsx:27 | `(codeArg ?? searchCode).trim()`, while the "Validar" button at line 238 is `onClick={validateTicket}`. React passes the click event as `codeArg`. The event is not null, so `??` keeps it, and `.trim()` on it throws a TypeError before the `try`. | Type the code of an unused ticket and click "Validar". Nothing is validated; pressing Enter would validate it. | The button validates the code in the field, as Enter does. | high (not executed) | `TicketValidator.CodeArgAsWritten`, `TicketValidator.ButtonClickNeverValidates` | `TicketValidator.CodeArg`, `TicketValidator.CodeArgAgreesWhereDefined` |

## Left out

- The database client and the network: the tables are maps. A `.single()` on a unique key is a map lookup. On the `graduado` query, `.single()` is "exactly one match", and the invariant makes that "any match".
- Failed lookups: the source reports a failed ticket lookup as `invalid`, a failed name check at registration as "not registered", and a failed validator lookup as refused. The model's lookups always answer. Only the writes can fail, through `insertOk` and `updateOk`.
- The counter update after an insert (src/components/TicketGenerator.tsx:91-94): it writes a possibly stale value and its error is ignored. The model always applies it, so it does not capture a lost counter write.
- Concurrency: the consuming update is not conditional on `used = false`, and two generations can race past the quota check. The model covers calls made one after another.
- `generateTicketCode` (src/utils/ticketUtils) is not part of this model. It is a function parameter, and its code format is unspecified.
- `btoa` is a function parameter. Its Base64 alphabet and its error on characters outside Latin-1 are not modelled.
- Text.ToUpper: upper-cases the ASCII letters only; JavaScript's full Unicode case mapping (including mappings that change length) is not modelled.
- The validator code field's `maxLength={6}` is not modelled.
- Camera scanning and the 4-second reset timer are not modelled. Neither are toasts, status icons and colours, or how the detail text is formatted, such as the guest-name fallback shown on a validation result.
- The local session copy of the student (`student.tickets_generated += 1`) is not modelled separately: the model reads the student's row.
- The ticket preview image (src/components/TicketPreview.tsx) and the page glue (src/pages/Index.tsx) are not modelled. The glue covers session switching, tabs and reloading the ticket list.
- The `created_at` and `id` columns are assigned by the database and are not modelled.
