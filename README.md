# Medical attention: stock-checked encounters and appointment rules

This project models the core of the clinic's attention application:

- **Creating an encounter.** The doctor submits an encounter header (`Atencion`) with a formset of prescribed-medication lines (`DetalleAtencion`). Each line is checked against the medication stock. Then the header, the lines and the stock deductions are stored in one transaction, and an 'A' audit event is recorded.
- **Updating an encounter.** Changed lines draw only their extra units from the stock. Lines ticked for deletion give their quantity back. Rows that fail the checks are reported, but the rows that passed stay committed. A 'M' audit event is recorded only when no row failed.
- **Appointment rules.** The appointment validator (`CitaMedica.clean`) refuses a slot already taken, a Sunday, or a time outside 08:00 to 17:00.
- **Queries.** The small count and existence queries on appointments and encounters.

The project has four modules:

- `Wrappers` (`wrappers.dfy`) holds the optional values.
- `AttentionModels` (`attention_models.dfy`) holds the entities and the pure model rules.
- `StockRules` (`stock_rules.dfy`) gives a value-level specification of the two handlers:
  - the per-row checks and their messages;
  - the outcome of each submission;
  - the stock, lines and keys each one leaves behind;
  - lemmas about these.
- `AtencionViews` (`atencion_views.dfy`) holds the class `Clinic`. Its fields are the stored tables: the medication stock as an array, the encounters, the detail lines, the next free keys and the audit trail. Its methods are the two handlers, written as the loops the source runs. Each method is proved against the `StockRules` functions.

Encounter and line keys start at 1, as the database's automatic keys do, and `Clinic.Valid` keeps every stored key at 1 or more. The source's test `if instance.pk:` is therefore the same test as the model's `pk.Some?`: no stored line has the falsy key 0.

Formset rows are value snapshots taken before either loop starts:

- **Create** charges the medication object that the validation loop left in `medicamento`, which is the last row's medication. Each deduction lowers that same object, so the charges add up. A stock that would go below zero violates the positive-integer column and rolls the whole transaction back (`RolledBack`). The create handler has no `except`, so the rollback reaches the caller as an unhandled database error.
- **Update** writes `snapshot - delta` for each accepted row, and `snapshot + quantity` for each deletion. Two rows of one medication therefore do not add up: the last write wins. The extra units of a changed line are measured against its stored quantity and charged to the medication the form now names. So a line switched from one medication to another at the same quantity charges the new medication nothing and gives the old one nothing back.

## Model

| member | source | states |
|---|---|---|
| AttentionModels.Weekday | aplication/attention/models.py:82 | the weekday of a date is in 0..6 |
| AttentionModels.WeekdayCalendar | aplication/attention/models.py:82 | as `date.weekday()`: 1 January of year 1 is a Monday (0), 3 November 2024 a Sunday (6), and each next day is the next weekday, which fixes the weekday of every date |
| AttentionModels.SiguienteHora | aplication/attention/models.py:78 | the suggested time is the slot plus 30 minutes, wrapped past midnight |
| AttentionModels.CleanErrors | aplication/attention/models.py:69-88 | the date error is set iff the date is a Sunday; the time error is set iff another stored appointment holds the slot or the time is outside the window; outside the window the hours message replaces the conflict message, otherwise it is the conflict with the next slot suggested |
| AttentionModels.Clean | aplication/attention/models.py:67-91 | accepted iff no slot conflict, not Sunday and within hours; otherwise the ValidationError carries the non-empty error map |
| AttentionModels.OwnRowNeverConflicts | aplication/attention/models.py:72-75 | the appointment's own stored row (same id) never makes a conflict |
| AttentionModels.NewAppointmentConflictsWithAnyAtSlot | aplication/attention/models.py:72-80 | an unsaved appointment (no id) conflicts with every stored appointment at the same date and time |
| AttentionModels.SundayAlwaysRefused | aplication/attention/models.py:82-83 | a Sunday is refused with the closed-on-Sunday error, whatever the time or the other appointments |
| AttentionModels.OpeningWindowInclusive | aplication/attention/models.py:85-88 | 08:00 and 17:00 are both allowed, one second outside is not |
| AttentionModels.SuggestionWrapsPastMidnight | aplication/attention/models.py:78 | 23:45 suggests 00:15 |
| AttentionModels.DoubleBookingScenario | aplication/attention/models.py:67-91 | a first booking of a Monday slot is accepted and a second one is refused with 30 minutes later suggested |
| AttentionModels.CantidadDisponibleHoy | aplication/attention/models.py:62-65 | the count is at most the number of appointments, zero iff none is dated today, all iff every one is |
| AttentionModels.CantidadDisponibleHoyIgnoresEstado | aplication/attention/models.py:62-65 | the count depends on the dates only, not on state, patient or time |
| AttentionModels.CantidadDisponibleHoyAppend | aplication/attention/models.py:62-65 | counting two collections one after the other adds up |
| AttentionModels.Cantidad | aplication/attention/models.py:121-123 | the count of stored encounters is zero iff none is stored |
| AttentionModels.CantidadAfterSave | aplication/attention/models.py:121-123 | saving a new encounter raises `cantidad()` by one, saving an existing one leaves it |
| AttentionModels.TieneRelaciones | aplication/attention/models.py:125-126 | true iff some cost record, active or not, belongs to the encounter |
| StockRules.Collected | aplication/attention/views/atencion.py:60-71 | one message per offending row, empty iff no row offended |
| StockRules.CollectedInRowOrder | aplication/attention/views/atencion.py:60-71 | the messages of the rows before an offending row, then that row's own message, open the list |
| StockRules.CollectedHasEvery | aplication/attention/views/atencion.py:60-71 | every offending row's message is in the list |
| StockRules.CollectedFromRows | aplication/attention/views/atencion.py:60-71 | every message in the list is some row's message |
| StockRules.CreateRowError | aplication/attention/views/atencion.py:62-71 | no message iff the quantity is positive and within its medication's stock; the stock message iff the quantity exceeds the stock; a zero quantity gives the non-positive message |
| StockRules.CreateMessages | aplication/attention/views/atencion.py:60-71 | no messages iff every row passes; one message per bad row |
| StockRules.CreateMessagesNameRows | aplication/attention/views/atencion.py:60-71 | a row asking more than its medication holds puts that medication's stock message in the list, a zero row the non-positive message |
| StockRules.CreateMessagesInRowOrder | aplication/attention/views/atencion.py:60-71 | each bad row's message follows the messages of the rows before it |
| StockRules.CreateMessagesFromRows | aplication/attention/views/atencion.py:60-71 | every message is the message of a row that failed its check |
| StockRules.CreateResult | aplication/attention/views/atencion.py:54-91 | rejected iff some row fails its check, with the validation loop's messages, one per failing row; created iff no row fails and the last row's medication covers all the units; created carries the new id |
| StockRules.CreateStock | aplication/attention/views/atencion.py:80-86 | only the last row's medication changes, lowered by the total units of all rows |
| StockRules.RequestedPrefix | aplication/attention/views/atencion.py:81-84 | the units of a prefix of the rows are at most the units of all rows |
| StockRules.NewDetailsShape | aplication/attention/views/atencion.py:81-86 | the new lines use exactly the keys base..base+n-1, row i's line under base+i with its medication and quantity |
| StockRules.NewDetailsFit | aplication/attention/views/atencion.py:81-86 | every new line belongs to the new encounter and names a known medication |
| StockRules.StockScenario | aplication/attention/views/atencion.py:54-91 | 5 of 10 units are granted and leave 5; 6 more are refused with the stock message |
| StockRules.ChecksAreNotCumulative | aplication/attention/views/atencion.py:60-86 | two rows of 3 against a stock of 5 both pass the per-row checks, and the transaction rolls back |
| StockRules.ChargeEach | aplication/attention/views/atencion.py:80-86 | corrected create: each medication ends at its stock minus the units the rows ask of it |
| StockRules.UnitsOfOneMedication | aplication/attention/views/atencion.py:80-86 | rows that all name one medication ask all their units of it and none of any other |
| StockRules.IntendedCreateResult | aplication/attention/views/atencion.py:54-91 | corrected create: rejected iff some row fails its check, with the validation loop's messages; created iff every row passes and each medication covers its own units |
| StockRules.OneMedicationCreateAsIntended | aplication/attention/views/atencion.py:80-86 | when every row names the same medication the code as written and the corrected create agree, outcome and stock |
| StockRules.CreateChargesLastMedicationOnly | aplication/attention/views/atencion.py:83 | as written, 4 units of medication 0 and 3 of medication 1 against [10, 10] leave [10, 3]; the corrected create leaves [6, 7] |
| StockRules.CreateRollsBackServableRequest | aplication/attention/views/atencion.py:83 | as written, 1 unit of medication 0 and 2 of medication 1 against [10, 2] roll back, although the stock covers each row |
| StockRules.UpdateRowError | aplication/attention/views/atencion.py:183-200 | no message iff the extra units are within the snapshot stock and the quantity is positive; the stock message iff the extra units exceed the stock; otherwise a zero quantity gives the non-positive message |
| StockRules.UpdateMessages | aplication/attention/views/atencion.py:180-200 | no messages iff every row passes; one message per rejected row |
| StockRules.UpdateMessagesNameRows | aplication/attention/views/atencion.py:180-200 | a row drawing more extra units than its medication holds puts that medication's stock message in the list, a zero row the non-positive message |
| StockRules.UpdateMessagesInRowOrder | aplication/attention/views/atencion.py:180-200 | each rejected row's message follows the messages of the rows before it |
| StockRules.UpdateMessagesFromRows | aplication/attention/views/atencion.py:180-200 | every message is the message of a rejected row |
| StockRules.UpdateResult | aplication/attention/views/atencion.py:216-223 | 'M' is recorded iff every row passes; otherwise the row loop's messages, one per rejected row |
| StockRules.ApplyRow | aplication/attention/views/atencion.py:181-206 | a rejected row changes nothing; an accepted row sets its medication's stock to the snapshot minus its extra units and leaves every other medication's stock as it was |
| StockRules.ApplyRows | aplication/attention/views/atencion.py:180-206 | the row loop keeps every stored key and keeps keys below the next free key |
| StockRules.ApplyRowsStockUntouched | aplication/attention/views/atencion.py:193-206 | a medication no accepted row names keeps its stock |
| StockRules.ApplyRowsStockLastWrite | aplication/attention/views/atencion.py:203-205 | the last accepted row of a medication decides its stock: snapshot minus that row's extra units |
| StockRules.ApplyRowsDetails | aplication/attention/views/atencion.py:181-206 | a stored line no accepted row edits is kept, and an accepted row's line holds the row's medication and quantity |
| StockRules.NewAccepted | aplication/attention/views/atencion.py:186-206 | the number of accepted new rows is at most the number of rows |
| StockRules.ApplyRowsKeys | aplication/attention/views/atencion.py:186-206 | after the row loop the next free key has grown by the number of accepted new rows, and the keys are the stored ones plus exactly those fresh keys, so a rejected new row stores nothing |
| StockRules.ApplyRowsNewLine | aplication/attention/views/atencion.py:186-206 | an accepted new row's line, with the row's medication and quantity, is stored under the first fresh key no earlier accepted new row took |
| StockRules.ApplyRowKeepsOtherLine | aplication/attention/views/atencion.py:203-206 | a row writes at most one line: its own key, or the next free key when it is new |
| StockRules.ApplyRowsLastNewLine | aplication/attention/views/atencion.py:186-206 | an accepted new last row's line is stored under the key after those of the earlier accepted new rows |
| StockRules.PendingLineUnchanged | aplication/attention/views/atencion.py:183-185 | the original quantity read for a row equals the one stored before the loop, since no earlier row edits that line |
| StockRules.ApplyDeletions | aplication/attention/views/atencion.py:209-213 | every deleted line is removed, the others are kept as they were |
| StockRules.ApplyDeletionsStockUntouched | aplication/attention/views/atencion.py:209-213 | a medication no deleted line names keeps its stock |
| StockRules.ApplyDeletionsStockLastWrite | aplication/attention/views/atencion.py:209-212 | the last deleted line of a medication decides its stock: snapshot plus that line's quantity |
| StockRules.UpdateStockSingleWriter | aplication/attention/views/atencion.py:180-213 | with one writer per medication the update is a ledger: untouched stock stays, a lone accepted row takes its extra units, a lone deletion gives its quantity back |
| StockRules.UpdateSameMedicationLastWriteWins | aplication/attention/views/atencion.py:203-212 | two new rows of 2 and 3 against 10 leave 7, and a deletion writes over an accepted row's charge |
| StockRules.UpdateCommitsAcceptedRowsDespiteErrors | aplication/attention/views/atencion.py:171-219 | a row accepted for one medication stays committed, charge and line, although a later row for another medication is rejected |
| StockRules.UpdateReportsRefusedRow | aplication/attention/views/atencion.py:193-219 | that submission answers with the stock message of the refused row |
| AtencionViews.Clinic.CreateAtencion | aplication/attention/views/atencion.py:50-93 | the outcome is `CreateResult`; when created the stock is `CreateStock`, the header, the lines `NewDetails` and the 'A' audit event are stored and `cantidad()` rises by one; otherwise nothing changes |
| AtencionViews.Clinic.ValidateRows | aplication/attention/views/atencion.py:60-71 | the loop collects exactly `CreateMessages` |
| AtencionViews.Clinic.SaveAndCharge | aplication/attention/views/atencion.py:80-86 | commits iff `CreateCommits`, leaving the created state; otherwise everything is rolled back |
| AtencionViews.Clinic.SaveLines | aplication/attention/views/atencion.py:81-86 | succeeds iff the charged medication covers all units; only that medication's stock changes; the lines are stored under consecutive keys |
| AtencionViews.Clinic.CreateAtencionIntended | aplication/attention/views/atencion.py:50-93 | corrected create: the outcome is `IntendedCreateResult` and the stock is `ChargeEach` |
| AtencionViews.Clinic.ChargeEachRow | aplication/attention/views/atencion.py:80-86 | corrected deduction: succeeds iff each medication covers its units, leaving `ChargeEach`; otherwise the stock is restored |
| AtencionViews.Clinic.SaveHeaderAndLines | aplication/attention/views/atencion.py:81-86 | stores the header under the next id and the lines `NewDetails` |
| AtencionViews.Clinic.SaveNewLines | aplication/attention/views/atencion.py:82-86 | stores the lines `NewDetails` under consecutive keys |
| AtencionViews.Clinic.UpdateAtencion | aplication/attention/views/atencion.py:166-230 | the header is saved; stock, lines and keys become `UpdateTables` even when rows are rejected; the outcome is `UpdateResult`, and 'M' is audited only on success |
| AtencionViews.Clinic.SaveRows | aplication/attention/views/atencion.py:180-206 | the row loop leaves `ApplyRows` and collects `UpdateMessages` |
| AtencionViews.Clinic.SaveRow | aplication/attention/views/atencion.py:181-206 | one row: its message is `UpdateRowError`, and the tables advance by `ApplyRow` |
| AtencionViews.Clinic.StoreLine | aplication/attention/views/atencion.py:205-206 | saving a line writes over its stored key, or stores it under the next key and advances that key; every key stays at 1 or more |
| AtencionViews.Clinic.ReturnDeleted | aplication/attention/views/atencion.py:209-213 | the deletion loop leaves `ApplyDeletions` |

## Left out

- HTTP requests, templates, redirects, message texts and the ORM. Medications and encounters are ids, stored rows are maps and sequences, and a message names only its medication.
- `save_audit` is modelled as appending an event (encounter, action). The user, the host and the timestamps are left out.
- "Now" for `cantidad_disponible_hoy` is a parameter. A time of day is whole seconds, so microseconds are left out.
- Concurrency and isolation between requests are left out. Each handler runs alone on the tables.
- The create rollback assumes the stock column refuses negative values, as a positive-integer column does. The model has no other database errors.
- The exception handler of the update, `aplication/attention/views/atencion.py:225-227`, is not modelled. No modelled step raises an exception, because the update never writes a negative stock.
- AtencionViews.Clinic.UpdateAtencion: requires that the formset gives at most one row per saved line (`DistinctPks`) and that every row's stored key exists. The formset guarantees both, so invalid formsets (lines 228-230) are not modelled.
- Update on one medication named by several rows is modelled as written: each accepted row and each deleted line writes back its own pre-submission copy, so the last write wins (`UpdateSameMedicationLastWriteWins`). The model has no corrected, cumulative update, because the source does not settle whether the checks of later rows should see the earlier rows' charges.
- The other handlers of the application are not part of this model: the list, detail and delete views, the other CRUD views, the dashboard and the launcher scripts.
- As in the code, neither handler checks for a medication repeated across rows, and neither requires at least one row. With no rows, create stores the header alone.

## Findings

| source | as written | input that shows it | evidently intended | confidence | as-written member | corrected member |
|---|---|---|---|---|---|---|
| aplication/attention/views/atencion.py:83 | the deduction loop subtracts every row's quantity from `medicamento`, the last row's medication left over from the validation loop | stock [10, 10] with rows (medication 0, 4 units) and (medication 1, 3 units): the result is [10, 3] instead of [6, 7]; stock [10, 2] with rows (0, 1) and (1, 2) rolls back although each row is covered | each row's quantity is deducted from its own medication, cumulatively when rows share a medication | not executed | StockRules.CreateChargesLastMedicationOnly | AtencionViews.Clinic.CreateAtencionIntended |
