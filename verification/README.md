# Appointment scheduling of the salon back office, in Dafny

This project models the appointment ("cita") rules of a Flask back office for a service business. The business books clients with employees for services, edits those bookings, and finalizes them into sales. The database tables are replaced by an in-memory store:

- `Scheduling` (scheduling.dfy) holds the rows and the pure rules:
  - the rows are clients, services, active appointments (`citas`), history rows (`citas_historial`) and sales (`ventas`);
  - the rules are the half-open overlap test, the conflict queries, and one step function per handler (`Create`, `Update`, `Finalize`);
  - it also proves the lemmas about those rules.
- `Tables.Store` (store.dfy) is a class whose fields are the tables. It has one method per handler (`agregar_cita`, `actualizar_cita`, `finalizar_cita`). Each method changes the fields step by step, in the handler's order, and is proved to end in the state and outcome given by the matching step function.
- `Forms` (forms.dfy) models two checks on form input:
  - the 10-digit phone check of the sign-up form;
  - the choice of the sales filter from `filtro` and `valor_filtro`, with Python's `str.split` modelled exactly.
- `Wrappers` (wrappers.dfy) defines `Option` and `Result`.

Modelling choices:

- A table is a sequence of rows in insertion order. A query read with `fetchone` returns the first matching row.
- Ids are auto-increment counters. `Wf` states what the keys guarantee: client and appointment ids strictly increase in table order and stay below the next id, and service ids are unique.
- Times are minutes. Python's `strptime("%H:%M")` puts every time on one fixed day, so an end time past midnight is just a larger number.
- Dates are day numbers. The rules only ever compare them for equality.

Behaviour of the code that the model keeps:

- **Create.** The client is resolved by (name, phone) or inserted, and that insert is committed at once, so a new client persists even when the booking is then refused. The checks then run in this order:
  - the client's exact date and time, whatever the employee;
  - the service lookup, where a missing service ends the handler with an error;
  - a scan of the employee's appointments on that date. The scan uses `new.start < ex.start + ex.dur && new.start + new.dur > ex.start`, so touching intervals are accepted. The query joins with the services, so an appointment whose service no longer exists is not in the scan.
- **Update.** The edited row is excluded. The edit is refused only when another appointment has the same client, or the same employee, at exactly the same date and start time. Overlapping but different times are accepted. `UpdateAllowsOverlap` shows that an edit can therefore break the employees' disjointness that bookings keep. An update of an id with no row changes nothing and reports success, as the handler does.
- **Finalize.** Three writes, in order:
  - a sale priced at the service's price at finalize time, dated with the appointment's date;
  - a history copy with status `finalizada`;
  - the deletion of the appointment.

  A missing appointment or a missing service stops the handler at its lookup, before any write.
- **Statuses and update checks.** The history status is `finalizada`. The update path checks exact start times for both the client and the employee, not interval overlap.

## Model

| member | source | states |
|---|---|---|
| Scheduling.FirstIndex | app.py:368-372 | a one-row lookup returns the position of the first row that matches, and none exactly when no row matches |
| Scheduling.DurationOf | app.py:405-409 | a duration is found exactly when a service with that id exists, and it is the duration of the first service with that id |
| Scheduling.Overlaps | app.py:430 | intervals that only touch (one starts where the other ends) do not overlap |
| Scheduling.ScanOverlap | app.py:426-437 | the loop over the employee's appointments reports a clash exactly when one of them overlaps the new interval |
| Scheduling.EmployeeDay | app.py:417-424 | the employee-and-date query joined with services returns at most one slot per appointment |
| Scheduling.EmployeeDaySlots | app.py:417-424 | a (start, duration) slot is returned exactly when some appointment of that employee on that date starts then and its service exists with that duration |
| Scheduling.EmployeeDayClash | app.py:417-430 | scanning the employee-and-date query joined with services finds a clash exactly when the table holds an overlapping appointment of that employee on that date whose service exists |
| Scheduling.Without | app.py:578 | deleting by id leaves no row with that id and never adds rows |
| Scheduling.WithoutMembers | app.py:505-508 | excluding an id keeps exactly the rows with another id |
| Scheduling.ResolveClient | app.py:368-382 | when a client with that name and phone exists, the first such client's id is used and nothing changes; otherwise a client with the next id is appended, the next id advances, and no other table changes |
| Scheduling.ResolveFrame | app.py:368-382 | resolving the client changes only the clients table and keeps the ids well formed |
| Scheduling.Create | app.py:368-451 | a booking leaves services, history and sales unchanged, adds at most one client, and adds one appointment exactly when it is booked |
| Scheduling.CreateResolvesClient | app.py:368-382 | whatever the booking's outcome, a client matching (name, phone) is reused and the clients table stays as it was; otherwise exactly one client with the next id is added; a booked appointment carries the first match's id, or the new client's id |
| Scheduling.CreateBooksIff | app.py:387-447 | a booking is made exactly when the client has no appointment at that date and time, the service exists, and no same-date appointment of the employee overlaps |
| Scheduling.CreateRejectsOverlap | app.py:411-437 | an existing same-employee, same-date appointment overlapping the new interval, half-open, prevents the booking and leaves the appointments as they were; when the client's own slot is free, the refusal is the employee overlap |
| Scheduling.CreateOutcomeIff | app.py:387-437 | the refusal is client double-booked exactly when the client holds that date and time; service missing exactly when the client check passes and no service has the id; employee overlap exactly when both pass and a same-date appointment of the employee overlaps |
| Scheduling.CreateRejectsClientDouble | app.py:387-400 | a client with an appointment at the same date and time is refused as double-booked, whatever the employee, and no appointment is added |
| Scheduling.CreateBookedEffect | app.py:442-447 | a successful booking appends one appointment with the next id and the given client, employee, service, date and time; services, history and sales are unchanged |
| Scheduling.CreateRejectedEffect | app.py:393-437 | a refused booking leaves appointments, history and sales unchanged |
| Scheduling.CreateKeepsWf | app.py:377-382 | the inserted client and appointment keep ids increasing and below the next id |
| Scheduling.CreateKeepsInv | app.py:387-447 | every booking, accepted or not, keeps employee intervals disjoint and client slots distinct |
| Scheduling.CreateAllKeepsInv | app.py:387-447 | any sequence of bookings keeps both invariants |
| Scheduling.BookingsFromEmptyKeepInv | app.py:387-447 | from empty tables, after any sequence of bookings no two appointments of one employee on one date overlap and no client has two at the same date and time |
| Scheduling.Overwrite | app.py:527-531 | the rows keep their number, order and ids; rows with another id are untouched and rows with the edited id carry the request's client, employee, service, date and time; with one such row the result is the table with that row replaced, and with none it is the table itself |
| Scheduling.Update | app.py:504-537 | an edit never changes clients, services, history, sales, either next id or the number of appointments, and a refused edit changes nothing |
| Scheduling.UpdateRejectsIff | app.py:504-524 | an edit is refused exactly when another appointment (different id) has the same client or the same employee at exactly that date and time; a refused edit changes nothing; the refusal is client taken exactly when another appointment has that client there, and employee taken exactly when none has the client but another has the employee there |
| Scheduling.UpdateEffect | app.py:526-531 | a successful edit replaces only the edited row's client, service, employee, date and time; every other row, every other table and both next ids are unchanged |
| Scheduling.UpdateKeepsWf | app.py:527-531 | an edit keeps the keys well formed |
| Scheduling.UpdateKeepsClientSlotsDistinct | app.py:504-531 | an edit keeps clients free of two appointments at the same date and time |
| Scheduling.UpdateAllowsOverlap | app.py:515-524 | the employee check compares start times only, so an accepted edit can make two appointments of one employee overlap |
| Scheduling.WithoutUnique | app.py:578 | deleting a unique id removes exactly that row and keeps the others in order |
| Scheduling.Finalize | app.py:548-584 | finalizing never changes clients, services or either next id; it adds one sale exactly when it succeeds, and then one history row too, without adding appointments; a failure changes nothing |
| Scheduling.FinalizeEffect | app.py:548-579 | finalizing adds one sale at the service's current price on the appointment's date and one `finalizada` history copy of client, employee, service, date and time; it removes that appointment only, and every other table and both next ids are unchanged |
| Scheduling.FinalizeMissing | app.py:548-556 | an id with no appointment fails at the lookup and the tables are unchanged |
| Scheduling.FinalizeServiceMissing | app.py:550-556 | an existing appointment whose service no longer exists fails at the price lookup, and the tables are unchanged |
| Scheduling.FinalizeKeepsWf | app.py:578 | removing the appointment keeps ids increasing |
| Scheduling.FinalizeKeepsInv | app.py:578 | removing the appointment keeps both scheduling invariants |
| Tables.Store.AddAppointment | app.py:368-447 | the step-by-step handler ends in the state and outcome of `Create`, keeps the keys and the two invariants, and never touches services, history or sales |
| Tables.Store.UpdateAppointment | app.py:504-531 | the handler ends in the state and outcome of `Update`, keeps client slots distinct, and only the appointments may change |
| Tables.Store.FinalizeAppointment | app.py:548-579 | the handler ends in the state and outcome of `Finalize`, keeps the keys and the two invariants, and leaves clients and services unchanged |
| Forms.AllDigits | app.py:93 | true exactly when every character is an ASCII digit |
| Forms.ValidPhone | app.py:93 | the sign-up phone is accepted exactly when it has ten characters, all ASCII digits |
| Forms.Split | app.py:614 | `str.split` with a separator always returns at least one part |
| Forms.SplitAtLeftmost | app.py:614 | the first part ends at the leftmost occurrence of the separator, and the other parts are the split of what follows it |
| Forms.SplitWithout | app.py:614 | a value without the separator splits into itself alone |
| Forms.JoinSplit | app.py:614 | joining the parts of `str.split` with the separator gives back the original value |
| Forms.SplitPartsFree | app.py:618 | no part of a split contains the separator |
| Forms.SplitPair | app.py:614 | unpacking into two names succeeds exactly when the split gives two parts, and then the value is first part, separator, second part |
| Forms.FilterName | app.py:594 | the filter name is "dia" when the field is absent, and the field's value otherwise |
| Forms.ChooseSalesFilter | app.py:594-625 | the filter is today's exactly when there is no value (absent or empty); with a value, "dia" filters on that day and "ano" on that year; "semana" and "mes" fail exactly when the value does not split into two parts on "-W" or "-", and otherwise filter on those two parts; an unknown filter name gives no filter |

## Left out

- Flask routing, templates, messages, redirects and the 404/500 handlers: presentation only. Each refusal is an outcome value. Each Python exception that would end a handler with a 500 page is an error outcome too: the missing service in create, the missing appointment or service in finalize, and a bad unpacking in the sales filter.
- Login, sessions, password hashing, and the rest of sign-up: these run in external libraries. The sign-up rest is the master-password check, the `usuarios` and `empleados` inserts, and the photo upload with `uuid` file names.
- The read-only pages (`index`, `/api/dashboard`, `empleados`, `clientes`, `citas`, the GET of `editar_cita`) and the sales list and total: these are SQL evaluation (COUNT, SUM, YEARWEEK, GROUP BY, joins for display). Of the sales page only the filter choice is modelled.
- Parsing with `strptime` and `strftime`. Times are minutes and dates are day numbers. A malformed time or date string, which would raise in Python, is not modelled.
- The `empleados` table: employee ids are plain numbers, and the handlers never look them up. Foreign-key constraints of the database are not visible. So update accepts any client, service and employee id, and create fails only on a missing service.
- Client names and phones are compared by exact equality. The database's collation, which may be case- or accent-insensitive, is not visible.
- Row order of queries without ORDER BY is taken to be insertion order. Only which matching client is reused depends on it.
- Concurrency and atomicity: each handler runs alone. A crash between finalize's three committed writes is not modelled; only the lookup failures before the first write are.
- Service durations are taken as whole, non-negative minutes that are never NULL. The column type is not visible; a negative duration would be accepted by `timedelta` and a NULL would raise.
- Prices are integers (the column's decimal type is not modelled). The ids of sales and history rows are not modelled, since nothing in the core reads them.
- Scheduling.FinalizeEffect: the history row is copied from the first row with the id. SQL copies every row with that id, and `Wf` makes that one row.
- Forms.ValidPhone: Python's `isdigit` also accepts non-ASCII digits; the model accepts only `0` to `9`.
