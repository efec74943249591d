/**
 * The appointment ("cita") rules of the salon back office, over an in-memory
 * copy of its tables. Every table is a sequence of rows in insertion order;
 * a query that reads one row (`fetchone`) returns the first row that matches.
 *
 * Times are minutes after midnight of one fixed day: an end time past
 * midnight is simply a larger number. Dates are day numbers that the rules
 * only ever compare for equality.
 */
module Scheduling {
  import opened Wrappers

  type ClientId = nat
  type EmployeeId = nat
  type ServiceId = nat
  type CitaId = nat
  type Date = nat
  type Minute = nat

  datatype Client = Client(id: ClientId, name: string, phone: string)
  datatype Service = Service(id: ServiceId, name: string, duration: nat, price: int)
  /** An active appointment (table `citas`). */
  datatype Cita = Cita(id: CitaId, client: ClientId, employee: EmployeeId, service: ServiceId,
                       date: Date, start: Minute)
  /** A row of `citas_historial`. */
  datatype HistoryRow = HistoryRow(client: ClientId, employee: EmployeeId, service: ServiceId,
                                   date: Date, start: Minute, status: string)
  /** A row of `ventas`. */
  datatype Sale = Sale(client: ClientId, employee: EmployeeId, service: ServiceId, date: Date, total: int)

  /** The tables the scheduling rules read and write, with the next auto-increment ids. */
  datatype Db = Db(clients: seq<Client>, nextClient: ClientId, services: seq<Service>,
                   citas: seq<Cita>, nextCita: CitaId, history: seq<HistoryRow>, sales: seq<Sale>)

  /** The status written into the history row of a finalized appointment. */
  const Finalizada: string := "finalizada"

  /** The tables before any client, appointment, history row or sale exists. */
  function Empty(catalog: seq<Service>): Db
  {
    Db([], 1, catalog, [], 1, [], [])
  }

  // ---------------------------------------------------------------------------
  // Queries
  // ---------------------------------------------------------------------------

  /** The position of the first row satisfying `p`: what `fetchone` returns. */
  function FirstIndex<T>(rows: seq<T>, p: T -> bool): (r: Option<nat>)
    ensures r.Some? ==> r.value < |rows| && p(rows[r.value])
    ensures r.Some? ==> forall k :: 0 <= k < r.value ==> !p(rows[k])
    ensures r.None? <==> forall k :: 0 <= k < |rows| ==> !p(rows[k])
    decreases |rows|
  {
    if |rows| == 0 then None
    else if p(rows[0]) then Some(0)
    else
      match FirstIndex(rows[1..], p)
      case None => None
      case Some(k) => Some(k + 1)
  }

  /** The client row matches `WHERE nombre = name AND telefono = phone`. */
  predicate SameClient(c: Client, name: string, phone: string)
  {
    c.name == name && c.phone == phone
  }

  function ClientIndex(clients: seq<Client>, name: string, phone: string): Option<nat>
  {
    FirstIndex(clients, (c: Client) => SameClient(c, name, phone))
  }

  function ServiceIndex(services: seq<Service>, id: ServiceId): Option<nat>
  {
    FirstIndex(services, (s: Service) => s.id == id)
  }

  function CitaIndex(citas: seq<Cita>, id: CitaId): Option<nat>
  {
    FirstIndex(citas, (c: Cita) => c.id == id)
  }

  /** The duration of a service, if the service exists: `duracion` of the first row with that id. */
  function DurationOf(services: seq<Service>, id: ServiceId): (r: Option<nat>)
    ensures r.Some? <==> exists k :: 0 <= k < |services| && services[k].id == id
    ensures r.Some? ==> exists k :: (0 <= k < |services| && services[k].id == id &&
      (forall j :: 0 <= j < k ==> services[j].id != id) && services[k].duration == r.value)
  {
    match ServiceIndex(services, id)
    case None => None
    case Some(k) => Some(services[k].duration)
  }

  /** The rows whose id differs from `id` (`DELETE ... WHERE id = ...`, or `AND id != ...`). */
  function Without(citas: seq<Cita>, id: CitaId): (r: seq<Cita>)
    ensures |r| <= |citas|
    ensures forall i :: 0 <= i < |r| ==> r[i].id != id
    decreases |citas|
  {
    if |citas| == 0 then []
    else if citas[0].id == id then Without(citas[1..], id)
    else [citas[0]] + Without(citas[1..], id)
  }

  /** The rows left are exactly the rows with another id. */
  lemma {:induction false} WithoutMembers(citas: seq<Cita>, id: CitaId)
    ensures forall c :: c in Without(citas, id) <==> c in citas && c.id != id
    decreases |citas|
  {
    if |citas| > 0 {
      WithoutMembers(citas[1..], id);
      assert citas == [citas[0]] + citas[1..];
    }
  }

  // ---------------------------------------------------------------------------
  // Conflict rules
  // ---------------------------------------------------------------------------

  /**
   * The new interval starts before the other one ends and ends after the
   * other one starts: for positive durations, the half-open intervals
   * [start, start + dur) and [otherStart, otherStart + otherDur) share a
   * minute. Intervals that only touch do not overlap.
   */
  function Overlaps(start: Minute, dur: nat, otherStart: Minute, otherDur: nat): (r: bool)
    ensures start == otherStart + otherDur || start + dur == otherStart ==> !r
  {
    start < otherStart + otherDur && start + dur > otherStart
  }

  /** The client already has an appointment at exactly this date and time. */
  predicate ClientBusy(citas: seq<Cita>, client: ClientId, date: Date, start: Minute)
  {
    exists c :: c in citas && c.client == client && c.date == date && c.start == start
  }

  /** The employee already has an appointment starting at exactly this date and time. */
  predicate EmployeeAt(citas: seq<Cita>, employee: EmployeeId, date: Date, start: Minute)
  {
    exists c :: c in citas && c.employee == employee && c.date == date && c.start == start
  }

  /**
   * Some appointment of the employee on that date, whose service still exists,
   * overlaps [start, start + dur).
   */
  predicate EmployeeBusy(citas: seq<Cita>, services: seq<Service>, employee: EmployeeId,
                         date: Date, start: Minute, dur: nat)
  {
    exists c :: c in citas && c.employee == employee && c.date == date &&
      DurationOf(services, c.service).Some? &&
      Overlaps(start, dur, c.start, DurationOf(services, c.service).value)
  }

  /** A (start, duration) pair as the employee query returns it. */
  datatype Slot = Slot(start: Minute, duration: nat)

  /**
   * The employee's appointments on one date joined with their services
   * (an appointment whose service is missing drops out of the join).
   */
  function EmployeeDay(citas: seq<Cita>, services: seq<Service>, employee: EmployeeId, date: Date): (slots: seq<Slot>)
    ensures |slots| <= |citas|
    decreases |citas|
  {
    if |citas| == 0 then []
    else
      var c := citas[0];
      var rest := EmployeeDay(citas[1..], services, employee, date);
      if c.employee == employee && c.date == date && DurationOf(services, c.service).Some?
      then [Slot(c.start, DurationOf(services, c.service).value)] + rest
      else rest
  }

  /** The row of `citas` that the join turns into slot `s`. */
  predicate JoinsTo(c: Cita, services: seq<Service>, employee: EmployeeId, date: Date, s: Slot)
  {
    c.employee == employee && c.date == date && DurationOf(services, c.service) == Some(s.duration) &&
    c.start == s.start
  }

  /** The slots are exactly the joined rows of that employee and date. */
  lemma {:induction false} EmployeeDaySlots(citas: seq<Cita>, services: seq<Service>, employee: EmployeeId,
                                            date: Date, s: Slot)
    ensures s in EmployeeDay(citas, services, employee, date) <==>
      exists c :: c in citas && JoinsTo(c, services, employee, date, s)
    decreases |citas|
  {
    if |citas| > 0 {
      var c := citas[0];
      var rest := EmployeeDay(citas[1..], services, employee, date);
      EmployeeDaySlots(citas[1..], services, employee, date, s);
      assert citas == [c] + citas[1..];
      if c.employee == employee && c.date == date && DurationOf(services, c.service).Some? {
        var here := Slot(c.start, DurationOf(services, c.service).value);
        assert EmployeeDay(citas, services, employee, date) == [here] + rest;
        assert JoinsTo(c, services, employee, date, s) <==> s == here;
      } else {
        assert EmployeeDay(citas, services, employee, date) == rest;
        assert !JoinsTo(c, services, employee, date, s);
      }
      if exists d :: d in citas && JoinsTo(d, services, employee, date, s) {
        var d :| d in citas && JoinsTo(d, services, employee, date, s);
        if d != c {
          assert d in citas[1..];
        }
      }
    }
  }

  predicate ClashesWith(slots: seq<Slot>, start: Minute, dur: nat)
  {
    exists k :: 0 <= k < |slots| && Overlaps(start, dur, slots[k].start, slots[k].duration)
  }

  /** The scan over the employee's appointments of that date, stopping at the first overlap. */
  method ScanOverlap(slots: seq<Slot>, start: Minute, dur: nat) returns (clash: bool)
    ensures clash <==> ClashesWith(slots, start, dur)
  {
    var finish := start + dur;
    for k := 0 to |slots|
      invariant forall j :: 0 <= j < k ==> !Overlaps(start, dur, slots[j].start, slots[j].duration)
    {
      var s := slots[k];
      if start < s.start + s.duration && finish > s.start {
        return true;
      }
    }
    return false;
  }

  /** Scanning the joined query result finds a clash exactly when the table holds one. */
  lemma EmployeeDayClash(citas: seq<Cita>, services: seq<Service>, employee: EmployeeId,
                         date: Date, start: Minute, dur: nat)
    ensures ClashesWith(EmployeeDay(citas, services, employee, date), start, dur)
            <==> EmployeeBusy(citas, services, employee, date, start, dur)
  {
    if ClashesWith(EmployeeDay(citas, services, employee, date), start, dur) {
      DayClashSound(citas, services, employee, date, start, dur);
    }
    if EmployeeBusy(citas, services, employee, date, start, dur) {
      DayClashComplete(citas, services, employee, date, start, dur);
    }
  }

  lemma {:induction false} DayClashSound(citas: seq<Cita>, services: seq<Service>, employee: EmployeeId,
                                         date: Date, start: Minute, dur: nat)
    requires ClashesWith(EmployeeDay(citas, services, employee, date), start, dur)
    ensures EmployeeBusy(citas, services, employee, date, start, dur)
  {
    var c := citas[0];
    var rest := EmployeeDay(citas[1..], services, employee, date);
    var k :| 0 <= k < |EmployeeDay(citas, services, employee, date)| &&
      Overlaps(start, dur, EmployeeDay(citas, services, employee, date)[k].start,
               EmployeeDay(citas, services, employee, date)[k].duration);
    if c.employee == employee && c.date == date && DurationOf(services, c.service).Some? {
      if k == 0 {
        assert c in citas;
      } else {
        assert Overlaps(start, dur, rest[k - 1].start, rest[k - 1].duration);
        DayClashSound(citas[1..], services, employee, date, start, dur);
        TailBusy(citas, services, employee, date, start, dur);
      }
    } else {
      assert Overlaps(start, dur, rest[k].start, rest[k].duration);
      DayClashSound(citas[1..], services, employee, date, start, dur);
      TailBusy(citas, services, employee, date, start, dur);
    }
  }

  lemma {:induction false} DayClashComplete(citas: seq<Cita>, services: seq<Service>, employee: EmployeeId,
                                            date: Date, start: Minute, dur: nat)
    requires EmployeeBusy(citas, services, employee, date, start, dur)
    ensures ClashesWith(EmployeeDay(citas, services, employee, date), start, dur)
  {
    var c := citas[0];
    var rest := EmployeeDay(citas[1..], services, employee, date);
    var d :| d in citas && d.employee == employee && d.date == date &&
      DurationOf(services, d.service).Some? &&
      Overlaps(start, dur, d.start, DurationOf(services, d.service).value);
    if d == c {
      assert EmployeeDay(citas, services, employee, date)[0] == Slot(c.start, DurationOf(services, c.service).value);
    } else {
      var i :| 0 <= i < |citas| && citas[i] == d;
      assert citas[1..][i - 1] == d;
      DayClashComplete(citas[1..], services, employee, date, start, dur);
      ClashFromTail(citas, services, employee, date, start, dur);
    }
  }

  /** A clash among the tail's slots is a clash among all the slots. */
  lemma ClashFromTail(citas: seq<Cita>, services: seq<Service>, employee: EmployeeId,
                      date: Date, start: Minute, dur: nat)
    requires |citas| > 0
    requires ClashesWith(EmployeeDay(citas[1..], services, employee, date), start, dur)
    ensures ClashesWith(EmployeeDay(citas, services, employee, date), start, dur)
  {
    var c := citas[0];
    var rest := EmployeeDay(citas[1..], services, employee, date);
    var j :| 0 <= j < |rest| && Overlaps(start, dur, rest[j].start, rest[j].duration);
    if c.employee == employee && c.date == date && DurationOf(services, c.service).Some? {
      assert EmployeeDay(citas, services, employee, date)[j + 1] == rest[j];
    }
  }

  lemma TailBusy(citas: seq<Cita>, services: seq<Service>, employee: EmployeeId,
                 date: Date, start: Minute, dur: nat)
    requires |citas| > 0
    requires EmployeeBusy(citas[1..], services, employee, date, start, dur)
    ensures EmployeeBusy(citas, services, employee, date, start, dur)
  {
    var d :| d in citas[1..] && d.employee == employee && d.date == date &&
      DurationOf(services, d.service).Some? &&
      Overlaps(start, dur, d.start, DurationOf(services, d.service).value);
    assert d in citas;
  }

  // ---------------------------------------------------------------------------
  // Table invariants
  // ---------------------------------------------------------------------------

  /** Auto-increment ids: strictly increasing in table order and below the next id. */
  predicate ClientIdsOk(clients: seq<Client>, next: ClientId)
  {
    (forall i, j :: 0 <= i < j < |clients| ==> clients[i].id < clients[j].id) &&
    (forall i :: 0 <= i < |clients| ==> clients[i].id < next)
  }

  predicate CitaIdsOk(citas: seq<Cita>, next: CitaId)
  {
    (forall i, j :: 0 <= i < j < |citas| ==> citas[i].id < citas[j].id) &&
    (forall i :: 0 <= i < |citas| ==> citas[i].id < next)
  }

  /** The service id is the primary key of the catalog. */
  predicate ServiceIdsUnique(services: seq<Service>)
  {
    forall i, j :: 0 <= i < j < |services| ==> services[i].id != services[j].id
  }

  /** What the database's keys guarantee. */
  predicate Wf(db: Db)
  {
    ClientIdsOk(db.clients, db.nextClient) && CitaIdsOk(db.citas, db.nextCita) && ServiceIdsUnique(db.services)
  }

  /** No two appointments of one employee on one date have overlapping intervals. */
  predicate EmployeeDisjoint(citas: seq<Cita>, services: seq<Service>)
  {
    forall i, j :: (0 <= i < |citas| && 0 <= j < |citas| && i != j &&
                    citas[i].employee == citas[j].employee && citas[i].date == citas[j].date &&
                    DurationOf(services, citas[i].service).Some? &&
                    DurationOf(services, citas[j].service).Some?) ==>
        !Overlaps(citas[i].start, DurationOf(services, citas[i].service).value,
                  citas[j].start, DurationOf(services, citas[j].service).value)
  }

  /** No client has two appointments at the same date and time. */
  predicate ClientSlotsDistinct(citas: seq<Cita>)
  {
    forall i, j :: 0 <= i < |citas| && 0 <= j < |citas| && i != j && citas[i].client == citas[j].client ==>
      citas[i].date != citas[j].date || citas[i].start != citas[j].start
  }

  /** The two scheduling invariants. */
  predicate Inv(db: Db)
  {
    EmployeeDisjoint(db.citas, db.services) && ClientSlotsDistinct(db.citas)
  }

  // ---------------------------------------------------------------------------
  // Create (agregar_cita)
  // ---------------------------------------------------------------------------

  datatype CreateRequest = CreateRequest(name: string, phone: string, service: ServiceId,
                                         employee: EmployeeId, date: Date, start: Minute)

  datatype CreateOutcome = Booked(id: CitaId) | ClientDoubleBooked | ServiceMissing | EmployeeOverlap

  /** Reuse the first client with this name and phone, or insert a new one. */
  function ResolveClient(db: Db, name: string, phone: string): (r: (ClientId, Db))
    ensures (exists k :: 0 <= k < |db.clients| && SameClient(db.clients[k], name, phone)) ==>
      r.1 == db &&
      exists k :: 0 <= k < |db.clients| && SameClient(db.clients[k], name, phone) &&
        (forall j :: 0 <= j < k ==> !SameClient(db.clients[j], name, phone)) && r.0 == db.clients[k].id
    ensures (forall k :: 0 <= k < |db.clients| ==> !SameClient(db.clients[k], name, phone)) ==>
      r.0 == db.nextClient && r.1.clients == db.clients + [Client(db.nextClient, name, phone)] &&
      r.1.nextClient == db.nextClient + 1 && r.1.citas == db.citas && r.1.nextCita == db.nextCita &&
      r.1.services == db.services && r.1.history == db.history && r.1.sales == db.sales
  {
    match ClientIndex(db.clients, name, phone)
    case Some(k) => (db.clients[k].id, db)
    case None =>
      (db.nextClient,
       db.(clients := db.clients + [Client(db.nextClient, name, phone)], nextClient := db.nextClient + 1))
  }

  /**
   * The whole booking: the client is resolved (and possibly inserted, which is
   * committed at once), then the client's exact-time conflict, the service
   * lookup and the employee's interval overlap are checked in that order.
   */
  function Create(db: Db, req: CreateRequest): (r: (Db, CreateOutcome))
    ensures r.0.services == db.services && r.0.history == db.history && r.0.sales == db.sales
    ensures |db.clients| <= |r.0.clients| <= |db.clients| + 1
    ensures |r.0.citas| == if r.1.Booked? then |db.citas| + 1 else |db.citas|
  {
    var resolved := ResolveClient(db, req.name, req.phone);
    var client := resolved.0;
    var db1 := resolved.1;
    if ClientBusy(db1.citas, client, req.date, req.start) then (db1, ClientDoubleBooked)
    else
      match DurationOf(db1.services, req.service)
      case None => (db1, ServiceMissing)
      case Some(dur) =>
        if EmployeeBusy(db1.citas, db1.services, req.employee, req.date, req.start, dur) then (db1, EmployeeOverlap)
        else
          (db1.(citas := db1.citas + [Cita(db1.nextCita, client, req.employee, req.service, req.date, req.start)],
                nextCita := db1.nextCita + 1),
           Booked(db1.nextCita))
  }

  /** Create applied to each request in turn. */
  function CreateAll(db: Db, reqs: seq<CreateRequest>): Db
    decreases |reqs|
  {
    if |reqs| == 0 then db else CreateAll(Create(db, reqs[0]).0, reqs[1..])
  }

  /**
   * A client matching (name, phone) is reused, otherwise exactly one client is
   * added, and this holds whatever the outcome of the booking.
   */
  lemma CreateResolvesClient(db: Db, req: CreateRequest)
    ensures var r := Create(db, req);
      var after := r.0;
      if exists k :: 0 <= k < |db.clients| && SameClient(db.clients[k], req.name, req.phone)
      then after.clients == db.clients && after.nextClient == db.nextClient &&
        exists k :: 0 <= k < |db.clients| && SameClient(db.clients[k], req.name, req.phone) &&
          (forall j :: 0 <= j < k ==> !SameClient(db.clients[j], req.name, req.phone)) &&
          (r.1.Booked? ==>
             after.citas == db.citas + [Cita(db.nextCita, db.clients[k].id, req.employee, req.service, req.date, req.start)])
      else
        after.clients == db.clients + [Client(db.nextClient, req.name, req.phone)] &&
        after.nextClient == db.nextClient + 1 &&
        (r.1.Booked? ==>
           after.citas == db.citas + [Cita(db.nextCita, db.nextClient, req.employee, req.service, req.date, req.start)])
  {
    ResolveFrame(db, req.name, req.phone);
    match ClientIndex(db.clients, req.name, req.phone)
    case Some(k) =>
      assert ResolveClient(db, req.name, req.phone) == (db.clients[k].id, db);
    case None =>
  }

  /** The booking succeeds exactly when none of the three checks rejects it. */
  lemma CreateBooksIff(db: Db, req: CreateRequest)
    ensures var client := ResolveClient(db, req.name, req.phone).0;
      var dur := DurationOf(db.services, req.service);
      Create(db, req).1.Booked? <==>
        !ClientBusy(db.citas, client, req.date, req.start) && dur.Some? &&
        !EmployeeBusy(db.citas, db.services, req.employee, req.date, req.start, dur.value)
  {
  }

  /**
   * A booking that overlaps, half-open, an appointment of the same employee on
   * the same date is not made, and the appointments stay as they were.
   */
  lemma CreateRejectsOverlap(db: Db, req: CreateRequest, i: nat)
    requires i < |db.citas|
    requires db.citas[i].employee == req.employee && db.citas[i].date == req.date
    requires DurationOf(db.services, db.citas[i].service).Some? && DurationOf(db.services, req.service).Some?
    requires Overlaps(req.start, DurationOf(db.services, req.service).value,
                      db.citas[i].start, DurationOf(db.services, db.citas[i].service).value)
    ensures !Create(db, req).1.Booked? && Create(db, req).0.citas == db.citas
    ensures !ClientBusy(db.citas, ResolveClient(db, req.name, req.phone).0, req.date, req.start) ==>
      Create(db, req).1 == EmployeeOverlap
  {
    ResolveFrame(db, req.name, req.phone);
    assert db.citas[i] in db.citas;
  }

  /**
   * Which refusal the booking gets: the client's exact slot is checked first,
   * then the service lookup, then the employee's overlap.
   */
  lemma CreateOutcomeIff(db: Db, req: CreateRequest)
    ensures var client := ResolveClient(db, req.name, req.phone).0;
      Create(db, req).1 == ClientDoubleBooked <==> ClientBusy(db.citas, client, req.date, req.start)
    ensures var client := ResolveClient(db, req.name, req.phone).0;
      Create(db, req).1 == ServiceMissing <==>
        !ClientBusy(db.citas, client, req.date, req.start) && DurationOf(db.services, req.service).None?
    ensures var client := ResolveClient(db, req.name, req.phone).0;
      var dur := DurationOf(db.services, req.service);
      Create(db, req).1 == EmployeeOverlap <==>
        !ClientBusy(db.citas, client, req.date, req.start) && dur.Some? &&
        EmployeeBusy(db.citas, db.services, req.employee, req.date, req.start, dur.value)
  {
    ResolveFrame(db, req.name, req.phone);
  }

  /** A client who already has an appointment at that date and time is turned away, whatever the employee. */
  lemma CreateRejectsClientDouble(db: Db, req: CreateRequest, i: nat)
    requires i < |db.citas|
    requires db.citas[i].client == ResolveClient(db, req.name, req.phone).0
    requires db.citas[i].date == req.date && db.citas[i].start == req.start
    ensures Create(db, req).1 == ClientDoubleBooked && Create(db, req).0.citas == db.citas
  {
    assert db.citas[i] in db.citas;
  }

  /**
   * A successful booking appends one appointment with the requested fields and
   * the next id; the other tables, except for a client just added, are as before.
   */
  lemma CreateBookedEffect(db: Db, req: CreateRequest)
    requires Create(db, req).1.Booked?
    ensures var after := Create(db, req).0;
      var client := ResolveClient(db, req.name, req.phone).0;
      Create(db, req).1.id == db.nextCita &&
      after.citas == db.citas + [Cita(db.nextCita, client, req.employee, req.service, req.date, req.start)] &&
      after.nextCita == db.nextCita + 1 &&
      after.services == db.services && after.history == db.history && after.sales == db.sales
  {
  }

  /** A rejected booking leaves the appointments, the history and the sales as they were. */
  lemma CreateRejectedEffect(db: Db, req: CreateRequest)
    requires !Create(db, req).1.Booked?
    ensures var after := Create(db, req).0;
      after.citas == db.citas && after.nextCita == db.nextCita &&
      after.services == db.services && after.history == db.history && after.sales == db.sales
  {
  }

  /** Resolving the client touches only the clients table, and keeps its ids in order. */
  lemma ResolveFrame(db: Db, name: string, phone: string)
    ensures var db1 := ResolveClient(db, name, phone).1;
      db1.citas == db.citas && db1.nextCita == db.nextCita && db1.services == db.services &&
      db1.history == db.history && db1.sales == db.sales
    ensures Wf(db) ==> Wf(ResolveClient(db, name, phone).1)
  {
    match ClientIndex(db.clients, name, phone)
    case Some(k) =>
    case None =>
  }

  lemma CreateKeepsWf(db: Db, req: CreateRequest)
    requires Wf(db)
    ensures Wf(Create(db, req).0)
  {
    var db1 := ResolveClient(db, req.name, req.phone).1;
    ResolveFrame(db, req.name, req.phone);
    var r := Create(db, req);
    if !r.1.Booked? {
      assert r.0 == db1;
    }
  }

  /** Every booking, accepted or not, keeps both scheduling invariants. */
  lemma CreateKeepsInv(db: Db, req: CreateRequest)
    requires Inv(db)
    ensures Inv(Create(db, req).0)
  {
    var client := ResolveClient(db, req.name, req.phone).0;
    if Create(db, req).1.Booked? {
      CreateBooksIff(db, req);
      CreateBookedEffect(db, req);
      var dur := DurationOf(db.services, req.service).value;
      var n := Cita(db.nextCita, client, req.employee, req.service, req.date, req.start);
      AppendKeepsEmployeeDisjoint(db.citas, db.services, n, dur);
      AppendKeepsClientSlotsDistinct(db.citas, n);
    } else {
      CreateRejectedEffect(db, req);
    }
  }

  /** Appending an appointment that overlaps none of its employee's that day keeps employees disjoint. */
  lemma AppendKeepsEmployeeDisjoint(citas: seq<Cita>, services: seq<Service>, n: Cita, dur: nat)
    requires EmployeeDisjoint(citas, services)
    requires DurationOf(services, n.service) == Some(dur)
    requires !EmployeeBusy(citas, services, n.employee, n.date, n.start, dur)
    ensures EmployeeDisjoint(citas + [n], services)
  {
    var all := citas + [n];
    forall i, j | 0 <= i < |all| && 0 <= j < |all| && i != j &&
      all[i].employee == all[j].employee && all[i].date == all[j].date &&
      DurationOf(services, all[i].service).Some? && DurationOf(services, all[j].service).Some?
      ensures !Overlaps(all[i].start, DurationOf(services, all[i].service).value,
                        all[j].start, DurationOf(services, all[j].service).value)
    {
      if i == |citas| {
        assert all[j] in citas;
      } else if j == |citas| {
        assert all[i] in citas;
      }
    }
  }

  /** Appending an appointment at a slot its client does not hold keeps client slots distinct. */
  lemma AppendKeepsClientSlotsDistinct(citas: seq<Cita>, n: Cita)
    requires ClientSlotsDistinct(citas)
    requires !ClientBusy(citas, n.client, n.date, n.start)
    ensures ClientSlotsDistinct(citas + [n])
  {
    var all := citas + [n];
    forall i, j | 0 <= i < |all| && 0 <= j < |all| && i != j && all[i].client == all[j].client
      ensures all[i].date != all[j].date || all[i].start != all[j].start
    {
      if i == |citas| {
        assert all[j] in citas;
      } else if j == |citas| {
        assert all[i] in citas;
      }
    }
  }

  /** Any sequence of bookings keeps the invariants it started with. */
  lemma {:induction false} CreateAllKeepsInv(db: Db, reqs: seq<CreateRequest>)
    requires Inv(db)
    ensures Inv(CreateAll(db, reqs))
    decreases |reqs|
  {
    if |reqs| > 0 {
      CreateKeepsInv(db, reqs[0]);
      CreateAllKeepsInv(Create(db, reqs[0]).0, reqs[1..]);
    }
  }

  /**
   * Starting from empty tables, after any sequence of bookings no two
   * appointments of one employee on one date overlap and no client has two
   * appointments at the same date and time.
   */
  lemma BookingsFromEmptyKeepInv(catalog: seq<Service>, reqs: seq<CreateRequest>)
    ensures Inv(CreateAll(Empty(catalog), reqs))
  {
    CreateAllKeepsInv(Empty(catalog), reqs);
  }

  // ---------------------------------------------------------------------------
  // Update (actualizar_cita)
  // ---------------------------------------------------------------------------

  datatype UpdateRequest = UpdateRequest(id: CitaId, client: ClientId, service: ServiceId,
                                         employee: EmployeeId, date: Date, start: Minute)

  datatype UpdateOutcome = Updated | ClientTaken | EmployeeTaken

  /** Every row with the request's id takes the request's five fields (`UPDATE ... WHERE id = ...`). */
  function Overwrite(citas: seq<Cita>, req: UpdateRequest): (r: seq<Cita>)
    ensures |r| == |citas|
    ensures forall i :: 0 <= i < |r| ==> r[i].id == citas[i].id
    ensures forall i :: 0 <= i < |r| && citas[i].id != req.id ==> r[i] == citas[i]
    ensures forall i :: 0 <= i < |r| && r[i].id == req.id ==>
      r[i] == Cita(req.id, req.client, req.employee, req.service, req.date, req.start)
    ensures forall k ::
      (0 <= k < |citas| && citas[k].id == req.id &&
       (forall j :: 0 <= j < |citas| && j != k ==> citas[j].id != req.id)) ==>
      r == citas[k := Cita(req.id, req.client, req.employee, req.service, req.date, req.start)]
    ensures (forall i :: 0 <= i < |citas| ==> citas[i].id != req.id) ==> r == citas
  {
    seq(|citas|, i requires 0 <= i < |citas| =>
      if citas[i].id == req.id
      then Cita(req.id, req.client, req.employee, req.service, req.date, req.start)
      else citas[i])
  }

  /**
   * The edit: rejected when another appointment (id differs) has the same
   * client, or the same employee, at exactly the same date and time; otherwise
   * the row is overwritten. An id with no row is an update of nothing.
   */
  function Update(db: Db, req: UpdateRequest): (r: (Db, UpdateOutcome))
    ensures r.0.clients == db.clients && r.0.services == db.services && r.0.nextCita == db.nextCita
    ensures r.0.nextClient == db.nextClient
    ensures r.0.history == db.history && r.0.sales == db.sales && |r.0.citas| == |db.citas|
    ensures r.1 != Updated ==> r.0 == db
  {
    var others := Without(db.citas, req.id);
    if ClientBusy(others, req.client, req.date, req.start) then (db, ClientTaken)
    else if EmployeeAt(others, req.employee, req.date, req.start) then (db, EmployeeTaken)
    else (db.(citas := Overwrite(db.citas, req)), Updated)
  }

  /** The edit is refused exactly when another appointment holds that client's or that employee's exact slot. */
  lemma UpdateRejectsIff(db: Db, req: UpdateRequest)
    ensures Update(db, req).1 != Updated <==>
      exists c :: c in db.citas && c.id != req.id && c.date == req.date && c.start == req.start &&
        (c.client == req.client || c.employee == req.employee)
    ensures Update(db, req).1 != Updated ==> Update(db, req).0 == db
    ensures Update(db, req).1 == ClientTaken <==>
      exists c :: c in db.citas && c.id != req.id && c.client == req.client &&
        c.date == req.date && c.start == req.start
    ensures Update(db, req).1 == EmployeeTaken <==>
      (forall c :: c in db.citas && c.id != req.id && c.date == req.date && c.start == req.start ==>
         c.client != req.client) &&
      exists c :: c in db.citas && c.id != req.id && c.employee == req.employee &&
        c.date == req.date && c.start == req.start
  {
    WithoutMembers(db.citas, req.id);
  }

  /**
   * On success only the edited row changes, and it carries the five new
   * fields; all other tables are untouched.
   */
  lemma UpdateEffect(db: Db, req: UpdateRequest, k: nat)
    requires Wf(db) && k < |db.citas| && db.citas[k].id == req.id
    requires Update(db, req).1 == Updated
    ensures var after := Update(db, req).0;
      after.citas == db.citas[k := Cita(req.id, req.client, req.employee, req.service, req.date, req.start)] &&
      after.clients == db.clients && after.services == db.services &&
      after.history == db.history && after.sales == db.sales && after.nextCita == db.nextCita
    ensures Update(db, req).0 ==
      db.(citas := db.citas[k := Cita(req.id, req.client, req.employee, req.service, req.date, req.start)])
  {
    forall j | 0 <= j < |db.citas| && j != k ensures db.citas[j].id != req.id {
      assert j < k ==> db.citas[j].id < db.citas[k].id;
      assert k < j ==> db.citas[k].id < db.citas[j].id;
    }
  }

  lemma UpdateKeepsWf(db: Db, req: UpdateRequest)
    requires Wf(db)
    ensures Wf(Update(db, req).0)
  {
  }

  /** The edit keeps clients free of double bookings. */
  lemma UpdateKeepsClientSlotsDistinct(db: Db, req: UpdateRequest)
    requires Wf(db) && ClientSlotsDistinct(db.citas)
    ensures ClientSlotsDistinct(Update(db, req).0.citas)
  {
    var r := Update(db, req);
    WithoutMembers(db.citas, req.id);
    if r.1 == Updated {
      var citas := r.0.citas;
      forall i, j | 0 <= i < |citas| && 0 <= j < |citas| && i != j && citas[i].client == citas[j].client
        ensures citas[i].date != citas[j].date || citas[i].start != citas[j].start
      {
        var a, b := db.citas[i], db.citas[j];
        assert a.id != b.id by {
          assert i < j ==> a.id < b.id;
          assert j < i ==> b.id < a.id;
        }
        if a.id == req.id {
          assert b in Without(db.citas, req.id);
        } else if b.id == req.id {
          assert a in Without(db.citas, req.id);
        }
      }
    }
  }

  /**
   * The edit checks start times, not intervals: moving the 11:40 booking of an
   * employee to 10:15 is accepted although a 30-minute booking of the same
   * employee runs from 10:00 to 10:30.
   */
  lemma UpdateAllowsOverlap()
    ensures var db := Db([], 3, [Service(1, "corte", 30, 150)],
                         [Cita(1, 1, 7, 1, 20, 600), Cita(2, 2, 7, 1, 20, 700)], 3, [], []);
      var req := UpdateRequest(2, 2, 1, 7, 20, 615);
      Wf(db) && Inv(db) && Update(db, req).1 == Updated && !EmployeeDisjoint(Update(db, req).0.citas, db.services)
  {
    var db := Db([], 3, [Service(1, "corte", 30, 150)],
                 [Cita(1, 1, 7, 1, 20, 600), Cita(2, 2, 7, 1, 20, 700)], 3, [], []);
    var req := UpdateRequest(2, 2, 1, 7, 20, 615);
    assert DurationOf(db.services, 1) == Some(30);
    assert Without(db.citas, 2) == [Cita(1, 1, 7, 1, 20, 600)];
    var after := Update(db, req).0.citas;
    assert after[1] == Cita(2, 2, 7, 1, 20, 615);
    assert after[0] == Cita(1, 1, 7, 1, 20, 600);
  }

  // ---------------------------------------------------------------------------
  // Finalize (finalizar_cita)
  // ---------------------------------------------------------------------------

  datatype FinalizeOutcome = Sold(sale: Sale) | NoSuchCita | NoSuchService

  /**
   * Record a sale at the service's current price and a 'finalizada' history
   * copy, then delete the appointment. A missing appointment or service stops
   * the handler before its first write.
   */
  function Finalize(db: Db, id: CitaId): (r: (Db, FinalizeOutcome))
    ensures r.0.clients == db.clients && r.0.services == db.services && r.0.nextCita == db.nextCita
    ensures r.0.nextClient == db.nextClient
    ensures r.1.Sold? <==> |r.0.sales| == |db.sales| + 1
    ensures r.1.Sold? ==> |r.0.history| == |db.history| + 1 && |r.0.citas| <= |db.citas|
    ensures !r.1.Sold? ==> r.0 == db
  {
    match CitaIndex(db.citas, id)
    case None => (db, NoSuchCita)
    case Some(k) =>
      var c := db.citas[k];
      match ServiceIndex(db.services, c.service)
      case None => (db, NoSuchService)
      case Some(s) =>
        var sale := Sale(c.client, c.employee, c.service, c.date, db.services[s].price);
        (db.(sales := db.sales + [sale],
             history := db.history + [HistoryRow(c.client, c.employee, c.service, c.date, c.start, Finalizada)],
             citas := Without(db.citas, id)),
         Sold(sale))
  }

  /** Deleting a unique id removes exactly the row that carries it. */
  lemma {:induction false} WithoutUnique(citas: seq<Cita>, next: CitaId, k: nat)
    requires CitaIdsOk(citas, next) && k < |citas|
    ensures Without(citas, citas[k].id) == citas[..k] + citas[k + 1..]
    decreases |citas|
  {
    var id := citas[k].id;
    var tail := citas[1..];
    TailIdsOk(citas, next);
    if k == 0 {
      WithoutAbsent(tail, id);
      assert citas[..0] + citas[1..] == tail;
    } else {
      assert citas[0].id < id;
      assert tail[k - 1] == citas[k];
      WithoutUnique(tail, next, k - 1);
      calc {
        Without(citas, id);
        [citas[0]] + Without(tail, id);
        [citas[0]] + (tail[..k - 1] + tail[k..]);
        { assert citas[..k] == [citas[0]] + tail[..k - 1]; assert citas[k + 1..] == tail[k..]; }
        citas[..k] + citas[k + 1..];
      }
    }
  }

  lemma TailIdsOk(citas: seq<Cita>, next: CitaId)
    requires CitaIdsOk(citas, next) && |citas| > 0
    ensures CitaIdsOk(citas[1..], next)
    ensures forall i :: 0 <= i < |citas| - 1 ==> citas[1..][i].id > citas[0].id
  {
  }

  lemma {:induction false} WithoutAbsent(citas: seq<Cita>, id: CitaId)
    requires forall i :: 0 <= i < |citas| ==> citas[i].id > id
    ensures Without(citas, id) == citas
    decreases |citas|
  {
    if |citas| > 0 {
      WithoutAbsent(citas[1..], id);
      assert citas == [citas[0]] + citas[1..];
    }
  }

  /**
   * Finalizing an existing appointment adds one sale priced at the service's
   * current price on the appointment's date, one history copy with status
   * 'finalizada', and removes that appointment and no other.
   */
  lemma FinalizeEffect(db: Db, k: nat)
    requires Wf(db) && k < |db.citas|
    requires ServiceIndex(db.services, db.citas[k].service).Some?
    ensures var c := db.citas[k];
      var r := Finalize(db, c.id);
      exists s :: 0 <= s < |db.services| && db.services[s].id == c.service &&
        r.1 == Sold(Sale(c.client, c.employee, c.service, c.date, db.services[s].price)) &&
        r.0.sales == db.sales + [r.1.sale]
    ensures var c := db.citas[k];
      var after := Finalize(db, c.id).0;
      after.history == db.history + [HistoryRow(c.client, c.employee, c.service, c.date, c.start, Finalizada)] &&
      after.citas == db.citas[..k] + db.citas[k + 1..] &&
      after.clients == db.clients && after.services == db.services && after.nextCita == db.nextCita
    ensures var c := db.citas[k];
      var r := Finalize(db, c.id);
      r.1.Sold? &&
      r.0 == db.(sales := db.sales + [r.1.sale],
                 history := db.history + [HistoryRow(c.client, c.employee, c.service, c.date, c.start, Finalizada)],
                 citas := db.citas[..k] + db.citas[k + 1..])
  {
    var c := db.citas[k];
    assert CitaIndex(db.citas, c.id) == Some(k) by {
      forall i | 0 <= i < k ensures db.citas[i].id != c.id {
        assert db.citas[i].id < c.id;
      }
    }
    WithoutUnique(db.citas, db.nextCita, k);
  }

  /** An id with no appointment fails at the lookup and nothing is written. */
  lemma FinalizeMissing(db: Db, id: CitaId)
    requires forall c :: c in db.citas ==> c.id != id
    ensures Finalize(db, id) == (db, NoSuchCita)
  {
  }

  /**
   * An appointment whose service is gone fails at the price lookup, and
   * nothing is written.
   */
  lemma FinalizeServiceMissing(db: Db, k: nat)
    requires k < |db.citas| && forall j :: 0 <= j < k ==> db.citas[j].id != db.citas[k].id
    requires forall s :: s in db.services ==> s.id != db.citas[k].service
    ensures Finalize(db, db.citas[k].id) == (db, NoSuchService)
  {
    assert CitaIndex(db.citas, db.citas[k].id) == Some(k);
  }

  lemma FinalizeKeepsWf(db: Db, id: CitaId)
    requires Wf(db)
    ensures Wf(Finalize(db, id).0)
  {
    var r := Finalize(db, id);
    if r.1.Sold? {
      var k := CitaIndex(db.citas, id).value;
      WithoutUnique(db.citas, db.nextCita, k);
      var citas := r.0.citas;
      forall i, j | 0 <= i < j < |citas| ensures citas[i].id < citas[j].id {
        var i', j' := if i < k then i else i + 1, if j < k then j else j + 1;
        assert citas[i] == db.citas[i'] && citas[j] == db.citas[j'];
      }
      forall i | 0 <= i < |citas| ensures citas[i].id < r.0.nextCita {
        var i' := if i < k then i else i + 1;
        assert citas[i] == db.citas[i'];
      }
    }
  }

  /** Removing one row keeps the employees' intervals disjoint. */
  lemma RemoveKeepsEmployeeDisjoint(citas: seq<Cita>, services: seq<Service>, k: nat)
    requires k < |citas| && EmployeeDisjoint(citas, services)
    ensures EmployeeDisjoint(citas[..k] + citas[k + 1..], services)
  {
    var rest := citas[..k] + citas[k + 1..];
    forall i, j | 0 <= i < |rest| && 0 <= j < |rest| && i != j &&
      rest[i].employee == rest[j].employee && rest[i].date == rest[j].date &&
      DurationOf(services, rest[i].service).Some? && DurationOf(services, rest[j].service).Some?
      ensures !Overlaps(rest[i].start, DurationOf(services, rest[i].service).value,
                        rest[j].start, DurationOf(services, rest[j].service).value)
    {
      var i', j' := if i < k then i else i + 1, if j < k then j else j + 1;
      assert rest[i] == citas[i'] && rest[j] == citas[j'];
    }
  }

  /** Removing one row keeps clients free of double bookings. */
  lemma RemoveKeepsClientSlotsDistinct(citas: seq<Cita>, k: nat)
    requires k < |citas| && ClientSlotsDistinct(citas)
    ensures ClientSlotsDistinct(citas[..k] + citas[k + 1..])
  {
    var rest := citas[..k] + citas[k + 1..];
    forall i, j | 0 <= i < |rest| && 0 <= j < |rest| && i != j && rest[i].client == rest[j].client
      ensures rest[i].date != rest[j].date || rest[i].start != rest[j].start
    {
      var i', j' := if i < k then i else i + 1, if j < k then j else j + 1;
      assert rest[i] == citas[i'] && rest[j] == citas[j'];
    }
  }

  /** Removing the finalized appointment keeps both scheduling invariants. */
  lemma FinalizeKeepsInv(db: Db, id: CitaId)
    requires Wf(db) && Inv(db)
    ensures Inv(Finalize(db, id).0)
  {
    var r := Finalize(db, id);
    if r.1.Sold? {
      var k := CitaIndex(db.citas, id).value;
      WithoutUnique(db.citas, db.nextCita, k);
      RemoveKeepsEmployeeDisjoint(db.citas, db.services, k);
      RemoveKeepsClientSlotsDistinct(db.citas, k);
    }
  }
}
