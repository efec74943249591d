/**
 * The shared tables as one mutable object. Each handler of the appointment
 * pages is a method that changes the tables step by step, in the order the
 * handler issues its statements; each is proved to end in the state, and
 * with the outcome, that the matching rule of module Scheduling describes.
 */
module Tables {
  import opened Wrappers
  import opened Scheduling

  class Store {
    var clients: seq<Client>
    var nextClient: ClientId
    var services: seq<Service>
    var citas: seq<Cita>
    var nextCita: CitaId
    var history: seq<HistoryRow>
    var sales: seq<Sale>

    /** The tables as a value. */
    ghost function Snapshot(): Db
      reads this
    {
      Db(clients, nextClient, services, citas, nextCita, history, sales)
    }

    ghost predicate Valid()
      reads this
    {
      Wf(Snapshot())
    }

    /** Empty tables over a given service catalog. */
    constructor (catalog: seq<Service>)
      requires ServiceIdsUnique(catalog)
      ensures Valid() && Snapshot() == Empty(catalog)
    {
      clients, nextClient := [], 1;
      services := catalog;
      citas, nextCita := [], 1;
      history, sales := [], [];
    }

    /** agregar_cita */
    method AddAppointment(req: CreateRequest) returns (r: CreateOutcome)
      requires Valid()
      modifies this
      ensures Valid()
      ensures (Snapshot(), r) == Create(old(Snapshot()), req)
      ensures Inv(old(Snapshot())) ==> Inv(Snapshot())
      ensures services == old(services) && history == old(history) && sales == old(sales)
    {
      ghost var before := Snapshot();

      // The client: reuse the first match, or insert and commit a new row.
      var client: ClientId;
      var found := ClientIndex(clients, req.name, req.phone);
      if found.Some? {
        client := clients[found.value].id;
      } else {
        client := nextClient;
        clients := clients + [Client(nextClient, req.name, req.phone)];
        nextClient := nextClient + 1;
      }
      assert (client, Snapshot()) == ResolveClient(before, req.name, req.phone);

      // The client's exact date and time.
      var same := FirstIndex(citas, (c: Cita) => c.client == client && c.date == req.date && c.start == req.start);
      if same.Some? {
        assert citas[same.value] in citas;
        r := ClientDoubleBooked;
      } else {
        // The service's duration; a missing service ends the handler here.
        var s := ServiceIndex(services, req.service);
        if s.None? {
          r := ServiceMissing;
        } else {
          var dur := services[s.value].duration;
          // The employee's appointments on that date, scanned for an overlap.
          var slots := EmployeeDay(citas, services, req.employee, req.date);
          var clash := ScanOverlap(slots, req.start, dur);
          EmployeeDayClash(citas, services, req.employee, req.date, req.start, dur);
          if clash {
            r := EmployeeOverlap;
          } else {
            r := Booked(nextCita);
            citas := citas + [Cita(nextCita, client, req.employee, req.service, req.date, req.start)];
            nextCita := nextCita + 1;
          }
        }
      }
      assert (Snapshot(), r) == Create(before, req);
      CreateKeepsWf(before, req);
      if Inv(before) {
        CreateKeepsInv(before, req);
      }
    }

    /** actualizar_cita */
    method UpdateAppointment(req: UpdateRequest) returns (r: UpdateOutcome)
      requires Valid()
      modifies this
      ensures Valid()
      ensures (Snapshot(), r) == Update(old(Snapshot()), req)
      ensures ClientSlotsDistinct(old(citas)) ==> ClientSlotsDistinct(citas)
      ensures clients == old(clients) && services == old(services)
      ensures history == old(history) && sales == old(sales)
    {
      ghost var before := Snapshot();
      UpdateKeepsWf(before, req);
      if ClientSlotsDistinct(citas) {
        UpdateKeepsClientSlotsDistinct(before, req);
      }
      WithoutMembers(citas, req.id);

      var clientHit := FirstIndex(citas, (c: Cita) =>
        c.client == req.client && c.date == req.date && c.start == req.start && c.id != req.id);
      if clientHit.Some? {
        assert citas[clientHit.value] in Without(citas, req.id);
        return ClientTaken;
      }

      var employeeHit := FirstIndex(citas, (c: Cita) =>
        c.employee == req.employee && c.date == req.date && c.start == req.start && c.id != req.id);
      if employeeHit.Some? {
        assert citas[employeeHit.value] in Without(citas, req.id);
        return EmployeeTaken;
      }

      citas := Overwrite(citas, req);
      r := Updated;
    }

    /** finalizar_cita */
    method FinalizeAppointment(id: CitaId) returns (r: FinalizeOutcome)
      requires Valid()
      modifies this
      ensures Valid()
      ensures (Snapshot(), r) == Finalize(old(Snapshot()), id)
      ensures Inv(old(Snapshot())) ==> Inv(Snapshot())
      ensures clients == old(clients) && services == old(services)
    {
      ghost var before := Snapshot();
      FinalizeKeepsWf(before, id);
      if Inv(before) {
        FinalizeKeepsInv(before, id);
      }

      var hit := CitaIndex(citas, id);
      if hit.None? {
        return NoSuchCita;
      }
      var cita := citas[hit.value];
      var s := ServiceIndex(services, cita.service);
      if s.None? {
        return NoSuchService;
      }
      var sale := Sale(cita.client, cita.employee, cita.service, cita.date, services[s.value].price);
      sales := sales + [sale];
      history := history + [HistoryRow(cita.client, cita.employee, cita.service, cita.date, cita.start, Finalizada)];
      citas := Without(citas, id);
      r := Sold(sale);
    }
  }
}
