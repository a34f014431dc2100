/** The patient controller: sending a request to a doctor and editing one's own details. */
module PatientController {
  import opened Documents
  import opened Js

  /** Sending a request. A missing pending list counts as empty; a patient already pending
      is refused; otherwise the patient id is appended. The doctor's accepted patients are
      not consulted, so a patient already accepted can become pending again. The doctor id
      comes from the request body, not from the `:doctorId` of the route. */
  function RequestDoctorReply(db: Db, pid: Id, did: Id): (r: Reply)
    ensures did !in db.doctors ==> r == Reply(NotFound, db)
    ensures did in db.doctors && pid in db.doctors[did].pendingRequests.GetOr([]) ==> r == Reply(BadRequest, db)
    ensures r.status != Ok ==> r.db == db
    ensures r.status == Ok <==> did in db.doctors && pid !in db.doctors[did].pendingRequests.GetOr([])
    ensures r.status == Ok ==>
      && did in r.db.doctors && r.db == db.(doctors := db.doctors[did := r.db.doctors[did]])
      && r.db.doctors[did] == db.doctors[did].(pendingRequests := r.db.doctors[did].pendingRequests)
      && r.db.doctors[did].pendingRequests == Some(db.doctors[did].pendingRequests.GetOr([]) + [pid])
  {
    if did !in db.doctors then Reply(NotFound, db)
    else
      var d := db.doctors[did];
      var pending := d.pendingRequests.GetOr([]);
      if pid in pending then Reply(BadRequest, db)
      else Reply(Ok, db.(doctors := db.doctors[did := d.(pendingRequests := Some(pending + [pid]))]))
  }

  method RequestDoctor(store: Store, pid: Id, did: Id) returns (status: Status)
    modifies store
    ensures Reply(status, store.State()) == RequestDoctorReply(old(store.State()), pid, did)
  {
    if did !in store.doctors {
      return NotFound;
    }
    var doctor := store.doctors[did];
    if doctor.pendingRequests.None? {
      doctor := doctor.(pendingRequests := Some([]));
    }
    if pid in doctor.pendingRequests.value {
      return BadRequest;
    }
    doctor := doctor.(pendingRequests := Some(doctor.pendingRequests.value + [pid]));
    store.doctors := store.doctors[did := doctor];
    status := Ok;
  }

  /** A patient editing its own details: name, age and address each replace the stored value
      only when truthy, so an empty name or an age of 0 keeps the old value. */
  function EditPatientDetailsReply(db: Db, pid: Id, name: string, age: int, address: string): (r: Reply)
    ensures pid !in db.patients ==> r == Reply(NotFound, db)
    ensures pid in db.patients ==>
      && r.status == Ok
      && pid in r.db.patients && r.db == db.(patients := db.patients[pid := r.db.patients[pid]])
      && r.db.patients[pid] == db.patients[pid].(name := r.db.patients[pid].name, age := r.db.patients[pid].age,
                                                  address := r.db.patients[pid].address)
      && r.db.patients[pid].name == (if name == "" then db.patients[pid].name else name)
      && r.db.patients[pid].age == (if age == 0 then db.patients[pid].age else age)
      && r.db.patients[pid].address == (if address == "" then db.patients[pid].address else address)
  {
    if pid !in db.patients then Reply(NotFound, db)
    else
      var p := db.patients[pid];
      Reply(Ok, db.(patients := db.patients[pid := p.(name := Or(name, p.name), age := OrNumber(age, p.age),
                                                       address := Or(address, p.address))]))
  }

  method EditPatientDetails(store: Store, pid: Id, name: string, age: int, address: string) returns (status: Status)
    modifies store
    ensures Reply(status, store.State()) == EditPatientDetailsReply(old(store.State()), pid, name, age, address)
  {
    if pid !in store.patients {
      return NotFound;
    }
    var patient := store.patients[pid];
    patient := patient.(name := Or(name, patient.name));
    patient := patient.(age := OrNumber(age, patient.age));
    patient := patient.(address := Or(address, patient.address));
    store.patients := store.patients[pid := patient];
    status := Ok;
  }
}
