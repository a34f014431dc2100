/** The doctor controller: signup validation, the accept/decline side of the patient
    request workflow, removing a patient, the two edit handlers and the list of a doctor's
    hospitals. */
module DoctorController {
  import opened Documents
  import opened Js
  import opened Email

  // ---------------------------------------------------------------------------
  // Signup
  // ---------------------------------------------------------------------------

  /** The first check of the chain: every field of the body is truthy. */
  predicate FieldsPresent(name: string, email: string, hospital: Id, specialty: string, password: string)
  {
    name != "" && email != "" && hospital != "" && specialty != "" && password != ""
  }

  /** Doctor signup. The checks run in order and the first that fails answers: a missing
      field, a malformed e-mail, a malformed hospital id (400 each), then a hospital that
      does not exist (404). The new record lists the hospital, but the hospital's own list
      is left as it was. `validId` stands for `ObjectId.isValid`. */
  function DoctorSignupReply(db: Db, name: string, email: string, hospital: Id, specialty: string,
                             password: string, passwordHash: string, validId: Id -> bool, newId: Id): (r: Reply)
    requires newId !in db.doctors
    ensures !FieldsPresent(name, email, hospital, specialty, password) ==> r == Reply(BadRequest, db)
    ensures FieldsPresent(name, email, hospital, specialty, password) && !MatchesEmailPattern(email) ==>
      r == Reply(BadRequest, db)
    ensures FieldsPresent(name, email, hospital, specialty, password) && MatchesEmailPattern(email)
            && !validId(hospital) ==>
      r == Reply(BadRequest, db)
    ensures FieldsPresent(name, email, hospital, specialty, password) && MatchesEmailPattern(email)
            && validId(hospital) && hospital !in db.hospitals ==>
      r == Reply(NotFound, db)
    ensures r.status != Created ==> r.db == db
    ensures r.status == Created <==>
      FieldsPresent(name, email, hospital, specialty, password) && MatchesEmailPattern(email)
      && validId(hospital) && hospital in db.hospitals
    ensures r.status == Created ==>
      && r.db.hospitals == db.hospitals && r.db.admins == db.admins && r.db.patients == db.patients
      && r.db.doctors == db.doctors[newId := Doctor(name, email, Some([hospital]), specialty, Some([]), Some([]), passwordHash, false)]
  {
    ValidEmailIsPattern(email);
    if !FieldsPresent(name, email, hospital, specialty, password) then Reply(BadRequest, db)
    else if !ValidEmail(email) then Reply(BadRequest, db)
    else if !validId(hospital) then Reply(BadRequest, db)
    else if hospital !in db.hospitals then Reply(NotFound, db)
    else
      var doctor := Doctor(name, email, Some([hospital]), specialty, Some([]), Some([]), passwordHash, false);
      Reply(Created, db.(doctors := db.doctors[newId := doctor]))
  }

  method Signup(store: Store, name: string, email: string, hospital: Id, specialty: string,
                password: string, passwordHash: string, validId: Id -> bool, newId: Id)
    returns (status: Status)
    requires newId !in store.doctors
    modifies store
    ensures Reply(status, store.State()) ==
      DoctorSignupReply(old(store.State()), name, email, hospital, specialty, password, passwordHash, validId, newId)
  {
    if !FieldsPresent(name, email, hospital, specialty, password) {
      return BadRequest;
    }
    if !ValidEmail(email) {
      return BadRequest;
    }
    if !validId(hospital) {
      return BadRequest;
    }
    if hospital !in store.hospitals {
      return NotFound;
    }
    var doctor := Doctor(name, email, Some([hospital]), specialty, Some([]), Some([]), passwordHash, false);
    store.doctors := store.doctors[newId := doctor];
    status := Created;
  }

  // ---------------------------------------------------------------------------
  // Accepting and declining requests
  // ---------------------------------------------------------------------------

  /** The doctor after accepting `pid`: it joins the patients unless it is there already,
      and every copy of it leaves the pending list. */
  function Accepted(d: Doctor, pid: Id): (r: Doctor)
    requires d.patients.Some? && d.pendingRequests.Some?
    ensures r.patients.Some? && r.pendingRequests.Some?
    ensures pid in r.patients.value && pid !in r.pendingRequests.value
    ensures pid in d.patients.value ==> r.patients == d.patients
    ensures pid !in d.patients.value ==> r.patients.value == d.patients.value + [pid]
    ensures multiset(r.pendingRequests.value) == multiset(d.pendingRequests.value)[pid := 0]
    ensures forall q :: q != pid ==> (q in r.patients.value <==> q in d.patients.value)
    ensures forall q :: q != pid ==> (q in r.pendingRequests.value <==> q in d.pendingRequests.value)
    ensures r == d.(patients := r.patients, pendingRequests := r.pendingRequests)
  {
    WithoutCounts(d.pendingRequests.value, pid);
    var pending := Without(d.pendingRequests.value, pid);
    forall q ensures q in pending <==> q in d.pendingRequests.value && q != pid {
      WithoutMembership(d.pendingRequests.value, pid, q);
    }
    if pid in d.patients.value then d.(pendingRequests := Some(pending))
    else d.(patients := Some(d.patients.value + [pid]), pendingRequests := Some(pending))
  }

  /** The doctor after declining `pid`: every copy leaves the pending list; patients are untouched. */
  function Declined(d: Doctor, pid: Id): (r: Doctor)
    requires d.pendingRequests.Some?
    ensures r.pendingRequests.Some? && pid !in r.pendingRequests.value
    ensures multiset(r.pendingRequests.value) == multiset(d.pendingRequests.value)[pid := 0]
    ensures forall q :: q != pid ==> (q in r.pendingRequests.value <==> q in d.pendingRequests.value)
    ensures r == d.(pendingRequests := r.pendingRequests)
  {
    WithoutCounts(d.pendingRequests.value, pid);
    var pending := Without(d.pendingRequests.value, pid);
    forall q ensures q in pending <==> q in d.pendingRequests.value && q != pid {
      WithoutMembership(d.pendingRequests.value, pid, q);
    }
    d.(pendingRequests := Some(pending))
  }

  /** Accepting or declining a pending request. The pending test comes before the action
      is looked at, so an unknown action for a patient that is not pending answers "no
      pending request". A null pending or patient list makes `.includes` throw (500). */
  function ManagePatientRequestReply(db: Db, did: Id, pid: Id, action: string): (r: Reply)
    ensures did !in db.doctors ==> r == Reply(NotFound, db)
    ensures did in db.doctors && db.doctors[did].pendingRequests.None? ==> r == Reply(ServerError, db)
    ensures did in db.doctors && db.doctors[did].pendingRequests.Some? && pid !in db.doctors[did].pendingRequests.value ==>
      r == Reply(BadRequest, db)
    ensures did in db.doctors && db.doctors[did].pendingRequests.Some? && pid in db.doctors[did].pendingRequests.value
            && action == "accept" && db.doctors[did].patients.None? ==>
      r == Reply(ServerError, db)
    ensures did in db.doctors && db.doctors[did].pendingRequests.Some? && pid in db.doctors[did].pendingRequests.value
            && action != "accept" && action != "decline" ==>
      r == Reply(BadRequest, db)
    ensures did in db.doctors && db.doctors[did].pendingRequests.Some? && pid in db.doctors[did].pendingRequests.value
            && ((action == "accept" && db.doctors[did].patients.Some?) || action == "decline") ==>
      r.status == Ok
    ensures r.status != Ok ==> r.db == db
    ensures r.status == Ok ==>
      && did in db.doctors
      && db.doctors[did].pendingRequests.Some? && pid in db.doctors[did].pendingRequests.value
      && r.db == db.(doctors := r.db.doctors)
      && did in r.db.doctors && r.db.doctors == db.doctors[did := r.db.doctors[did]]
      && (action == "accept" ==> db.doctors[did].patients.Some? && r.db.doctors[did] == Accepted(db.doctors[did], pid))
      && (action != "accept" ==> action == "decline" && r.db.doctors[did] == Declined(db.doctors[did], pid))
  {
    if did !in db.doctors then Reply(NotFound, db)
    else
      var d := db.doctors[did];
      if d.pendingRequests.None? then Reply(ServerError, db)
      else if pid !in d.pendingRequests.value then Reply(BadRequest, db)
      else if action == "accept" then
        if d.patients.None? then Reply(ServerError, db)
        else Reply(Ok, db.(doctors := db.doctors[did := Accepted(d, pid)]))
      else if action == "decline" then Reply(Ok, db.(doctors := db.doctors[did := Declined(d, pid)]))
      else Reply(BadRequest, db)
  }

  method ManagePatientRequest(store: Store, did: Id, pid: Id, action: string) returns (status: Status)
    modifies store
    ensures Reply(status, store.State()) == ManagePatientRequestReply(old(store.State()), did, pid, action)
  {
    if did !in store.doctors {
      return NotFound;
    }
    var doctor := store.doctors[did];
    if doctor.pendingRequests.None? {
      return ServerError;
    }
    if pid !in doctor.pendingRequests.value {
      return BadRequest;
    }
    if action == "accept" {
      if doctor.patients.None? {
        return ServerError;
      }
      if pid !in doctor.patients.value {
        doctor := doctor.(patients := Some(doctor.patients.value + [pid]));
      }
      doctor := doctor.(pendingRequests := Some(Without(doctor.pendingRequests.value, pid)));
      store.doctors := store.doctors[did := doctor];
      status := Ok;
    } else if action == "decline" {
      doctor := doctor.(pendingRequests := Some(Without(doctor.pendingRequests.value, pid)));
      store.doctors := store.doctors[did := doctor];
      status := Ok;
    } else {
      status := BadRequest;
    }
  }

  /** No patient id is both pending and accepted at one doctor. */
  ghost predicate PendingApart(d: Doctor)
  {
    d.pendingRequests.Some? && d.patients.Some? ==>
      forall q :: q in d.pendingRequests.value ==> q !in d.patients.value
  }

  /** Accepting and declining keep pending and accepted patients apart. */
  lemma ResolvingKeepsApart(d: Doctor, pid: Id)
    requires d.pendingRequests.Some? && PendingApart(d)
    ensures d.patients.Some? ==> PendingApart(Accepted(d, pid))
    ensures PendingApart(Declined(d, pid))
  {
  }

  // ---------------------------------------------------------------------------
  // Removing a patient
  // ---------------------------------------------------------------------------

  /** Removing a patient from a doctor: every copy of `pid` leaves the patient list (a
      missing list counts as empty); the pending list and the patient's own record stay. */
  function DeletePatientReply(db: Db, did: Id, pid: Id, validId: Id -> bool): (r: Reply)
    ensures !validId(did) ==> r == Reply(BadRequest, db)
    ensures validId(did) && did !in db.doctors ==> r == Reply(NotFound, db)
    ensures validId(did) && did in db.doctors ==>
      && r.status == Ok
      && did in r.db.doctors && r.db == db.(doctors := db.doctors[did := r.db.doctors[did]])
      && r.db.doctors[did] == db.doctors[did].(patients := r.db.doctors[did].patients)
      && r.db.doctors[did].patients == Some(Without(db.doctors[did].patients.GetOr([]), pid))
  {
    if !validId(did) then Reply(BadRequest, db)
    else if did !in db.doctors then Reply(NotFound, db)
    else
      var d := db.doctors[did];
      Reply(Ok, db.(doctors := db.doctors[did := d.(patients := Some(Without(d.patients.GetOr([]), pid)))]))
  }

  method DeletePatient(store: Store, did: Id, pid: Id, validId: Id -> bool) returns (status: Status)
    modifies store
    ensures Reply(status, store.State()) == DeletePatientReply(old(store.State()), did, pid, validId)
  {
    if !validId(did) {
      return BadRequest;
    }
    if did !in store.doctors {
      return NotFound;
    }
    var doctor := store.doctors[did];
    doctor := doctor.(patients := Some(Without(doctor.patients.GetOr([]), pid)));
    store.doctors := store.doctors[did := doctor];
    status := Ok;
  }

  /** After a successful removal the patient is in no position of the list, and every other
      patient keeps its multiplicity. */
  lemma DeletePatientRemovesAll(db: Db, did: Id, pid: Id, validId: Id -> bool)
    requires DeletePatientReply(db, did, pid, validId).status == Ok
    ensures var ps := DeletePatientReply(db, did, pid, validId).db.doctors[did].patients;
            ps.Some? && multiset(ps.value) == multiset(db.doctors[did].patients.GetOr([]))[pid := 0]
  {
    WithoutCounts(db.doctors[did].patients.GetOr([]), pid);
  }

  /** Removing the same patient twice is removing it once. */
  lemma DeletePatientIdempotent(db: Db, did: Id, pid: Id, validId: Id -> bool)
    ensures var r := DeletePatientReply(db, did, pid, validId);
            DeletePatientReply(r.db, did, pid, validId) == r
  {
    var r := DeletePatientReply(db, did, pid, validId);
    if r.status == Ok {
      var d := db.doctors[did];
      WithoutIdempotent(d.patients.GetOr([]), pid);
      var d' := r.db.doctors[did];
      assert d'.(patients := Some(Without(d'.patients.GetOr([]), pid))) == d';
    }
  }

  // ---------------------------------------------------------------------------
  // Edits
  // ---------------------------------------------------------------------------

  /** A doctor editing a patient's care details. Each list replaces the stored one whenever
      it is given: an array is truthy even when empty, so an empty list does clear the field. */
  function EditPatientDetailsReply(db: Db, pid: Id, diseases: Option<seq<string>>, treatment: Option<seq<string>>,
                                   medicine: Option<seq<string>>): (r: Reply)
    ensures pid !in db.patients ==> r == Reply(NotFound, db)
    ensures pid in db.patients ==>
      && r.status == Ok
      && pid in r.db.patients && r.db == db.(patients := db.patients[pid := r.db.patients[pid]])
      && r.db.patients[pid] == db.patients[pid].(diseases := r.db.patients[pid].diseases,
                                                  treatment := r.db.patients[pid].treatment,
                                                  medicine := r.db.patients[pid].medicine)
      && r.db.patients[pid].diseases == diseases.GetOr(db.patients[pid].diseases)
      && r.db.patients[pid].treatment == treatment.GetOr(db.patients[pid].treatment)
      && r.db.patients[pid].medicine == medicine.GetOr(db.patients[pid].medicine)
  {
    if pid !in db.patients then Reply(NotFound, db)
    else
      var p := db.patients[pid];
      var p' := p.(diseases := diseases.GetOr(p.diseases), treatment := treatment.GetOr(p.treatment),
                   medicine := medicine.GetOr(p.medicine));
      Reply(Ok, db.(patients := db.patients[pid := p']))
  }

  method EditPatientDetails(store: Store, pid: Id, diseases: Option<seq<string>>, treatment: Option<seq<string>>,
                            medicine: Option<seq<string>>)
    returns (status: Status)
    modifies store
    ensures Reply(status, store.State()) == EditPatientDetailsReply(old(store.State()), pid, diseases, treatment, medicine)
  {
    if pid !in store.patients {
      return NotFound;
    }
    var patient := store.patients[pid];
    patient := patient.(diseases := diseases.GetOr(patient.diseases));
    patient := patient.(treatment := treatment.GetOr(patient.treatment));
    patient := patient.(medicine := medicine.GetOr(patient.medicine));
    store.patients := store.patients[pid := patient];
    status := Ok;
  }

  /** A doctor editing itself. `name` and `specialty` replace the stored value when truthy;
      a given hospital list replaces the whole field, so it drops every hospital not in it,
      and no hospital record is told. */
  function EditDoctorDetailsReply(db: Db, did: Id, name: string, hospital: Option<seq<Id>>, specialty: string): (r: Reply)
    ensures did !in db.doctors ==> r == Reply(NotFound, db)
    ensures did in db.doctors ==>
      && r.status == Ok
      && did in r.db.doctors && r.db == db.(doctors := db.doctors[did := r.db.doctors[did]])
      && r.db.doctors[did] == db.doctors[did].(name := r.db.doctors[did].name, hospital := r.db.doctors[did].hospital,
                                                specialty := r.db.doctors[did].specialty)
      && r.db.doctors[did].name == (if name == "" then db.doctors[did].name else name)
      && r.db.doctors[did].specialty == (if specialty == "" then db.doctors[did].specialty else specialty)
      && r.db.doctors[did].hospital == (if hospital.Some? then hospital else db.doctors[did].hospital)
  {
    if did !in db.doctors then Reply(NotFound, db)
    else
      var d := db.doctors[did];
      var d' := d.(name := Or(name, d.name), hospital := if hospital.Some? then hospital else d.hospital,
                   specialty := Or(specialty, d.specialty));
      Reply(Ok, db.(doctors := db.doctors[did := d']))
  }

  method EditDoctorDetails(store: Store, did: Id, name: string, hospital: Option<seq<Id>>, specialty: string)
    returns (status: Status)
    modifies store
    ensures Reply(status, store.State()) == EditDoctorDetailsReply(old(store.State()), did, name, hospital, specialty)
  {
    if did !in store.doctors {
      return NotFound;
    }
    var doctor := store.doctors[did];
    if name != "" {
      doctor := doctor.(name := name);
    }
    if hospital.Some? {
      doctor := doctor.(hospital := hospital);
    }
    if specialty != "" {
      doctor := doctor.(specialty := specialty);
    }
    store.doctors := store.doctors[did := doctor];
    status := Ok;
  }

  // ---------------------------------------------------------------------------
  // The hospitals of a doctor
  // ---------------------------------------------------------------------------

  /** The fields the query fetches: `findById(id, "name city")`. */
  datatype HospitalSummary = HospitalSummary(name: string, city: string)

  function Summaries(hs: seq<Hospital>): (r: seq<HospitalSummary>)
    ensures |r| == |hs|
    ensures forall k :: 0 <= k < |hs| ==> r[k] == HospitalSummary(hs[k].name, hs[k].city)
  {
    if hs == [] then []
    else Summaries(hs[..|hs| - 1]) + [HospitalSummary(hs[|hs| - 1].name, hs[|hs| - 1].city)]
  }

  /** The hospitals a doctor lists, by name and city, in list order; ids that name no
      hospital are skipped. The final "not found" test of the handler reads an array, which
      is always truthy, so once the doctor is found the answer is never 404. */
  method GetDoctorHospitals(db: Db, did: Id) returns (status: Status, hospitals: seq<HospitalSummary>)
    ensures status == NotFound <==> did !in db.doctors
    ensures did !in db.doctors ==> hospitals == []
    ensures did in db.doctors && db.doctors[did].hospital.None? ==> status == ServerError && hospitals == []
    ensures did in db.doctors && db.doctors[did].hospital.Some? ==>
      && status == Ok
      && hospitals == Summaries(Resolve(db.doctors[did].hospital.value, db.hospitals))
      && |hospitals| <= |db.doctors[did].hospital.value|
  {
    hospitals := [];
    if did !in db.doctors {
      return NotFound, [];
    }
    var doctor := db.doctors[did];
    if doctor.hospital.None? {
      // `doctor.hospital.map` on null throws; the catch answers 500.
      return ServerError, [];
    }
    var ids := doctor.hospital.value;
    for i := 0 to |ids|
      invariant hospitals == Summaries(Resolve(ids[..i], db.hospitals))
    {
      assert ids[..i + 1][..i] == ids[..i];
      if ids[i] in db.hospitals {
        var found := db.hospitals[ids[i]];
        hospitals := hospitals + [HospitalSummary(found.name, found.city)];
      }
    }
    assert ids[..|ids|] == ids;
    ResolveLength(ids, db.hospitals);
    status := Ok;
  }
}
